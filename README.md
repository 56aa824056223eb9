# Libria decision logic in Dafny

Libria is a Streamlit app. The user photographs a book cover. A vision model
reads the title and author, and a webhook returns a research record. The app
then renders a PDF dossier and can e-mail it. Around that I/O sit a few
self-contained pieces of decision logic. This project models them and proves
what each one promises:

- **JSON salvage** (`safe_json_parse`, module `JsonRecovery`). It strips the
  model's reply and decodes it strictly. On failure it retries once on the
  span from the first `{` to the last `}`. The strict JSON decoder is a
  function parameter, so every property holds for any decoder.
- **Image handling** (module `DataUrl`). This covers the 5 MiB upload gate
  and `image_bytes_to_data_url`. The latter is Base64 with the standard
  alphabet and `=` padding (section 4 of RFC 4648) inside a `data:` URL
  (section 3 of RFC 2397).
- **Usage quota** (`check_rate_limit` / `increment_usage`, module
  `RateLimiter`). It is modelled as a class `Session` whose one field is the
  optional session counter. The environment (`RATE_LIMIT_MAX`, `EVAL_TOKEN`)
  and the URL `token` are `Option` parameters.
- **File-name sanitiser** (`sanitizar_nombre_archivo`, module
  `EmailSender`). It is a method with the source's loop over the replacement
  table, proved equal to a per-character translation. That is followed by
  the whitespace collapse, the 50-character cap and `strip()`.
- **Form validators** (`validar_email`, `validar_telefono`, module
  `UiComponents`). Each regular expression is a hand-written recogniser.
  The email recogniser is proved to decide exactly the pattern's meaning.
  The phone validator keeps the code's two steps (remove separators, then
  match `\+\d{10,15}`), and lemmas state what it accepts and refuses.
- **PDF dossier fields** (`hex_to_rgb` and the field-assembly block of
  `generar_pdf`, module `PdfGenerator`).
  - The research record is a value. Each key is `Absent`, `Null` or
    `Present`, because `d.get(k, default)` treats a missing key and a JSON
    `null` differently.
  - The four lists the source builds by `append`/`extend` are built the same
    way in methods. Each method is proved against a specification function.
  - Those functions carry the dossier's rules: fallbacks, caps, order, and
    de-duplication of the audience list.
  - A `null` key that the code slices or lower-cases raises in Python. Here
    that is a `Failure` naming the first such key in the order `generar_pdf`
    reaches it.

`Text` holds the Python string operations the sources use: `strip()`,
`split()`, `" ".join`, `split(sep)`, `replace`, `find`/`rfind` and `lower()`
on ASCII. `Wrappers` holds `Option` and `Result`.

The quota and the colour parser behave as follows:
- An evaluator gets `"∞"` with no limit and no counter. There is no separate
  evaluator limit.
- The remaining count is returned unclamped, so it can be negative.
- The environment variables read are `RATE_LIMIT_MAX` and `EVAL_TOKEN`.
- Each two-character slice of `hex_to_rgb` goes through `int(x, 16)`. That
  call takes a sign, and it skips surrounding tabs, line breaks, vertical
  tabs, form feeds and spaces, but not the separators U+001C..U+001F that
  `strip()` removes. So a component can be negative
  (`PdfGenerator.HexToRgbRange`), and `#\x1c1ABCD` is refused
  (`PdfGenerator.SeparatorColourIsRefused`). The brand colours all parse to
  the intended bytes.

## Model

| member | source | states |
|---|---|---|
| JsonRecovery.SafeJsonParse | app.py:233-283 | a strict success on the stripped text is returned as it is, whatever JSON value it is; after a strict failure with no `{` before a `}` the strict error comes out |
| JsonRecovery.RecoveryCondition | app.py:266-270 | the retry guard (`start != -1 and end != -1 and end > start`) holds exactly when some `{` precedes some `}`, and then `find`/`rfind` give the first `{` and the last `}` |
| JsonRecovery.RetryDecodesSpan | app.py:266-279 | after a strict failure with the first `{` before the last `}`, the answer (value or the retry's own error) is the decode of exactly `t[start:end+1]`; any success is the decode of the text or of a braced span of it, so nothing is guessed |
| JsonRecovery.RecoverySpanIsBraced | app.py:266-273 | the retried span has at least two characters, starts with `{` and ends with `}` |
| JsonRecovery.OnlyStrippedTextMatters | app.py:255 | two replies with the same `strip()` get the same answer |
| JsonRecovery.SurroundedSpanIsRecovered | app.py:255-275 | prose or a fence around one braced object, with no `{` before it and no `}` after it, is answered by the decode of exactly that object |
| JsonRecovery.FencedReplyIsRecovered | app.py:265-275 | the fenced reply `Here is the JSON: ```json {...} ```` is answered by the decode of the object alone |
| JsonRecovery.NoBracesKeepsFirstError | app.py:281-283 | a reply without braces gets the strict decoder's error |
| JsonRecovery.UnclosedObjectKeepsFirstError | app.py:266-283 | `{broken: true` (no `}`) gets the strict error, with no retry |
| JsonRecovery.BracesOutOfOrderKeepFirstError | app.py:270-283 | `} {` (the last `}` before the first `{`) gets the strict error |
| JsonRecovery.EmptyReplyKeepsFirstError | app.py:255-283 | the empty reply is decoded once and its error comes out |
| DataUrl.ImageTooLarge | app.py:383 | an upload is refused exactly when it is longer than 5·1024·1024 = 5 242 880 bytes; exactly 5 MiB passes |
| DataUrl.SextetRoundTrip | app.py:227 | the alphabet of section 4 of RFC 4648 is a bijection: decoding the character for a 6-bit value gives the value back |
| DataUrl.SextetsGiveBytesBack | app.py:227 | the three bytes of a group are recovered from its four 6-bit values |
| DataUrl.Encode | app.py:227 | `b64encode` output has length 4·⌈n/3⌉, alphabet characters first and then exactly the `=` padding (0, 2 or 1 for n mod 3 = 0, 1, 2) |
| DataUrl.GroupRoundTrip | app.py:227 | a full group of three bytes decodes back to those bytes |
| DataUrl.OneRoundTrip | app.py:227 | a final single byte, written with `==`, decodes back |
| DataUrl.TwoRoundTrip | app.py:227 | two final bytes, written with `=`, decode back |
| DataUrl.EncodeDecodeRoundTrip | app.py:227 | decoding the Base64 text of any byte string gives that byte string back |
| DataUrl.Decode | app.py:227 | the inverse the round trip is stated against: a decodable text has exactly the length `b64encode` gives its bytes, 4·⌈n/3⌉ |
| DataUrl.ImageBytesToDataUrl | app.py:206-230 | the URL starts with `data:<mime>;base64,`, its payload has 4·⌈n/3⌉ characters and ends with the `=` padding of the image length |
| DataUrl.DataUrlCarriesImage | app.py:227-230 | the URL is `data:` + mime + `;base64,` + a payload of 4·⌈n/3⌉ alphabet-or-`=` characters that decodes to the image |
| DataUrl.EncodeFVector | app.py:227 | `f` encodes to `Zg==` (test vector of section 10 of RFC 4648): one byte leaves two pad characters |
| DataUrl.EncodeFoVector | app.py:227 | `fo` encodes to `Zm8=` (section 10 of RFC 4648): two bytes leave one |
| DataUrl.EncodeFooVector | app.py:227 | `foo` encodes to `Zm9v` (section 10 of RFC 4648): three bytes need no padding |
| DataUrl.EncodeFoobarVector | app.py:227 | `foobar` encodes to `Zm9vYmFy` (section 10 of RFC 4648): two groups one after the other |
| RateLimiter.IsEvaluator | utils/rate_limiter.py:96 | evaluator mode needs the token to equal `EVAL_TOKEN` exactly, and an empty or unset `EVAL_TOKEN` admits nobody |
| RateLimiter.CheckOutcome | utils/rate_limiter.py:93-112 | `"∞"` exactly for the evaluator, who is always allowed; otherwise remaining = limit − counter (absent counts as 0) and allowed iff remaining > 0 |
| RateLimiter.CountAfterCheck | utils/rate_limiter.py:96-103 | the evaluator's counter is left as it is, even absent; otherwise the counter exists afterwards with its old value or 0 |
| RateLimiter.CountAfterIncrement | utils/rate_limiter.py:126-129 | the counter becomes its old value (or 0) plus one |
| RateLimiter.Session.constructor | utils/rate_limiter.py:102 | a new session has no `usage_count` |
| RateLimiter.Session.CheckRateLimit | utils/rate_limiter.py:82-112 | the answer is `CheckOutcome` with the token and `EVAL_TOKEN` defaulting to `""` and the limit to 3; the only state change is `CountAfterCheck`; the device id is not read |
| RateLimiter.Session.IncrementUsage | utils/rate_limiter.py:119-129 | the new counter is `CountAfterIncrement` of the old one |
| RateLimiter.CountAfterVisit | app.py:169-180 | after one run the counter is absent only for an evaluator with no counter whose search failed; otherwise it is the old value (or 0) plus one exactly when the check allowed a search and it succeeded |
| RateLimiter.CountAfterVisits | app.py:169-180 | over a sequence of runs an existing counter stays present, never goes down, and grows by at most the number of successful searches |
| RateLimiter.Session.Visit | app.py:169-180 | one script run: a search happens exactly when the check allows it, and the counter ends as `CountAfterVisit` (check, then one increment after a successful search) |
| RateLimiter.EvaluatorIsUnlimited | utils/rate_limiter.py:93-98 | a non-empty token equal to `EVAL_TOKEN` gives `(True, "∞")` whatever the counter and limit, and the counter is neither read nor created |
| RateLimiter.EmptyTokenIsNotEvaluator | utils/rate_limiter.py:93-96 | an empty token is a normal user even when `EVAL_TOKEN` is empty or unset |
| RateLimiter.EvaluatorTokenIsCaseSensitive | utils/rate_limiter.py:96 | `eval2024` against `EVAL2024` is a normal user and is stopped at the limit |
| RateLimiter.RemainingIsNotClamped | utils/rate_limiter.py:109-112 | for a normal user, any counter past the limit gives a refusal with a negative remaining count (limit − counter) |
| RateLimiter.RepeatedCheckIsStable | utils/rate_limiter.py:102-112 | a second check with no increment in between changes nothing and answers the same |
| RateLimiter.IncrementIsNotIdempotent | utils/rate_limiter.py:126-129 | an increment raises the counter, and two increments add two |
| RateLimiter.ThreeFreeSearches | utils/rate_limiter.py:106-110 | with the default limit, a fresh session gets three successful searches and the fourth check stops it |
| RateLimiter.StandardVisitsStayWithinLimit | app.py:169-180 | for a normal user starting within the limit, any sequence of runs ends with the counter at min(limit, start + successes), so never past the limit |
| RateLimiter.EvaluatorSearchesAreCounted | app.py:489 | the increment after a search does not look at the token, so four evaluator searches leave the counter at 4, past the limit, once the token is gone |
| EmailSender.TranslateChar | utils/email_sender.py:144-156 | what the table makes of one character: at most one character, the character itself exactly when it is not a key, and never a key |
| EmailSender.Translate | utils/email_sender.py:144-160 | the per-character translation is no longer than the input and contains no key |
| EmailSender.TableIsConsistent | utils/email_sender.py:144-156 | each entry maps its key to that key's translation, no replacement contains a key, and every key has an entry |
| EmailSender.ReplaceAll | utils/email_sender.py:159-160 | applying a table whose replacements have at most one character never lengthens the name |
| EmailSender.ReplaceShrinks | utils/email_sender.py:160 | `replace(c, rep)` with a replacement of at most one character never lengthens the text |
| EmailSender.ReplaceAbsent | utils/email_sender.py:160 | `replace` of a character that does not occur changes nothing |
| EmailSender.ReplaceAllOnChar | utils/email_sender.py:159-160 | after the first n steps a single character is either untouched (its key not met yet) or already in its final form |
| EmailSender.ReplaceAllAppend | utils/email_sender.py:159-160 | the loop acts on a concatenation piece by piece |
| EmailSender.ReplaceAllIsTranslate | utils/email_sender.py:159-160 | the whole replacement loop equals the per-character translation |
| EmailSender.TranslateChars | utils/email_sender.py:144-160 | each character left by the loop is `-`, a space, or a non-key character of the input |
| EmailSender.Capped | utils/email_sender.py:166-167 | the result has at most 50 characters: the first 47 plus `...` when the input was longer than 50, the input itself otherwise |
| EmailSender.CappedKeepsCollapsed | utils/email_sender.py:163-167 | capping a collapsed name keeps it collapsed |
| EmailSender.StripOfCollapsed | utils/email_sender.py:169 | the final `strip()` changes nothing, because the name is already collapsed |
| EmailSender.Sanitized | utils/email_sender.py:131-169 | the sanitised name has at most 50 characters and neither starts nor ends with whitespace |
| EmailSender.SanitizeFileName | utils/email_sender.py:131-169 | the loop over the table, the collapse, the cap and the strip compute `Sanitized(name)` |
| EmailSender.SanitizedShape | utils/email_sender.py:131-169 | the result has no forbidden character, no leading, trailing or doubled whitespace, at most 50 characters (47 + `...` exactly when the collapsed name was longer), and only characters of the input, `-`, spaces and dots |
| EmailSender.SanitizeIsIdempotent | utils/email_sender.py:131-169 | sanitising a sanitised name returns it unchanged |
| EmailSender.NothingLeft | utils/email_sender.py:159-169 | a name made only of deleted characters and whitespace becomes `""` |
| EmailSender.AllSpaceTranslate | utils/email_sender.py:144-160 | such a name translates to whitespace only |
| UiComponents.EmailBodyOk | utils/ui_components.py:195 | an accepted string has at least six characters (`a@b.cd`) and starts with a local-part character |
| UiComponents.ValidEmail | utils/ui_components.py:195-197 | `validar_email` accepts exactly the strings that match the pattern, or match it and then end in one line feed (the `$` anchor) |
| UiComponents.EmailBodyOkIsPattern | utils/ui_components.py:195 | the recogniser accepts exactly the strings split as `[A-Za-z0-9._%+-]+ @ [A-Za-z0-9.-]+ . [A-Za-z]{2,}` |
| UiComponents.BodyHasOneAt | utils/ui_components.py:195 | in a matching string the `@` the recogniser finds is the only one and is not first |
| UiComponents.AcceptedEmailHasOneAt | utils/ui_components.py:195-197 | an accepted address has exactly one `@`, and not at the start |
| UiComponents.AcceptedEmailEndsInLetter | utils/ui_components.py:195 | a match ends in an ASCII letter |
| UiComponents.EmailTrailingLineFeed | utils/ui_components.py:197 | `$` lets one trailing line feed through: a match followed by `\n` is accepted |
| UiComponents.EmailTrailingSpace | utils/ui_components.py:197 | any string followed by a space is refused |
| UiComponents.EmailOfParts | utils/ui_components.py:195 | a non-empty local part, a non-empty domain and a top-level label of at least two letters, joined by `@` and `.`, are accepted |
| UiComponents.EmailExample | utils/ui_components.py:186-187 | `usuario@example.com` is accepted |
| UiComponents.EmailCounterExample | utils/ui_components.py:188-189 | `email-invalido` is refused |
| UiComponents.Clean | utils/ui_components.py:222 | the cleaned number is no longer than the input and holds no whitespace, `-`, `(` or `)` |
| UiComponents.CleanKeepsOthers | utils/ui_components.py:222 | every character other than a separator is kept, as many times as it occurs |
| UiComponents.CleanOfChar | utils/ui_components.py:222 | one character is removed when it is a separator and kept otherwise; with `CleanAppend` this fixes `Clean` on every string |
| UiComponents.CleanAppend | utils/ui_components.py:222 | cleaning acts on a concatenation piece by piece |
| UiComponents.CleanDropsSeparator | utils/ui_components.py:222 | a separator anywhere is removed |
| UiComponents.ValidPhone | utils/ui_components.py:222-227 | an accepted number has at least eleven characters, and each of its characters is a separator, a digit or a `+`, so a letter anywhere is refused |
| UiComponents.CleanedCharacters | utils/ui_components.py:222 | every non-separator character of the input is still there after cleaning |
| UiComponents.SeparatorAnywhere | utils/ui_components.py:222-227 | inserting a separator anywhere does not change the verdict |
| UiComponents.CleanKeepsDigits | utils/ui_components.py:222 | a string of `+` and digits is left as it is |
| UiComponents.DigitCount | utils/ui_components.py:225-227 | `+` followed by digits is accepted iff there are 10 to 15 digits |
| UiComponents.PlusRequired | utils/ui_components.py:225-227 | a cleaned number not starting with `+` is refused |
| UiComponents.PhoneExample | utils/ui_components.py:209 | `+593999888777` is accepted |
| UiComponents.PhoneExampleSeparated | utils/ui_components.py:208-211 | `+593`, `999`, `888`, `777` split by any one kind of separator is accepted |
| UiComponents.PhoneDocumentedForms | utils/ui_components.py:210-211 | `+593-999-888-777` and `+593 999 888 777` are accepted |
| UiComponents.PhoneCounterExamples | utils/ui_components.py:225-227 | 9 digits, 16 digits, a missing `+` and a trailing letter (`+59399988877a`) are refused |
| PdfGenerator.LStripHash | utils/pdf_generator.py:43 | `lstrip('#')` is no longer than its input and does not start with `#` |
| PdfGenerator.LStripHashIsSuffix | utils/pdf_generator.py:43 | the result is a suffix of the input, and everything dropped is `#` |
| PdfGenerator.LStripHashes | utils/pdf_generator.py:43 | any number of leading `#` is removed and the rest kept |
| PdfGenerator.Slice | utils/pdf_generator.py:44 | `s[i:i+2]` is at most two characters and is exactly `s[i..i+2]` when `s` is long enough |
| PdfGenerator.HexValue | utils/pdf_generator.py:44 | the value of n hex digits lies in 0..16^n − 1 |
| PdfGenerator.IntBase16 | utils/pdf_generator.py:44 | for the text of at most two characters that `hex_to_rgb` passes, `int(x, 16)` succeeds exactly when the text, without the tabs, line breaks, vertical tabs, form feeds and spaces around it, is an optional sign and one or more hex digits; the value is the digits' value, negated after `-`; a failure is `ValueError` naming `x` |
| PdfGenerator.HexToRgb | utils/pdf_generator.py:43-44 | a colour parses only with at least five characters after the `#`s; a colour of `#`s only fails on the empty first slice |
| PdfGenerator.RgbOfDigits | utils/pdf_generator.py:44 | all three slices must parse, so fewer than five characters are refused, and the error names one of the three slices |
| PdfGenerator.IntBase16OfDigits | utils/pdf_generator.py:44 | on plain hex digits `int(x, 16)` is their value |
| PdfGenerator.IntBase16OfPair | utils/pdf_generator.py:44 | a parsed slice of at most two characters lies in −255..255, and in 0..255 without a `-` |
| PdfGenerator.HexToRgbRange | utils/pdf_generator.py:43-44 | each parsed component lies in −255..255, and in 0..255 when the six characters hold no `-` |
| PdfGenerator.HexPairRoundTrip | utils/pdf_generator.py:44 | two-digit hex notation of a byte parses back to the byte |
| PdfGenerator.RgbOfPairs | utils/pdf_generator.py:44 | three hex pairs parse to their three bytes |
| PdfGenerator.HexToRgbRoundTrip | utils/pdf_generator.py:43-44 | any number of `#` followed by the notation of (r, g, b) parses to (r, g, b) |
| PdfGenerator.CyanParses | utils/pdf_generator.py:22 | `#00D9FF` parses to (0, 217, 255) |
| PdfGenerator.DarkBlueParses | utils/pdf_generator.py:23 | `#003D5C` parses to (0, 61, 92) |
| PdfGenerator.GreenParses | utils/pdf_generator.py:24 | `#10B981` parses to (16, 185, 129) |
| PdfGenerator.BlackParses | utils/pdf_generator.py:25 | `#000000` parses to (0, 0, 0) |
| PdfGenerator.GreyParses | utils/pdf_generator.py:26 | `#666666` parses to (102, 102, 102) |
| PdfGenerator.IntStrip | utils/pdf_generator.py:44 | the whitespace `int()` skips is gone from both ends, and the result is no longer than the input |
| PdfGenerator.IntSkipsCSpace | utils/pdf_generator.py:44 | `int(" 1\n", 16)` is 1 |
| PdfGenerator.IntKeepsSeparator | utils/pdf_generator.py:44 | `int("\x1c1", 16)` fails: U+001C is not skipped |
| PdfGenerator.SeparatorColourIsRefused | utils/pdf_generator.py:43-44 | `hex_to_rgb("#\x1c1ABCD")` fails on its first slice |
| PdfGenerator.EmptyIsNotANumber | utils/pdf_generator.py:44 | `int("", 16)` fails |
| PdfGenerator.ShortInputIsRefused | utils/pdf_generator.py:43-44 | after the `#` are gone, four characters or fewer leave the third slice empty, and the call fails |
| PdfGenerator.ShorthandIsRefused | utils/pdf_generator.py:38-44 | the shorthand `#FFF` is refused rather than expanded |
| PdfGenerator.Field.Get | utils/pdf_generator.py:87-89 | `d.get(k, default)` gives the default for a missing key, `None` for JSON null and the value otherwise |
| PdfGenerator.ListOr | utils/pdf_generator.py:95-96 | the list `d.get(k, [])` contributes: its value, or nothing |
| PdfGenerator.Take | utils/pdf_generator.py:95-97 | `s[:n]` is the prefix of length min(n, len(s)) |
| PdfGenerator.Fallback | utils/pdf_generator.py:87-89 | a truthy `titulo`/`autor` argument wins, otherwise the record's key with its default |
| PdfGenerator.TitleFallbacks | utils/pdf_generator.py:87-89 | the title is `Título no disponible` exactly when the argument says so, or it is empty and the key is missing or says so; it is `None` exactly when the argument is empty and the key is null; an empty argument counts as none |
| PdfGenerator.GenreItems | utils/pdf_generator.py:92-96 | the genres are the truthy principal genre, then the first two secondary genres, then the first two categories, so at most 5 |
| PdfGenerator.GenreText | utils/pdf_generator.py:97 | no genres give `No especificado`; otherwise splitting the line on `", "` gives back the first five genres when none holds `", "` |
| PdfGenerator.GenreTextLists | utils/pdf_generator.py:97 | the genre line is `No especificado` exactly when no genre was collected; otherwise splitting it on `", "` gives the genres back |
| PdfGenerator.ToneParts | utils/pdf_generator.py:103-107 | at least one tone part, none holding `", "`, and rejoined with `", "` they are the tone with `" y "` replaced |
| PdfGenerator.ConceptItems | utils/pdf_generator.py:100-107 | the concepts are the themes, then the keywords, then the tone parts when the tone is truthy |
| PdfGenerator.ConceptText | utils/pdf_generator.py:110-118 | the line starts with the first 8 concepts joined by `", "` and ends with a truthy main message; it is the message alone when the concepts give no text, and just the joined concepts without one |
| PdfGenerator.ConceptTextLists | utils/pdf_generator.py:110-118 | with at least one concept, the leading part splits back into the first 8 concepts, and a truthy message follows it after `". "` |
| PdfGenerator.Synopsis | utils/pdf_generator.py:121 | a truthy `sinopsis` is used, otherwise `sinopsis_breve` with its default |
| PdfGenerator.SynopsisFallbacks | utils/pdf_generator.py:121 | the synopsis is `No disponible` exactly when it says so or `sinopsis_breve` is missing; it is `None` exactly when `sinopsis` is falsy and `sinopsis_breve` is null; an empty, null or missing `sinopsis` all fall through the same way |
| PdfGenerator.Dedup | utils/pdf_generator.py:130 | the de-duplicated list has no repeats and the same members |
| PdfGenerator.AudienceText | utils/pdf_generator.py:130 | the audience line joins, in some order, each distinct value of the first 6 audience entries once |
| PdfGenerator.AudienceTextLists | utils/pdf_generator.py:130 | whatever order the set takes, splitting the line gives distinct parts that are exactly the values among the first 6 entries |
| PdfGenerator.IsPopular | utils/pdf_generator.py:146-147 | only a four- or five-character value starting with `a`/`A` or `m`/`M` counts as popular |
| PdfGenerator.PopularityExamples | utils/pdf_generator.py:146-147 | `Alta` and `MEDIA` count as popular; `baja` and ` alta` do not (no stripping) |
| PdfGenerator.Badges | utils/pdf_generator.py:133-158 | at most 5 badges, each present iff its source is non-empty or truthy (popularity after lower-casing is `alta` or `media`) |
| PdfGenerator.FlagsInOrder | utils/pdf_generator.py:133-158 | badges added in the source's order come out in that fixed order whatever is present |
| PdfGenerator.BadgesInOrder | utils/pdf_generator.py:133-158 | the badges are in the fixed order Premiado, Adaptación, Popular, Medios, Serie |
| PdfGenerator.NullKeys | utils/pdf_generator.py:79-161 | at most 8 errors, and none exactly when none of the eight keys that are sliced, iterated or lower-cased is `null` |
| PdfGenerator.GenreLine | utils/pdf_generator.py:92-97 | the appends build `GenreText(GenreItems(...))`; a null secondary-genre or category list is the first error |
| PdfGenerator.ConceptLine | utils/pdf_generator.py:100-118 | the extends build `ConceptText(ConceptItems(...))`; a null theme or keyword list is the first error |
| PdfGenerator.AudienceLine | utils/pdf_generator.py:127-130 | the extends build an audience line in the sense of `IsAudienceText`; a null audience list is the first error |
| PdfGenerator.BadgeList | utils/pdf_generator.py:133-158 | the appends build `Badges(...)`; a null `popularidad_online` fails with `AttributeError` |
| PdfGenerator.GenerateFields | utils/pdf_generator.py:79-161 | the dossier fails exactly when a sliced, extended or lower-cased key is null, with the first such key; otherwise each field is its specification (title, subtitle, author, genre, concepts, synopsis, ≤ 5 extracts, audience, badges, warnings) |
| PdfGenerator.SplitJoinRoundTrip | utils/pdf_generator.py:97 | joining non-empty, comma-free parts with `", "` and splitting on it gives the parts back |
| PdfGenerator.SplitPartsAreCommaFree | utils/pdf_generator.py:106 | no part of `split(", ")` contains `", "` |
| Text.TrimLeftIsSuffix | app.py:255 | the left trim is a suffix and drops only whitespace |
| Text.TrimRightIsPrefix | app.py:255 | the right trim is a prefix and drops only whitespace |
| Text.StripIsTrimmedInfix | app.py:255 | `strip()` is an infix that drops only whitespace on both sides and neither starts nor ends with whitespace |
| Text.StripNoOp | utils/email_sender.py:169 | a string with no whitespace at either end is its own `strip()` |
| Text.Find | app.py:266 | `find` gives the first index of the character, or −1 exactly when it is absent |
| Text.RFind | app.py:267 | `rfind` gives the last index of the character, or −1 exactly when it is absent |
| Text.ReplaceCharAppend | utils/email_sender.py:160 | replacing a character acts on a concatenation piece by piece |
| Text.ReplaceCharSingle | utils/email_sender.py:160 | on one character, `replace` gives the replacement or the character |
| Text.Split | utils/email_sender.py:163 | `split()` gives non-empty words without whitespace |
| Text.SplitOfJoinedWords | utils/email_sender.py:163 | `split()` of words joined by single spaces gives those words back, so each word is a maximal run |
| Text.CollapseIsCollapsed | utils/email_sender.py:163 | `" ".join(s.split())` has no leading, trailing or doubled whitespace |
| Text.CollapsedIsFixed | utils/email_sender.py:163 | collapsing an already collapsed string changes nothing |
| Text.CollapseKeepsContent | utils/email_sender.py:163 | collapsing keeps every non-whitespace character, in order |
| Text.InNonSpace | utils/email_sender.py:163 | a character survives collapsing iff it occurs and is not whitespace |
| Text.SplitOn | utils/pdf_generator.py:106 | `split(sep)` gives at least one piece |
| Text.SplitOnJoinRoundTrip | utils/pdf_generator.py:106 | joining the pieces of `split(sep)` with `sep` gives the string back |
| Text.AsciiLower | utils/pdf_generator.py:146 | `lower()` keeps the length and lowers each ASCII letter in place |

## Left out

- Streamlit presentation and wiring are not modelled. That covers CSS, the header, the quota banners, the uploader, spinners, `mostrar_progreso_con_mensajes` and `st.stop()`. Only the check-then-stop order is kept, in `RateLimiter.Session.Visit`.
- The device fingerprint (JavaScript run in the browser) is not modelled. `check_rate_limit` never reads the id.
- Network and mail are not modelled: the OpenAI call (`extract_title_author`, `get_openai_client`), the webhook request and `enviar_pdf_email`. The webhook block of app.py is not valid Python as written. Of it only "one `increment_usage` after a successful search" is kept (app.py:489).
- PDF drawing is not modelled: canvas calls, header/footer, the `y_position` layout, `textwrap` and the `/255` float scaling in `hex_to_rgb`. The model stops at the integer triple.
- JsonRecovery.SafeJsonParse: `json.loads` is a parameter, not a JSON decoder. Properties that depend on what a JSON text means (e.g. which object a string decodes to) are out of scope. The exact error object and the logging are not modelled.
- `\s`, `\d`, `str.split()`, `strip()` and `lower()` are taken on ASCII only. Python also treats non-ASCII digits, spaces and letters this way. For the `alta`/`media` comparison this is exact on ASCII input.
- RateLimiter.Session.CheckRateLimit: `RATE_LIMIT_MAX` arrives already converted to an integer. The `ValueError` of `int()` on non-numeric text is not modelled.
- PdfGenerator.IntBase16: the model of `int(x, 16)` is exact on ASCII text of at most two characters, which is all `hex_to_rgb` passes, and it refuses every non-ASCII character. When the text holds a non-ASCII character, Python first turns each non-ASCII whitespace character into a space and each non-ASCII decimal digit into its ASCII digit; ASCII characters, U+001C..U+001F among them, are left as they are. So `int("١٢", 16)` is 18 and `int("1\u3000", 16)` is 1, and the model refuses both. On longer ASCII text Python also accepts underscores between digits and a `0x` prefix (`int("0x1F", 16)` is 31, `int("1_F", 16)` is 31), which the model refuses. In two characters neither fits next to a digit, and `0x` alone is refused by Python and by the model.
- PdfGenerator.GenerateFields: JSON types other than the expected ones are not modelled. Examples are a number where a string is expected, a non-string list item, or a `null` section object. Each record section is an object whose keys may be missing or null.
- PdfGenerator.AudienceLine: `set()` iteration order is unspecified in Python. The contract states the line only up to that order (`IsAudienceText`). `AudienceText` is one realisation, first occurrence first.
- PdfGenerator.Badges: the badges are values of a datatype. `Label` gives the drawn text.
- PdfGenerator.Dossier: the dossier is the data handed to drawing. The subtitle and the warnings list are carried through unchanged.
