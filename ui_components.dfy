/** The two form validators of utils/ui_components.py, each a regular
    expression applied with `re.match`, written here as hand-coded
    recognisers. The email recogniser is proved to decide exactly the
    pattern's meaning (`MatchesEmail`). The phone validator keeps the code's
    two steps, removing the separators and then matching `\+\d{10,15}`, and
    lemmas state which inputs it accepts and which it refuses. `\s` and `\d`
    are taken on ASCII. */
module UiComponents {
  import opened Text

  // ---------------------------------------------------------------- email

  /** `[a-zA-Z0-9._%+-]` */
  predicate IsLocalChar(c: char) {
    IsAsciiLetter(c) || IsAsciiDigit(c) || c == '.' || c == '_' || c == '%' || c == '+' || c == '-'
  }

  /** `[a-zA-Z0-9.-]` */
  predicate IsDomainChar(c: char) {
    IsAsciiLetter(c) || IsAsciiDigit(c) || c == '.' || c == '-'
  }

  predicate AllLocal(s: string) { forall k :: 0 <= k < |s| ==> IsLocalChar(s[k]) }
  predicate AllDomain(s: string) { forall k :: 0 <= k < |s| ==> IsDomainChar(s[k]) }
  predicate AllLetters(s: string) { forall k :: 0 <= k < |s| ==> IsAsciiLetter(s[k]) }

  /** `[a-zA-Z0-9._%+-]+@[a-zA-Z0-9.-]+\.[a-zA-Z]{2,}` matching all of `s`:
      some split `s[..a] @ s[a+1..b] . s[b+1..]` into the three runs. */
  ghost predicate MatchesEmail(s: string) {
    exists a, b :: 0 < a && a + 1 < b && b + 2 < |s| && s[a] == '@' && s[b] == '.' &&
      AllLocal(s[..a]) && AllDomain(s[a + 1..b]) && AllLetters(s[b + 1..])
  }

  /** The pattern without the anchors, decided by locating the `@` and the
      last `.`. */
  function EmailBodyOk(s: string): (r: bool)
    ensures r ==> 6 <= |s| && IsLocalChar(s[0])
  {
    var a := RFind(s, '@');
    if a <= 0 || !AllLocal(s[..a]) then false
    else
      var d := s[a + 1..];
      var b := RFind(d, '.');
      b > 0 && b + 2 < |d| && AllDomain(d[..b]) && AllLetters(d[b + 1..])
  }

  /** `validar_email(email)`: `$` also matches just before a final line
      feed, so one trailing `\n` is accepted. */
  function ValidEmail(email: string): (r: bool)
    ensures r <==> (MatchesEmail(email) ||
                    (|email| > 0 && email[|email| - 1] == '\n' && MatchesEmail(email[..|email| - 1])))
  {
    EmailBodyOkIsPattern(email);
    if |email| > 0 then
      EmailBodyOkIsPattern(email[..|email| - 1]);
      EmailBodyOk(email) || (email[|email| - 1] == '\n' && EmailBodyOk(email[..|email| - 1]))
    else EmailBodyOk(email)
  }

  /** The recogniser decides exactly the pattern. */
  lemma {:induction false} EmailBodyOkIsPattern(s: string)
    ensures EmailBodyOk(s) <==> MatchesEmail(s)
  {
    if EmailBodyOk(s) {
      var a := RFind(s, '@');
      var d := s[a + 1..];
      var b := RFind(d, '.');
      assert 0 < a && 0 < b && b + 2 < |d|;
      assert AllLocal(s[..a]) && AllDomain(d[..b]) && AllLetters(d[b + 1..]);
      assert s[a + 1..a + 1 + b] == d[..b];
      assert s[a + 1 + b + 1..] == d[b + 1..];
      assert s[a + 1 + b] == d[b];
      assert MatchesEmail(s);
    }
    if MatchesEmail(s) {
      var a, b :| 0 < a && a + 1 < b && b + 2 < |s| && s[a] == '@' && s[b] == '.' &&
        AllLocal(s[..a]) && AllDomain(s[a + 1..b]) && AllLetters(s[b + 1..]);
      PatternSplit(s, a, b);
    }
  }

  /** Any split the pattern allows is the one the recogniser finds: the
      `@` is the only one, and the `.` is the last. */
  lemma {:induction false} PatternSplit(s: string, a: int, b: int)
    requires 0 < a && a + 1 < b && b + 2 < |s| && s[a] == '@' && s[b] == '.'
    requires AllLocal(s[..a]) && AllDomain(s[a + 1..b]) && AllLetters(s[b + 1..])
    ensures RFind(s, '@') == a
    ensures RFind(s[a + 1..], '.') == b - a - 1
    ensures EmailBodyOk(s)
  {
    AtIsLast(s, a, b);
    var d := s[a + 1..];
    DotIsLast(s, a, b);
    assert d[..b - a - 1] == s[a + 1..b];
    assert d[b - a..] == s[b + 1..];
  }

  lemma {:induction false} AtIsLast(s: string, a: int, b: int)
    requires 0 < a && a + 1 < b && b + 2 < |s| && s[a] == '@' && s[b] == '.'
    requires AllDomain(s[a + 1..b]) && AllLetters(s[b + 1..])
    ensures RFind(s, '@') == a
  {
    forall k | a < k < |s| ensures s[k] != '@' {
      if k < b {
        assert s[k] == s[a + 1..b][k - a - 1];
      } else if k > b {
        assert s[k] == s[b + 1..][k - b - 1];
      }
    }
  }

  lemma {:induction false} DotIsLast(s: string, a: int, b: int)
    requires 0 < a && a + 1 < b && b + 2 < |s| && s[b] == '.'
    requires AllLetters(s[b + 1..])
    ensures RFind(s[a + 1..], '.') == b - a - 1
  {
    var d := s[a + 1..];
    forall k | b - a - 1 < k < |d| ensures d[k] != '.' {
      assert d[k] == s[b + 1..][k - (b - a)];
    }
  }

  /** The `@` the recogniser locates is the only one: the local part
      before it cannot hold another. */
  lemma {:induction false} BodyHasOneAt(s: string)
    requires EmailBodyOk(s)
    ensures 0 < RFind(s, '@')
    ensures forall k :: 0 <= k < |s| && s[k] == '@' ==> k == RFind(s, '@')
  {
    var a := RFind(s, '@');
    var local := s[..a];
    assert 0 < a && AllLocal(local);
    forall k | 0 <= k < a ensures s[k] != '@' {
      assert IsLocalChar(local[k]) && s[k] == local[k];
    }
  }

  /** An accepted address has exactly one `@`, and not at the start. */
  lemma {:induction false} AcceptedEmailHasOneAt(email: string)
    requires ValidEmail(email)
    ensures exists a :: (0 < a < |email| && email[a] == '@' &&
                         forall k :: 0 <= k < |email| && email[k] == '@' ==> k == a)
  {
    var s := if EmailBodyOk(email) then email else email[..|email| - 1];
    BodyHasOneAt(s);
    var a := RFind(s, '@');
    forall k | 0 <= k < |email| && email[k] == '@' ensures k == a {
      if k < |s| {
        assert s[k] == email[k];
      }
    }
    assert email[a] == s[a];
  }

  /** An accepted address without the final line feed ends in a letter. */
  lemma {:induction false} AcceptedEmailEndsInLetter(s: string)
    requires EmailBodyOk(s)
    ensures IsAsciiLetter(s[|s| - 1])
  {
    var a := RFind(s, '@');
    var d := s[a + 1..];
    var b := RFind(d, '.');
    assert s[|s| - 1] == d[b + 1..][|d| - b - 2];
  }

  /** The end anchor: one trailing line feed is forgiven, ... */
  lemma {:induction false} EmailTrailingLineFeed(s: string)
    requires EmailBodyOk(s)
    ensures ValidEmail(s + "\n")
  {
    assert (s + "\n")[..|s|] == s;
  }

  /** ... any other trailing character that is not a letter is not. */
  lemma {:induction false} EmailTrailingSpace(s: string)
    ensures !ValidEmail(s + " ")
  {
    if EmailBodyOk(s + " ") {
      AcceptedEmailEndsInLetter(s + " ");
    }
  }

  /** Any local part, domain and top-level label of the allowed characters
      and lengths, put together with `@` and `.`, is accepted. */
  lemma {:induction false} EmailOfParts(local: string, domain: string, tld: string)
    requires local != [] && AllLocal(local)
    requires domain != [] && AllDomain(domain)
    requires |tld| >= 2 && AllLetters(tld)
    ensures EmailBodyOk(local + "@" + domain + "." + tld)
  {
    var s := local + "@" + domain + "." + tld;
    var a, b := |local|, |local| + 1 + |domain|;
    assert s[..a] == local;
    assert s[a + 1..b] == domain;
    assert s[b + 1..] == tld;
    PatternSplit(s, a, b);
  }

  /** The documented examples: an address is accepted, ... */
  lemma {:induction false} EmailExample()
    ensures ValidEmail("usuario@example.com")
  {
    assert AllLocal("usuario");
    assert AllDomain("example");
    assert AllLetters("com");
    EmailOfParts("usuario", "example", "com");
    ExampleAddressParts();
  }

  lemma {:induction false} ExampleAddressParts()
    ensures "usuario" + "@" + "example" + "." + "com" == "usuario@example.com"
  {
  }

  /** ... a string without `@` is not. */
  lemma {:induction false} EmailCounterExample()
    ensures !ValidEmail("email-invalido")
  {
    assert RFind("email-invalido", '@') == -1;
    assert RFind("email-invalid", '@') == -1;
  }

  // ---------------------------------------------------------------- phone

  /** `[\s\-\(\)]`: what `validar_telefono` removes first. */
  predicate IsSeparator(c: char) {
    IsSpace(c) || c == '-' || c == '(' || c == ')'
  }

  /** `re.sub(r'[\s\-\(\)]', '', telefono)`: no separator is left. */
  function Clean(s: string): (r: string)
    ensures |r| <= |s|
    ensures forall k :: 0 <= k < |r| ==> !IsSeparator(r[k])
  {
    if s == [] then ""
    else Clean(s[..|s| - 1]) + (if IsSeparator(s[|s| - 1]) then "" else [s[|s| - 1]])
  }

  /** Every character other than a separator is kept as often as it
      occurs. */
  lemma {:induction false} CleanKeepsOthers(s: string)
    ensures forall c :: !IsSeparator(c) ==> multiset(Clean(s))[c] == multiset(s)[c]
    decreases |s|
  {
    if s != [] {
      CleanKeepsOthers(s[..|s| - 1]);
      assert s == s[..|s| - 1] + [s[|s| - 1]];
    }
  }

  /** `\+\d{10,15}` matching all of the cleaned number. A trailing line feed
      is a separator, so the `$` subtlety of the email check cannot arise.
      An accepted number has at least eleven characters, and each of its
      characters is a separator, a digit or a `+`: one letter anywhere is
      refused. */
  function ValidPhone(telefono: string): (r: bool)
    ensures r ==> 11 <= |telefono|
    ensures r ==> forall c :: c in telefono && !IsSeparator(c) ==> c == '+' || IsAsciiDigit(c)
  {
    var t := Clean(telefono);
    var ok := 11 <= |t| <= 16 && t[0] == '+' && forall k :: 1 <= k < |t| ==> IsAsciiDigit(t[k]);
    if ok then CleanedCharacters(telefono); ok else ok
  }

  /** A non-separator character of the number survives cleaning. */
  lemma {:induction false} CleanedCharacters(telefono: string)
    ensures forall c :: c in telefono && !IsSeparator(c) ==> c in Clean(telefono)
  {
    CleanKeepsOthers(telefono);
    forall c | c in telefono && !IsSeparator(c) ensures c in Clean(telefono) {
      assert multiset(telefono)[c] > 0;
    }
  }

  /** Cleaning one character removes a separator and keeps anything else;
      with `CleanAppend` this determines `Clean` on every string. */
  lemma {:induction false} CleanOfChar(c: char)
    ensures Clean([c]) == if IsSeparator(c) then [] else [c]
  {
    assert [c][..0] == [];
  }

  lemma {:induction false} CleanAppend(a: string, b: string)
    ensures Clean(a + b) == Clean(a) + Clean(b)
    decreases |b|
  {
    if b == [] {
      assert a + b == a;
    } else {
      assert (a + b)[..|a + b| - 1] == a + b[..|b| - 1];
      CleanAppend(a, b[..|b| - 1]);
    }
  }

  /** Removing one separator does not change the cleaned number. */
  lemma {:induction false} CleanDropsSeparator(a: string, c: char, b: string)
    requires IsSeparator(c)
    ensures Clean(a + [c] + b) == Clean(a + b)
  {
    assert (a + [c])[..|a|] == a;
    assert Clean(a + [c]) == Clean(a);
    CleanAppend(a + [c], b);
    CleanAppend(a, b);
  }

  /** Separators may appear anywhere: adding or removing one never changes
      the answer. */
  lemma {:induction false} SeparatorAnywhere(a: string, c: char, b: string)
    requires IsSeparator(c)
    ensures ValidPhone(a + [c] + b) == ValidPhone(a + b)
  {
    CleanDropsSeparator(a, c, b);
  }

  /** A number that has only a `+` and digits is accepted exactly when it
      has 10 to 15 digits. */
  lemma {:induction false} CleanKeepsDigits(s: string)
    requires forall k :: 0 <= k < |s| ==> s[k] == '+' || IsAsciiDigit(s[k])
    ensures Clean(s) == s
    decreases |s|
  {
    if s != [] {
      CleanKeepsDigits(s[..|s| - 1]);
      assert s == s[..|s| - 1] + [s[|s| - 1]];
    }
  }

  lemma {:induction false} DigitCount(digits: string)
    requires forall k :: 0 <= k < |digits| ==> IsAsciiDigit(digits[k])
    ensures ValidPhone("+" + digits) <==> 10 <= |digits| <= 15
  {
    var s := "+" + digits;
    forall k | 0 <= k < |s| ensures s[k] == '+' || IsAsciiDigit(s[k]) {
      if k > 0 { assert s[k] == digits[k - 1]; }
    }
    CleanKeepsDigits(s);
  }

  /** Without the `+` nothing is accepted. */
  lemma {:induction false} PlusRequired(telefono: string)
    requires |Clean(telefono)| > 0 && Clean(telefono)[0] != '+'
    ensures !ValidPhone(telefono)
  {
  }

  /** The documented forms: digits only, ... */
  lemma {:induction false} PhoneExample()
    ensures ValidPhone("+593999888777")
  {
    CleanKeepsDigits("+593999888777");
  }

  /** ... and in groups split by any one separator, dashes and spaces
      among them. */
  lemma {:induction false} PhoneExampleSeparated(c: char)
    requires IsSeparator(c)
    ensures ValidPhone("+593" + [c] + "999" + [c] + "888" + [c] + "777")
  {
    CleanDropsSeparator("+593", c, "999" + [c] + "888" + [c] + "777");
    assert "+593" + [c] + "999" + [c] + "888" + [c] + "777" == "+593" + [c] + ("999" + [c] + "888" + [c] + "777");
    assert "+593" + ("999" + [c] + "888" + [c] + "777") == "+593999" + [c] + ("888" + [c] + "777");
    CleanDropsSeparator("+593999", c, "888" + [c] + "777");
    assert "+593999" + ("888" + [c] + "777") == "+593999888" + [c] + "777";
    CleanDropsSeparator("+593999888", c, "777");
    assert "+593999888" + "777" == "+593999888777";
    PhoneExample();
  }

  /** The documented forms with dashes and with spaces. */
  lemma {:induction false} PhoneDocumentedForms()
    ensures ValidPhone("+593-999-888-777")
    ensures ValidPhone("+593 999 888 777")
  {
    PhoneExampleSeparated('-');
    assert "+593" + ['-'] + "999" + ['-'] + "888" + ['-'] + "777" == "+593-999-888-777";
    PhoneExampleSeparated(' ');
    assert "+593" + [' '] + "999" + [' '] + "888" + [' '] + "777" == "+593 999 888 777";
  }

  /** Nine or sixteen digits are rejected, and so is a number without its
      `+`. */
  lemma {:induction false} PhoneCounterExamples()
    ensures !ValidPhone("+593999888")
    ensures !ValidPhone("+5939998887771234")
    ensures !ValidPhone("593999888777")
    ensures !ValidPhone("+59399988877a")
  {
    CleanKeepsDigits("+593999888");
    CleanKeepsDigits("+5939998887771234");
    CleanKeepsDigits("593999888777");
  }
}
