/** The strict-then-salvage decoding of a language-model reply
    (`safe_json_parse` in app.py). The strict JSON decoder (`json.loads`,
    RFC 8259) is a parameter: every property below holds for every decoder,
    and the model fixes only the control flow, the brace arithmetic and which
    error comes out. */
module JsonRecovery {
  import opened Wrappers
  import opened Text

  /** `i` is the index of the first occurrence of `c` in `t`. */
  ghost predicate IsFirst(t: string, c: char, i: int) {
    0 <= i < |t| && t[i] == c && forall k :: 0 <= k < i ==> t[k] != c
  }

  /** `j` is the index of the last occurrence of `c` in `t`. */
  ghost predicate IsLast(t: string, c: char, j: int) {
    0 <= j < |t| && t[j] == c && forall k :: j < k < |t| ==> t[k] != c
  }

  /** Some `{` occurs strictly before some `}`. */
  ghost predicate HasBracePair(t: string) {
    exists i, j :: 0 <= i < j < |t| && t[i] == '{' && t[j] == '}'
  }

  /** `safe_json_parse(content)`: strict decode of the trimmed text; on
      failure, one retry on the span from the first `{` to the last `}`. */
  function SafeJsonParse<J, E>(decode: string -> Result<J, E>, content: string): (r: Result<J, E>)
    // a strict success is returned as it is, whatever JSON value it is
    ensures var t := Strip(content);
      decode(t).Success? ==> r == decode(t)
    // no `{` before a `}`: the first error propagates, nothing else is decoded
    ensures var t := Strip(content);
      decode(t).Failure? && !HasBracePair(t) ==> r == decode(t)
  {
    var t := Strip(content);
    var first := decode(t);
    if first.Success? then first
    else
      var start := Find(t, '{');
      var end := RFind(t, '}');
      if start != -1 && end != -1 && end > start then
        decode(t[start..end + 1])
      else
        first
  }

  /** The retry happens exactly when some `{` precedes some `}`, which is
      exactly when the first `{` precedes the last `}`. */
  lemma {:induction false} RecoveryCondition(t: string)
    ensures HasBracePair(t) <==>
      (Find(t, '{') != -1 && RFind(t, '}') != -1 && RFind(t, '}') > Find(t, '{'))
    ensures HasBracePair(t) ==> IsFirst(t, '{', Find(t, '{')) && IsLast(t, '}', RFind(t, '}'))
  {
    if HasBracePair(t) {
      var i, j :| 0 <= i < j < |t| && t[i] == '{' && t[j] == '}';
      assert Find(t, '{') <= i;
      assert RFind(t, '}') >= j;
    }
  }

  /** After a strict failure with some `{` before some `}`, the answer,
      value or error, is the decode of exactly the span from the first `{`
      to the last `}`; and nothing is guessed: a success is the decode of
      the text or of a braced span of it. */
  lemma {:induction false} RetryDecodesSpan<J, E>(decode: string -> Result<J, E>, content: string)
    ensures var t, r := Strip(content), SafeJsonParse(decode, content);
      forall i, j | IsFirst(t, '{', i) && IsLast(t, '}', j) ::
        decode(t).Failure? && i < j ==> r == decode(t[i..j + 1])
    ensures var t, r := Strip(content), SafeJsonParse(decode, content);
      r.Success? ==> (r == decode(t) ||
        exists i, j :: 0 <= i < j < |t| && t[i] == '{' && t[j] == '}' && r == decode(t[i..j + 1]))
  {
    var t := Strip(content);
    var start, end := Find(t, '{'), RFind(t, '}');
    forall i, j | IsFirst(t, '{', i) && IsLast(t, '}', j)
      ensures start == i && end == j
    {
    }
    if decode(t).Failure? && start != -1 && end != -1 && end > start {
      assert t[start] == '{' && t[end] == '}';
    }
  }

  /** The retried span always starts with `{` and ends with `}`. */
  lemma {:induction false} RecoverySpanIsBraced(t: string)
    requires HasBracePair(t)
    ensures var s := t[Find(t, '{')..RFind(t, '}') + 1];
      |s| >= 2 && s[0] == '{' && s[|s| - 1] == '}'
  {
    RecoveryCondition(t);
  }

  /** Both stages see only `content.strip()`. */
  lemma {:induction false} OnlyStrippedTextMatters<J, E>(decode: string -> Result<J, E>, a: string, b: string)
    requires Strip(a) == Strip(b)
    ensures SafeJsonParse(decode, a) == SafeJsonParse(decode, b)
  {
  }

  /** Where the first `{` and the last `}` of `pre + obj + post` are, when
      only `obj` can hold them at its ends. */
  lemma {:induction false} SpanBounds(pre: string, obj: string, post: string)
    requires |obj| >= 2 && obj[0] == '{' && obj[|obj| - 1] == '}'
    requires '{' !in pre && '}' !in post
    ensures var t, i, j := pre + obj + post, |pre|, |pre| + |obj| - 1;
      IsFirst(t, '{', i) && IsLast(t, '}', j) && i < j && t[i..j + 1] == obj
  {
    var t, i, j := pre + obj + post, |pre|, |pre| + |obj| - 1;
    assert t[i] == obj[0] && t[j] == obj[|obj| - 1];
    forall k | 0 <= k < i ensures t[k] != '{' {
      assert t[k] == pre[k];
    }
    forall k | j < k < |t| ensures t[k] != '}' {
      assert t[k] == post[k - j - 1];
    }
    assert t[i..j + 1] == obj;
  }

  /** Prose or a code fence around one braced span: whatever the prose says,
      the retry decodes exactly that span. */
  lemma {:induction false} SurroundedSpanIsRecovered<J, E>(
    decode: string -> Result<J, E>, pre: string, obj: string, post: string)
    requires |obj| >= 2 && obj[0] == '{' && obj[|obj| - 1] == '}'
    requires '{' !in pre && '}' !in post
    requires pre == [] || !IsSpace(pre[0])
    requires post == [] || !IsSpace(post[|post| - 1])
    requires decode(pre + obj + post).Failure?
    ensures SafeJsonParse(decode, pre + obj + post) == decode(obj)
  {
    var t := pre + obj + post;
    var i, j := |pre|, |pre| + |obj| - 1;
    SurroundedIsStripped(pre, obj, post);
    assert Find(t, '{') == i && RFind(t, '}') == j && 0 <= i < j && t[i..j + 1] == obj by {
      SpanBounds(pre, obj, post);
    }
    RetryOfSpan(decode, t, i, j);
  }

  /** The retry, once the text is known to be stripped and its first `{`
      and last `}` are known. */
  lemma {:induction false} RetryOfSpan<J, E>(decode: string -> Result<J, E>, t: string, i: int, j: int)
    requires Strip(t) == t && decode(t).Failure?
    requires Find(t, '{') == i && RFind(t, '}') == j && 0 <= i < j
    ensures SafeJsonParse(decode, t) == decode(t[i..j + 1])
  {
  }

  /** Text that starts and ends outside whitespace is its own `strip()`. */
  lemma {:induction false} SurroundedIsStripped(pre: string, obj: string, post: string)
    requires obj != []
    requires pre == [] || !IsSpace(pre[0])
    requires post == [] || !IsSpace(post[|post| - 1])
    requires !IsSpace(obj[0]) && !IsSpace(obj[|obj| - 1])
    ensures Strip(pre + obj + post) == pre + obj + post
  {
    var t := pre + obj + post;
    assert t[0] == (if pre == [] then obj[0] else pre[0]);
    assert t[|t| - 1] == (if post == [] then obj[|obj| - 1] else post[|post| - 1]);
    StripNoOp(t);
  }

  // Typical replies, for an arbitrary decoder.

  /** Prose and a code fence around an object: the retry decodes exactly the
      object. */
  lemma {:induction false} FencedReplyIsRecovered<J, E>(decode: string -> Result<J, E>)
    requires decode("Here is the JSON:\n```json\n" + "{\"titulo\":\"Dune\",\"autor\":null}" + "\n```").Failure?
    ensures SafeJsonParse(decode, "Here is the JSON:\n```json\n" + "{\"titulo\":\"Dune\",\"autor\":null}" + "\n```")
         == decode("{\"titulo\":\"Dune\",\"autor\":null}")
  {
    var pre, obj, post := "Here is the JSON:\n```json\n", "{\"titulo\":\"Dune\",\"autor\":null}", "\n```";
    assert '{' !in pre by { assert RFind(pre, '{') == -1; }
    assert '}' !in post by { assert RFind(post, '}') == -1; }
    SurroundedSpanIsRecovered(decode, pre, obj, post);
  }

  /** No braces at all: the strict decoder's own error comes out. */
  lemma {:induction false} NoBracesKeepsFirstError<J, E>(decode: string -> Result<J, E>)
    requires decode("not json at all").Failure?
    ensures SafeJsonParse(decode, "not json at all") == decode("not json at all")
  {
    StripNoOp("not json at all");
    assert RFind("not json at all", '{') == -1;
  }

  /** An opening brace without a closing one: no retry. */
  lemma {:induction false} UnclosedObjectKeepsFirstError<J, E>(decode: string -> Result<J, E>)
    requires decode("{broken: true").Failure?
    ensures SafeJsonParse(decode, "{broken: true") == decode("{broken: true")
  {
    StripNoOp("{broken: true");
    assert RFind("{broken: true", '}') == -1;
  }

  /** A closing brace before the only opening one: no retry either. */
  lemma {:induction false} BracesOutOfOrderKeepFirstError<J, E>(decode: string -> Result<J, E>)
    requires decode("} {").Failure?
    ensures SafeJsonParse(decode, "} {") == decode("} {")
  {
    StripNoOp("} {");
  }

  /** The empty reply is decoded once and its error comes out. */
  lemma {:induction false} EmptyReplyKeepsFirstError<J, E>(decode: string -> Result<J, E>)
    requires decode("").Failure?
    ensures SafeJsonParse(decode, "") == decode("")
  {
  }
}
