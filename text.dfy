/** The few Python `str` primitives the application relies on: `isspace`,
    `strip`, `find`, `rfind`, `replace`, `split()`, `split(sep)`, `join` and an
    ASCII `lower`. Each is defined recursively and given a contract that
    characterises its result independently of the recursion. */
module Text {

  /** Python's `str.isspace()` restricted to ASCII: tab, line feed, vertical
      tab, form feed, carriage return, the four separators U+001C..U+001F and
      the space. `str.strip()`, `str.split()` and the `\s` class of `re` use
      the same set. */
  predicate IsSpace(c: char) {
    '\t' <= c <= '\r' || '\U{1C}' <= c <= ' '
  }

  predicate IsAsciiDigit(c: char) { '0' <= c <= '9' }

  predicate IsAsciiLetter(c: char) { 'a' <= c <= 'z' || 'A' <= c <= 'Z' }

  // ---------------------------------------------------------------- strip

  /** `s.lstrip()` */
  function TrimLeft(s: string): (r: string)
    ensures |r| <= |s|
    ensures r == [] || !IsSpace(r[0])
  {
    if s != [] && IsSpace(s[0]) then TrimLeft(s[1..]) else s
  }

  /** `lstrip()` drops a run of whitespace from the front and nothing
      else. */
  lemma {:induction false} TrimLeftIsSuffix(s: string)
    ensures var r := TrimLeft(s);
      && r == s[|s| - |r|..]
      && forall k :: 0 <= k < |s| - |r| ==> IsSpace(s[k])
  {
    if s != [] && IsSpace(s[0]) {
      TrimLeftIsSuffix(s[1..]);
      assert s[1..][|s| - 1 - |TrimLeft(s)|..] == s[|s| - |TrimLeft(s)|..];
    }
  }

  /** `s.rstrip()` */
  function TrimRight(s: string): (r: string)
    ensures |r| <= |s|
    ensures r == [] || !IsSpace(r[|r| - 1])
  {
    if s != [] && IsSpace(s[|s| - 1]) then TrimRight(s[..|s| - 1]) else s
  }

  /** `rstrip()` drops a run of whitespace from the back and nothing else. */
  lemma {:induction false} TrimRightIsPrefix(s: string)
    ensures var r := TrimRight(s);
      && r == s[..|r|]
      && forall k :: |r| <= k < |s| ==> IsSpace(s[k])
  {
    if s != [] && IsSpace(s[|s| - 1]) {
      TrimRightIsPrefix(s[..|s| - 1]);
      assert s[..|s| - 1][..|TrimRight(s)|] == s[..|TrimRight(s)|];
    }
  }

  /** `s.strip()` */
  function Strip(s: string): string {
    TrimRight(TrimLeft(s))
  }

  /** `strip()` keeps the infix of `s` that starts at its first and ends at
      its last non-whitespace character: only whitespace is dropped, on both
      sides, and what is kept neither starts nor ends with whitespace. */
  lemma {:induction false} StripIsTrimmedInfix(s: string)
    ensures var r, i := Strip(s), |s| - |TrimLeft(s)|;
      && 0 <= i <= |s| - |r| && r == s[i..i + |r|]
      && (forall k :: 0 <= k < i ==> IsSpace(s[k]))
      && (forall k :: i + |r| <= k < |s| ==> IsSpace(s[k]))
      && (r == [] || (!IsSpace(r[0]) && !IsSpace(r[|r| - 1])))
  {
    StripInfix(s);
    StripDropsTail(s);
    TrimLeftIsSuffix(s);
  }

  lemma {:induction false} StripInfix(s: string)
    ensures var r, i := Strip(s), |s| - |TrimLeft(s)|;
      0 <= i <= |s| - |r| && r == s[i..i + |r|]
  {
    var t := TrimLeft(s);
    var i := |s| - |t|;
    TrimLeftIsSuffix(s);
    TrimRightIsPrefix(t);
  }

  lemma {:induction false} StripDropsTail(s: string)
    ensures var r, i := Strip(s), |s| - |TrimLeft(s)|;
      forall k :: i + |r| <= k < |s| ==> IsSpace(s[k])
  {
    var t := TrimLeft(s);
    var r := TrimRight(t);
    var i := |s| - |t|;
    TrimLeftIsSuffix(s);
    TrimRightIsPrefix(t);
    forall k | i + |r| <= k < |s|
      ensures IsSpace(s[k])
    {
      assert s[k] == t[k - i];
    }
  }

  lemma {:induction false} StripNoOp(s: string)
    requires s == [] || (!IsSpace(s[0]) && !IsSpace(s[|s| - 1]))
    ensures Strip(s) == s
  {
    var t := TrimLeft(s);
    assert |t| == |s|;
    var r := TrimRight(t);
    assert |r| == |t|;
  }

  // ---------------------------------------------------------------- find

  /** `s.find(c)`: the first index of `c`, or -1. */
  function Find(s: string, c: char): (r: int)
    ensures -1 <= r < |s|
    ensures r == -1 <==> forall k :: 0 <= k < |s| ==> s[k] != c
    ensures r >= 0 ==> s[r] == c && forall k :: 0 <= k < r ==> s[k] != c
  {
    if s == [] then -1
    else if s[0] == c then 0
    else
      var i := Find(s[1..], c);
      if i == -1 then -1 else i + 1
  }

  /** `s.rfind(c)`: the last index of `c`, or -1. */
  function RFind(s: string, c: char): (r: int)
    ensures -1 <= r < |s|
    ensures r == -1 <==> forall k :: 0 <= k < |s| ==> s[k] != c
    ensures r >= 0 ==> s[r] == c && forall k :: r < k < |s| ==> s[k] != c
  {
    if s == [] then -1
    else if s[|s| - 1] == c then |s| - 1
    else RFind(s[..|s| - 1], c)
  }

  // ---------------------------------------------------------------- replace

  /** `s.replace(pat, rep)`: leftmost, non-overlapping occurrences. */
  function Replace(s: string, pat: string, rep: string): string
    requires pat != []
    decreases |s|
  {
    if |s| < |pat| then s
    else if s[..|pat|] == pat then rep + Replace(s[|pat|..], pat, rep)
    else [s[0]] + Replace(s[1..], pat, rep)
  }

  /** What one character becomes under `replace(c, rep)`. */
  function ReplaceOne(x: char, c: char, rep: string): string {
    if x == c then rep else [x]
  }

  /** With a one-character pattern, `replace` acts character by character, so
      it distributes over concatenation. */
  lemma {:induction false} ReplaceCharAppend(a: string, b: string, c: char, rep: string)
    ensures Replace(a + b, [c], rep) == Replace(a, [c], rep) + Replace(b, [c], rep)
    decreases |a|
  {
    if a == [] {
      assert a + b == b;
    } else {
      assert (a + b)[..1] == a[..1];
      assert (a + b)[1..] == a[1..] + b;
      ReplaceCharAppend(a[1..], b, c, rep);
      if a[0] == c {
        assert a[..1] == [c];
      } else {
        assert a[..1] != [c];
      }
    }
  }

  lemma {:induction false} ReplaceCharSingle(x: char, c: char, rep: string)
    ensures Replace([x], [c], rep) == ReplaceOne(x, c, rep)
  {
    assert [x][..1] == [x];
    assert [x][1..] == [];
  }

  // ---------------------------------------------------------------- split() and join

  predicate IsWord(w: string) {
    w != [] && forall k :: 0 <= k < |w| ==> !IsSpace(w[k])
  }

  /** Length of the leading run of non-whitespace characters. */
  function WordLen(s: string): (n: nat)
    ensures n <= |s|
    ensures forall k :: 0 <= k < n ==> !IsSpace(s[k])
    ensures n == |s| || IsSpace(s[n])
  {
    if s == [] || IsSpace(s[0]) then 0 else 1 + WordLen(s[1..])
  }

  /** `s.split()` without a separator: the maximal runs of non-whitespace. */
  function Split(s: string): (ws: seq<string>)
    ensures forall i :: 0 <= i < |ws| ==> IsWord(ws[i])
    decreases |s|
  {
    var t := TrimLeft(s);
    if t == [] then []
    else
      var n := WordLen(t);
      [t[..n]] + Split(t[n..])
  }

  /** `sep.join(parts)` */
  function Join(sep: string, parts: seq<string>): string {
    if |parts| == 0 then ""
    else if |parts| == 1 then parts[0]
    else parts[0] + sep + Join(sep, parts[1..])
  }

  /** `" ".join(s.split())` */
  function Collapse(s: string): string {
    Join(" ", Split(s))
  }

  /** No leading or trailing whitespace, and the only whitespace is a single
      `' '` between two non-whitespace characters. */
  predicate Collapsed(s: string) {
    forall k :: 0 <= k < |s| && IsSpace(s[k]) ==>
      s[k] == ' ' && 0 < k < |s| - 1 && !IsSpace(s[k - 1]) && !IsSpace(s[k + 1])
  }

  function Flatten(ws: seq<string>): string {
    if ws == [] then "" else ws[0] + Flatten(ws[1..])
  }

  /** The non-whitespace characters of `s`, in order. */
  function NonSpace(s: string): string {
    if s == [] then ""
    else if IsSpace(s[0]) then NonSpace(s[1..])
    else [s[0]] + NonSpace(s[1..])
  }

  lemma {:induction false} JoinCons(sep: string, w: string, ws: seq<string>)
    requires ws != []
    ensures Join(sep, [w] + ws) == w + sep + Join(sep, ws)
  {
    assert ([w] + ws)[1..] == ws;
  }

  lemma {:induction false} JoinOfWordsCollapsed(ws: seq<string>)
    requires forall i :: 0 <= i < |ws| ==> IsWord(ws[i])
    ensures Collapsed(Join(" ", ws))
    ensures ws != [] ==> Join(" ", ws) != []
  {
    if |ws| > 1 {
      var w, rest := ws[0], Join(" ", ws[1..]);
      JoinOfWordsCollapsed(ws[1..]);
      var j := w + " " + rest;
      assert j == Join(" ", ws);
      forall k | 0 <= k < |j| && IsSpace(j[k])
        ensures j[k] == ' ' && 0 < k < |j| - 1 && !IsSpace(j[k - 1]) && !IsSpace(j[k + 1])
      {
        if k < |w| {
          assert false;
        } else if k == |w| {
          assert j[k - 1] == w[|w| - 1];
          assert j[k + 1] == rest[0];
        } else {
          var m := k - |w| - 1;
          assert j[k] == rest[m];
          assert 0 < m < |rest| - 1;
          assert j[k - 1] == rest[m - 1] && j[k + 1] == rest[m + 1];
        }
      }
    }
  }

  /** `" ".join(s.split())` is collapsed. */
  lemma {:induction false} CollapseIsCollapsed(s: string)
    ensures Collapsed(Collapse(s))
  {
    JoinOfWordsCollapsed(Split(s));
  }

  lemma {:induction false} TrimLeftOfNonSpaceStart(s: string)
    requires s != [] && !IsSpace(s[0])
    ensures TrimLeft(s) == s
  {
  }

  /** Splitting a string that starts with a word followed by one space. */
  lemma {:induction false} SplitAfterWord(s: string, n: nat)
    requires s != [] && !IsSpace(s[0]) && n == WordLen(s)
    requires n + 1 < |s| && !IsSpace(s[n + 1])
    ensures Split(s) == [s[..n]] + Split(s[n + 1..])
  {
    TrimLeftOfNonSpaceStart(s);
    var u := s[n + 1..];
    assert s[n..][1..] == u;
    var t := TrimLeft(s[n..]);
    TrimLeftIsSuffix(s[n..]);
    assert |t| == |u| by {
      if |t| < |u| { assert false; }
    }
    assert t == u;
    TrimLeftOfNonSpaceStart(u);
  }

  /** `s.split()` reads back the words `" ".join` was given, so each word is
      a maximal run: nothing is merged and nothing is cut. */
  lemma {:induction false} SplitOfJoinedWords(ws: seq<string>)
    requires forall i :: 0 <= i < |ws| ==> IsWord(ws[i])
    ensures Split(Join(" ", ws)) == ws
    decreases |ws|
  {
    if |ws| == 1 {
      SplitOfWord(ws[0]);
    } else if |ws| > 1 {
      var rest := Join(" ", ws[1..]);
      assert rest != [] && !IsSpace(rest[0]) by { JoinOfWordsCollapsed(ws[1..]); }
      assert Split(Join(" ", ws)) == [ws[0]] + Split(rest) by { SplitWordThen(ws[0], rest); }
      SplitOfJoinedWords(ws[1..]);
    }
  }

  lemma {:induction false} SplitOfWord(w: string)
    requires IsWord(w)
    ensures Split(w) == [w]
  {
    TrimLeftOfNonSpaceStart(w);
    assert WordLen(w) == |w|;
    assert w[..|w|] == w && w[|w|..] == [];
    assert Split([]) == [];
  }

  /** A word, one space and a text that starts with a word split into that
      word and the split of the text. */
  lemma {:induction false} SplitWordThen(w: string, rest: string)
    requires IsWord(w) && rest != [] && !IsSpace(rest[0])
    ensures Split(w + " " + rest) == [w] + Split(rest)
  {
    var j := w + " " + rest;
    assert WordLen(j) == |w| by {
      assert forall k :: 0 <= k < |w| ==> j[k] == w[k];
      assert j[|w|] == ' ';
    }
    assert j[|w| + 1] == rest[0];
    SplitAfterWord(j, |w|);
    assert j[..|w|] == w && j[|w| + 1..] == rest;
  }

  lemma {:induction false} CollapsedSuffix(s: string, n: nat)
    requires Collapsed(s) && n < |s| && s[n] == ' '
    ensures Collapsed(s[n + 1..])
  {
    var u := s[n + 1..];
    forall k | 0 <= k < |u| && IsSpace(u[k])
      ensures u[k] == ' ' && 0 < k < |u| - 1 && !IsSpace(u[k - 1]) && !IsSpace(u[k + 1])
    {
      assert u[k] == s[n + 1 + k];
    }
  }

  lemma {:induction false} SeqAround(s: string, n: nat)
    requires n < |s| && s[n] == ' '
    ensures s == s[..n] + " " + s[n + 1..]
  {
  }

  /** A collapsed string is a fixed point of `" ".join(s.split())`. */
  lemma {:induction false} CollapsedIsFixed(s: string)
    requires Collapsed(s)
    ensures Collapse(s) == s
    decreases |s|
  {
    if s != [] {
      TrimLeftOfNonSpaceStart(s);
      var n := WordLen(s);
      if n == |s| {
        assert Split(s) == [s[..n]] + Split(s[n..]);
        assert s[n..] == [];
        assert s[..n] == s;
      } else {
        assert s[n] == ' ' && n + 1 < |s| && !IsSpace(s[n + 1]);
        var u := s[n + 1..];
        SplitAfterWord(s, n);
        CollapsedSuffix(s, n);
        CollapsedIsFixed(u);
        TrimLeftOfNonSpaceStart(u);
        assert Split(u) != [];
        JoinCons(" ", s[..n], Split(u));
        SeqAround(s, n);
      }
    }
  }

  lemma {:induction false} NonSpaceAppend(a: string, b: string)
    ensures NonSpace(a + b) == NonSpace(a) + NonSpace(b)
    decreases |a|
  {
    if a != [] {
      assert (a + b)[1..] == a[1..] + b;
      NonSpaceAppend(a[1..], b);
    } else {
      assert a + b == b;
    }
  }

  lemma {:induction false} NonSpaceOfWord(w: string)
    requires forall k :: 0 <= k < |w| ==> !IsSpace(w[k])
    ensures NonSpace(w) == w
    decreases |w|
  {
    if w != [] {
      NonSpaceOfWord(w[1..]);
    }
  }

  lemma {:induction false} NonSpaceOfSpaces(w: string)
    requires forall k :: 0 <= k < |w| ==> IsSpace(w[k])
    ensures NonSpace(w) == []
    decreases |w|
  {
    if w != [] {
      NonSpaceOfSpaces(w[1..]);
    }
  }

  lemma {:induction false} NonSpaceOfJoin(ws: seq<string>)
    requires forall i :: 0 <= i < |ws| ==> IsWord(ws[i])
    ensures NonSpace(Join(" ", ws)) == Flatten(ws)
  {
    if |ws| == 1 {
      NonSpaceOfWord(ws[0]);
      assert Flatten(ws[1..]) == [];
    } else if |ws| > 1 {
      NonSpaceOfJoin(ws[1..]);
      NonSpaceOfWord(ws[0]);
      NonSpaceAppend(ws[0], " " + Join(" ", ws[1..]));
      NonSpaceAppend(" ", Join(" ", ws[1..]));
      assert ws[0] + " " + Join(" ", ws[1..]) == ws[0] + (" " + Join(" ", ws[1..]));
    }
  }

  lemma {:induction false} NonSpaceIsFlattenedSplit(s: string)
    ensures NonSpace(s) == Flatten(Split(s))
    decreases |s|
  {
    var t := TrimLeft(s);
    assert NonSpace(s) == NonSpace(t) by {
      var m := |s| - |t|;
      TrimLeftIsSuffix(s);
      assert s == s[..m] + t;
      NonSpaceAppend(s[..m], t);
      NonSpaceOfSpaces(s[..m]);
    }
    if t != [] {
      var n := WordLen(t);
      var w, u := t[..n], t[n..];
      assert NonSpace(t) == w + NonSpace(u) by {
        assert t == w + u;
        NonSpaceAppend(w, u);
        NonSpaceOfWord(w);
      }
      assert NonSpace(u) == Flatten(Split(u)) by {
        NonSpaceIsFlattenedSplit(u);
      }
      var ws := [w] + Split(u);
      assert Split(s) == ws;
      assert ws[0] == w && ws[1..] == Split(u);
    }
  }

  /** Collapsing whitespace keeps every other character, in order. */
  lemma {:induction false} CollapseKeepsContent(s: string)
    ensures NonSpace(Collapse(s)) == NonSpace(s)
  {
    NonSpaceOfJoin(Split(s));
    NonSpaceIsFlattenedSplit(s);
  }

  lemma {:induction false} InNonSpace(s: string, c: char)
    ensures c in NonSpace(s) <==> c in s && !IsSpace(c)
    decreases |s|
  {
    if s != [] {
      InNonSpace(s[1..], c);
      assert s == [s[0]] + s[1..];
    }
  }

  // ---------------------------------------------------------------- split(sep)

  /** `s.split(sep)` with an explicit, non-empty separator: every occurrence,
      leftmost first, splits; empty pieces are kept. */
  function SplitOn(s: string, sep: string): (parts: seq<string>)
    requires sep != []
    ensures |parts| >= 1
    decreases |s|
  {
    if |s| < |sep| then [s]
    else if s[..|sep|] == sep then [""] + SplitOn(s[|sep|..], sep)
    else
      var rest := SplitOn(s[1..], sep);
      [[s[0]] + rest[0]] + rest[1..]
  }

  /** Joining the pieces with the separator gives back the string. */
  lemma {:induction false} SplitOnJoinRoundTrip(s: string, sep: string)
    requires sep != []
    ensures Join(sep, SplitOn(s, sep)) == s
    decreases |s|
  {
    if |s| < |sep| {
    } else if s[..|sep|] == sep {
      SplitOnJoinRoundTrip(s[|sep|..], sep);
      JoinAfterSeparator(s, sep);
    } else {
      SplitOnJoinRoundTrip(s[1..], sep);
      JoinAfterChar(s, sep);
    }
  }

  /** The round trip for a string that starts with the separator, given
      the round trip for the rest. */
  lemma {:induction false} JoinAfterSeparator(s: string, sep: string)
    requires sep != [] && |s| >= |sep| && s[..|sep|] == sep
    requires Join(sep, SplitOn(s[|sep|..], sep)) == s[|sep|..]
    ensures Join(sep, SplitOn(s, sep)) == s
  {
    var t := s[|sep|..];
    var rest := SplitOn(t, sep);
    assert SplitOn(s, sep) == [""] + rest;
    JoinCons(sep, "", rest);
    assert s == sep + t;
  }

  /** The round trip for a string that does not start with the separator,
      given the round trip for its tail. */
  lemma {:induction false} JoinAfterChar(s: string, sep: string)
    requires sep != [] && |s| >= |sep| && s[..|sep|] != sep
    requires Join(sep, SplitOn(s[1..], sep)) == s[1..]
    ensures Join(sep, SplitOn(s, sep)) == s
  {
    var t := s[1..];
    var rest := SplitOn(t, sep);
    var head := [s[0]] + rest[0];
    assert SplitOn(s, sep) == [head] + rest[1..];
    assert s == [s[0]] + t;
    if |rest| == 1 {
      assert [head] + rest[1..] == [head];
    } else {
      var tail := Join(sep, rest[1..]);
      assert Join(sep, [head] + rest[1..]) == head + sep + tail by {
        JoinCons(sep, head, rest[1..]);
      }
      assert t == rest[0] + sep + tail by {
        JoinCons(sep, rest[0], rest[1..]);
        assert [rest[0]] + rest[1..] == rest;
      }
      assert head + sep + tail == [s[0]] + (rest[0] + sep + tail);
    }
  }

  // ---------------------------------------------------------------- lower

  function AsciiLowerChar(c: char): char {
    if 'A' <= c <= 'Z' then (c as int + 32) as char else c
  }

  /** `s.lower()` on the ASCII letters. */
  function AsciiLower(s: string): (r: string)
    ensures |r| == |s|
    ensures forall k :: 0 <= k < |s| ==> r[k] == AsciiLowerChar(s[k])
  {
    if s == [] then "" else [AsciiLowerChar(s[0])] + AsciiLower(s[1..])
  }
}
