/** `sanitizar_nombre_archivo` of utils/email_sender.py: the name given to
    the PDF attachment. A fixed table of character replacements is applied
    one entry at a time, whitespace runs are collapsed to one space, the
    result is capped at 50 characters and stripped. */
module EmailSender {
  import opened Text

  /** The replacement table, in the order the loop visits it: path and
      drive separators become `-`, the other characters that file systems
      refuse are deleted, line breaks become a space. */
  const Replacements: seq<(char, string)> := [
    ('/', "-"), ('\\', "-"), (':', "-"),
    ('*', ""), ('?', ""), ('\"', ""), ('<', ""), ('>', ""), ('|', ""),
    ('\n', " "), ('\r', " ")
  ]

  /** The nine characters no sanitised name contains. */
  predicate IsForbidden(c: char) {
    c == '/' || c == '\\' || c == ':' || c == '*' || c == '?' || c == '\"' || c == '<' || c == '>' || c == '|'
  }

  /** The keys of the table: the forbidden characters and the line breaks. */
  predicate IsKey(c: char) {
    IsForbidden(c) || c == '\n' || c == '\r'
  }

  /** What the whole table does to one character. */
  function TranslateChar(x: char): (r: string)
    ensures |r| <= 1
    ensures r == [x] <==> !IsKey(x)
    ensures forall k :: 0 <= k < |r| ==> !IsKey(r[k])
  {
    if x == '/' || x == '\\' || x == ':' then "-"
    else if IsForbidden(x) then ""
    else if x == '\n' || x == '\r' then " "
    else [x]
  }

  /** What the whole table does to a string: each character on its own. */
  function Translate(s: string): (r: string)
    ensures forall k :: 0 <= k < |r| ==> !IsKey(r[k])
    ensures |r| <= |s|
  {
    if s == [] then "" else TranslateChar(s[0]) + Translate(s[1..])
  }

  /** The first `|table|` steps of the loop: `nombre.replace(char,
      replacement)` for each entry in turn. */
  function ReplaceAll(table: seq<(char, string)>, s: string): (r: string)
    ensures (forall i :: 0 <= i < |table| ==> |table[i].1| <= 1) ==> |r| <= |s|
  {
    if table == [] then s
    else
      var e := table[|table| - 1];
      var before := ReplaceAll(table[..|table| - 1], s);
      ReplaceShrinks(before, e.0, e.1);
      Replace(before, [e.0], e.1)
  }

  /** Replacing a character by at most one character never lengthens the
      text. */
  lemma {:induction false} ReplaceShrinks(s: string, c: char, rep: string)
    ensures |rep| <= 1 ==> |Replace(s, [c], rep)| <= |s|
    decreases |s|
  {
    if |s| >= 1 {
      ReplaceShrinks(s[1..], c, rep);
      assert s[..1] == [s[0]];
    }
  }

  /** The name after the loop, the collapse and the cap, before `strip()`. */
  function Capped(c: string): (r: string)
    ensures |r| <= 50
    ensures |c| > 50 ==> |r| == 50 && r == c[..47] + "..."
    ensures |c| <= 50 ==> r == c
  {
    if |c| > 50 then c[..47] + "..." else c
  }

  /** The specification of `sanitizar_nombre_archivo(nombre)`. */
  function Sanitized(name: string): (r: string)
    ensures |r| <= 50
    ensures r == [] || (!IsSpace(r[0]) && !IsSpace(r[|r| - 1]))
  {
    StripIsTrimmedInfix(Capped(Collapse(Translate(name))));
    Strip(Capped(Collapse(Translate(name))))
  }

  /** `sanitizar_nombre_archivo(nombre)` */
  method SanitizeFileName(name: string) returns (r: string)
    ensures r == Sanitized(name)
  {
    var nombre := name;
    var i := 0;
    while i < |Replacements|
      invariant 0 <= i <= |Replacements|
      invariant nombre == ReplaceAll(Replacements[..i], name)
    {
      var (c, replacement) := Replacements[i];
      assert Replacements[..i + 1][..i] == Replacements[..i];
      nombre := Replace(nombre, [c], replacement);
      i := i + 1;
    }
    assert Replacements[..i] == Replacements;
    ReplaceAllIsTranslate(name);
    nombre := Join(" ", Split(nombre));
    if |nombre| > 50 {
      nombre := nombre[..47] + "...";
    }
    r := Strip(nombre);
  }

  // ---------------------------------------------------------------- the loop

  /** A replacement whose character does not occur changes nothing. */
  lemma {:induction false} ReplaceAbsent(s: string, c: char, rep: string)
    requires c !in s
    ensures Replace(s, [c], rep) == s
    decreases |s|
  {
    if s != [] {
      assert s[..1] == [s[0]];
      ReplaceAbsent(s[1..], c, rep);
      assert s == [s[0]] + s[1..];
    }
  }

  /** Each entry's replacement is what the whole table makes of its key,
      and no replacement contains a key. */
  lemma {:induction false} TableIsConsistent()
    ensures forall i :: 0 <= i < |Replacements| ==>
      IsKey(Replacements[i].0) && Replacements[i].1 == TranslateChar(Replacements[i].0)
    ensures forall x :: IsKey(x) ==> exists i :: 0 <= i < |Replacements| && Replacements[i].0 == x
  {
    forall x | IsKey(x) ensures exists i :: 0 <= i < |Replacements| && Replacements[i].0 == x {
      if x == '/' { assert Replacements[0].0 == x; }
      else if x == '\\' { assert Replacements[1].0 == x; }
      else if x == ':' { assert Replacements[2].0 == x; }
      else if x == '*' { assert Replacements[3].0 == x; }
      else if x == '?' { assert Replacements[4].0 == x; }
      else if x == '\"' { assert Replacements[5].0 == x; }
      else if x == '<' { assert Replacements[6].0 == x; }
      else if x == '>' { assert Replacements[7].0 == x; }
      else if x == '|' { assert Replacements[8].0 == x; }
      else if x == '\n' { assert Replacements[9].0 == x; }
      else { assert Replacements[10].0 == x; }
    }
  }

  /** Keys already met by the first `n` steps. */
  predicate KeyAmong(table: seq<(char, string)>, x: char) {
    exists i :: 0 <= i < |table| && table[i].0 == x
  }

  /** Step `n` meets `x` when an earlier step did or its own key is `x`. */
  lemma {:induction false} KeyAmongStep(n: nat, x: char)
    requires 0 < n <= |Replacements|
    ensures KeyAmong(Replacements[..n], x) <==>
      KeyAmong(Replacements[..n - 1], x) || Replacements[n - 1].0 == x
  {
    var table := Replacements[..n];
    if KeyAmong(table, x) && Replacements[n - 1].0 != x {
      var i :| 0 <= i < n && table[i].0 == x;
      assert Replacements[..n - 1][i].0 == x;
    }
    if KeyAmong(Replacements[..n - 1], x) {
      var i :| 0 <= i < n - 1 && Replacements[..n - 1][i].0 == x;
      assert table[i].0 == x;
    }
    if Replacements[n - 1].0 == x {
      assert table[n - 1].0 == x;
    }
  }

  /** The first `n` steps split into the first `n - 1` and step `n`. */
  lemma {:induction false} ReplaceAllStep(n: nat, s: string)
    requires 0 < n <= |Replacements|
    ensures ReplaceAll(Replacements[..n], s) ==
      Replace(ReplaceAll(Replacements[..n - 1], s), [Replacements[n - 1].0], Replacements[n - 1].1)
  {
    assert Replacements[..n][..n - 1] == Replacements[..n - 1];
  }

  /** On one character the loop either has not met it yet or has replaced
      it by its final form, which later steps leave alone. */
  lemma {:induction false} ReplaceAllOnChar(n: nat, x: char)
    requires n <= |Replacements|
    ensures ReplaceAll(Replacements[..n], [x]) ==
      if KeyAmong(Replacements[..n], x) then TranslateChar(x) else [x]
  {
    if n > 0 {
      var c, rep := Replacements[n - 1].0, Replacements[n - 1].1;
      var before := ReplaceAll(Replacements[..n - 1], [x]);
      var met := KeyAmong(Replacements[..n - 1], x);
      assert before == if met then TranslateChar(x) else [x] by {
        ReplaceAllOnChar(n - 1, x);
      }
      assert ReplaceAll(Replacements[..n], [x]) == Replace(before, [c], rep) by {
        ReplaceAllStep(n, [x]);
      }
      assert KeyAmong(Replacements[..n], x) <==> met || c == x by {
        KeyAmongStep(n, x);
      }
      assert IsKey(c) && rep == TranslateChar(c) by {
        TableIsConsistent();
      }
      if met {
        ReplaceAbsent(before, c, rep);
      } else {
        ReplaceCharSingle(x, c, rep);
      }
    }
  }

  /** Each step acts character by character, so the whole loop does too. */
  lemma {:induction false} ReplaceAllAppend(table: seq<(char, string)>, a: string, b: string)
    ensures ReplaceAll(table, a + b) == ReplaceAll(table, a) + ReplaceAll(table, b)
    decreases |table|
  {
    if table != [] {
      var e := table[|table| - 1];
      ReplaceAllAppend(table[..|table| - 1], a, b);
      ReplaceCharAppend(ReplaceAll(table[..|table| - 1], a), ReplaceAll(table[..|table| - 1], b), e.0, e.1);
    }
  }

  /** The loop over the table is the per-character translation. */
  lemma {:induction false} ReplaceAllIsTranslate(s: string)
    ensures ReplaceAll(Replacements, s) == Translate(s)
    decreases |s|
  {
    if s == [] {
      ReplaceAllOfEmpty(Replacements);
    } else {
      assert ReplaceAll(Replacements, [s[0]]) == TranslateChar(s[0]) by {
        ReplaceAllOnChar(|Replacements|, s[0]);
        assert Replacements[..|Replacements|] == Replacements;
        if IsKey(s[0]) {
          TableIsConsistent();
          assert KeyAmong(Replacements, s[0]);
        }
      }
      assert ReplaceAll(Replacements, s[1..]) == Translate(s[1..]) by {
        ReplaceAllIsTranslate(s[1..]);
      }
      assert s == [s[0]] + s[1..];
      ReplaceAllAppend(Replacements, [s[0]], s[1..]);
    }
  }

  lemma {:induction false} ReplaceAllOfEmpty(table: seq<(char, string)>)
    ensures ReplaceAll(table, "") == ""
    decreases |table|
  {
    if table != [] {
      ReplaceAllOfEmpty(table[..|table| - 1]);
    }
  }

  // ---------------------------------------------------------------- properties

  /** A translated character is one of the input's non-forbidden characters
      or one of `-` and `' '`. */
  lemma {:induction false} TranslateChars(s: string, c: char)
    requires c in Translate(s)
    ensures c == '-' || c == ' ' || (c in s && !IsKey(c))
    decreases |s|
  {
    if s != [] {
      if c in TranslateChar(s[0]) {
      } else {
        TranslateChars(s[1..], c);
      }
    }
  }

  /** Cutting a collapsed name to 47 characters and adding `...` keeps it
      collapsed. */
  lemma {:induction false} CappedKeepsCollapsed(c: string)
    requires Collapsed(c)
    ensures Collapsed(Capped(c))
  {
    if |c| > 50 {
      var r := Capped(c);
      forall k | 0 <= k < |r| && IsSpace(r[k])
        ensures r[k] == ' ' && 0 < k < |r| - 1 && !IsSpace(r[k - 1]) && !IsSpace(r[k + 1])
      {
        assert k < 47 && r[k] == c[k];
        if k + 1 < 47 {
          assert r[k + 1] == c[k + 1];
        } else {
          assert r[k + 1] == '.';
        }
      }
    }
  }

  /** A collapsed name has nothing to strip. */
  lemma {:induction false} StripOfCollapsed(s: string)
    requires Collapsed(s)
    ensures Strip(s) == s
  {
    if s != [] {
      assert !IsSpace(s[0]);
      assert !IsSpace(s[|s| - 1]);
    }
    StripNoOp(s);
  }

  /** What the source promises of every sanitised name: none of the nine
      forbidden characters, single spaces between words and none at the
      ends, at most 50 characters, the first 47 characters of the collapsed
      name and `...` exactly when that name is longer than 50, and no other
      characters than the input's, `-` and `' '` (plus the dots of `...`). */
  lemma {:induction false} SanitizedShape(name: string)
    ensures var c, r := Collapse(Translate(name)), Sanitized(name);
      && (forall k :: 0 <= k < |r| ==> !IsForbidden(r[k]))
      && Collapsed(r)
      && |r| <= 50
      && (|c| > 50 ==> |r| == 50 && r == c[..47] + "...")
      && (|c| <= 50 ==> r == c)
      && (forall k :: 0 <= k < |r| ==> r[k] in name || r[k] == '-' || r[k] == ' ' || r[k] == '.')
  {
    var t := Translate(name);
    var c := Collapse(t);
    CollapseIsCollapsed(t);
    CappedKeepsCollapsed(c);
    StripOfCollapsed(Capped(c));
    var r := Capped(c);
    forall k | 0 <= k < |r| ensures !IsForbidden(r[k]) && (r[k] in name || r[k] == '-' || r[k] == ' ' || r[k] == '.') {
      if r[k] != '.' && !IsSpace(r[k]) {
        assert r[k] in c;
        InNonSpace(c, r[k]);
        CollapseKeepsContent(t);
        InNonSpace(t, r[k]);
        TranslateChars(name, r[k]);
      }
    }
  }

  /** A sanitised name has no table key left in it. */
  lemma {:induction false} TranslateOfClean(s: string)
    requires forall k :: 0 <= k < |s| ==> !IsKey(s[k])
    ensures Translate(s) == s
    decreases |s|
  {
    if s != [] {
      TranslateOfClean(s[1..]);
      assert s == [s[0]] + s[1..];
    }
  }

  /** Sanitising a sanitised name gives it back. */
  lemma {:induction false} SanitizeIsIdempotent(name: string)
    ensures Sanitized(Sanitized(name)) == Sanitized(name)
  {
    var r := Sanitized(name);
    SanitizedShape(name);
    forall k | 0 <= k < |r| ensures !IsKey(r[k]) {
      assert !IsForbidden(r[k]);
      if IsSpace(r[k]) {
        assert r[k] == ' ';
      }
    }
    TranslateOfClean(r);
    CollapsedIsFixed(r);
    StripOfCollapsed(r);
  }

  /** A name made only of deleted characters and whitespace sanitises to
      the empty string. */
  lemma {:induction false} NothingLeft(name: string)
    requires forall k :: 0 <= k < |name| ==> IsSpace(name[k]) || (IsForbidden(name[k]) && TranslateChar(name[k]) == "")
    ensures Sanitized(name) == ""
  {
    var t := Translate(name);
    AllSpaceTranslate(name);
    TrimLeftIsSuffix(t);
  }

  lemma {:induction false} AllSpaceTranslate(name: string)
    requires forall k :: 0 <= k < |name| ==> IsSpace(name[k]) || (IsForbidden(name[k]) && TranslateChar(name[k]) == "")
    ensures forall k :: 0 <= k < |Translate(name)| ==> IsSpace(Translate(name)[k])
    decreases |name|
  {
    if name != [] {
      AllSpaceTranslate(name[1..]);
    }
  }
}
