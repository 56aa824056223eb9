/** The data side of utils/pdf_generator.py: `hex_to_rgb` on its integer
    parsing, and the block of `generar_pdf` that turns the research record
    returned by the webhook into the strings and lists the dossier shows.
    Drawing, layout and the `/255` float scaling are not part of this
    model. */
module PdfGenerator {
  import opened Wrappers
  import opened Text

  // ================================================================ hex_to_rgb

  /** The branding colours. */
  const ColorCyan: string := "#00D9FF"
  const ColorDarkBlue: string := "#003D5C"
  const ColorGreen: string := "#10B981"
  const ColorBlack: string := "#000000"
  const ColorGrey: string := "#666666"

  /** `s.lstrip('#')`: every leading `#` goes. */
  function LStripHash(s: string): (r: string)
    ensures |r| <= |s|
    ensures r == [] || r[0] != '#'
  {
    if s != [] && s[0] == '#' then LStripHash(s[1..]) else s
  }

  /** `lstrip('#')` removes a run of `#` from the front and nothing else. */
  lemma {:induction false} LStripHashIsSuffix(s: string)
    ensures var r := LStripHash(s);
      && r == s[|s| - |r|..]
      && forall k :: 0 <= k < |s| - |r| ==> s[k] == '#'
  {
    if s != [] && s[0] == '#' {
      LStripHashIsSuffix(s[1..]);
      assert s[1..][|s| - 1 - |LStripHash(s)|..] == s[|s| - |LStripHash(s)|..];
    }
  }

  /** Python's slice `s[i:j]` for `0 <= i <= j`: bounds past the end are
      clamped. */
  function Slice(s: string, i: nat, j: nat): (r: string)
    requires i <= j
    ensures |r| <= j - i
    ensures |s| >= j ==> r == s[i..j]
  {
    if |s| <= i then "" else if |s| <= j then s[i..] else s[i..j]
  }

  /** The value of a hexadecimal digit, either case. */
  function HexDigit(c: char): (r: Option<int>)
    ensures r.Some? ==> 0 <= r.value < 16
  {
    if '0' <= c <= '9' then Some(c as int - '0' as int)
    else if 'a' <= c <= 'f' then Some(c as int - 'a' as int + 10)
    else if 'A' <= c <= 'F' then Some(c as int - 'A' as int + 10)
    else None
  }

  predicate AllHex(s: string) {
    forall k :: 0 <= k < |s| ==> HexDigit(s[k]).Some?
  }

  function Pow16(n: nat): (r: nat)
    ensures r >= 1
  {
    if n == 0 then 1 else 16 * Pow16(n - 1)
  }

  /** The number a run of hexadecimal digits denotes, most significant
      first. */
  function HexValue(s: string): (r: int)
    requires AllHex(s)
    ensures 0 <= r < Pow16(|s|)
  {
    if s == [] then 0
    else HexValue(s[..|s| - 1]) * 16 + HexDigit(s[|s| - 1]).value
  }

  /** Why `int(x, 16)` refused its argument. */
  datatype ParseError = InvalidLiteral(text: string)

  /** `[+-]?[0-9a-fA-F]+`: an optional sign and at least one hexadecimal
      digit. */
  predicate IsHexLiteral(t: string) {
    (t != [] && AllHex(t)) || (|t| >= 2 && (t[0] == '+' || t[0] == '-') && AllHex(t[1..]))
  }

  /** The whitespace `int()` skips around the digits of an ASCII string:
      tab, line feed, vertical tab, form feed, carriage return and the space.
      Unlike `str.strip()`, it does not skip the separators U+001C..U+001F. */
  predicate IsIntSpace(c: char) {
    '\t' <= c <= '\r' || c == ' '
  }

  function IntTrimLeft(s: string): (r: string)
    ensures |r| <= |s|
    ensures r == [] || !IsIntSpace(r[0])
  {
    if s != [] && IsIntSpace(s[0]) then IntTrimLeft(s[1..]) else s
  }

  function IntTrimRight(s: string): (r: string)
    ensures |r| <= |s|
    ensures r == [] || !IsIntSpace(r[|r| - 1])
  {
    if s != [] && IsIntSpace(s[|s| - 1]) then IntTrimRight(s[..|s| - 1]) else s
  }

  /** The text `int()` parses once the surrounding whitespace is skipped. */
  function IntStrip(s: string): (r: string)
    ensures |r| <= |s|
    ensures r == [] || (!IsIntSpace(r[0]) && !IsIntSpace(r[|r| - 1]))
  {
    var l := IntTrimLeft(s);
    var r := IntTrimRight(l);
    assert r == [] || r[0] == l[0] by { IntTrimRightIsPrefix(l); }
    r
  }

  lemma {:induction false} IntTrimRightIsPrefix(s: string)
    ensures IntTrimRight(s) == s[..|IntTrimRight(s)|]
    decreases |s|
  {
    if s != [] && IsIntSpace(s[|s| - 1]) {
      IntTrimRightIsPrefix(s[..|s| - 1]);
    }
  }

  /** `int(x, 16)` on the text of at most two characters that `hex_to_rgb`
      passes: surrounding whitespace, an optional sign and at least one
      hexadecimal digit. On longer text Python also accepts underscores
      between digits and a `0x` prefix, which this model refuses; neither
      fits in two characters with a digit to spare. */
  function IntBase16(x: string): (r: Result<int, ParseError>)
    ensures r.Success? <==> IsHexLiteral(IntStrip(x))
    ensures r.Failure? ==> r.error == InvalidLiteral(x)
    ensures r.Success? && AllHex(IntStrip(x)) ==> r.value == HexValue(IntStrip(x))
    ensures r.Success? && |IntStrip(x)| > 0 && IntStrip(x)[0] == '+' && AllHex(IntStrip(x)[1..]) ==>
      r.value == HexValue(IntStrip(x)[1..])
    ensures r.Success? && |IntStrip(x)| > 0 && IntStrip(x)[0] == '-' && AllHex(IntStrip(x)[1..]) ==>
      r.value == -HexValue(IntStrip(x)[1..])
  {
    var t := IntStrip(x);
    var negative := |t| > 0 && t[0] == '-';
    var digits := if |t| > 0 && (t[0] == '+' || t[0] == '-') then t[1..] else t;
    if digits == [] || !AllHex(digits) then Failure(InvalidLiteral(x))
    else Success(if negative then -HexValue(digits) else HexValue(digits))
  }

  /** `hex_to_rgb(hex_color)` before the division by 255: the integer
      components, or the `ValueError` of the first slice that does not
      parse. */
  function HexToRgb(hexColor: string): (r: Result<(int, int, int), ParseError>)
    ensures r.Success? ==> 5 <= |LStripHash(hexColor)|
    ensures LStripHash(hexColor) == [] ==> r == Failure(InvalidLiteral(""))
  {
    RgbOfDigits(LStripHash(hexColor))
  }

  /** The three two-character slices of the text after the hashes: all three
      must parse, so fewer than five characters are refused, and an error
      names one of the slices. */
  function RgbOfDigits(h: string): (r: Result<(int, int, int), ParseError>)
    ensures r.Success? ==> 5 <= |h|
    ensures r.Failure? ==>
      r.error.text == Slice(h, 0, 2) || r.error.text == Slice(h, 2, 4) || r.error.text == Slice(h, 4, 6)
  {
    var r := IntBase16(Slice(h, 0, 2));
    var g := IntBase16(Slice(h, 2, 4));
    var b := IntBase16(Slice(h, 4, 6));
    if r.Failure? then Failure(r.error)
    else if g.Failure? then Failure(g.error)
    else if b.Failure? then Failure(b.error)
    else Success((r.value, g.value, b.value))
  }

  /** A parsed slice of at most two characters lies in -255..255; without a
      sign, in 0..255. */
  lemma {:induction false} IntBase16OfPair(x: string)
    requires |x| <= 2
    requires IntBase16(x).Success?
    ensures -255 <= IntBase16(x).value <= 255
    ensures '-' !in x ==> 0 <= IntBase16(x).value
  {
    var t := IntStrip(x);
    var digits := if |t| > 0 && (t[0] == '+' || t[0] == '-') then t[1..] else t;
    assert |digits| <= 2;
    assert Pow16(|digits|) <= 256;
  }

  /** Whatever the input, a successful parse has components of at most two
      hexadecimal digits, signs included; an input whose first six
      characters after the hashes contain no `-` gives components in
      0..255. */
  lemma {:induction false} HexToRgbRange(hexColor: string)
    requires HexToRgb(hexColor).Success?
    ensures var (r, g, b) := HexToRgb(hexColor).value;
      -255 <= r <= 255 && -255 <= g <= 255 && -255 <= b <= 255
    ensures var h := LStripHash(hexColor);
      '-' !in Slice(h, 0, 6) ==>
        var (r, g, b) := HexToRgb(hexColor).value; 0 <= r && 0 <= g && 0 <= b
  {
    var h := LStripHash(hexColor);
    IntBase16OfPair(Slice(h, 0, 2));
    IntBase16OfPair(Slice(h, 2, 4));
    IntBase16OfPair(Slice(h, 4, 6));
    if '-' !in Slice(h, 0, 6) {
      SliceInside(h, 0, 2);
      SliceInside(h, 2, 4);
      SliceInside(h, 4, 6);
    }
  }

  /** A character of a two-character slice is a character of the first six. */
  lemma {:induction false} SliceInside(h: string, i: nat, j: nat)
    requires i <= j <= 6
    ensures forall c :: c in Slice(h, i, j) ==> c in Slice(h, 0, 6)
  {
    forall c | c in Slice(h, i, j) ensures c in Slice(h, 0, 6) {
      var k :| 0 <= k < |Slice(h, i, j)| && Slice(h, i, j)[k] == c;
      assert Slice(h, 0, 6)[i + k] == c;
    }
  }

  // ---------------------------------------------------------------- formatting

  /** The upper-case digit for a value below 16. */
  function HexChar(v: int): (c: char)
    requires 0 <= v < 16
    ensures HexDigit(c) == Some(v)
  {
    if v < 10 then ('0' as int + v) as char else ('A' as int + v - 10) as char
  }

  /** `f"{v:02X}"` for a byte value. */
  function HexPair(v: int): (s: string)
    requires 0 <= v < 256
    ensures |s| == 2 && AllHex(s)
  {
    [HexChar(v / 16), HexChar(v % 16)]
  }

  lemma {:induction false} HexValueOfPair(s: string)
    requires |s| == 2 && AllHex(s)
    ensures HexValue(s) == HexDigit(s[0]).value * 16 + HexDigit(s[1]).value
  {
    assert s[..1][..0] == [];
    assert HexValue(s[..1]) == HexDigit(s[0]).value;
  }

  /** A string that has nothing to strip and no sign parses as its digits. */
  lemma {:induction false} IntBase16OfDigits(s: string)
    requires s != [] && AllHex(s)
    ensures IntBase16(s) == Success(HexValue(s))
  {
    assert HexDigit(s[0]).Some? && HexDigit(s[|s| - 1]).Some?;
    assert IntTrimLeft(s) == s;
    assert IntTrimRight(s) == s;
  }

  /** Parsing a formatted pair gives the value back. */
  lemma {:induction false} HexPairRoundTrip(v: int)
    requires 0 <= v < 256
    ensures IntBase16(HexPair(v)) == Success(v)
  {
    var s := HexPair(v);
    IntBase16OfDigits(s);
    HexValueOfPair(s);
  }

  /** `hex_to_rgb` inverts the `#RRGGBB` notation, with any number of
      leading `#`. */
  lemma {:induction false} HexToRgbRoundTrip(hashes: nat, r: int, g: int, b: int)
    requires 0 <= r < 256 && 0 <= g < 256 && 0 <= b < 256
    ensures HexToRgb(Hashes(hashes) + HexPair(r) + HexPair(g) + HexPair(b)) == Success((r, g, b))
  {
    var body := HexPair(r) + HexPair(g) + HexPair(b);
    LStripHashes(hashes, body);
    ConcatAssoc(Hashes(hashes), HexPair(r), HexPair(g), HexPair(b));
    RgbOfPairs(r, g, b);
  }

  lemma {:induction false} ConcatAssoc<T>(a: seq<T>, b: seq<T>, c: seq<T>, d: seq<T>)
    ensures a + b + c + d == a + (b + c + d)
  {
  }

  lemma {:induction false} ConcatAssoc3<T>(a: seq<T>, b: seq<T>, c: seq<T>)
    ensures a + b + c == a + (b + c)
  {
  }

  lemma {:induction false} RgbOfPairs(r: int, g: int, b: int)
    requires 0 <= r < 256 && 0 <= g < 256 && 0 <= b < 256
    ensures RgbOfDigits(HexPair(r) + HexPair(g) + HexPair(b)) == Success((r, g, b))
  {
    var body := HexPair(r) + HexPair(g) + HexPair(b);
    assert Slice(body, 0, 2) == HexPair(r);
    assert Slice(body, 2, 4) == HexPair(g);
    assert Slice(body, 4, 6) == HexPair(b);
    HexPairRoundTrip(r);
    HexPairRoundTrip(g);
    HexPairRoundTrip(b);
  }

  function Hashes(n: nat): (s: string)
    ensures |s| == n
  {
    if n == 0 then "" else "#" + Hashes(n - 1)
  }

  lemma {:induction false} LStripHashes(n: nat, body: string)
    requires body == [] || body[0] != '#'
    ensures LStripHash(Hashes(n) + body) == body
  {
    if n > 0 {
      LStripHashes(n - 1, body);
      LStripOneHash(Hashes(n - 1) + body);
      assert Hashes(n) == "#" + Hashes(n - 1);
      ConcatAssoc3("#", Hashes(n - 1), body);
    } else {
      assert Hashes(n) + body == body;
    }
  }

  lemma {:induction false} LStripOneHash(x: string)
    ensures LStripHash("#" + x) == LStripHash(x)
  {
    assert ("#" + x)[1..] == x;
  }

  // The branding colours parse to the integers the logo uses.

  lemma {:induction false} CyanParses()
    ensures HexToRgb(ColorCyan) == Success((0, 217, 255))
  {
    CyanNotation();
    HexToRgbRoundTrip(1, 0, 217, 255);
  }

  lemma {:induction false} CyanNotation()
    ensures ColorCyan == Hashes(1) + HexPair(0) + HexPair(217) + HexPair(255)
  {
    assert Hashes(1) == "#";
  }

  lemma {:induction false} DarkBlueParses()
    ensures HexToRgb(ColorDarkBlue) == Success((0, 61, 92))
  {
    DarkBlueNotation();
    HexToRgbRoundTrip(1, 0, 61, 92);
  }

  lemma {:induction false} DarkBlueNotation()
    ensures ColorDarkBlue == Hashes(1) + HexPair(0) + HexPair(61) + HexPair(92)
  {
    assert Hashes(1) == "#";
  }

  lemma {:induction false} GreenParses()
    ensures HexToRgb(ColorGreen) == Success((16, 185, 129))
  {
    GreenNotation();
    HexToRgbRoundTrip(1, 16, 185, 129);
  }

  lemma {:induction false} GreenNotation()
    ensures ColorGreen == Hashes(1) + HexPair(16) + HexPair(185) + HexPair(129)
  {
    assert Hashes(1) == "#";
  }

  lemma {:induction false} BlackParses()
    ensures HexToRgb(ColorBlack) == Success((0, 0, 0))
  {
    BlackNotation();
    HexToRgbRoundTrip(1, 0, 0, 0);
  }

  lemma {:induction false} BlackNotation()
    ensures ColorBlack == Hashes(1) + HexPair(0) + HexPair(0) + HexPair(0)
  {
    assert Hashes(1) == "#";
  }

  lemma {:induction false} GreyParses()
    ensures HexToRgb(ColorGrey) == Success((102, 102, 102))
  {
    GreyNotation();
    HexToRgbRoundTrip(1, 102, 102, 102);
  }

  lemma {:induction false} GreyNotation()
    ensures ColorGrey == Hashes(1) + HexPair(102) + HexPair(102) + HexPair(102)
  {
    assert Hashes(1) == "#";
  }

  /** Fewer than five characters after the hashes leave the blue slice
      empty, and `int("", 16)` fails: the three-digit shorthand `#FFF` is
      refused, not expanded. */
  lemma {:induction false} ShortInputIsRefused(hexColor: string)
    requires |LStripHash(hexColor)| <= 4
    ensures HexToRgb(hexColor).Failure?
  {
    var h := LStripHash(hexColor);
    assert Slice(h, 4, 6) == "";
    EmptyIsNotANumber();
  }

  lemma {:induction false} EmptyIsNotANumber()
    ensures IntBase16("").Failure?
  {
    assert IntStrip("") == "";
  }

  /** `int()` skips the whitespace of C's `isspace` around the digits, ... */
  lemma {:induction false} IntSkipsCSpace()
    ensures IntBase16(" 1\n") == Success(1)
  {
    assert IntTrimLeft(" 1\n") == "1\n";
    assert IntTrimRight("1\n") == "1";
  }

  /** ... but not the separators U+001C..U+001F, which `str.strip()` would
      remove, ... */
  lemma {:induction false} IntKeepsSeparator()
    ensures IntBase16("\U{1C}1") == Failure(InvalidLiteral("\U{1C}1"))
  {
    assert IntTrimLeft("\U{1C}1") == "\U{1C}1";
    assert IntTrimRight("\U{1C}1") == "\U{1C}1";
    assert !HexDigit("\U{1C}1"[0]).Some?;
  }

  /** ... so a colour holding one is refused. */
  lemma {:induction false} SeparatorColourIsRefused()
    ensures HexToRgb("#\U{1C}1ABCD").Failure?
  {
    assert LStripHash("#\U{1C}1ABCD") == "\U{1C}1ABCD";
    assert Slice("\U{1C}1ABCD", 0, 2) == "\U{1C}1";
    IntKeepsSeparator();
  }

  lemma {:induction false} ShorthandIsRefused()
    ensures HexToRgb("#FFF").Failure?
  {
    ShortInputIsRefused("#FFF");
  }

  // ================================================================ dossier fields

  /** A key of a JSON object as `d.get(key, default)` sees it: missing (the
      default is used), present with `null` (`None` comes back, default or
      not), or present with a value. */
  datatype Field<T> = Absent | Null | Present(value: T) {
    /** `d.get(key, default)`; `None` for JSON null. */
    function Get(default: T): (r: Option<T>)
      ensures r.None? <==> Null?
      ensures Present? ==> r == Some(value)
      ensures Absent? ==> r == Some(default)
    {
      match this
      case Absent => Some(default)
      case Null => None
      case Present(v) => Some(v)
    }
  }

  /** Python truthiness of a string-valued key. */
  predicate Truthy(f: Field<string>) {
    f.Present? && f.value != ""
  }

  /** Python truthiness of a list-valued key (`x and len(x) > 0`). */
  predicate NonEmpty(f: Field<seq<string>>) {
    f.Present? && f.value != []
  }

  /** The list `d.get(key, [])` gives when the key is not null. */
  function ListOr(f: Field<seq<string>>): (r: seq<string>)
    ensures f.Present? ==> r == f.value
    ensures !f.Present? ==> r == []
  {
    if f.Present? then f.value else []
  }

  /** The sections of the research record the webhook returns. A section
      that is missing reads as the empty object, that is, with every key
      `Absent`. */
  datatype InfoBasica = InfoBasica(titulo: Field<string>, subtitulo: Field<string>, autor: Field<string>)
  datatype Clasificacion = Clasificacion(
    generoPrincipal: Field<string>, generosSecundarios: Field<seq<string>>, categorias: Field<seq<string>>,
    temasClave: Field<seq<string>>, palabrasClave: Field<seq<string>>, tonoGeneral: Field<string>)
  datatype Contenido = Contenido(mensajePrincipal: Field<string>, sinopsis: Field<string>, sinopsisBreve: Field<string>)
  datatype Resenas = Resenas(extractosDestacados: Field<seq<string>>)
  datatype Audiencia = Audiencia(
    publicoObjetivo: Field<seq<string>>, recomendadoPara: Field<seq<string>>, advertenciasContenido: Field<seq<string>>)
  datatype Reconocimientos = Reconocimientos(
    premios: Field<seq<string>>, adaptaciones: Field<seq<string>>, mencionMedios: Field<seq<string>>)
  datatype Contexto = Contexto(popularidadOnline: Field<string>, serie: Field<string>)
  datatype Ficha = Ficha(
    informacionBasica: InfoBasica, clasificacion: Clasificacion, contenido: Contenido, resenas: Resenas,
    audiencia: Audiencia, reconocimientos: Reconocimientos, contextoPublicacion: Contexto)

  /** What the dossier shows, before layout. */
  datatype Dossier = Dossier(
    title: Option<string>, subtitle: Option<string>, author: Option<string>,
    genreText: string, conceptText: string, synopsis: Option<string>,
    extracts: seq<string>, audienceText: string, badges: seq<Badge>, warnings: Option<seq<string>>)

  /** The exception `generar_pdf` raises on a null key: slicing or
      extending with `None` is a `TypeError`, lower-casing it an
      `AttributeError`. */
  datatype FieldError = TypeError(key: string) | AttributeError(key: string)

  /** The recognition badges, in the order they are added. */
  datatype Badge = Awarded | Adapted | Popular | InMedia | InSeries

  /** The line drawn for a badge. */
  function Label(b: Badge): string {
    match b
    case Awarded => "✓ Premiado"
    case Adapted => "✓ Adaptación a película/serie"
    case Popular => "✓ Popular en redes sociales"
    case InMedia => "✓ Mencionado en medios"
    case InSeries => "✓ Forma parte de una serie"
  }

  /** A badge's place in the fixed order. */
  function Rank(b: Badge): nat {
    match b
    case Awarded => 0
    case Adapted => 1
    case Popular => 2
    case InMedia => 3
    case InSeries => 4
  }

  // ---------------------------------------------------------------- list text

  /** Python's `s[:n]`. */
  function Take<T>(s: seq<T>, n: nat): (r: seq<T>)
    ensures |r| == if |s| <= n then |s| else n
    ensures r == s[..|r|]
  {
    if |s| <= n then s else s[..n]
  }

  /** The separator the dossier lists are joined with. */
  const ListSep: string := ", "

  /** `p` does not contain the separator `", "`. */
  predicate CommaFree(p: string) {
    forall k :: 0 <= k < |p| - 1 ==> !(p[k] == ',' && p[k + 1] == ' ')
  }

  predicate AllCommaFree(ps: seq<string>) {
    forall i :: 0 <= i < |ps| ==> CommaFree(ps[i])
  }

  lemma {:induction false} SplitOfCommaFree(p: string)
    requires CommaFree(p)
    ensures SplitOn(p, ListSep) == [p]
    decreases |p|
  {
    if |p| >= 2 {
      assert p[..2] != ListSep by { assert !(p[0] == ',' && p[1] == ' '); }
      SplitOfCommaFree(p[1..]);
      assert [p[0]] + p[1..] == p;
    }
  }

  lemma {:induction false} SplitAfterPart(p: string, rest: string)
    requires CommaFree(p)
    ensures SplitOn(p + ListSep + rest, ListSep) == [p] + SplitOn(rest, ListSep)
    decreases |p|
  {
    var s := p + ListSep + rest;
    if p == [] {
      assert s[..2] == ListSep && s[2..] == rest;
    } else {
      assert s[..2] != ListSep by {
        if |p| >= 2 {
          assert s[0] == p[0] && s[1] == p[1];
          assert !(p[0] == ',' && p[1] == ' ');
        } else {
          assert s[1] == ',';
        }
      }
      assert s[1..] == p[1..] + ListSep + rest;
      SplitAfterPart(p[1..], rest);
      assert [p[0]] + p[1..] == p;
    }
  }

  /** Splitting a `", "`-joined list gives the items back, provided no item
      contains the separator itself. */
  lemma {:induction false} SplitJoinRoundTrip(parts: seq<string>)
    requires parts != [] && AllCommaFree(parts)
    ensures SplitOn(Join(ListSep, parts), ListSep) == parts
    decreases |parts|
  {
    if |parts| == 1 {
      SplitOfCommaFree(parts[0]);
    } else {
      SplitJoinRoundTrip(parts[1..]);
      SplitAfterPart(parts[0], Join(ListSep, parts[1..]));
      assert [parts[0]] + parts[1..] == parts;
    }
  }

  /** The first piece of a split is a prefix of the text. */
  lemma {:induction false} SplitFirstIsPrefix(s: string)
    ensures SplitOn(s, ListSep)[0] <= s
    decreases |s|
  {
    if |s| >= 2 && s[..2] != ListSep {
      SplitFirstIsPrefix(s[1..]);
    }
  }

  /** No piece of a split on `", "` contains `", "`. */
  lemma {:induction false} SplitPartsAreCommaFree(s: string)
    ensures AllCommaFree(SplitOn(s, ListSep))
    decreases |s|
  {
    var parts := SplitOn(s, ListSep);
    if |s| < 2 {
    } else if s[..2] == ListSep {
      SplitPartsAreCommaFree(s[2..]);
      assert parts == [""] + SplitOn(s[2..], ListSep);
      forall i | 0 <= i < |parts| ensures CommaFree(parts[i]) {
        if i > 0 { assert parts[i] == SplitOn(s[2..], ListSep)[i - 1]; }
      }
    } else {
      var rest := SplitOn(s[1..], ListSep);
      SplitPartsAreCommaFree(s[1..]);
      SplitFirstIsPrefix(s[1..]);
      var first := [s[0]] + rest[0];
      assert CommaFree(first) by {
        forall k | 0 <= k < |first| - 1 ensures !(first[k] == ',' && first[k + 1] == ' ') {
          if k == 0 {
            assert first[1] == rest[0][0] == s[1];
            assert !(s[0] == ',' && s[1] == ' ') by { assert s[..2] == [s[0], s[1]]; }
          } else {
            assert first[k] == rest[0][k - 1] && first[k + 1] == rest[0][k];
          }
        }
      }
      forall i | 0 <= i < |parts| ensures CommaFree(parts[i]) {
        if i > 0 { assert parts[i] == rest[i]; }
      }
    }
  }

  // ---------------------------------------------------------------- title, author

  /** `override or section.get(key, default)`: a non-empty override wins;
      otherwise the record's value, even an empty one; the default only when
      the key is missing; `None` when it is null. */
  function Fallback(override: Option<string>, field: Field<string>, default: string): (r: Option<string>)
    ensures override.Some? && override.value != "" ==> r == override
    ensures (override.None? || override.value == "") ==> r == field.Get(default)
  {
    if override.Some? && override.value != "" then override else field.Get(default)
  }

  const NoTitle: string := "Título no disponible"
  const NoAuthor: string := "Autor no disponible"
  const Unspecified: string := "No especificado"
  const NoSynopsis: string := "No disponible"

  /** The record's title is shown only when no usable override is given;
      the placeholder appears only when the record has no title key. */
  lemma {:induction false} TitleFallbacks(override: Option<string>, field: Field<string>)
    ensures var r := Fallback(override, field, NoTitle);
      && (r == Some(NoTitle) <==> (override == Some(NoTitle) || ((override.None? || override == Some("")) && (field.Absent? || field == Present(NoTitle)))))
      && (r.None? <==> (override.None? || override == Some("")) && field.Null?)
      && (override == Some("") ==> r == Fallback(None, field, NoTitle))
  {
  }

  // ---------------------------------------------------------------- genre

  /** `generos_lista`: the main genre when it is non-empty, then the first two
      secondary genres, then the first two categories. */
  function GenreItems(principal: Field<string>, secundarios: seq<string>, categorias: seq<string>): (r: seq<string>)
    ensures |r| <= 5
    ensures |r| == (if Truthy(principal) then 1 else 0) + |Take(secundarios, 2)| + |Take(categorias, 2)|
    ensures Truthy(principal) ==> r[0] == principal.value
    ensures var lead := if Truthy(principal) then 1 else 0;
      r[lead..lead + |Take(secundarios, 2)|] == Take(secundarios, 2)
    ensures r[|r| - |Take(categorias, 2)|..] == Take(categorias, 2)
  {
    (if Truthy(principal) then [principal.value] else []) + Take(secundarios, 2) + Take(categorias, 2)
  }

  /** `genero_texto`: "No especificado" for no genres, otherwise the first
      five joined so that they can be read back. */
  function GenreText(items: seq<string>): (r: string)
    ensures items == [] ==> r == Unspecified
    ensures items != [] && AllCommaFree(Take(items, 5)) ==> SplitOn(r, ListSep) == Take(items, 5)
  {
    if items != [] then
      (if AllCommaFree(Take(items, 5)) then SplitJoinRoundTrip(Take(items, 5)); Join(ListSep, Take(items, 5))
       else Join(ListSep, Take(items, 5)))
    else Unspecified
  }

  /** The genre line lists every collected genre (the cap of five never cuts
      anything, since at most five are collected), and it reads
      "No especificado" exactly when none was. */
  lemma {:induction false} GenreTextLists(principal: Field<string>, secundarios: seq<string>, categorias: seq<string>)
    requires AllCommaFree(secundarios + categorias + (if principal.Present? then [principal.value] else []))
    ensures var items := GenreItems(principal, secundarios, categorias);
      && (items == [] ==> GenreText(items) == Unspecified)
      && (items != [] ==> SplitOn(GenreText(items), ListSep) == items)
  {
    var items := GenreItems(principal, secundarios, categorias);
    var all := secundarios + categorias + (if principal.Present? then [principal.value] else []);
    if items != [] {
      assert Take(items, 5) == items;
      forall i | 0 <= i < |items| ensures CommaFree(items[i]) {
        assert items[i] in all;
      }
      SplitJoinRoundTrip(items);
    }
  }

  // ---------------------------------------------------------------- concepts

  /** `tono.replace(" y ", ", ").split(", ")`: at least one piece, none
      holding the separator, and together they rejoin to the tone with
      every " y " read as a comma. */
  function ToneParts(tono: string): (r: seq<string>)
    ensures |r| >= 1
    ensures AllCommaFree(r)
    ensures Join(ListSep, r) == Replace(tono, " y ", ListSep)
  {
    var text := Replace(tono, " y ", ListSep);
    SplitOnJoinRoundTrip(text, ListSep);
    SplitPartsAreCommaFree(text);
    SplitOn(text, ListSep)
  }

  /** `conceptos_lista`: key themes, then keywords, then the pieces of a
      non-empty tone. */
  function ConceptItems(temas: seq<string>, palabras: seq<string>, tono: Field<string>): (r: seq<string>)
    ensures |temas| + |palabras| <= |r|
    ensures r[..|temas|] == temas
    ensures r[|temas|..|temas| + |palabras|] == palabras
    ensures Truthy(tono) ==> r[|temas| + |palabras|..] == ToneParts(tono.value)
    ensures !Truthy(tono) ==> |r| == |temas| + |palabras|
  {
    temas + palabras + (if Truthy(tono) then ToneParts(tono.value) else [])
  }

  /** `conceptos_texto` after the main message has been added: the first
      eight concepts, then the message after ". ", or the message alone when
      the concepts give no text. */
  function ConceptText(items: seq<string>, mensaje: Field<string>): (r: string)
    ensures Join(ListSep, Take(items, 8)) <= r
    ensures Truthy(mensaje) ==> |mensaje.value| <= |r| && r[|r| - |mensaje.value|..] == mensaje.value
    ensures Truthy(mensaje) && Join(ListSep, Take(items, 8)) == "" ==> r == mensaje.value
    ensures !Truthy(mensaje) ==> r == Join(ListSep, Take(items, 8))
  {
    var texto := Join(ListSep, Take(items, 8));
    if texto != "" && Truthy(mensaje) then texto + ". " + mensaje.value
    else if Truthy(mensaje) then mensaje.value
    else texto
  }

  /** With at least one concept, the concept line starts with the first
      eight concepts, which can be read back from it, and a main message
      follows them after ". ". */
  lemma {:induction false} ConceptTextLists(items: seq<string>, mensaje: Field<string>)
    requires items != [] && AllCommaFree(items)
    ensures var lead := Join(ListSep, Take(items, 8));
      var r := ConceptText(items, mensaje);
      && SplitOn(r[..|lead|], ListSep) == Take(items, 8)
      && (Truthy(mensaje) && lead != "" ==> r[|lead|..] == ". " + mensaje.value)
  {
    var lead := Join(ListSep, Take(items, 8));
    var r := ConceptText(items, mensaje);
    assert AllCommaFree(Take(items, 8)) by {
      forall i | 0 <= i < |Take(items, 8)| ensures CommaFree(Take(items, 8)[i]) {
        assert Take(items, 8)[i] == items[i];
      }
    }
    SplitJoinRoundTrip(Take(items, 8));
    assert r[..|lead|] == lead;
  }

  // ---------------------------------------------------------------- synopsis

  /** `contenido.get("sinopsis") or contenido.get("sinopsis_breve", "No disponible")`. */
  function Synopsis(sinopsis: Field<string>, breve: Field<string>): (r: Option<string>)
    ensures Truthy(sinopsis) ==> r == Some(sinopsis.value)
    ensures !Truthy(sinopsis) ==> r == breve.Get(NoSynopsis)
  {
    if Truthy(sinopsis) then Some(sinopsis.value) else breve.Get(NoSynopsis)
  }

  /** The placeholder is used only when the short synopsis key is missing;
      an empty or null full synopsis falls through to the short one. */
  lemma {:induction false} SynopsisFallbacks(sinopsis: Field<string>, breve: Field<string>)
    ensures Synopsis(sinopsis, breve) == Some(NoSynopsis) <==>
      (Truthy(sinopsis) && sinopsis.value == NoSynopsis) ||
      (!Truthy(sinopsis) && (breve.Absent? || breve == Present(NoSynopsis)))
    ensures Synopsis(sinopsis, breve).None? <==> !Truthy(sinopsis) && breve.Null?
    ensures Synopsis(Present(""), breve) == Synopsis(Null, breve) == Synopsis(Absent, breve)
  {
  }

  // ---------------------------------------------------------------- audience

  predicate Distinct<T(==)>(s: seq<T>) {
    forall i, j :: 0 <= i < j < |s| ==> s[i] != s[j]
  }

  /** The distinct items of `s`, each at its first occurrence. */
  function Dedup(s: seq<string>): (r: seq<string>)
    ensures Distinct(r)
    ensures forall x :: x in r <==> x in s
  {
    if s == [] then []
    else
      var r := Dedup(s[..|s| - 1]);
      assert forall x :: x in s <==> x in s[..|s| - 1] || x == s[|s| - 1] by {
        assert s == s[..|s| - 1] + [s[|s| - 1]];
      }
      if s[|s| - 1] in r then r else r + [s[|s| - 1]]
  }

  /** `", ".join(set(audiencia_lista[:6]))`, or "No especificado" for an
      empty list: the distinct items among the first six, each once, in the
      set's iteration order, which Python leaves unspecified. */
  ghost predicate IsAudienceText(text: string, items: seq<string>) {
    if items == [] then text == Unspecified
    else exists order: seq<string> ::
      && Distinct(order)
      && (forall x :: x in order <==> x in Take(items, 6))
      && text == Join(ListSep, order)
  }

  /** One admissible audience line: first occurrences in list order. */
  function AudienceText(items: seq<string>): (r: string)
    ensures IsAudienceText(r, items)
  {
    if items != [] then Join(ListSep, Dedup(Take(items, 6))) else Unspecified
  }

  /** Whatever the set's order, the audience line names each distinct
      audience among the first six exactly once and nothing else. */
  lemma {:induction false} AudienceTextLists(text: string, items: seq<string>)
    requires IsAudienceText(text, items)
    requires items != [] && AllCommaFree(items)
    ensures var parts := SplitOn(text, ListSep);
      Distinct(parts) && forall x :: x in parts <==> x in Take(items, 6)
  {
    var order :| && Distinct(order)
      && (forall x :: x in order <==> x in Take(items, 6))
      && text == Join(ListSep, order);
    assert items[0] in Take(items, 6);
    assert AllCommaFree(order) by {
      forall i | 0 <= i < |order| ensures CommaFree(order[i]) {
        assert order[i] in Take(items, 6);
        var k :| 0 <= k < |Take(items, 6)| && Take(items, 6)[k] == order[i];
        assert order[i] == items[k];
      }
    }
    SplitJoinRoundTrip(order);
  }

  // ---------------------------------------------------------------- badges

  /** `popularidad in ["alta", "media"]` after `lower()`: only a four- or
      five-letter word starting with an `a` or an `m` of either case. */
  function IsPopular(popularidad: string): (r: bool)
    ensures r ==> |popularidad| == 4 || |popularidad| == 5
    ensures r ==> popularidad[0] in "aAmM"
  {
    AsciiLower(popularidad) == "alta" || AsciiLower(popularidad) == "media"
  }

  /** Case does not matter, surrounding spaces do: the value is not
      stripped. */
  lemma {:induction false} PopularityExamples()
    ensures IsPopular("Alta") && IsPopular("MEDIA")
    ensures !IsPopular("baja") && !IsPopular(" alta")
  {
    assert AsciiLower("Alta") == "alta";
    assert AsciiLower("MEDIA") == "media";
    assert AsciiLower("baja")[0] == 'b';
    assert AsciiLower(" alta")[0] == ' ';
  }

  /** `reconocimientos_lista`: each badge whose source is non-empty or
      truthy, in the fixed order, so at most five and none twice. */
  function Badges(premios: Field<seq<string>>, adaptaciones: Field<seq<string>>, popularidad: string,
                  mencionMedios: Field<seq<string>>, serie: Field<string>): (r: seq<Badge>)
    ensures |r| <= 5
    ensures Awarded in r <==> NonEmpty(premios)
    ensures Adapted in r <==> NonEmpty(adaptaciones)
    ensures Popular in r <==> IsPopular(popularidad)
    ensures InMedia in r <==> NonEmpty(mencionMedios)
    ensures InSeries in r <==> Truthy(serie)
  {
    Flag(NonEmpty(premios), Awarded) + Flag(NonEmpty(adaptaciones), Adapted) + Flag(IsPopular(popularidad), Popular)
    + Flag(NonEmpty(mencionMedios), InMedia) + Flag(Truthy(serie), InSeries)
  }

  /** The badge when its condition holds. */
  function Flag(condition: bool, b: Badge): seq<Badge> {
    if condition then [b] else []
  }

  /** Ranks strictly increase along `bs`. */
  predicate InRankOrder(bs: seq<Badge>) {
    forall i, j :: 0 <= i < j < |bs| ==> Rank(bs[i]) < Rank(bs[j])
  }

  /** Every badge of `bs` ranks at most `k`. */
  predicate RanksAtMost(bs: seq<Badge>, k: nat) {
    forall i :: 0 <= i < |bs| ==> Rank(bs[i]) <= k
  }

  lemma {:induction false} AppendFlag(bs: seq<Badge>, condition: bool, b: Badge)
    requires Rank(b) > 0 ==> RanksAtMost(bs, Rank(b) - 1)
    requires Rank(b) == 0 ==> bs == []
    requires InRankOrder(bs)
    ensures InRankOrder(bs + Flag(condition, b)) && RanksAtMost(bs + Flag(condition, b), Rank(b))
  {
  }

  /** Optional badges appended in rank order stay in rank order. */
  lemma {:induction false} FlagsInOrder(c0: bool, c1: bool, c2: bool, c3: bool, c4: bool)
    ensures InRankOrder(Flag(c0, Awarded) + Flag(c1, Adapted) + Flag(c2, Popular) + Flag(c3, InMedia) + Flag(c4, InSeries))
  {
    var b0 := Flag(c0, Awarded);
    assert InRankOrder(b0) && RanksAtMost(b0, 0) by {
      AppendFlag([], c0, Awarded);
      assert [] + b0 == b0;
    }
    var b1 := b0 + Flag(c1, Adapted);
    assert InRankOrder(b1) && RanksAtMost(b1, 1) by { AppendFlag(b0, c1, Adapted); }
    var b2 := b1 + Flag(c2, Popular);
    assert InRankOrder(b2) && RanksAtMost(b2, 2) by { AppendFlag(b1, c2, Popular); }
    var b3 := b2 + Flag(c3, InMedia);
    assert InRankOrder(b3) && RanksAtMost(b3, 3) by { AppendFlag(b2, c3, InMedia); }
    AppendFlag(b3, c4, InSeries);
  }

  /** The badges appear in the fixed order Premiado, Adaptación, Popular,
      Mencionado en medios, Serie, whichever of them are present. */
  lemma {:induction false} BadgesInOrder(premios: Field<seq<string>>, adaptaciones: Field<seq<string>>,
                      popularidad: string, mencionMedios: Field<seq<string>>, serie: Field<string>)
    ensures InRankOrder(Badges(premios, adaptaciones, popularidad, mencionMedios, serie))
  {
    FlagsInOrder(NonEmpty(premios), NonEmpty(adaptaciones), IsPopular(popularidad), NonEmpty(mencionMedios), Truthy(serie));
  }

  // ---------------------------------------------------------------- generar_pdf

  function IfNull<T>(f: Field<T>, e: FieldError): seq<FieldError> {
    if f.Null? then [e] else []
  }

  /** The exceptions the genre keys raise, in the order they are read. */
  function GenreNulls(c: Clasificacion): seq<FieldError> {
    IfNull(c.generosSecundarios, TypeError("generos_secundarios")) + IfNull(c.categorias, TypeError("categorias"))
  }

  function ConceptNulls(c: Clasificacion): seq<FieldError> {
    IfNull(c.temasClave, TypeError("temas_clave")) + IfNull(c.palabrasClave, TypeError("palabras_clave"))
  }

  function AudienceNulls(a: Audiencia): seq<FieldError> {
    IfNull(a.publicoObjetivo, TypeError("publico_objetivo")) + IfNull(a.recomendadoPara, TypeError("recomendado_para"))
  }

  /** The exceptions the keys of `ficha` would raise, in the order
      `generar_pdf` reaches them. Null keys that are only checked for
      truthiness or passed on raise nothing. */
  function NullKeys(ficha: Ficha): (r: seq<FieldError>)
    ensures |r| <= 8
    ensures r == [] <==>
      && !ficha.clasificacion.generosSecundarios.Null? && !ficha.clasificacion.categorias.Null?
      && !ficha.clasificacion.temasClave.Null? && !ficha.clasificacion.palabrasClave.Null?
      && !ficha.resenas.extractosDestacados.Null?
      && !ficha.audiencia.publicoObjetivo.Null? && !ficha.audiencia.recomendadoPara.Null?
      && !ficha.contextoPublicacion.popularidadOnline.Null?
  {
    GenreNulls(ficha.clasificacion)
    + ConceptNulls(ficha.clasificacion)
    + IfNull(ficha.resenas.extractosDestacados, TypeError("extractos_destacados"))
    + AudienceNulls(ficha.audiencia)
    + IfNull(ficha.contextoPublicacion.popularidadOnline, AttributeError("popularidad_online"))
  }

  /** The genre block: `generos_lista` built by appending, then
      `genero_texto`. */
  method GenreLine(clasificacion: Clasificacion) returns (r: Result<string, FieldError>)
    ensures r.Failure? <==> GenreNulls(clasificacion) != []
    ensures r.Failure? ==> r.error == GenreNulls(clasificacion)[0]
    ensures r.Success? ==> r.value == GenreText(GenreItems(clasificacion.generoPrincipal,
      ListOr(clasificacion.generosSecundarios), ListOr(clasificacion.categorias)))
  {
    var generos: seq<string> := [];
    if Truthy(clasificacion.generoPrincipal) {
      generos := generos + [clasificacion.generoPrincipal.value];
    }
    if clasificacion.generosSecundarios.Null? {
      return Failure(TypeError("generos_secundarios"));
    }
    generos := generos + Take(ListOr(clasificacion.generosSecundarios), 2);
    if clasificacion.categorias.Null? {
      return Failure(TypeError("categorias"));
    }
    generos := generos + Take(ListOr(clasificacion.categorias), 2);
    assert generos == GenreItems(clasificacion.generoPrincipal, ListOr(clasificacion.generosSecundarios),
                                 ListOr(clasificacion.categorias));
    var generoTexto := if generos != [] then Join(ListSep, Take(generos, 5)) else Unspecified;
    return Success(generoTexto);
  }

  /** The concepts block: `conceptos_lista` built by extending, then
      `conceptos_texto` reassigned to take in the main message. */
  method ConceptLine(clasificacion: Clasificacion, mensajePrincipal: Field<string>) returns (r: Result<string, FieldError>)
    ensures r.Failure? <==> ConceptNulls(clasificacion) != []
    ensures r.Failure? ==> r.error == ConceptNulls(clasificacion)[0]
    ensures r.Success? ==> r.value == ConceptText(ConceptItems(ListOr(clasificacion.temasClave),
      ListOr(clasificacion.palabrasClave), clasificacion.tonoGeneral), mensajePrincipal)
  {
    var conceptos: seq<string> := [];
    if clasificacion.temasClave.Null? {
      return Failure(TypeError("temas_clave"));
    }
    conceptos := conceptos + ListOr(clasificacion.temasClave);
    if clasificacion.palabrasClave.Null? {
      return Failure(TypeError("palabras_clave"));
    }
    conceptos := conceptos + ListOr(clasificacion.palabrasClave);
    if Truthy(clasificacion.tonoGeneral) {
      var tonoParts := SplitOn(Replace(clasificacion.tonoGeneral.value, " y ", ListSep), ListSep);
      conceptos := conceptos + tonoParts;
    }
    assert conceptos == ConceptItems(ListOr(clasificacion.temasClave), ListOr(clasificacion.palabrasClave),
                                     clasificacion.tonoGeneral);
    var conceptosTexto := if conceptos != [] then Join(ListSep, Take(conceptos, 8)) else "";
    assert conceptosTexto == Join(ListSep, Take(conceptos, 8));
    if conceptosTexto != "" && Truthy(mensajePrincipal) {
      conceptosTexto := conceptosTexto + ". " + mensajePrincipal.value;
    } else if Truthy(mensajePrincipal) && conceptosTexto == "" {
      conceptosTexto := mensajePrincipal.value;
    }
    return Success(conceptosTexto);
  }

  /** The audience block: `audiencia_lista` built by extending, then
      `audiencia_texto`. */
  method AudienceLine(audiencia: Audiencia) returns (r: Result<string, FieldError>)
    ensures r.Failure? <==> AudienceNulls(audiencia) != []
    ensures r.Failure? ==> r.error == AudienceNulls(audiencia)[0]
    ensures r.Success? ==> IsAudienceText(r.value, ListOr(audiencia.publicoObjetivo) + ListOr(audiencia.recomendadoPara))
  {
    var audienciaLista: seq<string> := [];
    if audiencia.publicoObjetivo.Null? {
      return Failure(TypeError("publico_objetivo"));
    }
    audienciaLista := audienciaLista + ListOr(audiencia.publicoObjetivo);
    if audiencia.recomendadoPara.Null? {
      return Failure(TypeError("recomendado_para"));
    }
    audienciaLista := audienciaLista + ListOr(audiencia.recomendadoPara);
    assert audienciaLista == ListOr(audiencia.publicoObjetivo) + ListOr(audiencia.recomendadoPara);
    var audienciaTexto := if audienciaLista != [] then Join(ListSep, Dedup(Take(audienciaLista, 6))) else Unspecified;
    assert audienciaTexto == AudienceText(audienciaLista);
    return Success(audienciaTexto);
  }

  /** The recognitions block: `reconocimientos_lista` built by appending. */
  method BadgeList(reconocimientos: Reconocimientos, contexto: Contexto) returns (r: Result<seq<Badge>, FieldError>)
    ensures r.Failure? <==> contexto.popularidadOnline.Null?
    ensures r.Failure? ==> r.error == AttributeError("popularidad_online")
    ensures r.Success? ==> r.value == Badges(reconocimientos.premios, reconocimientos.adaptaciones,
      contexto.popularidadOnline.Get("").GetOr(""), reconocimientos.mencionMedios, contexto.serie)
  {
    var badges: seq<Badge> := [];
    if NonEmpty(reconocimientos.premios) {
      badges := badges + [Awarded];
    }
    if NonEmpty(reconocimientos.adaptaciones) {
      badges := badges + [Adapted];
    }
    ghost var upToAdapted := badges;
    assert upToAdapted == Flag(NonEmpty(reconocimientos.premios), Awarded) + Flag(NonEmpty(reconocimientos.adaptaciones), Adapted);
    if contexto.popularidadOnline.Null? {
      return Failure(AttributeError("popularidad_online"));
    }
    var popularidad := AsciiLower(contexto.popularidadOnline.Get("").GetOr(""));
    var popular := popularidad == "alta" || popularidad == "media";
    if popular {
      badges := badges + [Popular];
    }
    if NonEmpty(reconocimientos.mencionMedios) {
      badges := badges + [InMedia];
    }
    if Truthy(contexto.serie) {
      badges := badges + [InSeries];
    }
    assert badges == upToAdapted + Flag(popular, Popular) + Flag(NonEmpty(reconocimientos.mencionMedios), InMedia)
                     + Flag(Truthy(contexto.serie), InSeries);
    return Success(badges);
  }

  /** The field-assembly block of `generar_pdf(ficha_data, titulo, autor)`:
      the first null key that is sliced, extended or lower-cased stops the
      generation with its exception; otherwise every field of the dossier
      is derived as specified above. */
  method GenerateFields(ficha: Ficha, titulo: Option<string>, autor: Option<string>)
    returns (r: Result<Dossier, FieldError>)
    ensures r.Failure? <==> NullKeys(ficha) != []
    ensures r.Failure? ==> r.error == NullKeys(ficha)[0]
    ensures r.Success? ==>
      var info, c, contenido, a, rec, ctx :=
        ficha.informacionBasica, ficha.clasificacion, ficha.contenido, ficha.audiencia,
        ficha.reconocimientos, ficha.contextoPublicacion;
      && r.value.title == Fallback(titulo, info.titulo, NoTitle)
      && r.value.subtitle == (if info.subtitulo.Present? then Some(info.subtitulo.value) else None)
      && r.value.author == Fallback(autor, info.autor, NoAuthor)
      && r.value.genreText == GenreText(GenreItems(c.generoPrincipal, ListOr(c.generosSecundarios), ListOr(c.categorias)))
      && r.value.conceptText == ConceptText(ConceptItems(ListOr(c.temasClave), ListOr(c.palabrasClave), c.tonoGeneral), contenido.mensajePrincipal)
      && r.value.synopsis == Synopsis(contenido.sinopsis, contenido.sinopsisBreve)
      && r.value.extracts == Take(ListOr(ficha.resenas.extractosDestacados), 5)
      && IsAudienceText(r.value.audienceText, ListOr(a.publicoObjetivo) + ListOr(a.recomendadoPara))
      && r.value.badges == Badges(rec.premios, rec.adaptaciones, ctx.popularidadOnline.Get("").GetOr(""), rec.mencionMedios, ctx.serie)
      && r.value.warnings == a.advertenciasContenido.Get([])
  {
    var info := ficha.informacionBasica;
    var contenido := ficha.contenido;

    var libroTitulo := if titulo.Some? && titulo.value != "" then titulo else info.titulo.Get(NoTitle);
    var libroSubtitulo := if info.subtitulo.Present? then Some(info.subtitulo.value) else None;
    var libroAutor := if autor.Some? && autor.value != "" then autor else info.autor.Get(NoAuthor);

    var generoTexto := GenreLine(ficha.clasificacion);
    if generoTexto.Failure? {
      return Failure(generoTexto.error);
    }
    var conceptosTexto := ConceptLine(ficha.clasificacion, contenido.mensajePrincipal);
    if conceptosTexto.Failure? {
      return Failure(conceptosTexto.error);
    }
    var sinopsis := if Truthy(contenido.sinopsis) then Some(contenido.sinopsis.value)
                    else contenido.sinopsisBreve.Get(NoSynopsis);
    if ficha.resenas.extractosDestacados.Null? {
      return Failure(TypeError("extractos_destacados"));
    }
    var extractos := Take(ListOr(ficha.resenas.extractosDestacados), 5);
    var audienciaTexto := AudienceLine(ficha.audiencia);
    if audienciaTexto.Failure? {
      return Failure(audienciaTexto.error);
    }
    var reconocimientos := BadgeList(ficha.reconocimientos, ficha.contextoPublicacion);
    if reconocimientos.Failure? {
      return Failure(reconocimientos.error);
    }
    var advertencias := ficha.audiencia.advertenciasContenido.Get([]);

    r := Success(Dossier(libroTitulo, libroSubtitulo, libroAutor, generoTexto.value, conceptosTexto.value, sinopsis,
                         extractos, audienciaTexto.value, reconocimientos.value, advertencias));
  }
}
