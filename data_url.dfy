/** The image pre-checks of app.py: the 5 MiB upload gate and the
    `data:` URL that carries the image to the vision model, whose payload is
    Base64 with the standard alphabet and `=` padding (section 4 of RFC 4648)
    inside the syntax of section 3 of RFC 2397. */
module DataUrl {
  import opened Wrappers

  /** A byte of the uploaded image, as Python's `bytes` yields it. */
  type byte = x: int | 0 <= x < 256

  /** A six-bit value: one Base64 character's worth. */
  type sextet = x: int | 0 <= x < 64

  // ---------------------------------------------------------------- upload gate

  const MaxImageMb: nat := 5
  const MaxImageBytes: nat := MaxImageMb * 1024 * 1024

  /** An upload is stopped when it has more bytes than `MAX_IMAGE_BYTES`;
      exactly 5 MiB still passes. */
  function ImageTooLarge(image: seq<byte>): (r: bool)
    ensures r <==> |image| > 5242880
    ensures |image| == 5242880 ==> !r
  {
    |image| > MaxImageBytes
  }

  // ---------------------------------------------------------------- alphabet

  /** A character of the Base64 alphabet (not the pad `=`). */
  predicate IsAlphabet(c: char) {
    'A' <= c <= 'Z' || 'a' <= c <= 'z' || '0' <= c <= '9' || c == '+' || c == '/'
  }

  /** The character that encodes a six-bit value. */
  function SextetChar(v: sextet): (c: char)
    ensures IsAlphabet(c)
  {
    if v < 26 then ('A' as int + v) as char
    else if v < 52 then ('a' as int + v - 26) as char
    else if v < 62 then ('0' as int + v - 52) as char
    else if v == 62 then '+'
    else '/'
  }

  /** The six-bit value a character encodes, if it is in the alphabet. */
  function SextetValue(c: char): (r: Option<sextet>)
    ensures r.Some? <==> IsAlphabet(c)
  {
    if 'A' <= c <= 'Z' then Some(c as int - 'A' as int)
    else if 'a' <= c <= 'z' then Some(c as int - 'a' as int + 26)
    else if '0' <= c <= '9' then Some(c as int - '0' as int + 52)
    else if c == '+' then Some(62)
    else if c == '/' then Some(63)
    else None
  }

  lemma {:induction false} SextetRoundTrip(v: sextet)
    ensures SextetValue(SextetChar(v)) == Some(v)
  {
  }

  // ---------------------------------------------------------------- encoding

  /** Number of `=` characters that end the encoding of `n` bytes. */
  function Padding(n: nat): nat {
    (3 - n % 3) % 3
  }

  lemma {:induction false} PaddingStep(n: nat)
    ensures Padding(n + 3) == Padding(n)
  {
  }

  lemma {:induction false} GroupCount(n: nat)
    ensures 4 * ((n + 3 + 2) / 3) == 4 + 4 * ((n + 2) / 3)
  {
  }

  // The four sextets of a group of bytes `a b c` (the high six bits of `a`;
  // the low two of `a` and high four of `b`; the low four of `b` and high two
  // of `c`; the low six of `c`), and the bytes put back together from them.

  function Sextet0(a: byte): sextet { a / 4 }
  function Sextet1(a: byte, b: byte): sextet { (a % 4) * 16 + b / 16 }
  function Sextet2(b: byte, c: byte): sextet { (b % 16) * 4 + c / 64 }
  function Sextet3(c: byte): sextet { c % 64 }

  function Byte0(s0: sextet, s1: sextet): byte { s0 * 4 + s1 / 16 }
  function Byte1(s1: sextet, s2: sextet): byte { (s1 % 16) * 16 + s2 / 4 }
  function Byte2(s2: sextet, s3: sextet): byte { (s2 % 4) * 64 + s3 }

  /** The sextets give the bytes back. */
  lemma {:induction false} SextetsGiveBytesBack(a: byte, b: byte, c: byte)
    ensures Byte0(Sextet0(a), Sextet1(a, b)) == a
    ensures Byte1(Sextet1(a, b), Sextet2(b, c)) == b
    ensures Byte2(Sextet2(b, c), Sextet3(c)) == c
  {
  }

  /** One group of three bytes as four characters. */
  function EncodeGroup(a: byte, b: byte, c: byte): (r: string)
    ensures |r| == 4 && forall k :: 0 <= k < 4 ==> IsAlphabet(r[k])
  {
    [SextetChar(Sextet0(a)), SextetChar(Sextet1(a, b)), SextetChar(Sextet2(b, c)), SextetChar(Sextet3(c))]
  }

  /** The last group of an input whose length leaves one byte over. */
  function EncodeOne(a: byte): (r: string)
    ensures |r| == 4 && IsAlphabet(r[0]) && IsAlphabet(r[1]) && r[2] == '=' && r[3] == '='
  {
    [SextetChar(Sextet0(a)), SextetChar(Sextet1(a, 0)), '=', '=']
  }

  /** The last group of an input whose length leaves two bytes over. */
  function EncodeTwo(a: byte, b: byte): (r: string)
    ensures |r| == 4 && IsAlphabet(r[0]) && IsAlphabet(r[1]) && IsAlphabet(r[2]) && r[3] == '='
  {
    [SextetChar(Sextet0(a)), SextetChar(Sextet1(a, b)), SextetChar(Sextet2(b, 0)), '=']
  }

  /** `base64.b64encode(data)`, read as text. */
  function Encode(data: seq<byte>): (r: string)
    ensures |r| == 4 * ((|data| + 2) / 3)
    ensures forall k :: 0 <= k < |r| - Padding(|data|) ==> IsAlphabet(r[k])
    ensures forall k :: |r| - Padding(|data|) <= k < |r| ==> r[k] == '='
    decreases |data|
  {
    if |data| == 0 then ""
    else if |data| == 1 then EncodeOne(data[0])
    else if |data| == 2 then EncodeTwo(data[0], data[1])
    else
      var g, rest := EncodeGroup(data[0], data[1], data[2]), Encode(data[3..]);
      PaddingStep(|data| - 3);
      PayloadAfterPrefix(g, rest);
      assert |g + rest| == 4 * ((|data| + 2) / 3) by { GroupCount(|data| - 3); }
      g + rest
  }

  // ---------------------------------------------------------------- decoding

  /** Four alphabet characters as three bytes. */
  function DecodeGroup(q: string): Option<seq<byte>>
    requires |q| == 4
  {
    var v0, v1, v2, v3 := SextetValue(q[0]), SextetValue(q[1]), SextetValue(q[2]), SextetValue(q[3]);
    if v0.Some? && v1.Some? && v2.Some? && v3.Some? then
      Some([Byte0(v0.value, v1.value), Byte1(v1.value, v2.value), Byte2(v2.value, v3.value)])
    else None
  }

  /** The last group, which may end in one or two `=`. */
  function DecodeLastGroup(q: string): Option<seq<byte>>
    requires |q| == 4
  {
    var v0, v1, v2 := SextetValue(q[0]), SextetValue(q[1]), SextetValue(q[2]);
    if q[2] == '=' && q[3] == '=' then
      if v0.Some? && v1.Some? then Some([Byte0(v0.value, v1.value)]) else None
    else if q[3] == '=' then
      if v0.Some? && v1.Some? && v2.Some? then
        Some([Byte0(v0.value, v1.value), Byte1(v1.value, v2.value)])
      else None
    else DecodeGroup(q)
  }

  /** Strict decoding of padded Base64: the inverse the round trip is
      proved against. */
  function Decode(s: string): (r: Option<seq<byte>>)
    ensures r.Some? ==> |s| == 4 * ((|r.value| + 2) / 3)
    decreases |s|
  {
    if |s| == 0 then Some([])
    else if |s| < 4 then None
    else if |s| == 4 then DecodeLastGroup(s)
    else
      match (DecodeGroup(s[..4]), Decode(s[4..]))
      case (Some(g), Some(rest)) =>
        assert |g + rest| == |rest| + 3;
        GroupCount(|rest|);
        Some(g + rest)
      case _ => None
  }

  lemma {:induction false} GroupRoundTrip(a: byte, b: byte, c: byte)
    ensures DecodeGroup(EncodeGroup(a, b, c)) == Some([a, b, c])
    ensures DecodeLastGroup(EncodeGroup(a, b, c)) == Some([a, b, c])
  {
    var q := EncodeGroup(a, b, c);
    assert SextetValue(q[0]) == Some(Sextet0(a)) by { SextetRoundTrip(Sextet0(a)); }
    assert SextetValue(q[1]) == Some(Sextet1(a, b)) by { SextetRoundTrip(Sextet1(a, b)); }
    assert SextetValue(q[2]) == Some(Sextet2(b, c)) by { SextetRoundTrip(Sextet2(b, c)); }
    assert SextetValue(q[3]) == Some(Sextet3(c)) by { SextetRoundTrip(Sextet3(c)); }
    assert DecodeGroup(q) == Some([a, b, c]) by { SextetsGiveBytesBack(a, b, c); }
    FullLastGroup(q);
  }

  /** A last group without padding is decoded like any other group. */
  lemma {:induction false} FullLastGroup(q: string)
    requires |q| == 4 && IsAlphabet(q[2]) && IsAlphabet(q[3])
    ensures DecodeLastGroup(q) == DecodeGroup(q)
  {
  }

  lemma {:induction false} OneRoundTrip(a: byte)
    ensures DecodeLastGroup(EncodeOne(a)) == Some([a])
  {
    var q, s0, s1 := EncodeOne(a), Sextet0(a), Sextet1(a, 0);
    SextetRoundTrip(s0);
    SextetRoundTrip(s1);
    assert SextetValue(q[0]) == Some(s0) && SextetValue(q[1]) == Some(s1);
    SextetsGiveBytesBack(a, 0, 0);
    assert Byte0(s0, s1) == a;
  }

  lemma {:induction false} TwoRoundTrip(a: byte, b: byte)
    ensures DecodeLastGroup(EncodeTwo(a, b)) == Some([a, b])
  {
    var q, s0, s1, s2 := EncodeTwo(a, b), Sextet0(a), Sextet1(a, b), Sextet2(b, 0);
    SextetRoundTrip(s0);
    SextetRoundTrip(s1);
    SextetRoundTrip(s2);
    assert SextetValue(q[0]) == Some(s0) && SextetValue(q[1]) == Some(s1) && SextetValue(q[2]) == Some(s2);
    SextetsGiveBytesBack(a, b, 0);
    assert Byte0(s0, s1) == a && Byte1(s1, s2) == b;
  }

  /** Decoding the encoding of any bytes gives them back. */
  lemma {:induction false} EncodeDecodeRoundTrip(data: seq<byte>)
    ensures Decode(Encode(data)) == Some(data)
    decreases |data|
  {
    if |data| == 1 {
      ShortRoundTrip(data);
    } else if |data| == 2 {
      ShortRoundTrip(data);
    } else if |data| == 3 {
      ShortRoundTrip(data);
    } else if |data| > 3 {
      EncodeDecodeRoundTrip(data[3..]);
      GroupThenRestRoundTrip(data);
    }
  }

  lemma {:induction false} ShortRoundTrip(data: seq<byte>)
    requires 1 <= |data| <= 3
    ensures Decode(Encode(data)) == Some(data)
  {
    var q := Encode(data);
    DecodeOfFour(q);
    if |data| == 1 {
      assert q == EncodeOne(data[0]);
      OneRoundTrip(data[0]);
      SmallSeq(data);
    } else if |data| == 2 {
      assert q == EncodeTwo(data[0], data[1]);
      TwoRoundTrip(data[0], data[1]);
      SmallSeq(data);
    } else {
      assert q == EncodeGroup(data[0], data[1], data[2]) by {
        assert Encode(data[3..]) == [];
      }
      GroupRoundTrip(data[0], data[1], data[2]);
      SmallSeq(data);
    }
  }

  /** A sequence as its first elements followed by the rest. */
  lemma {:induction false} SmallSeq<T>(s: seq<T>)
    ensures |s| == 1 ==> s == [s[0]]
    ensures |s| == 2 ==> s == [s[0], s[1]]
    ensures |s| == 3 ==> s == [s[0], s[1], s[2]]
    ensures |s| >= 3 ==> s == [s[0], s[1], s[2]] + s[3..]
  {
  }

  lemma {:induction false} DecodeOfFour(q: string)
    requires |q| == 4
    ensures Decode(q) == DecodeLastGroup(q)
  {
  }

  lemma {:induction false} GroupThenRestRoundTrip(data: seq<byte>)
    requires |data| > 3
    requires Decode(Encode(data[3..])) == Some(data[3..])
    ensures Decode(Encode(data)) == Some(data)
  {
    var g := EncodeGroup(data[0], data[1], data[2]);
    GroupRoundTrip(data[0], data[1], data[2]);
    assert Encode(data) == g + Encode(data[3..]);
    DecodeGroupThenRest(g, Encode(data[3..]));
    SmallSeq(data);
  }

  /** A full group followed by more text decodes group by group. */
  lemma {:induction false} DecodeGroupThenRest(g: string, rest: string)
    requires |g| == 4 && |rest| > 0
    ensures Decode(g + rest) ==
      if DecodeGroup(g).Some? && Decode(rest).Some? then Some(DecodeGroup(g).value + Decode(rest).value)
      else None
  {
    var e := g + rest;
    assert e[..4] == g && e[4..] == rest;
  }

  // ---------------------------------------------------------------- data URL

  function DataUrlPrefix(mime: string): string {
    "data:" + mime + ";base64,"
  }

  /** `image_bytes_to_data_url(image_bytes, mime)`: the prefix names the
      media type, and the payload ends with the padding of the image's
      length. */
  function ImageBytesToDataUrl(image: seq<byte>, mime: string): (r: string)
    ensures |r| == |DataUrlPrefix(mime)| + 4 * ((|image| + 2) / 3)
    ensures r[..|DataUrlPrefix(mime)|] == DataUrlPrefix(mime)
    ensures forall k :: |r| - Padding(|image|) <= k < |r| ==> r[k] == '='
  {
    PayloadAfterPrefix(DataUrlPrefix(mime), Encode(image));
    DataUrlPrefix(mime) + Encode(image)
  }

  /** The URL is `data:`, the media type, `;base64,` and a payload of
      4 * ceil(n / 3) alphabet-or-pad characters that decodes back to the
      image. */
  lemma {:induction false} DataUrlCarriesImage(image: seq<byte>, mime: string)
    ensures var url, p := ImageBytesToDataUrl(image, mime), DataUrlPrefix(mime);
      && |url| == 5 + |mime| + 8 + 4 * ((|image| + 2) / 3)
      && url[..5] == "data:" && url[5..5 + |mime|] == mime
      && url[5 + |mime|..|p|] == ";base64,"
      && (forall k :: |p| <= k < |url| ==> IsAlphabet(url[k]) || url[k] == '=')
      && Decode(url[|p|..]) == Some(image)
  {
    var p := DataUrlPrefix(mime);
    var e := Encode(image);
    PrefixParts(mime);
    PayloadAfterPrefix(p, e);
    assert forall k :: 0 <= k < |e| ==> IsAlphabet(e[k]) || e[k] == '=';
    EncodeDecodeRoundTrip(image);
  }

  lemma {:induction false} PrefixParts(mime: string)
    ensures var p := DataUrlPrefix(mime);
      && |p| == 5 + |mime| + 8
      && p[..5] == "data:" && p[5..5 + |mime|] == mime && p[5 + |mime|..] == ";base64,"
  {
  }

  /** What follows the prefix is the payload, character for character. */
  lemma {:induction false} PayloadAfterPrefix<T>(p: seq<T>, e: seq<T>)
    ensures (p + e)[|p|..] == e && (p + e)[..|p|] == p
    ensures forall k :: |p| <= k < |p + e| ==> (p + e)[k] == e[k - |p|]
  {
  }

  // The test vectors of section 10 of RFC 4648 ("f", "fo", "foo", "foobar";
  // the empty input is the first case of `Encode`).

  /** One byte leaves two pad characters. */
  lemma {:induction false} EncodeFVector()
    ensures Encode([102]) == "Zg=="
  {
    assert Sextet0(102) == 25 && Sextet1(102, 0) == 32;
  }

  /** Two bytes leave one. */
  lemma {:induction false} EncodeFoVector()
    ensures Encode([102, 111]) == "Zm8="
  {
    assert Sextet0(102) == 25 && Sextet1(102, 111) == 38 && Sextet2(111, 0) == 60;
  }

  /** Three bytes become four characters and need no padding. */
  lemma {:induction false} EncodeFooVector()
    ensures Encode([102, 111, 111]) == "Zm9v"
  {
    assert Sextet0(102) == 25 && Sextet1(102, 111) == 38 && Sextet2(111, 111) == 61 && Sextet3(111) == 47;
    assert EncodeGroup(102, 111, 111) == "Zm9v";
    assert [102, 111, 111][3..] == [];
  }

  /** Six bytes are two groups, encoded one after the other. */
  lemma {:induction false} EncodeFoobarVector()
    ensures Encode([102, 111, 111, 98, 97, 114]) == "Zm9vYmFy"
  {
    var data: seq<byte> := [102, 111, 111, 98, 97, 114];
    assert data[3..] == [98, 97, 114] && data[3..][3..] == [];
    assert Sextet0(102) == 25 && Sextet1(102, 111) == 38 && Sextet2(111, 111) == 61 && Sextet3(111) == 47;
    assert EncodeGroup(102, 111, 111) == "Zm9v";
    assert Sextet0(98) == 24 && Sextet1(98, 97) == 38 && Sextet2(97, 114) == 5 && Sextet3(114) == 50;
    assert EncodeGroup(98, 97, 114) == "YmFy";
    assert Encode(data[3..]) == "YmFy";
  }
}
