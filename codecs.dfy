/** Turning the bytes an inverter sends into text: UTF-8 (RFC 3629),
    UTF-16 with a byte-order mark (RFC 2781) and Latin-1 (ISO/IEC 8859-1),
    tried in the order `SAJApi._get_text` tries them. */
module Codecs {
  import opened Outcomes
  import opened Sequences

  newtype byte = x: int | 0 <= x < 256

  // ---------------------------------------------------------------- UTF-8

  /** A continuation byte, `UTF8-tail` of section 4 of RFC 3629. */
  predicate IsTail(b: byte) { 0x80 <= b <= 0xBF }

  /** The second byte of a three-byte sequence led by `b0`, as the `UTF8-3`
      rule restricts it (no overlong forms, no surrogates). */
  predicate SecondOfThree(b0: byte, b1: byte) {
    if b0 == 0xE0 then 0xA0 <= b1 <= 0xBF
    else if b0 == 0xED then 0x80 <= b1 <= 0x9F
    else IsTail(b1)
  }

  /** The second byte of a four-byte sequence led by `b0`, as the `UTF8-4`
      rule restricts it (no overlong forms, nothing above U+10FFFF). */
  predicate SecondOfFour(b0: byte, b1: byte) {
    if b0 == 0xF0 then 0x90 <= b1 <= 0xBF
    else if b0 == 0xF4 then 0x80 <= b1 <= 0x8F
    else IsTail(b1)
  }

  /** The character encoded by the well-formed sequence at the start of `bs`
      and that sequence's length, or None when `bs` does not start with one
      of the four forms of the `UTF8-char` rule. */
  function Utf8First(bs: seq<byte>): (r: Option<(char, nat)>)
    requires |bs| > 0
    ensures r.Some? ==> 1 <= r.value.1 <= 4 && r.value.1 <= |bs|
  {
    var b0 := bs[0] as int;
    if b0 <= 0x7F then
      Some((b0 as char, 1))
    else if 0xC2 <= b0 <= 0xDF then
      if |bs| >= 2 && IsTail(bs[1]) then
        Some((((b0 - 0xC0) * 64 + (bs[1] as int - 0x80)) as char, 2))
      else None
    else if 0xE0 <= b0 <= 0xEF then
      if |bs| >= 3 && SecondOfThree(bs[0], bs[1]) && IsTail(bs[2]) then
        Some((((b0 - 0xE0) * 4096 + (bs[1] as int - 0x80) * 64 + (bs[2] as int - 0x80)) as char, 3))
      else None
    else if 0xF0 <= b0 <= 0xF4 then
      if |bs| >= 4 && SecondOfFour(bs[0], bs[1]) && IsTail(bs[2]) && IsTail(bs[3]) then
        Some((((b0 - 0xF0) * 262144 + (bs[1] as int - 0x80) * 4096
               + (bs[2] as int - 0x80) * 64 + (bs[3] as int - 0x80)) as char, 4))
      else None
    else None
  }

  /** `raw.decode("utf-8")`: the text, or None where Python raises
      `UnicodeDecodeError`. */
  function Utf8Decode(bs: seq<byte>): (r: Option<string>)
    ensures r.Some? ==> |r.value| <= |bs|
    decreases |bs|
  {
    if bs == [] then Some([])
    else match Utf8First(bs)
      case None => None
      case Some((c, n)) =>
        match Utf8Decode(bs[n..])
        case None => None
        case Some(rest) => Some([c] + rest)
  }

  /** The UTF-8 encoding of one character (the table in section 3 of RFC 3629). */
  function Utf8EncodeChar(c: char): (r: seq<byte>)
    ensures 1 <= |r| <= 4
    ensures forall i :: 0 <= i < |r| ==> r[i] < 0xF8
  {
    var n := c as int;
    if n < 0x80 then [n as byte]
    else if n < 0x800 then [(0xC0 + n / 64) as byte, (0x80 + n % 64) as byte]
    else if n < 0x10000 then
      [(0xE0 + n / 4096) as byte, (0x80 + (n / 64) % 64) as byte, (0x80 + n % 64) as byte]
    else
      [(0xF0 + n / 262144) as byte, (0x80 + (n / 4096) % 64) as byte,
       (0x80 + (n / 64) % 64) as byte, (0x80 + n % 64) as byte]
  }

  function Utf8Encode(s: string): seq<byte> {
    if s == [] then [] else Utf8EncodeChar(s[0]) + Utf8Encode(s[1..])
  }

  /** The encoding of a character is read back as that character. */
  lemma Utf8FirstOfEncoding(c: char, rest: seq<byte>)
    ensures Utf8First(Utf8EncodeChar(c) + rest) == Some((c, |Utf8EncodeChar(c)|))
  {
    var n := c as int;
    var enc := Utf8EncodeChar(c);
    var bs := enc + rest;
    assert bs[..|enc|] == enc;
    if n < 0x80 {
    } else if n < 0x800 {
      Utf8FirstOfTwo(c, bs);
    } else if n < 0x10000 {
      Utf8FirstOfThree(c, bs);
    } else {
      Utf8FirstOfFour(c, bs);
    }
  }

  lemma Utf8FirstOfTwo(c: char, bs: seq<byte>)
    requires 0x80 <= c as int < 0x800
    requires |bs| >= 2 && bs[..2] == Utf8EncodeChar(c)
    ensures Utf8First(bs) == Some((c, 2))
  {
    var n := c as int;
    assert bs[0] as int == 0xC0 + n / 64 && bs[1] as int == 0x80 + n % 64;
    assert (bs[0] as int - 0xC0) * 64 + (bs[1] as int - 0x80) == n;
  }

  lemma Utf8FirstOfThree(c: char, bs: seq<byte>)
    requires 0x800 <= c as int < 0x10000
    requires |bs| >= 3 && bs[..3] == Utf8EncodeChar(c)
    ensures Utf8First(bs) == Some((c, 3))
  {
    var n := c as int;
    assert bs[0] as int == 0xE0 + n / 4096;
    assert bs[1] as int == 0x80 + (n / 64) % 64 && bs[2] as int == 0x80 + n % 64;
    assert SecondOfThree(bs[0], bs[1]);
    assert (bs[0] as int - 0xE0) * 4096 + (bs[1] as int - 0x80) * 64 + (bs[2] as int - 0x80) == n;
  }

  lemma Utf8FirstOfFour(c: char, bs: seq<byte>)
    requires 0x10000 <= c as int
    requires |bs| >= 4 && bs[..4] == Utf8EncodeChar(c)
    ensures Utf8First(bs) == Some((c, 4))
  {
    var n := c as int;
    var d0, d1, d2, d3 := FourDigits(n);
    assert bs[0] as int - 0xF0 == d0 && bs[1] as int - 0x80 == d1;
    assert bs[2] as int - 0x80 == d2 && bs[3] as int - 0x80 == d3;
  }

  /** The four base-64 digits (the top one base 4) of a code point above
      U+FFFF, and what the `UTF8-4` rule asks of the first two. */
  lemma FourDigits(n: int) returns (d0: int, d1: int, d2: int, d3: int)
    requires 0x10000 <= n < 0x110000
    ensures d0 == n / 262144 && d1 == (n / 4096) % 64 && d2 == (n / 64) % 64 && d3 == n % 64
    ensures d0 * 262144 + d1 * 4096 + d2 * 64 + d3 == n
    ensures 0 <= d0 <= 4 && 0 <= d1 < 64 && 0 <= d2 < 64 && 0 <= d3 < 64
    ensures d0 == 0 ==> 16 <= d1
    ensures d0 == 4 ==> d1 < 16
  {
    var q1, q2 := n / 64, n / 4096;
    d0, d1, d2, d3 := n / 262144, q2 % 64, q1 % 64, n % 64;
    assert n == q1 * 64 + d3;
    assert q1 / 64 == q2;
    assert q1 == q2 * 64 + d2;
    assert q2 / 64 == d0;
    assert q2 == d0 * 64 + d1;
  }

  /** A well-formed sequence is the encoding of the character it decodes to:
      there is exactly one way to write each character. */
  lemma Utf8FirstIsEncoding(bs: seq<byte>)
    requires |bs| > 0 && Utf8First(bs).Some?
    ensures bs[..Utf8First(bs).value.1] == Utf8EncodeChar(Utf8First(bs).value.0)
  {
    var b0 := bs[0] as int;
    if b0 <= 0x7F {
    } else if b0 <= 0xDF {
      Utf8TwoIsEncoding(bs);
    } else if b0 <= 0xEF {
      Utf8ThreeIsEncoding(bs);
    } else {
      Utf8FourIsEncoding(bs);
    }
  }

  lemma Utf8TwoIsEncoding(bs: seq<byte>)
    requires |bs| >= 2 && 0xC2 <= bs[0] <= 0xDF && IsTail(bs[1])
    ensures Utf8First(bs).Some? && Utf8First(bs).value.1 == 2
    ensures bs[..2] == Utf8EncodeChar(Utf8First(bs).value.0)
  {
    var n := (bs[0] as int - 0xC0) * 64 + (bs[1] as int - 0x80);
    assert 0x80 <= n < 0x800;
    assert n / 64 == bs[0] as int - 0xC0 && n % 64 == bs[1] as int - 0x80;
    assert Utf8First(bs).value.0 as int == n;
    assert bs[..2] == [bs[0], bs[1]];
  }

  lemma Utf8ThreeIsEncoding(bs: seq<byte>)
    requires |bs| >= 3 && 0xE0 <= bs[0] <= 0xEF && SecondOfThree(bs[0], bs[1]) && IsTail(bs[2])
    ensures Utf8First(bs).Some? && Utf8First(bs).value.1 == 3
    ensures bs[..3] == Utf8EncodeChar(Utf8First(bs).value.0)
  {
    var hi, mid, lo := bs[0] as int - 0xE0, bs[1] as int - 0x80, bs[2] as int - 0x80;
    var n := hi * 4096 + mid * 64 + lo;
    assert 0x800 <= n < 0x10000;
    assert n / 64 == hi * 64 + mid && n % 64 == lo;
    assert n / 4096 == hi && (n / 64) % 64 == mid;
    assert Utf8First(bs).value.0 as int == n;
    assert bs[..3] == [bs[0], bs[1], bs[2]];
  }

  lemma Utf8FourIsEncoding(bs: seq<byte>)
    requires |bs| >= 4 && 0xF0 <= bs[0] <= 0xF4 && SecondOfFour(bs[0], bs[1])
    requires IsTail(bs[2]) && IsTail(bs[3])
    ensures Utf8First(bs).Some? && Utf8First(bs).value.1 == 4
    ensures bs[..4] == Utf8EncodeChar(Utf8First(bs).value.0)
  {
    var top, hi, mid, lo := bs[0] as int - 0xF0, bs[1] as int - 0x80, bs[2] as int - 0x80, bs[3] as int - 0x80;
    var n := top * 262144 + hi * 4096 + mid * 64 + lo;
    assert 0x10000 <= n < 0x110000;
    assert n / 64 == top * 4096 + hi * 64 + mid && n % 64 == lo;
    assert n / 4096 == top * 64 + hi && (n / 64) % 64 == mid;
    assert n / 262144 == top && (n / 4096) % 64 == hi;
    assert Utf8First(bs).value.0 as int == n;
    assert bs[..4] == [bs[0], bs[1], bs[2], bs[3]];
  }

  /** Decoding undoes encoding. */
  lemma {:induction false} Utf8RoundTrip(s: string)
    ensures Utf8Decode(Utf8Encode(s)) == Some(s)
  {
    if s != [] {
      var enc := Utf8EncodeChar(s[0]);
      Utf8FirstOfEncoding(s[0], Utf8Encode(s[1..]));
      var bs := Utf8Encode(s);
      assert bs[|enc|..] == Utf8Encode(s[1..]);
      Utf8RoundTrip(s[1..]);
      assert [s[0]] + s[1..] == s;
    }
  }

  /** Everything the decoder accepts is the encoding of what it returns, so
      the well-formed byte strings are exactly the encodings of strings. */
  lemma {:induction false} Utf8DecodeIsEncoding(bs: seq<byte>)
    requires Utf8Decode(bs).Some?
    ensures Utf8Encode(Utf8Decode(bs).value) == bs
  {
    if bs != [] {
      var c, n, rest := Utf8DecodeCons(bs);
      Utf8FirstIsEncoding(bs);
      Utf8DecodeIsEncoding(bs[n..]);
      Utf8EncodeCons(c, rest);
      Rejoin(bs, n);
    }
  }

  /** A decoded text is its first character followed by the decoding of
      the bytes after that character. */
  lemma Utf8DecodeCons(bs: seq<byte>) returns (c: char, n: nat, rest: string)
    requires bs != [] && Utf8Decode(bs).Some?
    ensures Utf8First(bs) == Some((c, n)) && n <= |bs|
    ensures Utf8Decode(bs[n..]) == Some(rest) && Utf8Decode(bs) == Some([c] + rest)
  {
    c, n := Utf8First(bs).value.0, Utf8First(bs).value.1;
    rest := Utf8Decode(bs[n..]).value;
  }

  lemma Utf8EncodeCons(c: char, rest: string)
    ensures Utf8Encode([c] + rest) == Utf8EncodeChar(c) + Utf8Encode(rest)
  {
    var s := [c] + rest;
    assert s[0] == c && s[1..] == rest;
  }

  /** No UTF-8 encoding contains the bytes 0xFE or 0xFF, so none starts with
      a UTF-16 byte-order mark. */
  lemma {:induction false} Utf8EncodeBelowF8(s: string)
    ensures forall i :: 0 <= i < |Utf8Encode(s)| ==> Utf8Encode(s)[i] < 0xF8
  {
    if s != [] {
      Utf8EncodeBelowF8(s[1..]);
      var head, tail := Utf8EncodeChar(s[0]), Utf8Encode(s[1..]);
      assert Utf8Encode(s) == head + tail;
      forall i | 0 <= i < |head + tail| ensures (head + tail)[i] < 0xF8 {
        if i >= |head| { assert (head + tail)[i] == tail[i - |head|]; }
      }
    }
  }

  // ----------------------------------------------------------- UTF-16

  type Unit16 = x: int | 0 <= x < 0x10000

  predicate IsHighSurrogate(u: Unit16) { 0xD800 <= u <= 0xDBFF }

  predicate IsLowSurrogate(u: Unit16) { 0xDC00 <= u <= 0xDFFF }

  /** Section 2.2 of RFC 2781: a unit outside the surrogate range is its own
      character, a high surrogate followed by a low one is one character
      above U+FFFF, and any other surrogate is an error (Python's strict
      `utf-16` codec raises `UnicodeDecodeError` for it). */
  function DecodeUnits(us: seq<Unit16>): (r: Option<string>)
    ensures r.Some? ==> |r.value| <= |us|
    decreases |us|
  {
    if us == [] then Some([])
    else if !IsHighSurrogate(us[0]) && !IsLowSurrogate(us[0]) then
      match DecodeUnits(us[1..])
      case None => None
      case Some(rest) => Some([us[0] as char] + rest)
    else if IsHighSurrogate(us[0]) && |us| >= 2 && IsLowSurrogate(us[1]) then
      match DecodeUnits(us[2..])
      case None => None
      case Some(rest) =>
        Some([(0x10000 + (us[0] as int - 0xD800) * 0x400 + (us[1] as int - 0xDC00)) as char] + rest)
    else None
  }

  /** Section 2.1 of RFC 2781: one unit below U+10000, a surrogate pair above. */
  function EncodeUnitsChar(c: char): seq<Unit16> {
    var n := c as int;
    if n < 0x10000 then [n as Unit16]
    else [(0xD800 + (n - 0x10000) / 0x400) as Unit16, (0xDC00 + (n - 0x10000) % 0x400) as Unit16]
  }

  function EncodeUnits(s: string): seq<Unit16> {
    if s == [] then [] else EncodeUnitsChar(s[0]) + EncodeUnits(s[1..])
  }

  /** Decoding code units undoes encoding them. */
  lemma {:induction false} UnitsRoundTrip(s: string)
    ensures DecodeUnits(EncodeUnits(s)) == Some(s)
  {
    if s != [] {
      UnitsRoundTrip(s[1..]);
      DecodeUnitsOfChar(s[0], EncodeUnits(s[1..]));
      assert [s[0]] + s[1..] == s;
    }
  }

  /** The units of one character are read back as that character, and
      decoding goes on after them. */
  lemma DecodeUnitsOfChar(c: char, tail: seq<Unit16>)
    requires DecodeUnits(tail).Some?
    ensures DecodeUnits(EncodeUnitsChar(c) + tail) == Some([c] + DecodeUnits(tail).value)
  {
    var head := EncodeUnitsChar(c);
    var us := head + tail;
    assert us[|head|..] == tail;
    if c as int >= 0x10000 {
      SurrogatePair(c as int);
    }
  }

  /** The two halves of a surrogate pair put back together. */
  lemma SurrogatePair(n: int)
    requires 0x10000 <= n < 0x110000
    ensures 0xD800 <= 0xD800 + (n - 0x10000) / 0x400 < 0xDC00
    ensures 0xDC00 <= 0xDC00 + (n - 0x10000) % 0x400 < 0xE000
    ensures 0x10000 + ((n - 0x10000) / 0x400) * 0x400 + (n - 0x10000) % 0x400 == n
  {
  }

  /** What the unit decoder accepts is the encoding of what it returns. */
  lemma {:induction false} DecodeUnitsIsEncoding(us: seq<Unit16>)
    requires DecodeUnits(us).Some?
    ensures EncodeUnits(DecodeUnits(us).value) == us
  {
    if us != [] {
      var s := DecodeUnits(us).value;
      if !IsHighSurrogate(us[0]) && !IsLowSurrogate(us[0]) {
        DecodeUnitsIsEncoding(us[1..]);
        assert s[1..] == DecodeUnits(us[1..]).value;
        assert us == [us[0]] + us[1..];
      } else {
        DecodeUnitsIsEncoding(us[2..]);
        assert s[1..] == DecodeUnits(us[2..]).value;
        var n := s[0] as int;
        assert (n - 0x10000) / 0x400 == us[0] as int - 0xD800;
        assert (n - 0x10000) % 0x400 == us[1] as int - 0xDC00;
        assert us == [us[0], us[1]] + us[2..];
      }
    }
  }

  /** The two bytes of a code unit in the given byte order. */
  function UnitBytes(u: Unit16, bigEndian: bool): seq<byte> {
    if bigEndian then [(u / 256) as byte, (u % 256) as byte]
    else [(u % 256) as byte, (u / 256) as byte]
  }

  function UnitsToBytes(us: seq<Unit16>, bigEndian: bool): seq<byte> {
    if us == [] then [] else UnitBytes(us[0], bigEndian) + UnitsToBytes(us[1..], bigEndian)
  }

  /** Byte pairs read as code units; None for an odd count, which Python's
      codec rejects as truncated data. */
  function BytesToUnits(bs: seq<byte>, bigEndian: bool): (r: Option<seq<Unit16>>)
    ensures r.Some? <==> |bs| % 2 == 0
    ensures r.Some? ==> 2 * |r.value| == |bs|
    decreases |bs|
  {
    if bs == [] then Some([])
    else if |bs| == 1 then None
    else
      var u := if bigEndian then bs[0] as int * 256 + bs[1] as int
               else bs[1] as int * 256 + bs[0] as int;
      match BytesToUnits(bs[2..], bigEndian)
      case None => None
      case Some(rest) => Some([u as Unit16] + rest)
  }

  lemma {:induction false} BytesToUnitsRoundTrip(us: seq<Unit16>, bigEndian: bool)
    ensures BytesToUnits(UnitsToBytes(us, bigEndian), bigEndian) == Some(us)
  {
    if us != [] {
      var bs := UnitsToBytes(us, bigEndian);
      assert bs[2..] == UnitsToBytes(us[1..], bigEndian);
      BytesToUnitsRoundTrip(us[1..], bigEndian);
      assert [us[0]] + us[1..] == us;
    }
  }

  /** `raw` starts with a UTF-16 byte-order mark: `FF FE` (little-endian) or
      `FE FF` (big-endian), section 3.2 of RFC 2781. */
  predicate HasUtf16Bom(raw: seq<byte>) {
    |raw| >= 2 && ((raw[0] == 0xFF && raw[1] == 0xFE) || (raw[0] == 0xFE && raw[1] == 0xFF))
  }

  /** `raw.decode("utf-16")` for bytes led by a byte-order mark: the mark
      picks the byte order and is dropped; None where Python raises. */
  function Utf16Decode(raw: seq<byte>): (r: Option<string>)
    requires HasUtf16Bom(raw)
    ensures |raw| % 2 == 1 ==> r.None?
    ensures r.Some? ==> 2 * |r.value| <= |raw| - 2
  {
    match BytesToUnits(raw[2..], raw[0] == 0xFE)
    case None => None
    case Some(us) => DecodeUnits(us)
  }

  /** What a UTF-16 writer emits: the byte-order mark, then the units. */
  function Utf16Encode(s: string, bigEndian: bool): (r: seq<byte>)
    ensures HasUtf16Bom(r)
  {
    (if bigEndian then [0xFE, 0xFF] else [0xFF, 0xFE]) + UnitsToBytes(EncodeUnits(s), bigEndian)
  }

  lemma Utf16RoundTrip(s: string, bigEndian: bool)
    ensures Utf16Decode(Utf16Encode(s, bigEndian)) == Some(s)
  {
    var raw := Utf16Encode(s, bigEndian);
    assert raw[2..] == UnitsToBytes(EncodeUnits(s), bigEndian);
    BytesToUnitsRoundTrip(EncodeUnits(s), bigEndian);
    UnitsRoundTrip(s);
  }

  // ---------------------------------------------------------- Latin-1

  /** `raw.decode("latin-1")`: byte n becomes code point n. */
  function Latin1Decode(raw: seq<byte>): (r: string)
    ensures |r| == |raw|
  {
    seq(|raw|, i requires 0 <= i < |raw| => raw[i] as int as char)
  }

  /** Latin-1 keeps the length and maps each byte to the code point of the
      same value. */
  lemma Latin1Shape(raw: seq<byte>)
    ensures |Latin1Decode(raw)| == |raw|
    ensures forall i :: 0 <= i < |raw| ==> Latin1Decode(raw)[i] as int == raw[i] as int
  {
  }

  /** Text whose code points are all below 256, written one byte each. */
  function Latin1Encode(s: string): seq<byte>
    requires forall i :: 0 <= i < |s| ==> s[i] as int < 256
  {
    seq(|s|, i requires 0 <= i < |s| => s[i] as int as byte)
  }

  lemma Latin1RoundTrip(raw: seq<byte>)
    ensures Latin1Encode(Latin1Decode(raw)) == raw
  {
  }

  // ------------------------------------------------- SAJApi._get_text

  /** The decoding step of `SAJApi._get_text`: a byte-order mark selects
      UTF-16 (whose failure escapes as None), otherwise well-formed UTF-8 is
      taken as UTF-8, and anything else is read as Latin-1, which cannot
      fail (`errors="replace"` never fires). */
  function DecodeBytes(raw: seq<byte>): (r: Option<string>)
    ensures !HasUtf16Bom(raw) ==> r.Some?
  {
    if HasUtf16Bom(raw) then Utf16Decode(raw)
    else match Utf8Decode(raw)
      case Some(text) => Some(text)
      case None => Some(Latin1Decode(raw))
  }

  /** The order of the three decoders: BOM, then UTF-8, then Latin-1. */
  lemma DecodeBytesOrder(raw: seq<byte>)
    ensures HasUtf16Bom(raw) ==> DecodeBytes(raw) == Utf16Decode(raw)
    ensures !HasUtf16Bom(raw) && Utf8Decode(raw).Some? ==> DecodeBytes(raw) == Utf8Decode(raw)
    ensures !HasUtf16Bom(raw) && Utf8Decode(raw).None? ==>
      DecodeBytes(raw) == Some(Latin1Decode(raw)) && |DecodeBytes(raw).value| == |raw|
  {
  }

  /** Any text sent as UTF-8 is read back unchanged. */
  lemma DecodeUtf8Text(s: string)
    ensures DecodeBytes(Utf8Encode(s)) == Some(s)
  {
    Utf8EncodeBelowF8(s);
    Utf8RoundTrip(s);
  }

  /** Any text sent as UTF-16 with a byte-order mark is read back unchanged. */
  lemma DecodeUtf16Text(s: string, bigEndian: bool)
    ensures DecodeBytes(Utf16Encode(s, bigEndian)) == Some(s)
  {
    Utf16RoundTrip(s, bigEndian);
  }

  /** Bytes that are not UTF-8 and carry no byte-order mark are read one
      code point per byte. */
  lemma DecodeLatin1Fallback(raw: seq<byte>)
    requires !HasUtf16Bom(raw) && Utf8Decode(raw).None?
    ensures DecodeBytes(raw).Some?
    ensures |DecodeBytes(raw).value| == |raw|
    ensures forall i :: 0 <= i < |raw| ==> DecodeBytes(raw).value[i] as int == raw[i] as int
  {
  }
}
