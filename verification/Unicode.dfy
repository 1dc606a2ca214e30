/**
 UTF-8 (section 3 of RFC 3629) and UTF-16 (section 2 of RFC 2781), as strict
 decoders and their encoders. A decoder accepts exactly what its encoder
 produces, so `from_utf8(b).is_ok()` reads as `DecodeUtf8(b).Some?`.
 */
module Unicode {
  import opened Base

  newtype CodePoint = x: int | 0 <= x < 0x11_0000
  newtype Unit16 = x: int | 0 <= x < 0x1_0000

  type Text = seq<CodePoint>

  predicate IsScalar(c: CodePoint) {
    c < 0xD800 || 0xE000 <= c
  }

  predicate AllScalars(s: Text) {
    forall i | 0 <= i < |s| :: IsScalar(s[i])
  }

  /* ----- UTF-8 ----- */

  /** The continuation byte that carries six bits. */
  function Tail(bits: int): (b: Byte)
    requires 0 <= bits < 64
    ensures IsContinuation(b) && b as int - 0x80 == bits
  {
    (0x80 + bits) as Byte
  }

  /** The leading byte of a form whose marker is `marker`. */
  function Lead(marker: int, bits: int): (b: Byte)
    requires 0xC0 <= marker <= 0xF0 && 0 <= bits < 32 && marker + bits < 256
    ensures b >= 0x80 && b as int - marker == bits
  {
    (marker + bits) as Byte
  }

  function EncodeScalar(c: CodePoint): (b: Bytes)
    ensures 1 <= |b| <= 4
    ensures c < 0x80 ==> b == [c as Byte]
    ensures c >= 0x80 ==> forall i | 0 <= i < |b| :: b[i] >= 0x80
  {
    var n := c as int;
    if n < 0x80 then [c as Byte]
    else if n < 0x800 then [Lead(0xC0, n / 64), Tail(n % 64)]
    else if n < 0x1_0000 then [Lead(0xE0, n / 64 / 64), Tail(n / 64 % 64), Tail(n % 64)]
    else [Lead(0xF0, n / 64 / 64 / 64), Tail(n / 64 / 64 % 64), Tail(n / 64 % 64), Tail(n % 64)]
  }

  function EncodeUtf8(s: Text): Bytes {
    if s == [] then [] else EncodeScalar(s[0]) + EncodeUtf8(s[1..])
  }

  predicate IsContinuation(b: Byte) {
    0x80 <= b < 0xC0
  }

  datatype Decoded = Invalid | Scalar(value: CodePoint, width: nat)

  /** The first scalar of `b`; overlong forms and surrogates are invalid. */
  function DecodeFirst(b: Bytes): (d: Decoded)
    requires b != []
    ensures d.Scalar? ==> 1 <= d.width <= |b|
  {
    if b[0] < 0x80 then
      Scalar(b[0] as CodePoint, 1)
    else if 0xC2 <= b[0] < 0xE0 && |b| >= 2 && IsContinuation(b[1]) then
      Scalar(Assemble(b[0] as int - 0xC0, b[1]) as CodePoint, 2)
    else if 0xE0 <= b[0] < 0xF0 && |b| >= 3 && IsContinuation(b[1]) && IsContinuation(b[2]) then
      var v := Assemble(Assemble(b[0] as int - 0xE0, b[1]), b[2]);
      if v < 0x800 || 0xD800 <= v < 0xE000 then Invalid else Scalar(v as CodePoint, 3)
    else if 0xF0 <= b[0] < 0xF5 && |b| >= 4 && IsContinuation(b[1]) && IsContinuation(b[2]) && IsContinuation(b[3]) then
      var v := Assemble(Assemble(Assemble(b[0] as int - 0xF0, b[1]), b[2]), b[3]);
      if v < 0x1_0000 || 0x10_FFFF < v then Invalid else Scalar(v as CodePoint, 4)
    else Invalid
  }

  /** Appends the six bits of a continuation byte. */
  function Assemble(high: int, b: Byte): (v: int)
    requires IsContinuation(b)
    ensures v / 64 == high && v % 64 == b as int - 0x80
  {
    high * 64 + (b as int - 0x80)
  }

  function DecodeUtf8(b: Bytes): Option<Text> {
    if b == [] then Some([])
    else
      var first := DecodeFirst(b);
      if first.Invalid? then None
      else
        match DecodeUtf8(b[first.width..])
        case None => None
        case Some(rest) => Some([first.value] + rest)
  }

  /** How long the scalar at the start is, by the byte ranges of section 4 of RFC 3629; zero if there is none. */
  function WidthByRanges(b: Bytes): nat
    requires b != []
  {
    if b[0] <= 0x7F then 1
    else if |b| >= 2 && 0xC2 <= b[0] <= 0xDF && 0x80 <= b[1] <= 0xBF then 2
    else if |b| >= 3 && SecondOfThree(b[0], b[1]) && 0x80 <= b[2] <= 0xBF then 3
    else if |b| >= 4 && SecondOfFour(b[0], b[1]) && 0x80 <= b[2] <= 0xBF && 0x80 <= b[3] <= 0xBF then 4
    else 0
  }

  predicate SecondOfThree(first: Byte, second: Byte) {
    || (first == 0xE0 && 0xA0 <= second <= 0xBF)
    || (0xE1 <= first <= 0xEC && 0x80 <= second <= 0xBF)
    || (first == 0xED && 0x80 <= second <= 0x9F)
    || (0xEE <= first <= 0xEF && 0x80 <= second <= 0xBF)
  }

  predicate SecondOfFour(first: Byte, second: Byte) {
    || (first == 0xF0 && 0x90 <= second <= 0xBF)
    || (0xF1 <= first <= 0xF3 && 0x80 <= second <= 0xBF)
    || (first == 0xF4 && 0x80 <= second <= 0x8F)
  }

  /** The decoder takes exactly the byte sequences of that grammar. */
  lemma DecodesByRanges(b: Bytes)
    requires b != []
    ensures DecodeFirst(b) == Invalid <==> WidthByRanges(b) == 0
    ensures DecodeFirst(b).Scalar? ==> DecodeFirst(b).width == WidthByRanges(b)
  {
  }

  /** One character of each length, in both encodings. */
  lemma KnownForms()
    ensures EncodeScalar(0x41) == [0x41] && EncodeScalar(0xE9) == [0xC3, 0xA9]
    ensures EncodeScalar(0x20AC) == [0xE2, 0x82, 0xAC] && EncodeScalar(0x1F600) == [0xF0, 0x9F, 0x98, 0x80]
    ensures EncodeScalar16(0x20AC) == [0x20AC] && EncodeScalar16(0x1F600) == [0xD83D, 0xDE00]
  {
  }

  lemma FirstOfEncoded(c: CodePoint, rest: Bytes)
    requires IsScalar(c)
    ensures DecodeFirst(EncodeScalar(c) + rest) == Scalar(c, |EncodeScalar(c)|)
  {
    var n := c as int;
    var e := EncodeScalar(c);
    var all := e + rest;
    assert |e| >= 1 ==> all[0] == e[0];
    assert |e| >= 2 ==> all[1] == e[1];
    assert |e| >= 3 ==> all[2] == e[2];
    assert |e| >= 4 ==> all[3] == e[3];
    if n >= 0x80 {
      assert Assemble(n / 64, Tail(n % 64)) == n;
    }
    if n >= 0x800 {
      assert Assemble(n / 64 / 64, Tail(n / 64 % 64)) == n / 64;
    }
    if n >= 0x1_0000 {
      assert Assemble(n / 64 / 64 / 64, Tail(n / 64 / 64 % 64)) == n / 64 / 64;
    }
  }

  lemma FirstIsCanonical(b: Bytes)
    requires b != [] && DecodeFirst(b).Scalar?
    ensures IsScalar(DecodeFirst(b).value)
    ensures EncodeScalar(DecodeFirst(b).value) == b[..DecodeFirst(b).width]
  {
    var d := DecodeFirst(b);
    var e := EncodeScalar(d.value);
    if d.width == 1 {
      assert e == b[..1];
    } else if d.width == 2 {
      assert e == b[..2];
    } else if d.width == 3 {
      assert e == b[..3];
    } else {
      assert e == b[..4];
    }
  }

  lemma {:induction false} DecodeOfEncode(s: Text)
    requires AllScalars(s)
    ensures DecodeUtf8(EncodeUtf8(s)) == Some(s)
  {
    if s != [] {
      var head, tail := EncodeScalar(s[0]), EncodeUtf8(s[1..]);
      FirstOfEncoded(s[0], tail);
      assert (head + tail)[|head|..] == tail;
      DecodeOfEncode(s[1..]);
      assert s == [s[0]] + s[1..];
    }
  }

  lemma {:induction false} EncodeOfDecode(b: Bytes)
    requires DecodeUtf8(b).Some?
    ensures AllScalars(DecodeUtf8(b).value)
    ensures EncodeUtf8(DecodeUtf8(b).value) == b
    decreases |b|
  {
    hide DecodeFirst, EncodeScalar;
    if b != [] {
      var w := DecodeFirst(b).width;
      FirstIsCanonical(b);
      EncodeOfDecode(b[w..]);
      assert b == b[..w] + b[w..];
      assert DecodeUtf8(b).value[1..] == DecodeUtf8(b[w..]).value;
    }
  }

  /** ASCII characters occupy exactly their own byte, wherever they occur. */
  lemma {:induction false} AsciiInUtf8(s: Text, a: Byte)
    requires a < 0x80
    ensures a in EncodeUtf8(s) <==> a as CodePoint in s
  {
    if s != [] {
      AsciiInUtf8(s[1..], a);
      assert s == [s[0]] + s[1..];
      assert a in EncodeScalar(s[0]) <==> a as CodePoint == s[0];
    }
  }

  /* ----- UTF-16 ----- */

  predicate IsHigh(u: Unit16) {
    0xD800 <= u < 0xDC00
  }

  predicate IsLow(u: Unit16) {
    0xDC00 <= u < 0xE000
  }

  function EncodeScalar16(c: CodePoint): (u: seq<Unit16>)
    ensures 1 <= |u| <= 2
  {
    if c < 0x1_0000 then [c as Unit16]
    else
      [(0xD800 + (c - 0x1_0000) / 0x400) as Unit16, (0xDC00 + (c - 0x1_0000) % 0x400) as Unit16]
  }

  function EncodeUtf16(s: Text): seq<Unit16> {
    if s == [] then [] else EncodeScalar16(s[0]) + EncodeUtf16(s[1..])
  }

  /** `char::decode_utf16` with any unpaired surrogate treated as failure. */
  function DecodeUtf16(u: seq<Unit16>): Option<Text> {
    if u == [] then Some([])
    else if !IsHigh(u[0]) && !IsLow(u[0]) then
      match DecodeUtf16(u[1..])
      case None => None
      case Some(rest) => Some([u[0] as CodePoint] + rest)
    else if IsHigh(u[0]) && |u| >= 2 && IsLow(u[1]) then
      match DecodeUtf16(u[2..])
      case None => None
      case Some(rest) =>
        Some([(0x1_0000 + (u[0] as int - 0xD800) * 0x400 + (u[1] as int - 0xDC00)) as CodePoint] + rest)
    else None
  }

  lemma {:induction false} Decode16OfEncode(s: Text)
    requires AllScalars(s)
    ensures DecodeUtf16(EncodeUtf16(s)) == Some(s)
  {
    if s != [] {
      var head, tail := EncodeScalar16(s[0]), EncodeUtf16(s[1..]);
      assert (head + tail)[|head|..] == tail;
      Decode16OfEncode(s[1..]);
      assert s == [s[0]] + s[1..];
    }
  }

  lemma {:induction false} Encode16OfDecode(u: seq<Unit16>)
    requires DecodeUtf16(u).Some?
    ensures AllScalars(DecodeUtf16(u).value)
    ensures EncodeUtf16(DecodeUtf16(u).value) == u
    decreases |u|
  {
    if u != [] {
      var w := if IsHigh(u[0]) then 2 else 1;
      Encode16OfDecode(u[w..]);
      var s := DecodeUtf16(u).value;
      assert s[1..] == DecodeUtf16(u[w..]).value;
      assert u == u[..w] + u[w..];
      assert EncodeScalar16(s[0]) == u[..w];
    }
  }
}
