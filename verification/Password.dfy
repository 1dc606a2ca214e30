/**
 The one-line password channel: UTF-16 in (`src/password.rs`), one bounded UTF-8
 line through the pipe, the reader at the other end
 (`src/platform/libarchive_windows.rs`). Section 2.2 of RFC 2781 and section 3 of
 RFC 3629 define the two encodings.
 */
module Password {
  import opened Base
  import opened Unicode

  const MAX_UTF8_BYTES: nat := 1022
  const MAX_UTF16_UNITS: nat := 1022
  const RETURN: Byte := 13

  datatype ArchivePassword = ArchivePassword(utf16: seq<Unit16>)

  /** `char::len_utf8`. */
  function Utf8Width(c: CodePoint): nat {
    if c < 0x80 then 1 else if c < 0x800 then 2 else if c < 0x1_0000 then 3 else 4
  }

  function Utf8Length(s: Text): nat {
    if s == [] then 0 else Utf8Width(s[0]) + Utf8Length(s[1..])
  }

  predicate IsForbidden(unit: Unit16) {
    unit == 0 || unit == 10 || unit == 13
  }

  function FromUtf16(units: seq<Unit16>): Outcome<ArchivePassword> {
    if units == [] || |units| > MAX_UTF16_UNITS then Err(Usage)
    else if exists u | u in units :: IsForbidden(u) then Err(Usage)
    else
      match DecodeUtf16(units)
      case None => Err(Usage)
      case Some(text) => if Utf8Length(text) > MAX_UTF8_BYTES then Err(Usage) else Ok(ArchivePassword(units))
  }

  function IntoTransport(password: ArchivePassword): Outcome<Bytes> {
    match DecodeUtf16(password.utf16)
    case None => Err(Usage)
    case Some(text) => if |EncodeUtf8(text)| > MAX_UTF8_BYTES then Err(Usage) else Ok(EncodeUtf8(text))
  }

  class PasswordTransport {
    var bytes: Bytes

    constructor (bytes: Bytes)
      ensures this.bytes == bytes
    {
      this.bytes := bytes;
    }

    /** Ends the value in place; a second call would end it twice. */
    method Line() returns (line: Bytes)
      modifies this
      ensures line == bytes == old(bytes) + [RETURN]
    {
      bytes := bytes + [RETURN];
      line := bytes;
    }
  }

  /* ----- The reader ----- */

  /** `input` is exactly one non-empty value of bounded length and its terminator. */
  ghost predicate IsLine(input: Bytes, value: Bytes) {
    && input == value + [13]
    && 0 < |value| <= 1022
    && 0 !in value && 10 !in value && 13 !in value
    && DecodeUtf8(value).Some?
  }

  method ReadOneUsePassword(input: Bytes) returns (r: Outcome<Bytes>)
    ensures r.Ok? ==> IsLine(input, r.value)
    ensures r.Err? ==> forall value :: !IsLine(input, value)
  {
    var bytes := input[..Min(MAX_UTF8_BYTES + 2, |input|)];
    if |bytes| > MAX_UTF8_BYTES + 1 {
      return Err(Policy);
    }
    if bytes == [] {
      return Err(Policy);
    }
    var last := bytes[|bytes| - 1];
    bytes := bytes[..|bytes| - 1];
    assert input == bytes + [last];
    assert forall value :: input == value + [RETURN] ==> value == (value + [RETURN])[..|value|] == bytes;
    if last != RETURN || bytes == [] {
      assert forall value: Bytes :: input == value + [RETURN] ==> input[|input| - 1] == RETURN;
      return Err(Policy);
    }
    if 0 in bytes || RETURN in bytes || 10 in bytes || DecodeUtf8(bytes).None? {
      return Err(Policy);
    }
    r := Ok(bytes);
  }

  /* ----- Lengths ----- */

  lemma {:induction false} Utf8LengthIs(s: Text)
    ensures Utf8Length(s) == |EncodeUtf8(s)|
  {
    if s != [] {
      Utf8LengthIs(s[1..]);
    }
  }

  /** No text takes more UTF-16 units than UTF-8 bytes. */
  lemma {:induction false} UnitsAtMostBytes(s: Text)
    ensures |EncodeUtf16(s)| <= |EncodeUtf8(s)|
  {
    if s != [] {
      UnitsAtMostBytes(s[1..]);
    }
  }

  /* ----- Contents ----- */

  lemma {:induction false} AsciiInUtf16(s: Text, a: CodePoint)
    requires a < 0x80 && AllScalars(s)
    ensures a as Unit16 in EncodeUtf16(s) <==> a in s
  {
    if s != [] {
      assert s == [s[0]] + s[1..];
      AsciiInUtf16(s[1..], a);
      assert forall u | u in EncodeScalar16(s[0]) :: u == a as Unit16 <==> s[0] == a;
    }
  }

  /** What a password may be: a text of bounded encoded length without NUL and line breaks. */
  ghost predicate IsPasswordText(s: Text) {
    s != [] && AllScalars(s) && 0 !in s && 10 !in s && 13 !in s && |EncodeUtf8(s)| <= 1022
  }

  lemma TextHasNoBreaks(units: seq<Unit16>, s: Text)
    requires AllScalars(s) && units == EncodeUtf16(s)
    ensures (exists u | u in units :: IsForbidden(u)) <==> 0 in s || 10 in s || 13 in s
  {
    AsciiInUtf16(s, 0);
    AsciiInUtf16(s, 10);
    AsciiInUtf16(s, 13);
  }

  /**
   Exactly the encodings of such texts are accepted. The limit on UTF-16 units
   never decides: the limit on bytes is at least as strict.
   */
  lemma AcceptedExactly(units: seq<Unit16>)
    ensures FromUtf16(units).Ok? <==> exists s :: IsPasswordText(s) && units == EncodeUtf16(s)
    ensures FromUtf16(units).Ok? ==> DecodeUtf16(units).Some? && IsPasswordText(DecodeUtf16(units).value)
    ensures FromUtf16(units).Ok? ==> FromUtf16(units).value == ArchivePassword(units)
  {
    if FromUtf16(units).Ok? {
      var s := DecodeUtf16(units).value;
      Encode16OfDecode(units);
      Utf8LengthIs(s);
      TextHasNoBreaks(units, s);
      assert IsPasswordText(s);
    }
    if s :| IsPasswordText(s) && units == EncodeUtf16(s) {
      Decode16OfEncode(s);
      Utf8LengthIs(s);
      UnitsAtMostBytes(s);
      TextHasNoBreaks(units, s);
    }
  }

  /** An accepted password becomes a line of at most 1,023 bytes whose value decodes back to it. */
  lemma TransportIsLine(units: seq<Unit16>)
    requires FromUtf16(units).Ok?
    ensures
      var transport := IntoTransport(FromUtf16(units).value);
      && transport.Ok? && |transport.value + [RETURN]| <= 1023
      && IsLine(transport.value + [RETURN], transport.value)
      && EncodeUtf16(DecodeUtf8(transport.value).value) == units
  {
    AcceptedExactly(units);
    var s := DecodeUtf16(units).value;
    Encode16OfDecode(units);
    DecodeOfEncode(s);
    AsciiInUtf8(s, 0);
    AsciiInUtf8(s, 10);
    AsciiInUtf8(s, 13);
    Utf8LengthIs(s);
  }

  lemma LineIsUnique(input: Bytes, a: Bytes, b: Bytes)
    requires IsLine(input, a) && IsLine(input, b)
    ensures a == b
  {
    assert a == input[..|input| - 1] == b;
  }

  /** Asking for the line twice yields something the reader refuses. */
  lemma SecondLineIsRefused(bytes: Bytes, value: Bytes)
    ensures !IsLine(bytes + [RETURN] + [RETURN], value)
  {
    var twice := bytes + [RETURN] + [RETURN];
    if twice == value + [RETURN] {
      assert value == twice[..|twice| - 1] == bytes + [RETURN];
      assert value[|bytes|] == RETURN;
    }
  }

  /** The whole channel: whatever is accepted arrives unchanged. */
  method SendPassword(units: seq<Unit16>) returns (r: Outcome<Bytes>)
    ensures r.Ok? <==> FromUtf16(units).Ok?
    ensures r.Ok? ==> r.value == EncodeUtf8(DecodeUtf16(units).value)
    ensures r.Ok? ==> DecodeUtf8(r.value).Some? && EncodeUtf16(DecodeUtf8(r.value).value) == units
  {
    hide IsLine, FromUtf16;
    var password := FromUtf16(units);
    if password.Err? {
      return Err(Usage);
    }
    TransportIsLine(units);
    AcceptedExactly(units);
    var bytes := IntoTransport(password.value);
    var transport := new PasswordTransport(bytes.value);
    var line := transport.Line();
    r := ReadOneUsePassword(line);
    if r.Ok? {
      LineIsUnique(line, r.value, bytes.value);
    }
  }
}
