/**
 Which filename components `validate_component` (`src/policy.rs`) accepts, said
 without its tests: by what a portable name may contain, and by the names Windows
 keeps for devices.
 */
module Components {
  import opened Base
  import opened Unicode
  import opened Paths
  import opened Policy

  function ToText(s: string): (t: Text)
    requires forall i | 0 <= i < |s| :: s[i] as int < 0x100
    ensures |t| == |s|
  {
    seq(|s|, i requires 0 <= i < |s| => s[i] as int as CodePoint)
  }

  /** A character no component may contain: controls, separators, and what Windows forbids. */
  predicate IsForbidden(c: CodePoint) {
    || c < 0x20 || 0x7F <= c <= 0x9F
    || c == 0x22 || c == 0x2A || c == 0x2F || c == 0x3A || c == 0x3C || c == 0x3E || c == 0x3F || c == 0x5C || c == 0x7C
  }

  /** The same letters, upper or lower case, and otherwise the same characters. */
  predicate IsInAnyCase(t: Text, name: string) {
    && |t| == |name|
    && forall i | 0 <= i < |t| ::
         t[i] as int == name[i] as int || ('A' <= name[i] <= 'Z' && t[i] as int == name[i] as int + 32)
  }

  const DEVICE_NAMES: set<string> := {
    "CON", "PRN", "AUX", "NUL", "CONIN$", "CONOUT$", "CLOCK$",
    "COM\U{B9}", "COM\U{B2}", "COM\U{B3}", "LPT\U{B9}", "LPT\U{B2}", "LPT\U{B3}"
  }

  /** A port number from 1 to 9 as the standard integer parser takes it: a plus sign and zeros may precede it. */
  predicate IsPortNumber(t: Text) {
    if t != [] && t[0] == 0x2B then IsOneDigit(t[1..]) else IsOneDigit(t)
  }

  predicate IsOneDigit(t: Text) {
    t != [] && 0x31 <= t[|t| - 1] <= 0x39 && forall i | 0 <= i < |t| - 1 :: t[i] == 0x30
  }

  predicate IsDevice(t: Text) {
    || (exists name | name in DEVICE_NAMES :: IsInAnyCase(t, name))
    || (|t| >= 3 && (IsInAnyCase(t[..3], "COM") || IsInAnyCase(t[..3], "LPT")) && IsPortNumber(t[3..]))
  }

  /** A device name, then blanks, then the end or an extension. */
  ghost predicate NamesDevice(t: Text) {
    exists n, m :: DeviceThenBlanks(t, n, m)
  }

  predicate DeviceThenBlanks(t: Text, n: int, m: int) {
    && 0 <= n <= m <= |t| && IsDevice(t[..n])
    && (forall i | n <= i < m :: IsWhiteSpace(t[i]))
    && (m == |t| || t[m] == 0x2E) && (forall i | 0 <= i < m :: t[i] != 0x2E)
  }

  /** What a component must be on every system. */
  ghost predicate IsPortable(t: Text) {
    && t != [] && t[|t| - 1] != 0x2E && t[|t| - 1] != 0x20
    && (forall i | 0 <= i < |t| :: !IsForbidden(t[i]))
    && !NamesDevice(t)
  }

  /* ----- Stems ----- */

  lemma {:induction false} StemIs(t: Text)
    ensures |Stem(t)| <= |t| && Stem(t) == t[..|Stem(t)|]
    ensures |Stem(t)| == |t| || t[|Stem(t)|] == 0x2E
    ensures forall i | 0 <= i < |Stem(t)| :: t[i] != 0x2E
  {
    if t != [] && t[0] != 0x2E {
      StemIs(t[1..]);
      assert t == [t[0]] + t[1..];
    }
  }

  lemma {:induction false} TrimmedIs(t: Text)
    ensures |TrimEnd(t)| <= |t| && TrimEnd(t) == t[..|TrimEnd(t)|]
    ensures forall i | |TrimEnd(t)| <= i < |t| :: IsWhiteSpace(t[i])
    ensures TrimEnd(t) != [] ==> !IsWhiteSpace(t[|TrimEnd(t)| - 1])
  {
    if t != [] && IsWhiteSpace(t[|t| - 1]) {
      TrimmedIs(t[..|t| - 1]);
    } else {
      assert t[..|t|] == t;
    }
  }

  /* ----- Device names ----- */

  lemma UpperIs(t: Text, name: string)
    requires forall i | 0 <= i < |name| :: name[i] as int < 0x100 && !('a' <= name[i] <= 'z')
    ensures AsciiUpper(t) == ToText(name) <==> IsInAnyCase(t, name)
  {
    var upper, wanted := AsciiUpper(t), ToText(name);
    if |t| == |name| {
      forall i | 0 <= i < |t|
        ensures upper[i] == wanted[i] <==>
                t[i] as int == name[i] as int || ('A' <= name[i] <= 'Z' && t[i] as int == name[i] as int + 32)
      {
      }
      if upper == wanted {
        assert forall i | 0 <= i < |t| :: upper[i] == wanted[i];
      }
    }
  }

  lemma AsciiIs(name: string)
    requires forall i | 0 <= i < |name| :: name[i] < 128 as char
    ensures Ascii(name) == ToText(name)
  {
  }

  lemma DevicesAre(upper: Text)
    ensures upper in DEVICES <==>
            || upper == ToText("CON") || upper == ToText("PRN") || upper == ToText("AUX") || upper == ToText("NUL")
            || upper == ToText("CONIN$") || upper == ToText("CONOUT$") || upper == ToText("CLOCK$")
            || upper == ToText("COM\U{B9}") || upper == ToText("COM\U{B2}") || upper == ToText("COM\U{B3}")
            || upper == ToText("LPT\U{B9}") || upper == ToText("LPT\U{B2}") || upper == ToText("LPT\U{B3}")
  {
    AsciiIs("CON");
    AsciiIs("PRN");
    AsciiIs("AUX");
    AsciiIs("NUL");
    AsciiIs("CONIN$");
    AsciiIs("CONOUT$");
    AsciiIs("CLOCK$");
    AsciiIs("COM");
    AsciiIs("LPT");
    assert ToText("COM") + [0xB9] == ToText("COM\U{B9}") && ToText("LPT") + [0xB9] == ToText("LPT\U{B9}");
    assert ToText("COM") + [0xB2] == ToText("COM\U{B2}") && ToText("LPT") + [0xB2] == ToText("LPT\U{B2}");
    assert ToText("COM") + [0xB3] == ToText("COM\U{B3}") && ToText("LPT") + [0xB3] == ToText("LPT\U{B3}");
  }

  lemma NamedDevice(t: Text)
    ensures AsciiUpper(t) in DEVICES <==> exists name | name in DEVICE_NAMES :: IsInAnyCase(t, name)
  {
    DevicesAre(AsciiUpper(t));
    hide DEVICES, AsciiUpper;
    forall name | name in DEVICE_NAMES ensures AsciiUpper(t) == ToText(name) <==> IsInAnyCase(t, name) {
      UpperIs(t, name);
    }
    hide IsInAnyCase, ToText;
  }

  /* ----- Port numbers ----- */

  lemma {:induction false} DecimalZero(t: Text)
    ensures DecimalValue(t) == Some(0) <==> forall i | 0 <= i < |t| :: t[i] == 0x30
  {
    if t != [] {
      DecimalZero(t[..|t| - 1]);
    }
  }

  lemma OneDigit(digits: Text)
    requires digits != []
    ensures
      var v := DecimalValue(digits);
      v.Some? && 1 <= v.value <= 9 <==> IsOneDigit(digits)
  {
    var front := digits[..|digits| - 1];
    DecimalZero(front);
    assert forall i | 0 <= i < |front| :: front[i] == digits[i];
  }

  lemma ParsedPort(t: Text)
    ensures (ParseU8(t).Some? && 1 <= ParseU8(t).value <= 9) <==> IsPortNumber(t)
  {
    var digits := if t != [] && t[0] == 43 then t[1..] else t;
    if digits != [] {
      OneDigit(digits);
    }
  }

  lemma PortInAnyCase(t: Text)
    ensures IsPortNumber(AsciiUpper(t)) <==> IsPortNumber(t)
  {
    if t != [] && t[0] == 0x2B {
      assert AsciiUpper(t)[1..] == AsciiUpper(t[1..]);
      DigitInAnyCase(t[1..]);
    } else {
      DigitInAnyCase(t);
    }
  }

  lemma DigitInAnyCase(t: Text)
    ensures IsOneDigit(AsciiUpper(t)) <==> IsOneDigit(t)
  {
    var upper := AsciiUpper(t);
    assert forall i | 0 <= i < |t| :: upper[i] == 0x30 <==> t[i] == 0x30;
  }

  lemma NumberedDevice(t: Text, prefix: string)
    requires prefix == "COM" || prefix == "LPT"
    ensures IsNumberedReserved(AsciiUpper(t), Ascii(prefix))
            <==> |t| >= 3 && IsInAnyCase(t[..3], prefix) && IsPortNumber(t[3..])
  {
    AsciiIs(prefix);
    if |t| >= 3 {
      assert AsciiUpper(t)[..3] == AsciiUpper(t[..3]) && AsciiUpper(t)[3..] == AsciiUpper(t[3..]);
      UpperIs(t[..3], prefix);
      ParsedPort(AsciiUpper(t[3..]));
      PortInAnyCase(t[3..]);
    }
  }

  lemma DeviceExactly(t: Text)
    ensures
      var upper := AsciiUpper(t);
      (upper in DEVICES || IsNumberedReserved(upper, Ascii("COM")) || IsNumberedReserved(upper, Ascii("LPT")))
      <==> IsDevice(t)
  {
    hide DEVICES, DEVICE_NAMES, AsciiUpper, IsNumberedReserved, IsPortNumber, IsInAnyCase, Ascii;
    NamedDevice(t);
    NumberedDevice(t, "COM");
    NumberedDevice(t, "LPT");
  }

  lemma DeviceEndsVisibly(t: Text)
    requires IsDevice(t)
    ensures t != [] && !IsWhiteSpace(t[|t| - 1])
  {
    if name :| name in DEVICE_NAMES && IsInAnyCase(t, name) {
      assert |name| > 0 && t[|t| - 1] as int >= name[|name| - 1] as int;
    } else {
      var number := t[3..];
      assert t[|t| - 1] == number[|number| - 1];
    }
  }

  lemma ReservedExactly(t: Text)
    ensures IsReserved(t) <==> NamesDevice(t)
  {
    var stem := Stem(t);
    var trimmed := TrimEnd(stem);
    StemIs(t);
    TrimmedIs(stem);
    DeviceExactly(trimmed);
    hide IsDevice, DEVICES, IsWhiteSpace;
    assert trimmed == t[..|trimmed|];
    if IsReserved(t) {
      assert DeviceThenBlanks(t, |trimmed|, |stem|);
    }
    if n, m :| DeviceThenBlanks(t, n, m) {
      assert |stem| == m;
      DeviceEndsVisibly(t[..n]);
      assert t[..n][n - 1] == t[n - 1];
      assert |trimmed| == n;
    }
  }

  /* ----- The whole test ----- */

  lemma ForbiddenExactly(t: Text)
    ensures ('.' as int as CodePoint == 0x2E) && Ascii(" .") == [0x20, 0x2E]
    ensures (':' as int as CodePoint in t || exists c :: c in t && IsInvalidOnWindows(c))
            <==> exists i :: 0 <= i < |t| && IsForbidden(t[i])
  {
    var listed := Ascii("<>\"|?*\\/");
    assert listed == [0x3C, 0x3E, 0x22, 0x7C, 0x3F, 0x2A, 0x5C, 0x2F];
    forall c ensures IsForbidden(c) <==> c == 0x3A || IsInvalidOnWindows(c) {
    }
    hide IsForbidden, IsInvalidOnWindows;
    if i :| 0 <= i < |t| && IsForbidden(t[i]) {
      assert t[i] in t;
    }
  }

  lemma DotsEndInDots()
    ensures Ascii(".") == [0x2E] && Ascii("..") == [0x2E, 0x2E]
  {
  }

  /** Exactly the encodings of portable names are accepted. */
  lemma AcceptedExactly(name: Name)
    ensures ValidateComponent(name).Ok? <==> DecodeUtf8(name).Some? && IsPortable(DecodeUtf8(name).value)
    ensures ValidateComponent(name).Ok? <==> exists t :: AllScalars(t) && name == EncodeUtf8(t) && IsPortable(t)
  {
    if DecodeUtf8(name).Some? {
      var t := DecodeUtf8(name).value;
      EncodeOfDecode(name);
      ForbiddenExactly(t);
      DotsEndInDots();
      ReservedExactly(t);
      hide IsReserved, NamesDevice, IsForbidden, IsInvalidOnWindows, Ascii;
    }
    if t :| AllScalars(t) && name == EncodeUtf8(t) && IsPortable(t) {
      DecodeOfEncode(t);
    }
  }

  function Blanks(n: nat): (t: Text)
    ensures |t| == n && forall i | 0 <= i < n :: t[i] == 0x20
  {
    seq(n, _ => 0x20)
  }

  /** A device name in any case is refused, with or without blanks and an extension after it. */
  lemma DevicesAreRefused(device: Text, blanks: nat, extension: Text)
    requires IsDevice(device) && forall i | 0 <= i < |device| :: device[i] != 0x2E
    requires extension == [] || extension[0] == 0x2E
    requires AllScalars(device + Blanks(blanks) + extension)
    ensures ValidateComponent(EncodeUtf8(device + Blanks(blanks) + extension)).Err?
  {
    var t := device + Blanks(blanks) + extension;
    AcceptedExactly(EncodeUtf8(t));
    DecodeOfEncode(t);
    hide *;
    DeviceIsNamed(device, blanks, extension);
    PortableNamesNoDevice(t);
  }

  lemma PortableNamesNoDevice(t: Text)
    requires NamesDevice(t)
    ensures !IsPortable(t)
  {
  }

  lemma DeviceIsNamed(device: Text, blanks: nat, extension: Text)
    requires IsDevice(device) && forall i | 0 <= i < |device| :: device[i] != 0x2E
    requires extension == [] || extension[0] == 0x2E
    ensures NamesDevice(device + Blanks(blanks) + extension)
  {
    var t := device + Blanks(blanks) + extension;
    hide IsDevice, IsWhiteSpace, Blanks;
    BlankIsWhiteSpace();
    assert t[..|device|] == device;
    assert forall i | 0 <= i < |device| :: t[i] == device[i];
    assert forall i | |device| <= i < |device| + blanks :: t[i] == Blanks(blanks)[i - |device|];
    assert DeviceThenBlanks(t, |device|, |device| + blanks);
  }

  lemma BlankIsWhiteSpace()
    ensures IsWhiteSpace(0x20)
  {
  }

  /** The parser behind the numbered names takes more than one digit: COM01 and lpt+7 are refused like COM1. */
  lemma PortsInDisguise()
    ensures IsDevice(ToText("COM1")) && IsDevice(ToText("COM01")) && IsDevice(ToText("lpt+7"))
  {
    hide DEVICE_NAMES, IsPortNumber;
    assert ToText("COM1")[..3] == ToText("COM") && ToText("COM1")[3..] == [0x31];
    assert ToText("COM01")[..3] == ToText("COM") && ToText("COM01")[3..] == [0x30, 0x31];
    assert ToText("lpt+7")[..3] == ToText("lpt") && ToText("lpt+7")[3..] == [0x2B, 0x37];
    Ports();
  }

  lemma Ports()
    ensures IsPortNumber([0x31]) && IsPortNumber([0x30, 0x31]) && IsPortNumber([0x2B, 0x37])
    ensures !IsPortNumber([0x31, 0x30]) && !IsPortNumber([0x30]) && !IsPortNumber([])
  {
    assert [0x2B as CodePoint, 0x37][1..] == [0x37];
    assert [0x31 as CodePoint, 0x30][0] != 0x30;
  }

  lemma NameLengths()
    ensures forall name | name in DEVICE_NAMES ::
              && (|name| == 3 || |name| == 4 || |name| == 6 || |name| == 7)
              && (|name| == 4 ==> name[3] as int >= 0xB0)
  {
  }

  /** What looks like a device name but is none: two digits, no port number, a longer word. */
  lemma NotDevices()
    ensures !IsDevice(ToText("COM10")) && !IsDevice(ToText("COM0")) && !IsDevice(ToText("NULL"))
  {
    assert ToText("COM10")[3..] == [0x31, 0x30] && ToText("COM0")[3..] == [0x30];
    assert ToText("NULL")[..3][0] == 0x4E && ToText("NULL")[3] == 0x4C && ToText("COM0")[3] == 0x30;
    NameLengths();
    Ports();
    hide DEVICE_NAMES, IsPortNumber, ToText;
  }
}
