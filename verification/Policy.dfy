/**
 Resource limits, Windows-safe names, and the two places where untrusted names
 enter: relative paths found on disk and member names listed by the backend.
 `fold` stands for `str::to_lowercase` and is left arbitrary throughout.
 */
module Policy {
  import opened Base
  import opened Paths
  import opened Unicode

  type U64 = x: nat | x <= U64_MAX

  datatype Limits = Limits(
    maxArchiveBytes: U64,
    maxFiles: U64,
    maxDirectories: U64,
    maxTotalBytes: U64,
    maxSingleFileBytes: U64,
    maxDepth: U64,
    maxPathBytes: U64)

  datatype AuditSummary = AuditSummary(files: nat, directories: nat, totalBytes: nat)

  function CheckedAdd(a: nat, b: nat): (r: Outcome<nat>)
    ensures r.Ok? <==> a + b <= U64_MAX
    ensures r.Ok? ==> r.value == a + b
  {
    if a + b <= U64_MAX then Ok(a + b) else Err(Policy)
  }

  function SaturatingAdd(a: nat, b: nat): (r: nat)
    requires a <= U64_MAX && b <= U64_MAX
    ensures a <= r && b <= r
  {
    Min(a + b, U64_MAX)
  }

  /* ----- One filename component ----- */

  function Ascii(s: string): Text {
    seq(|s|, i requires 0 <= i < |s| => if s[i] < 128 as char then s[i] as int as CodePoint else 0)
  }

  const DEVICES: set<Text> := {
    Ascii("CON"), Ascii("PRN"), Ascii("AUX"), Ascii("NUL"), Ascii("CONIN$"), Ascii("CONOUT$"), Ascii("CLOCK$"),
    Ascii("COM") + [0xB9], Ascii("COM") + [0xB2], Ascii("COM") + [0xB3],
    Ascii("LPT") + [0xB9], Ascii("LPT") + [0xB2], Ascii("LPT") + [0xB3]
  }

  predicate IsControl(c: CodePoint) {
    c < 0x20 || 0x7F <= c < 0xA0
  }

  predicate IsInvalidOnWindows(c: CodePoint) {
    IsControl(c) || c in Ascii("<>\"|?*\\/")
  }

  predicate IsWhiteSpace(c: CodePoint) {
    9 <= c <= 13 || c in [0x20, 0x85, 0xA0, 0x1680, 0x2028, 0x2029, 0x202F, 0x205F, 0x3000] || 0x2000 <= c <= 0x200A
  }

  function TrimEnd(s: Text): Text {
    if s != [] && IsWhiteSpace(s[|s| - 1]) then TrimEnd(s[..|s| - 1]) else s
  }

  /** The text before the first dot. */
  function Stem(s: Text): Text {
    if s == [] || s[0] == '.' as int as CodePoint then [] else [s[0]] + Stem(s[1..])
  }

  function AsciiUpper(s: Text): Text {
    seq(|s|, i requires 0 <= i < |s| => if 97 <= s[i] <= 122 then s[i] - 32 else s[i])
  }

  function DecimalValue(s: Text): Option<nat> {
    if s == [] then Some(0)
    else if !(48 <= s[|s| - 1] <= 57) then None
    else
      match DecimalValue(s[..|s| - 1])
      case None => None
      case Some(v) => Some(10 * v + (s[|s| - 1] - 48) as nat)
  }

  /** `str::parse::<u8>`: an optional plus sign and at least one digit. */
  function ParseU8(s: Text): Option<nat> {
    var digits := if s != [] && s[0] == 43 then s[1..] else s;
    if digits == [] then None
    else
      match DecimalValue(digits)
      case None => None
      case Some(v) => if v < 256 then Some(v) else None
  }

  predicate IsNumberedReserved(value: Text, prefix: Text) {
    |prefix| <= |value| && value[..|prefix|] == prefix &&
    match ParseU8(value[|prefix|..])
    case None => false
    case Some(n) => 1 <= n <= 9
  }

  predicate IsReserved(text: Text) {
    var upper := AsciiUpper(TrimEnd(Stem(text)));
    upper in DEVICES || IsNumberedReserved(upper, Ascii("COM")) || IsNumberedReserved(upper, Ascii("LPT"))
  }

  function ValidateComponent(name: Name): Outcome<Unit> {
    match DecodeUtf8(name)
    case None => Err(Policy)
    case Some(text) =>
      if text == [] || text == Ascii(".") || text == Ascii("..") then Err(Policy)
      else if text[|text| - 1] in Ascii(" .") then Err(Policy)
      else if ':' as int as CodePoint in text then Err(Policy)
      else if exists c :: c in text && IsInvalidOnWindows(c) then Err(Policy)
      else if IsReserved(text) then Err(Policy)
      else Ok(Unit)
  }

  const COLON: Byte := 0x3a
  const DOT: Byte := 0x2e

  /** What the rest of the program relies on once a component has been accepted. */
  lemma AcceptedComponent(name: Name)
    requires ValidateComponent(name).Ok?
    ensures name != [] && NoSeparator(name) && COLON !in name
    ensures name != [DOT] && name != [DOT, DOT]
  {
    var text := DecodeUtf8(name).value;
    EncodeOfDecode(name);
    AsciiInUtf8(text, SLASH);
    AsciiInUtf8(text, BACKSLASH);
    AsciiInUtf8(text, COLON);
    assert Ascii("<>\"|?*\\/")[6] == BACKSLASH as CodePoint && Ascii("<>\"|?*\\/")[7] == SLASH as CodePoint;
    assert IsInvalidOnWindows(BACKSLASH as CodePoint) && IsInvalidOnWindows(SLASH as CodePoint);
    DecodeOfEncode([DOT as CodePoint]);
    DecodeOfEncode([DOT as CodePoint, DOT as CodePoint]);
    assert EncodeUtf8([DOT as CodePoint]) == [DOT];
    assert [DOT as CodePoint, DOT as CodePoint][1..] == [DOT as CodePoint];
    assert EncodeUtf8([DOT as CodePoint, DOT as CodePoint]) == [DOT, DOT];
    assert Ascii(" .")[1] == DOT as CodePoint;
  }

  /* ----- Relative paths ----- */

  predicate AllComponentsValid(p: Path) {
    forall i | 0 <= i < |p| :: ValidateComponent(p[i]).Ok?
  }

  predicate ValidPath(p: Path, limits: Limits) {
    p != [] && AllComponentsValid(p) && |p| <= limits.maxDepth && TextCost(p) <= limits.maxPathBytes
  }

  lemma ValidPathIsPlain(p: Path)
    requires AllComponentsValid(p)
    ensures Plain(p)
  {
    forall i | 0 <= i < |p| ensures p[i] != [] && NoSeparator(p[i]) {
      AcceptedComponent(p[i]);
    }
  }

  lemma {:induction false} TextCostTake(p: Path, n: nat)
    requires n < |p|
    ensures TextCost(p[..n + 1]) == TextCost(p[..n]) + |p[n]| + 1
    ensures TextCost(p[..n + 1]) <= TextCost(p)
  {
    if n > 0 {
      TextCostTake(p[1..], n - 1);
      assert p[1..][..n] == p[..n + 1][1..] && p[1..][..n - 1] == p[..n][1..];
    } else {
      assert p[..1][1..] == [];
    }
  }

  /** Accepts exactly the valid paths; the running byte count never overflows on one. */
  method ValidateRelativePath(p: Path, limits: Limits) returns (r: Outcome<Unit>)
    ensures r.Ok? <==> ValidPath(p, limits)
  {
    if p == [] {
      return Err(Policy);
    }
    var depth, utf8Bytes := 0, 0;
    for i := 0 to |p|
      invariant depth == i
      invariant forall j | 0 <= j < i :: ValidateComponent(p[j]).Ok?
      invariant utf8Bytes == TextCost(p[..i]) <= U64_MAX
    {
      depth := depth + 1;
      if ValidateComponent(p[i]).Err? {
        return Err(Policy);
      }
      TextCostTake(p, i);
      var sum := CheckedAdd(utf8Bytes, |p[i]| + 1);
      if sum.Err? {
        return Err(Policy);
      }
      utf8Bytes := sum.value;
    }
    assert p[..|p|] == p;
    if depth > limits.maxDepth || utf8Bytes > limits.maxPathBytes {
      return Err(Policy);
    }
    r := Ok(Unit);
  }

  /* ----- Member names reported by the backend ----- */

  function StripMarker(member: Bytes): (m: Bytes) {
    if member != [] && IsSeparator(member[|member| - 1]) then member[..|member| - 1] else member
  }

  function ValidateMemberName(member: Bytes, limits: Limits): Outcome<Unit> {
    if member == [] || IsSeparator(member[0]) || (|member| > 1 && member[1] == COLON) then Err(Policy)
    else
      var stripped := StripMarker(member);
      if stripped == [] then Err(Policy)
      else
        var components := Split(stripped);
        if |components| > limits.maxDepth then Err(Policy)
        else if SaturatingAdd(Min(|stripped|, U64_MAX), 1) > limits.maxPathBytes then Err(Policy)
        else if exists i | 0 <= i < |components| :: ValidateComponent(components[i]).Err? then Err(Policy)
        else Ok(Unit)
  }

  lemma {:induction false} SplitCost(b: Bytes)
    ensures TextCost(Split(b)) == |b| + 1
  {
    if b != [] {
      SplitCost(b[1..]);
    }
  }

  lemma {:induction false} SplitKeepsBytes(b: Bytes, x: Byte)
    requires x in b && !IsSeparator(x)
    ensures exists i | 0 <= i < |Split(b)| :: x in Split(b)[i]
  {
    var rest := Split(b[1..]);
    if x == b[0] {
      assert x in Split(b)[0];
    } else {
      assert b == [b[0]] + b[1..];
      SplitKeepsBytes(b[1..], x);
      var i :| 0 <= i < |rest| && x in rest[i];
      if IsSeparator(b[0]) {
        assert Split(b)[i + 1] == rest[i];
      } else {
        assert x in Split(b)[i];
      }
    }
  }

  /**
   The member test and the on-disk path test are the same test: its leading
   character checks reject nothing that the component checks would accept, and
   the two depth and byte accountings coincide.
   */
  lemma MemberNameIsRelativePath(member: Bytes, limits: Limits)
    requires |member| < U64_MAX
    ensures ValidateMemberName(member, limits).Ok? <==> ValidPath(Split(StripMarker(member)), limits)
  {
    var stripped := StripMarker(member);
    var components := Split(stripped);
    SplitCost(stripped);
    if ValidPath(components, limits) {
      forall i | 0 <= i < |components| ensures components[i] != [] && COLON !in components[i] {
        AcceptedComponent(components[i]);
      }
      assert stripped != [] && !IsSeparator(stripped[0]);
      if |member| > 1 && member[1] == COLON {
        assert stripped[1] == COLON;
        SplitKeepsBytes(stripped, COLON);
      }
    }
  }

  /** Resolution as an extractor does it: `.` and empty stay, `..` climbs. */
  function Resolve(root: Path, p: Path): Path
    decreases |p|
  {
    if p == [] then root
    else if p[0] == [] || p[0] == [DOT] then Resolve(root, p[1..])
    else if p[0] == [DOT, DOT] then Resolve(if root == [] then [] else Parent(root), p[1..])
    else Resolve(root + [p[0]], p[1..])
  }

  /** No component is skipped or climbs. */
  predicate Ordinary(p: Path) {
    forall i | 0 <= i < |p| :: p[i] != [] && p[i] != [DOT] && p[i] != [DOT, DOT]
  }

  lemma {:induction false} ResolveAppends(root: Path, p: Path)
    requires Ordinary(p)
    ensures Resolve(root, p) == root + p
    decreases |p|
  {
    if p == [] {
      assert root + p == root;
    } else {
      ResolveAppends(root + [p[0]], p[1..]);
      assert root + [p[0]] + p[1..] == root + p;
    }
  }

  /** An accepted member names something strictly below whatever root it is joined to. */
  lemma MemberStaysBelowRoot(member: Bytes, limits: Limits, root: Path)
    requires |member| < U64_MAX && ValidateMemberName(member, limits).Ok?
    ensures IsPrefix(root, Resolve(root, Split(StripMarker(member))))
    ensures Resolve(root, Split(StripMarker(member))) != root
    ensures Resolve(root, Split(StripMarker(member)))[|root|..] == Split(StripMarker(member))
  {
    var p := Split(StripMarker(member));
    MemberNameIsRelativePath(member, limits);
    forall i | 0 <= i < |p| ensures p[i] != [] && p[i] != [DOT] && p[i] != [DOT, DOT] {
      AcceptedComponent(p[i]);
    }
    ResolveAppends(root, p);
  }
}
