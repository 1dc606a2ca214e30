/**
 The line-oriented member listing emitted by the sandboxed preflight
 (`validate_archive_listing_inner`). The member test and the alias key are
 passed around as function values, so the reasoning about lines, counts and
 duplicates never depends on what makes a single name acceptable.
 */
module Listing {
  import opened Base
  import opened Paths
  import opened Unicode
  import opened Policy

  const NEWLINE: Byte := 10
  const RETURN: Byte := 13

  function SplitLines(b: Bytes): (r: seq<Bytes>)
    ensures |r| >= 1
  {
    if b == [] then [[]]
    else
      var rest := SplitLines(b[1..]);
      if b[0] == NEWLINE then [[]] + rest else [[b[0]] + rest[0]] + rest[1..]
  }

  /** `split_terminator('\n')`: a final newline does not open another line. */
  function Lines(b: Bytes): seq<Bytes> {
    var pieces := SplitLines(b);
    if pieces[|pieces| - 1] == [] then pieces[..|pieces| - 1] else pieces
  }

  function StripReturn(line: Bytes): Bytes {
    if line != [] && line[|line| - 1] == RETURN then line[..|line| - 1] else line
  }

  predicate IsRootMarker(m: Bytes) {
    m == [DOT] || m == [DOT, SLASH] || m == [DOT, BACKSLASH]
  }

  function StripDot(m: Bytes): Bytes {
    if |m| >= 2 && m[0] == DOT && IsSeparator(m[1]) then m[2..] else m
  }

  predicate SkippedLine(line: Bytes, allowCreatedRoot: bool) {
    allowCreatedRoot && IsRootMarker(StripReturn(line))
  }

  function LineMember(line: Bytes, allowCreatedRoot: bool): Bytes {
    if allowCreatedRoot then StripDot(StripReturn(line)) else StripReturn(line)
  }

  function Members(lines: seq<Bytes>, allowCreatedRoot: bool): seq<Bytes> {
    if lines == [] then []
    else
      var last := lines[|lines| - 1];
      Members(lines[..|lines| - 1], allowCreatedRoot)
      + if SkippedLine(last, allowCreatedRoot) then [] else [LineMember(last, allowCreatedRoot)]
  }

  function ToSlashes(b: Bytes): Bytes {
    seq(|b|, i requires 0 <= i < |b| => if b[i] == BACKSLASH then SLASH else b[i])
  }

  /** What two members must not share: the name after separator and case folding. */
  function AliasKey(fold: Bytes -> Bytes): Bytes -> Bytes {
    member => fold(ToSlashes(StripMarker(member)))
  }

  function MemberTest(limits: Limits): Bytes -> bool {
    member => ValidateMemberName(member, limits).Ok?
  }

  ghost predicate Distinct(members: seq<Bytes>, key: Bytes -> Bytes) {
    forall i, j | 0 <= i < j < |members| :: key(members[i]) != key(members[j])
  }

  ghost function Keys(members: seq<Bytes>, key: Bytes -> Bytes): set<Bytes> {
    set m | m in members :: key(m)
  }

  ghost predicate Accepted(
    lines: seq<Bytes>, maxEntries: nat, allowCreatedRoot: bool, ok: Bytes -> bool, key: Bytes -> Bytes)
  {
    var members := Members(lines, allowCreatedRoot);
    && |lines| - |members| <= 1
    && |members| <= maxEntries
    && (forall m | m in members :: ok(m))
    && Distinct(members, key)
  }

  /** Whether one more line keeps an accepted listing acceptable. */
  ghost predicate LineAccepted(
    lines: seq<Bytes>, line: Bytes, maxEntries: nat, allowCreatedRoot: bool, ok: Bytes -> bool, key: Bytes -> Bytes)
  {
    var members := Members(lines, allowCreatedRoot);
    if SkippedLine(line, allowCreatedRoot) then |lines| == |members|
    else
      var member := LineMember(line, allowCreatedRoot);
      && ok(member)
      && |members| + 1 <= maxEntries
      && key(member) !in Keys(members, key)
  }

  lemma {:induction false} MembersAtMostLines(lines: seq<Bytes>, allowCreatedRoot: bool)
    ensures |Members(lines, allowCreatedRoot)| <= |lines|
    ensures !allowCreatedRoot ==> |Members(lines, allowCreatedRoot)| == |lines|
  {
    if lines != [] {
      MembersAtMostLines(lines[..|lines| - 1], allowCreatedRoot);
    }
  }

  lemma MembersOneMore(lines: seq<Bytes>, line: Bytes, allowCreatedRoot: bool)
    ensures Members(lines + [line], allowCreatedRoot) == Members(lines, allowCreatedRoot)
            + if SkippedLine(line, allowCreatedRoot) then [] else [LineMember(line, allowCreatedRoot)]
  {
    assert (lines + [line])[..|lines|] == lines;
  }

  lemma AcceptedOneMore(
    lines: seq<Bytes>, line: Bytes, maxEntries: nat, allowCreatedRoot: bool, ok: Bytes -> bool, key: Bytes -> Bytes)
    ensures Accepted(lines + [line], maxEntries, allowCreatedRoot, ok, key)
            <==> Accepted(lines, maxEntries, allowCreatedRoot, ok, key)
                 && LineAccepted(lines, line, maxEntries, allowCreatedRoot, ok, key)
  {
    var before, after := Members(lines, allowCreatedRoot), Members(lines + [line], allowCreatedRoot);
    MembersAtMostLines(lines, allowCreatedRoot);
    MembersOneMore(lines, line, allowCreatedRoot);
    if SkippedLine(line, allowCreatedRoot) {
      assert after == before;
    } else {
      assert forall m :: m in after <==> m in before || m == LineMember(line, allowCreatedRoot);
      DistinctOneMore(before, LineMember(line, allowCreatedRoot), key);
    }
  }

  lemma DistinctOneMore(members: seq<Bytes>, member: Bytes, key: Bytes -> Bytes)
    ensures Distinct(members + [member], key) <==> Distinct(members, key) && key(member) !in Keys(members, key)
    ensures Keys(members + [member], key) == Keys(members, key) + {key(member)}
  {
    var all := members + [member];
    assert forall i | 0 <= i < |members| :: all[i] == members[i] && members[i] in members;
    if key(member) in Keys(members, key) {
      var i :| 0 <= i < |members| && key(members[i]) == key(member);
      assert key(all[i]) == key(all[|members|]);
    }
  }

  lemma {:induction false} RejectedPrefix(
    lines: seq<Bytes>, n: nat, maxEntries: nat, allowCreatedRoot: bool, ok: Bytes -> bool, key: Bytes -> Bytes)
    requires n <= |lines| && !Accepted(lines[..n], maxEntries, allowCreatedRoot, ok, key)
    ensures !Accepted(lines, maxEntries, allowCreatedRoot, ok, key)
    decreases |lines|
  {
    if n == |lines| {
      assert lines[..n] == lines;
    } else {
      var front := lines[..|lines| - 1];
      assert front[..n] == lines[..n];
      assert lines == front + [lines[|lines| - 1]];
      RejectedPrefix(front, n, maxEntries, allowCreatedRoot, ok, key);
      AcceptedOneMore(front, lines[|lines| - 1], maxEntries, allowCreatedRoot, ok, key);
    }
  }

  /** One turn of the loop, from the lines already read to one more. */
  lemma LineStep(
    lines: seq<Bytes>, i: nat, maxEntries: nat, allowCreatedRoot: bool, ok: Bytes -> bool, key: Bytes -> Bytes)
    requires i < |lines| && Accepted(lines[..i], maxEntries, allowCreatedRoot, ok, key)
    ensures LineAccepted(lines[..i], lines[i], maxEntries, allowCreatedRoot, ok, key)
            ==> Accepted(lines[..i + 1], maxEntries, allowCreatedRoot, ok, key)
    ensures !LineAccepted(lines[..i], lines[i], maxEntries, allowCreatedRoot, ok, key)
            ==> !Accepted(lines, maxEntries, allowCreatedRoot, ok, key)
    ensures
      var before, after := Members(lines[..i], allowCreatedRoot), Members(lines[..i + 1], allowCreatedRoot);
      if SkippedLine(lines[i], allowCreatedRoot) then after == before
      else
        && |after| == |before| + 1
        && Keys(after, key) == Keys(before, key) + {key(LineMember(lines[i], allowCreatedRoot))}
  {
    assert lines[..i + 1] == lines[..i] + [lines[i]];
    AcceptedOneMore(lines[..i], lines[i], maxEntries, allowCreatedRoot, ok, key);
    MembersOneMore(lines[..i], lines[i], allowCreatedRoot);
    DistinctOneMore(Members(lines[..i], allowCreatedRoot), LineMember(lines[i], allowCreatedRoot), key);
    if !LineAccepted(lines[..i], lines[i], maxEntries, allowCreatedRoot, ok, key) {
      RejectedPrefix(lines, i + 1, maxEntries, allowCreatedRoot, ok, key);
    }
  }

  /**
   Succeeds on exactly the acceptable listings, and then counts their members.
   The root markers are tolerated once, and only for archives this program
   created.
   */
  method ValidateArchiveListing(input: Bytes, limits: Limits, allowCreatedRoot: bool, fold: Bytes -> Bytes)
    returns (r: Outcome<nat>)
    ensures r.Ok? <==>
            && DecodeUtf8(input).Some?
            && limits.maxFiles + limits.maxDirectories <= U64_MAX
            && Accepted(Lines(input), limits.maxFiles + limits.maxDirectories, allowCreatedRoot,
                        MemberTest(limits), AliasKey(fold))
    ensures r.Ok? ==> r.value == |Members(Lines(input), allowCreatedRoot)|
    ensures r.Ok? && !allowCreatedRoot ==> r.value == |Lines(input)|
  {
    if DecodeUtf8(input).None? {
      return Err(Policy);
    }
    var maxEntries := CheckedAdd(limits.maxFiles, limits.maxDirectories);
    if maxEntries.Err? {
      return Err(Config);
    }
    var lines := Lines(input);
    MembersAtMostLines(lines, allowCreatedRoot);
    r := ValidateLines(lines, maxEntries.value, allowCreatedRoot, MemberTest(limits), AliasKey(fold));
  }

  method ValidateLines(
    lines: seq<Bytes>, maxEntries: nat, allowCreatedRoot: bool, ok: Bytes -> bool, key: Bytes -> Bytes)
    returns (r: Outcome<nat>)
    requires maxEntries <= U64_MAX
    ensures r.Ok? <==> Accepted(lines, maxEntries, allowCreatedRoot, ok, key)
    ensures r.Ok? ==> r.value == |Members(lines, allowCreatedRoot)|
  {
    hide Members, Distinct, Keys, SkippedLine, LineMember;
    NothingRead(allowCreatedRoot, key);
    var seen: set<Bytes> := {};
    var entries, sawCreatedRoot := 0, false;
    for i := 0 to |lines|
      invariant Accepted(lines[..i], maxEntries, allowCreatedRoot, ok, key)
      invariant entries == |Members(lines[..i], allowCreatedRoot)|
      invariant sawCreatedRoot <==> entries != i
      invariant seen == Keys(Members(lines[..i], allowCreatedRoot), key)
    {
      var line := lines[i];
      LineStep(lines, i, maxEntries, allowCreatedRoot, ok, key);
      if SkippedLine(line, allowCreatedRoot) {
        if sawCreatedRoot {
          return Err(Policy);
        }
        sawCreatedRoot := true;
        continue;
      }
      var member := LineMember(line, allowCreatedRoot);
      if !ok(member) {
        return Err(Policy);
      }
      var count := CheckedAdd(entries, 1);
      if count.Err? || count.value > maxEntries {
        return Err(Policy);
      }
      if key(member) in seen {
        return Err(Policy);
      }
      seen := seen + {key(member)};
      entries := count.value;
    }
    assert lines[..|lines|] == lines;
    r := Ok(entries);
  }

  lemma NothingRead(allowCreatedRoot: bool, key: Bytes -> Bytes)
    ensures Members([], allowCreatedRoot) == [] && Keys([], key) == {} && Distinct([], key)
  {
  }

  /* ----- What acceptance guarantees ----- */

  /** Where an extractor working below `root` would put the member. */
  function Target(root: Path, member: Bytes): Path {
    Resolve(root, Split(StripMarker(member)))
  }

  /** Splitting forgets only which of the two separators was used. */
  lemma {:induction false} JoinOfSplit(b: Bytes)
    ensures Join(Split(b), SLASH) == ToSlashes(b)
  {
    if b != [] {
      JoinOfSplit(b[1..]);
      assert ToSlashes(b) == [if b[0] == BACKSLASH then SLASH else b[0]] + ToSlashes(b[1..]);
    }
  }

  /**
   One slash or backslash after a name changes nothing: it is accepted as before and
   aliases the name without. A second one means refusal.
   */
  lemma MarkerDoesNotMatter(member: Bytes, mark: Byte, limits: Limits, fold: Bytes -> Bytes)
    requires member != [] && (mark == 0x2F || mark == 0x5C)
    ensures
      var last := member[|member| - 1];
      if last == 0x2F || last == 0x5C then ValidateMemberName(member + [mark], limits).Err?
      else
        && AliasKey(fold)(member + [mark]) == AliasKey(fold)(member)
        && ValidateMemberName(member + [mark], limits) == ValidateMemberName(member, limits)
  {
    var marked := member + [mark];
    assert StripMarker(marked) == member;
    if IsSeparator(member[|member| - 1]) {
      EndsInEmpty(member);
    } else {
      assert StripMarker(member) == member;
      assert AliasKey(fold)(marked) == fold(ToSlashes(StripMarker(marked)));
      assert AliasKey(fold)(member) == fold(ToSlashes(StripMarker(member)));
    }
  }

  lemma {:induction false} EndsInEmpty(b: Bytes)
    requires b != [] && IsSeparator(b[|b| - 1])
    ensures Split(b)[|Split(b)| - 1] == [] && ValidateComponent([]).Err?
  {
    if |b| > 1 {
      EndsInEmpty(b[1..]);
    }
  }

  /** Two members alias each other exactly if their slash-separated names, without directory mark, fold to the same. */
  lemma AliasesExactly(fold: Bytes -> Bytes, a: Bytes, b: Bytes)
    ensures AliasKey(fold)(a) == AliasKey(fold)(b) <==>
            fold(Join(Split(StripMarker(a)), SLASH)) == fold(Join(Split(StripMarker(b)), SLASH))
  {
    JoinOfSplit(StripMarker(a));
    JoinOfSplit(StripMarker(b));
  }

  /** A listing with two such members is never accepted. */
  lemma CaseVariantsAreRefused(
    lines: seq<Bytes>, maxEntries: nat, allowCreatedRoot: bool, limits: Limits, fold: Bytes -> Bytes, i: nat, j: nat)
    requires
      var members := Members(lines, allowCreatedRoot);
      && i < j < |members|
      && fold(Join(Split(StripMarker(members[i])), SLASH)) == fold(Join(Split(StripMarker(members[j])), SLASH))
    ensures !Accepted(lines, maxEntries, allowCreatedRoot, MemberTest(limits), AliasKey(fold))
  {
    var members := Members(lines, allowCreatedRoot);
    AliasesExactly(fold, members[i], members[j]);
    hide Members, AliasKey, MemberTest;
  }

  lemma SameTargetSameKey(root: Path, a: Bytes, b: Bytes, limits: Limits, fold: Bytes -> Bytes)
    requires |a| < U64_MAX && |b| < U64_MAX && ValidateMemberName(a, limits).Ok? && ValidateMemberName(b, limits).Ok?
    requires Target(root, a) == Target(root, b)
    ensures AliasKey(fold)(a) == AliasKey(fold)(b)
  {
    MemberStaysBelowRoot(a, limits, root);
    MemberStaysBelowRoot(b, limits, root);
    JoinOfSplit(StripMarker(a));
    JoinOfSplit(StripMarker(b));
  }

  /**
   Every accepted member stays strictly below any root and passes the on-disk path
   test, and no two members, at whatever positions, lead to the same place.
   */
  lemma AcceptedListingIsSafe(
    lines: seq<Bytes>, maxEntries: nat, allowCreatedRoot: bool, limits: Limits, fold: Bytes -> Bytes, root: Path)
    requires Accepted(lines, maxEntries, allowCreatedRoot, MemberTest(limits), AliasKey(fold))
    requires forall m | m in Members(lines, allowCreatedRoot) :: |m| < U64_MAX
    ensures
      var members := Members(lines, allowCreatedRoot);
      && (forall i | 0 <= i < |members| ::
            && IsPrefix(root, Target(root, members[i])) && Target(root, members[i]) != root
            && ValidPath(Split(StripMarker(members[i])), limits))
      && (forall i, j | 0 <= i < j < |members| :: Target(root, members[i]) != Target(root, members[j]))
  {
    var members := Members(lines, allowCreatedRoot);
    hide Members, ValidateMemberName, ValidPath, Target, Split, StripMarker, ToSlashes;
    forall i | 0 <= i < |members|
      ensures IsPrefix(root, Target(root, members[i])) && Target(root, members[i]) != root
      ensures ValidPath(Split(StripMarker(members[i])), limits)
    {
      assert members[i] in members;
      TargetIsBelow(root, members[i], limits);
    }
    forall i, j | 0 <= i < j < |members| ensures Target(root, members[i]) != Target(root, members[j]) {
      assert members[i] in members && members[j] in members;
      if Target(root, members[i]) == Target(root, members[j]) {
        SameTargetSameKey(root, members[i], members[j], limits, fold);
      }
    }
  }

  lemma TargetIsBelow(root: Path, member: Bytes, limits: Limits)
    requires |member| < U64_MAX && ValidateMemberName(member, limits).Ok?
    ensures IsPrefix(root, Target(root, member)) && Target(root, member) != root
    ensures ValidPath(Split(StripMarker(member)), limits)
  {
    hide ValidateMemberName, ValidPath, Split, StripMarker;
    MemberStaysBelowRoot(member, limits, root);
    MemberNameIsRelativePath(member, limits);
  }

  /* ----- The line format ----- */

  /** One line per member, each ended by a newline. */
  function WrittenOut(members: seq<Bytes>): Bytes {
    if members == [] then [] else members[0] + [NEWLINE] + WrittenOut(members[1..])
  }

  lemma {:induction false} SplitLinesCons(line: Bytes, rest: Bytes)
    requires NEWLINE !in line
    ensures SplitLines(line + [NEWLINE] + rest) == [line] + SplitLines(rest)
  {
    var all := line + [NEWLINE] + rest;
    if line == [] {
      assert all[1..] == rest;
    } else {
      assert all[1..] == line[1..] + [NEWLINE] + rest;
      SplitLinesCons(line[1..], rest);
      assert [line[0]] + line[1..] == line;
    }
  }

  lemma {:induction false} SplitLinesOfWritten(members: seq<Bytes>)
    requires forall m | m in members :: NEWLINE !in m
    ensures SplitLines(WrittenOut(members)) == members + [[]]
  {
    if members != [] {
      SplitLinesOfWritten(members[1..]);
      SplitLinesCons(members[0], WrittenOut(members[1..]));
      assert members == [members[0]] + members[1..];
    }
  }

  lemma {:induction false} PlainMembers(members: seq<Bytes>)
    requires forall m | m in members :: StripReturn(m) == m
    ensures Members(members, false) == members
  {
    if members != [] {
      PlainMembers(members[..|members| - 1]);
      assert members == members[..|members| - 1] + [members[|members| - 1]];
    }
  }

  /** A lister that writes one name per line is read back name by name. */
  lemma MembersOfWritten(members: seq<Bytes>)
    requires forall m | m in members :: NEWLINE !in m && StripReturn(m) == m
    ensures Lines(WrittenOut(members)) == members && Members(Lines(WrittenOut(members)), false) == members
  {
    SplitLinesOfWritten(members);
    assert (members + [[]])[..|members|] == members;
    PlainMembers(members);
  }

  /* ----- Every listing, exactly ----- */

  lemma {:induction false} WrittenOutAppend(a: seq<Bytes>, line: Bytes)
    ensures WrittenOut(a + [line]) == WrittenOut(a) + line + [NEWLINE]
  {
    if a == [] {
      assert [line][1..] == [];
      assert WrittenOut([line]) == line + [NEWLINE] + [];
    } else {
      WrittenOutAppend(a[1..], line);
      assert (a + [line])[1..] == a[1..] + [line];
    }
  }

  /** The text that these pieces come from: a newline after each but the last. */
  ghost function Joined(pieces: seq<Bytes>): Bytes
    requires pieces != []
  {
    WrittenOut(pieces[..|pieces| - 1]) + pieces[|pieces| - 1]
  }

  lemma JoinedFirst(first: Bytes, rest: seq<Bytes>)
    requires rest != []
    ensures Joined([first] + rest) == first + [NEWLINE] + Joined(rest)
  {
    var pieces := [first] + rest;
    assert pieces[..|pieces| - 1] == [first] + rest[..|rest| - 1];
    assert ([first] + rest[..|rest| - 1])[1..] == rest[..|rest| - 1];
  }

  lemma JoinedLonger(x: Byte, pieces: seq<Bytes>)
    requires pieces != []
    ensures Joined([[x] + pieces[0]] + pieces[1..]) == [x] + Joined(pieces)
  {
    if |pieces| == 1 {
      assert [[x] + pieces[0]] + pieces[1..] == [[x] + pieces[0]];
    } else {
      JoinedFirst([x] + pieces[0], pieces[1..]);
      JoinedFirst(pieces[0], pieces[1..]);
      assert pieces == [pieces[0]] + pieces[1..];
    }
  }

  ghost predicate Unbroken(pieces: seq<Bytes>) {
    forall i | 0 <= i < |pieces| :: NEWLINE !in pieces[i]
  }

  lemma UnbrokenMore(x: Byte, pieces: seq<Bytes>)
    requires pieces != [] && Unbroken(pieces)
    ensures Unbroken([[]] + pieces)
    ensures x != NEWLINE ==> Unbroken([[x] + pieces[0]] + pieces[1..])
  {
  }

  lemma SplitLinesStep(b: Bytes)
    requires b != []
    ensures
      var rest := SplitLines(b[1..]);
      SplitLines(b) == if b[0] == NEWLINE then [[]] + rest else [[b[0]] + rest[0]] + rest[1..]
  {
  }

  /** The pieces without their newlines, put together again with them, are the text. */
  lemma {:induction false} PiecesMakeText(b: Bytes)
    ensures Joined(SplitLines(b)) == b && Unbroken(SplitLines(b))
  {
    if b != [] {
      var rest := SplitLines(b[1..]);
      assert b == [b[0]] + b[1..];
      SplitLinesStep(b);
      hide *;
      PiecesMakeText(b[1..]);
      UnbrokenMore(b[0], rest);
      if b[0] == NEWLINE {
        JoinedFirst([], rest);
        NewlineFirst(b[1..]);
      } else {
        JoinedLonger(b[0], rest);
      }
    }
  }

  lemma NewlineFirst(rest: Bytes)
    ensures [] + [NEWLINE] + rest == [NEWLINE] + rest
  {
  }

  /** The last piece is empty exactly if nothing follows the last newline. */
  lemma {:induction false} LastPiece(b: Bytes)
    ensures SplitLines(b)[|SplitLines(b)| - 1] == [] <==> b == [] || b[|b| - 1] == NEWLINE
  {
    if b != [] {
      LastPiece(b[1..]);
      SplitLinesStep(b);
      hide SplitLines;
    }
  }

  /**
   For every text: its lines contain no newline, and written out again they are the
   text, completed by a final newline exactly if it has content after the last one.
   */
  lemma LinesExactly(b: Bytes)
    ensures forall line | line in Lines(b) :: (10 as Byte) !in line
    ensures WrittenOut(Lines(b)) == if b == [] || b[|b| - 1] == 10 then b else b + [10]
  {
    var pieces := SplitLines(b);
    var n := |pieces| - 1;
    PiecesMakeText(b);
    LastPiece(b);
    assert pieces == pieces[..n] + [pieces[n]];
    if pieces[n] != [] {
      WrittenOutAppend(pieces[..n], pieces[n]);
    }
  }

  /* ----- What a line stands for ----- */

  /** One line per member, each ended by a carriage return and a newline. */
  function WithReturns(members: seq<Bytes>): (lines: seq<Bytes>)
    ensures |lines| == |members|
  {
    seq(|members|, i requires 0 <= i < |members| => members[i] + [RETURN])
  }

  /** Whether lines end with a carriage return makes no difference. */
  lemma {:induction false} ReturnsDoNotMatter(members: seq<Bytes>)
    ensures Members(WithReturns(members), false) == members
  {
    if members != [] {
      var front := members[..|members| - 1];
      ReturnsDoNotMatter(front);
      assert WithReturns(members)[..|members| - 1] == WithReturns(front);
      assert members == front + [members[|members| - 1]];
    }
  }

  function WithDots(members: seq<Bytes>, separator: Byte): (lines: seq<Bytes>)
    ensures |lines| == |members|
  {
    seq(|members|, i requires 0 <= i < |members| => [DOT, separator] + members[i])
  }

  lemma WithDotsMore(front: seq<Bytes>, last: Bytes, root: Bytes, separator: Byte)
    ensures [root] + WithDots(front + [last], separator)
            == ([root] + WithDots(front, separator)) + [[DOT, separator] + last]
  {
    assert WithDots(front + [last], separator) == WithDots(front, separator) + [[DOT, separator] + last];
  }

  /** In a listing of an archive made here, members may be written below `.`, and the root itself may be listed. */
  lemma {:induction false} DotsDoNotMatter(members: seq<Bytes>, root: Bytes, separator: Byte)
    requires IsSeparator(separator) && (root == [DOT] || root == [DOT, SLASH] || root == [DOT, BACKSLASH])
    requires forall m | m in members :: m != [] && StripReturn(m) == m
    ensures Members([root] + WithDots(members, separator), true) == members
    decreases |members|
  {
    RootLine(root);
    if members == [] {
      MembersOneMore([], root, true);
      assert [root] + WithDots(members, separator) == [] + [root];
      NoMembers();
      hide *;
    } else {
      var front, last := members[..|members| - 1], members[|members| - 1];
      assert members == front + [last] && last in members && forall m | m in front :: m in members;
      hide *;
      DotsDoNotMatter(front, root, separator);
      DottedLine(last, separator);
      WithDotsMore(front, last, root, separator);
      MembersOneMore([root] + WithDots(front, separator), [DOT, separator] + last, true);
    }
  }

  lemma NoMembers()
    ensures Members([], true) == []
  {
  }

  lemma RootLine(root: Bytes)
    requires root == [DOT] || root == [DOT, SLASH] || root == [DOT, BACKSLASH]
    ensures SkippedLine(root, true)
  {
  }

  lemma DottedLine(member: Bytes, separator: Byte)
    requires IsSeparator(separator) && member != [] && StripReturn(member) == member
    ensures !SkippedLine([DOT, separator] + member, true)
    ensures LineMember([DOT, separator] + member, true) == member
  {
    var line := [DOT, separator] + member;
    assert line[|line| - 1] == member[|member| - 1];
    assert StripReturn(line) == line && line[2..] == member;
  }

  /** Without that permission nothing is stripped: such lines are members like any other, and `.` is never one. */
  lemma DotsMatterOutside(limits: Limits, lines: seq<Bytes>, maxEntries: nat, key: Bytes -> Bytes, i: nat)
    requires i < |lines| && (lines[i] == [DOT] || (|lines[i]| >= 2 && lines[i][..2] == [DOT, SLASH]))
    ensures !Accepted(lines, maxEntries, false, MemberTest(limits), key)
  {
    ExternalMember(lines, i);
    DotIsRefused(StripReturn(lines[i]), limits);
  }

  lemma {:induction false} ExternalMember(lines: seq<Bytes>, i: nat)
    requires i < |lines|
    ensures StripReturn(lines[i]) in Members(lines, false)
    decreases |lines|
  {
    if i < |lines| - 1 {
      ExternalMember(lines[..|lines| - 1], i);
    }
  }

  lemma DotIsRefused(m: Bytes, limits: Limits)
    requires m == [DOT] || (|m| >= 2 && m[..2] == [DOT, SLASH])
    ensures ValidateMemberName(m, limits).Err?
  {
    DotComesFirst(m);
    DotComponentIsRefused();
    hide ValidateComponent, Split;
  }

  lemma DotComponentIsRefused()
    ensures ValidateComponent([DOT]).Err?
  {
    if ValidateComponent([DOT]).Ok? {
      AcceptedComponent([DOT]);
    }
  }

  lemma DotComesFirst(m: Bytes)
    requires m == [DOT] || (|m| >= 2 && m[..2] == [DOT, SLASH])
    ensures Split(StripMarker(m))[0] == [DOT]
  {
    var stripped := StripMarker(m);
    assert m[0] == m[..1][0] == DOT;
    assert stripped[0] == DOT;
    if |stripped| == 1 {
      assert stripped[1..] == [];
    } else {
      assert stripped[1] == m[1] == m[..2][1];
    }
    assert Split(stripped[1..])[0] == [];
  }
}
