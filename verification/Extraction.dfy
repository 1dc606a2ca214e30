/**
 What a stream of archive members calls for, and when it can be had: the
 description the password-archive extractor (`src/platform/libarchive_windows.rs`)
 is held against. The volume compares names after a `volume` fold of its own,
 while duplicate members are found with a `lower` fold of the whole name.
 */
module Extraction {
  import opened Base
  import opened Paths
  import opened Unicode
  import opened Policy
  import opened Trees
  import opened Streams
  import Listing

  const MAX_INTERNAL_PATH_BYTES: nat := 1024 * 1024

  datatype FileType = DirectoryType | RegularType | OtherType

  /**
   One header and the data behind it: the pathname up to its NUL, if there is one,
   and the results of the successive reads, ending well or with an error status.
   */
  datatype Member = Member(
    name: Option<Bytes>, filetype: FileType, hardlink: bool, declaredSize: int, chunks: seq<Bytes>,
    readsEndWell: bool, skipsWell: bool)
  {
    function Name(): Bytes {
      if name.Some? then name.value else []
    }

    function Relative(): Path {
      Split(StripMarker(Name()))
    }
  }

  function KeyOf(m: Member, volume: Name -> Name): Path {
    Key(m.Relative(), volume)
  }

  /* ----- Directory trees that only grow ----- */

  predicate Begins(a: Bytes, b: Bytes) {
    |a| <= |b| && b[..|a|] == a
  }

  /** Nothing is removed or replaced; a file may only have become longer. */
  ghost predicate Extends(before: Tree, after: Tree) {
    forall p | p in before :: p in after &&
      if before[p].File? then after[p].File? && Begins(before[p].content, after[p].content)
      else after[p] == before[p]
  }

  /** What holds of the output directory at every moment; only the directory limit can be passed, by one. */
  ghost predicate Safe(t: Tree, limits: Limits) {
    && WellFormed(t)
    && (forall p | p in t :: !t[p].Other? && (t[p].File? ==> |t[p].content| <= limits.maxSingleFileBytes))
    && Summary(t).files <= limits.maxFiles
    && Summary(t).directories <= limits.maxDirectories + 1
    && Summary(t).totalBytes <= limits.maxTotalBytes
  }

  lemma ExtendsTransitive(a: Tree, b: Tree, c: Tree)
    requires Extends(a, b) && Extends(b, c)
    ensures Extends(a, c)
  {
    forall p | p in a && a[p].File? ensures p in c && c[p].File? && Begins(a[p].content, c[p].content) {
      assert c[p].content[..|b[p].content|][..|a[p].content|] == c[p].content[..|a[p].content|];
    }
  }

  lemma {:induction false} TotalSizeAgree(t: Tree, u: Tree, s: set<Path>)
    requires forall p | p in s :: SizeAt(t, p) == SizeAt(u, p)
    ensures TotalSize(t, s) == TotalSize(u, s)
    decreases |s|
  {
    if s != {} {
      var p :| p in s;
      TotalSizeRemove(t, s, p);
      TotalSizeRemove(u, s, p);
      TotalSizeAgree(t, u, s - {p});
    }
  }

  lemma SummaryAgree(t: Tree, u: Tree, s: set<Path>)
    requires s <= t.Keys && s <= u.Keys && forall p | p in s :: t[p] == u[p]
    ensures SummaryOf(t, s) == SummaryOf(u, s)
  {
    TotalSizeAgree(t, u, s);
    assert FilesIn(t, s) == FilesIn(u, s);
    assert DirectoriesIn(t, s) == DirectoriesIn(u, s);
  }

  lemma AddNode(t: Tree, p: Path, n: Node)
    requires WellFormed(t) && p !in t && p != [] && Parent(p) in t && t[Parent(p)].Directory?
    ensures
      var u := t[p := n];
      && WellFormed(u) && Extends(t, u)
      && Summary(u).files == Summary(t).files + (if n.File? then 1 else 0)
      && Summary(u).directories == Summary(t).directories + (if n.Directory? then 1 else 0)
      && Summary(u).totalBytes == Summary(t).totalBytes + (if n.File? then |n.content| else 0)
  {
    var u := t[p := n];
    assert Below(u) == Below(t) + {p};
    SummaryAdd(u, Below(t), p);
    SummaryAgree(t, u, Below(t));
  }

  function Longer(n: Node, data: Bytes): Node
    requires n.File?
  {
    n.(content := n.content + data)
  }

  lemma GrowFile(t: Tree, p: Path, data: Bytes)
    requires WellFormed(t) && p in t && t[p].File?
    ensures
      var u := t[p := Longer(t[p], data)];
      && WellFormed(u) && Extends(t, u)
      && Summary(u) == Summary(t).(totalBytes := Summary(t).totalBytes + |data|)
  {
    var u := t[p := Longer(t[p], data)];
    GrowKeepsTree(t, p, data);
    hide SummaryOf, WellFormed, Extends;
    var rest := Below(t) - {p};
    assert p != [] by { RootIsDirectory(t); }
    assert Below(t) == rest + {p} && Below(u) == rest + {p};
    SummaryAdd(t, rest, p);
    SummaryAdd(u, rest, p);
    SummaryAgree(t, u, rest);
  }

  lemma RootIsDirectory(t: Tree)
    requires WellFormed(t)
    ensures [] in t && t[[]].Directory?
  {
  }

  lemma GrowKeepsTree(t: Tree, p: Path, data: Bytes)
    requires WellFormed(t) && p in t && t[p].File?
    ensures WellFormed(t[p := Longer(t[p], data)]) && Extends(t, t[p := Longer(t[p], data)])
  {
  }

  /* ----- What the members call for ----- */

  /** The first `n` components of a key, and all shorter prefixes. */
  ghost function Chain(k: Path, n: nat): set<Path>
    requires n <= |k|
  {
    Prefixes(k, 0, n + 1)
  }

  lemma ChainOneMore(k: Path, n: nat)
    requires n < |k|
    ensures Chain(k, n + 1) == Chain(k, n) + {k[..n + 1]}
    ensures Parent(k[..n + 1]) == k[..n] && k[..n] in Chain(k, n)
  {
  }

  lemma ChainOfParent(k: Path)
    requires k != []
    ensures Chain(Parent(k), |Parent(k)|) == Chain(k, |k| - 1)
    ensures Parent(k) in Chain(k, |k| - 1)
  {
    forall i | 0 <= i <= |k| - 1 ensures Parent(k)[..i] == k[..i] {
    }
  }

  ghost function Touched(members: seq<Member>, volume: Name -> Name): set<Path> {
    if members == [] then {[]}
    else
      var last := KeyOf(members[|members| - 1], volume);
      Touched(members[..|members| - 1], volume) + Chain(last, |last|)
  }

  /** The given folders were added, and nothing else. */
  ghost predicate AddsFolders(before: Tree, after: Tree, folders: set<Path>) {
    && after.Keys == before.Keys + folders
    && (forall p | p in before :: after[p] == before[p])
    && (forall p | p in folders :: after[p].Directory?)
  }

  ghost predicate IsFileOf(p: Path, m: Member, volume: Name -> Name) {
    m.filetype.RegularType? && KeyOf(m, volume) == p
  }

  /**
   Exactly the members and their ancestors are there, up to case: each regular
   member as a file holding all its chunks, everything else as a directory.
   */
  ghost predicate Delivered(t: Tree, members: seq<Member>, volume: Name -> Name) {
    && t.Keys == Touched(members, volume)
    && (forall m | m in members :: KeyOf(m, volume) in t && Placed(t[KeyOf(m, volume)], m))
    && (forall p | p in t && t[p].File? :: exists m | m in members :: IsFileOf(p, m, volume))
  }

  ghost predicate Placed(n: Node, m: Member) {
    if m.filetype.RegularType? then n.File? && n.content == Concat(m.chunks) else n.Directory?
  }

  ghost function RegularCount(members: seq<Member>): nat {
    if members == [] then 0
    else RegularCount(members[..|members| - 1]) + if members[|members| - 1].filetype.RegularType? then 1 else 0
  }

  lemma MembersOneMore(members: seq<Member>, m: Member, volume: Name -> Name)
    ensures Touched(members + [m], volume) == Touched(members, volume) + Chain(KeyOf(m, volume), |KeyOf(m, volume)|)
    ensures RegularCount(members + [m]) == RegularCount(members) + if m.filetype.RegularType? then 1 else 0
    ensures forall x :: x in members + [m] <==> x in members || x == m
  {
    assert (members + [m])[..|members|] == members;
  }

  lemma DirectoryDelivered(before: Tree, after: Tree, members: seq<Member>, m: Member, volume: Name -> Name)
    requires Delivered(before, members, volume) && m.filetype.DirectoryType?
    requires AddsFolders(before, after, Chain(KeyOf(m, volume), |KeyOf(m, volume)|))
    ensures Delivered(after, members + [m], volume)
  {
    hide KeyOf, Concat;
    MembersOneMore(members, m, volume);
    var k := KeyOf(m, volume);
    assert k[..|k|] == k;
    forall p | p in after && after[p].File? ensures exists x | x in members + [m] :: IsFileOf(p, x, volume) {
      var x :| x in members && IsFileOf(p, x, volume);
    }
  }

  lemma FileDelivered(before: Tree, after: Tree, members: seq<Member>, m: Member, volume: Name -> Name)
    requires Delivered(before, members, volume) && m.filetype.RegularType?
    requires KeyOf(m, volume) != [] && FileAdded(before, after, m, KeyOf(m, volume))
    ensures Delivered(after, members + [m], volume)
  {
    hide KeyOf, Concat;
    MembersOneMore(members, m, volume);
    var k := KeyOf(m, volume);
    assert k[..|k|] == k;
    ChainOneMore(k, |k| - 1);
    assert IsFileOf(k, m, volume);
    var others := after - {k};
    assert after.Keys == others.Keys + {k};
    assert Placed(after[k], m);
    forall p | p in after && after[p].File? && p != k ensures exists x | x in members + [m] :: IsFileOf(p, x, volume) {
      assert p in others;
      assert before[p] == after[p];
      var x :| x in members && IsFileOf(p, x, volume);
    }
    forall x | x in members ensures KeyOf(x, volume) in after && Placed(after[KeyOf(x, volume)], x) {
      assert KeyOf(x, volume) in before;
      assert others[KeyOf(x, volume)] == before[KeyOf(x, volume)];
    }
  }

  /** One member's effect on the output directory. */
  ghost predicate MemberAdded(before: Tree, after: Tree, m: Member, volume: Name -> Name) {
    var k := KeyOf(m, volume);
    if m.filetype.RegularType? then k != [] && FileAdded(before, after, m, k)
    else m.filetype.DirectoryType? && AddsFolders(before, after, Chain(k, |k|))
  }

  lemma MemberDelivered(before: Tree, after: Tree, members: seq<Member>, m: Member, volume: Name -> Name)
    requires Delivered(before, members, volume) && MemberAdded(before, after, m, volume)
    ensures Delivered(after, members + [m], volume)
  {
    if m.filetype.RegularType? {
      FileDelivered(before, after, members, m, volume);
    } else {
      DirectoryDelivered(before, after, members, m, volume);
    }
  }

  /** What a member must be for the archive to be accepted. */
  ghost predicate Admitted(m: Member, limits: Limits) {
    && m.name.Some? && |m.name.value| <= Min(limits.maxPathBytes, 1024 * 1024)
    && DecodeUtf8(m.name.value).Some? && ValidPath(m.Relative(), limits)
    && !m.hardlink && !m.filetype.OtherType? && (m.filetype.DirectoryType? ==> m.skipsWell)
    && (m.filetype.RegularType? ==>
          && StripMarker(m.name.value) == m.name.value && m.readsEndWell
          && |Concat(m.chunks)| <= limits.maxSingleFileBytes && m.declaredSize <= limits.maxSingleFileBytes)
  }

  function Names(members: seq<Member>): (names: seq<Bytes>)
    ensures |names| == |members|
  {
    seq(|members|, i requires 0 <= i < |members| => members[i].Name())
  }

  /** A new file with the member's whole content, below folders that were made for it where missing. */
  ghost predicate FileAdded(before: Tree, after: Tree, m: Member, key: Path)
    requires key != []
  {
    && key in after && key !in before && after[key].File? && after[key].content == Concat(m.chunks)
    && AddsFolders(before, after - {key}, Chain(key, |key| - 1))
  }

  lemma ValidIsNotEmpty(p: Path, limits: Limits)
    requires ValidPath(p, limits)
    ensures p != []
  {
  }

  /** The recorded history was only added to. */
  ghost predicate Continues(before: seq<Tree>, after: seq<Tree>) {
    |before| <= |after| && after[..|before|] == before
  }

  lemma ContinuesTransitive(a: seq<Tree>, b: seq<Tree>, c: seq<Tree>)
    requires Continues(a, b) && Continues(b, c)
    ensures Continues(a, c)
  {
    assert c[..|b|][..|a|] == c[..|a|];
  }

  ghost predicate Keeps(before: Tree, after: Tree) {
    forall p | p in before :: p in after && after[p] == before[p]
  }

  lemma ExtendsItself(t: Tree)
    ensures Extends(t, t)
  {
  }

  lemma AddedIsSafe(t: Tree, p: Path, n: Node, limits: Limits)
    requires Safe(t, limits) && p !in t && p != [] && Parent(p) in t && t[Parent(p)].Directory?
    requires
      || (n.Directory? && Summary(t).directories <= limits.maxDirectories)
      || (n.File? && n.content == [] && Summary(t).files < limits.maxFiles)
    ensures
      var u := t[p := n];
      && Safe(u, limits) && Extends(t, u)
      && Summary(u).files == Summary(t).files + (if n.File? then 1 else 0)
      && Summary(u).directories == Summary(t).directories + (if n.Directory? then 1 else 0)
      && Summary(u).totalBytes == Summary(t).totalBytes
  {
    AddNode(t, p, n);
  }

  lemma GrownIsSafe(t: Tree, p: Path, data: Bytes, limits: Limits)
    requires Safe(t, limits) && p in t && t[p].File?
    requires |t[p].content| + |data| <= limits.maxSingleFileBytes
    requires Summary(t).totalBytes + |data| <= limits.maxTotalBytes
    ensures
      var u := t[p := Longer(t[p], data)];
      && Safe(u, limits) && Extends(t, u)
      && Summary(u) == Summary(t).(totalBytes := Summary(t).totalBytes + |data|)
  {
    GrowFile(t, p, data);
  }

  lemma NameIsPath(m: Member, limits: Limits)
    requires m.name.Some? && |m.name.value| < U64_MAX
    ensures ValidateMemberName(m.name.value, limits).Ok? <==> ValidPath(m.Relative(), limits)
  {
    MemberNameIsRelativePath(m.name.value, limits);
  }

  /* ----- When extraction succeeds ----- */

  ghost function RegularKeys(members: seq<Member>, volume: Name -> Name): set<Path> {
    set m | m in members && m.filetype.RegularType? :: KeyOf(m, volume)
  }

  /** The directories the members need: named ones and ancestors, each once. */
  ghost function FoldersOf(members: seq<Member>, volume: Name -> Name): set<Path> {
    Touched(members, volume) - {[]} - RegularKeys(members, volume)
  }

  ghost function TotalBytes(members: seq<Member>): nat {
    if members == [] then 0
    else
      var last := members[|members| - 1];
      TotalBytes(members[..|members| - 1]) + if last.filetype.RegularType? then |Concat(last.chunks)| else 0
  }

  /** `a` is not a file where `b` needs a directory or a file of its own. */
  ghost predicate ClashFree(a: Member, b: Member, volume: Name -> Name) {
    a.filetype.RegularType? ==> !IsPrefix(KeyOf(a, volume), KeyOf(b, volume))
  }

  ghost predicate NoClash(members: seq<Member>, volume: Name -> Name) {
    forall i, j | 0 <= i < |members| && 0 <= j < |members| && i != j :: ClashFree(members[i], members[j], volume)
  }

  /**
   Every member is admissible, none aliases another, no file is in the way of
   anything, and the totals fit. Nothing here depends on the order of the members.
   */
  ghost predicate Extractable(members: seq<Member>, limits: Limits, lower: Bytes -> Bytes, volume: Name -> Name) {
    && (forall m | m in members :: Admitted(m, limits))
    && Listing.Distinct(Names(members), Listing.AliasKey(lower))
    && NoClash(members, volume)
    && RegularCount(members) <= limits.maxFiles
    && |FoldersOf(members, volume)| <= limits.maxDirectories
    && TotalBytes(members) <= limits.maxTotalBytes
  }

  /** Two members whose names fold to the same, or a file whose place another member needs, are never extractable. */
  lemma CaseVariantsAreRefused(
    members: seq<Member>, limits: Limits, lower: Bytes -> Bytes, volume: Name -> Name, i: nat, j: nat)
    requires i < |members| && j < |members| && i != j
    requires
      var p, q := members[i].Relative(), members[j].Relative();
      || lower(Join(p, SLASH)) == lower(Join(q, SLASH))
      || (members[i].filetype.RegularType? && |p| <= |q| && forall k | 0 <= k < |p| :: volume(p[k]) == volume(q[k]))
    ensures !Extractable(members, limits, lower, volume)
  {
    hide Admitted, TotalBytes, RegularCount, FoldersOf;
    var p, q := members[i].Relative(), members[j].Relative();
    if lower(Join(p, SLASH)) == lower(Join(q, SLASH)) {
      Listing.AliasesExactly(lower, members[i].Name(), members[j].Name());
      assert Names(members)[i] == members[i].Name() && Names(members)[j] == members[j].Name();
    } else {
      SameKeyExactly(p, q[..|p|], volume);
      assert Key(q, volume)[..|p|] == Key(q[..|p|], volume);
      assert IsPrefix(KeyOf(members[i], volume), KeyOf(members[j], volume));
      assert !ClashFree(members[i], members[j], volume);
    }
  }

  lemma ChainIsPrefixes(k: Path, p: Path)
    ensures p in Chain(k, |k|) <==> IsPrefix(p, k)
  {
    if IsPrefix(p, k) {
      assert p == k[..|p|];
    }
  }

  lemma {:induction false} TouchedMeans(members: seq<Member>, volume: Name -> Name, p: Path)
    ensures p in Touched(members, volume) <==> p == [] || exists m | m in members :: IsPrefix(p, KeyOf(m, volume))
  {
    hide KeyOf, Chain;
    if members != [] {
      var front, last := members[..|members| - 1], members[|members| - 1];
      assert members == front + [last];
      TouchedMeans(front, volume, p);
      ChainIsPrefixes(KeyOf(last, volume), p);
    }
  }

  lemma KeyIsNotEmpty(m: Member, volume: Name -> Name)
    ensures KeyOf(m, volume) != []
  {
  }

  lemma RegularAreTouched(members: seq<Member>, volume: Name -> Name)
    ensures RegularKeys(members, volume) <= Touched(members, volume)
  {
    forall k | k in RegularKeys(members, volume) ensures k in Touched(members, volume) {
      var m :| m in members && KeyOf(m, volume) == k;
      assert IsPrefix(k, k);
      TouchedMeans(members, volume, k);
    }
  }

  lemma TotalsOneMore(members: seq<Member>, m: Member, volume: Name -> Name)
    ensures TotalBytes(members + [m]) == TotalBytes(members) + if m.filetype.RegularType? then |Concat(m.chunks)| else 0
    ensures RegularKeys(members + [m], volume)
            == RegularKeys(members, volume) + if m.filetype.RegularType? then {KeyOf(m, volume)} else {}
  {
    assert (members + [m])[..|members|] == members;
    assert forall x :: x in members + [m] <==> x in members || x == m;
  }

  lemma ClashOneMore(members: seq<Member>, m: Member, volume: Name -> Name)
    ensures NoClash(members + [m], volume) <==>
            NoClash(members, volume) && forall x | x in members :: ClashFree(x, m, volume) && ClashFree(m, x, volume)
  {
    hide ClashFree;
    var all := members + [m];
    if NoClash(all, volume) {
      forall i, j | 0 <= i < |members| && 0 <= j < |members| && i != j
        ensures ClashFree(members[i], members[j], volume) {
        assert all[i] == members[i] && all[j] == members[j];
      }
      forall x | x in members ensures ClashFree(x, m, volume) && ClashFree(m, x, volume) {
        var i :| 0 <= i < |members| && members[i] == x;
        assert all[i] == x && all[|members|] == m;
      }
    }
  }

  /** The directories one member adds to those of the members before it. */
  ghost function NewChain(m: Member, volume: Name -> Name): set<Path> {
    var k := KeyOf(m, volume);
    if m.filetype.RegularType? && k != [] then Chain(k, |k| - 1) else Chain(k, |k|)
  }

  lemma SetsOneMore<T>(
    touched: set<T>, files: set<T>, root: T, short: set<T>, k: T, isFile: bool, allTouched: set<T>, allFiles: set<T>)
    requires files <= touched && root in touched && k !in short && (isFile ==> k !in touched)
    requires allTouched == touched + (short + {k}) && allFiles == files + if isFile then {k} else {}
    ensures |allTouched - {root} - allFiles|
            == |touched - {root} - files| + |(if isFile then short else short + {k}) - touched|
  {
    var more := (if isFile then short else short + {k}) - touched;
    var before := touched - {root} - files;
    assert allTouched - {root} - allFiles == before + more;
    assert before !! more;
  }

  lemma FileIsNew(members: seq<Member>, m: Member, volume: Name -> Name)
    requires m.filetype.RegularType? && forall x | x in members :: ClashFree(m, x, volume)
    ensures KeyOf(m, volume) !in Touched(members, volume)
  {
    KeyIsNotEmpty(m, volume);
    TouchedMeans(members, volume, KeyOf(m, volume));
  }

  lemma FoldersOneMore(members: seq<Member>, m: Member, volume: Name -> Name)
    requires forall x | x in members :: ClashFree(m, x, volume)
    ensures |FoldersOf(members + [m], volume)|
            == |FoldersOf(members, volume)| + |NewChain(m, volume) - Touched(members, volume)|
  {
    var k := KeyOf(m, volume);
    KeyIsNotEmpty(m, volume);
    hide KeyOf, ClashFree, Touched, RegularKeys, Chain;
    if m.filetype.RegularType? {
      FileIsNew(members, m, volume);
    }
    MembersOneMore(members, m, volume);
    TotalsOneMore(members, m, volume);
    RegularAreTouched(members, volume);
    TouchedMeans(members, volume, []);
    FullChain(k);
    ChainIsLonger(k, |k| - 1);
    assert k[..|k|] == k;
    SetsOneMore(Touched(members, volume), RegularKeys(members, volume), [],
                Chain(k, |k| - 1), k, m.filetype.RegularType?,
                Touched(members + [m], volume), RegularKeys(members + [m], volume));
  }

  /** Dropping the last member drops no requirement's satisfaction. */
  lemma PrefixStaysExtractable(
    members: seq<Member>, m: Member, limits: Limits, lower: Bytes -> Bytes, volume: Name -> Name)
    requires Extractable(members + [m], limits, lower, volume)
    ensures Extractable(members, limits, lower, volume)
  {
    MembersOneMore(members, m, volume);
    TotalsOneMore(members, m, volume);
    ClashOneMore(members, m, volume);
    FoldersOneMore(members, m, volume);
    NamesOneMore(members, m, lower);
  }

  lemma NamesOneMore(members: seq<Member>, m: Member, lower: Bytes -> Bytes)
    ensures Listing.Distinct(Names(members + [m]), Listing.AliasKey(lower)) <==>
            && Listing.Distinct(Names(members), Listing.AliasKey(lower))
            && Listing.AliasKey(lower)(m.Name()) !in Listing.Keys(Names(members), Listing.AliasKey(lower))
    ensures Listing.Keys(Names(members + [m]), Listing.AliasKey(lower))
            == Listing.Keys(Names(members), Listing.AliasKey(lower)) + {Listing.AliasKey(lower)(m.Name())}
  {
    assert Names(members + [m]) == Names(members) + [m.Name()];
    Listing.DistinctOneMore(Names(members), m.Name(), Listing.AliasKey(lower));
  }

  lemma {:induction false} RejectedPrefix(
    members: seq<Member>, n: nat, limits: Limits, lower: Bytes -> Bytes, volume: Name -> Name)
    requires n <= |members| && !Extractable(members[..n], limits, lower, volume)
    ensures !Extractable(members, limits, lower, volume)
    decreases |members|
  {
    if n == |members| {
      assert members[..n] == members;
    } else {
      var front := members[..|members| - 1];
      assert front[..n] == members[..n] && members == front + [members[|members| - 1]];
      RejectedPrefix(front, n, limits, lower, volume);
      if Extractable(members, limits, lower, volume) {
        PrefixStaysExtractable(front, members[|members| - 1], limits, lower, volume);
      }
    }
  }

  /* ----- One member, judged by the disk ----- */

  /** No file is in the way of the chain, and the directories it still needs fit. */
  ghost predicate ChainFits(t: Tree, k: Path, n: nat, limits: Limits)
    requires n <= |k|
  {
    FoldersFit(t, Chain(k, n), limits)
  }

  ghost predicate NoFileIn(t: Tree, s: set<Path>) {
    forall p | p in s && p in t :: t[p].Directory?
  }

  ghost predicate FoldersFit(t: Tree, s: set<Path>, limits: Limits) {
    NoFileIn(t, s) && Summary(t).directories + |s - t.Keys| <= limits.maxDirectories
  }

  lemma FoldersFitAdd(t: Tree, s: set<Path>, p: Path, limits: Limits)
    requires p !in s
    ensures |(s + {p}) - t.Keys| == |s - t.Keys| + if p in t then 0 else 1
    ensures NoFileIn(t, s + {p}) <==> NoFileIn(t, s) && (p in t ==> t[p].Directory?)
    ensures FoldersFit(t, s, limits) ==>
              (FoldersFit(t, s + {p}, limits) <==>
                 if p in t then t[p].Directory? else Summary(t).directories + |s - t.Keys| + 1 <= limits.maxDirectories)
  {
    assert (s + {p}) - t.Keys == (s - t.Keys) + if p in t then {} else {p};
    hide SummaryOf;
  }

  lemma FoldersFitSubset(t: Tree, s: set<Path>, all: set<Path>, limits: Limits)
    requires s <= all && FoldersFit(t, all, limits)
    ensures FoldersFit(t, s, limits)
  {
    SubsetSize(s - t.Keys, all - t.Keys);
  }

  lemma ChainRoot(t: Tree, k: Path, limits: Limits)
    requires [] in t && t[[]].Directory? && Summary(t).directories <= limits.maxDirectories
    ensures Chain(k, 0) == {[]} && |Chain(k, 0) - t.Keys| == 0 && ChainFits(t, k, 0, limits)
  {
    assert k[..0] == [];
    assert Chain(k, 0) - t.Keys == {};
  }

  /** One more directory of the chain, judged on a disk that has the earlier ones already. */
  lemma ChainStep(before: Tree, t: Tree, k: Path, n: nat, directories: nat, limits: Limits)
    requires n < |k| && AddsFolders(before, t, Chain(k, n)) && ChainFits(before, k, n, limits)
    requires directories == Summary(before).directories + |Chain(k, n) - before.Keys|
    ensures
      var p := k[..n + 1];
      && |Chain(k, n + 1) - before.Keys| == |Chain(k, n) - before.Keys| + (if p in t then 0 else 1)
      && Chain(k, n + 1) == Chain(k, n) + {p}
      && Parent(p) == k[..n] && k[..n] in Chain(k, n)
      && var fits := if p in t then t[p].Directory? else directories + 1 <= limits.maxDirectories;
         && (fits ==> ChainFits(before, k, n + 1, limits))
         && (!fits ==> !ChainFits(before, k, |k|, limits))
  {
    var p := k[..n + 1];
    ChainOneMore(k, n);
    ChainIsLonger(k, n);
    hide Chain, SummaryOf;
    FoldersFitAdd(before, Chain(k, n), p, limits);
    hide FoldersFit;
    if ChainFits(before, k, |k|, limits) {
      FoldersFitSubset(before, Chain(k, n + 1), Chain(k, |k|), limits);
    }
  }

  lemma ChainIsLonger(k: Path, n: nat)
    requires n < |k|
    ensures k[..n + 1] !in Chain(k, n) && Chain(k, n + 1) <= Chain(k, |k|)
  {
    forall p | p in Chain(k, n) ensures |p| <= n {
    }
  }

  lemma ChainOfParentFits(t: Tree, k: Path, limits: Limits)
    requires k != []
    ensures ChainFits(t, Parent(k), |Parent(k)|, limits) <==> ChainFits(t, k, |k| - 1, limits)
    ensures k !in Chain(Parent(k), |Parent(k)|)
  {
    ChainOfParent(k);
  }

  /** There is a place for the member on the disk. */
  ghost predicate PlaceFits(t: Tree, m: Member, limits: Limits, volume: Name -> Name) {
    var k := KeyOf(m, volume);
    if m.filetype.RegularType? then k != [] && ChainFits(t, k, |k| - 1, limits) && k !in t
    else ChainFits(t, k, |k|, limits)
  }

  ghost predicate MemberFits(
    t: Tree, aliases: set<Bytes>, files: nat, totalBytes: nat, m: Member, limits: Limits, lower: Bytes -> Bytes,
    volume: Name -> Name)
  {
    && Admitted(m, limits) && Listing.AliasKey(lower)(m.Name()) !in aliases && PlaceFits(t, m, limits, volume)
    && (m.filetype.RegularType? ==>
          files + 1 <= limits.maxFiles && totalBytes + |Concat(m.chunks)| <= limits.maxTotalBytes)
  }

  ghost predicate NothingSpecial(t: Tree) {
    [] in t && t[[]].Directory? && forall p | p in t :: !t[p].Other?
  }

  lemma DeliveredFolders(t: Tree, members: seq<Member>, volume: Name -> Name)
    requires Delivered(t, members, volume) && NothingSpecial(t)
    ensures DirectoriesIn(t, Below(t)) == FoldersOf(members, volume)
    ensures forall p | p in t :: t[p].File? <==> p in RegularKeys(members, volume)
  {
    hide KeyOf, Touched, Concat;
  }

  lemma ClashOnDisk(t: Tree, members: seq<Member>, m: Member, volume: Name -> Name)
    requires Delivered(t, members, volume) && NothingSpecial(t)
    ensures
      var k := KeyOf(m, volume);
      && ((forall x | x in members :: ClashFree(x, m, volume)) <==> NoFileIn(t, Chain(k, |k|)))
      && (m.filetype.RegularType? ==> ((forall x | x in members :: ClashFree(m, x, volume)) <==> k !in t))
  {
    var k := KeyOf(m, volume);
    KeyIsNotEmpty(m, volume);
    DeliveredFolders(t, members, volume);
    TouchedMeans(members, volume, k);
    hide KeyOf, Chain, Touched, NothingSpecial;
    forall p ensures p in Chain(k, |k|) <==> IsPrefix(p, k) {
      ChainIsPrefixes(k, p);
    }
    if x :| x in members && !ClashFree(x, m, volume) {
      assert KeyOf(x, volume) in RegularKeys(members, volume);
      assert KeyOf(x, volume) in Chain(k, |k|) && KeyOf(x, volume) in t;
    }
    if p :| p in Chain(k, |k|) && p in t && !t[p].Directory? {
      assert t[p].File? by { OnlyTwoKinds(t, p); }
      var x :| x in members && x.filetype.RegularType? && KeyOf(x, volume) == p;
      assert !ClashFree(x, m, volume);
    }
  }

  lemma OnlyTwoKinds(t: Tree, p: Path)
    requires NothingSpecial(t) && p in t
    ensures t[p].File? || t[p].Directory?
  {
  }

  lemma PlaceDecides(t: Tree, members: seq<Member>, m: Member, limits: Limits, volume: Name -> Name)
    requires Delivered(t, members, volume) && NothingSpecial(t)
    ensures PlaceFits(t, m, limits, volume) <==>
            && (forall x | x in members :: ClashFree(x, m, volume) && ClashFree(m, x, volume))
            && |FoldersOf(members + [m], volume)| <= limits.maxDirectories
  {
    var k := KeyOf(m, volume);
    KeyIsNotEmpty(m, volume);
    ClashOnDisk(t, members, m, volume);
    DeliveredFolders(t, members, volume);
    FullChain(k);
    ChainIsLonger(k, |k| - 1);
    assert k[..|k|] == k;
    FoldersFitAdd(t, Chain(k, |k| - 1), k, limits);
    if forall x | x in members :: ClashFree(m, x, volume) {
      FoldersOneMore(members, m, volume);
    }
    hide KeyOf, Chain, FoldersOf, NothingSpecial, TotalSize, NoFileIn, ClashFree, FilesIn, DirectoriesIn;
    if !m.filetype.RegularType? {
      DirectoriesNeverClash(members, m, volume);
    }
  }

  lemma DirectoriesNeverClash(members: seq<Member>, m: Member, volume: Name -> Name)
    requires !m.filetype.RegularType?
    ensures forall x | x in members :: ClashFree(m, x, volume)
  {
  }

  /** The disk decides about the next member exactly as the whole list of members does. */
  lemma MemberDecides(
    t: Tree, aliases: set<Bytes>, members: seq<Member>, m: Member, limits: Limits, lower: Bytes -> Bytes,
    volume: Name -> Name)
    requires Delivered(t, members, volume) && NothingSpecial(t) && Extractable(members, limits, lower, volume)
    requires aliases == Listing.Keys(Names(members), Listing.AliasKey(lower))
    ensures MemberFits(t, aliases, RegularCount(members), TotalBytes(members), m, limits, lower, volume)
            <==> Extractable(members + [m], limits, lower, volume)
  {
    MembersOneMore(members, m, volume);
    TotalsOneMore(members, m, volume);
    NamesOneMore(members, m, lower);
    ClashOneMore(members, m, volume);
    PlaceDecides(t, members, m, limits, volume);
    hide Admitted, PlaceFits, FoldersOf, NoClash, ClashFree, Names, Listing.Distinct,
      RegularCount, TotalBytes, Delivered;
  }

  lemma FullChain(k: Path)
    requires k != []
    ensures Chain(k, |k|) == Chain(k, |k| - 1) + {k}
  {
    ChainOneMore(k, |k| - 1);
    assert k[..|k|] == k;
  }
}
