/**
 Three independent walks over the same tree: the extraction audit
 (`src/policy.rs`), the enumeration that feeds the pax writer (`src/pax.rs`) and
 the resource monitor (`src/monitor.rs`). Each is proved to accept on exactly
 the same final figures, whatever order the system lists directories in.
 */
module Walks {
  import opened Base
  import opened Paths
  import opened Policy
  import opened Trees
  import PaxFormat

  /* ----- Hard links and duplicate identities ----- */

  ghost predicate DistinctIdentities(t: Tree, s: set<Path>)
    requires s <= t.Keys
  {
    forall p, q | p in s && q in s && t[p].File? && t[q].File? && t[p].identity == t[q].identity :: p == q
  }

  ghost function Identities(t: Tree, s: set<Path>): set<nat>
    requires s <= t.Keys
  {
    set p | p in s && t[p].File? :: t[p].identity
  }

  lemma IdentityAdd(t: Tree, s: set<Path>, p: Path)
    requires s <= t.Keys && p in t && p !in s
    ensures t[p].File? ==>
              (DistinctIdentities(t, s + {p}) <==> DistinctIdentities(t, s) && t[p].identity !in Identities(t, s))
    ensures !t[p].File? ==> (DistinctIdentities(t, s + {p}) <==> DistinctIdentities(t, s))
    ensures Identities(t, s + {p}) == Identities(t, s) + if t[p].File? then {t[p].identity} else {}
  {
    var all := s + {p};
    if t[p].File? && t[p].identity in Identities(t, s) {
      var q :| q in s && t[q].File? && t[q].identity == t[p].identity;
      assert p in all && q in all;
    }
    if DistinctIdentities(t, all) {
      assert forall q | q in s :: q in all;
    }
  }

  /* ----- The extraction audit ----- */

  ghost predicate AuditOn(t: Tree, s: set<Path>, limits: Limits)
    requires s <= t.Keys
  {
    AcceptableOn(t, s, limits) && DistinctIdentities(t, s)
  }

  lemma AuditSubset(t: Tree, s: set<Path>, all: set<Path>, limits: Limits)
    requires s <= all <= t.Keys && AuditOn(t, all, limits)
    ensures AuditOn(t, s, limits)
  {
    AcceptableSubset(t, s, all, limits);
  }

  lemma AcceptableAdd(t: Tree, s: set<Path>, p: Path, limits: Limits)
    requires s <= t.Keys && p in t && p !in s && AcceptableOn(t, s, limits)
    ensures AcceptableOn(t, s + {p}, limits)
            <==> EntryAcceptable(t, p, limits) && WithinLimits(SummaryOf(t, s + {p}), limits)
  {
  }

  /** Checks one entry in the order the source does; fails exactly when the enlarged set is unacceptable. */
  method AuditEntry(t: Tree, p: Path, limits: Limits, summary: AuditSummary, identities: set<nat>, ghost s: set<Path>)
    returns (r: Outcome<AuditSummary>)
    requires s <= t.Keys && p in t && p !in s && AuditOn(t, s, limits)
    requires summary == SummaryOf(t, s) && identities == Identities(t, s)
    ensures r.Ok? <==> AuditOn(t, s + {p}, limits)
    ensures r.Ok? ==> r.value == SummaryOf(t, s + {p})
  {
    SummaryAdd(t, s, p);
    AcceptableAdd(t, s, p, limits);
    IdentityAdd(t, s, p);
    hide SummaryOf, AcceptableOn, ValidPath;
    var valid := ValidateRelativePath(p, limits);
    if valid.Err? || t[p].Other? {
      return Err(Policy);
    }
    if t[p].Directory? {
      var directories := CheckedAdd(summary.directories, 1);
      if directories.Err? || directories.value > limits.maxDirectories {
        return Err(Policy);
      }
      return Ok(summary.(directories := directories.value));
    }
    var files := CheckedAdd(summary.files, 1);
    if files.Err? || files.value > limits.maxFiles {
      return Err(Policy);
    }
    var size := |t[p].content|;
    if size > limits.maxSingleFileBytes {
      return Err(Policy);
    }
    var total := CheckedAdd(summary.totalBytes, size);
    if total.Err? || total.value > limits.maxTotalBytes {
      return Err(Policy);
    }
    if t[p].identity in identities {
      return Err(Policy);
    }
    r := Ok(AuditSummary(files.value, summary.directories, total.value));
  }

  /** The body of the walk for one directory: its entries in the order they were listed. */
  method AuditDirectory(
    t: Tree, names: seq<Path>, limits: Limits, summary: AuditSummary, identities: set<nat>, ghost s: set<Path>)
    returns (r: Outcome<AuditSummary>, pushed: seq<Path>, seen: set<nat>)
    requires s <= t.Keys && NoDuplicates(names) && forall p | p in names :: p in t && p !in s
    requires AuditOn(t, s, limits) && summary == SummaryOf(t, s) && identities == Identities(t, s)
    ensures Elements(names) <= t.Keys
    ensures r.Ok? <==> AuditOn(t, s + Elements(names), limits)
    ensures r.Ok? ==> r.value == SummaryOf(t, s + Elements(names)) && seen == Identities(t, s + Elements(names))
    ensures r.Ok? ==> Pushed(t, names, pushed)
  {
    hide AuditOn, SummaryOf, Identities, Pushed;
    r, pushed, seen := Ok(summary), [], identities;
    PushStart(t);
    ghost var got := s;
    assert s + Elements([]) == s;
    for i := 0 to |names|
      invariant got == s + Elements(names[..i]) <= t.Keys
      invariant AuditOn(t, got, limits)
      invariant r.Ok? && r.value == SummaryOf(t, got) && seen == Identities(t, got)
      invariant Pushed(t, names[..i], pushed)
    {
      var p := names[i];
      PushStep(t, names, i, pushed);
      IdentityAdd(t, got, p);
      r := AuditEntry(t, p, limits, r.value, seen, got);
      if r.Err? {
        if AuditOn(t, s + Elements(names), limits) {
          AuditSubset(t, got + {p}, s + Elements(names), limits);
        }
        return;
      }
      got := got + {p};
      if t[p].Directory? {
        pushed := pushed + [p];
      } else if t[p].File? {
        seen := seen + {t[p].identity};
      }
    }
    assert names[..|names|] == names;
  }

  /**
   Accepts exactly the acceptable trees without duplicate identities. The depth
   test on popped directories and the overflow tests never decide anything: the
   path, count and size limits already have.
   */
  method AuditTree(t: Tree, limits: Limits) returns (r: Outcome<AuditSummary>)
    requires WellFormed(t)
    ensures r.Ok? <==>
            && AuditOn(t, Below(t), limits)
            && WithinCap(t, SaturatingAdd(limits.maxFiles, limits.maxDirectories))
    ensures r.Ok? ==> r.value == Summary(t)
  {
    hide AuditOn, SummaryOf, Identities, DepthsOf, WalkInv, Pushed, SeenFrom, Children, WellFormed, Elements;
    var maxEntries := SaturatingAdd(limits.maxFiles, limits.maxDirectories);
    var summary := AuditSummary(0, 0, 0);
    var stack: seq<Path> := [[]];
    var depths: seq<nat> := [0];
    DepthsStart();
    var identities: set<nat> := {};
    ghost var done: set<Path> := {};
    WalkStart(t);
    AuditStart(t, limits);
    while stack != []
      invariant WalkInv(t, done, stack) && SeenFrom(t, done) <= t.Keys && AuditOn(t, SeenFrom(t, done), limits)
      invariant summary == SummaryOf(t, SeenFrom(t, done)) && identities == Identities(t, SeenFrom(t, done))
      invariant DepthsOf(stack, depths)
      invariant forall d | d in done :: |Children(t, d)| <= maxEntries
      decreases t.Keys - done
    {
      DepthsTop(stack, depths);
      WalkDirectories(t, done, stack);
      var directory, depth := stack[|stack| - 1], depths[|stack| - 1];
      DepthIsImplied(t, SeenFrom(t, done), directory, limits);
      if depth > limits.maxDepth {
        return Err(Policy);
      }
      var names := Entries(t, directory, maxEntries);
      if names.Err? {
        return Err(Policy);
      }
      WalkChildren(t, done, stack, names.value);
      var step, pushed, seen :=
        AuditDirectory(t, names.value, limits, summary, identities, SeenFrom(t, done));
      if step.Err? {
        if AuditOn(t, Below(t), limits) {
          AuditSubset(t, SeenFrom(t, done) + Elements(names.value), Below(t), limits);
        }
        return Err(Policy);
      }
      WalkExpand(t, done, stack, names.value, pushed);
      DepthsPush(t, stack, depths, names.value, pushed);
      summary, identities := step.value, seen;
      depths := depths[..|stack| - 1] + SameDepth(|pushed|, depth + 1);
      stack := stack[..|stack| - 1] + pushed;
      done := done + {directory};
    }
    WalkEnd(t, done);
    r := Ok(summary);
  }

  lemma AuditStart(t: Tree, limits: Limits)
    ensures AuditOn(t, {}, limits) && SummaryOf(t, {}) == AuditSummary(0, 0, 0) && Identities(t, {}) == {}
  {
    assert FilesIn(t, {}) == {} && DirectoriesIn(t, {}) == {};
  }

  /** A directory that was met has a validated path, so it is never too deep. */
  lemma DepthIsImplied(t: Tree, s: set<Path>, d: Path, limits: Limits)
    requires s <= t.Keys && AuditOn(t, s, limits) && (d == [] || d in s)
    ensures |d| <= limits.maxDepth
  {
    if d != [] {
      assert EntryAcceptable(t, d, limits);
    }
  }

  /* ----- Shared steps ----- */

  /** The depth the source stacks beside each directory is the length of its path. */
  ghost predicate DepthsOf(stack: seq<Path>, depths: seq<nat>) {
    |depths| == |stack| && forall i | 0 <= i < |stack| :: depths[i] == |stack[i]|
  }

  function SameDepth(n: nat, depth: nat): (s: seq<nat>)
    ensures |s| == n && forall i | 0 <= i < n :: s[i] == depth
  {
    seq(n, _ => depth)
  }

  lemma DepthsStart()
    ensures DepthsOf([[]], [0])
  {
  }

  lemma DepthsTop(stack: seq<Path>, depths: seq<nat>)
    requires stack != [] && DepthsOf(stack, depths)
    ensures |depths| == |stack| && depths[|stack| - 1] == |stack[|stack| - 1]|
  {
  }

  lemma DepthsPush(t: Tree, stack: seq<Path>, depths: seq<nat>, names: seq<Path>, pushed: seq<Path>)
    requires stack != [] && DepthsOf(stack, depths)
    requires Elements(names) == Children(t, stack[|stack| - 1]) && Pushed(t, names, pushed)
    ensures
      var top := |stack| - 1;
      DepthsOf(stack[..top] + pushed, depths[..top] + SameDepth(|pushed|, depths[top] + 1))
  {
    forall i | 0 <= i < |pushed| ensures |pushed[i]| == |stack[|stack| - 1]| + 1 {
      assert pushed[i] in pushed;
    }
  }

  /* ----- The enumeration behind the pax writer ----- */

  function KindOf(n: Node): PaxFormat.Kind {
    if n.Directory? then PaxFormat.Directory else PaxFormat.File
  }

  /** The `BTreeMap` being built: its keys in order, and the kind stored under each. */
  datatype Listing = Listing(order: seq<Path>, kinds: map<Path, PaxFormat.Kind>)

  ghost predicate Lists(listing: Listing, t: Tree, s: set<Path>)
    requires s <= t.Keys
  {
    && Sorted(listing.order) && Elements(listing.order) == s
    && listing.kinds == map p | p in s :: KindOf(t[p])
  }

  lemma ListsAdd(listing: Listing, t: Tree, s: set<Path>, p: Path)
    requires s <= t.Keys && p in t && p !in s && Lists(listing, t, s)
    ensures p !in listing.kinds
    ensures Lists(Listing(InsertSorted(listing.order, p), listing.kinds[p := KindOf(t[p])]), t, s + {p})
  {
    hide InsertSorted, Sorted;
    assert p !in Elements(listing.order);
    InsertKeepsSorted(listing.order, p);
    InsertElements(listing.order, p);
    assert forall x :: x in listing.order <==> x in Elements(listing.order);
    assert Elements(InsertSorted(listing.order, p)) == s + {p};
  }

  method EnumerateEntry(t: Tree, p: Path, limits: Limits, summary: AuditSummary, ghost s: set<Path>)
    returns (r: Outcome<AuditSummary>)
    requires s <= t.Keys && p in t && p !in s && AcceptableOn(t, s, limits)
    requires summary == SummaryOf(t, s)
    ensures r.Ok? <==> AcceptableOn(t, s + {p}, limits)
    ensures r.Ok? ==> r.value == SummaryOf(t, s + {p})
  {
    SummaryAdd(t, s, p);
    AcceptableAdd(t, s, p, limits);
    hide SummaryOf, AcceptableOn, ValidPath;
    var valid := ValidateRelativePath(p, limits);
    if valid.Err? {
      return Err(Policy);
    }
    match t[p] {
      case Directory(_) =>
        var directories := CheckedAdd(summary.directories, 1);
        if directories.Err? || directories.value > limits.maxDirectories {
          return Err(Policy);
        }
        r := Ok(summary.(directories := directories.value));
      case File(content, _, _, _) =>
        var files := CheckedAdd(summary.files, 1);
        if files.Err? || files.value > limits.maxFiles || |content| > limits.maxSingleFileBytes {
          return Err(Policy);
        }
        var total := CheckedAdd(summary.totalBytes, |content|);
        if total.Err? || total.value > limits.maxTotalBytes {
          return Err(Policy);
        }
        r := Ok(AuditSummary(files.value, summary.directories, total.value));
      case Other =>
        r := Err(Policy);
    }
  }

  method EnumerateDirectory(
    t: Tree, names: seq<Path>, limits: Limits, summary: AuditSummary, listing: Listing, ghost s: set<Path>)
    returns (r: Outcome<AuditSummary>, pushed: seq<Path>, listed: Listing)
    requires s <= t.Keys && NoDuplicates(names) && forall p | p in names :: p in t && p !in s
    requires AcceptableOn(t, s, limits) && summary == SummaryOf(t, s) && Lists(listing, t, s)
    ensures Elements(names) <= t.Keys
    ensures r.Ok? <==> AcceptableOn(t, s + Elements(names), limits)
    ensures r.Ok? ==> r.value == SummaryOf(t, s + Elements(names)) && Lists(listed, t, s + Elements(names))
    ensures r.Ok? ==> Pushed(t, names, pushed)
  {
    hide AcceptableOn, SummaryOf, Lists, Pushed;
    r, pushed, listed := Ok(summary), [], listing;
    PushStart(t);
    ghost var got := s;
    assert s + Elements([]) == s;
    for i := 0 to |names|
      invariant got == s + Elements(names[..i]) <= t.Keys
      invariant AcceptableOn(t, got, limits) && Lists(listed, t, got)
      invariant r.Ok? && r.value == SummaryOf(t, got)
      invariant Pushed(t, names[..i], pushed)
    {
      var p := names[i];
      PushStep(t, names, i, pushed);
      ListsAdd(listed, t, got, p);
      r := EnumerateEntry(t, p, limits, r.value, got);
      if r.Err? {
        if AcceptableOn(t, s + Elements(names), limits) {
          AcceptableSubset(t, got + {p}, s + Elements(names), limits);
        }
        return;
      }
      if p in listed.kinds {
        return Err(Policy), pushed, listed;
      }
      listed := Listing(InsertSorted(listed.order, p), listed.kinds[p := KindOf(t[p])]);
      got := got + {p};
      if t[p].Directory? {
        pushed := pushed + [p];
      }
    }
    assert names[..|names|] == names;
  }

  /** Accepts exactly the acceptable trees and lists them in path order. */
  method EnumerateTree(t: Tree, limits: Limits) returns (r: Outcome<Listing>)
    requires WellFormed(t)
    ensures r.Ok? <==> Acceptable(t, limits) && limits.maxFiles + limits.maxDirectories <= U64_MAX
    ensures r.Ok? ==> Lists(r.value, t, Below(t))
  {
    hide AcceptableOn, SummaryOf, Lists, WalkInv, Pushed, SeenFrom, Children, WellFormed, Elements;
    var maxEntries := CheckedAdd(limits.maxFiles, limits.maxDirectories);
    if maxEntries.Err? {
      return Err(Config);
    }
    var summary := AuditSummary(0, 0, 0);
    var listing := Listing([], map[]);
    var stack: seq<Path> := [[]];
    ghost var done: set<Path> := {};
    WalkStart(t);
    EnumerateStart(t, limits);
    if Acceptable(t, limits) {
      CapIsImplied(t, limits);
    }
    while stack != []
      invariant WalkInv(t, done, stack) && SeenFrom(t, done) <= t.Keys
      invariant AcceptableOn(t, SeenFrom(t, done), limits) && Lists(listing, t, SeenFrom(t, done))
      invariant summary == SummaryOf(t, SeenFrom(t, done))
      decreases t.Keys - done
    {
      WalkDirectories(t, done, stack);
      var directory := stack[|stack| - 1];
      var names := Entries(t, directory, maxEntries.value);
      if names.Err? {
        return Err(Policy);
      }
      WalkChildren(t, done, stack, names.value);
      var step, pushed, listed := EnumerateDirectory(t, names.value, limits, summary, listing, SeenFrom(t, done));
      if step.Err? {
        if Acceptable(t, limits) {
          AcceptableSubset(t, SeenFrom(t, done) + Elements(names.value), Below(t), limits);
        }
        return Err(Policy);
      }
      WalkExpand(t, done, stack, names.value, pushed);
      summary, listing := step.value, listed;
      stack := stack[..|stack| - 1] + pushed;
      done := done + {directory};
    }
    WalkEnd(t, done);
    r := Ok(listing);
  }

  lemma EnumerateStart(t: Tree, limits: Limits)
    ensures AcceptableOn(t, {}, limits) && SummaryOf(t, {}) == AuditSummary(0, 0, 0)
    ensures Lists(Listing([], map[]), t, {})
  {
    assert FilesIn(t, {}) == {} && DirectoriesIn(t, {}) == {};
  }

  /* ----- The resource monitor ----- */

  ghost predicate MonitoredOn(t: Tree, s: set<Path>, limits: Limits)
    requires s <= t.Keys
  {
    && (forall p | p in s :: !t[p].Other? && (t[p].File? ==> |t[p].content| <= limits.maxSingleFileBytes))
    && WithinLimits(SummaryOf(t, s), limits)
  }

  lemma MonitoredSubset(t: Tree, s: set<Path>, all: set<Path>, limits: Limits)
    requires s <= all <= t.Keys && MonitoredOn(t, all, limits)
    ensures MonitoredOn(t, s, limits)
  {
    TotalSizeMonotone(t, s, all);
    SubsetSize(FilesIn(t, s), FilesIn(t, all));
    SubsetSize(DirectoriesIn(t, s), DirectoriesIn(t, all));
  }

  /** The monitor and the audits differ only in the names: same sizes, same counts. */
  lemma MonitorAgrees(t: Tree, limits: Limits)
    ensures Acceptable(t, limits) <==>
            MonitoredOn(t, Below(t), limits) && forall p | p in Below(t) :: ValidPath(p, limits)
  {
  }

  /**
   The conditions under which the four walks succeed, side by side. On a tree
   without hard links, with limits whose sum does not overflow, they are one
   condition: the per-directory cap, the depth test and the overflow tests reject
   nothing of their own.
   */
  lemma WalksAgree(t: Tree, limits: Limits)
    requires WellFormed(t) && DistinctIdentities(t, Below(t))
    requires limits.maxFiles + limits.maxDirectories <= U64_MAX
    ensures
      var audit := AuditOn(t, Below(t), limits) && WithinCap(t, SaturatingAdd(limits.maxFiles, limits.maxDirectories));
      var fingerprint := Acceptable(t, limits) && WithinCap(t, SaturatingAdd(limits.maxFiles, limits.maxDirectories));
      var enumerate := Acceptable(t, limits) && limits.maxFiles + limits.maxDirectories <= U64_MAX;
      var monitor := MonitoredOn(t, Below(t), limits) && forall p | p in Below(t) :: ValidPath(p, limits);
      audit == fingerprint == enumerate == monitor == Acceptable(t, limits)
  {
    MonitorAgrees(t, limits);
    if Acceptable(t, limits) {
      CapIsImplied(t, limits);
    }
  }

  method MonitorEntry(t: Tree, p: Path, limits: Limits, summary: AuditSummary, ghost s: set<Path>)
    returns (r: Outcome<AuditSummary>)
    requires s <= t.Keys && p in t && p !in s && MonitoredOn(t, s, limits)
    requires summary == SummaryOf(t, s)
    ensures r.Ok? <==> MonitoredOn(t, s + {p}, limits)
    ensures r.Ok? ==> r.value == SummaryOf(t, s + {p})
  {
    SummaryAdd(t, s, p);
    MonitoredAdd(t, s, p, limits);
    hide SummaryOf, MonitoredOn;
    if t[p].Other? {
      return Err(Policy);
    }
    if t[p].Directory? {
      var directories := CheckedAdd(summary.directories, 1);
      if directories.Err? || directories.value > limits.maxDirectories {
        return Err(Policy);
      }
      return Ok(summary.(directories := directories.value));
    }
    var files := CheckedAdd(summary.files, 1);
    if files.Err? || files.value > limits.maxFiles || |t[p].content| > limits.maxSingleFileBytes {
      return Err(Policy);
    }
    var total := CheckedAdd(summary.totalBytes, |t[p].content|);
    if total.Err? || total.value > limits.maxTotalBytes {
      return Err(Policy);
    }
    r := Ok(AuditSummary(files.value, summary.directories, total.value));
  }

  lemma MonitoredAdd(t: Tree, s: set<Path>, p: Path, limits: Limits)
    requires s <= t.Keys && p in t && p !in s && MonitoredOn(t, s, limits)
    ensures MonitoredOn(t, s + {p}, limits)
            <==> && !t[p].Other? && (t[p].File? ==> |t[p].content| <= limits.maxSingleFileBytes)
                 && WithinLimits(SummaryOf(t, s + {p}), limits)
  {
  }

  method MonitorDirectory(t: Tree, names: seq<Path>, limits: Limits, summary: AuditSummary, ghost s: set<Path>)
    returns (r: Outcome<AuditSummary>, pushed: seq<Path>)
    requires s <= t.Keys && NoDuplicates(names) && forall p | p in names :: p in t && p !in s
    requires MonitoredOn(t, s, limits) && summary == SummaryOf(t, s)
    ensures Elements(names) <= t.Keys
    ensures r.Ok? <==> MonitoredOn(t, s + Elements(names), limits)
    ensures r.Ok? ==> r.value == SummaryOf(t, s + Elements(names)) && Pushed(t, names, pushed)
  {
    hide MonitoredOn, SummaryOf, Pushed;
    r, pushed := Ok(summary), [];
    PushStart(t);
    ghost var got := s;
    assert s + Elements([]) == s;
    for i := 0 to |names|
      invariant got == s + Elements(names[..i]) <= t.Keys
      invariant MonitoredOn(t, got, limits)
      invariant r.Ok? && r.value == SummaryOf(t, got)
      invariant Pushed(t, names[..i], pushed)
    {
      var p := names[i];
      PushStep(t, names, i, pushed);
      r := MonitorEntry(t, p, limits, r.value, got);
      if r.Err? {
        if MonitoredOn(t, s + Elements(names), limits) {
          MonitoredSubset(t, got + {p}, s + Elements(names), limits);
        }
        return;
      }
      got := got + {p};
      if t[p].Directory? {
        pushed := pushed + [p];
      }
    }
    assert names[..|names|] == names;
  }

  /** On a tree that holds still the monitor stops the backend exactly when a figure is exceeded. */
  method CheckResourceLimits(root: Option<Tree>, limits: Limits) returns (r: Outcome<Unit>)
    requires root.Some? ==> WellFormed(root.value)
    ensures r.Ok? <==> root.None? || MonitoredOn(root.value, Below(root.value), limits)
  {
    hide MonitoredOn, SummaryOf, WalkInv, Pushed, SeenFrom, Children, WellFormed, Elements;
    if root.None? {
      return Ok(Unit);
    }
    var t := root.value;
    var summary := AuditSummary(0, 0, 0);
    var stack: seq<Path> := [[]];
    ghost var done: set<Path> := {};
    WalkStart(t);
    MonitorStart(t, limits);
    while stack != []
      invariant WalkInv(t, done, stack) && SeenFrom(t, done) <= t.Keys
      invariant MonitoredOn(t, SeenFrom(t, done), limits) && summary == SummaryOf(t, SeenFrom(t, done))
      decreases t.Keys - done
    {
      WalkDirectories(t, done, stack);
      var directory := stack[|stack| - 1];
      var names := ReadDir(t, directory);
      WalkChildren(t, done, stack, names);
      var step, pushed := MonitorDirectory(t, names, limits, summary, SeenFrom(t, done));
      if step.Err? {
        if MonitoredOn(t, Below(t), limits) {
          MonitoredSubset(t, SeenFrom(t, done) + Elements(names), Below(t), limits);
        }
        return Err(Policy);
      }
      WalkExpand(t, done, stack, names, pushed);
      summary := step.value;
      stack := stack[..|stack| - 1] + pushed;
      done := done + {directory};
    }
    WalkEnd(t, done);
    r := Ok(Unit);
  }

  lemma MonitorStart(t: Tree, limits: Limits)
    ensures MonitoredOn(t, {}, limits) && SummaryOf(t, {}) == AuditSummary(0, 0, 0)
  {
    assert FilesIn(t, {}) == {} && DirectoriesIn(t, {}) == {};
  }
}
