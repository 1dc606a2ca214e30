/**
 A directory tree as the audits see it, and the bookkeeping every worklist walk
 over it shares: which directories have been expanded, which are still stacked.
 */
module Trees {
  import opened Base
  import opened Paths
  import opened Policy

  /** `Other` is anything the platform checks refuse: links, special files, streams. */
  datatype Node =
    | File(content: Bytes, identity: nat, modified: nat, created: nat)
    | Directory(identity: nat)
    | Other

  /** The same kind, and for files the same content; identities and timestamps are free. */
  ghost predicate SameNode(a: Node, b: Node) {
    (a.Directory? && b.Directory?) || (a.File? && b.File? && a.content == b.content)
  }

  /** Paths relative to the root, which is the empty path. */
  type Tree = map<Path, Node>

  predicate WellFormed(t: Tree) {
    && [] in t && t[[]].Directory?
    && forall p | p in t && p != [] :: Parent(p) in t && t[Parent(p)].Directory?
  }

  ghost function Below(t: Tree): set<Path> {
    t.Keys - {[]}
  }

  ghost function Children(t: Tree, dir: Path): set<Path> {
    set p | p in t && p != [] && Parent(p) == dir
  }

  /* ----- Totals ----- */

  ghost function FilesIn(t: Tree, s: set<Path>): set<Path> {
    set p | p in s && p in t && t[p].File?
  }

  ghost function DirectoriesIn(t: Tree, s: set<Path>): set<Path> {
    set p | p in s && p in t && t[p].Directory?
  }

  ghost function SizeAt(t: Tree, p: Path): nat {
    if p in t && t[p].File? then |t[p].content| else 0
  }

  ghost function TotalSize(t: Tree, s: set<Path>): nat {
    if s == {} then 0
    else
      var p :| p in s;
      SizeAt(t, p) + TotalSize(t, s - {p})
  }

  lemma {:induction false} TotalSizeRemove(t: Tree, s: set<Path>, p: Path)
    requires p in s
    ensures TotalSize(t, s) == SizeAt(t, p) + TotalSize(t, s - {p})
    decreases |s|
  {
    var q :| q in s && TotalSize(t, s) == SizeAt(t, q) + TotalSize(t, s - {q});
    if q != p {
      TotalSizeRemove(t, s - {q}, p);
      TotalSizeRemove(t, s - {p}, q);
      assert s - {q} - {p} == s - {p} - {q};
    }
  }

  lemma TotalSizeAdd(t: Tree, s: set<Path>, p: Path)
    requires p !in s
    ensures TotalSize(t, s + {p}) == TotalSize(t, s) + SizeAt(t, p)
  {
    TotalSizeRemove(t, s + {p}, p);
    assert s + {p} - {p} == s;
  }

  lemma {:induction false} TotalSizeMonotone(t: Tree, s: set<Path>, all: set<Path>)
    requires s <= all
    ensures TotalSize(t, s) <= TotalSize(t, all)
    decreases |all|
  {
    if all <= s {
      assert s == all;
    } else {
      var p :| p in all && p !in s;
      TotalSizeRemove(t, all, p);
      TotalSizeMonotone(t, s, all - {p});
    }
  }

  ghost function SummaryOf(t: Tree, s: set<Path>): AuditSummary {
    AuditSummary(|FilesIn(t, s)|, |DirectoriesIn(t, s)|, TotalSize(t, s))
  }

  ghost function Summary(t: Tree): AuditSummary {
    SummaryOf(t, Below(t))
  }

  lemma SummaryAdd(t: Tree, s: set<Path>, p: Path)
    requires p !in s && p in t
    ensures SummaryOf(t, s + {p}) == AuditSummary(
      SummaryOf(t, s).files + if t[p].File? then 1 else 0,
      SummaryOf(t, s).directories + if t[p].Directory? then 1 else 0,
      SummaryOf(t, s).totalBytes + SizeAt(t, p))
  {
    TotalSizeAdd(t, s, p);
    hide TotalSize;
    FilesAdd(t, s, p);
    DirectoriesAdd(t, s, p);
  }

  lemma FilesAdd(t: Tree, s: set<Path>, p: Path)
    requires p !in s && p in t
    ensures FilesIn(t, s + {p}) == if t[p].File? then FilesIn(t, s) + {p} else FilesIn(t, s)
    ensures p !in FilesIn(t, s)
  {
  }

  lemma DirectoriesAdd(t: Tree, s: set<Path>, p: Path)
    requires p !in s && p in t
    ensures DirectoriesIn(t, s + {p}) == if t[p].Directory? then DirectoriesIn(t, s) + {p} else DirectoriesIn(t, s)
    ensures p !in DirectoriesIn(t, s)
  {
  }

  /* ----- What an audit accepts ----- */

  ghost predicate EntryAcceptable(t: Tree, p: Path, limits: Limits)
    requires p in t
  {
    && ValidPath(p, limits)
    && !t[p].Other?
    && (t[p].File? ==> |t[p].content| <= limits.maxSingleFileBytes)
  }

  ghost predicate WithinLimits(summary: AuditSummary, limits: Limits) {
    && summary.files <= limits.maxFiles
    && summary.directories <= limits.maxDirectories
    && summary.totalBytes <= limits.maxTotalBytes
  }

  ghost predicate AcceptableOn(t: Tree, s: set<Path>, limits: Limits)
    requires s <= t.Keys
  {
    && (forall p | p in s :: EntryAcceptable(t, p, limits))
    && WithinLimits(SummaryOf(t, s), limits)
  }

  /** Every path validates and the final figures fit; nothing about order, depth or single directories. */
  ghost predicate Acceptable(t: Tree, limits: Limits) {
    AcceptableOn(t, Below(t), limits)
  }

  lemma AcceptableSubset(t: Tree, s: set<Path>, all: set<Path>, limits: Limits)
    requires s <= all <= t.Keys && AcceptableOn(t, all, limits)
    ensures AcceptableOn(t, s, limits)
  {
    TotalSizeMonotone(t, s, all);
    SubsetSize(FilesIn(t, s), FilesIn(t, all));
    SubsetSize(DirectoriesIn(t, s), DirectoriesIn(t, all));
  }

  ghost predicate WithinCap(t: Tree, maxEntries: nat) {
    forall d | d in t && t[d].Directory? :: |Children(t, d)| <= maxEntries
  }

  /** The per-directory cap rejects nothing that the totals would accept. */
  lemma CapIsImplied(t: Tree, limits: Limits)
    requires WellFormed(t) && Acceptable(t, limits)
    ensures WithinCap(t, limits.maxFiles + limits.maxDirectories)
  {
    forall d | d in t && t[d].Directory?
      ensures |Children(t, d)| <= limits.maxFiles + limits.maxDirectories
    {
      var files, directories := FilesIn(t, Below(t)), DirectoriesIn(t, Below(t));
      forall p | p in Children(t, d) ensures p in files + directories {
        assert EntryAcceptable(t, p, limits);
      }
      SubsetSize(Children(t, d), files + directories);
    }
  }

  /* ----- Subtrees ----- */

  function Tails(t: Tree, s: Path): set<Path> {
    set p | p in t && IsPrefix(s, p) :: p[|s|..]
  }

  function Subtree(t: Tree, s: Path): Tree
    requires s in t
  {
    map q | q in Tails(t, s) && s + q in t :: t[s + q]
  }

  lemma SubtreeAt(t: Tree, s: Path)
    requires s in t
    ensures forall q :: q in Subtree(t, s) <==> s + q in t
    ensures forall q | q in Subtree(t, s) :: Subtree(t, s)[q] == t[s + q]
  {
    forall q | s + q in t ensures q in Tails(t, s) {
      assert (s + q)[..|s|] == s && (s + q)[|s|..] == q;
    }
  }

  lemma SubtreeWellFormed(t: Tree, s: Path)
    requires WellFormed(t) && s in t && t[s].Directory?
    ensures WellFormed(Subtree(t, s))
  {
    var sub := Subtree(t, s);
    SubtreeAt(t, s);
    assert s + [] == s;
    forall q | q in sub && q != [] ensures Parent(q) in sub && sub[Parent(q)].Directory? {
      assert Parent(s + q) == s + Parent(q);
      assert s + q in t;
    }
  }

  /** A path that is absent has nothing below it. */
  lemma {:induction false} NothingBelow(t: Tree, s: Path)
    requires WellFormed(t) && s !in t
    ensures forall p | p in t :: !IsPrefix(s, p)
  {
    forall p | p in t && IsPrefix(s, p) ensures false {
      PrefixExists(t, s, p);
    }
  }

  lemma {:induction false} PrefixExists(t: Tree, s: Path, p: Path)
    requires WellFormed(t) && p in t && IsPrefix(s, p)
    ensures s in t
    decreases |p|
  {
    if s != p {
      PrefixExists(t, s, Parent(p));
    }
  }

  function Shifted(sub: Tree, s: Path): set<Path> {
    set q | q in sub :: s + q
  }

  /** `sub` placed at `s`, over whatever is there. */
  function Graft(target: Tree, s: Path, sub: Tree): Tree {
    target + map p | p in Shifted(sub, s) && |p| >= |s| && p[|s|..] in sub :: sub[p[|s|..]]
  }

  lemma GraftAt(target: Tree, s: Path, sub: Tree)
    ensures Graft(target, s, sub).Keys == target.Keys + Shifted(sub, s)
    ensures forall q | q in sub :: s + q in Graft(target, s, sub) && Graft(target, s, sub)[s + q] == sub[q]
    ensures forall p | p in target && !IsPrefix(s, p) :: Graft(target, s, sub)[p] == target[p]
  {
    forall q | q in sub ensures (s + q)[|s|..] == q && s + q in Shifted(sub, s) && IsPrefix(s, s + q) {
      assert (s + q)[..|s|] == s;
    }
  }

  lemma GraftedNode(t: Tree, s: Path, sub: Tree, p: Path)
    ensures p in Graft(t, s, sub) <==> p in t || (IsPrefix(s, p) && p[|s|..] in sub)
    ensures IsPrefix(s, p) && p[|s|..] in sub ==> Graft(t, s, sub)[p] == sub[p[|s|..]]
    ensures p in t && !IsPrefix(s, p) ==> Graft(t, s, sub)[p] == t[p]
  {
    if IsPrefix(s, p) {
      assert s + p[|s|..] == p;
    }
    if p in Shifted(sub, s) {
      var q :| q in sub && p == s + q;
      assert p[..|s|] == s && p[|s|..] == q;
    }
  }

  lemma GraftIsTree(t: Tree, s: Path, sub: Tree)
    requires WellFormed(t) && WellFormed(sub) && s != [] && s !in t && Parent(s) in t && t[Parent(s)].Directory?
    ensures WellFormed(Graft(t, s, sub)) && s in Graft(t, s, sub)
    ensures Subtree(Graft(t, s, sub), s) == sub
  {
    NothingBelow(t, s);
    var u := Graft(t, s, sub);
    GraftedNode(t, s, sub, []);
    GraftedNode(t, s, sub, s);
    assert s[..|s|] == s && s[|s|..] == [];
    GraftedSubtree(t, s, sub);
    hide Graft, Subtree;
    forall p | p in u && p != [] ensures Parent(p) in u && u[Parent(p)].Directory? {
      GraftedNode(t, s, sub, p);
      GraftedNode(t, s, sub, Parent(p));
      if p !in t && p != s {
        assert Parent(p)[..|s|] == s && Parent(p)[|s|..] == Parent(p[|s|..]);
      }
    }
  }

  lemma GraftedSubtree(t: Tree, s: Path, sub: Tree)
    requires s in Graft(t, s, sub) && forall p | p in t :: !IsPrefix(s, p)
    ensures Subtree(Graft(t, s, sub), s) == sub
  {
    var u := Graft(t, s, sub);
    SubtreeAt(u, s);
    hide Graft, Subtree;
    forall q ensures s + q in u <==> q in sub
      ensures q in sub ==> u[s + q] == sub[q]
    {
      GraftedNode(t, s, sub, s + q);
      assert (s + q)[..|s|] == s && (s + q)[|s|..] == q;
    }
  }

  /** What happens elsewhere leaves a subtree alone. */
  lemma SubtreeElsewhere(t: Tree, u: Tree, s: Path)
    requires s in t && s in u
    requires forall p | IsPrefix(s, p) :: (p in t <==> p in u) && (p in t ==> t[p] == u[p])
    ensures Subtree(t, s) == Subtree(u, s)
  {
    SubtreeAt(t, s);
    SubtreeAt(u, s);
    forall q ensures s + q in t <==> s + q in u
      ensures s + q in t ==> t[s + q] == u[s + q]
    {
      assert (s + q)[..|s|] == s;
      assert IsPrefix(s, s + q);
    }
  }

  /* ----- Worklist walks ----- */

  /** Everything seen once the directories in `done` have been expanded. */
  ghost function SeenFrom(t: Tree, done: set<Path>): set<Path> {
    set p | p in t && p != [] && Parent(p) in done
  }

  ghost predicate NoDuplicates<T>(s: seq<T>) {
    forall i, j | 0 <= i < j < |s| :: s[i] != s[j]
  }

  /** Each directory met so far is either expanded or waiting on the stack, exactly once. */
  ghost predicate WalkInv(t: Tree, done: set<Path>, stack: seq<Path>) {
    && NoDuplicates(stack)
    && (forall d | d in stack :: d !in done)
    && (forall d :: d in done || d in stack <==> d == [] || d in DirectoriesIn(t, SeenFrom(t, done)))
  }

  lemma WalkStart(t: Tree)
    requires WellFormed(t)
    ensures WalkInv(t, {}, [[]]) && SeenFrom(t, {}) == {}
  {
  }

  lemma WalkDirectories(t: Tree, done: set<Path>, stack: seq<Path>)
    requires WellFormed(t) && WalkInv(t, done, stack)
    ensures forall d | d in done || d in stack :: d in t && t[d].Directory?
    ensures forall d | d in done || d in stack :: d == [] || d in SeenFrom(t, done)
    ensures forall d | d in stack :: d !in done
    ensures done <= t.Keys && SeenFrom(t, done) <= Below(t)
  {
  }

  /** `pushed` is the directories among `names`, in order. */
  ghost predicate Pushed(t: Tree, names: seq<Path>, pushed: seq<Path>) {
    NoDuplicates(pushed) && forall p :: p in pushed <==> p in DirectoriesIn(t, Elements(names))
  }

  lemma PushStart(t: Tree)
    ensures Pushed(t, [], [])
  {
  }

  lemma PushStep(t: Tree, names: seq<Path>, i: nat, pushed: seq<Path>)
    requires i < |names| && NoDuplicates(names) && Pushed(t, names[..i], pushed)
    ensures names[i] !in Elements(names[..i])
    ensures Elements(names[..i + 1]) == Elements(names[..i]) + {names[i]}
    ensures Pushed(t, names[..i + 1],
                   if names[i] in t && t[names[i]].Directory? then pushed + [names[i]] else pushed)
  {
    var more := names[..i + 1];
    assert more == names[..i] + [names[i]];
    assert forall p :: p in more <==> p in names[..i] || p == names[i];
    assert names[i] !in names[..i];
    assert names[i] !in pushed by {
      assert names[i] !in DirectoriesIn(t, Elements(names[..i]));
    }
  }

  /** The entries of the directory on top of the stack are exactly its unseen children. */
  lemma WalkChildren(t: Tree, done: set<Path>, stack: seq<Path>, names: seq<Path>)
    requires WellFormed(t) && stack != [] && WalkInv(t, done, stack)
    requires forall p :: p in names <==> p in Children(t, stack[|stack| - 1])
    ensures Elements(names) == Children(t, stack[|stack| - 1])
    ensures forall p | p in names :: p in t && p !in SeenFrom(t, done)
    ensures SeenFrom(t, done) + Elements(names) <= Below(t)
  {
    assert stack[|stack| - 1] in stack;
  }

  /**
   Expanding the popped directory: its children are new, they complete what is
   seen, and pushing its subdirectories in any order restores the invariant.
   */
  lemma WalkExpand(t: Tree, done: set<Path>, stack: seq<Path>, names: seq<Path>, pushed: seq<Path>)
    requires WellFormed(t) && stack != [] && WalkInv(t, done, stack)
    requires Elements(names) == Children(t, stack[|stack| - 1]) && Pushed(t, names, pushed)
    ensures
      var d := stack[|stack| - 1];
      && SeenFrom(t, done + {d}) == SeenFrom(t, done) + Children(t, d)
      && SeenFrom(t, done) !! Children(t, d)
      && WalkInv(t, done + {d}, stack[..|stack| - 1] + pushed)
  {
    var d := stack[|stack| - 1];
    var rest := stack[..|stack| - 1];
    assert stack == rest + [d];
    assert d in stack && d !in rest;
    var seen, next := SeenFrom(t, done), SeenFrom(t, done + {d});
    assert next == seen + Children(t, d);
    forall p | p in pushed ensures p !in rest && p !in done && p != d {
      assert p in Children(t, d) && p !in seen && p != [];
      assert p in rest ==> p in stack;
    }
    var after := rest + pushed;
    forall i, j | 0 <= i < j < |after| ensures after[i] != after[j] {
      if i < |rest| <= j {
        assert after[i] in rest && after[j] in pushed;
      }
    }
    forall x ensures x in done + {d} || x in after <==> x == [] || x in DirectoriesIn(t, next) {
      assert x in stack <==> x in rest || x == d;
      assert x in DirectoriesIn(t, next) <==> x in DirectoriesIn(t, seen) || x in DirectoriesIn(t, Children(t, d));
    }
  }

  /** An empty stack means the whole tree has been seen. */
  lemma WalkEnd(t: Tree, done: set<Path>)
    requires WellFormed(t) && WalkInv(t, done, [])
    ensures SeenFrom(t, done) == Below(t)
    ensures forall d | d in t && t[d].Directory? :: d in done
  {
    var none: seq<Path> := [];
    assert WalkInv(t, done, none) && forall d: Path :: d !in none;
    forall p | p in Below(t) ensures p in SeenFrom(t, done) {
      Reached(t, done, p);
    }
  }

  lemma {:induction false} Reached(t: Tree, done: set<Path>, p: Path)
    requires WellFormed(t) && WalkInv(t, done, []) && p in t
    ensures p == [] || p in SeenFrom(t, done)
    decreases |p|
  {
    if p != [] {
      Reached(t, done, Parent(p));
      var d := Parent(p);
      assert d == [] || d in DirectoriesIn(t, SeenFrom(t, done));
      var none: seq<Path> := [];
      assert WalkInv(t, done, none) && d !in none;
    }
  }

  /**
   `DirectorySnapshot::entries`: every child of the directory once, in whatever
   order the system reports them, or a refusal when there are too many.
   */
  method Entries(t: Tree, dir: Path, maxEntries: nat) returns (r: Outcome<seq<Path>>)
    ensures r.Ok? <==> |Children(t, dir)| <= maxEntries
    ensures r.Ok? ==> NoDuplicates(r.value) && |r.value| == |Children(t, dir)|
    ensures r.Ok? ==> forall p :: p in r.value <==> p in Children(t, dir)
  {
    var remaining := set p | p in t && p != [] && Parent(p) == dir;
    assert remaining == Children(t, dir);
    var names: seq<Path> := [];
    while remaining != {}
      invariant |names| + |remaining| == |Children(t, dir)|
      invariant NoDuplicates(names)
      invariant forall p :: p in names || p in remaining <==> p in Children(t, dir)
      invariant forall p | p in names :: p !in remaining
      invariant |names| <= maxEntries
      decreases remaining
    {
      if |names| >= maxEntries {
        return Err(Policy);
      }
      var p :| p in remaining;
      remaining := remaining - {p};
      names := names + [p];
    }
    r := Ok(names);
  }

  /** Plain `read_dir`, without a cap. */
  method ReadDir(t: Tree, dir: Path) returns (names: seq<Path>)
    ensures NoDuplicates(names) && forall p :: p in names <==> p in Children(t, dir)
  {
    var children := set p | p in t && p != [] && Parent(p) == dir;
    assert children == Children(t, dir);
    var r := Entries(t, dir, |children|);
    names := r.value;
  }
}
