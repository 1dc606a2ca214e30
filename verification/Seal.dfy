/**
 Copying the pinned backend into a sandbox (`src/backend.rs`) and the walk that
 seals the copy (`src/platform/windows_impl.rs`): three ways of counting entries
 that have to agree.
 */
module Seal {
  import opened Base
  import opened Paths
  import opened Policy
  import opened Trees
  import opened Directories
  import opened Fingerprint

  /** A parsed manifest: a `BTreeMap` from relative path to digest, as its ordered keys and the map. */
  datatype Manifest = Manifest(order: seq<Path>, digests: map<Path, Digest>) {
    ghost predicate Valid() {
      && Sorted(order) && Elements(order) == digests.Keys
      && forall p | p in digests :: p != []
    }
  }

  /** The backend to copy: what the manifest pins, and what reading its files yields. */
  datatype Bundle = Bundle(manifest: Manifest, read: Path -> Option<Bytes>)

  /** The directories a manifest implies: every non-empty proper prefix of a listed path. */
  ghost function ParentsOf(files: set<Path>): set<Path> {
    set p, n | p in files && 1 <= n < |p| :: p[..n]
  }

  /** No listed file is a directory of another one. */
  ghost predicate FormTree(files: set<Path>) {
    files !! ParentsOf(files)
  }

  lemma ParentsOneMore(files: set<Path>, p: Path)
    ensures ParentsOf(files + {p}) == ParentsOf(files) + ParentsOf({p})
  {
  }

  lemma ParentsUpTo(p: Path)
    requires p != []
    ensures Prefixes(p, 0, |p|) == {[]} + ParentsOf({p})
  {
    assert p[..0] == [];
    forall q | q in {[]} + ParentsOf({p}) ensures q in Prefixes(p, 0, |p|) {
      if q != [] {
        var n :| 1 <= n < |p| && q == p[..n];
      }
    }
  }

  /* ----- Counting from the manifest ----- */

  lemma PrefixesDown(p: Path, n: nat)
    requires n < |p|
    ensures Prefixes(p, n, |p|) == Prefixes(p, n + 1, |p|) + {p[..n]}
  {
  }

  method AddParents(before: set<Path>, relative: Path) returns (directories: set<Path>)
    requires relative != []
    ensures directories == before + ParentsOf({relative})
  {
    directories := before;
    var parent := Parent(relative);
    while parent != []
      invariant |parent| < |relative| && parent == relative[..|parent|]
      invariant directories == before + Prefixes(relative, |parent| + 1, |relative|)
      decreases |parent|
    {
      PrefixesDown(relative, |parent|);
      directories := directories + {parent};
      parent := Parent(parent);
    }
    assert Prefixes(relative, 1, |relative|) == ParentsOf({relative});
  }

  method CopiedEntryCount(manifest: Manifest) returns (r: Outcome<nat>)
    requires manifest.Valid()
    ensures r.Ok? <==> |manifest.digests| + |ParentsOf(manifest.digests.Keys)| <= U64_MAX
    ensures r.Ok? ==> r.value == |manifest.digests| + |ParentsOf(manifest.digests.Keys)|
  {
    var directories: set<Path> := {};
    for i := 0 to |manifest.order|
      invariant directories == ParentsOf(Elements(manifest.order[..i]))
    {
      var relative := manifest.order[i];
      assert manifest.order[..i + 1] == manifest.order[..i] + [relative];
      assert Elements(manifest.order[..i + 1]) == Elements(manifest.order[..i]) + {relative};
      ParentsOneMore(Elements(manifest.order[..i]), relative);
      assert relative in manifest.order;
      assert relative in Elements(manifest.order);
      directories := AddParents(directories, relative);
    }
    assert manifest.order[..|manifest.order|] == manifest.order;
    if |manifest.digests| > U64_MAX || |directories| > U64_MAX {
      return Err(Backend);
    }
    var sum := CheckedAdd(|manifest.digests|, |directories|);
    r := if sum.Err? then Err(Backend) else sum;
  }

  /* ----- Copying ----- */

  /** The copy after the files in `done`. */
  ghost predicate CopyOf(t: Tree, done: set<Path>, digests: map<Path, Digest>, sha: Bytes -> Digest) {
    && t.Keys == {[]} + done + ParentsOf(done)
    && done <= digests.Keys
    && (forall p | p in done :: t[p].File? && sha(t[p].content) == digests[p])
    && (forall p | p in {[]} + ParentsOf(done) :: t[p].Directory?)
  }

  /** The directory holds every listed file, with its pinned content, and perhaps more. */
  predicate PinnedIn(t: Tree, digests: map<Path, Digest>, sha: Bytes -> Digest) {
    forall p | p in digests :: p in t && t[p].File? && sha(t[p].content) == digests[p]
  }

  /** Reading each listed file yields its pinned content. */
  ghost predicate ReadsAsPinned(digests: map<Path, Digest>, read: Path -> Option<Bytes>, sha: Bytes -> Digest) {
    forall p | p in digests :: read(p).Some? && sha(read(p).value) == digests[p]
  }

  /**
   Success creates exactly the manifest's files and the directories they need, each
   file with its pinned digest. It occurs exactly if every read yields the pinned
   content and the paths form a tree. `read` is what the source files turn out to
   hold, if they can be read at all.
   */
  method CopyVerifiedTo(manifest: Manifest, read: Path -> Option<Bytes>, sha: Bytes -> Digest)
    returns (r: Outcome<Tree>)
    requires manifest.Valid()
    ensures r.Ok? ==> CopyOf(r.value, manifest.digests.Keys, manifest.digests, sha)
    ensures r.Ok? <==> FormTree(manifest.digests.Keys) && ReadsAsPinned(manifest.digests, read, sha)
  {
    hide CopyOf, HasParents, ParentsOf, FormTree, Sorted;
    var identity: nat := *;
    var target: Tree := map[[] := Directory(identity)];
    CopyStart(target, manifest.digests, sha);
    assert Elements(manifest.order[..0]) == {};
    for i := 0 to |manifest.order|
      invariant CopyOf(target, Elements(manifest.order[..i]), manifest.digests, sha)
      invariant forall p | p in Elements(manifest.order[..i]) ::
                  read(p).Some? && sha(read(p).value) == manifest.digests[p]
    {
      var relative := manifest.order[i];
      ghost var done := Elements(manifest.order[..i]);
      NextListed(manifest, i);
      hide Elements;
      var parents := CreateParents(target, relative);
      if parents.Err? {
        BlockedOnTheWay(target, done, manifest.digests, relative, sha);
        return Err(Io);
      }
      if relative in parents.value {
        BlockedAtTheEnd(target, parents.value, done, manifest.digests, relative, sha);
        return Err(Io);
      }
      var content := read(relative);
      if content.None? {
        return Err(Io);
      }
      if sha(content.value) != manifest.digests[relative] {
        return Err(Backend);
      }
      var modified: nat, created: nat := *, *;
      identity := *;
      var file := File(content.value, identity, modified, created);
      CopyOneMore(target, parents.value, done, manifest.digests, relative, file, sha);
      target := parents.value[relative := file];
    }
    assert manifest.order[..|manifest.order|] == manifest.order;
    CopyFormsTree(target, manifest.digests, sha);
    r := Ok(target);
  }

  lemma CopyStart(t: Tree, digests: map<Path, Digest>, sha: Bytes -> Digest)
    requires t.Keys == {[]} && t[[]].Directory?
    ensures CopyOf(t, {}, digests, sha)
  {
  }

  lemma NextListed(manifest: Manifest, i: nat)
    requires manifest.Valid() && i < |manifest.order|
    ensures
      var done, p := Elements(manifest.order[..i]), manifest.order[i];
      && Elements(manifest.order[..i + 1]) == done + {p} && p in manifest.digests && p != []
      && p !in done && done <= manifest.digests.Keys
  {
    var p := manifest.order[i];
    assert manifest.order[..i + 1] == manifest.order[..i] + [p];
    assert p in manifest.order && p in Elements(manifest.order);
    forall j | 0 <= j < i ensures manifest.order[j] != p {
      PathTrichotomy(manifest.order[j], p);
    }
    forall q | q in Elements(manifest.order[..i]) ensures q in manifest.digests {
      assert q in manifest.order;
      assert q in Elements(manifest.order);
    }
  }

  /** A file where a directory is needed: the manifest's paths do not form a tree. */
  lemma BlockedOnTheWay(t: Tree, done: set<Path>, digests: map<Path, Digest>, p: Path, sha: Bytes -> Digest)
    requires CopyOf(t, done, digests, sha) && p in digests && p != []
    requires !forall q | q in Prefixes(p, 0, |p|) && q in t :: t[q].Directory?
    ensures !FormTree(digests.Keys)
  {
    var q :| q in Prefixes(p, 0, |p|) && q in t && !t[q].Directory?;
    ParentsUpTo(p);
    assert q in done && q in ParentsOf({p});
    ParentsOneMore(digests.Keys - {p}, p);
    assert digests.Keys - {p} + {p} == digests.Keys;
    assert q in digests.Keys && q in ParentsOf(digests.Keys);
  }

  /** A directory where the file should go, made for an earlier file. */
  lemma BlockedAtTheEnd(
    t: Tree, parents: Tree, done: set<Path>, digests: map<Path, Digest>, p: Path, sha: Bytes -> Digest)
    requires CopyOf(t, done, digests, sha) && p in digests && p !in done && p != []
    requires HasParents(parents, t, p, |p|) && p in parents
    ensures !FormTree(digests.Keys)
  {
    assert forall q | q in Prefixes(p, 0, |p|) :: |q| < |p|;
    assert p in ParentsOf(done);
    assert ParentsOf(done) <= ParentsOf(digests.Keys);
  }

  lemma CopyOneMore(before: Tree, parents: Tree, done: set<Path>, digests: map<Path, Digest>, p: Path, n: Node,
                    sha: Bytes -> Digest)
    requires CopyOf(before, done, digests, sha) && p != [] && p in digests
    requires HasParents(parents, before, p, |p|) && p !in parents
    requires n.File? && sha(n.content) == digests[p]
    ensures CopyOf(parents[p := n], done + {p}, digests, sha)
  {
    ParentsOneMore(done, p);
    ParentsUpTo(p);
  }

  lemma CopyFormsTree(t: Tree, digests: map<Path, Digest>, sha: Bytes -> Digest)
    requires CopyOf(t, digests.Keys, digests, sha)
    ensures FormTree(digests.Keys)
  {
    assert forall p | p in digests :: p !in {[]} + ParentsOf(digests.Keys);
  }

  /* ----- Sealing ----- */

  ghost predicate NoSpecial(t: Tree, s: set<Path>) {
    forall p | p in s :: p in t && !t[p].Other?
  }

  /** Counts the children of one directory onto `observed` and stacks its subdirectories. */
  method SealDirectory(t: Tree, names: seq<Path>, maxEntries: nat, start: nat)
    returns (r: Outcome<nat>, pushed: seq<Path>)
    requires NoDuplicates(names) && start <= maxEntries <= U64_MAX
    ensures r.Ok? <==> NoSpecial(t, Elements(names)) && start + |names| <= maxEntries
    ensures r.Ok? ==> r.value == start + |names| && Pushed(t, names, pushed)
  {
    hide Pushed;
    var observed := start;
    pushed := [];
    PushStart(t);
    for i := 0 to |names|
      invariant observed == start + i <= maxEntries
      invariant NoSpecial(t, Elements(names[..i])) && Pushed(t, names[..i], pushed)
    {
      var p := names[i];
      PushStep(t, names, i, pushed);
      assert p in names;
      if p !in t {
        return Err(Io), [];
      }
      var next := CheckedAdd(observed, 1);
      if next.Err? || next.value > maxEntries {
        return Err(Policy), [];
      }
      observed := next.value;
      if t[p].Other? {
        return Err(Policy), [];
      }
      if t[p].Directory? {
        pushed := pushed + [p];
      }
    }
    assert names[..|names|] == names;
    r := Ok(observed);
  }

  /** Accepts a tree without special objects exactly when it has the expected number of entries. */
  method SealTree(t: Tree, maxEntries: nat) returns (r: Outcome<Unit>)
    requires WellFormed(t) && maxEntries <= U64_MAX
    ensures r.Ok? <==> NoSpecial(t, Below(t)) && |Below(t)| == maxEntries
  {
    hide WalkInv, Pushed, SeenFrom, Children, WellFormed, Elements, NoSpecial;
    var stack: seq<Path> := [[]];
    var observed := 0;
    ghost var done: set<Path> := {};
    WalkStart(t);
    SealStart(t);
    while stack != []
      invariant WalkInv(t, done, stack) && SeenFrom(t, done) <= Below(t)
      invariant observed == |SeenFrom(t, done)| <= maxEntries && NoSpecial(t, SeenFrom(t, done))
      decreases t.Keys - done
    {
      WalkDirectories(t, done, stack);
      var d := stack[|stack| - 1];
      var names := ReadDir(t, d);
      WalkChildren(t, done, stack, names);
      DistinctSize(names);
      ghost var seen := SeenFrom(t, done);
      SealStep(t, seen, Elements(names));
      var step, pushed := SealDirectory(t, names, maxEntries, observed);
      if step.Err? {
        return Err(Policy);
      }
      WalkExpand(t, done, stack, names, pushed);
      stack := stack[..|stack| - 1] + pushed;
      done := done + {d};
      observed := step.value;
    }
    WalkEnd(t, done);
    if observed != maxEntries {
      return Err(Policy);
    }
    r := Ok(Unit);
  }

  lemma SealStart(t: Tree)
    ensures SeenFrom(t, {}) == {} && NoSpecial(t, {})
  {
  }

  lemma {:induction false} DistinctSize(names: seq<Path>)
    requires NoDuplicates(names)
    ensures |Elements(names)| == |names|
  {
    if names == [] {
      assert Elements(names) == {};
    } else {
      var front := names[..|names| - 1];
      DistinctSize(front);
      assert names == front + [names[|names| - 1]];
      assert Elements(names) == Elements(front) + {names[|names| - 1]};
    }
  }

  /** Seen entries and new ones together decide both tests, now and at the end. */
  lemma SealStep(t: Tree, seen: set<Path>, more: set<Path>)
    requires seen + more <= Below(t) && (forall p | p in more :: p !in seen) && NoSpecial(t, seen)
    ensures |seen + more| == |seen| + |more| <= |Below(t)|
    ensures NoSpecial(t, seen + more) <==> NoSpecial(t, more)
    ensures !NoSpecial(t, more) ==> !NoSpecial(t, Below(t))
  {
    assert seen !! more;
    SubsetSize(seen + more, Below(t));
  }

  /* ----- The three counts agree ----- */

  lemma CopyIsTree(t: Tree, digests: map<Path, Digest>, sha: Bytes -> Digest)
    requires CopyOf(t, digests.Keys, digests, sha)
    ensures WellFormed(t) && NoSpecial(t, Below(t))
  {
    var files, parents := digests.Keys, ParentsOf(digests.Keys);
    forall p | p in t && p != [] ensures Parent(p) in {[]} + parents {
      if p !in files {
        var q, n :| q in files && 1 <= n < |q| && p == q[..n];
        assert Parent(p) == q[..n - 1];
      }
    }
  }

  lemma CopySize(t: Tree, digests: map<Path, Digest>, sha: Bytes -> Digest)
    requires CopyOf(t, digests.Keys, digests, sha) && forall p | p in digests :: p != []
    ensures |Below(t)| == |digests| + |ParentsOf(digests.Keys)|
  {
    CopyFormsTree(t, digests, sha);
    assert [] !in ParentsOf(digests.Keys);
    hide ParentsOf;
    var files, parents := digests.Keys, ParentsOf(digests.Keys);
    assert Below(t) == files + parents;
    assert |files + parents| == |files| + |parents|;
    assert |digests| == |files|;
  }

  /** As many entries as the manifest implies leave no room for anything but its files and their directories. */
  lemma PinnedAndCounted(t: Tree, manifest: Manifest, sha: Bytes -> Digest)
    requires WellFormed(t) && manifest.Valid() && PinnedIn(t, manifest.digests, sha)
    requires |Below(t)| == |manifest.digests| + |ParentsOf(manifest.digests.Keys)|
    ensures CopyOf(t, manifest.digests.Keys, manifest.digests, sha)
  {
    var files, parents := manifest.digests.Keys, ParentsOf(manifest.digests.Keys);
    PinnedParents(t, manifest.digests, sha);
    hide WellFormed, ParentsOf, CopyOf;
    assert files !! parents;
    assert |files + parents| == |files| + |parents| && |files| == |manifest.digests|;
    assert files + parents <= Below(t);
    SameSizeSubset(files + parents, Below(t));
    PinnedIsCopy(t, manifest.digests, sha);
  }

  lemma PinnedIsCopy(t: Tree, digests: map<Path, Digest>, sha: Bytes -> Digest)
    requires PinnedIn(t, digests, sha) && [] in t && t[[]].Directory?
    requires forall p | p in ParentsOf(digests.Keys) :: p in t && t[p].Directory?
    requires digests.Keys + ParentsOf(digests.Keys) == Below(t)
    ensures CopyOf(t, digests.Keys, digests, sha)
  {
    hide ParentsOf;
    assert t.Keys == {[]} + Below(t);
  }

  lemma PinnedParents(t: Tree, digests: map<Path, Digest>, sha: Bytes -> Digest)
    requires WellFormed(t) && PinnedIn(t, digests, sha)
    ensures forall p | p in ParentsOf(digests.Keys) :: p in t && p != [] && t[p].Directory?
    ensures [] in t && t[[]].Directory?
  {
    forall p | p in ParentsOf(digests.Keys) ensures p in t && p != [] && t[p].Directory? {
      var q, n :| q in digests && 1 <= n < |q| && p == q[..n];
      AncestorsAreDirectories(t, q, n);
    }
  }

  lemma {:induction false} AncestorsAreDirectories(t: Tree, p: Path, n: nat)
    requires WellFormed(t) && p in t && n < |p|
    ensures p[..n] in t && t[p[..n]].Directory?
    decreases |p|
  {
    var parent := Parent(p);
    if n < |p| - 1 {
      AncestorsAreDirectories(t, parent, n);
      assert parent[..n] == p[..n];
    }
  }

  /**
   An untouched copy always passes the count that was computed from the manifest
   alone, and a tree with any other number of entries never does.
   */
  method SealCopy(manifest: Manifest, copy: Tree, found: Tree, sha: Bytes -> Digest) returns (r: Outcome<Unit>)
    requires manifest.Valid() && CopyOf(copy, manifest.digests.Keys, manifest.digests, sha) && WellFormed(found)
    ensures found == copy && |Below(copy)| <= U64_MAX ==> r.Ok?
    ensures |Below(found)| != |Below(copy)| ==> r.Err?
  {
    CopySize(copy, manifest.digests, sha);
    CopyIsTree(copy, manifest.digests, sha);
    hide CopyOf, ParentsOf;
    var count := CopiedEntryCount(manifest);
    if count.Err? {
      return Err(Backend);
    }
    r := SealTree(found, count.value);
  }
}
