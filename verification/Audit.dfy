/**
 `build_tree_audit_with`: first collect and validate every path, then visit them
 in sorted order to count, snapshot and hash. On a tree that holds still the
 outcome is a function of the tree.
 */
module Audit {
  import opened Base
  import opened Paths
  import opened Streams
  import opened Policy
  import opened Trees
  import opened Fingerprint
  import Walks

  ghost function FileFingerprints(t: Tree, s: set<Path>, sha: Bytes -> Digest): map<Path, FileFingerprint> {
    map p | p in FilesIn(t, s) :: FingerprintOf(t[p], sha)
  }

  ghost function DirectoryIdentities(t: Tree, s: set<Path>): map<Path, nat> {
    map p | p in DirectoriesIn(t, s) :: t[p].identity
  }

  /** The audit of a whole tree, root directory included. */
  ghost function AuditOf(t: Tree, sha: Bytes -> Digest): TreeAudit {
    TreeAudit(FingerprintOfTree(t, sha), FileFingerprints(t, Below(t), sha), DirectoryIdentities(t, t.Keys))
  }

  /* ----- First phase ----- */

  datatype Collected = Collected(order: seq<Path>, directories: map<Path, nat>)

  ghost predicate NamedOn(t: Tree, s: set<Path>, limits: Limits)
    requires s <= t.Keys
  {
    forall p | p in s :: ValidPath(p, limits) && !t[p].Other?
  }

  ghost predicate Collects(c: Collected, t: Tree, s: set<Path>)
    requires s <= t.Keys
  {
    Sorted(c.order) && Elements(c.order) == s && c.directories == DirectoryIdentities(t, s + {[]})
  }

  function Collect(c: Collected, p: Path, n: Node): Collected {
    Collected(InsertSorted(c.order, p), if n.Directory? then c.directories[p := n.identity] else c.directories)
  }

  lemma CollectsAdd(c: Collected, t: Tree, s: set<Path>, p: Path)
    requires s <= t.Keys && p in t && p !in s && p != [] && Collects(c, t, s)
    ensures p !in c.order
    ensures Collects(Collect(c, p, t[p]), t, s + {p})
  {
    hide InsertSorted, Sorted;
    assert p !in Elements(c.order);
    InsertKeepsSorted(c.order, p);
    InsertElements(c.order, p);
    assert forall x :: x in c.order <==> x in Elements(c.order);
    assert Elements(InsertSorted(c.order, p)) == s + {p};
    assert s + {p} + {[]} == s + {[]} + {p};
    DirectoriesAdd(t, s + {[]}, p);
  }

  method CollectDirectory(t: Tree, names: seq<Path>, limits: Limits, collected: Collected, ghost s: set<Path>)
    returns (r: Outcome<Collected>, pushed: seq<Path>)
    requires s <= t.Keys && NoDuplicates(names) && forall p | p in names :: p in t && p !in s && p != []
    requires NamedOn(t, s, limits) && Collects(collected, t, s)
    ensures Elements(names) <= t.Keys
    ensures r.Ok? <==> NamedOn(t, s + Elements(names), limits)
    ensures r.Ok? ==> Collects(r.value, t, s + Elements(names)) && Pushed(t, names, pushed)
  {
    hide Collects, Pushed, ValidPath;
    r, pushed := Ok(collected), [];
    PushStart(t);
    ghost var got := s;
    assert s + Elements([]) == s;
    for i := 0 to |names|
      invariant got == s + Elements(names[..i]) <= t.Keys
      invariant NamedOn(t, got, limits)
      invariant r.Ok? && Collects(r.value, t, got)
      invariant Pushed(t, names[..i], pushed)
    {
      var p := names[i];
      PushStep(t, names, i, pushed);
      CollectsAdd(r.value, t, got, p);
      assert p in Elements(names);
      var valid := ValidateRelativePath(p, limits);
      if valid.Err? || p in r.value.order || t[p].Other? {
        r := Err(Policy);
        return;
      }
      r := Ok(Collect(r.value, p, t[p]));
      got := got + {p};
      if t[p].Directory? {
        pushed := pushed + [p];
      }
    }
    assert names[..|names|] == names;
  }

  method CollectPaths(t: Tree, limits: Limits) returns (r: Outcome<Collected>)
    requires WellFormed(t)
    ensures r.Ok? <==>
            && NamedOn(t, Below(t), limits)
            && WithinCap(t, SaturatingAdd(limits.maxFiles, limits.maxDirectories))
    ensures r.Ok? ==> Collects(r.value, t, Below(t))
  {
    hide NamedOn, Collects, WalkInv, Pushed, SeenFrom, Children, WellFormed, Elements;
    var maxEntries := SaturatingAdd(limits.maxFiles, limits.maxDirectories);
    CollectStart(t, limits);
    var collected := Collected([], map[[] := t[[]].identity]);
    var stack: seq<Path> := [[]];
    ghost var done: set<Path> := {};
    WalkStart(t);
    while stack != []
      invariant WalkInv(t, done, stack) && SeenFrom(t, done) <= t.Keys
      invariant NamedOn(t, SeenFrom(t, done), limits) && Collects(collected, t, SeenFrom(t, done))
      invariant forall d | d in done :: |Children(t, d)| <= maxEntries
      decreases t.Keys - done
    {
      WalkDirectories(t, done, stack);
      var directory := stack[|stack| - 1];
      var names := Entries(t, directory, maxEntries);
      if names.Err? {
        return Err(Policy);
      }
      WalkChildren(t, done, stack, names.value);
      ChildrenAreBelow(t, directory, names.value);
      var step, pushed := CollectDirectory(t, names.value, limits, collected, SeenFrom(t, done));
      if step.Err? {
        if NamedOn(t, Below(t), limits) {
          NamedSubset(t, SeenFrom(t, done) + Elements(names.value), Below(t), limits);
        }
        return Err(Policy);
      }
      WalkExpand(t, done, stack, names.value, pushed);
      collected := step.value;
      stack := stack[..|stack| - 1] + pushed;
      done := done + {directory};
    }
    WalkEnd(t, done);
    r := Ok(collected);
  }

  lemma CollectStart(t: Tree, limits: Limits)
    requires WellFormed(t)
    ensures [] in t && t[[]].Directory?
    ensures NamedOn(t, {}, limits) && Collects(Collected([], map[[] := t[[]].identity]), t, {})
  {
    var none: set<Path> := {};
    assert none + {[]} == {[]};
    assert DirectoriesIn(t, {[]}) == {[]};
  }

  lemma ChildrenAreBelow(t: Tree, d: Path, names: seq<Path>)
    requires forall p :: p in names <==> p in Children(t, d)
    ensures forall p | p in names :: p != []
  {
  }

  lemma NamedSubset(t: Tree, s: set<Path>, all: set<Path>, limits: Limits)
    requires s <= all <= t.Keys && NamedOn(t, all, limits)
    ensures NamedOn(t, s, limits)
  {
  }

  /* ----- Second phase ----- */

  datatype Hashed = Hashed(summary: AuditSummary, stream: Bytes, files: map<Path, FileFingerprint>)

  /** What has been counted, fed to the hash and recorded once `order` has been visited. */
  ghost predicate HashedFor(h: Hashed, t: Tree, order: seq<Path>, sha: Bytes -> Digest) {
    && (forall p | p in order :: p in t)
    && h.summary == SummaryOf(t, Elements(order))
    && h.stream == Concat(AllBytes(ItemsOf(order, t, sha)))
    && h.files == FileFingerprints(t, Elements(order), sha)
  }

  function PathHash(tag: Byte, text: Bytes): Bytes {
    [tag] + Little(|text|, 8) + text
  }

  lemma StreamOneMore(order: seq<Path>, p: Path, t: Tree, sha: Bytes -> Digest)
    requires (forall q | q in order :: q in t) && p in t
    ensures forall q | q in order + [p] :: q in t
    ensures Concat(AllBytes(ItemsOf(order + [p], t, sha)))
            == Concat(AllBytes(ItemsOf(order, t, sha))) + ItemBytes(ItemOf(p, t[p], sha))
  {
    ConcatOneMore(AllBytes(ItemsOf(order, t, sha)), ItemBytes(ItemOf(p, t[p], sha)));
    assert ItemsOf(order + [p], t, sha) == ItemsOf(order, t, sha) + [ItemOf(p, t[p], sha)];
    assert AllBytes(ItemsOf(order + [p], t, sha))
           == AllBytes(ItemsOf(order, t, sha)) + [ItemBytes(ItemOf(p, t[p], sha))];
  }

  lemma FilesOneMore(t: Tree, s: set<Path>, p: Path, sha: Bytes -> Digest)
    requires p in t && p !in s
    ensures FileFingerprints(t, s + {p}, sha) ==
            if t[p].File? then FileFingerprints(t, s, sha)[p := FingerprintOf(t[p], sha)]
            else FileFingerprints(t, s, sha)
  {
    FilesAdd(t, s, p);
  }

  /** The state after one more visit, were there no limits. */
  function NextHashed(h: Hashed, p: Path, n: Node, sha: Bytes -> Digest): Hashed {
    if n.File? then
      Hashed(AuditSummary(h.summary.files + 1, h.summary.directories, h.summary.totalBytes + |n.content|),
             h.stream + ItemBytes(ItemOf(p, n, sha)), h.files[p := FingerprintOf(n, sha)])
    else
      Hashed(AuditSummary(h.summary.files, h.summary.directories + 1, h.summary.totalBytes),
             h.stream + ItemBytes(ItemOf(p, n, sha)), h.files)
  }

  lemma HashState(h: Hashed, t: Tree, order: seq<Path>, p: Path, sha: Bytes -> Digest)
    requires p in t && p !in order && HashedFor(h, t, order, sha) && !t[p].Other?
    ensures HashedFor(NextHashed(h, p, t[p], sha), t, order + [p], sha)
  {
    assert p !in Elements(order);
    assert Elements(order + [p]) == Elements(order) + {p};
    SummaryAdd(t, Elements(order), p);
    StreamOneMore(order, p, t, sha);
    FilesOneMore(t, Elements(order), p, sha);
    hide SummaryOf, ItemsOf, AllBytes, Concat, FileFingerprints, ItemBytes, ItemOf, Elements;
  }

  lemma HashLimits(h: Hashed, t: Tree, order: seq<Path>, p: Path, limits: Limits, sha: Bytes -> Digest)
    requires p in t && p !in order && ValidPath(p, limits) && !t[p].Other?
    requires Elements(order) <= t.Keys && AcceptableOn(t, Elements(order), limits)
    requires h.summary == SummaryOf(t, Elements(order))
    ensures Elements(order + [p]) <= t.Keys
    ensures AcceptableOn(t, Elements(order + [p]), limits) <==>
            && (t[p].File? ==> |t[p].content| <= limits.maxSingleFileBytes)
            && WithinLimits(NextHashed(h, p, t[p], sha).summary, limits)
    ensures WithinLimits(h.summary, limits)
  {
    assert p !in Elements(order);
    assert Elements(order + [p]) == Elements(order) + {p};
    SummaryAdd(t, Elements(order), p);
    Walks.AcceptableAdd(t, Elements(order), p, limits);
    hide SummaryOf, ValidPath, ItemBytes, ItemOf, Elements;
  }

  /** One visit: count, check the limits, feed the hash, remember the file's fingerprint. */
  method HashEntry(p: Path, n: Node, limits: Limits, h: Hashed, directories: map<Path, nat>, sha: Bytes -> Digest)
    returns (r: Outcome<Hashed>)
    requires WithinLimits(h.summary, limits) && !n.Other?
    requires n.Directory? ==> p in directories && directories[p] == n.identity
    ensures r.Ok? <==>
            && (n.File? ==> |n.content| <= limits.maxSingleFileBytes)
            && WithinLimits(NextHashed(h, p, n, sha).summary, limits)
    ensures r.Ok? ==> r.value == NextHashed(h, p, n, sha)
  {
    hide Little;
    var text := Join(p, MAIN_SEPARATOR);
    if n.Directory? {
      if p !in directories || directories[p] != n.identity {
        return Err(Policy);
      }
      var count := CheckedAdd(h.summary.directories, 1);
      if count.Err? || count.value > limits.maxDirectories {
        return Err(Policy);
      }
      var stream := h.stream + PathHash(TAG_DIRECTORY, text);
      return Ok(Hashed(h.summary.(directories := count.value), stream, h.files));
    }
    if |n.content| > limits.maxSingleFileBytes {
      return Err(Policy);
    }
    var snapshot := FingerprintOf(n, sha);
    var count := CheckedAdd(h.summary.files, 1);
    if count.Err? || count.value > limits.maxFiles {
      return Err(Policy);
    }
    var total := CheckedAdd(h.summary.totalBytes, snapshot.length);
    if total.Err? || total.value > limits.maxTotalBytes {
      return Err(Policy);
    }
    var stream := h.stream + PathHash(TAG_FILE, text) + Little(snapshot.length, 8) + snapshot.sha256;
    assert stream == h.stream + ItemBytes(ItemOf(p, n, sha));
    r := Ok(Hashed(AuditSummary(count.value, h.summary.directories, total.value), stream, h.files[p := snapshot]));
  }

  method HashPaths(t: Tree, limits: Limits, collected: Collected, sha: Bytes -> Digest) returns (r: Outcome<Hashed>)
    requires WellFormed(t) && NamedOn(t, Below(t), limits) && Collects(collected, t, Below(t))
    ensures r.Ok? <==> Acceptable(t, limits)
    ensures r.Ok? ==> HashedFor(r.value, t, collected.order, sha)
  {
    var order := collected.order;
    HashStart(t, limits, sha);
    var hashed := Hashed(AuditSummary(0, 0, 0), [], map[]);
    for i := 0 to |order|
      invariant Elements(order[..i]) <= t.Keys && AcceptableOn(t, Elements(order[..i]), limits)
      invariant HashedFor(hashed, t, order[..i], sha)
    {
      hide HashedFor, AcceptableOn, Sorted, FileFingerprints;
      var p := order[i];
      NextPath(t, limits, collected, i);
      HashedSummary(hashed, t, order[..i], sha);
      HashLimits(hashed, t, order[..i], p, limits, sha);
      HashState(hashed, t, order[..i], p, sha);
      var step := HashEntry(p, t[p], limits, hashed, collected.directories, sha);
      if step.Err? {
        if Acceptable(t, limits) {
          AcceptableSubset(t, Elements(order[..i + 1]), Below(t), limits);
        }
        return Err(Policy);
      }
      hashed := step.value;
    }
    assert order[..|order|] == order;
    r := Ok(hashed);
  }

  lemma HashedSummary(h: Hashed, t: Tree, order: seq<Path>, sha: Bytes -> Digest)
    requires HashedFor(h, t, order, sha)
    ensures h.summary == SummaryOf(t, Elements(order))
  {
  }

  lemma HashStart(t: Tree, limits: Limits, sha: Bytes -> Digest)
    ensures Elements([]) == {} && AcceptableOn(t, {}, limits)
    ensures HashedFor(Hashed(AuditSummary(0, 0, 0), [], map[]), t, [], sha)
  {
    assert FilesIn(t, {}) == {} && DirectoriesIn(t, {}) == {};
  }

  lemma NextPath(t: Tree, limits: Limits, c: Collected, i: nat)
    requires NamedOn(t, Below(t), limits) && Collects(c, t, Below(t)) && i < |c.order|
    ensures
      var p := c.order[i];
      && c.order[..i + 1] == c.order[..i] + [p]
      && p in t && p !in c.order[..i] && ValidPath(p, limits) && !t[p].Other?
      && (t[p].Directory? ==> p in c.directories && c.directories[p] == t[p].identity)
    ensures Elements(c.order[..i]) <= t.Keys && Elements(c.order[..i + 1]) <= Below(t)
  {
    hide ValidPath;
    var p := c.order[i];
    assert p in Elements(c.order);
    forall j | 0 <= j < i ensures c.order[j] != p {
      PathTrichotomy(c.order[j], p);
    }
    assert forall q | q in c.order[..i + 1] :: q in c.order && q in Elements(c.order);
    assert forall q | q in c.order[..i] :: q in c.order && q in Elements(c.order);
  }

  /**
   Accepts exactly the acceptable trees and returns the audit of the tree. The
   checks of the second phase against the first never fire on a tree that holds
   still, and the saturated per-directory cap is implied whenever it is exact.
   */
  method BuildTreeAudit(t: Tree, limits: Limits, sha: Bytes -> Digest) returns (r: Outcome<TreeAudit>)
    requires WellFormed(t)
    ensures r.Ok? <==> Acceptable(t, limits) && WithinCap(t, SaturatingAdd(limits.maxFiles, limits.maxDirectories))
    ensures r.Ok? ==> r.value == AuditOf(t, sha)
  {
    var collected := CollectPaths(t, limits);
    if collected.Err? {
      return Err(Policy);
    }
    var hashed := HashPaths(t, limits, collected.value, sha);
    if hashed.Err? {
      return Err(Policy);
    }
    AuditIs(t, collected.value, hashed.value, sha);
    r := Ok(TreeAudit(TreeFingerprint(hashed.value.summary, sha(hashed.value.stream)),
                      hashed.value.files, collected.value.directories));
  }

  lemma AuditIs(t: Tree, c: Collected, h: Hashed, sha: Bytes -> Digest)
    requires WellFormed(t) && Collects(c, t, Below(t)) && HashedFor(h, t, c.order, sha)
    ensures TreeAudit(TreeFingerprint(h.summary, sha(h.stream)), h.files, c.directories) == AuditOf(t, sha)
  {
    SortedUnique(c.order, SortedPaths(Below(t)));
    StreamOrder(t, sha, c.order);
    hide Sorted, SortedPaths, ItemsOf, AllBytes, Concat;
    assert Below(t) + {[]} == t.Keys;
    assert h.stream == Stream(t, sha);
    assert h.files == FileFingerprints(t, Below(t), sha);
    assert c.directories == DirectoryIdentities(t, t.Keys);
  }
}
