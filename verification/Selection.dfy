/** Selective extraction (`src/selection.rs`): which selector lists are unambiguous, and what they copy. */
module Selection {
  import opened Base
  import opened Paths
  import opened Policy
  import opened Trees
  import opened Directories
  import opened Fingerprint
  import opened Audit
  import opened Transfer
  import opened Snapshot

  /* ----- Validation ----- */

  /** No selector is, contains, or lies inside another one once case is ignored. */
  ghost predicate Antichain(selectors: seq<Path>, fold: Name -> Name) {
    forall i, j | 0 <= i < |selectors| && 0 <= j < |selectors| && i != j ::
      !IsPrefix(Key(selectors[i], fold), Key(selectors[j], fold))
  }

  ghost predicate DistinctKeys(selectors: seq<Path>, fold: Name -> Name) {
    forall i, j | 0 <= i < j < |selectors| :: Key(selectors[i], fold) != Key(selectors[j], fold)
  }

  ghost function KeySet(selectors: seq<Path>, fold: Name -> Name): set<Path> {
    set p | p in selectors :: Key(p, fold)
  }

  function Parsed(texts: seq<Bytes>): (r: seq<Path>)
    ensures |r| == |texts| && forall i | 0 <= i < |texts| :: r[i] == Split(texts[i])
  {
    seq(|texts|, i requires 0 <= i < |texts| => Split(texts[i]))
  }

  ghost predicate Selectable(texts: seq<Bytes>, limits: Limits, fold: Name -> Name) {
    && 0 < |texts| <= limits.maxFiles + limits.maxDirectories <= U64_MAX
    && (forall p | p in Parsed(texts) :: ValidPath(p, limits))
    && Antichain(Parsed(texts), fold)
  }

  /**
   Looking up every proper prefix of every key decides exactly whether the keys
   form an antichain; the accepted selectors come back in path order.
   */
  method ValidateSelectors(texts: seq<Bytes>, limits: Limits, fold: Name -> Name) returns (r: Outcome<seq<Path>>)
    ensures r.Ok? <==> Selectable(texts, limits, fold)
    ensures r.Ok? ==> Sorted(r.value) && Elements(r.value) == Elements(Parsed(texts))
  {
    hide ValidPath, Split;
    if texts == [] {
      return Err(Usage);
    }
    var maximum := CheckedAdd(limits.maxFiles, limits.maxDirectories);
    if maximum.Err? {
      return Err(Config);
    }
    if |texts| > maximum.value {
      return Err(Policy);
    }
    var all := Parsed(texts);
    var unique: seq<Path> := [];
    var keys: map<Path, Path> := map[];
    for i := 0 to |texts|
      invariant forall p | p in all[..i] :: ValidPath(p, limits)
      invariant Sorted(unique) && Elements(unique) == Elements(all[..i])
      invariant DistinctKeys(all[..i], fold) && keys.Keys == KeySet(all[..i], fold)
    {
      var selector := all[i];
      assert all[..i + 1] == all[..i] + [selector];
      assert selector in all;
      OneMoreKey(all, i, fold);
      var valid := ValidateRelativePath(selector, limits);
      if valid.Err? {
        return Err(Policy);
      }
      if selector in unique {
        assert selector in Elements(unique);
        SameKeyClash(all, i, fold);
        return Err(Usage);
      }
      var key := Key(selector, fold);
      if key in keys {
        SameKeyClash(all, i, fold);
        return Err(Usage);
      }
      InsertKeepsSorted(unique, selector);
      InsertElements(unique, selector);
      assert Elements(all[..i + 1]) == Elements(all[..i]) + {selector};
      unique := InsertSorted(unique, selector);
      keys := keys[key := selector];
    }
    assert all[..|texts|] == all;
    PrefixLookup(all, keys.Keys, fold);
    if exists k | k in keys :: exists length | 1 <= length < |k| :: k[..length] in keys {
      return Err(Usage);
    }
    r := Ok(unique);
  }

  lemma OneMoreKey(all: seq<Path>, i: nat, fold: Name -> Name)
    requires i < |all| && DistinctKeys(all[..i], fold)
    ensures KeySet(all[..i + 1], fold) == KeySet(all[..i], fold) + {Key(all[i], fold)}
    ensures Key(all[i], fold) !in KeySet(all[..i], fold) ==> DistinctKeys(all[..i + 1], fold)
  {
    var front := all[..i];
    assert all[..i + 1] == front + [all[i]];
    forall j | 0 <= j < i ensures Key(front[j], fold) in KeySet(front, fold) {
      assert front[j] in front;
    }
  }

  lemma SameKeyClash(all: seq<Path>, i: nat, fold: Name -> Name)
    requires i < |all| && Key(all[i], fold) in KeySet(all[..i], fold)
    ensures !Antichain(all, fold)
  {
    var front := all[..i];
    var p :| p in front && Key(p, fold) == Key(all[i], fold);
    var j :| 0 <= j < i && front[j] == p;
    assert IsPrefix(Key(all[j], fold), Key(all[i], fold));
  }

  lemma PrefixLookup(all: seq<Path>, keys: set<Path>, fold: Name -> Name)
    requires keys == KeySet(all, fold) && DistinctKeys(all, fold) && forall p | p in all :: p != []
    ensures Antichain(all, fold) <==> forall k, n | k in keys && 1 <= n < |k| :: k[..n] !in keys
  {
    if !Antichain(all, fold) {
      var i, j :| 0 <= i < |all| && 0 <= j < |all| && i != j && IsPrefix(Key(all[i], fold), Key(all[j], fold));
      var a, b := Key(all[i], fold), Key(all[j], fold);
      assert all[i] in all && all[j] in all;
      assert a in keys && b in keys;
      assert a != b;
      assert b[..|b|] == b;
      assert b[..|a|] in keys;
    }
    if k, n :| k in keys && 1 <= n < |k| && k[..n] in keys {
      var p :| p in all && Key(p, fold) == k;
      var q :| q in all && Key(q, fold) == k[..n];
      var j :| 0 <= j < |all| && all[j] == p;
      var i :| 0 <= i < |all| && all[i] == q;
      assert IsPrefix(Key(all[i], fold), Key(all[j], fold));
    }
  }

  lemma AntichainPaths(all: seq<Path>, order: seq<Path>, fold: Name -> Name)
    requires Antichain(all, fold) && Elements(order) == Elements(all) && Sorted(order)
    ensures Apart(order)
  {
    forall i, j | 0 <= i < |order| && 0 <= j < |order| && i != j ensures !IsPrefix(order[i], order[j]) {
      var p, q := order[i], order[j];
      if IsPrefix(p, q) {
        PathTrichotomy(p, q);
        assert PathLess(order[i], order[j]) || PathLess(order[j], order[i]);
        assert p in Elements(order) && q in Elements(order);
        var a :| 0 <= a < |all| && all[a] == p;
        var b :| 0 <= b < |all| && all[b] == q;
        assert Key(q, fold)[..|p|] == Key(p, fold);
        assert IsPrefix(Key(all[a], fold), Key(all[b], fold));
      }
    }
  }

  /** A selector that equals the beginning of another one up to case makes the list ambiguous. */
  lemma CaseVariantsClash(texts: seq<Bytes>, limits: Limits, fold: Name -> Name, i: nat, j: nat)
    requires i < |texts| && j < |texts| && i != j && |Split(texts[i])| <= |Split(texts[j])|
    requires forall k | 0 <= k < |Split(texts[i])| :: fold(Split(texts[i])[k]) == fold(Split(texts[j])[k])
    ensures !Selectable(texts, limits, fold)
  {
    hide Split;
    var p, q := Parsed(texts)[i], Parsed(texts)[j];
    SameKeyExactly(p, q[..|p|], fold);
    assert Key(q, fold)[..|p|] == Key(q[..|p|], fold);
    assert IsPrefix(Key(p, fold), Key(q, fold));
  }

  /** No path in the list is a prefix of another. */
  ghost predicate Apart(order: seq<Path>) {
    forall i, j | 0 <= i < |order| && 0 <= j < |order| && i != j :: !IsPrefix(order[i], order[j])
  }

  /* ----- Subtrees ----- */

  ghost function Shift(s: Path, paths: set<Path>): set<Path> {
    set q | q in paths :: s + q
  }

  /** Counting below a directory is counting the shifted paths in the whole tree. */
  lemma {:induction false} SummaryShift(t: Tree, s: Path, paths: set<Path>)
    requires s in t && paths <= Subtree(t, s).Keys
    ensures Shift(s, paths) <= t.Keys
    ensures SummaryOf(Subtree(t, s), paths) == SummaryOf(t, Shift(s, paths))
    decreases |paths|
  {
    SubtreeAt(t, s);
    ShiftInside(t, s, paths);
    var sub := Subtree(t, s);
    hide Subtree, SummaryOf, Shift;
    if paths == {} {
      ShiftNone(s);
      EmptySummary(t);
      EmptySummary(sub);
    } else {
      var q :| q in paths;
      var rest := paths - {q};
      SummaryShift(t, s, rest);
      ShiftAdd(s, rest, q);
      assert paths == rest + {q};
      SummaryAdd(sub, rest, q);
      SummaryAdd(t, Shift(s, rest), s + q);
    }
  }

  lemma ShiftInside(t: Tree, s: Path, paths: set<Path>)
    requires s in t && paths <= Subtree(t, s).Keys
    ensures Shift(s, paths) <= t.Keys
  {
    SubtreeAt(t, s);
  }

  lemma ShiftNone(s: Path)
    ensures Shift(s, {}) == {}
  {
  }

  lemma EmptySummary(t: Tree)
    ensures SummaryOf(t, {}) == AuditSummary(0, 0, 0)
  {
    assert FilesIn(t, {}) == {} && DirectoriesIn(t, {}) == {};
  }

  lemma ShiftAdd(s: Path, rest: set<Path>, q: Path)
    requires q !in rest
    ensures Shift(s, rest + {q}) == Shift(s, rest) + {s + q}
    ensures s + q !in Shift(s, rest)
  {
    forall x | x in rest ensures s + x != s + q {
      assert (s + x)[|s|..] == x && (s + q)[|s|..] == q;
    }
  }

  lemma {:induction false} TextCostTail(s: Path, q: Path)
    ensures TextCost(s + q) == TextCost(s) + TextCost(q)
  {
    if s == [] {
      assert s + q == q;
    } else {
      TextCostTail(s[1..], q);
      assert (s + q)[1..] == s[1..] + q;
    }
  }

  lemma TailIsValid(s: Path, q: Path, limits: Limits)
    requires q != [] && ValidPath(s + q, limits)
    ensures ValidPath(q, limits)
  {
    TextCostTail(s, q);
    hide ValidateComponent;
    forall i | 0 <= i < |q| ensures ValidateComponent(q[i]).Ok? {
      assert q[i] == (s + q)[|s| + i];
    }
  }

  /** What is acceptable as part of a tree is acceptable on its own. */
  lemma SubtreeAcceptable(t: Tree, s: Path, limits: Limits)
    requires WellFormed(t) && s in t && t[s].Directory? && Acceptable(t, limits)
    ensures Acceptable(Subtree(t, s), limits)
  {
    var sub := Subtree(t, s);
    SubtreeAt(t, s);
    SummaryShift(t, s, Below(sub));
    hide Subtree, SummaryOf, ValidPath;
    forall q | q in Below(sub) ensures EntryAcceptable(sub, q, limits) && s + q in Below(t) {
      assert EntryAcceptable(t, s + q, limits);
      TailIsValid(s, q, limits);
    }
    AcceptableSubset(t, Shift(s, Below(sub)), Below(t), limits);
  }

  /* ----- Building the selected tree ----- */

  /** What a copied node has in common with the node it was copied from. */
  ghost predicate Kept(a: Node, b: Node, exact: bool, sha: Bytes -> Digest) {
    Alike(a, b, sha) && (exact ==> SameNode(a, b))
  }

  /** Ancestors of a selector, the selector itself, and everything below it. */
  ghost predicate IsSelected(p: Path, selectors: seq<Path>) {
    exists s | s in selectors :: IsPrefix(p, s) || IsPrefix(s, p)
  }

  ghost function SelectedPaths(source: Tree, selectors: seq<Path>): set<Path> {
    set p | p in source && (p == [] || IsSelected(p, selectors))
  }

  ghost function Under(source: Tree, s: Path): set<Path> {
    set p | p in source && IsPrefix(s, p)
  }

  ghost function Ancestors(s: Path): set<Path> {
    Prefixes(s, 0, |s|)
  }

  /** The root, and for each selector its ancestors and what was below it in the tree it was met in. */
  ghost function Gathered(met: seq<Tree>, selectors: seq<Path>): set<Path>
    requires |met| == |selectors|
  {
    if met == [] then {[]}
    else
      var n := |met| - 1;
      Gathered(met[..n], selectors[..n]) + Ancestors(selectors[n]) + Under(met[n], selectors[n])
  }

  /** The target holds exactly that, every selected subtree as it was met. */
  ghost predicate SelectsFrom(target: Tree, met: seq<Tree>, selectors: seq<Path>, exact: bool, sha: Bytes -> Digest) {
    && |met| == |selectors| && target.Keys == Gathered(met, selectors)
    && [] in target && target[[]].Directory?
    && (forall j | 0 <= j < |met| :: Holds(target, met[j], selectors[j], exact, sha))
  }

  ghost predicate Holds(target: Tree, met: Tree, s: Path, exact: bool, sha: Bytes -> Digest) {
    && WellFormed(met) && s in met
    && (forall p | p in Ancestors(s) :: p in target && target[p].Directory?)
    && (forall p | p in Under(met, s) :: p in target && Kept(met[p], target[p], exact, sha))
  }

  lemma AncestorsExist(t: Tree, s: Path, n: nat)
    requires WellFormed(t) && s in t && n < |s|
    ensures s[..n] in t && t[s[..n]].Directory?
    decreases |s| - n
  {
    if n + 1 == |s| {
      assert s[..n] == Parent(s);
    } else {
      AncestorsExist(t, s, n + 1);
      assert Parent(s[..n + 1]) == s[..n];
    }
  }

  lemma {:induction false} GatheredMeans(met: seq<Tree>, selectors: seq<Path>, p: Path)
    requires |met| == |selectors|
    ensures p in Gathered(met, selectors) <==>
            p == [] || exists j :: 0 <= j < |met| && (p in Ancestors(selectors[j]) || p in Under(met[j], selectors[j]))
  {
    hide Ancestors, Under;
    if met != [] {
      var n := |met| - 1;
      GatheredMeans(met[..n], selectors[..n], p);
      assert forall j | 0 <= j < n :: met[..n][j] == met[j] && selectors[..n][j] == selectors[j];
    }
  }

  lemma AncestorIs(p: Path, s: Path)
    ensures p in Ancestors(s) <==> IsPrefix(p, s) && p != s
  {
    assert s[..|s|] == s;
    if IsPrefix(p, s) && p != s {
      assert p == s[..|p|];
    }
  }

  /** The next selector meets nothing that earlier selectors put in place, and only directories on its way. */
  lemma SelectorFits(
    before: Tree, met: seq<Tree>, selectors: seq<Path>, i: nat, exact: bool, sha: Bytes -> Digest)
    requires i < |selectors| && Apart(selectors) && selectors[i] != []
    requires SelectsFrom(before, met, selectors[..i], exact, sha)
    ensures forall p | p in before :: !IsPrefix(selectors[i], p)
    ensures forall p | p in Ancestors(selectors[i]) && p in before :: before[p].Directory?
  {
    var s, done := selectors[i], selectors[..i];
    hide Ancestors, Under, Kept, Gathered, WellFormed;
    forall p | p in before && p != []
      ensures !IsPrefix(s, p) && (IsPrefix(p, s) ==> before[p].Directory?)
    {
      GatheredMeans(met, done, p);
      var j :| 0 <= j < |met| && (p in Ancestors(done[j]) || p in Under(met[j], done[j]));
      assert Holds(before, met[j], done[j], exact, sha);
      EarlierSelector(s, done[j], met[j], p);
      assert !IsPrefix(selectors[i], selectors[j]) && !IsPrefix(selectors[j], selectors[i]);
    }
    forall p | p in Ancestors(s) && p in before ensures before[p].Directory? {
      AncestorIs(p, s);
    }
  }

  lemma EarlierSelector(s: Path, r: Path, met: Tree, p: Path)
    requires !IsPrefix(s, r) && !IsPrefix(r, s) && (p in Ancestors(r) || p in Under(met, r))
    ensures !IsPrefix(s, p) && (IsPrefix(p, s) ==> p in Ancestors(r))
  {
    AncestorIs(p, r);
    if p in Ancestors(r) {
      if IsPrefix(s, p) {
        PrefixTransitive(s, p, r);
      }
    } else {
      if IsPrefix(s, p) {
        PrefixesOfOne(r, s, p);
      }
      if IsPrefix(p, s) {
        PrefixTransitive(r, p, s);
      }
    }
  }

  lemma FileIsAlone(source: Tree, s: Path)
    requires WellFormed(source) && s in source && !source[s].Directory?
    ensures Under(source, s) == {s}
  {
    assert s[..|s|] == s;
    forall p | p in Under(source, s) ensures p == s {
      if |p| > |s| {
        AncestorsExist(source, p, |s|);
      } else {
        assert p == p[..|s|];
      }
    }
  }

  /** The target once `s` and everything below it has been added to `before`. */
  ghost predicate Extends(target: Tree, before: Tree, met: Tree, s: Path, exact: bool, sha: Bytes -> Digest) {
    && target.Keys == before.Keys + Ancestors(s) + Under(met, s)
    && (forall p | p in before :: target[p] == before[p])
    && Holds(target, met, s, exact, sha)
  }

  lemma ShiftedIsUnder(source: Tree, s: Path, copy: Tree)
    requires s in source && copy.Keys == Subtree(source, s).Keys
    ensures Shifted(copy, s) == Under(source, s)
  {
    SubtreeAt(source, s);
    forall p | p in Under(source, s) ensures p in Shifted(copy, s) {
      assert s + p[|s|..] == p;
    }
    forall p | p in Shifted(copy, s) ensures p in Under(source, s) {
      var q :| q in copy && p == s + q;
      assert p[..|s|] == s;
    }
  }

  lemma CopiedNode(met: Tree, s: Path, copy: Tree, p: Path, exact: bool, sha: Bytes -> Digest)
    requires s in met && SameShape(Subtree(met, s), copy, sha) && p in Under(met, s)
    requires exact ==> SameTree(Subtree(met, s), copy)
    ensures p[|s|..] in copy && s + p[|s|..] == p && Kept(met[p], copy[p[|s|..]], exact, sha)
  {
    SubtreeAt(met, s);
    var q := p[|s|..];
    assert s + q == p;
    assert q in Subtree(met, s);
  }

  lemma GraftExtends(before: Tree, parents: Tree, met: Tree, s: Path, copy: Tree, exact: bool, sha: Bytes -> Digest)
    requires WellFormed(met) && s in met && HasParents(parents, before, s, |s|)
    requires SameShape(Subtree(met, s), copy, sha) && (exact ==> SameTree(Subtree(met, s), copy))
    requires forall p | p in before :: !IsPrefix(s, p)
    ensures Extends(Graft(parents, s, copy), before, met, s, exact, sha)
  {
    hide *;
    var after := Graft(parents, s, copy);
    ShapeKeys(Subtree(met, s), copy, sha);
    ShiftedIsUnder(met, s, copy);
    GraftKeeps(parents, s, copy);
    GraftedNodes(parents, met, s, copy, exact, sha);
    ParentsKeep(before, parents, s);
    AddedExtends(before, parents, after, met, s, exact, sha);
  }

  lemma ShapeKeys(t: Tree, u: Tree, sha: Bytes -> Digest)
    requires SameShape(t, u, sha)
    ensures t.Keys == u.Keys
  {
  }

  lemma ParentsKeep(before: Tree, parents: Tree, s: Path)
    requires HasParents(parents, before, s, |s|) && forall p | p in before :: !IsPrefix(s, p)
    ensures parents.Keys == before.Keys + Ancestors(s)
    ensures forall p | p in before :: parents[p] == before[p]
    ensures forall p | p in parents :: !IsPrefix(s, p)
    ensures forall p | p in Ancestors(s) :: p in parents && parents[p].Directory?
  {
    forall p | p in Ancestors(s) ensures !IsPrefix(s, p) {
      AncestorIs(p, s);
    }
  }

  lemma AddedExtends(before: Tree, parents: Tree, after: Tree, met: Tree, s: Path, exact: bool, sha: Bytes -> Digest)
    requires WellFormed(met) && s in met && parents.Keys == before.Keys + Ancestors(s)
    requires forall p | p in before :: parents[p] == before[p]
    requires forall p | p in parents :: !IsPrefix(s, p)
    requires forall p | p in Ancestors(s) :: p in parents && parents[p].Directory?
    requires after.Keys == parents.Keys + Under(met, s)
    requires forall p | p in parents && !IsPrefix(s, p) :: after[p] == parents[p]
    requires forall p | p in Under(met, s) :: p in after && Kept(met[p], after[p], exact, sha)
    ensures Extends(after, before, met, s, exact, sha)
  {
    hide WellFormed, Under, Ancestors, Kept, IsPrefix;
  }

  lemma GraftKeeps(parents: Tree, s: Path, copy: Tree)
    ensures Graft(parents, s, copy).Keys == parents.Keys + Shifted(copy, s)
    ensures forall p | p in parents && !IsPrefix(s, p) :: Graft(parents, s, copy)[p] == parents[p]
  {
    GraftAt(parents, s, copy);
  }

  lemma GraftedNodes(parents: Tree, met: Tree, s: Path, copy: Tree, exact: bool, sha: Bytes -> Digest)
    requires s in met && SameShape(Subtree(met, s), copy, sha) && (exact ==> SameTree(Subtree(met, s), copy))
    ensures forall p | p in Under(met, s) ::
              p in Graft(parents, s, copy) && Kept(met[p], Graft(parents, s, copy)[p], exact, sha)
  {
    GraftAt(parents, s, copy);
    hide Graft, Subtree, SameShape, SameTree, Kept;
    forall p | p in Under(met, s)
      ensures p in Graft(parents, s, copy) && Kept(met[p], Graft(parents, s, copy)[p], exact, sha) {
      CopiedNode(met, s, copy, p, exact, sha);
    }
  }

  lemma FileExtends(before: Tree, parents: Tree, met: Tree, s: Path, n: Node, exact: bool, sha: Bytes -> Digest)
    requires WellFormed(met) && s in met && met[s].File? && Kept(met[s], n, exact, sha)
    requires HasParents(parents, before, s, |s|) && s !in parents
    ensures Extends(parents[s := n], before, met, s, exact, sha)
  {
    FileIsAlone(met, s);
    hide Prefixes;
  }

  lemma ParentsMiss(target: Tree, before: Tree, s: Path)
    requires HasParents(target, before, s, |s|) && forall p | p in before :: !IsPrefix(s, p)
    ensures s !in target
  {
    assert s[..|s|] == s;
  }

  lemma SameKindOfTree(t: Tree, s: Path, n: Node)
    requires WellFormed(t) && s in t && t[s].File? && n.File?
    ensures WellFormed(t[s := n])
  {
  }

  /**
   Copies one selector from the source as it is right now. `met` is the tree it was
   met in: that same tree, except that a file being rewritten has the content that
   was read and hashed.
   */
  method CopySelector(current: Tree, before: Tree, s: Path, limits: Limits, hostile: bool, sha: Bytes -> Digest)
    returns (r: Outcome<Tree>, ghost met: Tree)
    requires WellFormed(current) && s != []
    requires forall p | p in Ancestors(s) && p in before :: before[p].Directory?
    requires forall p | p in before :: !IsPrefix(s, p)
    ensures r.Ok? ==> Extends(r.value, before, met, s, !hostile, sha)
    ensures !hostile ==> met == current
    ensures !hostile && Acceptable(current, limits) && limits.maxFiles + limits.maxDirectories <= U64_MAX
            ==> (r.Ok? <==> s in current)
  {
    hide Acceptable, SameShape, SameTree, Extends, HasParents, Graft, Subtree, Kept, Holds;
    met := current;
    var fails := IoFails(hostile);
    if fails || s !in current {
      return Err(Usage), met;
    }
    if !hostile && Acceptable(current, limits) && limits.maxFiles + limits.maxDirectories <= U64_MAX {
      SelectorAcceptable(current, s, limits);
    }
    var parents := CreateParents(before, s);
    fails := IoFails(hostile);
    if fails || parents.Err? {
      return Err(Io), met;
    }
    ParentsMiss(parents.value, before, s);
    match current[s] {
      case Directory(_) =>
        SubtreeWellFormed(current, s);
        var session := new CopySession(Subtree(current, s), None, hostile, false, sha);
        var copied, _ := session.CopyAuditedTree(limits);
        if copied.Err? {
          return Err(Policy), met;
        }
        GraftExtends(before, parents.value, met, s, session.target.value, !hostile, sha);
        r := Ok(Graft(parents.value, s, session.target.value));
      case File(_, _, _, _) =>
        var file := new AuditedFile(current[s], hostile, sha);
        var slot := new Slot();
        var content := CopyFileOnce(file, slot, limits);
        if content.Err? {
          return Err(Policy), met;
        }
        var identity: nat, modified: nat, created: nat := *, *, *;
        var node := File(content.value, identity, modified, created);
        if hostile {
          met := current[s := node];
          SameKindOfTree(current, s, node);
        }
        ItselfIsKept(met[s], node, !hostile, sha);
        FileExtends(before, parents.value, met, s, node, !hostile, sha);
        r := Ok(parents.value[s := node]);
      case Other =>
        r := Err(Policy);
    }
  }

  /** Opens, copies and re-reads one file. */
  method CopyFileOnce(file: AuditedFile, slot: Slot, limits: Limits) returns (r: Outcome<Bytes>)
    requires file.state.length == |file.content| && file.pathIdentity == file.state.identity && slot.content == None
    modifies file, slot
    ensures r.Ok? ==> |r.value| <= limits.maxSingleFileBytes
    ensures !file.hostile ==> (r.Ok? <==> |old(file.content)| <= limits.maxSingleFileBytes)
    ensures !file.hostile && r.Ok? ==> r.value == old(file.content)
  {
    var read := file.Fingerprinted(limits.maxSingleFileBytes);
    if read.Err? {
      return Err(Policy);
    }
    var copied, _, _ := file.CopyToNew(slot);
    if copied.Err? {
      return Err(Policy);
    }
    r := Ok(slot.content.value);
  }

  lemma ItselfIsKept(a: Node, b: Node, exact: bool, sha: Bytes -> Digest)
    requires a.File? && b.File? && a.content == b.content
    ensures Kept(a, b, exact, sha)
  {
  }

  lemma SelectorAcceptable(source: Tree, s: Path, limits: Limits)
    requires WellFormed(source) && Acceptable(source, limits) && s in source && s != []
    requires limits.maxFiles + limits.maxDirectories <= U64_MAX
    ensures !source[s].Other?
    ensures source[s].File? ==> |source[s].content| <= limits.maxSingleFileBytes
    ensures source[s].Directory? ==>
              && WellFormed(Subtree(source, s)) && Acceptable(Subtree(source, s), limits)
              && WithinCap(Subtree(source, s), SaturatingAdd(limits.maxFiles, limits.maxDirectories))
  {
    assert EntryAcceptable(source, s, limits);
    if source[s].Directory? {
      SubtreeWellFormed(source, s);
      SubtreeAcceptable(source, s, limits);
      CapIsImplied(Subtree(source, s), limits);
    }
  }

  /** Adding the next selector keeps the target exactly what was gathered. */
  lemma SelectsStep(
    before: Tree, after: Tree, met: seq<Tree>, selectors: seq<Path>, now: Tree, s: Path,
    exact: bool, sha: Bytes -> Digest)
    requires SelectsFrom(before, met, selectors, exact, sha) && Extends(after, before, now, s, exact, sha)
    ensures SelectsFrom(after, met + [now], selectors + [s], exact, sha)
  {
    hide Ancestors, Under, Kept, WellFormed;
    var all, most := selectors + [s], met + [now];
    assert most[..|met|] == met && all[..|met|] == selectors;
    forall j | 0 <= j < |met| ensures Holds(after, met[j], selectors[j], exact, sha) {
      assert Holds(before, met[j], selectors[j], exact, sha);
    }
  }

  lemma SelectsStart(target: Tree, exact: bool, sha: Bytes -> Digest)
    requires target.Keys == {[]} && target[[]].Directory?
    ensures SelectsFrom(target, [], [], exact, sha)
  {
  }

  lemma SelectsWellFormed(target: Tree, met: seq<Tree>, selectors: seq<Path>, exact: bool, sha: Bytes -> Digest)
    requires SelectsFrom(target, met, selectors, exact, sha)
    ensures WellFormed(target)
  {
    hide Ancestors, Under, Gathered, Kept;
    forall p | p in target && p != [] ensures Parent(p) in target && target[Parent(p)].Directory? {
      GatheredMeans(met, selectors, p);
      var j :| 0 <= j < |met| && (p in Ancestors(selectors[j]) || p in Under(met[j], selectors[j]));
      assert Holds(target, met[j], selectors[j], exact, sha);
      ParentIsHeld(met[j], selectors[j], p);
      if Parent(p) !in Ancestors(selectors[j]) {
        DirectoryIsKept(met[j][Parent(p)], target[Parent(p)], exact, sha);
      }
    }
  }

  lemma DirectoryIsKept(a: Node, b: Node, exact: bool, sha: Bytes -> Digest)
    requires a.Directory? && Kept(a, b, exact, sha)
    ensures b.Directory?
  {
  }

  lemma ParentIsHeld(met: Tree, s: Path, p: Path)
    requires WellFormed(met) && p != [] && (p in Ancestors(s) || p in Under(met, s))
    ensures Parent(p) in Ancestors(s) || (Parent(p) in Under(met, s) && Parent(p) in met && met[Parent(p)].Directory?)
  {
    var q := Parent(p);
    AncestorIs(p, s);
    AncestorIs(q, s);
    assert p[..|q|] == q && p[..|p|] == p;
    if p in Ancestors(s) {
      PrefixTransitive(q, p, s);
    } else if p == s {
      assert IsPrefix(q, s);
    } else {
      assert q[..|s|] == p[..|s|];
    }
  }

  function Restrict(source: Tree, paths: set<Path>): Tree {
    map p | p in source && p in paths :: source[p]
  }

  lemma {:induction false} RestrictSummary(source: Tree, paths: set<Path>, s: set<Path>)
    requires s <= paths <= source.Keys
    ensures SummaryOf(Restrict(source, paths), s) == SummaryOf(source, s)
    decreases |s|
  {
    var part := Restrict(source, paths);
    if s == {} {
      EmptySummary(part);
      EmptySummary(source);
    } else {
      var p :| p in s;
      RestrictSummary(source, paths, s - {p});
      assert s - {p} + {p} == s;
      SummaryAdd(part, s - {p}, p);
      SummaryAdd(source, s - {p}, p);
    }
  }

  /** With a source that holds still, what was gathered is exactly the selected part of it. */
  lemma SelectsMeaning(
    target: Tree, source: Tree, selectors: seq<Path>, met: seq<Tree>, exact: bool, sha: Bytes -> Digest)
    requires WellFormed(source) && SelectsFrom(target, met, selectors, exact, sha) && forall t | t in met :: t == source
    ensures target.Keys == SelectedPaths(source, selectors) <= source.Keys
    ensures forall p | p in target :: Kept(source[p], target[p], exact, sha)
  {
    hide Ancestors, Under, Gathered, Kept;
    forall p ensures p in target <==> p in SelectedPaths(source, selectors) {
      GatheredMeans(met, selectors, p);
      if p in target && p != [] {
        var j :| 0 <= j < |met| && (p in Ancestors(selectors[j]) || p in Under(met[j], selectors[j]));
        assert met[j] in met && selectors[j] in selectors;
        assert Holds(target, met[j], selectors[j], exact, sha);
        HeldIsSelected(source, selectors[j], p);
      }
      if p in SelectedPaths(source, selectors) && p != [] {
        var s :| s in selectors && (IsPrefix(p, s) || IsPrefix(s, p));
        var j :| 0 <= j < |selectors| && selectors[j] == s;
        assert met[j] in met;
        SelectedIsHeld(source, s, p);
      }
    }
    forall p | p in target ensures Kept(source[p], target[p], exact, sha) {
      if p == [] {
        DirectoriesAreKept(source[p], target[p], exact, sha);
      } else {
        GatheredMeans(met, selectors, p);
        var j :| 0 <= j < |met| && (p in Ancestors(selectors[j]) || p in Under(met[j], selectors[j]));
        assert met[j] in met;
        assert Holds(target, met[j], selectors[j], exact, sha);
        HeldIsSelected(source, selectors[j], p);
        if p in Ancestors(selectors[j]) {
          DirectoriesAreKept(source[p], target[p], exact, sha);
        }
      }
    }
  }

  lemma DirectoriesAreKept(a: Node, b: Node, exact: bool, sha: Bytes -> Digest)
    requires a.Directory? && b.Directory?
    ensures Kept(a, b, exact, sha)
  {
  }

  lemma HeldIsSelected(source: Tree, s: Path, p: Path)
    requires WellFormed(source) && s in source && (p in Ancestors(s) || p in Under(source, s))
    ensures p in source && (IsPrefix(p, s) || IsPrefix(s, p))
    ensures p in Ancestors(s) ==> source[p].Directory?
  {
    AncestorIs(p, s);
    assert s[..|s|] == s;
    if p in Ancestors(s) {
      AncestorsExist(source, s, |p|);
    }
  }

  lemma SelectedIsHeld(source: Tree, s: Path, p: Path)
    requires p in source && (IsPrefix(p, s) || IsPrefix(s, p))
    ensures p in Ancestors(s) || p in Under(source, s)
  {
    AncestorIs(p, s);
    assert s[..|s|] == s;
  }

  /** The selected part of an acceptable tree is itself acceptable. */
  lemma SelectsAcceptable(
    source: Tree, selectors: seq<Path>, target: Tree, met: seq<Tree>, limits: Limits, exact: bool, sha: Bytes -> Digest)
    requires WellFormed(source) && Acceptable(source, limits)
    requires limits.maxFiles + limits.maxDirectories <= U64_MAX
    requires SelectsFrom(target, met, selectors, exact, sha) && forall t | t in met :: t == source
    ensures WellFormed(target) && Acceptable(target, limits)
    ensures WithinCap(target, SaturatingAdd(limits.maxFiles, limits.maxDirectories))
  {
    SelectsWellFormed(target, met, selectors, exact, sha);
    SelectsMeaning(target, source, selectors, met, exact, sha);
    var paths := SelectedPaths(source, selectors);
    var part := Restrict(source, paths);
    assert SameShape(part, target, sha);
    RestrictSummary(source, paths, Below(part));
    hide SelectedPaths, SelectsFrom, ValidPath, SummaryOf, Kept;
    AcceptableSubset(source, Below(part), Below(source), limits);
    forall p | p in Below(part) ensures EntryAcceptable(part, p, limits) {
      assert EntryAcceptable(source, p, limits);
    }
    RestrictWellFormed(part, target, sha);
    CapIsImplied(part, limits);
    SameShapeAcceptable(part, target, limits, limits.maxFiles + limits.maxDirectories, sha);
  }

  lemma RestrictWellFormed(part: Tree, target: Tree, sha: Bytes -> Digest)
    requires SameShape(part, target, sha) && WellFormed(target)
    ensures WellFormed(part)
  {
  }

  /** Selector by selector, each from the source as it is by then. */
  method CopySelectors(source: Tree, selectors: seq<Path>, limits: Limits, hostile: bool, sha: Bytes -> Digest)
    returns (r: Outcome<Tree>, ghost met: seq<Tree>)
    requires WellFormed(source) && Apart(selectors) && forall s | s in selectors :: s != []
    ensures r.Ok? ==> SelectsFrom(r.value, met, selectors, !hostile, sha)
    ensures !hostile ==> forall t | t in met :: t == source
    ensures !hostile && Acceptable(source, limits) && limits.maxFiles + limits.maxDirectories <= U64_MAX
            ==> (r.Ok? <==> forall s | s in selectors :: s in source)
  {
    hide SelectsFrom, Acceptable, Apart, Extends, Ancestors;
    met := [];
    var identity: nat := *;
    var target: Tree := map[[] := Directory(identity)];
    SelectsStart(target, !hostile, sha);
    assert selectors[..0] == [];
    for i := 0 to |selectors|
      invariant SelectsFrom(target, met, selectors[..i], !hostile, sha)
      invariant !hostile ==> forall t | t in met :: t == source
      invariant !hostile ==> forall s | s in selectors[..i] :: s in source
    {
      var s := selectors[i];
      assert s in selectors && selectors[..i + 1] == selectors[..i] + [s];
      SelectorFits(target, met, selectors, i, !hostile, sha);
      var current := Current(source, hostile);
      var next, now := CopySelector(current, target, s, limits, hostile, sha);
      if next.Err? {
        return Err(Usage), met;
      }
      SelectsStep(target, next.value, met, selectors[..i], now, s, !hostile, sha);
      CopiedFrom(next.value, target, now, s, !hostile, sha);
      target := next.value;
      met := met + [now];
    }
    assert selectors[..|selectors|] == selectors;
    r := Ok(target);
  }

  lemma CopiedFrom(target: Tree, before: Tree, met: Tree, s: Path, exact: bool, sha: Bytes -> Digest)
    requires Extends(target, before, met, s, exact, sha)
    ensures s in met
  {
  }

  /** The source by now: anything, if others may write to it. */
  method Current(source: Tree, hostile: bool) returns (current: Tree)
    requires WellFormed(source)
    ensures WellFormed(current) && (!hostile ==> current == source)
  {
    var changed: Tree := *;
    current := if hostile && WellFormed(changed) then changed else source;
  }

  /**
   What happened around the target: what another party had put there after it was
   found absent, whether making it was attempted, and what became of the removal that
   follows a failed attempt.
   */
  datatype Selecting = Selecting(intruder: Option<Tree>, attempted: bool, removal: Removal)

  /**
   Selects from a source that others may rewrite at any time. Success means the
   selectors are unambiguous, nobody had made the target, and it now holds the
   ancestors of the selectors and each selected subtree as one audit met it, no copy
   ever having met an existing target; and the source as it was at the end (`last`)
   had its first fingerprint again. A target that exists at the start, or is `nested`
   with the source, is never touched. One that appears after it was found absent makes
   the attempt fail, and the removal then meets it; a failed attempt leaves something
   exactly if that removal fails. When the source holds still, success occurs exactly
   if the selectors are unambiguous and present and the source is acceptable, and the
   target is precisely the selected paths with the same contents.
   */
  method MaterializeSelection(
    source: Tree, existing: Option<Tree>, nested: bool, texts: seq<Bytes>, limits: Limits, fold: Name -> Name,
    hostile: bool, sha: Bytes -> Digest)
    returns (
      r: Outcome<AuditSummary>, target: Option<Tree>, ghost met: seq<Tree>, ghost order: seq<Path>, ghost last: Tree,
      ghost e: Selecting)
    requires WellFormed(source)
    ensures r.Ok? ==> Selectable(texts, limits, fold) && existing.None? && Acceptable(source, limits)
    ensures r.Ok? ==> target.Some? && Sorted(order) && Elements(order) == Elements(Parsed(texts))
    ensures r.Ok? ==> SelectsFrom(target.value, met, order, !hostile, sha)
    ensures r.Ok? ==> WellFormed(target.value) && Acceptable(target.value, limits) && r.value == Summary(target.value)
    ensures r.Ok? ==> WellFormed(last) && Acceptable(last, limits)
    ensures r.Ok? ==> FingerprintOfTree(last, sha) == FingerprintOfTree(source, sha)
    ensures e.intruder.Some? ==> r.Err?
    ensures existing.Some? || nested ==> r.Err? && !e.attempted && target == existing
    ensures !e.attempted ==> r.Err? && (existing.None? ==> target == e.intruder)
    ensures e.attempted && r.Err? ==> (target.Some? <==> e.removal.NotRemoved?)
    ensures e.attempted && e.intruder.Some? && target.Some? ==> target.value.Keys <= e.intruder.value.Keys
    ensures !hostile ==> e.intruder.None? && !e.removal.NotRemoved?
    ensures !hostile ==>
              (r.Ok? <==> && Selectable(texts, limits, fold) && existing.None? && !nested && Acceptable(source, limits)
                          && forall p | p in Parsed(texts) :: p in source)
    ensures !hostile && r.Ok? ==>
              && target.value.Keys == SelectedPaths(source, Parsed(texts))
              && forall p | p in target.value :: SameNode(source[p], target.value[p])
  {
    hide SelectsFrom, Acceptable, SelectedPaths, WellFormed, Antichain, FingerprintOfTree, Kept;
    met, order, target, last, e := [], [], existing, map[], Selecting(None, false, NothingMade);
    var selectors := ValidateSelectors(texts, limits, fold);
    if selectors.Err? {
      r := Err(selectors.error);
      return;
    }
    if nested {
      r := Err(Policy);
      return;
    }
    if target.Some? {
      r := Err(Usage);
      return;
    }
    target := Intruder(hostile);
    e := e.(intruder := target);
    if Acceptable(source, limits) {
      CapIsImplied(source, limits);
    }
    var before := BuildTreeAudit(source, limits, sha);
    if before.Err? {
      r := Err(Policy);
      return;
    }
    order := selectors.value;
    SelectorsReady(texts, order, limits, fold);
    SameMembers(texts, order);
    r, target, met, last := CopyAndCompare(source, target, selectors.value, before.value.fingerprint,
      limits, hostile, sha);
    e := e.(attempted := true);
    if r.Err? {
      ghost var removal;
      target, removal := Discard(target, hostile);
      e := e.(removal := removal);
    } else if !hostile {
      SelectsMeaning(target.value, source, order, met, true, sha);
      SelectedSame(source, order, Parsed(texts));
      KeptIsSame(source, target.value, sha);
    }
  }

  /** A directory that another party makes at the target after it was found absent. */
  method Intruder(hostile: bool) returns (target: Option<Tree>)
    ensures !hostile ==> target == None
  {
    var appeared: Option<Tree> := *;
    target := if hostile then appeared else None;
  }

  /**
   Everything between creating the target and accepting it; `present` is what is
   there when it should be created.
   */
  method CopyAndCompare(
    source: Tree, present: Option<Tree>, order: seq<Path>, before: TreeFingerprint, limits: Limits, hostile: bool,
    sha: Bytes -> Digest)
    returns (r: Outcome<AuditSummary>, target: Option<Tree>, ghost met: seq<Tree>, ghost last: Tree)
    requires WellFormed(source) && Apart(order) && forall s | s in order :: s != []
    requires Acceptable(source, limits) && limits.maxFiles + limits.maxDirectories <= U64_MAX
    requires before == FingerprintOfTree(source, sha)
    requires WithinCap(source, SaturatingAdd(limits.maxFiles, limits.maxDirectories))
    ensures present.Some? ==> r.Err? && target == present
    ensures r.Ok? ==> target.Some? && SelectsFrom(target.value, met, order, !hostile, sha)
    ensures r.Ok? ==> WellFormed(target.value) && Acceptable(target.value, limits) && r.value == Summary(target.value)
    ensures r.Ok? ==> WellFormed(last) && Acceptable(last, limits) && FingerprintOfTree(last, sha) == before
    ensures !hostile && present.None? ==> (r.Ok? <==> forall s | s in order :: s in source)
    ensures !hostile ==> forall t | t in met :: t == source
  {
    hide SelectsFrom, Acceptable, WellFormed, Apart, FingerprintOfTree, WithinCap;
    met, last, target := [], map[], present;
    var fails := IoFails(hostile);
    if fails || target.Some? {
      r := Err(Io);
      return;
    }
    var partial: Tree := *;
    target := Some(partial);
    var copy;
    copy, met := CopySelectors(source, order, limits, hostile, sha);
    if copy.Err? {
      r := Err(Usage);
      return;
    }
    SelectsWellFormed(copy.value, met, order, !hostile, sha);
    if !hostile {
      SelectsAcceptable(source, order, copy.value, met, limits, true, sha);
    }
    AuditSummaryIs(copy.value, sha);
    AuditSummaryIs(source, sha);
    var selected := BuildTreeAudit(copy.value, limits, sha);
    var now := Current(source, hostile);
    last := now;
    AuditSummaryIs(now, sha);
    var after := BuildTreeAudit(now, limits, sha);
    if selected.Err? || after.Err? || after.value.fingerprint != before {
      r := Err(Policy);
      return;
    }
    r, target := Ok(selected.value.fingerprint.summary), Some(copy.value);
  }

  /** `remove_dir_all` on a target that was not accepted, its result discarded; a failing one leaves some of it. */
  method Discard(present: Option<Tree>, hostile: bool) returns (target: Option<Tree>, ghost removal: Removal)
    ensures removal == if target.Some? then NotRemoved else if present.None? then NothingMade else Removed
    ensures target.Some? ==> present.Some? && target.value.Keys <= present.value.Keys
    ensures !hostile ==> target.None?
  {
    var fails := IoFails(hostile);
    var rest: Tree := *;
    if present.None? {
      return None, NothingMade;
    }
    target := if !fails then None else if rest.Keys <= present.value.Keys then Some(rest) else present;
    removal := if fails then NotRemoved else Removed;
  }

  lemma KeptIsSame(source: Tree, target: Tree, sha: Bytes -> Digest)
    requires target.Keys <= source.Keys && forall p | p in target :: Kept(source[p], target[p], true, sha)
    ensures forall p | p in target :: SameNode(source[p], target[p])
  {
    hide SameNode, Alike;
  }

  lemma AuditSummaryIs(t: Tree, sha: Bytes -> Digest)
    ensures AuditOf(t, sha).fingerprint.summary == Summary(t)
    ensures AuditOf(t, sha).fingerprint == FingerprintOfTree(t, sha)
  {
  }

  lemma SelectorsReady(texts: seq<Bytes>, order: seq<Path>, limits: Limits, fold: Name -> Name)
    requires Selectable(texts, limits, fold) && Sorted(order) && Elements(order) == Elements(Parsed(texts))
    ensures Apart(order) && forall s | s in order :: s != []
  {
    AntichainPaths(Parsed(texts), order, fold);
    forall s | s in order ensures s != [] {
      assert s in Elements(order);
      assert s in Parsed(texts);
    }
  }

  lemma SameMembers(texts: seq<Bytes>, order: seq<Path>)
    requires Elements(order) == Elements(Parsed(texts))
    ensures forall p :: p in order <==> p in Parsed(texts)
  {
    assert forall p :: p in order <==> p in Elements(order);
    assert forall p :: p in Parsed(texts) <==> p in Elements(Parsed(texts));
  }

  lemma SelectedSame(source: Tree, order: seq<Path>, all: seq<Path>)
    requires forall p :: p in order <==> p in all
    ensures SelectedPaths(source, order) == SelectedPaths(source, all)
  {
    forall p ensures IsSelected(p, order) <==> IsSelected(p, all) {
    }
  }
}
