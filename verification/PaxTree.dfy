/** `write_tree_archive` (`src/pax.rs`): a whole directory tree as one pax archive, and back. */
module PaxTree {
  import opened Base
  import opened Paths
  import opened Policy
  import opened Trees
  import opened PaxFormat
  import opened Fingerprint
  import opened Snapshot
  import Pax
  import Walks

  function EntryAt(p: Path, n: Node): Entry {
    Entry(p, Walks.KindOf(n), if n.File? then n.content else [])
  }

  function EntriesOf(t: Tree, order: seq<Path>): (entries: seq<Entry>)
    requires forall p | p in order :: p in t
    ensures |entries| == |order|
  {
    seq(|order|, i requires 0 <= i < |order| => EntryAt(order[i], t[order[i]]))
  }

  /** The entries of a tree in path order. */
  ghost function TreeEntries(t: Tree): seq<Entry> {
    var order := SortedPaths(Below(t));
    assert forall p | p in order :: p in Elements(order);
    EntriesOf(t, order)
  }

  /** The text of every entry's attributes fits the size field of its extended header. */
  ghost predicate AttributesFit(t: Tree) {
    forall p | p in Below(t) :: AttributesFitAt(t, p)
  }

  ghost predicate AttributesFitAt(t: Tree, p: Path)
    requires p in t
  {
    |Attributes(p, Walks.KindOf(t[p]), SizeAt(t, p))| <= USTAR_SIZE_MAX
  }

  /* ----- Writing ----- */

  /**
   Enumerates, then writes to a new file. Whatever happens to the tree's files after
   the enumeration, success means that the file is a complete archive: a reader gets
   back `entries`, which are the enumerated paths and kinds. A tree that holds still
   is archived exactly when it is acceptable, its paths are not absurdly long and the
   device has room, and then with its own contents. A failure after the enumeration
   removes whatever is at the output, if that works, be it a file that was already
   there and made the creation fail.
   */
  method WriteTree(
    t: Tree, limits: Limits, capacity: nat, hostile: bool, sha: Bytes -> Digest, output: Slot)
    returns (r: Outcome<Unit>, ghost entries: seq<Entry>, ghost met: seq<Node>, ghost removal: Removal)
    requires WellFormed(t) && capacity <= U64_MAX
    modifies output
    ensures r.Ok? ==> output.content == Some(Archive(entries)) && |Archive(entries)| <= capacity
    ensures r.Ok? ==> ReadArchive(Archive(entries)) == Some(entries)
    ensures r.Ok? ==> Acceptable(t, limits) && Pax.SameListing(entries, TreeEntries(t))
    ensures r.Ok? ==> Pax.FoundAsPlanned(met, TreeEntries(t))
    ensures r.Ok? ==> old(output.content) == None
    ensures r.Err? && (old(output.content).None? || !removal.NothingMade?)
            ==> (output.content.None? <==> !removal.NotRemoved?)
    ensures r.Err? && removal.NothingMade? ==> output.content == old(output.content)
    ensures old(output.content).Some? && Acceptable(t, limits) && limits.maxFiles + limits.maxDirectories <= U64_MAX
            ==> !removal.NothingMade?
    ensures !hostile ==> !removal.NotRemoved?
    ensures !hostile ==>
              (r.Ok? <==>
                 && old(output.content).None? && Acceptable(t, limits)
                 && limits.maxFiles + limits.maxDirectories <= U64_MAX
                 && AttributesFit(t) && |Archive(TreeEntries(t))| <= capacity)
    ensures !hostile && r.Ok? ==> entries == TreeEntries(t)
  {
    hide AttributesFit, Acceptable, Archive, ReadArchive, TreeEntries, SortedPaths, Pax.Archivable, Sorted, Elements,
      Pax.SameListing, Pax.DirectoriesAreEmpty, Pax.FoundAsPlanned;
    entries, met, removal := [], [], NothingMade;
    var listing := Walks.EnumerateTree(t, limits);
    if listing.Err? {
      r := Err(listing.error);
      return;
    }
    var order := listing.value.order;
    ListedInOrder(t, listing.value);
    EntriesAreFilesOrEmpty(t, order);
    ArchivableExactly(t, limits);
    var fails := IoFails(hostile);
    if output.content.Some? {
      removal := RemoveOutput(output, hostile);
      r := Err(Io);
      return;
    }
    if fails {
      r := Err(Io);
      return;
    }
    var written;
    written, entries, met := Pax.WriteTreeArchive(EntriesOf(t, order), limits, capacity, hostile, sha);
    fails := IoFails(hostile);
    if fails || written.Err? {
      var partial: Bytes := *;
      output.content := Some(partial);
      removal := RemoveOutput(output, hostile);
      r := Err(Policy);
      return;
    }
    Pax.ArchiveRoundTrip(entries, limits);
    output.content := Some(written.value);
    r := Ok(Unit);
  }

  /** `remove_file`, its result discarded. */
  method RemoveOutput(output: Slot, hostile: bool) returns (ghost removal: Removal)
    requires output.content.Some?
    modifies output
    ensures removal == if output.content.None? then Removed else NotRemoved
    ensures output.content.Some? ==> output.content == old(output.content)
    ensures !hostile ==> output.content.None?
  {
    var fails := IoFails(hostile);
    output.content := if fails then output.content else None;
    removal := if fails then NotRemoved else Removed;
  }

  lemma ListedInOrder(t: Tree, listing: Walks.Listing)
    requires Walks.Lists(listing, t, Below(t))
    ensures (forall p | p in listing.order :: p in t) && EntriesOf(t, listing.order) == TreeEntries(t)
  {
    assert forall p | p in listing.order :: p in Elements(listing.order);
    SortedUnique(listing.order, SortedPaths(Below(t)));
  }

  lemma EntriesAreFilesOrEmpty(t: Tree, order: seq<Path>)
    requires forall p | p in order :: p in t
    ensures Pax.DirectoriesAreEmpty(EntriesOf(t, order))
  {
  }

  lemma {:induction false} BelowSize(t: Tree, s: set<Path>)
    requires s <= t.Keys && forall p | p in s :: !t[p].Other?
    ensures |s| == SummaryOf(t, s).files + SummaryOf(t, s).directories
  {
    assert s == FilesIn(t, s) + DirectoriesIn(t, s);
    assert FilesIn(t, s) !! DirectoriesIn(t, s);
  }

  lemma MemberArchivableExactly(t: Tree, i: nat, p: Path, limits: Limits)
    requires i <= U64_MAX && p in t && EntryAcceptable(t, p, limits)
    ensures Pax.MemberArchivable(i, EntryAt(p, t[p]), limits) <==> AttributesFitAt(t, p)
  {
    hide ValidPath, Encodable, Attributes;
    Pax.EncodableExactly(i, p, Walks.KindOf(t[p]), SizeAt(t, p));
  }

  lemma ArchivableOn(t: Tree, order: seq<Path>, limits: Limits)
    requires |order| <= U64_MAX && (forall p | p in order :: p in t && EntryAcceptable(t, p, limits))
    ensures Pax.Archivable(EntriesOf(t, order), limits) <==> forall p | p in order :: AttributesFitAt(t, p)
  {
    hide EntryAcceptable, Pax.MemberArchivable, AttributesFitAt, EntryAt;
    var entries := EntriesOf(t, order);
    forall i | 0 <= i < |order|
      ensures Pax.MemberArchivable(i, entries[i], limits) <==> AttributesFitAt(t, order[i])
    {
      assert order[i] in order;
      MemberArchivableExactly(t, i, order[i], limits);
    }
  }

  lemma AcceptableSize(t: Tree, limits: Limits)
    requires Acceptable(t, limits) && limits.maxFiles + limits.maxDirectories <= U64_MAX
    ensures |Below(t)| <= U64_MAX && forall p | p in Below(t) :: EntryAcceptable(t, p, limits)
  {
    assert forall p | p in Below(t) :: EntryAcceptable(t, p, limits);
    BelowSize(t, Below(t));
  }

  lemma ArchivableExactly(t: Tree, limits: Limits)
    requires Acceptable(t, limits) && limits.maxFiles + limits.maxDirectories <= U64_MAX
    ensures Pax.Archivable(TreeEntries(t), limits) <==> AttributesFit(t)
  {
    var order := SortedPaths(Below(t));
    AcceptableSize(t, limits);
    hide Acceptable, EntryAcceptable, Pax.Archivable, AttributesFitAt, EntriesOf, SortedPaths, Sorted;
    assert forall p :: p in order <==> p in Elements(order);
    ArchivableOn(t, order, limits);
  }

  /* ----- Reading back ----- */

  function Unpacked(e: Entry): Node {
    if e.kind.Directory? then Node.Directory(0) else Node.File(e.content, 0, 0, 0)
  }

  /**
   Rebuilds a tree by taking entries one at a time, refusing a path that is
   already there and a path whose parent directory has not come before it.
   Names, kinds and contents are all an archive carries.
   */
  function Rebuild(entries: seq<Entry>): Option<Tree> {
    if entries == [] then Some(map[[] := Node.Directory(0)])
    else
      match Rebuild(entries[..|entries| - 1])
      case None => None
      case Some(t) => AddEntry(t, entries[|entries| - 1])
  }

  function AddEntry(t: Tree, e: Entry): Option<Tree> {
    if e.path == [] || e.path in t || Parent(e.path) !in t || !t[Parent(e.path)].Directory? then None
    else Some(t[e.path := Unpacked(e)])
  }

  ghost predicate SameOn(t: Tree, u: Tree, s: set<Path>) {
    u.Keys == s && s <= t.Keys && forall p | p in s :: SameNode(t[p], u[p])
  }

  lemma AddKeepsSame(t: Tree, u: Tree, s: set<Path>, p: Path)
    requires SameOn(t, u, s) && p in t && !t[p].Other? && p != [] && p !in s
    requires Parent(p) in s && t[Parent(p)].Directory?
    ensures AddEntry(u, EntryAt(p, t[p])).Some?
    ensures SameOn(t, AddEntry(u, EntryAt(p, t[p])).value, s + {p})
  {
    assert SameNode(t[Parent(p)], u[Parent(p)]);
  }

  /** In path order a parent comes before its children, so every prefix of the listing is a tree. */
  lemma {:induction false} RebuildPrefix(t: Tree, order: seq<Path>, n: nat)
    requires WellFormed(t) && Sorted(order) && Elements(order) == Below(t) && n <= |order|
    requires forall p | p in order :: p in t && !t[p].Other?
    ensures Rebuild(EntriesOf(t, order[..n])).Some?
    ensures SameOn(t, Rebuild(EntriesOf(t, order[..n])).value, {[]} + Elements(order[..n]))
  {
    if n > 0 {
      RebuildPrefix(t, order, n - 1);
      ParentComesFirst(t, order, n - 1);
      ListingStep(t, order, n - 1);
      hide Sorted, SameOn, WellFormed, AddEntry, EntryAt;
      var p := order[n - 1];
      AddKeepsSame(t, Rebuild(EntriesOf(t, order[..n - 1])).value, {[]} + Elements(order[..n - 1]), p);
      assert {[]} + Elements(order[..n]) == {[]} + Elements(order[..n - 1]) + {p};
    }
  }

  lemma ListingStep(t: Tree, order: seq<Path>, n: nat)
    requires n < |order| && forall p | p in order :: p in t
    ensures EntriesOf(t, order[..n + 1])[..n] == EntriesOf(t, order[..n])
    ensures EntriesOf(t, order[..n + 1])[n] == EntryAt(order[n], t[order[n]])
    ensures Elements(order[..n + 1]) == Elements(order[..n]) + {order[n]}
  {
    assert order[..n + 1] == order[..n] + [order[n]];
  }

  /** Every directory precedes its descendants. */
  lemma ParentComesFirst(t: Tree, order: seq<Path>, n: nat)
    requires WellFormed(t) && Sorted(order) && Elements(order) == Below(t) && n < |order|
    ensures order[n] != [] && order[n] !in Elements(order[..n])
    ensures Parent(order[n]) in {[]} + Elements(order[..n])
    ensures order[n] in t && Parent(order[n]) in t && t[Parent(order[n])].Directory?
  {
    var p := order[n];
    assert p in Elements(order);
    forall i | 0 <= i < n ensures order[i] != p {
      PathTrichotomy(order[i], p);
    }
    var q := Parent(p);
    if q != [] {
      assert q in Elements(order);
      var i :| 0 <= i < |order| && order[i] == q;
      assert IsPrefix(q, p);
      AncestorIsLess(q, p);
      PathTrichotomy(q, p);
      assert i < n;
      assert order[..n][i] == q;
    }
  }

  lemma TreeRebuilds(t: Tree)
    requires WellFormed(t) && forall p | p in t :: !t[p].Other?
    ensures Rebuild(TreeEntries(t)).Some? && SameTree(t, Rebuild(TreeEntries(t)).value)
  {
    var order := SortedPaths(Below(t));
    assert forall p | p in order :: p in Elements(order);
    RebuildPrefix(t, order, |order|);
    hide Sorted, SortedPaths, Rebuild, WellFormed;
    assert order[..|order|] == order;
    assert {[]} + Elements(order) == t.Keys by {
      assert [] in t by { IsRooted(t); }
    }
  }

  lemma IsRooted(t: Tree)
    requires WellFormed(t)
    ensures [] in t && t[[]].Directory?
  {
  }

  /**
   Unpacking what was packed gives the same tree, for every tree the writer
   accepts, and never needs a directory that has not been unpacked yet.
   */
  lemma TreeRoundTrip(t: Tree, limits: Limits)
    requires WellFormed(t) && Acceptable(t, limits) && AttributesFit(t)
    requires limits.maxFiles + limits.maxDirectories <= U64_MAX
    ensures ReadArchive(Archive(TreeEntries(t))) == Some(TreeEntries(t))
    ensures Rebuild(TreeEntries(t)).Some? && SameTree(t, Rebuild(TreeEntries(t)).value)
  {
    hide Archive, ReadArchive, Pax.Archivable, AttributesFit, ValidPath, Rebuild, SameTree, EntriesOf, SortedPaths;
    ArchivableExactly(t, limits);
    IsRooted(t);
    forall p | p in t ensures !t[p].Other? {
      assert p != [] ==> EntryAcceptable(t, p, limits);
    }
    TreeRebuilds(t);
    TreeEntriesPlain(t);
    Pax.ArchiveRoundTrip(TreeEntries(t), limits);
  }

  lemma TreeEntriesPlain(t: Tree)
    ensures Pax.DirectoriesAreEmpty(TreeEntries(t))
  {
  }
}
