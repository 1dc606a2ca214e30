/**
 Tree fingerprints (`src/transfer.rs`): the byte stream fed to SHA-256, why it
 determines the tree, and the two-phase audit that computes it. SHA-256 is an
 arbitrary function `sha`; no theorem assumes it to be injective, each one names
 the two byte strings that would have to collide.
 */
module Fingerprint {
  import opened Base
  import opened Paths
  import opened Streams
  import opened Policy
  import opened Trees

  const DIGEST_BYTES: nat := 32

  type Digest = d: Bytes | |d| == DIGEST_BYTES witness seq(DIGEST_BYTES, _ => 0)

  /** The separator `Path::to_str` shows on Windows. */
  const MAIN_SEPARATOR: Byte := BACKSLASH

  datatype FileFingerprint = FileFingerprint(
    identity: nat, length: nat, modified: nat, created: nat, sha256: Digest)

  datatype TreeFingerprint = TreeFingerprint(summary: AuditSummary, sha256: Digest)

  datatype TreeAudit = TreeAudit(
    fingerprint: TreeFingerprint, files: map<Path, FileFingerprint>, directories: map<Path, nat>)

  /** What `AuditedFile::open` reports about a file that holds still. */
  function FingerprintOf(n: Node, sha: Bytes -> Digest): FileFingerprint
    requires n.File?
  {
    FileFingerprint(n.identity, |n.content|, n.modified, n.created, sha(n.content))
  }

  /* ----- The stream ----- */

  datatype Item = DirectoryItem(text: Bytes) | FileItem(text: Bytes, length: nat, sha256: Digest)

  const TAG_DIRECTORY: Byte := 68
  const TAG_FILE: Byte := 70

  function ItemBytes(item: Item): Bytes {
    match item
    case DirectoryItem(text) => [TAG_DIRECTORY] + Little(|text|, 8) + text
    case FileItem(text, length, sha256) => [TAG_FILE] + Little(|text|, 8) + text + Little(length, 8) + sha256
  }

  predicate Sized(item: Item) {
    |item.text| <= U64_MAX && (item.FileItem? ==> item.length <= U64_MAX)
  }

  function ReadText(b: Bytes): Option<Bytes> {
    if |b| < 8 || |b| - 8 < ReadLittle(b[..8]) then None else Some(b[8..8 + ReadLittle(b[..8])])
  }

  /** A reader for the stream: tag, length, text and, for files, length and digest. */
  function ReadItems(b: Bytes): Option<seq<Item>>
    decreases |b|
  {
    if b == [] then Some([])
    else
      match ReadText(b[1..])
      case None => None
      case Some(text) =>
        var rest := b[9 + |text|..];
        if b[0] == 'D' as int as Byte then Prepend(DirectoryItem(text), ReadItems(rest))
        else if b[0] == 'F' as int as Byte && |rest| >= 40 then
          Prepend(FileItem(text, ReadLittle(rest[..8]), rest[8..40]), ReadItems(rest[40..]))
        else None
  }

  /** The sum of eight bytes by their places, the least significant one first. */
  function EightBytes(b: Bytes): nat
    requires |b| == 8
  {
    b[0] as nat + 0x100 * b[1] as nat + 0x1_0000 * b[2] as nat + 0x100_0000 * b[3] as nat
    + 0x1_0000_0000 * b[4] as nat + 0x100_0000_0000 * b[5] as nat + 0x1_0000_0000_0000 * b[6] as nat
    + 0x100_0000_0000_0000 * b[7] as nat
  }

  lemma ReadOfEight(b: Bytes)
    requires |b| == 8
    ensures ReadLittle(b) == EightBytes(b)
  {
    assert ReadLittle(b[8..]) == 0;
    assert ReadLittle(b[7..]) == b[7] as nat + 256 * ReadLittle(b[7..][1..]) && b[7..][1..] == b[8..];
    assert ReadLittle(b[6..]) == b[6] as nat + 256 * ReadLittle(b[6..][1..]) && b[6..][1..] == b[7..];
    assert ReadLittle(b[5..]) == b[5] as nat + 256 * ReadLittle(b[5..][1..]) && b[5..][1..] == b[6..];
    assert ReadLittle(b[4..]) == b[4] as nat + 256 * ReadLittle(b[4..][1..]) && b[4..][1..] == b[5..];
    assert ReadLittle(b[3..]) == b[3] as nat + 256 * ReadLittle(b[3..][1..]) && b[3..][1..] == b[4..];
    assert ReadLittle(b[2..]) == b[2] as nat + 256 * ReadLittle(b[2..][1..]) && b[2..][1..] == b[3..];
    assert ReadLittle(b[1..]) == b[1] as nat + 256 * ReadLittle(b[1..][1..]) && b[1..][1..] == b[2..];
  }

  /** Byte by byte, what is hashed for one entry. */
  lemma ItemLayout(item: Item)
    requires Sized(item)
    ensures
      var b, n := ItemBytes(item), |item.text|;
      && |b| >= 9 + n && EightBytes(b[1..9]) == n && b[9..9 + n] == item.text
      && match item
         case DirectoryItem(_) => b[0] == 'D' as int as Byte && |b| == 9 + n
         case FileItem(_, length, sha256) =>
           && b[0] == 'F' as int as Byte && |b| == 49 + n
           && EightBytes(b[9 + n..17 + n]) == length && b[17 + n..] == sha256
  {
    var b, n := ItemBytes(item), |item.text|;
    ReadOfU64(n);
    ReadOfEight(Little(n, 8));
    assert b[1..9] == Little(n, 8);
    if item.FileItem? {
      ReadOfU64(item.length);
      ReadOfEight(Little(item.length, 8));
      assert b[9 + n..17 + n] == Little(item.length, 8);
    }
  }

  /** Components are joined as the system writes paths. */
  lemma ItemText(first: Name, second: Name, n: Node, sha: Bytes -> Digest)
    ensures ItemOf([first, second], n, sha).text == first + [0x5C] + second
  {
    assert [first, second][1..] == [second] && Join([second], MAIN_SEPARATOR) == second;
  }

  lemma ReadOfText(text: Bytes, rest: Bytes)
    requires |text| <= U64_MAX
    ensures ReadText(Little(|text|, 8) + text + rest) == Some(text)
  {
    ReadOfU64(|text|);
    var b := Little(|text|, 8) + text + rest;
    assert b[..8] == Little(|text|, 8);
    assert b[8..8 + |text|] == text;
  }

  lemma ReadOfDirectory(text: Bytes, rest: Bytes)
    requires |text| <= U64_MAX
    ensures ReadItems([TAG_DIRECTORY] + Little(|text|, 8) + text + rest)
            == Prepend(DirectoryItem(text), ReadItems(rest))
  {
    hide ReadText, Little, ReadLittle;
    var b := [TAG_DIRECTORY] + Little(|text|, 8) + text + rest;
    ReadOfText(text, rest);
    assert b[1..] == Little(|text|, 8) + text + rest;
    assert b[9 + |text|..] == rest;
  }

  lemma ReadOfFile(text: Bytes, length: nat, sha256: Digest, rest: Bytes)
    requires |text| <= U64_MAX && length <= U64_MAX
    ensures ReadItems([TAG_FILE] + Little(|text|, 8) + text + Little(length, 8) + sha256 + rest)
            == Prepend(FileItem(text, length, sha256), ReadItems(rest))
  {
    hide ReadText, Little, ReadLittle;
    var tail := Little(length, 8) + sha256 + rest;
    var b := [TAG_FILE] + Little(|text|, 8) + text + Little(length, 8) + sha256 + rest;
    ReadOfText(text, tail);
    ReadOfU64(length);
    assert b[1..] == Little(|text|, 8) + text + tail;
    assert b[9 + |text|..] == tail;
    assert tail[..8] == Little(length, 8);
    assert tail[8..8 + DIGEST_BYTES] == sha256;
    assert tail[8 + DIGEST_BYTES..] == rest;
  }

  lemma ReadOfItem(item: Item, rest: Bytes)
    requires Sized(item)
    ensures ReadItems(ItemBytes(item) + rest) == Prepend(item, ReadItems(rest))
  {
    hide ReadItems;
    match item {
      case DirectoryItem(text) => ReadOfDirectory(text, rest);
      case FileItem(text, length, sha256) => ReadOfFile(text, length, sha256, rest);
    }
  }

  function ItemReader(): Bytes -> Option<seq<Item>> {
    b => ReadItems(b)
  }

  function AllBytes(items: seq<Item>): (parts: seq<Bytes>)
    ensures |parts| == |items|
  {
    seq(|items|, i requires 0 <= i < |items| => ItemBytes(items[i]))
  }

  lemma ReadOfItems(items: seq<Item>)
    requires forall item | item in items :: Sized(item)
    ensures ReadItems(Concat(AllBytes(items))) == Some(items)
  {
    var parts, read := AllBytes(items), ItemReader();
    forall i, r: Bytes | 0 <= i < |parts| ensures read(parts[i] + r) == Prepend(items[i], read(r)) {
      ReadOfItem(items[i], r);
    }
    ReadOfParts(read, parts, items, [], []);
    assert Concat(parts) + [] == Concat(parts) && items + [] == items;
  }

  function ItemOf(p: Path, n: Node, sha: Bytes -> Digest): Item {
    if n.File? then FileItem(Join(p, MAIN_SEPARATOR), |n.content|, sha(n.content))
    else DirectoryItem(Join(p, MAIN_SEPARATOR))
  }

  /** The items of `order`, in that order. */
  function ItemsOf(order: seq<Path>, t: Tree, sha: Bytes -> Digest): (items: seq<Item>)
    requires forall p | p in order :: p in t
    ensures |items| == |order|
  {
    seq(|order|, i requires 0 <= i < |order| => ItemOf(order[i], t[order[i]], sha))
  }

  ghost function Stream(t: Tree, sha: Bytes -> Digest): Bytes {
    var order := SortedPaths(Below(t));
    assert forall p | p in order :: p in Elements(order);
    Concat(AllBytes(ItemsOf(order, t, sha)))
  }

  /** A function of the tree alone: enumeration and stack order play no part. */
  ghost function FingerprintOfTree(t: Tree, sha: Bytes -> Digest): TreeFingerprint {
    TreeFingerprint(Summary(t), sha(Stream(t, sha)))
  }

  /* ----- The fingerprint determines the tree ----- */

  /** Same paths, same kinds, same contents; identities and timestamps are free. */
  ghost predicate SameTree(t: Tree, u: Tree) {
    t.Keys == u.Keys && forall p | p in t :: SameNode(t[p], u[p])
  }

  /** `sha` does not map these two particular strings to the same digest unless they are equal. */
  predicate NoCollision(sha: Bytes -> Digest, a: Bytes, b: Bytes) {
    sha(a) == sha(b) ==> a == b
  }

  ghost predicate NoContentCollision(t: Tree, u: Tree, sha: Bytes -> Digest) {
    forall p | p in t && p in u && t[p].File? && u[p].File? :: NoCollision(sha, t[p].content, u[p].content)
  }

  lemma {:induction false} TextIsBounded(p: Path)
    ensures |Join(p, MAIN_SEPARATOR)| <= TextCost(p)
  {
    if |p| > 1 {
      TextIsBounded(p[1..]);
    }
  }

  ghost predicate PlainFile(t: Tree, p: Path) {
    && p in t && p != [] && Plain(p) && TextCost(p) <= U64_MAX && !t[p].Other?
    && (t[p].File? ==> |t[p].content| <= U64_MAX)
  }

  lemma AcceptableIsPlain(t: Tree, limits: Limits, order: seq<Path>)
    requires Acceptable(t, limits) && Elements(order) == Below(t)
    ensures forall p | p in order :: p in t && PlainFile(t, p)
  {
    forall p | p in order ensures p in t && PlainFile(t, p) {
      assert p in Elements(order);
      assert EntryAcceptable(t, p, limits);
      ValidPathIsPlain(p);
    }
  }

  lemma ItemsAreSized(order: seq<Path>, t: Tree, sha: Bytes -> Digest)
    requires forall p | p in order :: p in t && PlainFile(t, p)
    ensures forall item | item in ItemsOf(order, t, sha) :: Sized(item)
  {
    forall item | item in ItemsOf(order, t, sha) ensures Sized(item) {
      var i :| 0 <= i < |order| && item == ItemsOf(order, t, sha)[i];
      assert PlainFile(t, order[i]);
      TextIsBounded(order[i]);
    }
  }

  /** Equal items at one position mean the same path, kind, length and digest there. */
  lemma SameItem(p: Path, q: Path, t: Tree, u: Tree, sha: Bytes -> Digest)
    requires PlainFile(t, p) && PlainFile(u, q)
    requires ItemOf(p, t[p], sha) == ItemOf(q, u[q], sha)
    ensures p == q && Alike(t[p], u[q], sha)
  {
    JoinInjective(p, q, MAIN_SEPARATOR);
  }

  lemma SameStreamSameItems(order: seq<Path>, order': seq<Path>, t: Tree, u: Tree, sha: Bytes -> Digest)
    requires forall p | p in order :: p in t && PlainFile(t, p)
    requires forall p | p in order' :: p in u && PlainFile(u, p)
    requires Concat(AllBytes(ItemsOf(order, t, sha))) == Concat(AllBytes(ItemsOf(order', u, sha)))
    ensures order == order'
    ensures forall p | p in order :: Alike(t[p], u[p], sha)
  {
    hide AllBytes, Concat, ReadItems, Alike;
    var items, items' := ItemsOf(order, t, sha), ItemsOf(order', u, sha);
    ItemsAreSized(order, t, sha);
    ItemsAreSized(order', u, sha);
    ReadOfItems(items);
    ReadOfItems(items');
    assert items == items';
    forall i | 0 <= i < |order| ensures order[i] == order'[i] && Alike(t[order[i]], u[order[i]], sha) {
      assert items[i] == items'[i];
      SameItem(order[i], order'[i], t, u, sha);
    }
  }

  /** If the two streams do not collide, equal fingerprints mean the same paths, kinds, lengths and digests. */
  lemma FingerprintDeterminesShape(t: Tree, u: Tree, limits: Limits, limits': Limits, sha: Bytes -> Digest)
    requires WellFormed(t) && Acceptable(t, limits) && WellFormed(u) && Acceptable(u, limits')
    requires FingerprintOfTree(t, sha) == FingerprintOfTree(u, sha)
    requires NoCollision(sha, Stream(t, sha), Stream(u, sha))
    ensures SameShape(t, u, sha)
  {
    var order, order' := SortedPaths(Below(t)), SortedPaths(Below(u));
    AcceptableIsPlain(t, limits, order);
    AcceptableIsPlain(u, limits', order');
    StreamOrder(t, sha, order);
    StreamOrder(u, sha, order');
    hide Concat, AllBytes, ItemsOf, Stream, SortedPaths, Acceptable, PathLess, Sorted,
      SummaryOf, Plain, TextCost, Alike;
    SameStreamSameItems(order, order', t, u, sha);
    AlikeBelow(order, t, u, sha);
  }

  lemma AlikeBelow(order: seq<Path>, t: Tree, u: Tree, sha: Bytes -> Digest)
    requires WellFormed(t) && WellFormed(u) && Elements(order) == Below(t) == Below(u)
    requires forall p | p in order :: p in t && p in u && Alike(t[p], u[p], sha)
    ensures SameShape(t, u, sha)
  {
    assert t.Keys == Elements(order) + {[]} && u.Keys == Elements(order) + {[]};
    assert Alike(t[[]], u[[]], sha);
    hide WellFormed, Alike;
    forall p | p in t ensures Alike(t[p], u[p], sha) {
      assert p != [] ==> p in Elements(order);
    }
  }

  /** Under a hash that does not collide on the strings involved, equal fingerprints mean equal trees. */
  lemma FingerprintDeterminesTree(t: Tree, u: Tree, limits: Limits, limits': Limits, sha: Bytes -> Digest)
    requires WellFormed(t) && Acceptable(t, limits) && WellFormed(u) && Acceptable(u, limits')
    requires FingerprintOfTree(t, sha) == FingerprintOfTree(u, sha)
    requires NoCollision(sha, Stream(t, sha), Stream(u, sha)) && NoContentCollision(t, u, sha)
    ensures SameTree(t, u)
  {
    FingerprintDeterminesShape(t, u, limits, limits', sha);
    SameShapeIsSame(t, u, sha);
  }

  lemma StreamOrder(t: Tree, sha: Bytes -> Digest, order: seq<Path>)
    requires order == SortedPaths(Below(t))
    ensures Elements(order) == Below(t) && forall p | p in order :: p in t
    ensures Stream(t, sha) == Concat(AllBytes(ItemsOf(order, t, sha)))
  {
    assert forall p | p in order :: p in Elements(order);
  }

  /** Same paths and kinds, and files that agree in length and digest. */
  ghost predicate SameShape(t: Tree, u: Tree, sha: Bytes -> Digest) {
    t.Keys == u.Keys && forall p | p in t :: Alike(t[p], u[p], sha)
  }

  /** The same kind, and for files the same length and digest. */
  ghost predicate Alike(a: Node, b: Node, sha: Bytes -> Digest) {
    || (a.Directory? && b.Directory?)
    || (a.File? && b.File? && |a.content| == |b.content| && sha(a.content) == sha(b.content))
  }

  lemma SameShapeIsSame(t: Tree, u: Tree, sha: Bytes -> Digest)
    requires SameShape(t, u, sha) && NoContentCollision(t, u, sha)
    ensures SameTree(t, u)
  {
    forall p | p in t && t[p].File? ensures t[p].content == u[p].content {
      assert NoCollision(sha, t[p].content, u[p].content);
    }
  }

  lemma SameItems(order: seq<Path>, t: Tree, u: Tree, sha: Bytes -> Digest)
    requires SameShape(t, u, sha) && forall p | p in order :: p in t && p in u
    ensures ItemsOf(order, t, sha) == ItemsOf(order, u, sha)
  {
    var items, items' := ItemsOf(order, t, sha), ItemsOf(order, u, sha);
    forall i | 0 <= i < |order| ensures items[i] == items'[i] {
      assert order[i] in order;
    }
  }

  /** Nothing but paths, kinds, lengths and digests enters the fingerprint. */
  lemma SameShapeSameFingerprint(t: Tree, u: Tree, sha: Bytes -> Digest)
    requires SameShape(t, u, sha)
    ensures FingerprintOfTree(t, sha) == FingerprintOfTree(u, sha)
    ensures Stream(t, sha) == Stream(u, sha)
  {
    assert Below(t) == Below(u);
    var order := SortedPaths(Below(t));
    StreamOrder(t, sha, order);
    StreamOrder(u, sha, order);
    hide Concat, AllBytes, ItemsOf, Stream, SortedPaths, PathLess, TotalSize, Sorted;
    SameItems(order, t, u, sha);
    SameSummary(t, u, Below(t), sha);
  }

  lemma SameSummary(t: Tree, u: Tree, s: set<Path>, sha: Bytes -> Digest)
    requires SameShape(t, u, sha) && s <= t.Keys
    ensures SummaryOf(t, s) == SummaryOf(u, s)
  {
    assert FilesIn(t, s) == FilesIn(u, s);
    assert DirectoriesIn(t, s) == DirectoriesIn(u, s);
    SameSizes(t, u, s, sha);
  }

  lemma {:induction false} SameSizes(t: Tree, u: Tree, s: set<Path>, sha: Bytes -> Digest)
    requires SameShape(t, u, sha) && s <= t.Keys
    ensures TotalSize(t, s) == TotalSize(u, s)
    decreases |s|
  {
    if s != {} {
      var p :| p in s;
      TotalSizeRemove(t, s, p);
      TotalSizeRemove(u, s, p);
      SameSizes(t, u, s - {p}, sha);
    }
  }

  lemma SameShapeAcceptable(t: Tree, u: Tree, limits: Limits, maxEntries: nat, sha: Bytes -> Digest)
    requires SameShape(t, u, sha) && Acceptable(t, limits) && WithinCap(t, maxEntries)
    ensures Acceptable(u, limits) && WithinCap(u, maxEntries)
  {
    assert Below(t) == Below(u);
    SameSummary(t, u, Below(t), sha);
    hide SummaryOf, ValidPath;
    forall p | p in Below(u) ensures EntryAcceptable(u, p, limits) {
      assert EntryAcceptable(t, p, limits);
    }
    forall d | d in u && u[d].Directory? ensures |Children(u, d)| <= maxEntries {
      assert t[d].Directory?;
      assert Children(u, d) == Children(t, d);
    }
  }

  /** Equal trees have equal fingerprints: identities, timestamps and enumeration order are free. */
  lemma SameTreeSameFingerprint(t: Tree, u: Tree, sha: Bytes -> Digest)
    requires SameTree(t, u)
    ensures FingerprintOfTree(t, sha) == FingerprintOfTree(u, sha)
  {
    SameShapeSameFingerprint(t, u, sha);
  }
}
