/**
 The member-by-member extractor for password archives
 (`src/platform/libarchive_windows.rs`), driven by an arbitrary decoder.
 */
module Extractor {
  import opened Base
  import opened Paths
  import opened Unicode
  import opened Policy
  import opened Trees
  import opened Streams
  import opened Extraction
  import Listing

  class Extractor {
    /** The output directory, keyed by folded path. */
    var disk: Tree
    var aliases: set<Bytes>
    var files: nat
    var directories: nat
    var totalBytes: nat
    /** Every state the output directory has been in. */
    ghost var states: seq<Tree>
    const limits: Limits
    const lower: Bytes -> Bytes
    const volume: Name -> Name
    /** Whether file operations may fail for reasons of their own. */
    const hostile: bool

    ghost predicate Recorded()
      reads this`disk, this`states
    {
      disk in states && forall d | d in states :: Safe(d, limits) && Extends(d, disk)
    }

    /** The counter is the number of directories, but for the one addition that would not fit 64 bits. */
    ghost predicate CountsDirectories()
      reads this`disk, this`directories
    {
      || Summary(disk).directories == directories
      || (directories == limits.maxDirectories == U64_MAX && Summary(disk).directories == directories + 1)
    }

    /** Holds in every reachable state, after success and after failure. */
    ghost predicate Valid()
      reads this`disk, this`states, this`files, this`directories, this`totalBytes
    {
      && Recorded() && CountsDirectories()
      && Summary(disk).files <= files && Summary(disk).totalBytes <= totalBytes
    }

    /** Holds as long as nothing has been refused. */
    ghost predicate Ready()
      reads this`disk, this`states, this`files, this`directories, this`totalBytes
    {
      && Valid()
      && Summary(disk).directories == directories <= limits.maxDirectories
      && Summary(disk).totalBytes == totalBytes
    }

    constructor (limits: Limits, lower: Bytes -> Bytes, volume: Name -> Name, hostile: bool)
      ensures Ready() && files == 0 && aliases == {}
      ensures disk.Keys == {[]} && states == [disk]
      ensures this.limits == limits && this.lower == lower && this.volume == volume && this.hostile == hostile
    {
      this.limits, this.lower, this.volume, this.hostile := limits, lower, volume, hostile;
      var identity: nat := *;
      disk := map[[] := Directory(identity)];
      aliases, files, directories, totalBytes := {}, 0, 0, 0;
      new;
      states := [disk];
      assert Below(disk) == {} && FilesIn(disk, {}) == {} && DirectoriesIn(disk, {}) == {};
    }

    method Become(next: Tree)
      requires Recorded() && Safe(next, limits) && Extends(disk, next)
      modifies this`disk, this`states
      ensures disk == next && Recorded() && Continues(old(states), states)
    {
      hide Extends, Safe;
      forall d | d in states ensures Extends(d, next) {
        ExtendsTransitive(d, disk, next);
      }
      ExtendsItself(next);
      disk := next;
      states := states + [next];
    }

    ghost predicate DirectoryFits(t: Tree, key: Path, count: nat) {
      if key in t then t[key].Directory? else count + 1 <= limits.maxDirectories
    }

    /** `create_dir`, counted when it made something; a file in the way is refused. */
    method EnsureDirectory(key: Path) returns (r: Outcome<Unit>)
      requires Ready() && key != [] && Parent(key) in disk && disk[Parent(key)].Directory?
      modifies this`disk, this`states, this`directories
      ensures Valid() && Continues(old(states), states)
      ensures Summary(disk).files == Summary(old(disk)).files
      ensures Keeps(old(disk), disk)
      ensures r.Ok? ==> Ready() && AddsFolders(old(disk), disk, {key})
      ensures r.Ok? ==> directories == old(directories) + if key in old(disk) then 0 else 1
      ensures r.Ok? ==> DirectoryFits(old(disk), key, old(directories))
      ensures !hostile && DirectoryFits(old(disk), key, old(directories)) ==> r.Ok?
    {
      hide Safe, Extends, SummaryOf;
      var fails := IoFails(hostile);
      if fails {
        return Err(Io);
      }
      if key in disk {
        if !disk[key].Directory? {
          return Err(Policy);
        }
        return Ok(Unit);
      }
      var identity: nat := *;
      AddedIsSafe(disk, key, Directory(identity), limits);
      Become(disk[key := Directory(identity)]);
      var count := CheckedAdd(directories, 1);
      if count.Err? {
        return Err(Policy);
      }
      directories := count.value;
      if directories > limits.maxDirectories {
        return Err(Policy);
      }
      r := Ok(Unit);
    }

    /** Makes every directory on the way to `key`, and `key` itself. */
    method EnsureDirectoryChain(key: Path) returns (r: Outcome<Unit>)
      requires Ready()
      modifies this`disk, this`states, this`directories
      ensures Valid() && Continues(old(states), states)
      ensures Summary(disk).files == Summary(old(disk)).files
      ensures Keeps(old(disk), disk)
      ensures r.Ok? ==> Ready() && AddsFolders(old(disk), disk, Chain(key, |key|))
      ensures r.Ok? ==> ChainFits(old(disk), key, |key|, limits)
      ensures !hostile && ChainFits(old(disk), key, |key|, limits) ==> r.Ok?
    {
      hide Safe, Extends, SummaryOf, Valid, CountsDirectories, Chain, ChainFits;
      ReadyIsValid();
      RootIsThere();
      ChainRoot(disk, key, limits);
      for n := 0 to |key|
        invariant Ready() && Valid() && Continues(old(states), states)
        invariant Summary(disk).files == Summary(old(disk)).files
        invariant AddsFolders(old(disk), disk, Chain(key, n))
        invariant ChainFits(old(disk), key, n, limits)
        invariant directories == Summary(old(disk)).directories + |Chain(key, n) - old(disk).Keys|
      {
        ChainStep(old(disk), disk, key, n, directories, limits);
        ghost var before, past := disk, states;
        ChainOneMore(key, n);
        r := EnsureDirectory(key[..n + 1]);
        ContinuesTransitive(old(states), past, states);
        if r.Err? {
          return;
        }
        ReadyIsValid();
      }
      r := Ok(Unit);
    }

    /** Writes the chunks to a new file; a failing write may leave part of a chunk behind. */
    method ExtractRegularEntry(m: Member, key: Path) returns (r: Outcome<Unit>)
      requires Ready() && key != [] && (forall c | c in m.chunks :: c != [])
      requires Summary(disk).files < files <= limits.maxFiles
      modifies this`disk, this`states, this`directories, this`totalBytes
      ensures Valid() && Continues(old(states), states) && Keeps(old(disk), disk)
      ensures r.Ok? ==> Ready() && Summary(disk).files == Summary(old(disk)).files + 1
      ensures r.Ok? ==> FileAdded(old(disk), disk, m, key)
      ensures r.Ok? ==> |Concat(m.chunks)| <= limits.maxSingleFileBytes && m.readsEndWell
      ensures r.Ok? ==> totalBytes == old(totalBytes) + |Concat(m.chunks)|
      ensures r.Ok? ==>
                && ChainFits(old(disk), key, |key| - 1, limits) && key !in old(disk)
                && ContentFits(m, old(totalBytes))
      ensures !hostile && ChainFits(old(disk), key, |key| - 1, limits) && key !in old(disk)
              && ContentFits(m, old(totalBytes))
              ==> r.Ok?
    {
      hide Safe, Extends, SummaryOf, Concat, ChainFits, Chain, ContentFits;
      ChainOfParentFits(disk, key, limits);
      r := EnsureDirectoryChain(Parent(key));
      if r.Err? {
        return;
      }
      ghost var parents := disk;
      var fails := IoFails(hostile);
      if fails || key in disk {
        return Err(Io);
      }
      ghost var past := states;
      ChainOfParent(key);
      var identity: nat, modified: nat, created: nat := *, *, *;
      AddedIsSafe(disk, key, File([], identity, modified, created), limits);
      Become(disk[key := File([], identity, modified, created)]);
      ContinuesTransitive(old(states), past, states);
      past := states;
      r := WriteChunks(m, key);
      ContinuesTransitive(old(states), past, states);
      assert disk - {key} == parents;
      fails := IoFails(hostile);
      if r.Ok? && fails {
        r := Err(Io);
      }
    }

    ghost predicate ContentFits(m: Member, totalBytes: nat) {
      && |Concat(m.chunks)| <= limits.maxSingleFileBytes && totalBytes + |Concat(m.chunks)| <= limits.maxTotalBytes
      && m.readsEndWell
    }

    method WriteChunks(m: Member, key: Path) returns (r: Outcome<Unit>)
      requires Ready() && key in disk && disk[key].File? && disk[key].content == []
      modifies this`disk, this`states, this`totalBytes
      ensures Valid() && Continues(old(states), states)
      ensures key in disk && disk == old(disk)[key := disk[key]] && Summary(disk).files == Summary(old(disk)).files
      ensures r.Ok? ==> Ready() && disk[key].File? && disk[key].content == Concat(m.chunks) && m.readsEndWell
      ensures r.Ok? ==> |Concat(m.chunks)| <= limits.maxSingleFileBytes
      ensures r.Ok? ==> totalBytes == old(totalBytes) + |Concat(m.chunks)|
      ensures r.Ok? ==> ContentFits(m, old(totalBytes))
      ensures !hostile && ContentFits(m, old(totalBytes)) ==> r.Ok?
    {
      hide Recorded, CountsDirectories, SummaryOf, Concat;
      ReadyIsWithin();
      var memberBytes := 0;
      ConcatNone();
      for j := 0 to |m.chunks|
        invariant Ready() && Continues(old(states), states)
        invariant key in disk && disk[key].File? && disk == old(disk)[key := disk[key]]
        invariant disk[key].content == Concat(m.chunks[..j])
        invariant memberBytes == |disk[key].content| <= limits.maxSingleFileBytes
        invariant totalBytes == old(totalBytes) + memberBytes <= limits.maxTotalBytes
        invariant Summary(disk).files == Summary(old(disk)).files
      {
        var chunk := m.chunks[j];
        ghost var past := states;
        assert m.chunks[..j + 1] == m.chunks[..j] + [chunk];
        ConcatOneMore(m.chunks[..j], chunk);
        ConcatGrows(m.chunks, j + 1);
        r, memberBytes := WriteChunk(key, chunk, memberBytes);
        ContinuesTransitive(old(states), past, states);
        if r.Err? {
          return;
        }
      }
      assert m.chunks[..|m.chunks|] == m.chunks;
      r := if m.readsEndWell then Ok(Unit) else Err(Backend);
    }

    method WriteChunk(key: Path, chunk: Bytes, before: nat) returns (r: Outcome<Unit>, memberBytes: nat)
      requires Ready() && key in disk && disk[key].File? && before == |disk[key].content|
      modifies this`disk, this`states, this`totalBytes
      ensures Valid() && Continues(old(states), states)
      ensures key in disk && disk == old(disk)[key := disk[key]]
      ensures Summary(disk).files == Summary(old(disk)).files
      ensures r.Ok? ==> Ready() && disk[key] == Longer(old(disk)[key], chunk)
      ensures r.Ok? ==> memberBytes == before + |chunk| <= limits.maxSingleFileBytes
      ensures r.Ok? ==> totalBytes == old(totalBytes) + |chunk|
      ensures r.Ok? ==> totalBytes <= limits.maxTotalBytes
      ensures !hostile && before + |chunk| <= limits.maxSingleFileBytes
              && old(totalBytes) + |chunk| <= limits.maxTotalBytes
              ==> r.Ok?
    {
      hide Safe, Extends, SummaryOf;
      memberBytes := before;
      var member, total := CheckedAdd(before, |chunk|), CheckedAdd(totalBytes, |chunk|);
      if member.Err? || total.Err? {
        return Err(Policy), memberBytes;
      }
      memberBytes, totalBytes := member.value, total.value;
      if memberBytes > limits.maxSingleFileBytes || totalBytes > limits.maxTotalBytes {
        return Err(Policy), memberBytes;
      }
      var written: nat :| 0 <= written <= |chunk|;
      var fails := IoFails(hostile);
      var data := if fails then chunk[..written] else chunk;
      GrownIsSafe(disk, key, data, limits);
      Become(disk[key := Longer(disk[key], data)]);
      r := if fails then Err(Io) else Ok(Unit);
    }

    /** Accepts exactly the valid names, marked consistently, that alias no earlier one. */
    method ValidatedMemberPath(name: Bytes, isDirectory: bool) returns (r: Outcome<Path>)
      requires |name| < U64_MAX
      modifies this`aliases
      ensures r.Ok? <==>
              && ValidateMemberName(name, limits).Ok? && (StripMarker(name) == name || isDirectory)
              && Listing.AliasKey(lower)(name) !in old(aliases)
      ensures r.Ok? ==> r.value == Split(StripMarker(name)) && ValidPath(r.value, limits)
      ensures r.Ok? ==> aliases == old(aliases) + {Listing.AliasKey(lower)(name)}
    {
      hide ValidPath, Split;
      if ValidateMemberName(name, limits).Err? {
        return Err(Policy);
      }
      if name != [] && IsSeparator(name[|name| - 1]) && !isDirectory {
        return Err(Policy);
      }
      var relative := Split(StripMarker(name));
      MemberNameIsRelativePath(name, limits);
      var valid := ValidateRelativePath(relative, limits);
      if valid.Err? || Listing.AliasKey(lower)(name) in aliases {
        return Err(Policy);
      }
      aliases := aliases + {Listing.AliasKey(lower)(name)};
      r := Ok(relative);
    }

    method ExtractMember(m: Member) returns (r: Outcome<Unit>)
      requires Ready() && files == Summary(disk).files && (forall c | c in m.chunks :: c != [])
      modifies this
      ensures Valid() && Continues(old(states), states) && Keeps(old(disk), disk)
      ensures r.Ok? ==> Ready() && files == Summary(disk).files
      ensures r.Ok? ==> files == old(files) + if m.filetype.RegularType? then 1 else 0
      ensures r.Ok? ==> MemberAdded(old(disk), disk, m, volume) && Admitted(m, limits)
      ensures r.Ok? ==> Listing.AliasKey(lower)(m.Name()) !in old(aliases)
      ensures r.Ok? ==> aliases == old(aliases) + {Listing.AliasKey(lower)(m.Name())}
      ensures r.Ok? ==> totalBytes == old(totalBytes) + if m.filetype.RegularType? then |Concat(m.chunks)| else 0
      ensures r.Ok? ==> MemberFits(old(disk), old(aliases), old(files), old(totalBytes), m, limits, lower, volume)
      ensures !hostile && MemberFits(old(disk), old(aliases), old(files), old(totalBytes), m, limits, lower, volume)
              ==> r.Ok?
    {
      hide Recorded, SummaryOf, ValidPath, Split, Concat, FileAdded, AddsFolders, ValidateMemberName, ChainFits;
      ReadyIsValid();
      if m.name.None? || |m.name.value| > Min(limits.maxPathBytes, MAX_INTERNAL_PATH_BYTES) {
        return Err(Policy);
      }
      if DecodeUtf8(m.name.value).None? {
        return Err(Policy);
      }
      NameIsPath(m, limits);
      var relative := ValidatedMemberPath(m.name.value, m.filetype.DirectoryType?);
      if relative.Err? || m.hardlink {
        return Err(Policy);
      }
      ValidIsNotEmpty(relative.value, limits);
      var key := Key(relative.value, volume);
      match m.filetype {
        case DirectoryType =>
          r := EnsureDirectoryChain(key);
          if r.Ok? && !m.skipsWell {
            r := Err(Backend);
          }
        case RegularType =>
          var count := CheckedAdd(files, 1);
          if count.Err? {
            return Err(Policy);
          }
          files := count.value;
          if files > limits.maxFiles {
            return Err(Policy);
          }
          if m.declaredSize >= 0 && m.declaredSize > limits.maxSingleFileBytes {
            return Err(Policy);
          }
          r := ExtractRegularEntry(m, key);
        case OtherType =>
          r := Err(Policy);
      }
    }

    /**
     For every stream: at every moment the limits hold and nothing was replaced.
     Success means the members were extractable and are now exactly what is there;
     as long as file operations work, extractable members are extracted.
     */
    method ExtractEntries(members: seq<Member>, headersEndWell: bool) returns (r: Outcome<Unit>)
      requires Ready() && files == 0 && aliases == {} && disk.Keys == {[]}
      requires forall m | m in members :: forall c | c in m.chunks :: c != []
      modifies this
      ensures Valid() && Continues(old(states), states)
      ensures r.Ok? ==> Ready() && Delivered(disk, members, volume) && headersEndWell
      ensures r.Ok? ==> files == Summary(disk).files == RegularCount(members)
      ensures r.Ok? ==> Extractable(members, limits, lower, volume)
      ensures !hostile && Extractable(members, limits, lower, volume) && headersEndWell ==> r.Ok?
    {
      hide Recorded, CountsDirectories, SummaryOf, Extractable, Delivered, MemberAdded,
        MemberFits, KeyOf, NothingSpecial;
      ReadyIsValid();
      ExtractStart();
      for i := 0 to |members|
        invariant Ready() && Valid() && Continues(old(states), states)
        invariant files == Summary(disk).files == RegularCount(members[..i]) && totalBytes == TotalBytes(members[..i])
        invariant Delivered(disk, members[..i], volume)
        invariant Extractable(members[..i], limits, lower, volume)
        invariant aliases == Listing.Keys(Names(members[..i]), Listing.AliasKey(lower))
      {
        ghost var before, past, done := disk, states, members[..i];
        var m := members[i];
        assert members[..i + 1] == done + [m];
        MembersOneMore(done, m, volume);
        TotalsOneMore(done, m, volume);
        NamesOneMore(done, m, lower);
        ReadyIsOrdinary();
        MemberDecides(disk, aliases, done, m, limits, lower, volume);
        r := ExtractMember(m);
        ContinuesTransitive(old(states), past, states);
        if r.Err? {
          if !hostile {
            RejectedPrefix(members, i + 1, limits, lower, volume);
          }
          return;
        }
        ReadyIsValid();
        MemberDelivered(before, disk, done, m, volume);
      }
      assert members[..|members|] == members;
      r := if headersEndWell then Ok(Unit) else Err(Backend);
    }

    lemma ReadyIsWithin()
      requires Ready()
      ensures totalBytes <= limits.maxTotalBytes
    {
    }

    lemma ReadyIsOrdinary()
      requires Ready()
      ensures NothingSpecial(disk)
    {
    }

    lemma ExtractStart()
      requires Ready() && files == 0 && disk.Keys == {[]}
      ensures Delivered(disk, [], volume) && Summary(disk).files == RegularCount([]) == 0
      ensures TotalBytes([]) == 0 == totalBytes && Extractable([], limits, lower, volume)
      ensures Listing.Keys(Names([]), Listing.AliasKey(lower)) == {}
    {
      assert FoldersOf([], volume) == {};
      assert Below(disk) == {};
    }

    lemma ReadyIsValid()
      requires Ready()
      ensures Valid()
    {
    }

    lemma RootIsThere()
      requires Recorded()
      ensures AddsFolders(disk, disk, {[]}) && [] in disk && disk[[]].Directory?
    {
    }
  }
}
