/**
 The audited copy (`copy_audited_tree_inner`, `copy_tree` in `src/transfer.rs`)
 while others may rewrite the source between any two accesses.
 */
module Transfer {
  import opened Base
  import opened Paths
  import opened Policy
  import opened Trees
  import opened Fingerprint
  import opened Audit
  import opened Snapshot

  /** The copy holds exactly the audited paths, each file with its audited length and digest. */
  ghost predicate Matches(target: Tree, files: map<Path, FileFingerprint>, directories: map<Path, nat>,
    sha: Bytes -> Digest) {
    && target.Keys == files.Keys + directories.Keys
    && (forall d | d in directories :: d in target && target[d].Directory?)
    && (forall f | f in files :: f in target && FileMatches(target[f], files[f], sha))
  }

  ghost predicate FileMatches(n: Node, expected: FileFingerprint, sha: Bytes -> Digest) {
    n.File? && |n.content| == expected.length && sha(n.content) == expected.sha256
  }

  /** The entry exists in the source and is what the audit recorded. */
  ghost predicate Expected(
    source: Tree, p: Path, limits: Limits, files: map<Path, FileFingerprint>, directories: map<Path, nat>,
    sha: Bytes -> Digest)
  {
    && p in source && ValidPath(p, limits) && !source[p].Other?
    && (source[p].Directory? ==> p in directories && directories[p] == source[p].identity)
    && (source[p].File? ==>
          && p in files && files[p] == FingerprintOf(source[p], sha)
          && |source[p].content| <= limits.maxSingleFileBytes)
  }

  ghost predicate CopiedAs(
    target: Tree, copiedFiles: set<Path>, copiedDirectories: set<Path>, files: map<Path, FileFingerprint>,
    directories: map<Path, nat>, sha: Bytes -> Digest)
  {
    && WellFormed(target) && target.Keys == copiedFiles + copiedDirectories
    && copiedFiles <= files.Keys && copiedDirectories <= directories.Keys
    && (forall d | d in copiedDirectories :: target[d].Directory?)
    && (forall f | f in copiedFiles :: FileMatches(target[f], files[f], sha))
  }

  ghost predicate AllSame(source: Tree, target: Tree, paths: set<Path>) {
    forall f | f in paths :: SameFile(source, target, f)
  }

  ghost predicate SameFile(source: Tree, target: Tree, f: Path) {
    f in source && f in target && source[f].File? && SameNode(source[f], target[f])
  }

  lemma FileCopied(
    before: Tree, after: Tree, p: Path, copiedFiles: set<Path>, copiedDirectories: set<Path>,
    files: map<Path, FileFingerprint>, directories: map<Path, nat>, sha: Bytes -> Digest)
    requires CopiedAs(before, copiedFiles, copiedDirectories, files, directories, sha)
    requires p != [] && Parent(p) in copiedDirectories && p !in before && p in after && after == before[p := after[p]]
    requires p in files && FileMatches(after[p], files[p], sha)
    ensures CopiedAs(after, copiedFiles + {p}, copiedDirectories, files, directories, sha)
  {
    StaysWellFormed(before, after, p);
  }

  lemma DirectoryCopied(
    before: Tree, after: Tree, p: Path, copiedFiles: set<Path>, copiedDirectories: set<Path>,
    files: map<Path, FileFingerprint>, directories: map<Path, nat>, sha: Bytes -> Digest)
    requires CopiedAs(before, copiedFiles, copiedDirectories, files, directories, sha)
    requires p != [] && Parent(p) in copiedDirectories && p !in before && p in after && after == before[p := after[p]]
    requires p in directories && after[p].Directory?
    ensures CopiedAs(after, copiedFiles, copiedDirectories + {p}, files, directories, sha)
  {
    StaysWellFormed(before, after, p);
  }

  lemma SameKept(source: Tree, before: Tree, after: Tree, p: Path, paths: set<Path>)
    requires AllSame(source, before, paths) && p !in before && p in after && after == before[p := after[p]]
    ensures AllSame(source, after, paths)
    ensures SameFile(source, after, p) ==> AllSame(source, after, paths + {p})
  {
  }

  /** Everything copied so far was opened with exactly the audited fingerprint or identity. */
  ghost predicate OpenedAs(
    openedFiles: map<Path, FileFingerprint>, openedDirectories: map<Path, nat>, copiedFiles: set<Path>,
    copiedDirectories: set<Path>, files: map<Path, FileFingerprint>, directories: map<Path, nat>)
  {
    && openedFiles.Keys == copiedFiles && openedDirectories.Keys == copiedDirectories
    && (forall f | f in copiedFiles :: f in files && openedFiles[f] == files[f])
    && (forall d | d in copiedDirectories :: d in directories && openedDirectories[d] == directories[d])
  }

  lemma OpenedMore(
    openedFiles: map<Path, FileFingerprint>, openedDirectories: map<Path, nat>, copiedFiles: set<Path>,
    copiedDirectories: set<Path>, files: map<Path, FileFingerprint>, directories: map<Path, nat>, p: Path)
    requires OpenedAs(openedFiles, openedDirectories, copiedFiles, copiedDirectories, files, directories)
    ensures p in files ==>
              OpenedAs(openedFiles[p := files[p]], openedDirectories, copiedFiles + {p}, copiedDirectories,
                       files, directories)
    ensures p in directories ==>
              OpenedAs(openedFiles, openedDirectories[p := directories[p]], copiedFiles, copiedDirectories + {p}, files,
                       directories)
  {
  }

  lemma AllOpened(
    openedFiles: map<Path, FileFingerprint>, openedDirectories: map<Path, nat>,
    files: map<Path, FileFingerprint>, directories: map<Path, nat>)
    requires OpenedAs(openedFiles, openedDirectories, files.Keys, directories.Keys, files, directories)
    ensures openedFiles == files && openedDirectories == directories
  {
  }

  class CopySession {
    /** The source as it is right now. */
    var source: Tree
    /** The staged output, absent until it is created. */
    var target: Option<Tree>
    var copiedFiles: set<Path>
    var copiedDirectories: set<Path>
    /** The fingerprints and identities that files and directories of the source had when they were opened. */
    ghost var openedFiles: map<Path, FileFingerprint>
    ghost var openedDirectories: map<Path, nat>
    const hostile: bool
    /** Whether others may write to the finished copy before it is audited. */
    const exposed: bool
    const sha: Bytes -> Digest
    /** The source when the session began; it stays that way unless the environment is hostile. */
    ghost const original: Tree

    constructor (source: Tree, target: Option<Tree>, hostile: bool, exposed: bool, sha: Bytes -> Digest)
      ensures this.source == original == source && this.target == target
      ensures this.hostile == hostile && this.exposed == exposed && this.sha == sha
    {
      this.source, this.original, this.target := source, source, target;
      copiedFiles, copiedDirectories := {}, {};
      openedFiles, openedDirectories := map[], map[];
      this.hostile, this.exposed, this.sha := hostile, exposed, sha;
    }

    method Interfere()
      modifies this`source
      ensures !hostile ==> source == old(source)
    {
      if hostile {
        source := *;
      }
    }

    /** What has been copied so far agrees with what was audited and, if nobody interferes, with the source. */
    ghost predicate Copied(files: map<Path, FileFingerprint>, directories: map<Path, nat>)
      reads this`target, this`copiedFiles, this`copiedDirectories, this`openedFiles, this`openedDirectories
    {
      && target.Some? && CopiedAs(target.value, copiedFiles, copiedDirectories, files, directories, sha)
      && OpenedAs(openedFiles, openedDirectories, copiedFiles, copiedDirectories, files, directories)
      && (!hostile ==> AllSame(original, target.value, copiedFiles))
    }

    /** Opens the directory and requires the audited identity. */
    method OpenExpectedDirectory(p: Path, directories: map<Path, nat>) returns (r: Outcome<Unit>)
      modifies this`source, this`openedDirectories
      ensures !hostile ==> source == old(source)
      ensures r.Ok? ==> p in source && source[p].Directory? && p in directories && source[p].identity == directories[p]
      ensures r.Ok? ==> openedDirectories == old(openedDirectories)[p := directories[p]]
      ensures !hostile && p in source && source[p].Directory? && p in directories
              && directories[p] == source[p].identity
              ==> r.Ok?
    {
      Interfere();
      var fails := IoFails(hostile);
      if fails || p !in source || !source[p].Directory? {
        return Err(Policy);
      }
      var identity := source[p].identity;
      if p !in directories || identity != directories[p] {
        return Err(Policy);
      }
      openedDirectories := openedDirectories[p := identity];
      r := Ok(Unit);
    }

    /** `DirectorySnapshot::entries`; a directory being rewritten may report any names, even twice. */
    method ListDirectory(p: Path, maxEntries: nat) returns (r: Outcome<seq<Path>>)
      modifies this`source
      ensures !hostile ==> source == old(source)
      ensures r.Ok? ==> forall q | q in r.value :: q != [] && Parent(q) == p
      ensures !hostile ==> (r.Ok? <==> |Children(source, p)| <= maxEntries)
      ensures !hostile && r.Ok? ==> NoDuplicates(r.value) && forall q :: q in r.value <==> q in Children(source, p)
    {
      Interfere();
      if !hostile {
        r := Entries(source, p, maxEntries);
        return;
      }
      var names: seq<Name> := *;
      var fails := IoFails(hostile);
      if fails || |names| > maxEntries {
        return Err(Policy);
      }
      r := Ok(seq(|names|, i requires 0 <= i < |names| => p + [names[i]]));
    }

    method CreateDirectory(p: Path) returns (r: Outcome<Unit>)
      requires target.Some?
      modifies this`target
      ensures target.Some?
      ensures r.Err? ==> target == old(target)
      ensures r.Ok? ==> p !in old(target.value) && target.value.Keys == old(target.value.Keys) + {p}
      ensures r.Ok? ==> target.value[p].Directory? && target.value == old(target.value)[p := target.value[p]]
      ensures !hostile && p !in old(target.value) ==> r.Ok?
    {
      var fails := IoFails(hostile);
      if fails || p in target.value {
        return Err(Io);
      }
      var identity: nat := *;
      target := Some(target.value[p := Directory(identity)]);
      r := Ok(Unit);
    }

    /** Opens the source file as it is now, compares it with the audit and copies it to a new file. */
    method CopyFile(p: Path, limits: Limits, files: map<Path, FileFingerprint>) returns (r: Outcome<Unit>)
      requires target.Some? && p !in target.value
      modifies this`source, this`target, this`openedFiles
      ensures !hostile ==> source == old(source)
      ensures target.Some?
      ensures r.Err? ==> target == old(target)
      ensures r.Ok? ==> p in files && openedFiles == old(openedFiles)[p := files[p]]
      ensures r.Ok? ==> p in files && target.value.Keys == old(target.value.Keys) + {p}
      ensures r.Ok? ==>
                && FileMatches(target.value[p], files[p], sha)
                && target.value == old(target.value)[p := target.value[p]]
      ensures r.Ok? && !hostile ==> SameFile(source, target.value, p)
      ensures !hostile && p in source && source[p].File? && p in files && files[p] == FingerprintOf(source[p], sha)
              && |source[p].content| <= limits.maxSingleFileBytes
              ==> r.Ok?
    {
      Interfere();
      var fails := IoFails(hostile);
      if fails || p !in source || !source[p].File? {
        return Err(Policy);
      }
      var file := new AuditedFile(source[p], hostile, sha);
      var reading := file.Fingerprinted(limits.maxSingleFileBytes);
      if reading.Err? {
        return Err(Policy);
      }
      if p !in files || file.fingerprint != files[p] {
        return Err(Policy);
      }
      openedFiles := openedFiles[p := file.fingerprint];
      var slot := new Slot();
      var copied, _, _ := file.CopyToNew(slot);
      if copied.Err? {
        return Err(Policy);
      }
      var identity: nat, modified: nat, created: nat := *, *, *;
      target := Some(target.value[p := File(slot.content.value, identity, modified, created)]);
      r := Ok(Unit);
    }

    /** One entry of one directory; reports whether it was a directory to descend into. */
    method CopyEntry(p: Path, limits: Limits, files: map<Path, FileFingerprint>, directories: map<Path, nat>)
      returns (r: Outcome<bool>)
      requires Copied(files, directories) && p != [] && Parent(p) in copiedDirectories
      requires !hostile ==> source == original
      modifies this
      ensures !hostile ==> source == old(source)
      ensures target.Some? && copiedFiles + copiedDirectories >= old(copiedFiles + copiedDirectories)
      ensures r.Ok? ==> Copied(files, directories) && p !in old(copiedFiles + copiedDirectories)
      ensures r.Ok? && r.value ==> copiedDirectories == old(copiedDirectories) + {p} && copiedFiles == old(copiedFiles)
      ensures r.Ok? && !r.value ==> copiedFiles == old(copiedFiles) + {p} && copiedDirectories == old(copiedDirectories)
      ensures !hostile && Expected(old(source), p, limits, files, directories, sha) && old(p !in target.value) ==>
                r.Ok? && r.value == source[p].Directory?
    {
      hide CopiedAs, OpenedAs, AllSame, SameFile, FileMatches;
      CopiedTarget(files, directories);
      OpenedMore(openedFiles, openedDirectories, copiedFiles, copiedDirectories, files, directories, p);
      var valid := ValidateRelativePath(p, limits);
      if valid.Err? {
        return Err(Policy);
      }
      Interfere();
      var fails := IoFails(hostile);
      if fails || p !in source || source[p].Other? {
        return Err(Policy);
      }
      var before := target.value;
      if source[p].Directory? {
        var opening := OpenExpectedDirectory(p, directories);
        if opening.Err? {
          return Err(Policy);
        }
        var created := CreateDirectory(p);
        if created.Err? {
          return Err(Io);
        }
        DirectoryCopied(before, target.value, p, copiedFiles, copiedDirectories, files, directories, sha);
        copiedDirectories := copiedDirectories + {p};
        r := Ok(true);
      } else {
        if p in target.value {
          return Err(Io);
        }
        var copied := CopyFile(p, limits, files);
        if copied.Err? {
          return Err(Policy);
        }
        FileCopied(before, target.value, p, copiedFiles, copiedDirectories, files, directories, sha);
        copiedFiles := copiedFiles + {p};
        r := Ok(false);
      }
      if !hostile {
        SameKept(original, before, target.value, p, old(copiedFiles));
      }
    }

    /** The entries of one directory, in the order they were reported. */
    method CopyEntries(
      d: Path, names: seq<Path>, limits: Limits, files: map<Path, FileFingerprint>, directories: map<Path, nat>)
      returns (r: Outcome<seq<Path>>)
      requires Copied(files, directories) && d in copiedDirectories
      requires !hostile ==> source == original
      requires forall q | q in names :: q != [] && Parent(q) == d
      modifies this
      ensures !hostile ==> source == old(source)
      ensures target.Some?
      ensures r.Ok? ==> Copied(files, directories)
      ensures r.Ok? ==> copiedDirectories == old(copiedDirectories) + Elements(r.value)
      ensures r.Ok? ==> NoDuplicates(r.value) && Elements(r.value) !! old(copiedDirectories)
      ensures r.Ok? ==> copiedFiles + copiedDirectories == old(copiedFiles + copiedDirectories) + Elements(names)
      ensures !hostile && old(AllExpected(names, limits, files, directories)) ==>
                r.Ok? && Pushed(source, names, r.value)
    {
      hide Copied, OpenedAs, CopiedAs;
      var pushed: seq<Path> := [];
      if !hostile {
        PushStart(source);
      }
      for i := 0 to |names|
        invariant !hostile ==> source == old(source)
        invariant Copied(files, directories)
        invariant copiedDirectories == old(copiedDirectories) + Elements(pushed)
        invariant NoDuplicates(pushed) && Elements(pushed) !! old(copiedDirectories)
        invariant copiedFiles + copiedDirectories == old(copiedFiles + copiedDirectories) + Elements(names[..i])
        invariant !hostile && old(AllExpected(names, limits, files, directories)) ==> Pushed(source, names[..i], pushed)
      {
        var p := names[i];
        ghost var smooth := !hostile && old(AllExpected(names, limits, files, directories));
        ghost var grown := names[..i + 1];
        assert grown == names[..i] + [p] && Elements(grown) == Elements(names[..i]) + {p};
        if smooth {
          PushStep(source, names, i, pushed);
        }
        CopiedTarget(files, directories);
        assert p in names;
        var step := CopyEntry(p, limits, files, directories);
        if step.Err? {
          return Err(step.error);
        }
        if step.value {
          assert Elements(pushed + [p]) == Elements(pushed) + {p};
          pushed := pushed + [p];
        }
      }
      assert names[..|names|] == names;
      CopiedTarget(files, directories);
      r := Ok(pushed);
    }

    /** In an environment that holds still: every entry is as audited, new to the target and listed once. */
    ghost predicate AllExpected(
      names: seq<Path>, limits: Limits, files: map<Path, FileFingerprint>, directories: map<Path, nat>)
      reads this
    {
      && NoDuplicates(names)
      && forall q | q in names ::
           Expected(source, q, limits, files, directories, sha) && q !in copiedFiles + copiedDirectories
    }

    /**
     Lists one directory and copies its entries. The ghost arguments are the walk's
     bookkeeping over a source that holds still; they impose nothing on one that
     does not.
     */
    method CopyDirectory(
      d: Path, limits: Limits, files: map<Path, FileFingerprint>, directories: map<Path, nat>,
      ghost done: set<Path>, ghost stack: seq<Path>)
      returns (r: Outcome<seq<Path>>)
      requires Copied(files, directories) && d in copiedDirectories
      requires !hostile ==> source == original
      requires stack != [] && d == stack[|stack| - 1]
      requires !hostile && Audited(source, limits, files, directories, sha) ==> Walking(done, stack)
      modifies this
      ensures !hostile ==> source == old(source)
      ensures target.Some?
      ensures r.Ok? ==> Copied(files, directories)
      ensures r.Ok? ==> copiedDirectories == old(copiedDirectories) + Elements(r.value)
      ensures r.Ok? ==> Elements(r.value) !! old(copiedDirectories)
      ensures !hostile && Audited(old(source), limits, files, directories, sha) ==>
                r.Ok? && Walking(done + {d}, stack[..|stack| - 1] + r.value)
    {
      hide Copied, OpenedAs, CopiedAs, Audited, WalkInv, SeenFrom, Pushed, Children, Expected, WellFormed;
      ghost var smooth := !hostile && Audited(source, limits, files, directories, sha);
      if smooth {
        AuditedDirectory(source, limits, files, directories, sha, done, stack);
      }
      CopiedTarget(files, directories);
      var names := ListDirectory(d, SaturatingAdd(limits.maxFiles, limits.maxDirectories));
      if names.Err? {
        return Err(Policy);
      }
      if smooth {
        WalkChildren(source, done, stack, names.value);
        AuditedEntries(source, limits, files, directories, sha, names.value);
      }
      r := CopyEntries(d, names.value, limits, files, directories);
      if smooth {
        WalkAdvances(source, done, stack, names.value, r.value, old(copiedFiles + copiedDirectories));
      }
    }

    ghost predicate Walking(done: set<Path>, stack: seq<Path>)
      reads this`source, this`copiedFiles, this`copiedDirectories
    {
      && WellFormed(source) && WalkInv(source, done, stack)
      && copiedFiles + copiedDirectories == SeenFrom(source, done) + {[]}
    }

    /** The worklist: every pass either descends into directories new to the copy or shortens the stack. */
    method CopyWorklist(limits: Limits, files: map<Path, FileFingerprint>, directories: map<Path, nat>)
      returns (r: Outcome<Unit>, ghost done: set<Path>)
      requires Copied(files, directories) && copiedFiles == {} && copiedDirectories == {[]}
      requires !hostile ==> source == original
      modifies this
      ensures !hostile ==> source == old(source)
      ensures target.Some?
      ensures r.Ok? ==> Copied(files, directories)
      ensures !hostile && Audited(old(source), limits, files, directories, sha) ==> r.Ok? && Walking(done, [])
    {
      hide Copied, OpenedAs, CopiedAs, Audited, Walking, Elements;
      ghost var smooth := !hostile && Audited(source, limits, files, directories, sha);
      var stack: seq<Path> := [[]];
      done := {};
      if smooth {
        WalkingStart(limits, files, directories);
      }
      StackStart();
      while stack != []
        invariant !hostile ==> source == old(source)
        invariant Copied(files, directories) && Elements(stack) <= copiedDirectories
        invariant smooth ==> Walking(done, stack)
        decreases directories.Keys - copiedDirectories, |stack|
      {
        var d := stack[|stack| - 1];
        ghost var before := copiedDirectories;
        StackTop(stack);
        var pushed := CopyDirectory(d, limits, files, directories, done, stack);
        if pushed.Err? {
          return Err(Policy), done;
        }
        CopiedTarget(files, directories);
        Shrinks(directories.Keys, before, copiedDirectories, pushed.value);
        StackElements(stack, pushed.value);
        stack := stack[..|stack| - 1] + pushed.value;
        done := done + {d};
      }
      CopiedTarget(files, directories);
      r := Ok(Unit);
    }

    /**
     Copies directory by directory. Although only the number of files, the number
     of directories and the membership of the latter are compared at the end,
     success means the copy matches the audit exactly.
     */
    method CopyTree(limits: Limits, files: map<Path, FileFingerprint>, directories: map<Path, nat>)
      returns (r: Outcome<Unit>)
      requires target.Some? && WellFormed(target.value) && target.value.Keys == {[]}
      requires !hostile ==> source == original
      modifies this
      ensures !hostile ==> source == old(source)
      ensures target.Some?
      ensures r.Ok? ==> WellFormed(target.value) && Matches(target.value, files, directories, sha)
      ensures r.Ok? ==> openedFiles == files && openedDirectories == directories
      ensures r.Ok? && !hostile ==> AllSame(original, target.value, files.Keys)
      ensures !hostile && Audited(old(source), limits, files, directories, sha) ==> r.Ok?
    {
      hide Copied, OpenedAs, Audited, Walking, Matches, WellFormed, AllSame;
      ghost var smooth := !hostile && Audited(source, limits, files, directories, sha);
      if smooth {
        AuditedRoot(source, limits, files, directories, sha);
      }
      openedFiles, openedDirectories := map[], map[];
      var opening := OpenExpectedDirectory([], directories);
      if opening.Err? {
        return Err(Policy);
      }
      copiedFiles, copiedDirectories := {}, {[]};
      CopiedStart(files, directories);
      ghost var done;
      r, done := CopyWorklist(limits, files, directories);
      if r.Err? {
        return;
      }
      if smooth {
        AllCopied(limits, files, directories, done);
      }
      if |copiedFiles| != |files| {
        return Err(Policy);
      }
      if |copiedDirectories| != |directories| || exists d | d in copiedDirectories :: d !in directories {
        return Err(Policy);
      }
      CopiedMatches(files, directories);
    }

    /** Others may write to the copy, or remove it. */
    method ExposeTarget()
      requires target.Some? && WellFormed(target.value)
      modifies this`target
      ensures target.Some? ==> WellFormed(target.value)
      ensures !exposed ==> target == old(target)
    {
      if exposed {
        var changed: Option<Tree> := *;
        target := if changed.Some? && WellFormed(changed.value) then changed else None;
      }
    }

    /** `remove_dir_all`; one that fails may have removed any part of the tree. */
    method RemoveTarget() returns (ghost removal: Removal)
      modifies this`target
      ensures removal == if target.Some? then NotRemoved else if old(target).None? then NothingMade else Removed
      ensures !hostile ==> target.None?
      ensures target.Some? ==> old(target).Some? && target.value.Keys <= old(target).value.Keys
    {
      var fails := IoFails(hostile);
      var rest: Tree := *;
      if target.None? {
        return NothingMade;
      }
      removal := if fails then NotRemoved else Removed;
      target := if !fails then None else if rest.Keys <= target.value.Keys then Some(rest) else target;
    }

    /**
     Audit, then anything may happen to the source, then copy, re-read and compare.
     A target that already existed is left alone. Otherwise a target is left after
     failure exactly if there was something to remove and it could not be removed.
     Success leaves a tree with the audited fingerprint even if others have written
     to the copy; if they have not, it is the audited tree, opened file by file and
     directory by directory with the audited identities. A source that holds still is
     copied exactly when it is acceptable, byte for byte.
     */
    method CopyAuditedTree(limits: Limits) returns (r: Outcome<TreeFingerprint>, ghost removal: Removal)
      requires WellFormed(source) && (!hostile ==> source == original)
      modifies this
      ensures old(target).Some? ==> r.Err? && target == old(target) && removal.NothingMade?
      ensures old(target).None? && r.Err? ==> (target.None? <==> !removal.NotRemoved?)
      ensures !hostile ==> !removal.NotRemoved?
      ensures r.Ok? ==> target.Some? && WellFormed(target.value)
      ensures r.Ok? ==> r.value == FingerprintOfTree(old(source), sha) == FingerprintOfTree(target.value, sha)
      ensures r.Ok? ==> Acceptable(old(source), limits) && Acceptable(target.value, limits)
      ensures r.Ok? ==> openedFiles == AuditOf(old(source), sha).files
      ensures r.Ok? ==> openedDirectories == AuditOf(old(source), sha).directories
      ensures r.Ok? && !exposed ==> SameShape(old(source), target.value, sha)
      ensures r.Ok? && !exposed && !hostile ==> SameTree(old(source), target.value)
      ensures !hostile && !exposed && old(target).None? ==>
                (r.Ok? <==> && Acceptable(old(source), limits)
                            && WithinCap(old(source), SaturatingAdd(limits.maxFiles, limits.maxDirectories)))
    {
      hide FingerprintOfTree, Acceptable, WithinCap, Matches, SameShape, SameTree,
        AuditOf, Audited, WellFormed, AllSame;
      ghost var audited := source;
      removal := NothingMade;
      var expected := BuildTreeAudit(source, limits, sha);
      if expected.Err? {
        return Err(Policy), removal;
      }
      AuditIsAudited(audited, limits, sha);
      Interfere();
      var fails := IoFails(hostile);
      if fails || target.Some? {
        return Err(Io), removal;
      }
      var identity: nat := *;
      target := Some(map[[] := Directory(identity)]);
      var files, directories := expected.value.files, expected.value.directories;
      FreshTarget(target.value);
      var copied := CopyTree(limits, files, directories);
      if copied.Err? {
        removal := RemoveTarget();
        return Err(Policy), removal;
      }
      CopyIsAcceptable(audited, target.value, limits, files, directories, !hostile, sha);
      ExposeTarget();
      if target.None? {
        return Err(Io), removal;
      }
      AuditSpecification(target.value, sha);
      var observed := BuildTreeAudit(target.value, limits, sha);
      fails := IoFails(hostile);
      if fails || observed.Err? || observed.value.fingerprint != expected.value.fingerprint {
        removal := RemoveTarget();
        return Err(Policy), removal;
      }
      r := Ok(observed.value.fingerprint);
    }

    lemma WalkingStart(limits: Limits, files: map<Path, FileFingerprint>, directories: map<Path, nat>)
      requires Audited(source, limits, files, directories, sha)
      requires copiedFiles == {} && copiedDirectories == {[]}
      ensures Walking({}, [[]])
    {
      WalkStart(source);
    }

    lemma CopiedStart(files: map<Path, FileFingerprint>, directories: map<Path, nat>)
      requires target.Some? && WellFormed(target.value) && target.value.Keys == {[]}
      requires copiedFiles == {} && copiedDirectories == {[]} && [] in directories
      requires openedFiles == map[] && openedDirectories == map[[] := directories[[]]]
      ensures Copied(files, directories)
    {
    }

    lemma AllCopied(
      limits: Limits, files: map<Path, FileFingerprint>, directories: map<Path, nat>, done: set<Path>)
      requires Copied(files, directories) && Audited(source, limits, files, directories, sha)
      requires Walking(done, [])
      ensures |copiedFiles| == |files| && |copiedDirectories| == |directories|
      ensures forall d | d in copiedDirectories :: d in directories
    {
      hide WalkInv, SeenFrom, WellFormed, Acceptable;
      WalkEnd(source, done);
      NothingOther(source, limits);
      AuditedRoot(source, limits, files, directories, sha);
      EverythingIn(source, copiedFiles, copiedDirectories, files, directories, sha);
    }

    lemma CopiedMatches(files: map<Path, FileFingerprint>, directories: map<Path, nat>)
      requires Copied(files, directories)
      requires |copiedFiles| == |files| && |copiedDirectories| == |directories|
      ensures WellFormed(target.value) && Matches(target.value, files, directories, sha)
      ensures openedFiles == files && openedDirectories == directories
      ensures !hostile ==> AllSame(original, target.value, files.Keys)
    {
      SameSizeSubset(copiedFiles, files.Keys);
      SameSizeSubset(copiedDirectories, directories.Keys);
      AllOpened(openedFiles, openedDirectories, files, directories);
      hide OpenedAs, WellFormed, FileMatches, AllSame;
    }

    lemma Shrinks(all: set<Path>, before: set<Path>, after: set<Path>, pushed: seq<Path>)
      requires after == before + Elements(pushed) && Elements(pushed) !! before && after <= all
      ensures all - after <= all - before
      ensures pushed != [] ==> all - after < all - before
    {
      if pushed != [] {
        assert pushed[0] in Elements(pushed);
        assert pushed[0] in all - before && pushed[0] !in all - after;
      }
    }

    lemma CopiedTarget(files: map<Path, FileFingerprint>, directories: map<Path, nat>)
      requires Copied(files, directories)
      ensures target.Some? && target.value.Keys == copiedFiles + copiedDirectories
      ensures copiedDirectories <= directories.Keys
      ensures CopiedAs(target.value, copiedFiles, copiedDirectories, files, directories, sha)
    {
    }
  }

  lemma StaysWellFormed(before: Tree, after: Tree, p: Path)
    requires WellFormed(before) && p != [] && p !in before && Parent(p) in before && before[Parent(p)].Directory?
    requires p in after && after == before[p := after[p]]
    ensures WellFormed(after)
  {
    forall q | q in after && q != [] ensures Parent(q) in after && after[Parent(q)].Directory? {
      if q != p {
        assert q in before;
      }
      assert Parent(q) in before;
    }
  }

  /** The maps are the audit of this acceptable tree. */
  ghost predicate Audited(
    source: Tree, limits: Limits, files: map<Path, FileFingerprint>, directories: map<Path, nat>, sha: Bytes -> Digest)
  {
    && WellFormed(source) && Acceptable(source, limits)
    && WithinCap(source, SaturatingAdd(limits.maxFiles, limits.maxDirectories))
    && files == FileFingerprints(source, Below(source), sha)
    && directories == DirectoryIdentities(source, source.Keys)
  }

  lemma AuditedRoot(
    source: Tree, limits: Limits, files: map<Path, FileFingerprint>, directories: map<Path, nat>, sha: Bytes -> Digest)
    requires Audited(source, limits, files, directories, sha)
    ensures WellFormed(source)
    ensures [] in source && source[[]].Directory? && [] in directories && directories[[]] == source[[]].identity
  {
  }

  lemma AuditedDirectory(
    source: Tree, limits: Limits, files: map<Path, FileFingerprint>, directories: map<Path, nat>, sha: Bytes -> Digest,
    done: set<Path>, stack: seq<Path>)
    requires Audited(source, limits, files, directories, sha)
    requires stack != [] && WalkInv(source, done, stack)
    ensures |Children(source, stack[|stack| - 1])| <= SaturatingAdd(limits.maxFiles, limits.maxDirectories)
  {
    WalkDirectories(source, done, stack);
  }

  lemma AuditedEntries(
    source: Tree, limits: Limits, files: map<Path, FileFingerprint>, directories: map<Path, nat>, sha: Bytes -> Digest,
    names: seq<Path>)
    requires Audited(source, limits, files, directories, sha)
    requires Elements(names) <= Below(source)
    ensures forall q | q in names :: Expected(source, q, limits, files, directories, sha)
  {
    forall q | q in names ensures Expected(source, q, limits, files, directories, sha) {
      assert q in Elements(names);
      assert EntryAcceptable(source, q, limits);
    }
  }

  lemma WalkAdvances(
    source: Tree, done: set<Path>, stack: seq<Path>, names: seq<Path>, pushed: seq<Path>, copied: set<Path>)
    requires WellFormed(source) && stack != [] && WalkInv(source, done, stack)
    requires Elements(names) == Children(source, stack[|stack| - 1]) && Pushed(source, names, pushed)
    requires copied == SeenFrom(source, done) + {[]}
    ensures
      var after := done + {stack[|stack| - 1]};
      && WalkInv(source, after, stack[..|stack| - 1] + pushed)
      && copied + Elements(names) == SeenFrom(source, after) + {[]}
  {
    hide WellFormed, WalkInv, SeenFrom, Pushed, Children, Elements;
    WalkExpand(source, done, stack, names, pushed);
  }

  lemma EverythingIn(
    source: Tree, copiedFiles: set<Path>, copiedDirectories: set<Path>,
    files: map<Path, FileFingerprint>, directories: map<Path, nat>, sha: Bytes -> Digest)
    requires [] in source && source[[]].Directory? && forall p | p in source :: !source[p].Other?
    requires files == FileFingerprints(source, Below(source), sha)
    requires directories == DirectoryIdentities(source, source.Keys)
    requires copiedFiles <= files.Keys && copiedDirectories <= directories.Keys
    requires copiedFiles + copiedDirectories == Below(source) + {[]}
    ensures |copiedFiles| == |files| && |copiedDirectories| == |directories|
    ensures forall d | d in copiedDirectories :: d in directories
  {
    assert files.Keys == FilesIn(source, Below(source));
    assert directories.Keys == DirectoriesIn(source, source.Keys);
    assert copiedFiles == files.Keys;
    assert copiedDirectories == directories.Keys;
  }

  lemma NothingOther(source: Tree, limits: Limits)
    requires WellFormed(source) && Acceptable(source, limits)
    ensures forall p | p in source :: !source[p].Other?
  {
    forall p | p in source ensures !source[p].Other? {
      if p != [] {
        assert EntryAcceptable(source, p, limits);
      }
    }
  }

  lemma StackStart()
    ensures Elements([[]]) == {[]}
  {
  }

  lemma StackTop(stack: seq<Path>)
    requires stack != []
    ensures stack[|stack| - 1] in Elements(stack)
  {
  }

  lemma StackElements(stack: seq<Path>, pushed: seq<Path>)
    requires stack != []
    ensures Elements(stack[..|stack| - 1] + pushed) <= Elements(stack) + Elements(pushed)
  {
  }

  lemma FreshTarget(t: Tree)
    requires t.Keys == {[]} && t[[]].Directory?
    ensures WellFormed(t)
  {
  }

  lemma AuditIsAudited(t: Tree, limits: Limits, sha: Bytes -> Digest)
    requires WellFormed(t) && Acceptable(t, limits)
    requires WithinCap(t, SaturatingAdd(limits.maxFiles, limits.maxDirectories))
    ensures AuditOf(t, sha).fingerprint == FingerprintOfTree(t, sha)
    ensures Audited(t, limits, AuditOf(t, sha).files, AuditOf(t, sha).directories, sha)
  {
    hide FingerprintOfTree, Acceptable, WithinCap;
  }

  lemma MatchesShape(
    source: Tree, target: Tree, limits: Limits, files: map<Path, FileFingerprint>, directories: map<Path, nat>,
    sha: Bytes -> Digest)
    requires Audited(source, limits, files, directories, sha)
    requires Matches(target, files, directories, sha)
    ensures SameShape(source, target, sha)
  {
    NothingOther(source, limits);
    hide Acceptable, WithinCap, WellFormed;
    forall p | p in source
      ensures p in target
      ensures source[p].File? ==> FileMatches(target[p], FingerprintOf(source[p], sha), sha)
      ensures source[p].Directory? ==> target[p].Directory?
    {
      AuditedAt(source, limits, files, directories, sha, p);
    }
    assert target.Keys <= source.Keys;
  }

  lemma AuditSpecification(t: Tree, sha: Bytes -> Digest)
    ensures AuditOf(t, sha).fingerprint == FingerprintOfTree(t, sha)
  {
  }

  /** What `CopyTree` made, as long as nobody else has touched it. */
  lemma CopyIsAcceptable(
    source: Tree, target: Tree, limits: Limits, files: map<Path, FileFingerprint>, directories: map<Path, nat>,
    quiet: bool, sha: Bytes -> Digest)
    requires Audited(source, limits, files, directories, sha) && Matches(target, files, directories, sha)
    requires quiet ==> AllSame(source, target, files.Keys)
    ensures SameShape(source, target, sha) && FingerprintOfTree(source, sha) == FingerprintOfTree(target, sha)
    ensures Acceptable(target, limits) && WithinCap(target, SaturatingAdd(limits.maxFiles, limits.maxDirectories))
    ensures quiet ==> SameTree(source, target)
  {
    hide FingerprintOfTree, Matches, SameShape, SameTree, AllSame;
    if quiet {
      QuietCopyIsSame(source, target, limits, files, directories, sha);
    }
    MatchesShape(source, target, limits, files, directories, sha);
    SameShapeSameFingerprint(source, target, sha);
    hide Acceptable, WithinCap, WellFormed;
    SameShapeAcceptable(source, target, limits, SaturatingAdd(limits.maxFiles, limits.maxDirectories), sha);
  }

  lemma QuietCopyIsSame(
    source: Tree, target: Tree, limits: Limits, files: map<Path, FileFingerprint>, directories: map<Path, nat>,
    sha: Bytes -> Digest)
    requires Audited(source, limits, files, directories, sha) && Matches(target, files, directories, sha)
    requires AllSame(source, target, files.Keys)
    ensures SameTree(source, target)
  {
    MatchesShape(source, target, limits, files, directories, sha);
    hide Acceptable, WithinCap, WellFormed, Matches;
    forall p | p in source && source[p].File? ensures target[p].content == source[p].content {
      AuditedAt(source, limits, files, directories, sha, p);
      assert SameFile(source, target, p);
    }
  }

  lemma AuditedAt(
    source: Tree, limits: Limits, files: map<Path, FileFingerprint>, directories: map<Path, nat>, sha: Bytes -> Digest,
    p: Path)
    requires Audited(source, limits, files, directories, sha) && p in source
    ensures source[p].File? ==> p in files && files[p] == FingerprintOf(source[p], sha)
    ensures source[p].Directory? ==> p in directories
  {
  }
}
