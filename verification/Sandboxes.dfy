/**
 The disposable directory an archive backend runs in (`src/platform`). A run may
 leave anything behind, as long as the resource monitor accepts what it sees at the
 end. In a hostile environment others may change it between runs too; the callers
 say at which points (`Disturb`).
 */
module Sandboxes {
  import opened Base
  import opened Paths
  import opened Policy
  import opened Trees
  import opened Fingerprint
  import opened Snapshot
  import opened Walks
  import PaxFormat
  import Seal

  /** `limits_with_baseline`: what is there already plus what the step may add. */
  function LimitsWithBaseline(
    baseline: AuditSummary, extraFiles: nat, extraDirectories: nat, extraBytes: nat, maxSingle: U64)
    : (r: Outcome<Limits>)
    ensures r.Ok? <==>
            && baseline.files + extraFiles <= U64_MAX && baseline.directories + extraDirectories <= U64_MAX
            && baseline.totalBytes + extraBytes <= U64_MAX
    ensures r.Ok? ==> forall summary :: WithinLimits(summary, r.value) <==>
              && summary.files <= baseline.files + extraFiles
              && summary.directories <= baseline.directories + extraDirectories
              && summary.totalBytes <= baseline.totalBytes + extraBytes
    ensures r.Ok? ==> r.value.maxSingleFileBytes == maxSingle
  {
    var files, directories, bytes :=
      CheckedAdd(baseline.files, extraFiles), CheckedAdd(baseline.directories, extraDirectories),
      CheckedAdd(baseline.totalBytes, extraBytes);
    if files.Err? || directories.Err? || bytes.Err? then Err(Config)
    else Ok(Limits(U64_MAX, files.value, directories.value, bytes.value, maxSingle, U64_MAX, U64_MAX))
  }

  /** One process: what it found, what it left, the limits it was watched with, and its exit code. */
  datatype Process = Process(before: Tree, after: Tree, limits: Limits, exitCode: int)

  /**
   The process was given exactly this budget beyond what it found, kept within it, and
   reported success.
   */
  ghost predicate Succeeded(run: Process, files: nat, directories: nat, bytes: nat, single: nat) {
    && run.exitCode == 0
    && run.limits.maxFiles == Summary(run.before).files + files
    && run.limits.maxDirectories == Summary(run.before).directories + directories
    && run.limits.maxTotalBytes == Summary(run.before).totalBytes + bytes
    && run.limits.maxSingleFileBytes == single
    && Grew(run.before, run.after, files, directories, bytes, single)
  }

  /** A step added no more than its budget, and no file is larger than allowed. */
  ghost predicate Grew(before: Tree, after: Tree, files: nat, directories: nat, bytes: nat, single: nat) {
    && Summary(after).files <= Summary(before).files + files
    && Summary(after).directories <= Summary(before).directories + directories
    && Summary(after).totalBytes <= Summary(before).totalBytes + bytes
    && forall p | p in after && after[p].File? :: |after[p].content| <= single
  }

  /** The monitor's last look against limits derived from a baseline bounds what was added. */
  lemma MonitoredGrew(run: Process, files: nat, directories: nat, bytes: nat, single: U64)
    requires WellFormed(run.after) && MonitoredOn(run.after, Below(run.after), run.limits) && run.exitCode == 0
    requires LimitsWithBaseline(Summary(run.before), files, directories, bytes, single) == Ok(run.limits)
    ensures Succeeded(run, files, directories, bytes, single)
  {
  }

  /** `measure_tree` audits against limits that only the integer width bounds. */
  function Unbounded(): Limits {
    Limits(U64_MAX, U64_MAX, U64_MAX, U64_MAX, U64_MAX, U64_MAX, U64_MAX)
  }

  const BACKEND: Path := [PaxFormat.Chars("backend")]
  const LISTER: Path := [PaxFormat.Chars("internal-lister")]
  const CANDIDATES: Path := [PaxFormat.Chars("internal-lister"), PaxFormat.Chars("backend-dll-candidates.txt")]
  const LISTER_PROGRAM: Path := [PaxFormat.Chars("internal-lister"), PaxFormat.Chars("iroha-zip-archive-lister.exe")]
  const SOURCE: Path := [PaxFormat.Chars("source")]
  const SCRATCH: Path := [PaxFormat.Chars("Temp")]

  /**
   A directory as it was when the backend's access to it was cut down to reading,
   and the number of entries asked for; without isolation nothing is `applied`.
   */
  datatype Sealing = Sealing(place: Path, tree: Tree, entries: nat, applied: bool) {
    ghost predicate Holds() {
      applied ==> |Below(tree)| == entries && Seal.NoSpecial(tree, Below(tree))
    }
  }

  class Sandbox {
    var root: Tree
    /** The directory beside the root that an isolated sandbox stages its source in. */
    var beside: Option<Tree>
    /** The processes that ran to their end, in order; only `Run` adds to it. */
    ghost var runs: seq<Process>
    /** The directories sealed so far, in order, and the backend's directory as it was installed. */
    ghost var seals: seq<Sealing>
    ghost var installed: seq<Tree>
    const sha: Bytes -> Digest
    /** Without an AppContainer nothing is sealed. */
    const isolated: bool
    /** Whether file operations may fail for reasons of their own and others may write here between runs. */
    const hostile: bool

    ghost predicate Valid()
      reads this
    {
      WellFormed(root) && (beside.Some? ==> WellFormed(beside.value))
    }

    /**
     The staged source. Without isolation it lies below the root, where the monitor
     and `measure_tree` see it.
     */
    function Source(): (source: Option<Tree>)
      reads this
    {
      if isolated then beside
      else if SOURCE in root && root[SOURCE].Directory? then Some(Subtree(root, SOURCE))
      else None
    }

    lemma SourceIsTree()
      requires Valid()
      ensures Source().Some? ==> WellFormed(Source().value)
    {
      if SOURCE in root && root[SOURCE].Directory? {
        SubtreeWellFormed(root, SOURCE);
      }
    }

    constructor (sha: Bytes -> Digest, hostile: bool)
      ensures Valid() && beside == None && runs == [] && seals == [] && installed == []
      ensures this.sha == sha && this.hostile == hostile
    {
      this.sha := sha;
      this.hostile := hostile;
      var sealing: bool := *;
      isolated := sealing;
      var created: Tree := *;
      root := if WellFormed(created) then created else map[[] := Directory(0)];
      beside, runs, seals, installed := None, [], [], [];
    }

    /** Anything others may do while no process runs. */
    method Disturb()
      requires Valid()
      modifies this`root, this`beside
      ensures Valid()
      ensures !hostile ==> root == old(root) && beside == old(beside)
    {
      if hostile {
        Havoc();
      }
    }

    method Havoc()
      requires Valid()
      modifies this`root, this`beside
      ensures Valid()
    {
      var left: Tree := *;
      var leftBeside: Option<Tree> := *;
      root := if WellFormed(left) then left else root;
      beside := if leftBeside.Some? && WellFormed(leftBeside.value) then leftBeside else None;
    }

    /** Puts a finished copy of the source where it is staged, if nothing is there. */
    method StageSource(t: Tree) returns (r: Outcome<Unit>)
      requires Valid() && WellFormed(t)
      modifies this`root, this`beside
      ensures Valid()
      ensures r.Ok? ==> Source() == Some(t)
      ensures r.Err? ==> root == old(root) && beside == old(beside)
      ensures r.Ok? && isolated ==> old(beside).None? && root == old(root)
      ensures r.Ok? && !isolated ==>
                SOURCE !in old(root) && beside == old(beside) && root == Graft(old(root), SOURCE, t)
      ensures r.Ok? <==> if isolated then old(beside).None? else SOURCE !in old(root)
    {
      if isolated {
        if beside.Some? {
          return Err(Io);
        }
        beside := Some(t);
      } else {
        if SOURCE in root {
          return Err(Io);
        }
        assert Parent(SOURCE) == [];
        GraftIsTree(root, SOURCE, t);
        root := Graft(root, SOURCE, t);
        assert t[[]].Directory?;
        StagedRoot(root, t);
      }
      r := Ok(Unit);
    }

    lemma StagedRoot(root: Tree, t: Tree)
      requires SOURCE in root && Subtree(root, SOURCE) == t && WellFormed(t)
      ensures root[SOURCE].Directory?
    {
      SubtreeAt(root, SOURCE);
      assert SOURCE + [] == SOURCE;
    }

    method CreateDirectory(p: Path) returns (r: Outcome<Unit>)
      requires Valid() && p != []
      modifies this`root
      ensures Valid()
      ensures r.Err? ==> root == old(root)
      ensures r.Ok? ==> p !in old(root) && p in root && root[p].Directory? && root == old(root)[p := root[p]]
      ensures !hostile ==> (r.Ok? <==> p !in old(root) && Parent(p) in old(root) && old(root)[Parent(p)].Directory?)
    {
      var fails := IoFails(hostile);
      if fails || p in root || Parent(p) !in root || !root[Parent(p)].Directory? {
        return Err(Io);
      }
      var identity: nat := *;
      root := root[p := Directory(identity)];
      r := Ok(Unit);
    }

    /** A file this program has just finished writing. */
    method AddFile(p: Path, content: Bytes) returns (r: Outcome<Unit>)
      requires Valid() && p != []
      modifies this`root
      ensures Valid()
      ensures r.Err? ==> root == old(root)
      ensures r.Ok? ==> p !in old(root) && p in root && root[p].File? && root[p].content == content
      ensures r.Ok? ==> root == old(root)[p := root[p]]
      ensures !hostile ==> (r.Ok? <==> p !in old(root) && Parent(p) in old(root) && old(root)[Parent(p)].Directory?)
    {
      var fails := IoFails(hostile);
      if fails || p in root || Parent(p) !in root || !root[Parent(p)].Directory? {
        return Err(Io);
      }
      var identity: nat, modified: nat, created: nat := *, *, *;
      root := root[p := File(content, identity, modified, created)];
      r := Ok(Unit);
    }

    method RemoveFile(p: Path) returns (r: Outcome<Unit>)
      requires Valid()
      modifies this`root
      ensures Valid()
      ensures r.Err? ==> root == old(root)
      ensures r.Ok? ==> p in old(root) && old(root)[p].File? && root == old(root) - {p}
      ensures !hostile ==> (r.Ok? <==> p in old(root) && old(root)[p].File?)
    {
      var fails := IoFails(hostile);
      if fails || p !in root || !root[p].File? {
        return Err(Io);
      }
      root := root - {p};
      r := Ok(Unit);
    }

    /**
     `copy_verified_to`: every pinned file into the backend's directory. What is in that
     directory besides, if another party made it first, stays.
     */
    method InstallBackend(backend: Seal.Bundle) returns (r: Outcome<Unit>)
      requires Valid() && backend.manifest.Valid()
      modifies this`root, this`installed
      ensures Valid()
      ensures r.Err? ==> root == old(root) && installed == old(installed)
      ensures r.Ok? ==>
                && BACKEND in root && AgreeOutside(old(root), root, {BACKEND})
                && installed == old(installed) + [Subtree(root, BACKEND)]
                && Seal.PinnedIn(Subtree(root, BACKEND), backend.manifest.digests, sha)
      ensures r.Ok? && BACKEND !in old(root) ==>
                var digests := backend.manifest.digests;
                Seal.CopyOf(Subtree(root, BACKEND), digests.Keys, digests, sha)
      ensures !hostile && BACKEND !in old(root) ==>
                (r.Ok? <==> && Seal.FormTree(backend.manifest.digests.Keys)
                            && Seal.ReadsAsPinned(backend.manifest.digests, backend.read, sha))
    {
      var fails := IoFails(hostile);
      if fails {
        return Err(Io);
      }
      if BACKEND in root {
        var merged: Tree := *;
        if !MergedInto(root, merged, backend.manifest.digests, sha) {
          return Err(Backend);
        }
        root := merged;
      } else {
        var copy := Seal.CopyVerifiedTo(backend.manifest, backend.read, sha);
        if copy.Err? {
          return Err(copy.error);
        }
        Seal.CopyIsTree(copy.value, backend.manifest.digests, sha);
        CopyGrafts(root, copy.value, backend.manifest.digests, sha);
        root := Graft(root, BACKEND, copy.value);
      }
      installed := installed + [Subtree(root, BACKEND)];
      r := Ok(Unit);
    }

    /** `prepare_windows_archive_lister`: the two files the lister needs, in a new directory, sealed. */
    method InstallLister() returns (r: Outcome<Unit>)
      requires Valid()
      modifies this`root, this`seals
      ensures Valid()
      ensures r.Ok? ==> LISTER !in old(root) && LISTER in root && AgreeOutside(old(root), root, {LISTER})
      ensures r.Ok? ==> seals == old(seals) + [Sealing(LISTER, Subtree(root, LISTER), 2, isolated)]
      ensures r.Ok? ==> Sealing(LISTER, Subtree(root, LISTER), 2, isolated).Holds()
      ensures !hostile ==> (r.Ok? <==> LISTER !in old(root))
    {
      ghost var before := root;
      ListerPaths();
      r := CreateDirectory(LISTER);
      if r.Err? {
        return;
      }
      var candidates: Bytes, program: Bytes := *, *;
      r := AddFile(CANDIDATES, candidates);
      if r.Err? {
        return;
      }
      r := AddFile(LISTER_PROGRAM, program);
      if r.Err? {
        return;
      }
      HoldsTwo(before, root, LISTER, CANDIDATES[1], LISTER_PROGRAM[1]);
      var sealed := SealTree(LISTER, 2);
      r := if sealed.Err? then Err(sealed.error) else Ok(Unit);
    }

    /**
     The backend runs: any change at all, inside the sandbox only. The monitor's
     last look, after the process has ended, must find the limits kept.
     */
    method Run(limits: Limits) returns (r: Outcome<int>)
      requires Valid()
      modifies this`root, this`beside, this`runs
      ensures Valid()
      ensures runs == if r.Ok? then old(runs) + [Process(old(root), root, limits, r.value)] else old(runs)
      ensures r.Ok? ==> MonitoredOn(root, Below(root), limits)
    {
      ghost var before := root;
      Havoc();
      var fails := IoFails(hostile);
      var watched := CheckResourceLimits(Some(root), limits);
      if fails || watched.Err? {
        return Err(SandboxError);
      }
      var exitCode: int := *;
      runs := runs + [Process(before, root, limits, exitCode)];
      r := Ok(exitCode);
    }

    /** `seal_sandbox_tree`: refuses a directory with any other number of entries. */
    method SealTree(p: Path, maxEntries: nat) returns (r: Outcome<bool>)
      requires Valid() && maxEntries <= U64_MAX
      modifies this`seals
      ensures r.Err? ==> seals == old(seals)
      ensures r.Ok? ==>
                && r.value == isolated && p in root && root[p].Directory?
                && seals == old(seals) + [Sealing(p, Subtree(root, p), maxEntries, isolated)]
                && Sealing(p, Subtree(root, p), maxEntries, isolated).Holds()
      ensures !hostile && p in root && root[p].Directory? && |Below(Subtree(root, p))| == maxEntries
              && Seal.NoSpecial(Subtree(root, p), Below(Subtree(root, p)))
              ==> r.Ok?
    {
      var fails := IoFails(hostile);
      if fails || p !in root || !root[p].Directory? {
        return Err(Io);
      }
      if isolated {
        SubtreeWellFormed(root, p);
        var sealed := Seal.SealTree(Subtree(root, p), maxEntries);
        if sealed.Err? {
          return Err(Policy);
        }
      }
      seals := seals + [Sealing(p, Subtree(root, p), maxEntries, isolated)];
      r := Ok(isolated);
    }

    /** `seal_staged_source_tree`. */
    method SealSource(maxEntries: nat) returns (r: Outcome<bool>)
      requires Valid() && maxEntries <= U64_MAX
      modifies this`seals
      ensures r.Err? ==> seals == old(seals)
      ensures r.Ok? ==>
                && r.value == isolated && Source().Some?
                && seals == old(seals) + [Sealing(SOURCE, Source().value, maxEntries, isolated)]
                && Sealing(SOURCE, Source().value, maxEntries, isolated).Holds()
    {
      var fails := IoFails(hostile);
      var source := Source();
      if fails || source.None? {
        return Err(Io);
      }
      if isolated {
        var sealed := Seal.SealTree(source.value, maxEntries);
        if sealed.Err? {
          return Err(Policy);
        }
      }
      seals := seals + [Sealing(SOURCE, source.value, maxEntries, isolated)];
      r := Ok(isolated);
    }

    /** `AuditedFile::open`, used only to learn the state of a file at this point. */
    method OpenFile(p: Path, maxBytes: nat) returns (r: Outcome<AuditedFile>)
      requires Valid()
      ensures r.Ok? ==> fresh(r.value) && p in root && root[p].File? && Holds(r.value, root[p])
      ensures r.Ok? ==> |root[p].content| <= maxBytes
      ensures !hostile ==> (r.Ok? <==> p in root && root[p].File? && |root[p].content| <= maxBytes)
    {
      var fails := IoFails(hostile);
      if fails || p !in root || !root[p].File? {
        return Err(Policy);
      }
      var file := new AuditedFile(root[p], false, sha);
      var checked := file.Fingerprinted(maxBytes);
      if checked.Err? {
        return Err(Policy);
      }
      r := Ok(file);
    }

    /** `AuditedFile::open` on a file that is copied later, while others may be writing to it. */
    method OpenShared(p: Path, maxBytes: nat) returns (r: Outcome<AuditedFile>)
      requires Valid()
      ensures r.Ok? ==> fresh(r.value) && r.value.hostile == hostile && r.value.sha == sha
      ensures r.Ok? ==> r.value.fingerprint.length <= maxBytes && p in root && root[p].File?
      ensures !hostile ==> (r.Ok? <==> p in root && root[p].File? && |root[p].content| <= maxBytes)
      ensures !hostile && r.Ok? ==>
                && r.value.Untouched() && r.value.content == root[p].content
                && r.value.fingerprint == FingerprintOf(root[p], sha)
    {
      var fails := IoFails(hostile);
      if fails || p !in root || !root[p].File? {
        return Err(Policy);
      }
      var file := new AuditedFile(root[p], hostile, sha);
      var checked := file.Fingerprinted(maxBytes);
      if checked.Err? {
        return Err(Policy);
      }
      r := Ok(file);
    }

    /** The open handle belongs to the given file, unmodified. */
    ghost predicate Holds(file: AuditedFile, n: Node)
      reads file
    {
      && n.File? && !file.hostile && file.sha == sha && file.Untouched()
      && file.content == n.content && file.fingerprint == FingerprintOf(n, sha)
    }

    /** `File::take(limit + 1)` followed by a length test. */
    method ReadLimited(p: Path, limit: nat) returns (r: Outcome<Bytes>)
      ensures r.Ok? ==> p in root && root[p].File? && r.value == root[p].content && |r.value| <= limit
      ensures !hostile ==> (r.Ok? <==> p in root && root[p].File? && |root[p].content| <= limit)
    {
      var fails := IoFails(hostile);
      if fails || p !in root || !root[p].File? {
        return Err(Io);
      }
      var bytes := root[p].content[..Min(limit + 1, |root[p].content|)];
      if |bytes| > limit {
        return Err(Policy);
      }
      r := Ok(bytes);
    }

    method Measure() returns (r: Outcome<AuditSummary>)
      requires Valid()
      ensures r.Ok? ==> r.value == Summary(root)
    {
      r := AuditTree(root, Unbounded());
    }

    /** `create_process_scratch`: an empty `Temp` directory, reused if it is already there. */
    method CreateScratch() returns (r: Outcome<Unit>)
      requires Valid()
      modifies this`root
      ensures Valid()
      ensures r.Ok? ==> HasEmptyScratch() && root == old(root)[SCRATCH := root[SCRATCH]]
      ensures !hostile ==> (r.Ok? <==> SCRATCH !in old(root) || old(HasEmptyScratch()))
    {
      if SCRATCH !in root {
        assert Parent(SCRATCH) == [];
        NothingBelow(root, SCRATCH);
        r := CreateDirectory(SCRATCH);
        if r.Err? {
          return;
        }
        assert forall p | p != [] && Parent(p) == SCRATCH :: IsPrefix(SCRATCH, p);
        assert Children(root, SCRATCH) == {};
      }
      r := RequireEmptyScratch();
    }

    ghost predicate HasEmptyScratch()
      reads this`root
    {
      SCRATCH in root && root[SCRATCH].Directory? && Children(root, SCRATCH) == {}
    }

    method RequireEmptyScratch() returns (r: Outcome<Unit>)
      ensures r.Ok? <==> HasEmptyScratch()
    {
      if SCRATCH !in root || !root[SCRATCH].Directory? {
        return Err(Io);
      }
      var entries := ReadDir(root, SCRATCH);
      if entries != [] {
        assert entries[0] in entries;
        return Err(Policy);
      }
      assert forall p :: p !in entries;
      r := Ok(Unit);
    }

    /** `finish_process_scratch`: the backend must have left it empty. */
    method FinishScratch() returns (r: Outcome<Unit>)
      requires Valid()
      modifies this`root
      ensures Valid()
      ensures r.Ok? ==> SCRATCH !in root && root == old(root) - {SCRATCH} && old(HasEmptyScratch())
      ensures !hostile ==> (r.Ok? <==> old(HasEmptyScratch()))
    {
      r := RequireEmptyScratch();
      var fails := IoFails(hostile);
      if fails || r.Err? {
        return Err(Policy);
      }
      assert forall p | p in root && p != [] :: Parent(p) == SCRATCH ==> p in Children(root, SCRATCH);
      root := root - {SCRATCH};
    }

    /** Whether it fails is up to the environment, and made explicit for the callers' guarantees. */
    method Cleanup(fails: bool) returns (r: Outcome<Unit>)
      modifies this`root, this`beside
      ensures r.Err? <==> fails
      ensures r.Ok? ==> Below(root) == {} && beside == None
    {
      var left: Tree := *;
      root, beside := if fails then left else map[[] := Directory(0)], if fails then beside else None;
      r := if fails then Err(SandboxError) else Ok(Unit);
    }
  }

  /** Another party's backend directory, overlaid with the pinned files. */
  predicate MergedInto(before: Tree, after: Tree, digests: map<Path, Digest>, sha: Bytes -> Digest) {
    && WellFormed(after) && BACKEND in after && AgreeOutside(before, after, {BACKEND})
    && Seal.PinnedIn(Subtree(after, BACKEND), digests, sha)
  }

  lemma CopyGrafts(root: Tree, copy: Tree, digests: map<Path, Digest>, sha: Bytes -> Digest)
    requires WellFormed(root) && WellFormed(copy) && BACKEND !in root
    requires Seal.CopyOf(copy, digests.Keys, digests, sha)
    ensures WellFormed(Graft(root, BACKEND, copy)) && BACKEND in Graft(root, BACKEND, copy)
    ensures Subtree(Graft(root, BACKEND, copy), BACKEND) == copy && Seal.PinnedIn(copy, digests, sha)
    ensures AgreeOutside(root, Graft(root, BACKEND, copy), {BACKEND})
  {
    assert Parent(BACKEND) == [];
    GraftIsTree(root, BACKEND, copy);
    GraftAt(root, BACKEND, copy);
    forall p | p in Graft(root, BACKEND, copy) && Outside(p, {BACKEND}) ensures p in root {
      GraftedNode(root, BACKEND, copy, p);
    }
  }

  /** A new directory with two files of different names has two entries, and nothing else changes. */
  lemma HoldsTwo(before: Tree, after: Tree, d: Path, first: Name, second: Name)
    requires WellFormed(before) && d !in before && first != second
    requires d in after && d + [first] in after && d + [second] in after
    requires after == before[d := after[d]][d + [first] := after[d + [first]]][d + [second] := after[d + [second]]]
    requires after[d + [first]].File? && after[d + [second]].File?
    ensures AgreeOutside(before, after, {d})
    ensures |Below(Subtree(after, d))| == 2
    ensures Seal.NoSpecial(Subtree(after, d), Below(Subtree(after, d)))
  {
    NothingBelow(before, d);
    SubtreeAt(after, d);
    var t := Subtree(after, d);
    assert IsPrefix(d, d) && IsPrefix(d, d + [first]) && IsPrefix(d, d + [second]);
    hide Subtree;
    forall q | q in t && q != [] ensures q == [first] || q == [second] {
      assert IsPrefix(d, d + q);
      assert d + q in after && d + q != d;
      assert q == (d + q)[|d|..];
    }
    assert Below(t) == {[first], [second]};
    assert [first] != [second] by {
      assert [first][0] == first;
    }
  }

  lemma ListerPaths()
    ensures Parent(LISTER) == [] && |CANDIDATES| == |LISTER_PROGRAM| == 2
    ensures CANDIDATES == LISTER + [CANDIDATES[1]] && LISTER_PROGRAM == LISTER + [LISTER_PROGRAM[1]]
    ensures Parent(CANDIDATES) == LISTER && Parent(LISTER_PROGRAM) == LISTER
    ensures CANDIDATES[1] != LISTER_PROGRAM[1]
  {
    assert |CANDIDATES[1]| != |LISTER_PROGRAM[1]|;
  }

  predicate AgreeOutside(t: Tree, u: Tree, tools: set<Path>) {
    && (forall p | p in t :: Outside(p, tools) ==> p in u && t[p] == u[p])
    && (forall p | p in u :: Outside(p, tools) ==> p in t && t[p] == u[p])
  }

  predicate Outside(p: Path, tools: set<Path>) {
    forall tool | tool in tools :: !IsPrefix(tool, p)
  }
}
