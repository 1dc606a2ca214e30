/**
 `create_archive` (`src/create.rs`): stage the source, serialise it, let the
 backend make an archive, re-extract that archive in a second sandbox, compare,
 and publish. Both sandboxes may do anything during their runs.
 */
module Create {
  import opened Base
  import opened Paths
  import opened Policy
  import opened Trees
  import opened Fingerprint
  import opened Audit
  import opened Snapshot
  import opened Transfer
  import opened Walks
  import opened Sandboxes
  import opened Staging
  import opened PaxFormat
  import PaxTree
  import Seal

  const PAX_SOURCE: Path := [Chars("source.pax.tar")]
  const CREATED: Path := [Chars("output"), Chars("archive.bin")]

  /**
   What was audited, what was staged of it, the pax stream of that, the file the
   backend found in its place, the re-extraction, the staged source as it was looked
   at for the last time before publication, and what ran, was installed and was sealed
   in the first sandbox.
   */
  datatype CreateHistory = CreateHistory(
    audited: Tree, staged: Tree, pax: Bytes, launched: Bytes, stage: History, guard: FileFingerprint, rechecked: Tree,
    runs: seq<Process>, installed: seq<Tree>, seals: seq<Sealing>)

  /** How an operation ended: whether publication was attempted and worked, and what a failed attempt left. */
  datatype Ending = Ending(attempted: bool, published: bool, left: Option<Bytes>, removal: Removal)

  const NOT_ATTEMPTED := Ending(false, false, None, NothingMade)

  ghost function Begun(audited: Tree): CreateHistory {
    CreateHistory(audited, map[], [], [], NO_HISTORY,
                  FileFingerprint(0, 0, 0, 0, Repeat(0, DIGEST_BYTES)), map[], [], [], [])
  }

  ghost function ExtractedTree(h: History): Tree {
    if OUTPUT in h.afterExtraction then Subtree(h.afterExtraction, OUTPUT) else map[]
  }

  /** The backend was fed a pax archive of the staged copy of the audited source. */
  ghost predicate Fed(h: CreateHistory, limits: Limits, sha: Bytes -> Digest) {
    && WellFormed(h.audited) && Acceptable(h.audited, limits)
    && WellFormed(h.staged) && Acceptable(h.staged, limits) && SameShape(h.audited, h.staged, sha)
    && limits.maxFiles + limits.maxDirectories <= U64_MAX
    && PaxTree.AttributesFit(h.staged) && h.pax == Archive(PaxTree.TreeEntries(h.staged))
    && |h.launched| == |h.pax| && sha(h.launched) == sha(h.pax)
    && SealedAsStaged(h.installed, h.seals, h.staged)
  }

  /** What was sealed is what was put there. */
  ghost predicate SealedAsStaged(installed: seq<Tree>, seals: seq<Sealing>, staged: Tree) {
    |installed| == 1 && |seals| == 2 && seals[0].tree == installed[0] && seals[1].tree == staged
  }

  /** The backend's directory got every pinned file and was sealed with as many entries as the manifest implies. */
  ghost predicate BackendSealed(
    installed: seq<Tree>, seals: seq<Sealing>, backend: Seal.Manifest, quiet: bool, sha: Bytes -> Digest)
  {
    && |installed| == 1 && Seal.PinnedIn(installed[0], backend.digests, sha)
    && |seals| == 1 && seals[0].Holds() && seals[0].place == BACKEND
    && seals[0].entries == |backend.digests| + |Seal.ParentsOf(backend.digests.Keys)|
    && (quiet ==> seals[0].tree == installed[0])
  }

  /** The staged source was sealed with as many entries as the audit counted. */
  ghost predicate SourceSealed(sealing: Sealing, audited: Tree) {
    && sealing.place == SOURCE && sealing.Holds()
    && sealing.entries == Summary(audited).files + Summary(audited).directories
  }

  ghost predicate Equipped(
    installed: seq<Tree>, seals: seq<Sealing>, audited: Tree, backend: Seal.Manifest, sha: Bytes -> Digest)
  {
    && |seals| == 2 && BackendSealed(installed, seals[..1], backend, false, sha)
    && SourceSealed(seals[1], audited) && seals[0].applied == seals[1].applied
  }

  /** Whatever others did before the launch: the backend was given a complete pax archive, as written. */
  ghost predicate Launched(h: CreateHistory, limits: Limits, sha: Bytes -> Digest) {
    && WellFormed(h.audited) && Acceptable(h.audited, limits)
    && ReadArchive(h.pax).Some? && |h.launched| == |h.pax| && sha(h.launched) == sha(h.pax)
  }

  /** Re-extracting an archive with this fingerprint reproduced the tree with that fingerprint. */
  ghost predicate Reproduced(
    h: History, guard: FileFingerprint, archive: FileFingerprint, expected: TreeFingerprint, backend: Seal.Manifest,
    limits: Limits, fold: Bytes -> Bytes, hostile: bool, sha: Bytes -> Digest)
  {
    && (exists summary :: Staged(h, guard, summary, backend, limits, true, fold, hostile, sha))
    && guard.length == archive.length && guard.sha256 == archive.sha256 && OUTPUT in h.afterExtraction
    && WellFormed(ExtractedTree(h)) && Acceptable(ExtractedTree(h), limits)
    && FingerprintOfTree(ExtractedTree(h), sha) == expected
  }

  /** What the backend may add: its archive twice over, some logs and a scratch directory. */
  ghost predicate WithinCreationBudget(run: Process, pax: nat, limits: Limits) {
    Succeeded(run, 4, 1, limits.maxArchiveBytes * 2 + 2 * 1024 * 1024,
              Max(Max(limits.maxSingleFileBytes, limits.maxArchiveBytes), pax))
  }

  /** Exactly one process ran in the first sandbox, within its budget, and it reported success. */
  ghost predicate BackendRan(h: CreateHistory, limits: Limits) {
    |h.runs| == 1 && WithinCreationBudget(h.runs[0], |h.launched|, limits)
  }

  /** What publishing these bytes rests on. */
  ghost predicate CreatedFrom(
    published: Bytes, h: CreateHistory, backend: Seal.Manifest, limits: Limits, fold: Bytes -> Bytes, hostile: bool,
    sha: Bytes -> Digest)
  {
    && Launched(h, limits, sha) && Equipped(h.installed, h.seals, h.audited, backend, sha) && BackendRan(h, limits)
    && published != [] && |published| <= limits.maxArchiveBytes
    && Acceptable(h.rechecked, limits) && FingerprintOfTree(h.rechecked, sha) == FingerprintOfTree(h.audited, sha)
    && exists archive: FileFingerprint ::
         && archive.length == |published| && archive.sha256 == sha(published)
         && Reproduced(
              h.stage, h.guard, archive, FingerprintOfTree(h.audited, sha), backend, limits, fold, hostile, sha)
  }

  /* ----- Checks between the steps ----- */

  method FingerprintTree(t: Tree, limits: Limits, sha: Bytes -> Digest) returns (r: Outcome<TreeFingerprint>)
    requires WellFormed(t)
    ensures r.Ok? <==> Acceptable(t, limits) && WithinCap(t, SaturatingAdd(limits.maxFiles, limits.maxDirectories))
    ensures r.Ok? ==> r.value == FingerprintOfTree(t, sha)
  {
    var audit := BuildTreeAudit(t, limits, sha);
    r := if audit.Err? then Err(audit.error) else Ok(audit.value.fingerprint);
  }

  method RequireTreeFingerprint(t: Option<Tree>, limits: Limits, expected: TreeFingerprint, sha: Bytes -> Digest)
    returns (r: Outcome<Unit>)
    requires t.Some? ==> WellFormed(t.value)
    ensures r.Ok? <==>
            && t.Some? && FingerprintOfTree(t.value, sha) == expected && Acceptable(t.value, limits)
            && WithinCap(t.value, SaturatingAdd(limits.maxFiles, limits.maxDirectories))
  {
    if t.None? {
      return Err(Io);
    }
    var observed := FingerprintTree(t.value, limits, sha);
    if observed.Err? || observed.value != expected {
      return Err(Policy);
    }
    r := Ok(Unit);
  }

  method RequireFileFingerprint(sandbox: Sandbox, p: Path, expected: FileFingerprint) returns (r: Outcome<Unit>)
    requires sandbox.Valid()
    ensures r.Ok? ==>
              && p in sandbox.root && sandbox.root[p].File?
              && FingerprintOf(sandbox.root[p], sandbox.sha) == expected
    ensures !sandbox.hostile && p in sandbox.root && sandbox.root[p].File?
            && FingerprintOf(sandbox.root[p], sandbox.sha) == expected
            ==> r.Ok?
  {
    var observed := sandbox.OpenFile(p, expected.length);
    if observed.Err? || observed.value.fingerprint != expected {
      return Err(Policy);
    }
    r := Ok(Unit);
  }

  /** `open_input_archive`: empty archives are refused. The file may be written to by others from now on. */
  method OpenInputArchive(sandbox: Sandbox, limits: Limits) returns (r: Outcome<AuditedFile>)
    requires sandbox.Valid()
    ensures r.Ok? ==> fresh(r.value) && r.value.hostile == sandbox.hostile && r.value.sha == sandbox.sha
    ensures r.Ok? ==> 0 < r.value.fingerprint.length <= limits.maxArchiveBytes
    ensures !sandbox.hostile ==>
              (r.Ok? <==> && CREATED in sandbox.root && sandbox.root[CREATED].File?
                          && 0 < |sandbox.root[CREATED].content| <= limits.maxArchiveBytes)
    ensures !sandbox.hostile && r.Ok? ==>
              && r.value.Untouched() && r.value.content == sandbox.root[CREATED].content
              && r.value.fingerprint == FingerprintOf(sandbox.root[CREATED], sandbox.sha)
  {
    r := sandbox.OpenShared(CREATED, limits.maxArchiveBytes);
    if r.Ok? && r.value.fingerprint.length == 0 {
      r := Err(Policy);
    }
  }

  /** Opens the archive once more and requires the verified fingerprint. */
  method OpenVerifiedArchive(sandbox: Sandbox, limits: Limits, verified: FileFingerprint)
    returns (r: Outcome<AuditedFile>)
    requires sandbox.Valid()
    ensures r.Ok? ==> fresh(r.value) && r.value.hostile == sandbox.hostile && r.value.sha == sandbox.sha
    ensures r.Ok? ==> r.value.fingerprint == verified && 0 < verified.length <= limits.maxArchiveBytes
    ensures !sandbox.hostile ==>
              (r.Ok? <==> && CREATED in sandbox.root && sandbox.root[CREATED].File?
                          && 0 < |sandbox.root[CREATED].content| <= limits.maxArchiveBytes
                          && FingerprintOf(sandbox.root[CREATED], sandbox.sha) == verified)
    ensures !sandbox.hostile && r.Ok? ==> r.value.Untouched() && r.value.content == sandbox.root[CREATED].content
  {
    r := OpenInputArchive(sandbox, limits);
    if r.Ok? && r.value.fingerprint != verified {
      r := Err(Policy);
    }
  }

  /** Re-extracts the created archive in a sandbox of its own and compares the result. */
  method VerifyCreatedArchive(
    sandbox: Sandbox, expected: TreeFingerprint, backend: Seal.Bundle, limits: Limits, fold: Bytes -> Bytes,
    named: Name -> bool)
    returns (r: Outcome<FileFingerprint>, ghost h: History, ghost guard: FileFingerprint)
    requires sandbox.Valid() && backend.manifest.Valid()
    ensures r.Ok? ==>
              Reproduced(
                h, guard, r.value, expected, backend.manifest, limits, fold, sandbox.hostile, sandbox.sha)
    ensures r.Ok? ==> 0 < r.value.length <= limits.maxArchiveBytes
    ensures r.Ok? && !sandbox.hostile ==>
              && CREATED in sandbox.root && sandbox.root[CREATED].File?
              && r.value == FingerprintOf(sandbox.root[CREATED], sandbox.sha)
  {
    hide Staged, Acceptable, FingerprintOfTree, IsPayload;
    h := NO_HISTORY;
    guard := *;
    var snapshot := OpenInputArchive(sandbox, limits);
    if snapshot.Err? {
      return Err(snapshot.error), h, guard;
    }
    var archive := snapshot.value.fingerprint;
    var staged;
    staged, h, guard := StageArchive(snapshot.value, backend, None, false, limits, true, fold, named);
    if staged.Err? {
      return Err(staged.error), h, guard;
    }
    ExtractedIsTree(
      h, guard, staged.value.summary, backend.manifest, limits, fold, sandbox.hostile, sandbox.sha);
    var second := staged.value.sandbox;
    var observed := FingerprintTree(Subtree(second.root, OUTPUT), limits, sandbox.sha);
    var fails := IoFails(second.hostile);
    var cleaned := second.Cleanup(fails);
    if observed.Err? {
      return if cleaned.Ok? then Err(observed.error) else Err(SandboxError), h, guard;
    }
    if observed.value != expected {
      return if cleaned.Ok? then Err(Policy) else Err(SandboxError), h, guard;
    }
    if cleaned.Err? {
      return Err(SandboxError), h, guard;
    }
    r := Ok(archive);
  }

  lemma ExtractedIsTree(
    h: History, guard: FileFingerprint, summary: AuditSummary, backend: Seal.Manifest, limits: Limits,
    fold: Bytes -> Bytes, hostile: bool, sha: Bytes -> Digest)
    requires Staged(h, guard, summary, backend, limits, true, fold, hostile, sha)
    ensures OUTPUT in h.afterExtraction && WellFormed(Subtree(h.afterExtraction, OUTPUT))
    ensures ExtractedTree(h) == Subtree(h.afterExtraction, OUTPUT)
  {
    SubtreeWellFormed(h.afterExtraction, OUTPUT);
  }

  /* ----- The first sandbox ----- */

  /**
   Everything before the backend's run: stage a copy of the source and serialise
   it. `audited` is the source as the copy's own audit met it. Others may write to
   the sandbox at any time, unless this program is `alone` with it until the pax
   stream is in place; the file the backend then finds has the stream's length and
   digest.
   */
  method Feed(
    sandbox: Sandbox, audited: Tree, backend: Seal.Bundle, hostile: bool, alone: bool, limits: Limits, capacity: nat)
    returns (r: Outcome<(TreeFingerprint, FileFingerprint)>, ghost h: CreateHistory)
    requires sandbox.Valid() && WellFormed(audited) && backend.manifest.Valid() && capacity <= U64_MAX
    requires sandbox.installed == [] && sandbox.seals == []
    modifies sandbox`root, sandbox`beside, sandbox`installed, sandbox`seals
    ensures sandbox.Valid() && h.audited == audited
    ensures r.Ok? ==> Equipped(h.installed, h.seals, h.audited, backend.manifest, sandbox.sha)
    ensures r.Ok? ==> h.installed == sandbox.installed && h.seals == sandbox.seals
    ensures r.Ok? ==> Launched(h, limits, sandbox.sha) && r.value.0 == FingerprintOfTree(audited, sandbox.sha)
    ensures r.Ok? && (alone || !sandbox.hostile) ==> Fed(h, limits, sandbox.sha)
    ensures r.Ok? ==> PAX_SOURCE in sandbox.root && sandbox.root[PAX_SOURCE].File?
    ensures r.Ok? ==> sandbox.root[PAX_SOURCE].content == h.launched
    ensures r.Ok? ==> r.value.1 == FingerprintOf(sandbox.root[PAX_SOURCE], sandbox.sha)
    ensures r.Ok? ==> r.value.1.length <= capacity
    ensures r.Ok? && !sandbox.hostile ==> sandbox.Source() == Some(h.staged) && h.launched == h.pax
    ensures r.Ok? && !hostile && (alone || !sandbox.hostile) ==> SameTree(audited, h.staged)
  {
    hide Acceptable, FingerprintOfTree, SameShape, PaxTree.AttributesFit, Archive, ReadArchive, PaxTree.TreeEntries,
      WithinCap, SameTree, Fed, Equipped, SealedAsStaged;
    h := Begun(audited);
    var staged;
    var watched := sandbox.hostile && !alone;
    staged, h := Equip(sandbox, audited, backend, hostile, watched, limits);
    if staged.Err? {
      return Err(staged.error), h;
    }
    var pax := Serialise(sandbox, limits, capacity, watched);
    if pax.Err? {
      return Err(pax.error), h;
    }
    h := h.(pax := pax.value);
    if watched {
      sandbox.Disturb();
    }
    r, h := Launch(sandbox, pax.value, staged.value, h);
    if !watched {
      FedAlone(h, limits, sandbox.sha);
    }
  }

  /** The pax stream of whatever is staged by now, written outside the sandbox's backend. */
  method Serialise(sandbox: Sandbox, limits: Limits, capacity: nat, watched: bool) returns (r: Outcome<Bytes>)
    requires sandbox.Valid() && capacity <= U64_MAX
    ensures r.Ok? ==> ReadArchive(r.value).Some? && |r.value| <= capacity
    ensures r.Ok? && !watched ==>
              && sandbox.Source().Some? && limits.maxFiles + limits.maxDirectories <= U64_MAX
              && PaxTree.AttributesFit(sandbox.Source().value)
              && r.value == Archive(PaxTree.TreeEntries(sandbox.Source().value))
  {
    hide Acceptable, Archive, ReadArchive, PaxTree.AttributesFit, PaxTree.TreeEntries;
    sandbox.SourceIsTree();
    var source := sandbox.Source();
    if source.None? {
      return Err(Io);
    }
    var slot := new Slot();
    var written, _, _, _ := PaxTree.WriteTree(source.value, limits, capacity, watched, sandbox.sha, slot);
    if written.Err? {
      return Err(written.error);
    }
    r := Ok(slot.content.value);
  }

  lemma FedAlone(h: CreateHistory, limits: Limits, sha: Bytes -> Digest)
    requires WellFormed(h.audited) && Acceptable(h.audited, limits)
    requires WellFormed(h.staged) && Acceptable(h.staged, limits) && SameShape(h.audited, h.staged, sha)
    requires limits.maxFiles + limits.maxDirectories <= U64_MAX && SealedAsStaged(h.installed, h.seals, h.staged)
    requires PaxTree.AttributesFit(h.staged) && h.pax == Archive(PaxTree.TreeEntries(h.staged))
    ensures |h.launched| == |h.pax| && sha(h.launched) == sha(h.pax) ==> Fed(h, limits, sha)
  {
  }

  /** Makes the output directory, which must be new, then installs and seals the backend. */
  method EquipBackend(sandbox: Sandbox, backend: Seal.Bundle, watched: bool) returns (r: Outcome<Unit>)
    requires sandbox.Valid() && backend.manifest.Valid() && sandbox.installed == [] && sandbox.seals == []
    modifies sandbox`root, sandbox`beside, sandbox`installed, sandbox`seals
    ensures sandbox.Valid()
    ensures r.Ok? ==>
              && BackendSealed(sandbox.installed, sandbox.seals, backend.manifest, !watched, sandbox.sha)
              && |sandbox.seals| == 1 && sandbox.seals[0].applied == sandbox.isolated
    ensures r.Ok? ==> OUTPUT !in old(sandbox.root)
    ensures r.Ok? && !watched ==> OUTPUT in sandbox.root && sandbox.root[OUTPUT].Directory?
  {
    hide Seal.PinnedIn, Seal.ParentsOf, WellFormed;
    OutputIsNoTool();
    r := sandbox.CreateDirectory(OUTPUT);
    if r.Err? {
      return;
    }
    if watched {
      sandbox.Disturb();
    }
    r := sandbox.InstallBackend(backend);
    if r.Err? {
      return;
    }
    if watched {
      sandbox.Disturb();
    }
    var count := Seal.CopiedEntryCount(backend.manifest);
    if count.Err? {
      return Err(count.error);
    }
    var sealed := sandbox.SealTree(BACKEND, count.value);
    if sealed.Err? {
      return Err(sealed.error);
    }
    if watched {
      sandbox.Disturb();
    }
  }

  lemma OutputIsNoTool()
    ensures Outside(OUTPUT, {BACKEND})
  {
    assert |OUTPUT[0]| != |BACKEND[0]|;
  }

  /** Copies the source into the sandbox and seals the copy. */
  method StageCopy(sandbox: Sandbox, audited: Tree, hostile: bool, watched: bool, limits: Limits)
    returns (r: Outcome<TreeFingerprint>, ghost staged: Tree)
    requires sandbox.Valid() && WellFormed(audited)
    modifies sandbox`root, sandbox`beside, sandbox`seals
    ensures sandbox.Valid()
    ensures r.Ok? ==>
              && |sandbox.seals| == |old(sandbox.seals)| + 1
              && sandbox.seals[..|old(sandbox.seals)|] == old(sandbox.seals)
              && SourceSealed(sandbox.seals[|old(sandbox.seals)|], audited)
              && sandbox.seals[|old(sandbox.seals)|].applied == sandbox.isolated
    ensures r.Ok? ==> r.value == FingerprintOfTree(audited, sandbox.sha) && Acceptable(audited, limits)
    ensures r.Ok? && !watched ==>
              && sandbox.Source() == Some(staged) && WellFormed(staged) && Acceptable(staged, limits)
              && SameShape(audited, staged, sandbox.sha) && (!hostile ==> SameTree(audited, staged))
              && sandbox.seals[|old(sandbox.seals)|].tree == staged
  {
    hide Acceptable, SameShape, WithinCap, SameTree, FingerprintOfTree, WellFormed;
    FingerprintSummary(audited, sandbox.sha);
    staged := audited;
    var session := new CopySession(audited, None, hostile, watched, sandbox.sha);
    var expected, _ := session.CopyAuditedTree(limits);
    if expected.Err? {
      return Err(expected.error), staged;
    }
    staged := session.target.value;
    var step := sandbox.StageSource(session.target.value);
    if step.Err? {
      return Err(step.error), staged;
    }
    var entries := CheckedAdd(expected.value.summary.files, expected.value.summary.directories);
    if entries.Err? {
      return Err(Config), staged;
    }
    if watched {
      sandbox.Disturb();
    }
    var sealed := sandbox.SealSource(entries.value);
    if sealed.Err? {
      return Err(sealed.error), staged;
    }
    r := Ok(expected.value);
  }

  lemma FingerprintSummary(t: Tree, sha: Bytes -> Digest)
    ensures FingerprintOfTree(t, sha).summary == Summary(t)
  {
  }

  /** The first sandbox with the backend and the staged source in it, both sealed. */
  method Equip(sandbox: Sandbox, audited: Tree, backend: Seal.Bundle, hostile: bool, watched: bool, limits: Limits)
    returns (r: Outcome<TreeFingerprint>, ghost h: CreateHistory)
    requires sandbox.Valid() && WellFormed(audited) && backend.manifest.Valid()
    requires sandbox.installed == [] && sandbox.seals == []
    modifies sandbox`root, sandbox`beside, sandbox`installed, sandbox`seals
    ensures sandbox.Valid() && h.audited == audited
    ensures r.Ok? ==> Equipped(h.installed, h.seals, h.audited, backend.manifest, sandbox.sha)
    ensures r.Ok? ==> h.installed == sandbox.installed && h.seals == sandbox.seals
    ensures r.Ok? ==> r.value == FingerprintOfTree(audited, sandbox.sha) && Acceptable(audited, limits)
    ensures r.Ok? && !watched ==>
              && sandbox.Source() == Some(h.staged) && WellFormed(h.staged) && Acceptable(h.staged, limits)
              && SameShape(audited, h.staged, sandbox.sha) && (!hostile ==> SameTree(audited, h.staged))
              && SealedAsStaged(h.installed, h.seals, h.staged)
  {
    hide Acceptable, SameShape, SameTree, FingerprintOfTree, WellFormed, SourceSealed, Seal.PinnedIn, Seal.ParentsOf;
    h := Begun(audited);
    var step := EquipBackend(sandbox, backend, watched);
    if step.Err? {
      return Err(step.error), h;
    }
    ghost var equipped := sandbox.seals;
    ghost var staged;
    r, staged := StageCopy(sandbox, audited, hostile, watched, limits);
    if r.Err? {
      return r, h;
    }
    h := h.(staged := staged, installed := sandbox.installed, seals := sandbox.seals);
    assert h.seals[..1] == equipped;
    if watched {
      sandbox.Disturb();
    }
  }

  /** Puts the pax stream in place and opens it twice, the second time to guard it during the run. */
  method Launch(sandbox: Sandbox, pax: Bytes, expected: TreeFingerprint, ghost before: CreateHistory)
    returns (r: Outcome<(TreeFingerprint, FileFingerprint)>, ghost h: CreateHistory)
    requires sandbox.Valid() && before.pax == pax
    modifies sandbox`root, sandbox`beside
    ensures sandbox.Valid() && h == before.(launched := h.launched)
    ensures r.Ok? ==> r.value.0 == expected && |h.launched| == |pax| && sandbox.sha(h.launched) == sandbox.sha(pax)
    ensures r.Ok? ==> PAX_SOURCE in sandbox.root && sandbox.root[PAX_SOURCE].File?
    ensures r.Ok? ==> sandbox.root[PAX_SOURCE].content == h.launched && |h.launched| == |pax|
    ensures r.Ok? ==> r.value.1 == FingerprintOf(sandbox.root[PAX_SOURCE], sandbox.sha)
    ensures r.Ok? && !sandbox.hostile ==> sandbox.Source() == old(sandbox.Source()) && h.launched == pax
  {
    h := before;
    ghost var staged := sandbox.root;
    var step := sandbox.AddFile(PAX_SOURCE, pax);
    if step.Err? {
      return Err(Io), h;
    }
    PaxIsElsewhere(staged, sandbox.root);
    var written := sandbox.OpenFile(PAX_SOURCE, |pax|);
    if written.Err? {
      return Err(Policy), h;
    }
    sandbox.Disturb();
    var guarded := sandbox.OpenFile(PAX_SOURCE, written.value.fingerprint.length);
    if guarded.Err? || guarded.value.fingerprint != written.value.fingerprint {
      return Err(Policy), h;
    }
    h := h.(launched := sandbox.root[PAX_SOURCE].content);
    r := Ok((expected, written.value.fingerprint));
  }

  lemma PaxIsElsewhere(before: Tree, after: Tree)
    requires PAX_SOURCE in after && after == before[PAX_SOURCE := after[PAX_SOURCE]]
    ensures SOURCE in before <==> SOURCE in after
    ensures SOURCE in before ==> after[SOURCE] == before[SOURCE] && Subtree(after, SOURCE) == Subtree(before, SOURCE)
  {
    assert |SOURCE[0]| != |PAX_SOURCE[0]|;
    assert !IsPrefix(SOURCE, PAX_SOURCE);
    if SOURCE in before {
      SubtreeElsewhere(before, after, SOURCE);
    }
  }

  ghost predicate EmptyScratch(t: Tree) {
    SCRATCH in t && t[SCRATCH].Directory? && Children(t, SCRATCH) == {}
  }

  /** One more process ran, with success and within its budget, and its scratch directory is gone. */
  ghost predicate OneRun(before: seq<Process>, after: seq<Process>, root: Tree, pax: nat, limits: Limits) {
    && |after| == |before| + 1 && after[..|before|] == before
    && var run := after[|before|];
       && WithinCreationBudget(run, pax, limits)
       && EmptyScratch(run.before) && EmptyScratch(run.after) && root == run.after - {SCRATCH}
  }

  /** The backend's run in its scratch directory. */
  method RunInScratch(sandbox: Sandbox, pax: nat, limits: Limits) returns (r: Outcome<Unit>)
    requires sandbox.Valid() && pax <= U64_MAX
    modifies sandbox`root, sandbox`beside, sandbox`runs
    ensures sandbox.Valid()
    ensures r.Ok? ==> OneRun(old(sandbox.runs), sandbox.runs, sandbox.root, pax, limits)
  {
    hide MonitoredOn, SummaryOf, Succeeded, WellFormed;
    ghost var earlier := sandbox.runs;
    r := sandbox.CreateScratch();
    if r.Err? {
      return;
    }
    var baseline := sandbox.Measure();
    if baseline.Err? {
      return Err(Policy);
    }
    if limits.maxArchiveBytes * 2 + MEGABYTES_2 > U64_MAX {
      return Err(Config);
    }
    var largest := Max(Max(limits.maxSingleFileBytes, limits.maxArchiveBytes), pax);
    var budget := LimitsWithBaseline(baseline.value, 4, 1, limits.maxArchiveBytes * 2 + MEGABYTES_2, largest);
    if budget.Err? {
      return Err(Config);
    }
    var exit := sandbox.Run(budget.value);
    if exit.Err? {
      return Err(SandboxError);
    }
    if exit.value != 0 {
      return Err(Backend);
    }
    MonitoredGrew(sandbox.runs[|earlier|], 4, 1, limits.maxArchiveBytes * 2 + MEGABYTES_2, largest);
    r := sandbox.FinishScratch();
  }

  /** The backend's run and the checks on its inputs. */
  method RunBackend(sandbox: Sandbox, expected: TreeFingerprint, pax: FileFingerprint, limits: Limits)
    returns (r: Outcome<Unit>)
    requires sandbox.Valid() && pax.length <= U64_MAX
    modifies sandbox`root, sandbox`beside, sandbox`runs
    ensures sandbox.Valid()
    ensures r.Ok? ==> OneRun(old(sandbox.runs), sandbox.runs, sandbox.root, pax.length, limits)
    ensures r.Ok? ==>
              && sandbox.Source().Some? && FingerprintOfTree(sandbox.Source().value, sandbox.sha) == expected
              && PAX_SOURCE in sandbox.root && sandbox.root[PAX_SOURCE].File?
              && FingerprintOf(sandbox.root[PAX_SOURCE], sandbox.sha) == pax
    ensures r.Ok? ==> SCRATCH !in sandbox.root
  {
    hide Acceptable, FingerprintOfTree, WithinCreationBudget;
    r := RunInScratch(sandbox, pax.length, limits);
    if r.Err? {
      return;
    }
    sandbox.SourceIsTree();
    r := RequireTreeFingerprint(sandbox.Source(), limits, expected, sandbox.sha);
    if r.Err? {
      return;
    }
    r := RequireFileFingerprint(sandbox, PAX_SOURCE, pax);
  }

  /**
   The whole operation inside the first sandbox, up to and including publication.
   Between staging, serialising, launching, verifying and publishing others may
   rewrite the sandbox (before the launch only if this program is not `alone` with
   it), and the archive even while it is being copied. The output may hold another
   party's file by now: the attempt to publish then fails, and its clean-up removes
   that file.
   */
  method CreateInside(
    sandbox: Sandbox, audited: Tree, backend: Seal.Bundle, hostile: bool, alone: bool, output: Slot, limits: Limits,
    capacity: nat, fold: Bytes -> Bytes, named: Name -> bool)
    returns (r: Outcome<Unit>, ghost h: CreateHistory, ghost e: Ending)
    requires sandbox.Valid() && WellFormed(audited) && backend.manifest.Valid() && capacity <= U64_MAX
    requires sandbox.runs == [] && sandbox.installed == [] && sandbox.seals == []
    modifies sandbox`root, sandbox`beside, sandbox`runs, sandbox`installed, sandbox`seals, output
    ensures h.audited == audited && (e.published <==> r.Ok?) && (e.published ==> e.attempted)
    ensures !e.attempted ==> output.content == old(output.content)
    ensures e.attempted && r.Err? ==> output.content == if e.removal.NotRemoved? then e.left else None
    ensures e.attempted && old(output.content).Some? ==> r.Err? && e.left == old(output.content)
    ensures !sandbox.hostile ==> !e.removal.NotRemoved?
    ensures r.Err? && e.removal.NotRemoved? ==> e.left.Some?
    ensures r.Ok? ==>
              && output.content.Some?
              && CreatedFrom(
                   output.content.value, h, backend.manifest, limits, fold, sandbox.hostile, sandbox.sha)
    ensures r.Ok? && (alone || !sandbox.hostile) ==> Fed(h, limits, sandbox.sha)
  {
    hide Acceptable, FingerprintOfTree, Fed, Launched, Reproduced, CreatedFrom, WithinCreationBudget, Equipped;
    e := NOT_ATTEMPTED;
    var fed;
    fed, h := Feed(sandbox, audited, backend, hostile, alone, limits, capacity);
    if fed.Err? {
      return Err(fed.error), h, e;
    }
    r := RunBackend(sandbox, fed.value.0, fed.value.1, limits);
    if r.Err? {
      return;
    }
    FedIgnoresRuns(h, limits, sandbox.sha, sandbox.runs);
    h := h.(runs := sandbox.runs);
    r, h, e := VerifyAndPublish(sandbox, fed.value.0, backend, output, limits, fold, named, h);
  }

  /** After the run: re-extract, look at the staged source once more, open the archive again, publish. */
  method VerifyAndPublish(
    sandbox: Sandbox, expected: TreeFingerprint, backend: Seal.Bundle, output: Slot, limits: Limits,
    fold: Bytes -> Bytes, named: Name -> bool, ghost before: CreateHistory)
    returns (r: Outcome<Unit>, ghost h: CreateHistory, ghost e: Ending)
    requires sandbox.Valid() && backend.manifest.Valid() && Launched(before, limits, sandbox.sha)
    requires BackendRan(before, limits)
    requires Equipped(before.installed, before.seals, before.audited, backend.manifest, sandbox.sha)
    requires expected == FingerprintOfTree(before.audited, sandbox.sha)
    modifies sandbox`root, sandbox`beside, output
    ensures h.audited == before.audited && (e.published <==> r.Ok?) && (e.published ==> e.attempted)
    ensures !e.attempted ==> output.content == old(output.content)
    ensures e.attempted && r.Err? ==> output.content == if e.removal.NotRemoved? then e.left else None
    ensures e.attempted && old(output.content).Some? ==> r.Err? && e.left == old(output.content)
    ensures !sandbox.hostile ==> !e.removal.NotRemoved?
    ensures r.Err? && e.removal.NotRemoved? ==> e.left.Some?
    ensures r.Ok? ==>
              && output.content.Some?
              && CreatedFrom(
                   output.content.value, h, backend.manifest, limits, fold, sandbox.hostile, sandbox.sha)
    ensures Fed(before, limits, sandbox.sha) ==> Fed(h, limits, sandbox.sha)
  {
    hide Acceptable, FingerprintOfTree, Fed, Launched, BackendRan, Equipped, Reproduced, WithinCap, WellFormed;
    h, e := before, NOT_ATTEMPTED;
    sandbox.Disturb();
    var verified, stage, guard := VerifyCreatedArchive(sandbox, expected, backend, limits, fold, named);
    if verified.Err? {
      return Err(verified.error), h, e;
    }
    sandbox.Disturb();
    sandbox.SourceIsTree();
    var source := sandbox.Source();
    r := RequireTreeFingerprint(source, limits, expected, sandbox.sha);
    if r.Err? {
      return;
    }
    FedIgnoresRest(h, limits, sandbox.sha, stage, guard, source.value);
    h := h.(stage := stage, guard := guard, rechecked := source.value);
    sandbox.Disturb();
    var publication := OpenVerifiedArchive(sandbox, limits, verified.value);
    if publication.Err? {
      return Err(publication.error), h, e;
    }
    var copied, left, removal := publication.value.CopyToNew(output);
    e := Ending(true, copied.Ok?, left, removal);
    if copied.Err? {
      return Err(Policy), h, e;
    }
    PublishedIsCreated(
      output.content.value, h, verified.value, backend.manifest, limits, fold, sandbox.hostile, sandbox.sha);
    r := Ok(Unit);
  }

  lemma PublishedIsCreated(
    published: Bytes, h: CreateHistory, archive: FileFingerprint, backend: Seal.Manifest, limits: Limits,
    fold: Bytes -> Bytes, hostile: bool, sha: Bytes -> Digest)
    requires Launched(h, limits, sha) && BackendRan(h, limits)
    requires Equipped(h.installed, h.seals, h.audited, backend, sha)
    requires 0 < |published| == archive.length <= limits.maxArchiveBytes && sha(published) == archive.sha256
    requires Reproduced(
               h.stage, h.guard, archive, FingerprintOfTree(h.audited, sha), backend, limits, fold, hostile, sha)
    requires Acceptable(h.rechecked, limits) && FingerprintOfTree(h.rechecked, sha) == FingerprintOfTree(h.audited, sha)
    ensures CreatedFrom(published, h, backend, limits, fold, hostile, sha)
  {
    hide Acceptable, FingerprintOfTree, Launched, BackendRan, Equipped, Reproduced;
  }

  lemma FedIgnoresRuns(h: CreateHistory, limits: Limits, sha: Bytes -> Digest, runs: seq<Process>)
    ensures Fed(h, limits, sha) ==> Fed(h.(runs := runs), limits, sha)
    ensures Launched(h, limits, sha) ==> Launched(h.(runs := runs), limits, sha)
  {
  }

  lemma FedIgnoresRest(
    h: CreateHistory, limits: Limits, sha: Bytes -> Digest, stage: History, guard: FileFingerprint, rechecked: Tree)
    ensures
      var more := h.(stage := stage, guard := guard, rechecked := rechecked);
      && (Fed(h, limits, sha) ==> Fed(more, limits, sha))
      && (Launched(h, limits, sha) ==> Launched(more, limits, sha))
      && (BackendRan(h, limits) ==> BackendRan(more, limits))
  {
  }

  /** Another party may create a file at the output, at any time after it was found absent. */
  method Intrude(output: Slot, hostile: bool)
    requires output.content == None
    modifies output
    ensures !hostile ==> output.content == None
  {
    if hostile {
      var intruder: Option<Bytes> := *;
      output.content := intruder;
    }
  }

  /**
   `source` is what the first audit met; by the time of the copy a hostile
   environment may have replaced it with `audited`, and put a file of its own at the
   output (`intruder`). What the backend is fed is the audited source for certain only
   if this program is `alone` with the first sandbox until the launch; the guarantee
   about what is published does not depend on it. An output that exists at the start is never touched.
   Otherwise the operation succeeds exactly if it published and the first sandbox
   could be cleaned up; whatever it published was reproduced from the audited source
   and stays when the clean-up fails; and if it published nothing, the output holds
   what the intruder put there, unless the attempt to publish was made, which leaves
   nothing there if its removal works and what was `left` there if not. The last
   clause says exactly when an error comes with something at a fresh output path.
   */
  method CreateArchive(
    source: Tree, audited: Tree, backend: Seal.Bundle, hostile: bool, alone: bool, insideSource: bool,
    outputName: Name, output: Slot, limits: Limits, capacity: nat, fold: Bytes -> Bytes, named: Name -> bool,
    cleanupFails: bool, sha: Bytes -> Digest)
    returns (r: Outcome<Unit>, ghost h: CreateHistory, ghost e: Ending, ghost intruder: Option<Bytes>)
    requires WellFormed(source) && WellFormed(audited) && (!hostile ==> audited == source)
    requires backend.manifest.Valid() && capacity <= U64_MAX
    modifies output
    ensures h.audited == audited && (!hostile ==> intruder == None)
    ensures old(output.content).Some? ==> r.Err? && !e.attempted && output.content == old(output.content)
    ensures insideSource || ValidateComponent(outputName).Err? ==> r.Err? && output.content == old(output.content)
    ensures r.Ok? <==> e.published && !cleanupFails
    ensures e.published ==>
              && old(output.content).None? && intruder.None? && output.content.Some?
              && CreatedFrom(output.content.value, h, backend.manifest, limits, fold, hostile, sha)
    ensures e.published && (alone || !hostile) ==> Fed(h, limits, sha)
    ensures e.published ==> AuditOn(source, Below(source), limits)
    ensures old(output.content).None? && !e.attempted ==> output.content == intruder
    ensures e.attempted && !e.published ==> output.content == if e.removal.NotRemoved? then e.left else None
    ensures e.attempted && intruder.Some? ==> !e.published && e.left == intruder
    ensures !hostile ==> !e.removal.NotRemoved?
    ensures old(output.content).None? && r.Err? && output.content.Some? <==>
            && old(output.content).None?
            && if e.published then cleanupFails else if e.attempted then e.removal.NotRemoved? else intruder.Some?
  {
    hide CreatedFrom, Fed, ValidateComponent, AuditOn;
    h, e, intruder := Begun(audited), NOT_ATTEMPTED, None;
    var first := AuditTree(source, limits);
    if first.Err? {
      return Err(first.error), h, e, intruder;
    }
    if ValidateComponent(outputName).Err? {
      return Err(Policy), h, e, intruder;
    }
    if insideSource {
      return Err(Usage), h, e, intruder;
    }
    if output.content.Some? {
      return Err(Usage), h, e, intruder;
    }
    var sandbox := new Sandbox(sha, hostile);
    Intrude(output, hostile);
    intruder := output.content;
    r, h, e := CreateInside(sandbox, audited, backend, hostile, alone, output, limits, capacity, fold, named);
    var cleaned := sandbox.Cleanup(cleanupFails);
    if cleaned.Err? {
      r := Err(SandboxError);
    }
  }

  /* ----- What it means ----- */

  /**
   For every behaviour of both backends: with a hash that does not collide on the
   strings involved, the published bytes are those the second sandbox held before
   and after listing and extraction, and extracting them gave the audited source.
   */
  lemma PublishedReproducesSource(
    published: Bytes, h: CreateHistory, backend: Seal.Manifest, limits: Limits, fold: Bytes -> Bytes, hostile: bool,
    sha: Bytes -> Digest)
    requires CreatedFrom(published, h, backend, limits, fold, hostile, sha)
    requires NoArchiveCollision(h.stage.beforeListing, published, sha)
             && NoArchiveCollision(h.stage.afterListing, published, sha)
    requires NoArchiveCollision(h.stage.beforeExtraction, published, sha)
             && NoArchiveCollision(h.stage.afterExtraction, published, sha)
    requires NoCollision(sha, Stream(ExtractedTree(h.stage), sha), Stream(h.audited, sha))
    requires NoContentCollision(ExtractedTree(h.stage), h.audited, sha)
    ensures ArchiveIs(h.stage.beforeListing, published) && ArchiveIs(h.stage.afterListing, published)
    ensures ArchiveIs(h.stage.beforeExtraction, published) && ArchiveIs(h.stage.afterExtraction, published)
    ensures SameTree(ExtractedTree(h.stage), h.audited)
  {
    hide Stream, FingerprintOfTree, Acceptable, ExtractedTree, SameTree, NoContentCollision;
    ArchiveIsSnapshot(h.stage, h.guard, published, sha);
    FingerprintDeterminesTree(ExtractedTree(h.stage), h.audited, limits, limits, sha);
  }

  /**
   If the strings involved do not collide, the file the backend was given unpacks,
   entry by entry, to the audited source.
   */
  lemma FedStreamIsSource(h: CreateHistory, limits: Limits, sha: Bytes -> Digest)
    requires Fed(h, limits, sha) && NoContentCollision(h.audited, h.staged, sha) && NoCollision(sha, h.launched, h.pax)
    ensures
      var entries := ReadArchive(h.launched);
      entries.Some? && PaxTree.Rebuild(entries.value).Some? && SameTree(h.audited, PaxTree.Rebuild(entries.value).value)
  {
    hide Acceptable, PaxTree.AttributesFit, ReadArchive, Archive, PaxTree.TreeEntries, PaxTree.Rebuild;
    PaxTree.TreeRoundTrip(h.staged, limits);
    SameShapeIsSame(h.audited, h.staged, sha);
  }
}
