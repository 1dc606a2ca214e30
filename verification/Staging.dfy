/**
 `stage_archive` (`src/staging.rs`): copy the caller's archive into a sandbox,
 list it, extract it, and check after every run that the archive is still the
 one that was copied. What the two backend runs do is arbitrary.
 */
module Staging {
  import opened Base
  import opened Paths
  import opened Policy
  import opened Trees
  import opened Fingerprint
  import opened Snapshot
  import opened Walks
  import opened Sandboxes
  import opened PaxFormat
  import Listing
  import Seal

  const MAX_LISTING_BYTES: nat := 64 * 1024 * 1024
  const MAX_LISTING_STDERR_BYTES: nat := 1024 * 1024
  const MEGABYTES_2: nat := 2 * 1024 * 1024

  const INPUT: Path := [Chars("input")]
  const OUTPUT: Path := [Chars("output")]
  const ARCHIVE: Path := [Chars("input"), Chars("archive.bin")]
  const STDOUT: Path := [Chars("bsdtar.stdout.log")]
  const STDERR: Path := [Chars("bsdtar.stderr.log")]

  /**
   Every state of the sandbox the guarantee speaks about, in order, the processes that
   ran there, and what was installed and sealed for them.
   */
  datatype History = History(
    beforeListing: Tree, afterListing: Tree, listing: Bytes, beforeExtraction: Tree, afterExtraction: Tree,
    runs: seq<Process>, installed: seq<Tree>, seals: seq<Sealing>)

  const NO_HISTORY := History(map[], map[], [], map[], map[], [], [], [])

  datatype StagedArchive = StagedArchive(
    sandbox: Sandbox, extractedRoot: Path, payloadRoot: Path, summary: AuditSummary)

  /** The sandbox's archive is the file that was fingerprinted, unmodified. */
  ghost predicate HoldsArchive(t: Tree, guard: FileFingerprint, sha: Bytes -> Digest) {
    ARCHIVE in t && t[ARCHIVE].File? && FingerprintOf(t[ARCHIVE], sha) == guard
  }

  ghost predicate ArchiveHeld(h: History, guard: FileFingerprint, sha: Bytes -> Digest) {
    && HoldsArchive(h.beforeListing, guard, sha) && HoldsArchive(h.afterListing, guard, sha)
    && HoldsArchive(h.beforeExtraction, guard, sha) && HoldsArchive(h.afterExtraction, guard, sha)
  }

  /** The listing was what the first run left in its log, and it was acceptable. */
  ghost predicate ListingRead(t: Tree, listing: Bytes, limits: Limits, created: bool, fold: Bytes -> Bytes) {
    && STDOUT in t && t[STDOUT].File? && t[STDOUT].content == listing && |listing| <= 64 * 1024 * 1024
    && limits.maxFiles + limits.maxDirectories <= U64_MAX
    && Listing.Accepted(Listing.Lines(listing), limits.maxFiles + limits.maxDirectories, created,
                        Listing.MemberTest(limits), Listing.AliasKey(fold))
  }

  /** There was no output directory when the listing was read, and an empty one when extraction began. */
  ghost predicate OutputIsFresh(listed: Tree, begun: Tree) {
    && (forall p | p in listed :: !IsPrefix(OUTPUT, p))
    && OUTPUT in begun && begun[OUTPUT].Directory? && Children(begun, OUTPUT) == {}
    && begun == (listed - {STDOUT, STDERR})[OUTPUT := begun[OUTPUT]]
  }

  /** The extracted tree was audited in the final state. */
  ghost predicate Extracted(t: Tree, summary: AuditSummary, limits: Limits) {
    && WellFormed(t) && OUTPUT in t && t[OUTPUT].Directory?
    && AuditOn(Subtree(t, OUTPUT), Below(Subtree(t, OUTPUT)), limits)
    && summary == Summary(Subtree(t, OUTPUT))
  }

  /** The listing run may add its two logs. */
  ghost predicate ListedWithinBudget(run: Process) {
    Succeeded(run, 2, 0, (64 + 1) * 1024 * 1024, 64 * 1024 * 1024)
  }

  /** What the extraction run may add to the whole sandbox. */
  ghost predicate ExtractedWithinBudget(run: Process, limits: Limits) {
    Succeeded(run, limits.maxFiles + 18, limits.maxDirectories + 4,
              limits.maxTotalBytes + limits.maxSingleFileBytes + 2 * 1024 * 1024,
              Max(limits.maxSingleFileBytes, limits.maxArchiveBytes))
  }

  /** One more process ran, from the one state to the other. */
  ghost predicate RanOnce(before: seq<Process>, after: seq<Process>, begun: Tree, ended: Tree) {
    && |after| == |before| + 1 && after[..|before|] == before
    && after[|before|].before == begun && after[|before|].after == ended
  }

  /**
   The backend's directory got every pinned file. It and the lister's directory were
   sealed, with as many entries as the manifest implies and with two.
   */
  ghost predicate ToolsPrepared(
    installed: seq<Tree>, seals: seq<Sealing>, backend: Seal.Manifest, hostile: bool, sha: Bytes -> Digest)
  {
    && |installed| == 1 && Seal.PinnedIn(installed[0], backend.digests, sha)
    && |seals| == 2 && seals[0].Holds() && seals[1].Holds() && seals[0].applied == seals[1].applied
    && seals[0].place == LISTER && seals[0].entries == 2
    && seals[1].place == BACKEND
    && seals[1].entries == |backend.digests| + |Seal.ParentsOf(backend.digests.Keys)|
    && (!hostile ==> seals[1].tree == installed[0])
  }

  /** After the tools the directory of the archive was sealed, which holds nothing else. */
  ghost predicate Prepared(
    installed: seq<Tree>, seals: seq<Sealing>, root: Tree, backend: Seal.Manifest, hostile: bool, sha: Bytes -> Digest)
  {
    && |seals| == 3 && ToolsPrepared(installed, seals[..2], backend, hostile, sha)
    && INPUT in root && seals[2] == Sealing(INPUT, Subtree(root, INPUT), 1, seals[0].applied) && seals[2].Holds()
  }

  /** In an isolated sandbox nobody else writes to, the sealed backend is exactly the pinned one. */
  lemma SealedBackendIsPinned(
    installed: seq<Tree>, seals: seq<Sealing>, root: Tree, backend: Seal.Manifest, sha: Bytes -> Digest)
    requires backend.Valid() && Prepared(installed, seals, root, backend, false, sha)
    requires seals[1].applied && WellFormed(seals[1].tree)
    ensures Seal.CopyOf(seals[1].tree, backend.digests.Keys, backend.digests, sha)
  {
    Seal.PinnedAndCounted(seals[1].tree, backend, sha);
  }

  /* ----- The phases ----- */

  /** Installs the backend and the lister and seals their directories. */
  method PrepareTools(sandbox: Sandbox, backend: Seal.Bundle) returns (r: Outcome<Unit>)
    requires sandbox.Valid() && backend.manifest.Valid() && sandbox.installed == [] && sandbox.seals == []
    modifies sandbox`root, sandbox`beside, sandbox`installed, sandbox`seals
    ensures sandbox.Valid()
    ensures r.Ok? ==>
              && ToolsPrepared(sandbox.installed, sandbox.seals, backend.manifest, sandbox.hostile, sandbox.sha)
              && |sandbox.seals| == 2 && sandbox.seals[0].applied == sandbox.isolated
  {
    hide Seal.PinnedIn, Seal.ParentsOf, WellFormed;
    r := sandbox.InstallBackend(backend);
    if r.Err? {
      return;
    }
    sandbox.Disturb();
    ghost var before := sandbox.root;
    r := sandbox.InstallLister();
    if r.Err? {
      return;
    }
    ghost var after := sandbox.root;
    if !sandbox.hostile {
      BackendIsElsewhere(before, after);
    }
    sandbox.Disturb();
    var count := Seal.CopiedEntryCount(backend.manifest);
    if count.Err? {
      return Err(count.error);
    }
    var sealed := sandbox.SealTree(BACKEND, count.value);
    r := if sealed.Err? then Err(sealed.error) else Ok(Unit);
  }

  lemma BackendIsElsewhere(before: Tree, after: Tree)
    requires BACKEND in before && AgreeOutside(before, after, {LISTER})
    ensures BACKEND in after && Subtree(after, BACKEND) == Subtree(before, BACKEND)
  {
    assert |BACKEND[0]| != |LISTER[0]|;
    assert forall p | IsPrefix(BACKEND, p) :: p[0] == BACKEND[0] && Outside(p, {LISTER});
    assert IsPrefix(BACKEND, BACKEND);
    SubtreeElsewhere(before, after, BACKEND);
  }

  /** Copies the snapshot in and opens a guard on the copy. The snapshot's own file may be under attack. */
  method CopyArchive(sandbox: Sandbox, snapshot: AuditedFile, limits: Limits) returns (r: Outcome<FileFingerprint>)
    requires sandbox.Valid() && sandbox.sha == snapshot.sha
    modifies sandbox`root, sandbox`beside
    modifies snapshot`content, snapshot`state, snapshot`pathIdentity, snapshot`position, snapshot`log
    ensures sandbox.Valid()
    ensures r.Ok? ==>
              && HoldsArchive(sandbox.root, r.value, sandbox.sha) && r.value.length <= limits.maxArchiveBytes
              && r.value.length == snapshot.fingerprint.length && r.value.sha256 == snapshot.fingerprint.sha256
  {
    if ARCHIVE in sandbox.root {
      return Err(Io);
    }
    var slot := new Slot();
    var copied, _, _ := snapshot.CopyToNew(slot);
    if copied.Err? {
      return Err(copied.error);
    }
    var step := sandbox.AddFile(ARCHIVE, slot.content.value);
    if step.Err? {
      return Err(Io);
    }
    sandbox.Disturb();
    var guard := sandbox.OpenFile(ARCHIVE, limits.maxArchiveBytes);
    if guard.Err? {
      return Err(Policy);
    }
    if guard.value.fingerprint.length != snapshot.fingerprint.length
       || guard.value.fingerprint.sha256 != snapshot.fingerprint.sha256 {
      return Err(Policy);
    }
    r := Ok(guard.value.fingerprint);
  }

  /** Prepares the tools, copies the archive in, and seals its directory. */
  method CopyIn(sandbox: Sandbox, snapshot: AuditedFile, backend: Seal.Bundle, limits: Limits)
    returns (r: Outcome<FileFingerprint>)
    requires sandbox.Valid() && backend.manifest.Valid() && sandbox.sha == snapshot.sha
    requires sandbox.installed == [] && sandbox.seals == []
    modifies sandbox`root, sandbox`beside, sandbox`installed, sandbox`seals
    modifies snapshot`content, snapshot`state, snapshot`pathIdentity, snapshot`position, snapshot`log
    ensures sandbox.Valid()
    ensures r.Ok? ==>
              && HoldsArchive(sandbox.root, r.value, sandbox.sha) && r.value.length <= limits.maxArchiveBytes
              && r.value.length == snapshot.fingerprint.length && r.value.sha256 == snapshot.fingerprint.sha256
    ensures r.Ok? ==>
              && INPUT !in old(sandbox.root)
              && Prepared(
                   sandbox.installed, sandbox.seals, sandbox.root, backend.manifest, sandbox.hostile, sandbox.sha)
  {
    hide ToolsPrepared, HoldsArchive, Subtree, WellFormed;
    var step := sandbox.CreateDirectory(INPUT);
    if step.Err? {
      return Err(Io);
    }
    step := PrepareTools(sandbox, backend);
    if step.Err? {
      return Err(step.error);
    }
    ghost var tools := sandbox.seals;
    r := CopyArchive(sandbox, snapshot, limits);
    if r.Err? {
      return;
    }
    var sealed := sandbox.SealTree(INPUT, 1);
    if sealed.Err? {
      return Err(sealed.error);
    }
    assert sandbox.seals[..2] == tools;
  }

  method RequireArchiveUnchanged(sandbox: Sandbox, expected: FileFingerprint) returns (r: Outcome<Unit>)
    requires sandbox.Valid()
    ensures r.Ok? ==> HoldsArchive(sandbox.root, expected, sandbox.sha)
    ensures !sandbox.hostile && HoldsArchive(sandbox.root, expected, sandbox.sha) ==> r.Ok?
  {
    var observed := sandbox.OpenFile(ARCHIVE, expected.length);
    if observed.Err? || observed.value.fingerprint != expected {
      return Err(Policy);
    }
    r := Ok(Unit);
  }

  /** Runs the lister, reads and validates what it wrote, and checks the archive. */
  method ListMembers(sandbox: Sandbox, guard: FileFingerprint, limits: Limits, created: bool, fold: Bytes -> Bytes)
    returns (r: Outcome<Unit>, ghost listing: Bytes)
    requires sandbox.Valid()
    modifies sandbox`root, sandbox`beside, sandbox`runs
    ensures sandbox.Valid()
    ensures r.Ok? ==>
              && RanOnce(old(sandbox.runs), sandbox.runs, old(sandbox.root), sandbox.root)
              && ListedWithinBudget(sandbox.runs[|old(sandbox.runs)|])
    ensures r.Ok? ==> HoldsArchive(sandbox.root, guard, sandbox.sha)
    ensures r.Ok? ==> ListingRead(sandbox.root, listing, limits, created, fold)
  {
    hide SummaryOf, MonitoredOn, Succeeded;
    ghost var earlier := sandbox.runs;
    listing := [];
    var baseline := sandbox.Measure();
    if baseline.Err? {
      return Err(Policy), listing;
    }
    var budget := LimitsWithBaseline(
      baseline.value, 2, 0, MAX_LISTING_BYTES + MAX_LISTING_STDERR_BYTES, MAX_LISTING_BYTES);
    if budget.Err? {
      return Err(Config), listing;
    }
    var exit := sandbox.Run(budget.value);
    if exit.Err? {
      return Err(SandboxError), listing;
    }
    if exit.value != 0 {
      return Err(Backend), listing;
    }
    MonitoredGrew(sandbox.runs[|earlier|], 2, 0, MAX_LISTING_BYTES + MAX_LISTING_STDERR_BYTES, MAX_LISTING_BYTES);
    var read := sandbox.ReadLimited(STDOUT, MAX_LISTING_BYTES);
    if read.Err? {
      return Err(read.error), listing;
    }
    listing := read.value;
    var accepted := Listing.ValidateArchiveListing(read.value, limits, created, fold);
    if accepted.Err? {
      return Err(accepted.error), listing;
    }
    r := RequireArchiveUnchanged(sandbox, guard);
  }

  ghost predicate IsFileIn(t: Tree, p: Path) {
    p in t && t[p].File?
  }

  /** Removes the logs and makes the output directory, which must not exist yet. */
  method ClearForExtraction(sandbox: Sandbox, guard: FileFingerprint) returns (r: Outcome<Unit>)
    requires sandbox.Valid()
    modifies sandbox`root
    ensures sandbox.Valid()
    ensures r.Ok? ==> OutputIsFresh(old(sandbox.root), sandbox.root)
    ensures r.Ok? && HoldsArchive(old(sandbox.root), guard, sandbox.sha)
            ==> HoldsArchive(sandbox.root, guard, sandbox.sha)
    ensures !sandbox.hostile ==>
              (r.Ok? <==> IsFileIn(old(sandbox.root), STDOUT) && IsFileIn(old(sandbox.root), STDERR)
                          && OUTPUT !in old(sandbox.root))
  {
    ghost var listed := sandbox.root;
    PlacesDiffer();
    r := sandbox.RemoveFile(STDOUT);
    if r.Err? {
      return;
    }
    r := sandbox.RemoveFile(STDERR);
    if r.Err? {
      return;
    }
    ghost var cleared := sandbox.root;
    assert cleared == listed - {STDOUT, STDERR};
    r := sandbox.CreateDirectory(OUTPUT);
    if r.Err? {
      return;
    }
    NothingBelow(listed, OUTPUT);
  }

  lemma PlacesDiffer()
    ensures STDOUT != STDERR && OUTPUT != STDOUT && OUTPUT != STDERR
    ensures |OUTPUT| == 1
  {
    assert STDOUT[0][10] != STDERR[0][10];
    assert |OUTPUT[0]| != |STDOUT[0]| && |OUTPUT[0]| != |STDERR[0]|;
  }

  /** Runs the extractor within its budget. */
  method RunExtractor(sandbox: Sandbox, limits: Limits) returns (r: Outcome<Unit>)
    requires sandbox.Valid()
    modifies sandbox`root, sandbox`beside, sandbox`runs
    ensures sandbox.Valid()
    ensures r.Ok? ==>
              && RanOnce(old(sandbox.runs), sandbox.runs, old(sandbox.root), sandbox.root)
              && ExtractedWithinBudget(sandbox.runs[|old(sandbox.runs)|], limits)
  {
    ghost var earlier := sandbox.runs;
    hide SummaryOf, MonitoredOn, Succeeded;
    var baseline := sandbox.Measure();
    if baseline.Err? {
      return Err(Policy);
    }
    var transient := CheckedAdd(limits.maxTotalBytes, limits.maxSingleFileBytes);
    if transient.Err? {
      return Err(Config);
    }
    transient := CheckedAdd(transient.value, MEGABYTES_2);
    var files, directories := CheckedAdd(limits.maxFiles, 18), CheckedAdd(limits.maxDirectories, 4);
    if transient.Err? || files.Err? || directories.Err? {
      return Err(Config);
    }
    var single := Max(limits.maxSingleFileBytes, limits.maxArchiveBytes);
    var budget := LimitsWithBaseline(baseline.value, files.value, directories.value, transient.value, single);
    if budget.Err? {
      return Err(Config);
    }
    var exit := sandbox.Run(budget.value);
    if exit.Err? {
      return Err(SandboxError);
    }
    if exit.value != 0 {
      return Err(Backend);
    }
    MonitoredGrew(sandbox.runs[|earlier|], files.value, directories.value, transient.value, single);
    r := Ok(Unit);
  }

  /** Runs the extractor, checks the archive and audits what came out. */
  method Extract(sandbox: Sandbox, guard: FileFingerprint, limits: Limits) returns (r: Outcome<AuditSummary>)
    requires sandbox.Valid()
    modifies sandbox`root, sandbox`beside, sandbox`runs
    ensures sandbox.Valid()
    ensures r.Ok? ==>
              && RanOnce(old(sandbox.runs), sandbox.runs, old(sandbox.root), sandbox.root)
              && ExtractedWithinBudget(sandbox.runs[|old(sandbox.runs)|], limits)
    ensures r.Ok? ==> HoldsArchive(sandbox.root, guard, sandbox.sha)
    ensures r.Ok? ==> Extracted(sandbox.root, r.value, limits)
  {
    hide AuditOn, SummaryOf, Subtree, RanOnce, ExtractedWithinBudget;
    var ran := RunExtractor(sandbox, limits);
    if ran.Err? {
      return Err(ran.error);
    }
    var held := RequireArchiveUnchanged(sandbox, guard);
    if held.Err? {
      return Err(Policy);
    }
    if OUTPUT !in sandbox.root || !sandbox.root[OUTPUT].Directory? {
      return Err(Policy);
    }
    SubtreeWellFormed(sandbox.root, OUTPUT);
    r := AuditTree(Subtree(sandbox.root, OUTPUT), limits);
  }

  /** The only entry of the output, when it is a directory named after the archive. */
  ghost predicate IsPayload(t: Tree, payload: Path, named: Name -> bool) {
    if exists d :: Children(t, OUTPUT) == {d} && t[d].Directory? && named(Last(d)) then
      Children(t, OUTPUT) == {payload}
    else payload == OUTPUT
  }

  method ChoosePayloadRoot(t: Tree, named: Name -> bool) returns (payload: Path)
    requires WellFormed(t) && OUTPUT in t && t[OUTPUT].Directory?
    ensures IsPayload(t, payload, named)
  {
    var entries := ReadDir(t, OUTPUT);
    payload := OUTPUT;
    if |entries| == 1 {
      var first := entries[0];
      assert first in entries;
      assert Children(t, OUTPUT) == {first};
      if t[first].Directory? && named(Last(first)) {
        payload := first;
      }
    } else if |entries| > 1 {
      assert entries[0] in entries && entries[1] in entries && entries[0] != entries[1];
    }
  }

  /* ----- The protocol ----- */

  /** Exactly two processes ran, between the states of the history, and both succeeded within their budgets. */
  ghost predicate BothRan(h: History, limits: Limits) {
    && |h.runs| == 2
    && h.runs[0].before == h.beforeListing && h.runs[0].after == h.afterListing && ListedWithinBudget(h.runs[0])
    && h.runs[1].before == h.beforeExtraction && h.runs[1].after == h.afterExtraction
    && ExtractedWithinBudget(h.runs[1], limits)
  }

  /** Everything a successful return says about the sandbox's whole history. */
  ghost predicate Staged(
    h: History, guard: FileFingerprint, summary: AuditSummary, backend: Seal.Manifest, limits: Limits, created: bool,
    fold: Bytes -> Bytes, hostile: bool, sha: Bytes -> Digest)
  {
    && Prepared(h.installed, h.seals, h.beforeListing, backend, hostile, sha)
    && ArchiveHeld(h, guard, sha) && guard.length <= limits.maxArchiveBytes
    && ListingRead(h.afterListing, h.listing, limits, created, fold)
    && OutputIsFresh(h.afterListing, h.beforeExtraction)
    && Extracted(h.afterExtraction, summary, limits)
    && BothRan(h, limits)
  }

  method StageInside(
    sandbox: Sandbox, snapshot: AuditedFile, backend: Seal.Bundle, limits: Limits, created: bool,
    fold: Bytes -> Bytes, named: Name -> bool)
    returns (r: Outcome<(Path, AuditSummary)>, ghost h: History, ghost guard: FileFingerprint)
    requires sandbox.Valid() && backend.manifest.Valid() && sandbox.sha == snapshot.sha
    requires sandbox.runs == [] && sandbox.installed == [] && sandbox.seals == []
    modifies sandbox`root, sandbox`beside, sandbox`runs, sandbox`installed, sandbox`seals
    modifies snapshot`content, snapshot`state, snapshot`pathIdentity, snapshot`position, snapshot`log
    ensures sandbox.Valid()
    ensures r.Ok? ==>
              Staged(h, guard, r.value.1, backend.manifest, limits, created, fold, sandbox.hostile, sandbox.sha)
    ensures r.Ok? ==> h.runs == sandbox.runs && h.installed == sandbox.installed && h.seals == sandbox.seals
    ensures r.Ok? ==> guard.length == snapshot.fingerprint.length && guard.sha256 == snapshot.fingerprint.sha256
    ensures r.Ok? ==> sandbox.root == h.afterExtraction && IsPayload(sandbox.root, r.value.0, named)
  {
    hide HoldsArchive, ListingRead, OutputIsFresh, ExtractedWithinBudget, ListedWithinBudget, IsPayload, AuditOn,
      SummaryOf, Subtree, Prepared;
    h := NO_HISTORY;
    guard := snapshot.fingerprint;
    var copied := CopyIn(sandbox, snapshot, backend, limits);
    if copied.Err? {
      return Err(copied.error), h, guard;
    }
    guard := copied.value;
    h := h.(beforeListing := sandbox.root, installed := sandbox.installed, seals := sandbox.seals);
    var step, listing := ListMembers(sandbox, copied.value, limits, created, fold);
    if step.Err? {
      return Err(step.error), h, guard;
    }
    h := h.(afterListing := sandbox.root, listing := listing);
    step := ClearForExtraction(sandbox, copied.value);
    if step.Err? {
      return Err(step.error), h, guard;
    }
    h := h.(beforeExtraction := sandbox.root);
    var summary := Extract(sandbox, copied.value, limits);
    if summary.Err? {
      return Err(summary.error), h, guard;
    }
    h := h.(afterExtraction := sandbox.root, runs := sandbox.runs);
    var payload := ChoosePayloadRoot(sandbox.root, named);
    r := Ok((payload, summary.value));
  }

  /**
   For any behaviour of the two runs: success means the archive was the snapshot's
   at all four points, an acceptable listing was read before the output directory
   existed, extraction began with that directory empty, and the reported summary is
   that of the extracted tree. `rawOutput` is the member a raw compressed stream
   unpacks to.
   */
  method StageArchive(
    snapshot: AuditedFile, backend: Seal.Bundle, rawOutput: Option<Bytes>, hasPassword: bool, limits: Limits,
    created: bool, fold: Bytes -> Bytes, named: Name -> bool)
    returns (r: Outcome<StagedArchive>, ghost h: History, ghost guard: FileFingerprint)
    requires backend.manifest.Valid() && (rawOutput.Some? ==> |rawOutput.value| <= U64_MAX)
    modifies snapshot`content, snapshot`state, snapshot`pathIdentity, snapshot`position, snapshot`log
    ensures r.Ok? ==> fresh(r.value.sandbox) && r.value.sandbox.Valid() && r.value.sandbox.sha == snapshot.sha
    ensures r.Ok? ==>
              Staged(h, guard, r.value.summary, backend.manifest, limits, created, fold, snapshot.hostile, snapshot.sha)
    ensures r.Ok? ==>
              && h.runs == r.value.sandbox.runs && h.installed == r.value.sandbox.installed
              && h.seals == r.value.sandbox.seals
    ensures r.Ok? ==> guard.length == snapshot.fingerprint.length && guard.sha256 == snapshot.fingerprint.sha256
    ensures r.Ok? ==> r.value.sandbox.root == h.afterExtraction && r.value.extractedRoot == OUTPUT
    ensures r.Ok? ==> IsPayload(h.afterExtraction, r.value.payloadRoot, named)
    ensures rawOutput.Some? && (hasPassword || SaturatingAdd(|rawOutput.value|, 1) > limits.maxPathBytes) ==> r.Err?
  {
    hide Staged, IsPayload;
    h := NO_HISTORY;
    guard := snapshot.fingerprint;
    if rawOutput.Some? && SaturatingAdd(|rawOutput.value|, 1) > limits.maxPathBytes {
      return Err(Policy), h, guard;
    }
    if rawOutput.Some? && hasPassword {
      return Err(Usage), h, guard;
    }
    var sandbox := new Sandbox(snapshot.sha, snapshot.hostile);
    var operation;
    operation, h, guard := StageInside(sandbox, snapshot, backend, limits, created, fold, named);
    if operation.Err? {
      var fails := IoFails(sandbox.hostile);
      var cleaned := sandbox.Cleanup(fails);
      return if cleaned.Ok? then Err(operation.error) else Err(SandboxError), h, guard;
    }
    r := Ok(StagedArchive(sandbox, OUTPUT, operation.value.0, operation.value.1));
  }

  ghost predicate ArchiveIs(t: Tree, bytes: Bytes) {
    ARCHIVE in t && t[ARCHIVE].File? && t[ARCHIVE].content == bytes
  }

  ghost predicate NoArchiveCollision(t: Tree, bytes: Bytes, sha: Bytes -> Digest) {
    ARCHIVE in t && t[ARCHIVE].File? ==> NoCollision(sha, t[ARCHIVE].content, bytes)
  }

  /** With a hash that does not collide on these strings, the archive's bytes never differed from the snapshot's. */
  lemma ArchiveIsSnapshot(h: History, guard: FileFingerprint, snapshot: Bytes, sha: Bytes -> Digest)
    requires ArchiveHeld(h, guard, sha) && guard.sha256 == sha(snapshot)
    requires NoArchiveCollision(h.beforeListing, snapshot, sha) && NoArchiveCollision(h.afterListing, snapshot, sha)
    requires NoArchiveCollision(h.beforeExtraction, snapshot, sha)
             && NoArchiveCollision(h.afterExtraction, snapshot, sha)
    ensures ArchiveIs(h.beforeListing, snapshot) && ArchiveIs(h.afterListing, snapshot)
    ensures ArchiveIs(h.beforeExtraction, snapshot) && ArchiveIs(h.afterExtraction, snapshot)
  {
  }
}
