/**
 Publication (`commit_tree` in `src/transfer.rs`): copy to a partial directory
 beside the destination, optionally hand every file to the system's attachment
 service, which may do anything to the partial tree, re-audit, and rename.
 */
module Commit {
  import opened Base
  import opened Paths
  import opened Policy
  import opened Trees
  import opened Fingerprint
  import opened Audit
  import opened Transfer

  datatype HandoffPolicy = Disabled | BestEffort | Required {
    predicate IsEnabled() { !Disabled? }
    predicate IsRequired() { Required? }
  }

  datatype HandoffOutcome =
    | HandoffDisabled
    | Completed(files: nat)
    | Incomplete(completedFiles: nat, totalFiles: nat)

  /** Every audited file still has the identity it had before the handoff. */
  predicate IdentitiesMatch(before: map<Path, FileFingerprint>, after: map<Path, FileFingerprint>) {
    forall p | p in before :: p in after && after[p].identity == before[p].identity
  }

  /** Every one of these files was handed over, in this order, and accepted. */
  function AllAccepted(files: seq<Path>): (given: seq<(Path, bool)>)
    ensures |given| == |files|
  {
    seq(|files|, i requires 0 <= i < |files| => (files[i], true))
  }

  /** The first `n` files were accepted and the next one was refused. */
  predicate RefusedAt(given: seq<(Path, bool)>, files: seq<Path>, n: nat) {
    n < |files| && given == AllAccepted(files[..n]) + [(files[n], false)]
  }

  /**
   What the outcome promises about the verdicts that were actually given. Nothing is
   given when there is no session with the service, which best effort tolerates.
   */
  ghost predicate OutcomeIsHonest(
    outcome: HandoffOutcome, policy: HandoffPolicy, files: seq<Path>, given: seq<(Path, bool)>)
  {
    match outcome
    case HandoffDisabled => !policy.IsEnabled() && given == []
    case Completed(completed) => policy.IsEnabled() && completed == |files| && given == AllAccepted(files)
    case Incomplete(completed, all) =>
      && policy.BestEffort? && all == |files| && completed < all
      && (RefusedAt(given, files, completed) || (completed == 0 && given == []))
  }

  ghost predicate AnyRefused(given: seq<(Path, bool)>) {
    exists i :: 0 <= i < |given| && !given[i].1
  }

  class Publisher {
    var destination: Option<Tree>
    /** The freshly named sibling of the destination. */
    var partial: Option<Tree>
    /** The trees that were given a Mark-of-the-Web, and those found to carry it. */
    ghost var marked: seq<Tree>
    ghost var checked: seq<Tree>
    /** The files given to the attachment service during this commit, and its verdicts. */
    ghost var verdicts: seq<(Path, bool)>
    /** Whether a session with the attachment service is open. */
    var session: bool
    /** What another party put at the destination during this commit. */
    ghost var intruder: Option<Tree>
    /** What came of each attempt to remove the partial directory. */
    ghost var removals: seq<Removal>
    /** I/O may fail at any step, and others may rewrite the source and create the destination. */
    const hostile: bool
    /** Whether others may write to the copy before it is audited. */
    const exposed: bool
    const sha: Bytes -> Digest

    constructor (destination: Option<Tree>, hostile: bool, exposed: bool, sha: Bytes -> Digest)
      ensures this.destination == destination && partial == None
      ensures this.hostile == hostile && this.exposed == exposed && this.sha == sha
    {
      this.destination, partial, verdicts, marked, checked := destination, None, [], [], [];
      session, intruder, removals := false, None, [];
      this.hostile, this.exposed, this.sha := hostile, exposed, sha;
    }

    /** `apply_motw_tree`; the streams themselves are not modelled. */
    method ApplyMark() returns (r: Outcome<Unit>)
      requires partial.Some?
      modifies this`marked
      ensures r.Ok? ==> marked == old(marked) + [partial.value]
      ensures !hostile ==> r.Ok?
    {
      var fails := IoFails(hostile);
      if fails {
        return Err(Io);
      }
      marked := marked + [partial.value];
      r := Ok(Unit);
    }

    /** `verify_motw_tree`. */
    method VerifyMark() returns (r: Outcome<Unit>)
      requires partial.Some?
      modifies this`checked
      ensures r.Ok? ==> checked == old(checked) + [partial.value]
    {
      var fails: bool := *;
      if fails {
        return Err(Policy);
      }
      checked := checked + [partial.value];
      r := Ok(Unit);
    }

    /** The attachment service on one file: any verdict, and any effect on the partial tree. */
    method Handoff(file: Path) returns (accepted: bool)
      requires session && partial.Some? && file in partial.value && partial.value[file].File?
      modifies this`partial, this`verdicts
      ensures partial.Some? ==> WellFormed(partial.value)
      ensures verdicts == old(verdicts) + [(file, accepted)]
    {
      var effect: Option<Tree> := *;
      accepted := *;
      partial := if effect.Some? && WellFormed(effect.value) then effect else None;
      verdicts := verdicts + [(file, accepted)];
    }

    /** `AttachmentHandoffSession::new`. */
    method OpenSession()
      modifies this`session
    {
      session := *;
    }

    /** Another party may create the destination at any time. */
    method Intrude()
      requires destination.None?
      modifies this`destination, this`intruder
      ensures intruder == destination && (!hostile ==> destination == None)
    {
      if hostile {
        destination := *;
      }
      intruder := destination;
    }

    /** One file after the other, up to the first refusal or missing file. */
    method HandoffEach(files: seq<Path>, policy: HandoffPolicy) returns (r: Outcome<HandoffOutcome>)
      requires policy.IsEnabled() && (partial.Some? ==> WellFormed(partial.value)) && verdicts == [] && session
      modifies this`partial, this`verdicts
      ensures partial.Some? ==> WellFormed(partial.value)
      ensures r.Ok? ==> OutcomeIsHonest(r.value, policy, files, verdicts)
      ensures r.Err? ==>
                if r.error.TrustHandoff? then policy.IsRequired() && exists n :: RefusedAt(verdicts, files, n)
                else exists n | 0 <= n < |files| :: verdicts == AllAccepted(files[..n])
    {
      var completed := 0;
      for i := 0 to |files|
        invariant completed == i
        invariant partial.Some? ==> WellFormed(partial.value)
        invariant verdicts == AllAccepted(files[..i])
      {
        var present := partial.Some? && files[i] in partial.value && partial.value[files[i]].File?;
        if !present {
          return Err(Io);
        }
        assert AllAccepted(files[..i + 1]) == AllAccepted(files[..i]) + [(files[i], true)];
        var accepted := Handoff(files[i]);
        if !accepted {
          assert RefusedAt(verdicts, files, i);
          return if policy.IsRequired() then Err(TrustHandoff) else Ok(Incomplete(completed, |files|));
        }
        completed := completed + 1;
      }
      assert files[..|files|] == files;
      r := Ok(Completed(completed));
    }

    method PerformHandoff(files: map<Path, FileFingerprint>, policy: HandoffPolicy) returns (r: Outcome<HandoffOutcome>)
      requires (partial.Some? ==> WellFormed(partial.value)) && verdicts == [] && !session
      modifies this`partial, this`verdicts, this`session
      ensures partial.Some? ==> WellFormed(partial.value)
      ensures r.Ok? ==> OutcomeIsHonest(r.value, policy, SortedPaths(files.Keys), verdicts)
      ensures r == Err(TrustHandoff) ==> policy.IsRequired()
      ensures policy.IsRequired() && AnyRefused(verdicts) ==> r == Err(TrustHandoff)
      ensures !policy.IsEnabled() ==> r.Ok? && partial == old(partial)
    {
      hide SortedPaths;
      if !policy.IsEnabled() {
        return Ok(HandoffDisabled);
      }
      var order := KeysOf(files);
      if |files| == 0 {
        return Ok(Completed(0));
      }
      OpenSession();
      if !session {
        return if policy.IsRequired() then Err(TrustHandoff) else Ok(Incomplete(0, |files|));
      }
      r := HandoffEach(order, policy);
    }

    /** After the handoff: the same fingerprint and the same files, still marked. */
    method AuditAgain(expected: TreeAudit, mark: bool, limits: Limits) returns (r: Outcome<Unit>)
      requires partial.Some? && WellFormed(partial.value)
      modifies this`checked
      ensures r.Ok? ==> Acceptable(partial.value, limits)
      ensures r.Ok? ==> AuditOf(partial.value, sha).fingerprint == expected.fingerprint
      ensures r.Ok? ==> IdentitiesMatch(expected.files, AuditOf(partial.value, sha).files)
      ensures r.Ok? && mark ==> checked == old(checked) + [partial.value]
    {
      hide AuditOf, Acceptable, WellFormed, IdentitiesMatch;
      var observed := BuildTreeAudit(partial.value, limits, sha);
      if observed.Err? {
        return Err(Policy);
      }
      if observed.value.fingerprint != expected.fingerprint
         || !IdentitiesMatch(expected.files, observed.value.files) {
        return Err(Policy);
      }
      if mark {
        var found := VerifyMark();
        if found.Err? {
          return Err(Policy);
        }
      }
      r := Ok(Unit);
    }

    method MarkIfAsked(mark: bool) returns (r: Outcome<Unit>)
      requires partial.Some?
      modifies this`marked
      ensures r.Ok? ==> marked == if mark then old(marked) + [partial.value] else old(marked)
      ensures !hostile ==> r.Ok?
    {
      r := Ok(Unit);
      if mark {
        r := ApplyMark();
      }
    }

    /** The steps between the copy and publication: mark, hand off, audit again. */
    method HandOff(mark: bool, policy: HandoffPolicy, limits: Limits) returns (r: Outcome<HandoffOutcome>)
      requires partial.Some? && WellFormed(partial.value) && verdicts == [] && !session
      modifies this`partial, this`verdicts, this`session, this`marked, this`checked
      ensures r == Err(TrustHandoff) ==> policy.IsRequired()
      ensures policy.IsRequired() && AnyRefused(verdicts) ==> r == Err(TrustHandoff)
      ensures r.Ok? ==> marked == if mark then old(marked) + [old(partial.value)] else old(marked)
      ensures r.Ok? ==> partial.Some? && WellFormed(partial.value)
      ensures r.Ok? && mark && policy.IsEnabled() ==> checked == old(checked) + [partial.value]
      ensures r.Ok? ==> Published(old(partial.value), partial.value, policy, limits)
      ensures r.Ok? ==> OutcomeIsHonest(r.value, policy, FilesInOrder(old(partial.value)), verdicts)
      ensures !hostile && !policy.IsEnabled() && Acceptable(old(partial.value), limits)
              && WithinCap(old(partial.value), SaturatingAdd(limits.maxFiles, limits.maxDirectories))
              ==> r.Ok?
    {
      ghost var staged := partial.value;
      hide OutcomeIsHonest, AuditOf, FingerprintOfTree, Acceptable, IdentitiesMatch, FilesInOrder, AnyRefused,
        WithinCap, WellFormed, Published;
      NoneRefused();
      FilesOfAudit(staged, sha);
      var expected := BuildTreeAudit(partial.value, limits, sha);
      if expected.Err? {
        return Err(Policy);
      }
      var applied := MarkIfAsked(mark);
      if applied.Err? {
        return Err(Io);
      }
      r := PerformHandoff(expected.value.files, policy);
      if r.Err? {
        return;
      }
      if partial.None? {
        return Err(Io);
      }
      if policy.IsEnabled() {
        var same := AuditAgain(expected.value, mark, limits);
        if same.Err? {
          return Err(Policy);
        }
      }
      AuditedIsPublished(staged, partial.value, policy, limits);
    }

    lemma AuditedIsPublished(staged: Tree, published: Tree, policy: HandoffPolicy, limits: Limits)
      requires WellFormed(staged) && WellFormed(published)
      requires Acceptable(staged, limits)
      requires !policy.IsEnabled() ==> published == staged
      requires policy.IsEnabled() ==>
                 && Acceptable(published, limits)
                 && AuditOf(published, sha).fingerprint == AuditOf(staged, sha).fingerprint
                 && IdentitiesMatch(AuditOf(staged, sha).files, AuditOf(published, sha).files)
      ensures Published(staged, published, policy, limits)
    {
    }

    /** Hand off, audit again, publish. */
    method PublishPartial(mark: bool, policy: HandoffPolicy, limits: Limits)
      returns (r: Outcome<HandoffOutcome>)
      requires destination.None? && partial.Some? && WellFormed(partial.value) && verdicts == [] && !session
      modifies this`destination, this`partial, this`verdicts, this`session, this`marked, this`checked, this`intruder
      ensures r == Err(TrustHandoff) ==> policy.IsRequired()
      ensures policy.IsRequired() && AnyRefused(verdicts) ==> r == Err(TrustHandoff)
      ensures r.Ok? ==> marked == if mark then old(marked) + [old(partial.value)] else old(marked)
      ensures r.Ok? && mark && policy.IsEnabled() ==>
                destination.Some? && checked == old(checked) + [destination.value]
      ensures r.Err? ==> destination == intruder
      ensures r.Ok? ==> intruder == None
      ensures !hostile ==> intruder == None
      ensures r.Ok? ==> partial == None && destination.Some? && WellFormed(destination.value)
      ensures r.Ok? ==> Published(old(partial.value), destination.value, policy, limits)
      ensures r.Ok? ==> OutcomeIsHonest(r.value, policy, FilesInOrder(old(partial.value)), verdicts)
      ensures !hostile && !policy.IsEnabled() && Acceptable(old(partial.value), limits)
              && WithinCap(old(partial.value), SaturatingAdd(limits.maxFiles, limits.maxDirectories))
              ==> r.Ok?
    {
      hide OutcomeIsHonest, Acceptable, AnyRefused, WithinCap, WellFormed, Published, FilesInOrder;
      HonestIsUnrefused(policy, FilesInOrder(partial.value));
      var outcome := HandOff(mark, policy, limits);
      Intrude();
      if outcome.Err? {
        return outcome;
      }
      var fails := IoFails(hostile);
      if fails || destination.Some? {
        return Err(Io);
      }
      destination, partial := partial, None;
      r := outcome;
    }

    /** No honest outcome hides a refusal that had to be fatal. */
    lemma HonestIsUnrefused(policy: HandoffPolicy, files: seq<Path>)
      ensures forall outcome, given :: OutcomeIsHonest(outcome, policy, files, given) && policy.IsRequired() ==>
                !AnyRefused(given)
    {
    }

    /** How the published tree relates to the staged copy. */
    ghost predicate Published(staged: Tree, published: Tree, policy: HandoffPolicy, limits: Limits) {
      if policy.IsEnabled() then
        && AuditOf(published, sha).fingerprint == AuditOf(staged, sha).fingerprint
        && IdentitiesMatch(AuditOf(staged, sha).files, AuditOf(published, sha).files)
        && Acceptable(published, limits) && Acceptable(staged, limits)
      else published == staged
    }

    /** The copy that is going to be published. */
    method CopyToPartial(source: Tree, limits: Limits) returns (r: Outcome<Unit>)
      requires WellFormed(source) && partial == None
      modifies this`partial
      ensures r.Ok? ==>
                && partial.Some? && WellFormed(partial.value)
                && Acceptable(source, limits) && Acceptable(partial.value, limits)
                && FingerprintOfTree(partial.value, sha) == FingerprintOfTree(source, sha)
                && (!exposed ==> SameShape(source, partial.value, sha))
      ensures !hostile && !exposed ==>
                var cap := SaturatingAdd(limits.maxFiles, limits.maxDirectories);
                && (Acceptable(source, limits) && WithinCap(source, cap) ==> r.Ok?)
                && (r.Ok? && WithinCap(source, cap) ==> WithinCap(partial.value, cap))
    {
      hide Acceptable, SameShape, FingerprintOfTree, WithinCap;
      var copying := new CopySession(source, None, hostile, exposed, sha);
      var copied, _ := copying.CopyAuditedTree(limits);
      partial := copying.target;
      if copied.Err? {
        return Err(copied.error);
      }
      var cap := SaturatingAdd(limits.maxFiles, limits.maxDirectories);
      if !exposed && WithinCap(source, cap) {
        SameShapeAcceptable(source, partial.value, limits, cap, sha);
      }
      r := Ok(Unit);
    }

    /**
     All or nothing: failure at any step leaves the destination as it was, or as
     another party made it meanwhile; success publishes a complete tree, renamed from a
     copy of the audited source. After a failure one attempt is made to remove the
     partial directory, and it stays exactly if that attempt fails.
     */
    method CommitTree(source: Tree, name: Name, mark: bool, policy: HandoffPolicy, limits: Limits)
      returns (r: Outcome<HandoffOutcome>, ghost staged: Tree)
      requires WellFormed(source) && partial == None
      modifies this
      ensures r.Ok? ==> partial == None && removals == old(removals)
      ensures old(destination).Some? || ValidateComponent(name).Err? ==>
                r.Err? && destination == old(destination) && partial == None && removals == old(removals)
      ensures r.Err? && old(destination).None? && ValidateComponent(name).Ok? ==>
                && |removals| == |old(removals)| + 1 && removals[..|old(removals)|] == old(removals)
                && (partial.Some? <==> removals[|old(removals)|].NotRemoved?)
      ensures r.Err? && old(destination).None? ==> destination == intruder
      ensures r.Ok? ==> intruder == None
      ensures !hostile ==> intruder == None && partial == None
      ensures policy.IsRequired() && AnyRefused(verdicts) ==> r == Err(TrustHandoff)
      ensures r.Ok? ==> marked == if mark then old(marked) + [staged] else old(marked)
      ensures r.Ok? && mark && policy.IsEnabled() ==>
                destination.Some? && checked == old(checked) + [destination.value]
      ensures r.Ok? ==> old(destination) == None && destination.Some? && WellFormed(destination.value)
      ensures r.Ok? ==> WellFormed(staged) && Acceptable(source, limits) && Acceptable(staged, limits)
      ensures r.Ok? ==> FingerprintOfTree(staged, sha) == FingerprintOfTree(source, sha)
      ensures r.Ok? && !exposed ==> SameShape(source, staged, sha)
      ensures r.Ok? ==> Published(staged, destination.value, policy, limits)
      ensures r.Ok? ==> OutcomeIsHonest(r.value, policy, FilesInOrder(staged), verdicts)
      ensures !hostile && !exposed && !policy.IsEnabled() && old(destination).None? && ValidateComponent(name).Ok?
              && Acceptable(source, limits)
              && WithinCap(source, SaturatingAdd(limits.maxFiles, limits.maxDirectories))
              ==> r.Ok?
    {
      hide Published, OutcomeIsHonest, Acceptable, SameShape, FingerprintOfTree, WithinCap, AnyRefused, FilesInOrder,
        ValidateComponent;
      NoneRefused();
      staged, verdicts, intruder, session := source, [], None, false;
      if ValidateComponent(name).Err? {
        return Err(Policy), staged;
      }
      if destination.Some? {
        return Err(Usage), staged;
      }
      var copied := CopyToPartial(source, limits);
      if copied.Err? {
        RemovePartial();
        return Err(copied.error), staged;
      }
      staged := partial.value;
      r := PublishPartial(mark, policy, limits);
      if r.Err? {
        RemovePartial();
      }
    }

    /** `remove_dir_all` on the partial directory, whatever the handoff has made of it; its result is discarded. */
    method RemovePartial()
      modifies this`partial, this`removals
      ensures
        var removal := if partial.Some? then NotRemoved else if old(partial).None? then NothingMade else Removed;
        removals == old(removals) + [removal]
      ensures old(partial).None? ==> partial.None?
      ensures !hostile ==> partial.None?
    {
      ghost var before := partial;
      var fails := IoFails(hostile);
      var rest: Option<Tree> := *;
      partial := if !fails || partial.None? then None else if rest.Some? then rest else partial;
      removals :=
        removals + [if partial.Some? then NotRemoved else if before.None? then NothingMade else Removed];
    }
  }

  /** With a hash that does not collide on the strings involved, what is published is the source. */
  lemma PublishedIsSource(
    source: Tree, staged: Tree, published: Tree, policy: HandoffPolicy, limits: Limits, publisher: Publisher)
    requires WellFormed(source) && WellFormed(staged) && WellFormed(published)
    requires Acceptable(source, limits) && Acceptable(staged, limits)
    requires FingerprintOfTree(staged, publisher.sha) == FingerprintOfTree(source, publisher.sha)
    requires NoCollision(publisher.sha, Stream(staged, publisher.sha), Stream(source, publisher.sha))
    requires publisher.Published(staged, published, policy, limits)
    requires NoContentCollision(staged, source, publisher.sha)
    requires policy.IsEnabled() ==>
               && NoCollision(publisher.sha, Stream(staged, publisher.sha), Stream(published, publisher.sha))
               && NoContentCollision(staged, published, publisher.sha)
    ensures SameTree(source, published)
    ensures forall p | p in staged && staged[p].File? :: p in published && published[p].File?
              && published[p].identity == staged[p].identity
  {
    FingerprintDeterminesTree(staged, source, limits, limits, publisher.sha);
    if policy.IsEnabled() {
      FingerprintDeterminesTree(staged, published, limits, limits, publisher.sha);
      var before, after := AuditOf(staged, publisher.sha).files, AuditOf(published, publisher.sha).files;
      forall p | p in staged && staged[p].File?
        ensures p in published && published[p].File? && published[p].identity == staged[p].identity
      {
        assert p in FilesIn(staged, Below(staged));
        assert p in before && before[p].identity == staged[p].identity;
      }
    }
  }

  lemma NoneRefused()
    ensures !AnyRefused([])
  {
  }

  /** The files of a tree in the order a `BTreeMap` iterates over them. */
  ghost function FilesInOrder(t: Tree): seq<Path> {
    SortedPaths(FilesIn(t, Below(t)))
  }

  lemma FilesOfAudit(t: Tree, sha: Bytes -> Digest)
    ensures SortedPaths(AuditOf(t, sha).files.Keys) == FilesInOrder(t)
  {
    hide SortedPaths;
    assert AuditOf(t, sha).files.Keys == FilesIn(t, Below(t));
  }

  /** The keys of a `BTreeMap` in iteration order. */
  method KeysOf(files: map<Path, FileFingerprint>) returns (order: seq<Path>)
    ensures order == SortedPaths(files.Keys) && |order| == |files|
  {
    hide SortedPaths, Sorted, InsertSorted;
    order := [];
    var remaining := files.Keys;
    SortedNone();
    while remaining != {}
      invariant Sorted(order) && Elements(order) + remaining == files.Keys && Elements(order) !! remaining
      decreases remaining
    {
      var p :| p in remaining;
      assert p !in Elements(order);
      InsertKeepsSorted(order, p);
      InsertElements(order, p);
      remaining := remaining - {p};
      order := InsertSorted(order, p);
    }
    SortedUnique(order, SortedPaths(files.Keys));
  }

  lemma SortedNone()
    ensures Sorted([]) && Elements([]) == {}
  {
  }
}
