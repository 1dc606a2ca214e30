/**
 `AuditedFile` (`src/snapshot.rs`): hashing and copying a file that others may
 change between any two accesses. A `hostile` environment replaces the content,
 the metadata and the path at will, shortens reads and makes I/O fail; without
 it everything holds still and nothing fails.
 */
module Snapshot {
  import opened Base
  import opened Trees
  import opened Fingerprint

  /** The size of the source's read buffer. */
  const BUFFER: nat := 131072

  datatype MetadataState = MetadataState(identity: nat, length: nat, modified: nat, created: nat)

  /** One look at a file: its metadata, the identity at its path, or some of its bytes. */
  datatype Observation = Met(state: MetadataState) | AtPath(identity: nat) | Chunk(bytes: Bytes)

  ghost predicate AllChunks(seen: seq<Observation>) {
    forall o | o in seen :: o.Chunk?
  }

  ghost function BytesOf(seen: seq<Observation>): Bytes {
    if seen == [] then []
    else
      var last := seen[|seen| - 1];
      BytesOf(seen[..|seen| - 1]) + if last.Chunk? then last.bytes else []
  }

  lemma ChunkAdded(seen: seq<Observation>, bytes: Bytes)
    requires AllChunks(seen)
    ensures AllChunks(seen + [Chunk(bytes)]) && BytesOf(seen + [Chunk(bytes)]) == BytesOf(seen) + bytes
  {
    assert (seen + [Chunk(bytes)])[..|seen|] == seen;
  }

  /** The metadata and the path were both found to be these. */
  function Checks(state: MetadataState): seq<Observation> {
    [Met(state), AtPath(state.identity)]
  }

  /** Between the two logs exactly these bytes were read. */
  ghost predicate WasRead(before: seq<Observation>, after: seq<Observation>, bytes: Bytes) {
    exists seen :: AllChunks(seen) && BytesOf(seen) == bytes && after == before + seen
  }

  /** Between the two logs these bytes were read, and the file was checked to be in this state before and after. */
  ghost predicate WasReadBetweenChecks(
    before: seq<Observation>, after: seq<Observation>, state: MetadataState, bytes: Bytes)
  {
    exists seen :: AllChunks(seen) && BytesOf(seen) == bytes && after == before + Checks(state) + seen + Checks(state)
  }

  lemma ReadBetween(
    before: seq<Observation>, during: seq<Observation>, after: seq<Observation>, state: MetadataState, bytes: Bytes)
    requires WasRead(before + Checks(state), during, bytes) && after == during + Checks(state)
    ensures WasReadBetweenChecks(before, after, state, bytes)
  {
    var seen :| AllChunks(seen) && BytesOf(seen) == bytes && during == before + Checks(state) + seen;
    assert after == before + Checks(state) + seen + Checks(state);
  }

  /** The place a copy is written to. */
  class Slot {
    var content: Option<Bytes>

    constructor ()
      ensures content == None
    {
      content := None;
    }

    /** Others may write to the copy, or remove it, before it is looked at again. */
    method Disturb(hostile: bool)
      modifies this
      ensures !hostile ==> content == old(content)
    {
      if hostile {
        content := *;
      }
    }
  }

  class AuditedFile {
    /** What the handle currently reads and reports, and the identity found at the path. */
    var content: Bytes
    var state: MetadataState
    var pathIdentity: nat
    var position: nat
    var fingerprint: FileFingerprint
    /** Every look this program has taken; only the three accesses below add to it. */
    ghost var log: seq<Observation>
    const hostile: bool
    const sha: Bytes -> Digest

    /** The state that the fingerprint records. */
    ghost function Recorded(): MetadataState
      reads this`fingerprint
    {
      MetadataState(fingerprint.identity, fingerprint.length, fingerprint.modified, fingerprint.created)
    }

    /** The file is the one that was fingerprinted and nothing about it has moved. */
    ghost predicate Untouched()
      reads this
    {
      && state == MetadataState(fingerprint.identity, |content|, fingerprint.modified, fingerprint.created)
      && pathIdentity == fingerprint.identity
      && fingerprint.length == |content|
      && fingerprint.sha256 == sha(content)
    }

    constructor (file: Node, hostile: bool, sha: Bytes -> Digest)
      requires file.File?
      ensures content == file.content && position == 0
      ensures state == MetadataState(file.identity, |file.content|, file.modified, file.created)
      ensures pathIdentity == file.identity
      ensures this.hostile == hostile && this.sha == sha
    {
      content, position := file.content, 0;
      state := MetadataState(file.identity, |file.content|, file.modified, file.created);
      pathIdentity := file.identity;
      fingerprint, log := FingerprintOf(file, sha), [];
      this.hostile, this.sha := hostile, sha;
    }

    /** Anything anyone else may do between two of our accesses. */
    method Interfere()
      modifies this`content, this`state, this`pathIdentity
      ensures !hostile ==>
                content == old(content) && state == old(state) && pathIdentity == old(pathIdentity)
    {
      if hostile {
        content, state, pathIdentity := *, *, *;
      }
    }

    method Metadata() returns (r: Outcome<MetadataState>)
      modifies this`content, this`state, this`pathIdentity, this`log
      ensures !hostile ==> content == old(content) && state == old(state) && pathIdentity == old(pathIdentity)
      ensures r.Ok? ==> r.value == state && log == old(log) + [Met(state)]
      ensures !hostile ==> r.Ok?
    {
      Interfere();
      var fails := IoFails(hostile);
      if fails {
        return Err(Io);
      }
      log := log + [Met(state)];
      r := Ok(state);
    }

    /** `verify_current_path`: the path still leads to the expected identity. */
    method VerifyCurrentPath(expected: nat) returns (r: Outcome<Unit>)
      modifies this`content, this`state, this`pathIdentity, this`log
      ensures !hostile ==> content == old(content) && state == old(state) && pathIdentity == old(pathIdentity)
      ensures r.Ok? ==> pathIdentity == expected && log == old(log) + [AtPath(expected)]
      ensures !hostile ==> (r.Ok? <==> pathIdentity == expected)
    {
      Interfere();
      var fails := IoFails(hostile);
      if fails || pathIdentity != expected {
        return Err(Policy);
      }
      log := log + [AtPath(pathIdentity)];
      r := Ok(Unit);
    }

    /** One `read` into the buffer: some of what is left, nothing at the end. */
    method Read() returns (r: Outcome<Bytes>)
      modifies this`content, this`state, this`pathIdentity, this`position, this`log
      ensures !hostile ==> content == old(content) && state == old(state) && pathIdentity == old(pathIdentity)
      ensures r.Ok? ==> |r.value| <= BUFFER && position == old(position) + |r.value|
      ensures r.Ok? ==> log == old(log) + [Chunk(r.value)]
      ensures r.Ok? && r.value != [] ==> position <= |content| && r.value == content[old(position)..position]
      ensures r.Ok? && r.value == [] ==> old(position) >= |content|
      ensures !hostile ==> r.Ok?
    {
      Interfere();
      var fails := IoFails(hostile);
      if fails {
        return Err(Io);
      }
      if position >= |content| {
        log := log + [Chunk([])];
        return Ok([]);
      }
      var n: nat :| 1 <= n <= BUFFER && position + n <= |content|;
      r := Ok(content[position..position + n]);
      position := position + n;
      log := log + [Chunk(r.value)];
    }

    /**
     Hashes from the start to the end of the file as it is met on the way. The
     byte limit also bounds the loop, so a file that keeps growing is refused.
     */
    method HashOpenFile(maxBytes: nat) returns (r: Outcome<(nat, Digest)>, ghost seen: Bytes)
      modifies this`content, this`state, this`pathIdentity, this`position, this`log
      ensures !hostile ==> content == old(content) && state == old(state) && pathIdentity == old(pathIdentity)
      ensures r.Ok? ==> r.value == (|seen|, sha(seen)) && |seen| <= maxBytes && WasRead(old(log), log, seen)
      ensures !hostile ==> (r.Ok? <==> |content| <= maxBytes)
      ensures !hostile && r.Ok? ==> seen == content
    {
      position := 0;
      var hasher: Bytes := [];
      var length := 0;
      ghost var chunks: seq<Observation> := [];
      while true
        invariant position == length == |hasher| <= maxBytes
        invariant log == old(log) + chunks && AllChunks(chunks) && BytesOf(chunks) == hasher
        invariant !hostile ==> content == old(content) && state == old(state) && pathIdentity == old(pathIdentity)
        invariant !hostile ==> position <= |content| && hasher == content[..position]
        decreases maxBytes - length
      {
        var read := Read();
        if read.Err? {
          return Err(Io), hasher;
        }
        ChunkAdded(chunks, read.value);
        chunks := chunks + [Chunk(read.value)];
        if read.value == [] {
          break;
        }
        length := length + |read.value|;
        if length > maxBytes {
          return Err(Policy), hasher;
        }
        hasher := hasher + read.value;
      }
      assert WasRead(old(log), log, hasher);
      r, seen := Ok((length, sha(hasher))), hasher;
    }

    /**
     The body of `open`, on a handle that was just opened. Success means that the
     file was seen in the reported state before and after some byte string of the
     reported length and digest was read from it; on a file that holds still it is
     the file's own fingerprint.
     */
    method Fingerprinted(maxBytes: nat) returns (r: Outcome<Unit>)
      requires state.length == |content|
      modifies this
      ensures r.Ok? ==> fingerprint.length <= maxBytes
      ensures r.Ok? ==> exists seen: Bytes ::
                && |seen| == fingerprint.length && sha(seen) == fingerprint.sha256
                && WasReadBetweenChecks(old(log), log, Recorded(), seen)
      ensures !hostile ==> content == old(content) && state == old(state) && pathIdentity == old(pathIdentity)
      ensures !hostile ==> (r.Ok? <==> |content| <= maxBytes && pathIdentity == state.identity)
      ensures !hostile && r.Ok? ==>
                fingerprint == FileFingerprint(state.identity, |content|, state.modified, state.created, sha(content))
    {
      var before := Metadata();
      if before.Err? {
        return Err(Io);
      }
      if before.value.length > maxBytes {
        return Err(Policy);
      }
      var path := VerifyCurrentPath(before.value.identity);
      if path.Err? {
        return Err(Policy);
      }
      assert log == old(log) + Checks(before.value);
      var hashed, seen := HashOpenFile(maxBytes);
      if hashed.Err? {
        return Err(Policy);
      }
      ghost var during := log;
      var after := Metadata();
      if after.Err? {
        return Err(Io);
      }
      if before.value != after.value || hashed.value.0 != before.value.length {
        return Err(Policy);
      }
      path := VerifyCurrentPath(after.value.identity);
      if path.Err? {
        return Err(Policy);
      }
      position := 0;
      fingerprint := FileFingerprint(
        after.value.identity, hashed.value.0, after.value.modified, after.value.created, hashed.value.1);
      ReadBetween(old(log), during, log, before.value, seen);
      r := Ok(Unit);
    }

    method VerifyUnchanged() returns (r: Outcome<Unit>)
      modifies this`content, this`state, this`pathIdentity, this`log
      ensures !hostile ==> content == old(content) && state == old(state) && pathIdentity == old(pathIdentity)
      ensures r.Ok? ==> log == old(log) + Checks(Recorded())
      ensures !hostile && Untouched() ==> r.Ok?
    {
      var current := Metadata();
      if current.Err? {
        return Err(Io);
      }
      if current.value
         != MetadataState(fingerprint.identity, fingerprint.length, fingerprint.modified, fingerprint.created) {
        return Err(Policy);
      }
      r := VerifyCurrentPath(fingerprint.identity);
      assert r.Ok? ==> log == old(log) + [Met(Recorded())] + [AtPath(Recorded().identity)];
    }

    /**
     Copies to an output that already exists. Whatever happened meanwhile, success
     means that the bytes written have the fingerprint's length and digest, and were
     read between two checks that found the fingerprint's state.
     */
    method CopyToWriter(output: Slot) returns (r: Outcome<nat>)
      requires output.content == Some([])
      modifies this`content, this`state, this`pathIdentity, this`position, this`log, output
      ensures !hostile ==> content == old(content) && state == old(state) && pathIdentity == old(pathIdentity)
      ensures output.content.Some?
      ensures r.Ok? ==> |output.content.value| == fingerprint.length == r.value
      ensures r.Ok? ==> sha(output.content.value) == fingerprint.sha256
      ensures r.Ok? ==> WasReadBetweenChecks(old(log), log, Recorded(), output.content.value)
      ensures !hostile && old(Untouched()) ==> r.Ok? && output.content == Some(content)
    {
      var verified := VerifyUnchanged();
      if verified.Err? {
        return Err(Policy);
      }
      position := 0;
      var hasher: Bytes := [];
      var copied := 0;
      ghost var start, chunks := log, [];
      while true
        invariant position == copied == |hasher| <= fingerprint.length
        invariant log == start + chunks && AllChunks(chunks) && BytesOf(chunks) == hasher
        invariant output.content == Some(hasher)
        invariant fingerprint == old(fingerprint)
        invariant !hostile ==> content == old(content) && state == old(state) && pathIdentity == old(pathIdentity)
        invariant !hostile && old(Untouched()) ==> position <= |content| && hasher == content[..position]
        decreases fingerprint.length - copied
      {
        var read := Read();
        if read.Err? {
          return Err(Io);
        }
        ChunkAdded(chunks, read.value);
        chunks := chunks + [Chunk(read.value)];
        if read.value == [] {
          assert !hostile && old(Untouched()) ==> content[..position] == content;
          break;
        }
        copied := copied + |read.value|;
        if copied > fingerprint.length {
          return Err(Policy);
        }
        hasher := hasher + read.value;
        var fails := IoFails(hostile);
        if fails {
          return Err(Io);
        }
        output.content := Some(output.content.value + read.value);
      }
      if copied != fingerprint.length || sha(hasher) != fingerprint.sha256 {
        return Err(Policy);
      }
      ghost var during := log;
      assert WasRead(start, during, hasher);
      verified := VerifyUnchanged();
      if verified.Err? {
        return Err(Policy);
      }
      ReadBetween(old(log), during, log, Recorded(), hasher);
      r := Ok(copied);
    }

    /**
     Copies to a new file and reads it back, after others may have written to it: what
     was found there then has the fingerprint's length and digest. On failure whatever is `left` at the
     target is removed, which includes a file that was already there and made the
     creation fail. The removal may fail too, and its result is discarded: the
     target is absent after a failure exactly if there was nothing to remove or the
     removal worked.
     */
    method CopyToNew(target: Slot) returns (r: Outcome<nat>, ghost left: Option<Bytes>, ghost removal: Removal)
      modifies this`content, this`state, this`pathIdentity, this`position, this`log, target
      ensures !hostile ==> content == old(content) && state == old(state) && pathIdentity == old(pathIdentity)
      ensures old(target.content).Some? ==> r.Err?
      ensures r.Err? ==> target.content == (if removal.NotRemoved? then left else None)
      ensures r.Err? ==> (target.content.None? <==> !removal.NotRemoved?)
      ensures r.Err? ==> (left.None? <==> removal.NothingMade?)
      ensures old(target.content).Some? ==> left == old(target.content)
      ensures !hostile ==> !removal.NotRemoved?
      ensures r.Ok? ==> target.content.Some? && |target.content.value| == fingerprint.length == r.value
      ensures r.Ok? ==> exists written: Bytes ::
                && |written| == fingerprint.length && sha(written) == fingerprint.sha256
                && WasReadBetweenChecks(old(log), log, Recorded(), written)
      ensures r.Ok? ==> sha(target.content.value) == fingerprint.sha256
      ensures !hostile && old(Untouched()) && old(target.content).None? ==> r.Ok? && target.content == Some(content)
    {
      r := CopyToNewInner(target);
      left, removal := target.content, NothingMade;
      if r.Err? {
        var fails := IoFails(hostile);
        if target.content.Some? {
          removal := if fails then NotRemoved else Removed;
          target.content := if fails then target.content else None;
        }
      }
    }

    method CopyToNewInner(target: Slot) returns (r: Outcome<nat>)
      modifies this`content, this`state, this`pathIdentity, this`position, this`log, target
      ensures !hostile ==> content == old(content) && state == old(state) && pathIdentity == old(pathIdentity)
      ensures old(target.content).Some? ==> r.Err? && target.content == old(target.content)
      ensures r.Ok? ==> target.content.Some? && |target.content.value| == fingerprint.length == r.value
      ensures r.Ok? ==> exists written: Bytes ::
                && |written| == fingerprint.length && sha(written) == fingerprint.sha256
                && WasReadBetweenChecks(old(log), log, Recorded(), written)
      ensures r.Ok? ==> sha(target.content.value) == fingerprint.sha256
      ensures !hostile && old(Untouched()) && old(target.content).None? ==> r.Ok? && target.content == Some(content)
    {
      var fails := IoFails(hostile);
      if target.content.Some? || fails {
        return Err(Io);
      }
      target.content := Some([]);
      r := CopyToWriter(target);
      if r.Err? {
        return;
      }
      target.Disturb(hostile);
      if target.content.None? {
        return Err(Policy);
      }
      var written := target.content.value;
      if |written| != fingerprint.length || sha(written) != fingerprint.sha256 {
        r := Err(Policy);
      }
    }
  }
}
