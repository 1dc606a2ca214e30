/** The archive writer of `src/pax.rs`, proved against the format it must produce. */
module Pax {
  import opened Base
  import opened Numerals
  import opened Paths
  import opened Streams
  import opened Policy
  import opened PaxFormat
  import PaxRoundTrip
  import Trees
  import Fingerprint
  import Snapshot

  /* ----- Records ----- */

  /**
   Iterates guess -> implied length. It terminates, stops at the least
   self-consistent length, and the check after the loop can never fail; only a
   record longer than `usize::MAX` is refused.
   */
  method PaxRecord(key: Bytes, value: Bytes) returns (r: Outcome<Bytes>)
    ensures r.Ok? <==> RecordLength(|RecordBody(key, value)|) <= U64_MAX
    ensures r.Ok? ==> r.value == Record(key, value)
  {
    var body := RecordBody(key, value);
    ghost var least := RecordLength(|body|);
    FirstGuess(|body|);
    assert |body| + 2 <= least by {
      assert IsRecordLength(|body|, least);
    }
    var start := CheckedAdd(|body|, 2);
    if start.Err? {
      return Err(Policy);
    }
    var length := start.value;
    while true
      invariant |body| + 2 <= length <= least
      invariant length <= U64_MAX
      invariant length <= |body| + |Digits(length, Decimal)| + 1
      invariant forall m: nat | m < length :: !IsRecordLength(|body|, m)
      decreases least - length
    {
      var adjusted := CheckedAdd(|body|, |Digits(length, Decimal)| + 1);
      NoLengthBetween(|body|, length, |body| + |Digits(length, Decimal)| + 1);
      if adjusted.Err? {
        return Err(Policy);
      }
      if adjusted.value == length {
        break;
      }
      length := adjusted.value;
    }
    assert length == least by {
      LeastIsUnique(|body|, length, least);
    }
    var record := Digits(length, Decimal) + [SPACE] + body;
    if |record| != length {
      return Err(Policy);
    }
    r := Ok(record);
  }

  /* ----- Header fields, in place ----- */

  method WriteBytes(header: array<Byte>, lo: nat, hi: nat, value: Bytes) returns (r: Outcome<Unit>)
    requires lo <= hi <= header.Length
    modifies header
    ensures r.Ok? <==> |value| <= hi - lo
    ensures r.Err? ==> header[..] == old(header[..])
    ensures r.Ok? ==> header[..] == old(header[..lo]) + value + old(header[lo + |value|..])
  {
    if |value| > hi - lo {
      return Err(Policy);
    }
    for i := 0 to |value|
      invariant forall j | 0 <= j < header.Length ::
        header[j] == if lo <= j < lo + i then value[j - lo] else old(header[j])
    {
      header[lo + i] := value[i];
    }
    r := Ok(Unit);
  }

  /** Zero-extended to one less than the field, then the terminator; a longer numeral is refused. */
  method WriteOctal(header: array<Byte>, lo: nat, hi: nat, value: nat) returns (r: Outcome<Unit>)
    requires lo <= hi <= header.Length
    modifies header
    ensures r.Ok? <==> FitsOctal(value, hi - lo)
    ensures r.Err? ==> header[..] == old(header[..])
    ensures r.Ok? ==> header[..] == old(header[..lo]) + OctalField(value, hi - lo) + old(header[hi..])
  {
    if hi == lo {
      return Err(Policy);
    }
    var width := hi - lo - 1;
    var digits := Digits(value, Octal);
    if |digits| < width {
      digits := Repeat(DIGIT_ZERO, width - |digits|) + digits;
    }
    if |digits| != width {
      return Err(Policy);
    }
    r := WriteBytes(header, lo, hi, digits + [0]);
  }

  /** A header whose first bytes are written and whose remaining ones are still NUL. */
  ghost predicate Written(header: Bytes, front: Bytes) {
    |front| <= BLOCK && header == front + Zeros(BLOCK - |front|)
  }

  lemma WrittenMore(before: Bytes, after: Bytes, front: Bytes, value: Bytes, width: nat)
    requires Written(before, front)
    requires |value| <= width && |front| + width <= BLOCK
    requires after == before[..|front|] + value + before[|front| + |value|..]
    ensures Written(after, front + Field(value, width))
  {
    assert before[..|front|] == front;
    assert before[|front| + |value|..] == Zeros(BLOCK - |front| - |value|);
    assert Zeros(BLOCK - |front| - |value|) == Zeros(width - |value|) + Zeros(BLOCK - |front| - width);
  }

  /** A field that fills its width exactly. */
  lemma WrittenExactly(before: Bytes, after: Bytes, front: Bytes, value: Bytes)
    requires Written(before, front)
    requires |front| + |value| <= BLOCK
    requires after == before[..|front|] + value + before[|front| + |value|..]
    ensures Written(after, front + value)
  {
    WrittenMore(before, after, front, value, |value|);
    assert Field(value, |value|) == value;
  }

  /** `WriteOctal` at the end of what is already written. */
  method OctalAfter(header: array<Byte>, lo: nat, hi: nat, value: nat, ghost front: Bytes) returns (r: Outcome<Unit>)
    requires lo < hi <= header.Length == BLOCK
    requires Written(header[..], front) && |front| == lo
    modifies header
    ensures r.Ok? <==> FitsOctal(value, hi - lo)
    ensures r.Ok? ==> Written(header[..], front + OctalField(value, hi - lo))
  {
    r := WriteOctal(header, lo, hi, value);
    if r.Ok? {
      WrittenExactly(old(header[..]), header[..], front, OctalField(value, hi - lo));
    }
  }

  method BytesAfter(header: array<Byte>, lo: nat, hi: nat, value: Bytes, ghost front: Bytes) returns (r: Outcome<Unit>)
    requires lo <= hi <= header.Length == BLOCK
    requires Written(header[..], front) && |front| == lo
    modifies header
    ensures r.Ok? <==> |value| <= hi - lo
    ensures r.Ok? ==> Written(header[..], front + Field(value, hi - lo))
  {
    r := WriteBytes(header, lo, hi, value);
    if r.Ok? {
      WrittenMore(old(header[..]), header[..], front, value, hi - lo);
    }
  }

  method FillFront(header: array<Byte>, h: Header) returns (r: Outcome<Unit>)
    requires header.Length == BLOCK && Written(header[..], [])
    modifies header
    ensures r.Ok? <==> h.Fits()
    ensures r.Ok? ==> Written(header[..], h.Front())
  {
    ghost var name := Field(h.name, 100);
    assert [] + name == name;
    assert |Digits(0, Octal)| == 1;
    FrontGroups(h);
    hide Digits, Field, OctalField, Written, Header.Front, Header.Ids;
    r := BytesAfter(header, 0, 100, h.name, []);
    if r.Err? {
      return;
    }
    r := OctalAfter(header, 100, 108, h.mode, name);
    if r.Err? {
      return;
    }
    ghost var ids := OctalField(h.mode, 8);
    r := OctalAfter(header, 108, 116, 0, name + ids);
    r := OctalAfter(header, 116, 124, 0, name + ids + OctalField(0, 8));
    r := OctalAfter(header, 124, 136, h.size, name + h.Ids());
    if r.Err? {
      return;
    }
    r := OctalAfter(header, 136, 148, 0, name + h.Ids() + OctalField(h.size, 12));
  }

  lemma FrontGroups(h: Header)
    ensures Field(h.name, 100) + OctalField(h.mode, 8) + OctalField(0, 8) + OctalField(0, 8)
            == Field(h.name, 100) + h.Ids()
    ensures h.Front() == Field(h.name, 100) + h.Ids() + OctalField(h.size, 12) + OctalField(0, 12)
  {
    hide Field, OctalField;
  }

  const BLANKS: Bytes := Repeat(SPACE, 8)

  method FillBack(header: array<Byte>, flag: Byte, ghost front: Bytes)
    requires header.Length == BLOCK && Written(header[..], front) && |front| == 148
    modifies header
    ensures header[..] == front + BLANKS + HeaderBack(flag)
  {
    ghost var user := Field(Chars("iroha-zip"), 32);
    ghost var a := front + BLANKS;
    var r := BytesAfter(header, 148, 156, BLANKS, front);
    assert Field(BLANKS, 8) == BLANKS;
    r := BytesAfter(header, 156, 157, [flag], a);
    assert Field([flag], 1) == [flag];
    ghost var b := a + [flag] + Zeros(100);
    StillZero(header[..], a + [flag], 100);
    r := BytesAfter(header, 257, 263, Chars("ustar\0"), b);
    assert Field(Chars("ustar\0"), 6) == Chars("ustar\0");
    r := BytesAfter(header, 263, 265, Chars("00"), b + Chars("ustar\0"));
    assert Field(Chars("00"), 2) == Chars("00");
    ghost var c := b + Chars("ustar\0") + Chars("00");
    r := BytesAfter(header, 265, 297, Chars("iroha-zip"), c);
    r := BytesAfter(header, 297, 329, Chars("iroha-zip"), c + user);
    BackGroups(front + BLANKS, flag, header[..]);
  }

  lemma StillZero(header: Bytes, front: Bytes, n: nat)
    requires Written(header, front) && |front| + n <= BLOCK
    ensures Written(header, front + Zeros(n))
  {
    assert Zeros(BLOCK - |front|) == Zeros(n) + Zeros(BLOCK - |front| - n);
  }

  lemma BackGroups(a: Bytes, flag: Byte, header: Bytes)
    requires |a| == 156
    requires Written(header, a + [flag] + Zeros(100) + Chars("ustar\0") + Chars("00")
                             + Field(Chars("iroha-zip"), 32) + Field(Chars("iroha-zip"), 32))
    ensures header == a + HeaderBack(flag)
  {
  }

  method HeaderBytes(h: Header) returns (r: Outcome<Bytes>)
    ensures r.Ok? <==> h.Fits()
    ensures r.Ok? ==> r.value == h.Block()
  {
    var header := new Byte[BLOCK](_ => 0);
    assert header[..] == [] + Zeros(BLOCK);
    var front := FillFront(header, h);
    if front.Err? {
      return Err(Policy);
    }
    assert h.Front() + Zeros(BLOCK - 148) == header[..];
    FillBack(header, h.flag, h.Front());
    BlankSum(h);
    var checksum := ByteSum(header);
    ChecksumFits(h);
    var stored := StoreChecksum(header, checksum);
    if stored.Err? {
      return Err(Policy);
    }
    Splice(h, h.Front() + BLANKS + h.Back());
    r := Ok(header[..]);
  }

  method ByteSum(header: array<Byte>) returns (sum: nat)
    ensures sum == Sum(header[..])
  {
    sum := 0;
    for i := 0 to header.Length
      invariant sum == Sum(header[..i])
    {
      assert header[..i + 1][..i] == header[..i];
      sum := sum + header[i] as nat;
    }
    assert header[..header.Length] == header[..];
  }

  /** Six octal digits, NUL, space: the layout that only the checksum field uses. */
  method StoreChecksum(header: array<Byte>, checksum: nat) returns (r: Outcome<Unit>)
    requires header.Length == BLOCK
    modifies header
    ensures r.Ok? <==> |Digits(checksum, Octal)| <= 6
    ensures r.Ok? ==> header[..] == old(header[..148]) + ZeroExtended(checksum, 6) + [0, 32] + old(header[156..])
  {
    hide Digits;
    ghost var before := header[..];
    var digits := Digits(checksum, Octal);
    if |digits| < 6 {
      digits := Repeat(DIGIT_ZERO, 6 - |digits|) + digits;
    }
    if |digits| != 6 {
      return Err(Policy);
    }
    assert digits == ZeroExtended(checksum, 6);
    hide ZeroExtended;
    r := WriteBytes(header, 148, 154, digits);
    ghost var middle := header[..];
    header[154] := 0;
    header[155] := SPACE;
    Terminated(before, middle, digits);
    assert header[..] == middle[154 := 0][155 := SPACE];
  }

  lemma Terminated(before: Bytes, middle: Bytes, digits: Bytes)
    requires |before| == BLOCK && |digits| == 6 && middle == before[..148] + digits + before[154..]
    ensures middle[154 := 0][155 := SPACE] == before[..148] + digits + [0, 32] + before[156..]
  {
  }

  lemma BlankSum(h: Header)
    ensures Sum(h.Front() + BLANKS + h.Back()) == h.Checksum()
  {
    SumAppend(h.Front() + BLANKS, h.Back());
    SumAppend(h.Front(), BLANKS);
    SumRepeat(SPACE, 8);
  }

  lemma Splice(h: Header, blank: Bytes)
    requires blank == h.Front() + BLANKS + h.Back()
    ensures blank[..148] + ZeroExtended(h.Checksum(), 6) + [0, 32] + blank[156..] == h.Block()
  {
    assert blank[..148] == h.Front() && blank[156..] == h.Back();
  }

  lemma TakeMore(b: Bytes, done: nat, n: nat)
    requires done + n <= |b|
    ensures b[..done] + b[done..][..n] == b[..done + n]
  {
  }

  /* ----- The writer ----- */

  /** Bytes moved at a time by `AuditedFile::copy_to_writer`. */
  const CHUNK: nat := 131072

  class ArchiveWriter {
    /** What has reached the output file so far. */
    var file: Bytes
    var written: nat
    var entryIndex: nat
    /** How many bytes the output device accepts before it reports an error. */
    const capacity: nat

    ghost predicate Valid()
      reads this
    {
      written == |file| <= capacity <= U64_MAX && entryIndex <= U64_MAX
    }

    constructor (capacity: nat)
      requires capacity <= U64_MAX
      ensures Valid() && file == [] && entryIndex == 0 && this.capacity == capacity
    {
      file, written, entryIndex, this.capacity := [], 0, 0, capacity;
    }

    /** `Write::write`: the device may take fewer bytes than it is offered. */
    method Write(buffer: Bytes) returns (r: Outcome<nat>)
      requires Valid()
      modifies this`file, this`written
      ensures Valid()
      ensures r.Ok? <==> buffer == [] || |old(file)| < capacity
      ensures r.Ok? ==> r.value <= |buffer| && (buffer != [] ==> r.value > 0)
      ensures r.Ok? ==> file == old(file) + buffer[..r.value]
      ensures r.Err? ==> file == old(file)
    {
      var room := capacity - |file|;
      if buffer != [] && room == 0 {
        return Err(Io);
      }
      var n: nat :| n <= |buffer| && n <= room && (buffer != [] ==> n > 0);
      file := file + buffer[..n];
      var sum := CheckedAdd(written, n);
      if sum.Ok? {
        written := sum.value;
        r := Ok(n);
      } else {
        r := Err(Io);
      }
    }

    /** `Write::write_all`: all of the buffer, however the device splits it. */
    method WriteAll(buffer: Bytes) returns (r: Outcome<Unit>)
      requires Valid()
      modifies this`file, this`written
      ensures Valid()
      ensures r.Ok? <==> |old(file)| + |buffer| <= capacity
      ensures r.Ok? ==> file == old(file) + buffer
    {
      var done := 0;
      while done < |buffer|
        invariant done <= |buffer| && Valid()
        invariant file == old(file) + buffer[..done]
      {
        var n := Write(buffer[done..]);
        if n.Err? {
          return Err(Io);
        }
        TakeMore(buffer, done, n.value);
        done := done + n.value;
      }
      assert buffer[..done] == buffer;
      r := Ok(Unit);
    }

    method WriteHeader(name: Bytes, mode: nat, size: nat, flag: Byte) returns (r: Outcome<Unit>)
      requires Valid()
      modifies this`file, this`written
      ensures Valid()
      ensures r.Ok? <==> Header(name, mode, size, flag).Fits() && |old(file)| + BLOCK <= capacity
      ensures r.Ok? ==> file == old(file) + Header(name, mode, size, flag).Block()
    {
      var header := HeaderBytes(Header(name, mode, size, flag));
      if header.Err? {
        return Err(Policy);
      }
      r := WriteAll(header.value);
    }

    method PadToBlock() returns (r: Outcome<Unit>)
      requires Valid()
      modifies this`file, this`written
      ensures Valid()
      ensures r.Ok? <==> |old(file)| + Padding(|old(file)|) <= capacity
      ensures r.Ok? ==> file == old(file) + Zeros(Padding(|old(file)|))
    {
      var remainder := written % BLOCK;
      if remainder == 0 {
        assert file + Zeros(0) == file;
        return Ok(Unit);
      }
      r := WriteAll(Zeros(BLOCK - remainder));
    }

    method Finish() returns (r: Outcome<Unit>)
      requires Valid()
      modifies this`file, this`written
      ensures Valid()
      ensures r.Ok? <==> |old(file)| + 2 * BLOCK <= capacity
      ensures r.Ok? ==> file == old(file) + Zeros(2 * BLOCK)
    {
      r := WriteAll(Zeros(2 * BLOCK));
    }

    /** An extended header with its records, padded to a block. */
    method WriteExtended(name: Bytes, attributes: Bytes) returns (r: Outcome<Unit>)
      requires Valid() && |file| % BLOCK == 0
      modifies this`file, this`written
      ensures Valid()
      ensures r.Ok? <==>
              && Header(name, 0x1A4, |attributes|, FLAG_EXTENDED).Fits()
              && |old(file)| + BLOCK + |Padded(attributes)| <= capacity
      ensures r.Ok? ==>
              file == old(file) + Header(name, 0x1A4, |attributes|, FLAG_EXTENDED).Block() + Padded(attributes)
    {
      r := WriteHeader(name, 0x1A4, |attributes|, FLAG_EXTENDED);
      if r.Err? {
        return;
      }
      ghost var front := file;
      r := WriteAll(attributes);
      if r.Err? {
        return;
      }
      PaddingOfTail(|front|, |attributes|);
      r := PadToBlock();
      if r.Ok? {
        assert front + attributes + Zeros(Padding(|attributes|)) == front + Padded(attributes);
      }
    }

    /**
     The extended header, its records and the entry's own header. Everything that
     can refuse an entry is listed: its path, the index counter, the record block
     outgrowing eleven octal digits, and the device.
     */
    method WriteEntry(relative: Path, kind: Kind, size: nat, limits: Limits) returns (r: Outcome<Unit>)
      requires Valid() && |file| % BLOCK == 0
      modifies this
      ensures Valid()
      ensures r.Ok? <==>
              && ValidPath(relative, limits)
              && Encodable(old(entryIndex), relative, kind, size)
              && old(entryIndex) < U64_MAX
              && |old(file)| + |EntryHead(old(entryIndex), relative, kind, size)| <= capacity
      ensures r.Ok? ==> file == old(file) + EntryHead(old(entryIndex), relative, kind, size)
      ensures r.Ok? ==> entryIndex == old(entryIndex) + 1
    {
      hide Digits, ValidPath, Attributes, EntryHead;
      var built := BuildAttributes(relative, kind, size, limits);
      if built.Err? {
        AttributesBound(relative, kind, size);
        return Err(Policy);
      }
      var index := Digits(entryIndex, Decimal);
      HeadLength(entryIndex, relative, kind, size);
      r := WriteExtended(Chars("PaxHeaders/") + index, built.value);
      if r.Err? {
        return;
      }
      r := WriteHeader(Chars("IrohaZipEntry/") + index, if kind.Directory? then 0x1ED else 0x1A4,
                       if size <= USTAR_SIZE_MAX then size else 0,
                       if kind.Directory? then FLAG_DIRECTORY else FLAG_FILE);
      if r.Err? {
        return;
      }
      HeadGroups(old(file), entryIndex, relative, kind, size);
      var next := CheckedAdd(entryIndex, 1);
      if next.Err? {
        return Err(Policy);
      }
      entryIndex := next.value;
    }

    /** What `AuditedFile::copy_to_writer` reads, written in bounded chunks. */
    method CopyContent(content: Bytes) returns (r: Outcome<Unit>)
      requires Valid()
      modifies this`file, this`written
      ensures Valid()
      ensures r.Ok? <==> |old(file)| + |content| <= capacity
      ensures r.Ok? ==> file == old(file) + content
    {
      var copied := 0;
      while copied < |content|
        invariant copied <= |content| && Valid()
        invariant file == old(file) + content[..copied]
      {
        var next := Min(copied + CHUNK, |content|);
        r := WriteAll(content[copied..next]);
        if r.Err? {
          return;
        }
        TakeMore(content, copied, next - copied);
        assert content[copied..next] == content[copied..][..next - copied];
        copied := next;
      }
      assert content[..copied] == content;
      r := Ok(Unit);
    }

    /** A directory entry, for a path that still is one. */
    method WriteDirectory(path: Path, limits: Limits) returns (r: Outcome<Unit>)
      requires Valid() && |file| % BLOCK == 0
      modifies this
      ensures Valid()
      ensures
        var e := Entry(path, Directory, []);
        && (r.Ok? <==>
              && MemberArchivable(old(entryIndex), e, limits) && old(entryIndex) < U64_MAX
              && |old(file)| + |EntryBytes(old(entryIndex), e)| <= capacity)
        && (r.Ok? ==> file == old(file) + EntryBytes(old(entryIndex), e) && entryIndex == old(entryIndex) + 1)
    {
      hide EntryBytes, EntryHead, Encodable;
      MemberGroups(file, entryIndex, Entry(path, Directory, []));
      r := WriteEntry(path, Directory, 0, limits);
    }

    /**
     A file entry. The file is hashed when it is opened and again while it is copied,
     and may change in between; what is written is some content of the size that its
     header declares.
     */
    method WriteFile(path: Path, source: Snapshot.AuditedFile, limits: Limits)
      returns (r: Outcome<Unit>, ghost content: Bytes)
      requires Valid() && |file| % BLOCK == 0
      requires source.state.length == |source.content| && source.pathIdentity == source.state.identity
      modifies this, source
      ensures Valid()
      ensures r.Ok? ==>
                var e := Entry(path, File, content);
                && MemberArchivable(old(entryIndex), e, limits) && old(entryIndex) < U64_MAX
                && file == old(file) + EntryBytes(old(entryIndex), e) && entryIndex == old(entryIndex) + 1
      ensures !source.hostile ==>
                var e := Entry(path, File, old(source.content));
                && (r.Ok? ==> content == old(source.content))
                && (r.Ok? <==>
                      && MemberArchivable(old(entryIndex), e, limits) && old(entryIndex) < U64_MAX
                      && |old(file)| + |EntryBytes(old(entryIndex), e)| <= capacity)
    {
      hide EntryBytes, EntryHead, Encodable, ValidPath, Padded;
      content := source.content;
      ghost var head, index := file, entryIndex;
      MemberGroups(head, index, Entry(path, File, content));
      var checked := source.Fingerprinted(limits.maxSingleFileBytes);
      if checked.Err? {
        return Err(Policy), content;
      }
      r := WriteEntry(path, File, source.fingerprint.length, limits);
      if r.Err? {
        return;
      }
      var slot := new Snapshot.Slot();
      slot.content := Some([]);
      var copied := source.CopyToWriter(slot);
      if copied.Err? {
        return Err(Policy), content;
      }
      content := slot.content.value;
      HeadIsAligned(|head|, index, Entry(path, File, content));
      MemberGroups(head, index, Entry(path, File, content));
      r := WriteContent(slot.content.value);
    }

    method WriteContent(content: Bytes) returns (r: Outcome<Unit>)
      requires Valid() && |file| % BLOCK == 0
      modifies this`file, this`written
      ensures Valid()
      ensures r.Ok? <==> |old(file)| + |Padded(content)| <= capacity
      ensures r.Ok? ==> file == old(file) + Padded(content)
    {
      r := CopyContent(content);
      if r.Ok? {
        PaddingOfTail(|old(file)|, |content|);
        r := PadToBlock();
        assert old(file) + content + Zeros(Padding(|content|)) == old(file) + Padded(content);
      }
    }
  }

  lemma HeadIsAligned(before: nat, index: nat, e: Entry)
    requires before % BLOCK == 0
    ensures (before + |EntryHead(index, e.path, e.kind, |e.content|)|) % BLOCK == 0
  {
    hide EntryHead, EntryBytes;
    PaxRoundTrip.EntryIsAligned(index, e);
    PaxRoundTrip.AlignedSum(before, |EntryHead(index, e.path, e.kind, |e.content|)|);
  }

  ghost predicate MemberArchivable(index: nat, e: Entry, limits: Limits) {
    && ValidPath(e.path, limits)
    && Encodable(index, e.path, e.kind, |e.content|)
    && (e.kind.File? ==> |e.content| <= limits.maxSingleFileBytes)
  }

  lemma MemberGroups(before: Bytes, index: nat, e: Entry)
    ensures before + EntryHead(index, e.path, e.kind, |e.content|) + Padded(e.content) == before + EntryBytes(index, e)
    ensures |EntryBytes(index, e)| == |EntryHead(index, e.path, e.kind, |e.content|)| + |Padded(e.content)|
    ensures e.content == [] ==> EntryBytes(index, e) == EntryHead(index, e.path, e.kind, |e.content|)
  {
    Append(before, EntryHead(index, e.path, e.kind, |e.content|), Padded(e.content));
    PaxRoundTrip.NoPadding([]);
    assert EntryHead(index, e.path, e.kind, |e.content|) + [] == EntryHead(index, e.path, e.kind, |e.content|);
  }

  lemma Append(a: Bytes, b: Bytes, c: Bytes)
    ensures a + b + c == a + (b + c)
  {
  }

  lemma PaddingOfTail(aligned: nat, n: nat)
    requires aligned % BLOCK == 0
    ensures Padding(aligned + n) == Padding(n)
  {
  }

  lemma HeadGroups(before: Bytes, index: nat, path: Path, kind: Kind, size: nat)
    ensures before + ExtendedHeader(index, path, kind, size).Block() + Padded(Attributes(path, kind, size))
            + EntryHeader(index, kind, size).Block()
            == before + EntryHead(index, path, kind, size)
  {
    Regroup(before, ExtendedHeader(index, path, kind, size).Block(), Padded(Attributes(path, kind, size)),
            EntryHeader(index, kind, size).Block());
  }

  lemma Regroup(a: Bytes, b: Bytes, c: Bytes, d: Bytes)
    ensures a + b + c + d == a + (b + c + d)
  {
  }

  lemma HeadLength(index: nat, path: Path, kind: Kind, size: nat)
    ensures |EntryHead(index, path, kind, size)| == 2 * BLOCK + |Padded(Attributes(path, kind, size))|
  {
  }

  /** Attributes that fit their size field are far below any length that could overflow. */
  lemma AttributesBound(path: Path, kind: Kind, size: nat)
    ensures FitsOctal(|Attributes(path, kind, size)|, 12) ==> |Attributes(path, kind, size)| <= USTAR_SIZE_MAX
    ensures RecordLength(|RecordBody(Chars("path"), ArchivePath(path, kind))|) <= |Attributes(path, kind, size)|
    ensures RecordLength(|RecordBody(Chars("mtime"), Digits(0, Decimal))|) <= |Attributes(path, kind, size)|
    ensures kind.File? ==>
      RecordLength(|RecordBody(Chars("size"), Digits(size, Decimal))|) <= |Attributes(path, kind, size)|
  {
    assert Capacity(Octal, 11) == USTAR_SIZE_MAX + 1;
    DigitsFit(|Attributes(path, kind, size)|, Octal, 11);
  }

  method BuildAttributes(relative: Path, kind: Kind, size: nat, limits: Limits) returns (r: Outcome<Bytes>)
    ensures r.Ok? ==> ValidPath(relative, limits) && r.value == Attributes(relative, kind, size)
    ensures r.Err? ==>
              || !ValidPath(relative, limits)
              || RecordLength(|RecordBody(Chars("path"), ArchivePath(relative, kind))|) > U64_MAX
              || (kind.File? && RecordLength(|RecordBody(Chars("size"), Digits(size, Decimal))|) > U64_MAX)
              || RecordLength(|RecordBody(Chars("mtime"), Digits(0, Decimal))|) > U64_MAX
  {
    var path := BuildArchivePath(relative, kind, limits);
    if path.Err? {
      return Err(Policy);
    }
    var record := PaxRecord(Chars("path"), path.value);
    if record.Err? {
      return Err(Policy);
    }
    var attributes := record.value;
    if kind.File? {
      record := PaxRecord(Chars("size"), Digits(size, Decimal));
      if record.Err? {
        return Err(Policy);
      }
      attributes := attributes + record.value;
    }
    record := PaxRecord(Chars("mtime"), Chars("0"));
    assert Chars("0") == Digits(0, Decimal);
    if record.Err? {
      return Err(Policy);
    }
    assert kind.Directory? ==> attributes == attributes + [];
    r := Ok(attributes + record.value);
  }

  lemma {:induction false} JoinOneMore(p: Path, name: Name, sep: Byte)
    requires p != []
    ensures Join(p + [name], sep) == Join(p, sep) + [sep] + name
  {
    if |p| == 1 {
      assert (p + [name])[1..] == [name];
    } else {
      JoinOneMore(p[1..], name, sep);
      assert (p + [name])[1..] == p[1..] + [name];
    }
  }

  method BuildArchivePath(relative: Path, kind: Kind, limits: Limits) returns (r: Outcome<Bytes>)
    ensures r.Ok? <==> ValidPath(relative, limits)
    ensures r.Ok? ==> r.value == ArchivePath(relative, kind)
  {
    var valid := ValidateRelativePath(relative, limits);
    if valid.Err? {
      return Err(Policy);
    }
    var value: Bytes := [];
    for i := 0 to |relative|
      invariant value == Join(relative[..i], SLASH)
    {
      assert relative[..i + 1] == relative[..i] + [relative[i]];
      if i > 0 {
        JoinOneMore(relative[..i], relative[i], SLASH);
        value := value + [SLASH];
      }
      value := value + relative[i];
    }
    assert relative[..|relative|] == relative;
    if kind.Directory? && !(value != [] && value[|value| - 1] == SLASH) {
      value := value + [SLASH];
    }
    r := Ok(value);
  }

  /* ----- A whole tree ----- */

  ghost predicate Archivable(entries: seq<Entry>, limits: Limits) {
    forall i | 0 <= i < |entries| :: MemberArchivable(i, entries[i], limits)
  }

  lemma PartsOneMore(entries: seq<Entry>, i: nat)
    requires i < |entries|
    ensures Concat(Parts(entries[..i + 1])) == Concat(Parts(entries[..i])) + EntryBytes(i, entries[i])
  {
    var parts := Parts(entries[..i + 1]);
    assert parts[..i] == Parts(entries[..i]);
    assert parts[i] == EntryBytes(i, entries[i]);
  }

  lemma {:induction false} PartsGrow(entries: seq<Entry>, i: nat)
    requires i <= |entries|
    ensures |Concat(Parts(entries[..i]))| <= |Concat(Parts(entries))|
    decreases |entries| - i
  {
    if i == |entries| {
      assert entries[..i] == entries;
    } else {
      PartsOneMore(entries, i);
      PartsGrow(entries, i + 1);
    }
  }

  /** The node an entry was enumerated from. */
  ghost predicate IsNodeOf(n: Trees.Node, e: Entry) {
    if e.kind.Directory? then n.Directory? else n.File? && n.content == e.content
  }

  /** The same paths and kinds in the same order; contents are free. */
  ghost predicate SameListing(a: seq<Entry>, b: seq<Entry>) {
    && |a| == |b|
    && forall i | 0 <= i < |a| :: a[i].path == b[i].path && a[i].kind == b[i].kind
  }

  /** What was found at each planned path was still of the planned kind. */
  ghost predicate FoundAsPlanned(met: seq<Trees.Node>, planned: seq<Entry>) {
    && |met| == |planned|
    && forall i | 0 <= i < |met| :: if planned[i].kind.Directory? then met[i].Directory? else met[i].File?
  }

  ghost predicate DirectoriesAreEmpty(entries: seq<Entry>) {
    forall e | e in entries :: e.kind.Directory? ==> e.content == []
  }

  /** One turn of the loop, on whatever is `found` at the path by now. */
  method WriteMember(
    archive: ArchiveWriter, planned: Entry, found: Option<Trees.Node>, limits: Limits, hostile: bool,
    sha: Bytes -> Fingerprint.Digest)
    returns (r: Outcome<Unit>, ghost e: Entry)
    requires archive.Valid() && |archive.file| % BLOCK == 0 && (planned.kind.Directory? ==> planned.content == [])
    requires !hostile ==> found.Some? && IsNodeOf(found.value, planned)
    modifies archive
    ensures archive.Valid()
    ensures e.path == planned.path && e.kind == planned.kind && (e.kind.Directory? ==> e.content == [])
    ensures r.Ok? ==> found.Some? && if planned.kind.Directory? then found.value.Directory? else found.value.File?
    ensures r.Ok? ==> MemberArchivable(old(archive.entryIndex), e, limits)
    ensures r.Ok? ==> archive.file == old(archive.file) + EntryBytes(old(archive.entryIndex), e)
    ensures r.Ok? ==> archive.entryIndex == old(archive.entryIndex) + 1
    ensures !hostile ==>
              && (r.Ok? ==> e == planned)
              && (r.Ok? <==>
                    && MemberArchivable(old(archive.entryIndex), planned, limits) && old(archive.entryIndex) < U64_MAX
                    && |old(archive.file)| + |EntryBytes(old(archive.entryIndex), planned)| <= archive.capacity)
  {
    hide EntryBytes, MemberArchivable;
    e := planned;
    if found.None? {
      return Err(Io), e;
    }
    if planned.kind.Directory? {
      if !found.value.Directory? {
        return Err(Policy), e;
      }
      r := archive.WriteDirectory(planned.path, limits);
    } else {
      if !found.value.File? {
        return Err(Policy), e;
      }
      var source := new Snapshot.AuditedFile(found.value, hostile, sha);
      ghost var content;
      r, content := archive.WriteFile(planned.path, source, limits);
      e := Entry(planned.path, File, content);
    }
  }

  /** What is at the path by now: anything, if others may write there. */
  method Found(planned: Entry, hostile: bool) returns (found: Option<Trees.Node>)
    requires planned.kind.Directory? ==> planned.content == []
    ensures !hostile ==> found.Some? && IsNodeOf(found.value, planned)
  {
    var identity: nat, modified: nat, created: nat := *, *, *;
    found := Some(if planned.kind.Directory? then Trees.Directory(identity)
                  else Trees.File(planned.content, identity, modified, created));
    if hostile {
      var other: Option<Trees.Node> := *;
      found := other;
    }
  }

  /**
   Whatever happens to the files meanwhile, success means the archive holds one
   entry for each planned one, of its path and kind. If nobody interferes they are
   the planned entries, and the archive is written exactly when they are archivable
   and the device has room for the result.
   */
  method WriteTreeArchive(
    planned: seq<Entry>, limits: Limits, capacity: nat, hostile: bool, sha: Bytes -> Fingerprint.Digest)
    returns (r: Outcome<Bytes>, ghost entries: seq<Entry>, ghost met: seq<Trees.Node>)
    requires capacity <= U64_MAX && DirectoriesAreEmpty(planned)
    ensures r.Ok? ==> FoundAsPlanned(met, planned)
    ensures r.Ok? ==> r.value == Archive(entries) && |r.value| <= capacity && Archivable(entries, limits)
    ensures r.Ok? ==> SameListing(entries, planned) && DirectoriesAreEmpty(entries)
    ensures !hostile ==> (r.Ok? <==> Archivable(planned, limits) && |Archive(planned)| <= capacity)
    ensures !hostile && r.Ok? ==> entries == planned
  {
    hide EntryBytes, MemberArchivable;
    entries, met := [], [];
    var archive := new ArchiveWriter(capacity);
    for i := 0 to |planned|
      invariant archive.Valid() && archive.capacity == capacity && fresh(archive)
      invariant archive.entryIndex == i == |entries| && archive.file == Concat(Parts(entries))
      invariant i <= |archive.file| && |archive.file| % BLOCK == 0
      invariant Archivable(entries, limits) && SameListing(entries, planned[..i]) && DirectoriesAreEmpty(entries)
      invariant FoundAsPlanned(met, planned[..i])
      invariant !hostile ==> entries == planned[..i]
    {
      assert planned[i] in planned;
      assert planned[..i + 1] == planned[..i] + [planned[i]];
      if !hostile {
        MemberStep(planned, i);
      }
      ghost var before := entries;
      var found := Found(planned[i], hostile);
      var step, e := WriteMember(archive, planned[i], found, limits, hostile, sha);
      if step.Err? {
        return Err(step.error), entries, met;
      }
      entries, met := before + [e], met + [found.value];
      assert entries[..i] == before && entries[..i + 1] == entries;
      MemberStep(entries, i);
      ListingGrows(before, planned[..i], e, planned[i]);
      ArchivableGrows(before, e, limits);
    }
    assert planned[..|planned|] == planned;
    var step := archive.Finish();
    if step.Err? {
      return Err(step.error), entries, met;
    }
    r := Ok(archive.file);
  }

  lemma ListingGrows(a: seq<Entry>, b: seq<Entry>, x: Entry, y: Entry)
    requires SameListing(a, b) && DirectoriesAreEmpty(a)
    requires x.path == y.path && x.kind == y.kind && (x.kind.Directory? ==> x.content == [])
    ensures SameListing(a + [x], b + [y]) && DirectoriesAreEmpty(a + [x])
  {
  }

  lemma ArchivableGrows(entries: seq<Entry>, e: Entry, limits: Limits)
    requires Archivable(entries, limits) && MemberArchivable(|entries|, e, limits)
    ensures Archivable(entries + [e], limits)
  {
    hide MemberArchivable;
  }

  lemma MemberStep(entries: seq<Entry>, i: nat)
    requires i < |entries| && |Concat(Parts(entries[..i]))| % BLOCK == 0
    ensures Concat(Parts(entries[..i + 1])) == Concat(Parts(entries[..i])) + EntryBytes(i, entries[i])
    ensures |Concat(Parts(entries[..i + 1]))| <= |Concat(Parts(entries))|
    ensures |EntryBytes(i, entries[i])| > 0
    ensures |Concat(Parts(entries[..i + 1]))| % BLOCK == 0
  {
    hide EntryBytes, EntryHead, Concat, Parts;
    PartsOneMore(entries, i);
    PartsGrow(entries, i + 1);
    PaxRoundTrip.EntryIsAligned(i, entries[i]);
    PaxRoundTrip.AlignedSum(|Concat(Parts(entries[..i]))|, |EntryBytes(i, entries[i])|);
    MemberIsLong(i, entries[i]);
  }

  lemma MemberIsLong(index: nat, e: Entry)
    ensures |EntryBytes(index, e)| > 0
  {
    HeadLength(index, e.path, e.kind, |e.content|);
  }

  lemma ArchivableIsWritable(entries: seq<Entry>, limits: Limits)
    requires Archivable(entries, limits)
    requires DirectoriesAreEmpty(entries)
    ensures AllEncodable(entries) && forall e | e in entries :: PaxRoundTrip.Writable(e)
  {
    forall e | e in entries ensures PaxRoundTrip.Writable(e) {
      var i :| 0 <= i < |entries| && entries[i] == e;
      assert MemberArchivable(i, entries[i], limits);
      ValidPathIsPlain(e.path);
    }
    forall i | 0 <= i < |entries|
      ensures Encodable(i, entries[i].path, entries[i].kind, |entries[i].content|)
    {
      assert MemberArchivable(i, entries[i], limits);
    }
  }

  /** What the writer accepts, an independent pax reader gets back entry for entry, under the right headers. */
  lemma ArchiveRoundTrip(entries: seq<Entry>, limits: Limits)
    requires Archivable(entries, limits)
    requires DirectoriesAreEmpty(entries)
    ensures ReadArchive(Archive(entries)) == Some(entries)
    ensures ReadMembers(Archive(entries), map[], None) == Some(PaxRoundTrip.AllAsRead(entries))
  {
    ArchivableIsWritable(entries, limits);
    PaxRoundTrip.ReadOfArchive(entries);
  }

  lemma ArchiveIsBlocks(entries: seq<Entry>)
    ensures |Archive(entries)| % 512 == 0
    ensures |Archive(entries)| >= 1024 && Archive(entries)[|Archive(entries)| - 1024..] == Zeros(1024)
  {
    hide EntryBytes;
    forall p | p in Parts(entries) ensures |p| % BLOCK == 0 {
      var i :| 0 <= i < |entries| && Parts(entries)[i] == p;
      PaxRoundTrip.EntryIsAligned(i, entries[i]);
    }
    PaxRoundTrip.ConcatIsAligned(Parts(entries));
    PaxRoundTrip.AlignedSum(|Concat(Parts(entries))|, 2 * BLOCK);
  }

  /**
   No file is too large for the format: only the text of its attributes, which
   grows with the path, can outgrow a header field.
   */
  lemma EncodableExactly(index: nat, path: Path, kind: Kind, size: nat)
    requires index <= U64_MAX
    ensures Encodable(index, path, kind, size) <==> |Attributes(path, kind, size)| <= USTAR_SIZE_MAX
  {
    assert Capacity(Octal, 11) == USTAR_SIZE_MAX + 1;
    assert Capacity(Octal, 7) == 2097152;
    assert Capacity(Decimal, 10) == 10000000000;
    assert Capacity(Decimal, 15) == 1000000000000000;
    assert Capacity(Decimal, 18) == 1000000000000000000;
    assert Capacity(Decimal, 20) == 100 * Capacity(Decimal, 18);
    DigitsFit(|Attributes(path, kind, size)|, Octal, 11);
    DigitsFit(StoredSize(size), Octal, 11);
    DigitsFit(0x1A4, Octal, 7);
    DigitsFit(0x1ED, Octal, 7);
    DigitsFit(index, Decimal, 20);
  }
}
