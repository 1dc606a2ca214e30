/**
 Walking the linked records Windows returns for a directory
 (`parse_directory_buffer` in `src/platform/windows_impl.rs`). The layout is that
 of `FILE_ID_BOTH_DIR_INFO`: a 104-byte fixed part, then the name.
 */
module DirectoryBuffer {
  import opened Base
  import opened Streams
  import Unicode

  type Unit16 = Unicode.Unit16
  type Wide = seq<Unit16>

  const NAME_OFFSET: nat := 104
  const STRUCTURE_BYTES: nat := 112
  const NAME_LENGTH_OFFSET: nat := 60
  const WORD: nat := 8
  const U32_MAX: nat := 0xFFFF_FFFF

  function ReadUnits(b: Bytes): (w: Wide)
    requires |b| % 2 == 0
    ensures |w| == |b| / 2
  {
    seq(|b| / 2, i requires 0 <= i < |b| / 2 => (b[2 * i] as int + 256 * b[2 * i + 1] as int) as Unit16)
  }

  function WideBytes(w: Wide): (b: Bytes)
    ensures |b| == 2 * |w|
  {
    seq(2 * |w|, i requires 0 <= i < 2 * |w| =>
      if i % 2 == 0 then (w[i / 2] as int % 256) as Byte else (w[i / 2] as int / 256) as Byte)
  }

  lemma ReadOfUnits(w: Wide)
    ensures ReadUnits(WideBytes(w)) == w
  {
  }

  const DOT: Unit16 := 46

  predicate IsDotEntry(name: Wide) {
    name == [DOT] || name == [DOT, DOT]
  }

  /** The names without `.` and `..`. */
  function Kept(names: seq<Wide>): (kept: seq<Wide>)
    ensures |kept| <= |names|
  {
    if names == [] then []
    else if IsDotEntry(names[0]) then Kept(names[1..])
    else [names[0]] + Kept(names[1..])
  }

  /** No directory's own names are ever kept, and every other name is. */
  lemma {:induction false} KeptExactly(names: seq<Wide>)
    ensures forall name :: name in Kept(names) <==>
              name in names && name != [46 as Unit16] && name != [46 as Unit16, 46]
  {
    if names != [] {
      KeptExactly(names[1..]);
      assert names == [names[0]] + names[1..];
    }
  }

  lemma KeptFirst(names: seq<Wide>)
    requires names != []
    ensures Kept(names) == (if IsDotEntry(names[0]) then [] else [names[0]]) + Kept(names[1..])
  {
  }

  lemma KeptNone()
    ensures Kept([]) == []
  {
  }

  lemma {:induction false} KeptAppend(a: seq<Wide>, b: seq<Wide>)
    ensures Kept(a + b) == Kept(a) + Kept(b)
  {
    hide Kept, IsDotEntry;
    if a == [] {
      KeptNone();
      assert a + b == b;
    } else {
      KeptAppend(a[1..], b);
      KeptFirst(a);
      KeptFirst(a + b);
      assert (a + b)[0] == a[0] && (a + b)[1..] == a[1..] + b;
    }
  }

  /* ----- One record ----- */

  datatype Entry = Entry(name: Wide, next: nat)

  /** The fixed part and a non-empty name of whole units lie inside the buffer. */
  predicate NameIsInside(b: Bytes, offset: nat) {
    && offset + STRUCTURE_BYTES <= |b|
    && var length := ReadLittle(b[offset + NAME_LENGTH_OFFSET..offset + NAME_LENGTH_OFFSET + 4]);
       length > 0 && length % 2 == 0 && offset + NAME_OFFSET + length <= |b|
  }

  function NameAt(b: Bytes, offset: nat): (name: Wide)
    requires NameIsInside(b, offset)
    ensures name != [] && offset + NAME_OFFSET + 2 * |name| <= |b|
  {
    var length := ReadLittle(b[offset + NAME_LENGTH_OFFSET..offset + NAME_LENGTH_OFFSET + 4]);
    ReadUnits(b[offset + NAME_OFFSET..offset + NAME_OFFSET + length])
  }

  /** The record at `offset`, if it lies inside the buffer and points past itself. */
  function EntryAt(b: Bytes, offset: nat): (r: Option<Entry>)
    ensures r.Some? ==> offset + NAME_OFFSET + 2 * |r.value.name| <= |b| && r.value.name != []
    ensures r.Some? && r.value.next != 0 ==> offset + r.value.next < |b| && r.value.next % WORD == 0
  {
    if !NameIsInside(b, offset) then None
    else
      var name, next := NameAt(b, offset), ReadLittle(b[offset..offset + 4]);
      if next != 0 && (next % WORD != 0 || next < NAME_OFFSET + 2 * |name| || offset + next >= |b|) then None
      else Some(Entry(name, next))
  }

  /** All names from the record at `offset` on, if the chain is sound to its end. */
  function EntriesFrom(b: Bytes, offset: nat): Option<seq<Wide>>
    decreases |b| - offset
  {
    match EntryAt(b, offset)
    case None => None
    case Some(entry) =>
      if entry.next == 0 then Some([entry.name]) else Prepend(entry.name, EntriesFrom(b, offset + entry.next))
  }

  /* ----- The parser ----- */

  ghost predicate Read(b: Bytes, offset: nat, seen: seq<Wide>) {
    && (EntriesFrom(b, 0).Some? <==> EntriesFrom(b, offset).Some?)
    && (EntriesFrom(b, 0).Some? ==> EntriesFrom(b, 0).value == seen + EntriesFrom(b, offset).value)
  }

  /** The cap counts what was there before the buffer; names that are skipped cost nothing. */
  ghost predicate WithinCap(before: seq<Wide>, kept: seq<Wide>, maxEntries: nat) {
    kept == [] || |before| + |kept| <= maxEntries
  }

  /**
   For every buffer content: each read is in bounds, offsets strictly increase, and
   success means a sound chain whose names were all appended, in order.
   */
  method ParseDirectoryBuffer(b: Bytes, maxEntries: nat, before: seq<Wide>)
    returns (r: Outcome<Unit>, names: seq<Wide>)
    requires |b| % WORD == 0 && |b| <= U64_MAX && |before| <= U64_MAX
    ensures r.Ok? <==> EntriesFrom(b, 0).Some? && WithinCap(before, Kept(EntriesFrom(b, 0).value), maxEntries)
    ensures r.Ok? ==> names == before + Kept(EntriesFrom(b, 0).value)
    ensures |before| <= |names| && names[..|before|] == before && |names| <= Max(|before|, maxEntries)
  {
    hide EntriesFrom, ReadLittle, NameIsInside, NameAt, Kept, Read;
    names := before;
    var offset := 0;
    ghost var seen: seq<Wide> := [];
    StartRead(b);
    while true
      invariant offset % WORD == 0 && offset <= |b|
      invariant Read(b, offset, seen)
      invariant names == before + Kept(seen) && WithinCap(before, Kept(seen), maxEntries)
      decreases |b| - offset
    {
      StepRead(b, offset, seen);
      var read := ReadName(b, offset);
      if read.Err? {
        return Err(Policy), names;
      }
      var name := read.value;
      var nameEnd := offset + NAME_OFFSET + 2 * |name|;
      OneMoreName(seen, name);
      if !IsDotEntry(name) {
        if |names| >= maxEntries {
          CapIsPassed(b, offset, seen, name);
          return Err(Policy), names;
        }
        names := names + [name];
      }
      var next := ReadLittle(b[offset..offset + 4]);
      seen := seen + [name];
      if next == 0 {
        break;
      }
      if next % WORD != 0 || next < nameEnd - offset || next < NAME_OFFSET + 2 {
        return Err(Policy), names;
      }
      if offset + next >= |b| {
        return Err(Policy), names;
      }
      offset := offset + next;
    }
    r := Ok(Unit);
  }

  /** The checks before the name is used. */
  method ReadName(b: Bytes, offset: nat) returns (r: Outcome<Wide>)
    requires offset % WORD == 0
    ensures r.Ok? <==> NameIsInside(b, offset)
    ensures r.Ok? ==> r.value == NameAt(b, offset)
  {
    hide ReadLittle, ReadUnits;
    EvenHeader(offset);
    var headerEnd := offset + NAME_OFFSET;
    if headerEnd > |b| {
      return Err(Policy);
    }
    if offset + STRUCTURE_BYTES > |b| || headerEnd % 2 != 0 {
      return Err(Policy);
    }
    var nameBytes := ReadLittle(b[offset + NAME_LENGTH_OFFSET..offset + NAME_LENGTH_OFFSET + 4]);
    if nameBytes == 0 || nameBytes % 2 != 0 {
      return Err(Policy);
    }
    var nameEnd := headerEnd + nameBytes;
    if nameEnd > |b| {
      return Err(Policy);
    }
    r := Ok(ReadUnits(b[headerEnd..nameEnd]));
  }

  lemma EvenHeader(offset: nat)
    requires offset % WORD == 0
    ensures (offset + NAME_OFFSET) % 2 == 0
  {
    assert offset + NAME_OFFSET == 2 * (4 * (offset / WORD) + 52);
  }

  lemma StartRead(b: Bytes)
    ensures Read(b, 0, []) && Kept([]) == []
  {
    if EntriesFrom(b, 0).Some? {
      assert [] + EntriesFrom(b, 0).value == EntriesFrom(b, 0).value;
    }
  }

  /** What the record at `offset` decides about the whole chain. */
  lemma StepRead(b: Bytes, offset: nat, seen: seq<Wide>)
    requires Read(b, offset, seen)
    ensures EntryAt(b, offset).None? ==> EntriesFrom(b, 0).None?
    ensures
      var e := EntryAt(b, offset);
      && (e.Some? && e.value.next == 0 ==> EntriesFrom(b, 0) == Some(seen + [e.value.name]))
      && (e.Some? && e.value.next != 0 ==> Read(b, offset + e.value.next, seen + [e.value.name]))
  {
    var e := EntryAt(b, offset);
    if e.Some? && e.value.next != 0 {
      var rest := EntriesFrom(b, offset + e.value.next);
      if rest.Some? {
        assert seen + ([e.value.name] + rest.value) == seen + [e.value.name] + rest.value;
      }
    }
  }

  lemma OneMoreName(seen: seq<Wide>, name: Wide)
    ensures Kept(seen + [name]) == if IsDotEntry(name) then Kept(seen) else Kept(seen) + [name]
  {
    KeptAppend(seen, [name]);
  }

  lemma CapIsPassed(b: Bytes, offset: nat, seen: seq<Wide>, name: Wide)
    requires Read(b, offset, seen) && (EntryAt(b, offset).Some? ==> EntryAt(b, offset).value.name == name)
    ensures EntriesFrom(b, 0).Some? ==> |Kept(EntriesFrom(b, 0).value)| >= |Kept(seen + [name])|
  {
    StepRead(b, offset, seen);
    hide EntryAt, Kept;
    if EntriesFrom(b, 0).Some? && EntryAt(b, offset).value.next != 0 {
      KeptAppend(seen + [name], EntriesFrom(b, offset + EntryAt(b, offset).value.next).value);
    }
  }

  function FourBytes(b: Bytes, at: nat): nat
    requires at + 4 <= |b|
  {
    b[at] as nat + 0x100 * b[at + 1] as nat + 0x10000 * b[at + 2] as nat + 0x100_0000 * b[at + 3] as nat
  }

  lemma ReadOfFour(b: Bytes, at: nat)
    requires at + 4 <= |b|
    ensures ReadLittle(b[at..at + 4]) == FourBytes(b, at)
  {
    var four := b[at..at + 4];
    assert ReadLittle(four) == four[0] as nat + 256 * ReadLittle(four[1..]);
    assert ReadLittle(four[1..]) == four[1] as nat + 256 * ReadLittle(four[1..][1..]);
    assert ReadLittle(four[1..][1..]) == four[2] as nat + 256 * ReadLittle(four[3..]);
    assert ReadLittle(four[3..]) == four[3] as nat;
  }

  /** Byte by byte, what a record is taken to say: the offset of the next one, and the name. */
  lemma FieldsOfEntry(b: Bytes, offset: nat)
    requires EntryAt(b, offset).Some?
    ensures
      var entry := EntryAt(b, offset).value;
      && offset + 112 <= |b| && entry.next == FourBytes(b, offset) && 2 * |entry.name| == FourBytes(b, offset + 60)
      && offset + 104 + 2 * |entry.name| <= |b|
      && forall i | 0 <= i < |entry.name| ::
           entry.name[i] as nat == b[offset + 104 + 2 * i] as nat + 256 * b[offset + 105 + 2 * i] as nat
  {
    ReadOfFour(b, offset);
    ReadOfFour(b, offset + 60);
  }

  /* ----- Laying a buffer out ----- */

  /** A directory record: its name, and the fields the parser ignores on either side of the name length. */
  datatype Record = Record(name: Wide, front: Bytes, back: Bytes) {
    predicate Fits() {
      && name != [] && NAME_OFFSET + 2 * |name| + WORD <= U32_MAX
      && |front| == NAME_LENGTH_OFFSET - 4 && |back| == NAME_OFFSET - NAME_LENGTH_OFFSET - 4
    }

    function Width(): nat {
      (NAME_OFFSET + 2 * |name| + WORD - 1) / WORD * WORD
    }

    function Encoded(next: nat): (b: Bytes)
      requires Fits()
      ensures |b| == Width() && |b| % WORD == 0 && |b| >= STRUCTURE_BYTES
    {
      Little(next, 4) + front + Little(2 * |name|, 4) + back + WideBytes(name)
      + Repeat(0, Width() - NAME_OFFSET - 2 * |name|)
    }
  }

  /** Records one after the other, each aligned to a word and pointing to the next; the last one points nowhere. */
  function Layout(records: seq<Record>): Bytes
    requires records != [] && forall x | x in records :: x.Fits()
  {
    if |records| == 1 then records[0].Encoded(0)
    else records[0].Encoded(records[0].Width()) + Layout(records[1..])
  }

  function NamesOf(records: seq<Record>): (names: seq<Wide>)
    ensures |names| == |records|
  {
    seq(|records|, i requires 0 <= i < |records| => records[i].name)
  }

  lemma SliceOf(pre: Bytes, middle: Bytes, post: Bytes)
    ensures (pre + (middle + post))[|pre|..|pre| + |middle|] == middle
    ensures (pre + (middle + post)) == (pre + middle) + post
  {
  }

  /** The fixed part and the name lie where the parser looks for them. */
  lemma RecordFields(pre: Bytes, x: Record, next: nat, post: Bytes)
    requires x.Fits() && next <= U32_MAX
    ensures
      var b := pre + x.Encoded(next) + post;
      && |b| >= |pre| + STRUCTURE_BYTES
      && b[|pre|..|pre| + 4] == Little(next, 4)
      && b[|pre| + NAME_LENGTH_OFFSET..|pre| + NAME_LENGTH_OFFSET + 4] == Little(2 * |x.name|, 4)
      && |b| >= |pre| + NAME_OFFSET + 2 * |x.name|
      && b[|pre| + NAME_OFFSET..|pre| + NAME_OFFSET + 2 * |x.name|] == WideBytes(x.name)
  {
    hide Little, WideBytes;
    var b := pre + x.Encoded(next) + post;
    var padding := Repeat(0, x.Width() - NAME_OFFSET - 2 * |x.name|) + post;
    var nameOn := WideBytes(x.name) + padding;
    var lengthOn := Little(2 * |x.name|, 4) + (x.back + nameOn);
    assert b == pre + (Little(next, 4) + (x.front + lengthOn));
    SliceOf(pre, Little(next, 4), x.front + lengthOn);
    var before := pre + Little(next, 4) + x.front;
    assert b == before + lengthOn;
    SliceOf(before, Little(2 * |x.name|, 4), x.back + nameOn);
    before := before + Little(2 * |x.name|, 4) + x.back;
    assert b == before + nameOn;
    SliceOf(before, WideBytes(x.name), padding);
  }

  lemma ReadOfU32(n: nat)
    requires n <= U32_MAX
    ensures ReadLittle(Little(n, 4)) == n
  {
    assert Pow256(4) == U32_MAX + 1;
    ReadOfLittle(n, 4);
  }

  lemma RecordRead(pre: Bytes, x: Record, next: nat, post: Bytes)
    requires x.Fits() && (next == 0 || (next == x.Width() && post != []))
    ensures EntryAt(pre + x.Encoded(next) + post, |pre|) == Some(Entry(x.name, next))
  {
    RecordFields(pre, x, next, post);
    ReadOfU32(next);
    ReadOfU32(2 * |x.name|);
    ReadOfUnits(x.name);
    hide Little, ReadLittle, ReadUnits, WideBytes, Record.Encoded;
  }

  lemma ChainStep(b: Bytes, offset: nat, e: Entry)
    requires EntryAt(b, offset) == Some(e)
    ensures EntriesFrom(b, offset) ==
            if e.next == 0 then Some([e.name]) else Prepend(e.name, EntriesFrom(b, offset + e.next))
  {
  }

  lemma Regroup(pre: Bytes, first: Bytes, rest: Bytes, post: Bytes)
    ensures pre + (first + rest) + post == pre + first + (rest + post) == pre + first + rest + post
  {
  }

  lemma LayoutOne(records: seq<Record>)
    requires |records| == 1 && records[0].Fits()
    ensures Layout(records) == records[0].Encoded(0) && NamesOf(records) == [records[0].name]
  {
  }

  lemma LayoutMore(records: seq<Record>)
    requires |records| > 1 && forall x | x in records :: x.Fits()
    ensures Layout(records) == records[0].Encoded(records[0].Width()) + Layout(records[1..])
    ensures Layout(records[1..]) != []
  {
    LayoutNotEmpty(records[1..]);
    hide Record.Encoded, Record.Width, Record.Fits;
  }

  lemma NamesMore(records: seq<Record>)
    requires |records| > 1
    ensures NamesOf(records) == [records[0].name] + NamesOf(records[1..])
  {
  }

  /** Whatever the ignored fields hold and whatever follows the last record, the names come back in order. */
  lemma {:induction false} LayoutIsRead(pre: Bytes, records: seq<Record>, post: Bytes)
    requires records != [] && forall x | x in records :: x.Fits()
    ensures EntriesFrom(pre + Layout(records) + post, |pre|) == Some(NamesOf(records))
    decreases |records|
  {
    hide *;
    var x := records[0];
    if |records| == 1 {
      LayoutOne(records);
      RecordRead(pre, x, 0, post);
      ChainStep(pre + x.Encoded(0) + post, |pre|, Entry(x.name, 0));
    } else {
      LayoutMore(records);
      NamesMore(records);
      WidthIsPositive(x);
      var first, rest := x.Encoded(x.Width()), Layout(records[1..]);
      Regroup(pre, first, rest, post);
      RecordRead(pre, x, x.Width(), rest + post);
      ChainStep(pre + first + (rest + post), |pre|, Entry(x.name, x.Width()));
      LayoutIsRead(pre + first, records[1..], post);
      assert |pre + first| == |pre| + x.Width();
      PrependSome(x.name, NamesOf(records[1..]));
    }
  }

  lemma PrependSome<T>(item: T, rest: seq<T>)
    ensures Prepend(item, Some(rest)) == Some([item] + rest)
  {
  }

  lemma WidthIsPositive(x: Record)
    ensures x.Width() > 0
  {
  }

  lemma LayoutNotEmpty(records: seq<Record>)
    requires records != [] && forall x | x in records :: x.Fits()
    ensures Layout(records) != []
  {
  }

  /** A buffer laid out from names is parsed exactly when the cap allows, and yields the names but for the dots. */
  method ParseLayout(records: seq<Record>, post: Bytes, maxEntries: nat, before: seq<Wide>)
    returns (r: Outcome<Unit>, names: seq<Wide>)
    requires records != [] && (forall x | x in records :: x.Fits()) && |before| <= U64_MAX
    requires |Layout(records) + post| % WORD == 0 && |Layout(records) + post| <= U64_MAX
    ensures r.Ok? <==> WithinCap(before, Kept(NamesOf(records)), maxEntries)
    ensures r.Ok? ==> names == before + Kept(NamesOf(records))
  {
    LayoutIsRead([], records, post);
    assert [] + Layout(records) + post == Layout(records) + post;
    r, names := ParseDirectoryBuffer(Layout(records) + post, maxEntries, before);
  }
}
