/**
 Reading back what the writer's format produces, layer by layer: a field, a
 header block, a record, one entry with its extended header, a whole archive.
 */
module PaxRoundTrip {
  import opened Base
  import opened Numerals
  import opened Paths
  import opened Streams
  import opened PaxFormat

  /* ----- Fields and headers ----- */

  lemma {:induction false} UntilNulStops(value: Bytes, rest: Bytes)
    requires 0 !in value
    ensures UntilNul(value + [0] + rest) == value
    ensures UntilNul(value) == value
  {
    var all := value + [0] + rest;
    if value != [] {
      assert all[1..] == value[1..] + [0] + rest;
      UntilNulStops(value[1..], rest);
      assert [value[0]] + value[1..] == value;
    }
  }

  lemma UntilNulField(value: Bytes, width: nat)
    requires 0 !in value && |value| <= width
    ensures UntilNul(Field(value, width)) == value
  {
    if |value| == width {
      UntilNulStops(value, []);
      assert Field(value, width) == value;
    } else {
      var rest := Zeros(width - |value| - 1);
      UntilNulStops(value, rest);
      assert Field(value, width) == value + [0] + rest;
    }
  }

  /** Zero-extended octal digits read back whatever follows their terminator. */
  lemma ReadOfOctal(value: nat, width: nat, rest: Bytes)
    requires |Digits(value, Octal)| <= width
    ensures ReadOctal(ZeroExtended(value, width) + [0] + rest) == Some(value)
  {
    var digits := Digits(value, Octal);
    var zeros := Repeat(DIGIT_ZERO, width - |digits|);
    var field := zeros + digits;
    assert ZeroExtended(value, width) == field;
    hide Digits, ParseDigits, ZeroExtended;
    DigitsAreDigits(value, Octal);
    assert 0 !in field;
    UntilNulStops(field, rest);
    ParseOfPadded(zeros, value, Octal);
  }

  lemma BlockSlices(h: Header)
    requires h.Fits()
    ensures h.Block()[..148] == h.Front() && h.Block()[156..] == h.Back()
    ensures h.Block()[148..156] == ZeroExtended(h.Checksum(), 6) + [0] + [32]
  {
    var b, front, back := h.Block(), h.Front(), h.Back();
    var check := ZeroExtended(h.Checksum(), 6) + [0] + [32];
    assert b == front + check + back;
  }

  lemma Inside(a: Bytes, b: Bytes, lo: nat, hi: nat)
    requires lo <= hi <= |a|
    ensures (a + b)[lo..hi] == a[lo..hi]
  {
  }

  lemma Beyond(a: Bytes, b: Bytes, lo: nat, hi: nat)
    requires lo <= hi <= |b|
    ensures (a + b)[|a| + lo..|a| + hi] == b[lo..hi]
  {
  }

  /** A field of a header's front part, seen in the whole block. */
  lemma FrontOfBlock(h: Header, lo: nat, hi: nat)
    requires lo <= hi <= 148
    ensures h.Block()[lo..hi] == h.Front()[lo..hi]
  {
    hide Header.Front, Header.Back, Header.Checksum, ZeroExtended;
    assert h.Block() == h.Front() + (ZeroExtended(h.Checksum(), 6) + [0, 32] + h.Back());
    Inside(h.Front(), ZeroExtended(h.Checksum(), 6) + [0, 32] + h.Back(), lo, hi);
  }

  lemma BackOfBlock(h: Header, lo: nat, hi: nat)
    requires lo <= hi <= 356
    ensures h.Block()[156 + lo..156 + hi] == h.Back()[lo..hi]
  {
    hide Header.Front, Header.Back, Header.Checksum, ZeroExtended;
    Beyond(h.Front() + ZeroExtended(h.Checksum(), 6) + [0, 32], h.Back(), lo, hi);
  }

  lemma FrontSlices(h: Header)
    ensures h.Front()[..100] == Field(h.name, 100)
    ensures h.Front()[100..108] == OctalField(h.mode, 8)
    ensures h.Front()[108..116] == OctalField(0, 8) && h.Front()[116..124] == OctalField(0, 8)
    ensures h.Front()[124..136] == OctalField(h.size, 12) && h.Front()[136..148] == OctalField(0, 12)
  {
    var name, mode, zero, size, time :=
      Field(h.name, 100), OctalField(h.mode, 8), OctalField(0, 8), OctalField(h.size, 12), OctalField(0, 12);
    assert h.Front() == name + (mode + zero + zero) + size + time;
    hide *;
    FrontGroups(name, mode, zero, size, time);
    Beyond(name, mode + (zero + (zero + (size + time))), 0, 8);
    Beyond(name + mode, zero + (zero + (size + time)), 0, 8);
    Beyond(name + mode + zero, zero + (size + time), 0, 8);
    Beyond(name + mode + zero + zero, size + time, 0, 12);
    Beyond(name + mode + zero + zero + size, time, 0, 12);
  }

  lemma FrontGroups(name: Bytes, mode: Bytes, zero: Bytes, size: Bytes, time: Bytes)
    ensures name + (mode + zero + zero) + size + time
            == name + (mode + (zero + (zero + (size + time))))
            == name + mode + (zero + (zero + (size + time)))
            == name + mode + zero + (zero + (size + time))
            == name + mode + zero + zero + (size + time)
            == name + mode + zero + zero + size + time
  {
  }

  lemma BackSlices(h: Header)
    ensures h.Back()[0] == h.flag && h.Back()[1..101] == Zeros(100)
    ensures h.Back()[101..107] == Chars("ustar\0") && h.Back()[107..109] == Chars("00")
    ensures h.Back()[109..141] == Field(Chars("iroha-zip"), 32)
    ensures h.Back()[141..173] == Field(Chars("iroha-zip"), 32)
    ensures h.Back()[173..356] == Zeros(183)
  {
    var link, magic, version, user, tail :=
      Zeros(100), Chars("ustar\0"), Chars("00"), Field(Chars("iroha-zip"), 32), Zeros(183);
    assert h.Back() == [h.flag] + link + magic + version + user + user + tail by {
      hide Field, Chars, Zeros;
    }
    hide *;
    BackGroups([h.flag], link, magic, version, user, tail);
    var rest5 := user + tail;
    var rest4 := user + rest5;
    var rest3 := version + rest4;
    var rest2 := magic + rest3;
    Beyond([h.flag], link + rest2, 0, 100);
    Beyond([h.flag] + link, rest2, 0, 6);
    Beyond([h.flag] + link + magic, rest3, 0, 2);
    Beyond([h.flag] + link + magic + version, rest4, 0, 32);
    Beyond([h.flag] + link + magic + version + user, rest5, 0, 32);
    Beyond([h.flag] + link + magic + version + user + user, tail, 0, 183);
  }

  lemma BackGroups(flag: Bytes, link: Bytes, magic: Bytes, version: Bytes, user: Bytes, tail: Bytes)
    ensures flag + link + magic + version + user + user + tail
            == flag + (link + (magic + (version + (user + (user + tail)))))
            == flag + link + (magic + (version + (user + (user + tail))))
            == flag + link + magic + (version + (user + (user + tail)))
            == flag + link + magic + version + (user + (user + tail))
            == flag + link + magic + version + user + (user + tail)
  {
  }

  /** What an archive's headers say beyond name, mode, size and type: owner 0, time 0, the program as user and group. */
  function Plainly(name: Bytes, mode: nat, size: nat, flag: Byte): HeaderInfo {
    HeaderInfo(name, mode, 0, 0, size, 0, flag, [], Chars("iroha-zip"), Chars("iroha-zip"), Zeros(183))
  }

  lemma OctalFieldRead(value: nat, width: nat)
    requires width > 0 && FitsOctal(value, width)
    ensures ReadOctal(OctalField(value, width)) == Some(value)
  {
    ReadOfOctal(value, width - 1, []);
    assert ZeroExtended(value, width - 1) + [0] + [] == OctalField(value, width);
  }

  lemma NumbersOf(h: Header)
    requires h.Fits()
    ensures ReadNumbers(h.Block()) == Some(Numbers(h.mode, 0, 0, h.size, 0, h.Checksum()))
  {
    assert |Digits(0, Octal)| == 1;
    hide Digits, ReadOctal, OctalField, ZeroExtended, Header.Block, Header.Front;
    FrontSlices(h);
    FrontOfBlock(h, 100, 108);
    FrontOfBlock(h, 108, 116);
    FrontOfBlock(h, 116, 124);
    FrontOfBlock(h, 124, 136);
    FrontOfBlock(h, 136, 148);
    OctalFieldRead(h.mode, 8);
    OctalFieldRead(0, 8);
    OctalFieldRead(h.size, 12);
    OctalFieldRead(0, 12);
    BlockSlices(h);
    ChecksumFits(h);
    ReadOfOctal(h.Checksum(), 6, [32]);
  }

  lemma NamesOf(h: Header)
    requires h.Fits() && 0 !in h.name
    ensures UntilNul(h.Block()[..100]) == h.name && h.Block()[156] == h.flag
    ensures UntilNul(h.Block()[157..257]) == []
    ensures h.Block()[257..263] == Chars("ustar\0") && h.Block()[263..265] == Chars("00")
    ensures UntilNul(h.Block()[265..297]) == Chars("iroha-zip") && UntilNul(h.Block()[297..329]) == Chars("iroha-zip")
    ensures h.Block()[329..512] == Zeros(183)
  {
    hide Header.Block, Header.Front, Header.Back, Field, HeaderBack;
    FrontSlices(h);
    BackSlices(h);
    FrontOfBlock(h, 0, 100);
    BackOfBlock(h, 0, 1);
    assert h.Block()[156..157][0] == h.Back()[0..1][0];
    BackOfBlock(h, 1, 101);
    BackOfBlock(h, 101, 107);
    BackOfBlock(h, 107, 109);
    BackOfBlock(h, 109, 141);
    BackOfBlock(h, 141, 173);
    BackOfBlock(h, 173, 356);
    UntilNulField(h.name, 100);
    assert 0 !in Chars("iroha-zip");
    UntilNulField(Chars("iroha-zip"), 32);
  }

  lemma ReadOfHeader(h: Header)
    requires h.Fits() && 0 !in h.name
    ensures ReadHeader(h.Block()) == Some(Plainly(h.name, h.mode, h.size, h.flag))
  {
    hide Header.Block, Header.Front, Header.Back, UntilNul, ReadNumbers, Chars;
    BlockSlices(h);
    NumbersOf(h);
    NamesOf(h);
  }

  /* ----- Records ----- */

  lemma {:induction false} IndexOfSeparator(front: Bytes, x: Byte, rest: Bytes)
    requires x !in front
    ensures IndexOf(front + [x] + rest, x) == Some(|front|)
  {
    var all := front + [x] + rest;
    if front != [] {
      assert all[1..] == front[1..] + [x] + rest;
      IndexOfSeparator(front[1..], x, rest);
    }
  }

  lemma RecordSlices(digits: Bytes, key: Bytes, value: Bytes, rest: Bytes)
    ensures
      var body := RecordBody(key, value);
      var b := digits + [SPACE] + body + rest;
      var length := |digits| + 1 + |body|;
      && b == digits + [SPACE] + (body + rest) && b[..|digits|] == digits
      && b[|digits| + 1..length - 1] == key + [EQUALS] + value && b[length - 1] == LINE_END
  {
  }

  lemma PairSlices(key: Bytes, value: Bytes)
    ensures (key + [EQUALS] + value)[..|key|] == key
    ensures (key + [EQUALS] + value)[|key| + 1..] == value
  {
  }

  lemma ReadOfRecord(key: Bytes, value: Bytes, rest: Bytes)
    requires EQUALS !in key
    ensures ReadRecord(Record(key, value) + rest) == Some(RecordInfo(key, value, |Record(key, value)|))
  {
    var body := RecordBody(key, value);
    var length := RecordLength(|body|);
    var digits := Digits(length, Decimal);
    DigitsAreDigits(length, Decimal);
    ParseOfDigits(length, Decimal);
    IndexOfSeparator(digits, SPACE, body + rest);
    IndexOfSeparator(key, EQUALS, value);
    RecordSlices(digits, key, value, rest);
    PairSlices(key, value);
    hide Digits, ParseDigits, IndexOf, RecordBody, RecordLength;
  }

  lemma ReadOfOneMore(key: Bytes, value: Bytes, rest: Bytes, attributes: map<Bytes, Bytes>)
    requires EQUALS !in key
    ensures ReadAttributes(Record(key, value) + rest, attributes) == ReadAttributes(rest, attributes[key := value])
  {
    ReadOfRecord(key, value, rest);
    assert (Record(key, value) + rest)[|Record(key, value)|..] == rest;
  }

  lemma AttributeKeys()
    ensures EQUALS !in Chars("path") && EQUALS !in Chars("size") && EQUALS !in Chars("mtime")
    ensures Chars("path") != Chars("size") && Chars("path") != Chars("mtime") && Chars("size") != Chars("mtime")
  {
    assert Chars("path")[0] == 'p' as int as Byte && Chars("size")[0] == 's' as int as Byte;
  }

  /** Exactly the path, for a file its size, and the epoch as modification time. */
  function AttributesOf(path: Path, kind: Kind, size: nat): map<Bytes, Bytes> {
    var text := if kind.Directory? then Join(path, SLASH) + [SLASH] else Join(path, SLASH);
    if kind.Directory? then map[Chars("path") := text, Chars("mtime") := Chars("0")]
    else map[Chars("path") := text, Chars("size") := Digits(size, Decimal), Chars("mtime") := Chars("0")]
  }

  lemma ZeroText()
    ensures Digits(0, Decimal) == Chars("0")
  {
  }

  lemma ReadOfAttributes(path: Path, kind: Kind, size: nat)
    requires path != [] && Plain(path)
    ensures ReadAttributes(Attributes(path, kind, size), map[]) == Some(AttributesOf(path, kind, size))
  {
    AttributeKeys();
    ZeroText();
    JoinLast(path, SLASH);
    if kind.File? {
      ReadOfThree(Chars("path"), ArchivePath(path, kind), Chars("size"), Digits(size, Decimal),
                  Chars("mtime"), Digits(0, Decimal));
    } else {
      ReadOfTwo(Chars("path"), ArchivePath(path, kind), Chars("mtime"), Digits(0, Decimal));
      assert Record(Chars("path"), ArchivePath(path, kind)) + [] == Record(Chars("path"), ArchivePath(path, kind));
    }
  }

  lemma ReadOfTwo(k: Bytes, v: Bytes, k': Bytes, v': Bytes)
    requires EQUALS !in k && EQUALS !in k'
    ensures ReadAttributes(Record(k, v) + Record(k', v'), map[]) == Some(map[k := v][k' := v'])
  {
    ReadOfOneMore(k, v, Record(k', v'), map[]);
    ReadOfOneMore(k', v', [], map[k := v]);
    assert Record(k', v') + [] == Record(k', v');
  }

  lemma ReadOfThree(k: Bytes, v: Bytes, k': Bytes, v': Bytes, k'': Bytes, v'': Bytes)
    requires EQUALS !in k && EQUALS !in k' && EQUALS !in k''
    ensures ReadAttributes(Record(k, v) + Record(k', v') + Record(k'', v''), map[])
            == Some(map[k := v][k' := v'][k'' := v''])
  {
    var last := Record(k'', v'');
    assert Record(k, v) + Record(k', v') + last == Record(k, v) + (Record(k', v') + last);
    ReadOfOneMore(k, v, Record(k', v') + last, map[]);
    ReadOfOneMore(k', v', last, map[k := v]);
    ReadOfOneMore(k'', v'', [], map[k := v][k' := v']);
    assert last + [] == last;
  }

  lemma MemberPathOfArchivePath(path: Path, kind: Kind)
    requires path != [] && Plain(path)
    ensures MemberPath(ArchivePath(path, kind), kind) == path
  {
    var value := Join(path, SLASH);
    JoinLast(path, SLASH);
    SplitOfJoin(path, SLASH);
    assert (value + [SLASH])[..|value|] == value;
  }

  /* ----- Blocks of an archive ----- */

  lemma HeaderStart(h: Header, rest: Bytes)
    requires h.Fits() && h.name != [] && 0 !in h.name
    ensures h.Block() + rest != Zeros(2 * BLOCK)
    ensures (h.Block() + rest)[..BLOCK] == h.Block()
    ensures (h.Block() + rest)[BLOCK..] == rest
    ensures ReadHeader((h.Block() + rest)[..BLOCK]) == Some(Plainly(h.name, h.mode, h.size, h.flag))
  {
    var b := h.Block() + rest;
    ReadOfHeader(h);
    BlockSlices(h);
    assert b[..BLOCK] == h.Block();
    assert b[0] == h.Block()[..100][0] == h.name[0];
  }

  lemma ReadExtended(h: Header, attributes: Bytes, rest: Bytes)
    requires h.Fits() && h.name != [] && 0 !in h.name
    requires h.flag == FLAG_EXTENDED && h.size == |attributes|
    requires ReadAttributes(attributes, map[]).Some?
    ensures ReadMembers(h.Block() + (Padded(attributes) + rest), map[], None)
            == ReadMembers(rest, ReadAttributes(attributes, map[]).value,
                           Some(Plainly(h.name, h.mode, h.size, h.flag)))
  {
    var after := Padded(attributes) + rest;
    HeaderStart(h, after);
    assert after[..h.size] == attributes;
    assert after[h.size + Padding(h.size)..] == rest;
    assert |after| >= h.size + Padding(h.size);
    hide ReadHeader, Plainly, Header.Block, Padded, Padding;
  }

  lemma ReadDirectory(h: Header, rest: Bytes, attributes: map<Bytes, Bytes>, extended: Option<HeaderInfo>)
    requires h.Fits() && h.name != [] && 0 !in h.name
    requires h.flag == FLAG_DIRECTORY && Chars("path") in attributes
    ensures
      var e := Entry(MemberPath(attributes[Chars("path")], Directory), Directory, []);
      ReadMembers(h.Block() + rest, attributes, extended)
      == Prepend(Member(e, Plainly(h.name, h.mode, h.size, h.flag), extended, attributes),
                 ReadMembers(rest, map[], None))
  {
    HeaderStart(h, rest);
    hide ReadHeader, Plainly, Header.Block;
  }

  /** One step of the reader at a file's header. */
  lemma ReadMember(
    b: Bytes, info: HeaderInfo, content: Bytes, rest: Bytes, attributes: map<Bytes, Bytes>,
    extended: Option<HeaderInfo>)
    requires |b| >= BLOCK && b != Zeros(2 * BLOCK) && ReadHeader(b[..BLOCK]) == Some(info) && info.flag == FLAG_FILE
    requires Chars("path") in attributes && Chars("size") in attributes
    requires ParseDigits(attributes[Chars("size")], Decimal) == Some(|content|)
    requires |b| - BLOCK >= |content| + Padding(|content|) && b[BLOCK..][..|content|] == content
    requires b[BLOCK..][|content| + Padding(|content|)..] == rest
    ensures
      var e := Entry(MemberPath(attributes[Chars("path")], File), File, content);
      ReadMembers(b, attributes, extended)
      == Prepend(Member(e, info, extended, attributes), ReadMembers(rest, map[], None))
  {
    hide ReadHeader, Padding, MemberPath, ParseDigits, Zeros, Chars;
  }

  lemma ReadFile(
    h: Header, content: Bytes, rest: Bytes, attributes: map<Bytes, Bytes>, extended: Option<HeaderInfo>)
    requires h.Fits() && h.name != [] && 0 !in h.name
    requires h.flag == FLAG_FILE && Chars("path") in attributes && Chars("size") in attributes
    requires ParseDigits(attributes[Chars("size")], Decimal) == Some(|content|)
    ensures
      var e := Entry(MemberPath(attributes[Chars("path")], File), File, content);
      ReadMembers(h.Block() + (Padded(content) + rest), attributes, extended)
      == Prepend(Member(e, Plainly(h.name, h.mode, h.size, h.flag), extended, attributes),
                 ReadMembers(rest, map[], None))
  {
    hide ReadMembers, ReadHeader, MemberPath, ParseDigits, Header.Block;
    var after := Padded(content) + rest;
    HeaderStart(h, after);
    assert after[..|content|] == content;
    assert after[|content| + Padding(|content|)..] == rest;
    ReadMember(h.Block() + after, Plainly(h.name, h.mode, h.size, h.flag), content, rest, attributes, extended);
  }

  lemma IndexedName(prefix: string, index: nat)
    requires prefix == "PaxHeaders/" || prefix == "IrohaZipEntry/"
    ensures 0 !in Chars(prefix) + Digits(index, Decimal)
  {
    DigitsAreDigits(index, Decimal);
    forall i | 0 <= i < |prefix| ensures Chars(prefix)[i] != 0 {
      assert prefix[i] != '\0';
    }
  }

  /** An entry the writer may be given: a directory carries no bytes. */
  predicate Writable(e: Entry) {
    e.path != [] && Plain(e.path) && (e.kind.Directory? ==> e.content == [])
  }

  /** The size written in the extended header decides, whatever the ustar field says. */
  lemma ReadFileEntry(extended: Header, records: Bytes, header: Header, read: map<Bytes, Bytes>, e: Entry, rest: Bytes)
    requires extended.Fits() && extended.name != [] && 0 !in extended.name
    requires extended.flag == FLAG_EXTENDED && extended.size == |records|
    requires header.Fits() && header.name != [] && 0 !in header.name && header.flag == FLAG_FILE
    requires ReadAttributes(records, map[]) == Some(read)
    requires Chars("path") in read && MemberPath(read[Chars("path")], File) == e.path && e.kind.File?
    requires Chars("size") in read && ParseDigits(read[Chars("size")], Decimal) == Some(|e.content|)
    ensures ReadMembers(extended.Block() + Padded(records) + header.Block() + Padded(e.content) + rest, map[], None)
            == Prepend(
                 Member(e, Plainly(header.name, header.mode, header.size, header.flag),
                        Some(Plainly(extended.name, extended.mode, extended.size, extended.flag)), read),
                 ReadMembers(rest, map[], None))
  {
    hide ReadMembers, ReadAttributes, Header.Block, Padded, Plainly, MemberPath, ParseDigits;
    Regroup(extended.Block(), Padded(records), header.Block(), Padded(e.content), rest);
    ReadExtended(extended, records, header.Block() + (Padded(e.content) + rest));
    ReadFile(header, e.content, rest, read, Some(Plainly(extended.name, extended.mode, extended.size, extended.flag)));
  }

  lemma ReadDirectoryEntry(
    extended: Header, records: Bytes, header: Header, read: map<Bytes, Bytes>, e: Entry, rest: Bytes)
    requires extended.Fits() && extended.name != [] && 0 !in extended.name
    requires extended.flag == FLAG_EXTENDED && extended.size == |records|
    requires header.Fits() && header.name != [] && 0 !in header.name && header.flag == FLAG_DIRECTORY
    requires ReadAttributes(records, map[]) == Some(read)
    requires Chars("path") in read && MemberPath(read[Chars("path")], Directory) == e.path
    requires e.kind.Directory? && e.content == []
    ensures ReadMembers(extended.Block() + Padded(records) + header.Block() + Padded(e.content) + rest, map[], None)
            == Prepend(
                 Member(e, Plainly(header.name, header.mode, header.size, header.flag),
                        Some(Plainly(extended.name, extended.mode, extended.size, extended.flag)), read),
                 ReadMembers(rest, map[], None))
  {
    NoPadding(rest);
    hide ReadMembers, ReadAttributes, Header.Block, Padded, Plainly, MemberPath;
    Regroup(extended.Block(), Padded(records), header.Block(), Padded(e.content), rest);
    ReadExtended(extended, records, header.Block() + rest);
    ReadDirectory(header, rest, read, Some(Plainly(extended.name, extended.mode, extended.size, extended.flag)));
  }

  lemma NoPadding(rest: Bytes)
    ensures Padded([]) + rest == rest
  {
    assert Padded([]) == [];
  }

  lemma Regroup(a: Bytes, b: Bytes, c: Bytes, d: Bytes, e: Bytes)
    ensures a + b + c + d + e == a + (b + (c + (d + e)))
  {
  }

  /**
   What a reader gets for the entry with this number: the entry; rwxr-xr-x for a
   directory and rw-r--r-- for a file; a size below eight gigabytes in the header
   itself and zero otherwise; and in front of it a private extended header holding
   exactly the records.
   */
  ghost function AsRead(index: nat, e: Entry): Member {
    var size := |e.content|;
    Member(
      e,
      Plainly(Chars("IrohaZipEntry/") + Digits(index, Decimal),
              if e.kind.Directory? then 7 * 64 + 5 * 8 + 5 else 6 * 64 + 4 * 8 + 4,
              if size < 8 * 1024 * 1024 * 1024 then size else 0,
              if e.kind.Directory? then '5' as int as Byte else '0' as int as Byte),
      Some(Plainly(Chars("PaxHeaders/") + Digits(index, Decimal), 6 * 64 + 4 * 8 + 4,
                   |Attributes(e.path, e.kind, size)|, 'x' as int as Byte)),
      AttributesOf(e.path, e.kind, size))
  }

  lemma ReadOfEntry(index: nat, e: Entry, rest: Bytes)
    requires Writable(e) && Encodable(index, e.path, e.kind, |e.content|)
    ensures ReadMembers(EntryBytes(index, e) + rest, map[], None)
            == Prepend(AsRead(index, e), ReadMembers(rest, map[], None))
  {
    var size := |e.content|;
    var read := AttributesOf(e.path, e.kind, size);
    AttributeKeys();
    IndexedName("PaxHeaders/", index);
    IndexedName("IrohaZipEntry/", index);
    ReadOfAttributes(e.path, e.kind, size);
    ParseOfDigits(size, Decimal);
    MemberPathOfArchivePath(e.path, e.kind);
    JoinLast(e.path, SLASH);
    assert MemberPath(read[Chars("path")], e.kind) == e.path;
    hide ReadMembers, ReadAttributes, MemberPath, Plainly, Digits, Padded, Header.Block, ParseDigits, Record;
    var extended, header := ExtendedHeader(index, e.path, e.kind, size), EntryHeader(index, e.kind, size);
    if e.kind.File? {
      ReadFileEntry(extended, Attributes(e.path, e.kind, size), header, read, e, rest);
    } else {
      ReadDirectoryEntry(extended, Attributes(e.path, e.kind, size), header, read, e, rest);
    }
  }

  function Reader(): Bytes -> Option<seq<Member>> {
    b => ReadMembers(b, map[], None)
  }

  lemma ReadOfEnd()
    ensures Reader()(Zeros(2 * BLOCK)) == Some([])
  {
  }

  ghost function AllAsRead(entries: seq<Entry>): (members: seq<Member>)
    ensures |members| == |entries|
  {
    seq(|entries|, i requires 0 <= i < |entries| => AsRead(i, entries[i]))
  }

  /**
   Paths, kinds, sizes and contents all survive the trip, for every entry
   sequence the format can encode, however large its files are; and every header
   field is what it should be.
   */
  lemma ReadOfArchive(entries: seq<Entry>)
    requires AllEncodable(entries) && forall e | e in entries :: Writable(e)
    ensures ReadMembers(Archive(entries), map[], None) == Some(AllAsRead(entries))
    ensures ReadArchive(Archive(entries)) == Some(entries)
  {
    var parts, members, read := Parts(entries), AllAsRead(entries), Reader();
    hide AsRead;
    forall i, r: Bytes | 0 <= i < |parts|
      ensures read(parts[i] + r) == Prepend(members[i], read(r))
    {
      ReadOfEntry(i, entries[i], r);
    }
    ReadOfEnd();
    ReadOfParts(read, parts, members, Zeros(2 * BLOCK), []);
    assert members + [] == members;
    forall i | 0 <= i < |entries| ensures members[i].entry == entries[i] {
      EntryAsRead(i, entries[i]);
    }
    assert EntriesIn(members) == entries;
  }

  lemma EntryAsRead(index: nat, e: Entry)
    ensures AsRead(index, e).entry == e
  {
  }

  /** The time stamp record as it stands in front of every entry. */
  lemma TimeRecord()
    ensures Record(Chars("mtime"), Digits(0, Decimal)) == Chars("11 mtime=0\n")
  {
    hide Record, Chars;
    TimeBody();
    LengthOfTime();
    assert Record(Chars("mtime"), Chars("0")) == Chars("11") + [SPACE] + Chars("mtime=0\n") by {
      RecordOf(Chars("mtime"), Chars("0"), 11);
    }
    TimeText();
  }

  lemma TimeBody()
    ensures Digits(0, Decimal) == Chars("0") && Digits(11, Decimal) == Chars("11")
    ensures RecordBody(Chars("mtime"), Chars("0")) == Chars("mtime=0\n")
  {
  }

  lemma TimeText()
    ensures Chars("11") + [SPACE] + Chars("mtime=0\n") == Chars("11 mtime=0\n")
  {
  }

  lemma LengthOfTime()
    ensures RecordLength(8) == 11
  {
    assert forall m: nat | m < 10 :: |Digits(m, Decimal)| == 1;
    LeastIsUnique(8, RecordLength(8), 11);
  }

  lemma RecordOf(key: Bytes, value: Bytes, length: nat)
    requires RecordLength(|RecordBody(key, value)|) == length
    ensures Record(key, value) == Digits(length, Decimal) + [SPACE] + RecordBody(key, value)
  {
  }

  /** The mode fields and an indexed name as they stand in every archive. */
  lemma ModeFields(kind: Kind, index: nat, size: nat)
    ensures EntryHeader(index, kind, size).Block()[100..108]
            == Chars(if kind.Directory? then "0000755\0" else "0000644\0")
    ensures EntryHeader(10, kind, size).name == Chars("IrohaZipEntry/") + Chars("10")
  {
    var mode := if kind.Directory? then 0x1ED else 0x1A4;
    ModeText(kind, mode);
    assert Digits(10, Decimal) == Chars("10");
    hide OctalField, Digits, Chars, ZeroExtended;
    assert EntryHeader(index, kind, size).Block()[100..108] == OctalField(mode, 8);
  }

  lemma ModeText(kind: Kind, mode: nat)
    requires mode == if kind.Directory? then 0x1ED else 0x1A4
    ensures OctalField(mode, 8) == Chars(if kind.Directory? then "0000755\0" else "0000644\0")
  {
    assert Digits(mode / 8, Octal) == Chars(if kind.Directory? then "75" else "64");
    assert Digits(mode, Octal) == Chars(if kind.Directory? then "755" else "644");
  }

  /* ----- Alignment ----- */

  lemma AlignedSum(a: nat, b: nat)
    requires a % BLOCK == 0 && b % BLOCK == 0
    ensures (a + b) % BLOCK == 0
  {
  }

  lemma EntryIsAligned(index: nat, e: Entry)
    ensures |EntryHead(index, e.path, e.kind, |e.content|)| % BLOCK == 0
    ensures |EntryBytes(index, e)| % BLOCK == 0
  {
    var attributes := |Padded(Attributes(e.path, e.kind, |e.content|))|;
    AlignedSum(BLOCK, attributes);
    AlignedSum(BLOCK + attributes, BLOCK);
    AlignedSum(BLOCK + attributes + BLOCK, |Padded(e.content)|);
  }

  lemma {:induction false} ConcatIsAligned(parts: seq<Bytes>)
    requires forall p | p in parts :: |p| % BLOCK == 0
    ensures |Concat(parts)| % BLOCK == 0
  {
    if parts != [] {
      var n := |parts| - 1;
      ConcatIsAligned(parts[..n]);
      AlignedSum(|Concat(parts[..n])|, |parts[n]|);
    }
  }
}
