/**
 The pax interchange format as IEEE Std 1003.1-2017 describes it ("pax
 Interchange Format" and "ustar Interchange Format" in the EXTENDED DESCRIPTION
 of the `pax` utility): the bytes of one entry, and a reader that knows nothing
 about how they were produced.
 */
module PaxFormat {
  import opened Base
  import opened Numerals
  import opened Paths
  import opened Streams

  const BLOCK: nat := 512

  /** The largest size eleven octal digits can hold: 8 GiB minus one. */
  const USTAR_SIZE_MAX: nat := 0x1_FFFF_FFFF

  datatype Kind = Directory | File

  datatype Entry = Entry(path: Path, kind: Kind, content: Bytes)

  /* ----- Fields ----- */

  function Chars(s: string): (b: Bytes)
    ensures |b| == |s|
  {
    seq(|s|, i requires 0 <= i < |s| => if s[i] < 128 as char then s[i] as int as Byte else 0)
  }

  function Zeros(n: nat): (z: Bytes)
    ensures |z| == n && forall i | 0 <= i < n :: z[i] == 0
  {
    Repeat(0, n)
  }

  function Padding(n: nat): (p: nat)
    ensures p < BLOCK && (n + p) % BLOCK == 0
  {
    if n % BLOCK == 0 then 0 else BLOCK - n % BLOCK
  }

  function Padded(b: Bytes): (p: Bytes)
    ensures |p| % BLOCK == 0 && b <= p
  {
    b + Zeros(Padding(|b|))
  }

  /** `value` and NULs up to `width`; total so that layouts need no side conditions. */
  function Field(value: Bytes, width: nat): (f: Bytes)
    ensures |f| == width
  {
    if |value| <= width then value + Zeros(width - |value|) else value[..width]
  }

  /** Whether a value leaves room for the terminator of its octal field. */
  predicate FitsOctal(value: nat, width: nat) {
    |Digits(value, Octal)| < width
  }

  function ZeroExtended(value: nat, width: nat): (d: Bytes)
    ensures |d| == width
  {
    var d := Digits(value, Octal);
    if |d| <= width then Repeat(DIGIT_ZERO, width - |d|) + d else d[..width]
  }

  /** Zero-extended octal digits and a terminating NUL. */
  function OctalField(value: nat, width: nat): (f: Bytes)
    requires width > 0
    ensures |f| == width
  {
    ZeroExtended(value, width - 1) + [0]
  }

  /* ----- One header block ----- */

  /** Everything after the checksum: type flag, link name, magic, version, user, group, device, prefix. */
  function HeaderBack(flag: Byte): (b: Bytes)
    ensures |b| == 356
  {
    [flag] + Zeros(100) + Chars("ustar\0") + Chars("00") + Field(Chars("iroha-zip"), 32)
    + Field(Chars("iroha-zip"), 32) + Zeros(183)
  }

  datatype Header = Header(name: Bytes, mode: nat, size: nat, flag: Byte) {
    predicate Fits() {
      |name| <= 100 && FitsOctal(mode, 8) && FitsOctal(size, 12)
    }

    /** Everything before the checksum: name, mode, uid, gid, size, mtime. */
    function Front(): (b: Bytes)
      ensures |b| == 148
    {
      Field(name, 100) + Ids() + OctalField(size, 12) + OctalField(0, 12)
    }

    function Ids(): (b: Bytes)
      ensures |b| == 24
    {
      OctalField(mode, 8) + OctalField(0, 8) + OctalField(0, 8)
    }

    function Back(): (b: Bytes)
      ensures |b| == 356
    {
      HeaderBack(flag)
    }

    /** The byte sum with the checksum field itself taken as eight spaces. */
    function Checksum(): (c: nat)
      ensures c <= 128776
    {
      Sum(Front()) + 8 * 32 + Sum(Back())
    }

    function Block(): (b: Bytes)
      ensures |b| == BLOCK
    {
      Front() + ZeroExtended(Checksum(), 6) + [0, 32] + Back()
    }
  }

  /** Six octal digits always hold the checksum, so its overflow branch is dead. */
  lemma ChecksumFits(h: Header)
    ensures |Digits(h.Checksum(), Octal)| <= 6
  {
    assert Capacity(Octal, 6) == 262144;
    DigitsFit(h.Checksum(), Octal, 6);
  }

  /* ----- Extended header records ----- */

  const SPACE: Byte := 32
  const EQUALS: Byte := 61
  const LINE_END: Byte := 10

  function RecordBody(key: Bytes, value: Bytes): Bytes {
    key + [EQUALS] + value + [LINE_END]
  }

  /** A length that counts itself: its digits, the space and the body. */
  predicate IsRecordLength(body: nat, length: nat) {
    length == body + |Digits(length, Decimal)| + 1
  }

  predicate IsLeastRecordLength(body: nat, length: nat) {
    IsRecordLength(body, length) && forall m: nat | m < length :: !IsRecordLength(body, m)
  }

  /**
   Starting at or below every self-consistent length, replacing a guess by the
   length it implies climbs to the least one and never past `2 * body + 4`.
   */
  lemma {:induction false} LeastRecordLength(body: nat, guess: nat) returns (length: nat)
    requires body + 2 <= guess <= body + |Digits(guess, Decimal)| + 1
    requires forall m: nat | m < guess :: !IsRecordLength(body, m)
    ensures IsLeastRecordLength(body, length)
    ensures guess <= length <= 2 * body + 4
    decreases 2 * body + 4 - guess
  {
    DecimalLengthBound(guess);
    var next := body + |Digits(guess, Decimal)| + 1;
    if next == guess {
      length := guess;
    } else {
      NoLengthBetween(body, guess, next);
      length := LeastRecordLength(body, next);
    }
  }

  lemma NoLengthBetween(body: nat, guess: nat, next: nat)
    requires guess <= next == body + |Digits(guess, Decimal)| + 1
    requires forall m: nat | m < guess :: !IsRecordLength(body, m)
    ensures forall m: nat | m < next :: !IsRecordLength(body, m)
    ensures next <= body + |Digits(next, Decimal)| + 1
  {
    DigitsMonotone(guess, next, Decimal);
    forall m: nat | guess <= m < next ensures !IsRecordLength(body, m) {
      DigitsMonotone(guess, m, Decimal);
    }
  }

  lemma FirstGuess(body: nat)
    ensures body + 2 <= body + |Digits(body + 2, Decimal)| + 1
    ensures forall m: nat | m < body + 2 :: !IsRecordLength(body, m)
  {
  }

  lemma RecordLengthExists(body: nat)
    ensures exists length: nat :: IsLeastRecordLength(body, length)
  {
    FirstGuess(body);
    var length := LeastRecordLength(body, body + 2);
  }

  ghost function RecordLength(body: nat): (length: nat)
    ensures IsLeastRecordLength(body, length)
  {
    RecordLengthExists(body);
    var length: nat :| IsLeastRecordLength(body, length);
    length
  }

  lemma LeastIsUnique(body: nat, a: nat, b: nat)
    requires IsLeastRecordLength(body, a) && IsLeastRecordLength(body, b)
    ensures a == b
  {
  }

  /** Leastness is content: a seven-byte body admits two self-consistent lengths. */
  lemma TwoRecordLengths()
    ensures IsRecordLength(7, 9) && IsRecordLength(7, 10) && RecordLength(7) == 9
  {
    assert forall m: nat | m < 9 :: |Digits(m, Decimal)| == 1;
    LeastIsUnique(7, RecordLength(7), 9);
  }

  ghost function Record(key: Bytes, value: Bytes): (r: Bytes)
    ensures |r| == RecordLength(|RecordBody(key, value)|)
  {
    Digits(RecordLength(|RecordBody(key, value)|), Decimal) + [SPACE] + RecordBody(key, value)
  }

  /* ----- Entries and whole archives ----- */

  /** `a/b/c`, with a trailing slash for a directory. */
  function ArchivePath(path: Path, kind: Kind): Bytes {
    var value := Join(path, SLASH);
    if kind.Directory? && (value == [] || value[|value| - 1] != SLASH) then value + [SLASH] else value
  }

  ghost function Attributes(path: Path, kind: Kind, size: nat): Bytes {
    Record(Chars("path"), ArchivePath(path, kind))
    + (if kind.File? then Record(Chars("size"), Digits(size, Decimal)) else [])
    + Record(Chars("mtime"), Digits(0, Decimal))
  }

  const FLAG_EXTENDED: Byte := 120
  const FLAG_DIRECTORY: Byte := 53
  const FLAG_FILE: Byte := 48

  ghost function ExtendedHeader(index: nat, path: Path, kind: Kind, size: nat): Header {
    Header(Chars("PaxHeaders/") + Digits(index, Decimal), 0x1A4, |Attributes(path, kind, size)|, FLAG_EXTENDED)
  }

  /** Sizes the ustar field cannot hold are stored as zero; the record overrides them. */
  function StoredSize(size: nat): nat {
    if size <= USTAR_SIZE_MAX then size else 0
  }

  function EntryHeader(index: nat, kind: Kind, size: nat): Header {
    Header(Chars("IrohaZipEntry/") + Digits(index, Decimal), if kind.Directory? then 0x1ED else 0x1A4,
           StoredSize(size), if kind.Directory? then FLAG_DIRECTORY else FLAG_FILE)
  }

  ghost predicate Encodable(index: nat, path: Path, kind: Kind, size: nat) {
    ExtendedHeader(index, path, kind, size).Fits() && EntryHeader(index, kind, size).Fits()
  }

  ghost function EntryHead(index: nat, path: Path, kind: Kind, size: nat): Bytes {
    ExtendedHeader(index, path, kind, size).Block() + Padded(Attributes(path, kind, size))
    + EntryHeader(index, kind, size).Block()
  }

  ghost function EntryBytes(index: nat, e: Entry): Bytes {
    EntryHead(index, e.path, e.kind, |e.content|) + Padded(e.content)
  }

  /** The encoded entries, numbered from zero. */
  ghost function Parts(entries: seq<Entry>): (parts: seq<Bytes>)
    ensures |parts| == |entries|
  {
    seq(|entries|, i requires 0 <= i < |entries| => EntryBytes(i, entries[i]))
  }

  ghost function Archive(entries: seq<Entry>): Bytes {
    Concat(Parts(entries)) + Zeros(2 * BLOCK)
  }

  ghost predicate AllEncodable(entries: seq<Entry>) {
    forall i | 0 <= i < |entries| :: Encodable(i, entries[i].path, entries[i].kind, |entries[i].content|)
  }

  /* ----- The reader ----- */

  function UntilNul(b: Bytes): Bytes {
    if b == [] || b[0] == 0 then [] else [b[0]] + UntilNul(b[1..])
  }

  function ReadOctal(field: Bytes): Option<nat> {
    ParseDigits(UntilNul(field), Octal)
  }

  /** Every field of a header block but the checksum; texts without NULs, `tail` the device numbers and the prefix. */
  datatype HeaderInfo = HeaderInfo(
    name: Bytes, mode: nat, uid: nat, gid: nat, size: nat, mtime: nat, flag: Byte, link: Bytes, user: Bytes,
    group: Bytes, tail: Bytes)

  datatype Numbers = Numbers(mode: nat, uid: nat, gid: nat, size: nat, mtime: nat, checksum: nat)

  function ReadNumbers(h: Bytes): Option<Numbers>
    requires |h| == BLOCK
  {
    match (ReadOctal(h[100..108]), ReadOctal(h[108..116]), ReadOctal(h[116..124]), ReadOctal(h[124..136]),
           ReadOctal(h[136..148]), ReadOctal(h[148..156]))
    case (Some(mode), Some(uid), Some(gid), Some(size), Some(mtime), Some(checksum)) =>
      Some(Numbers(mode, uid, gid, size, mtime, checksum))
    case _ => None
  }

  function ReadHeader(h: Bytes): Option<HeaderInfo>
    requires |h| == BLOCK
  {
    match ReadNumbers(h)
    case None => None
    case Some(n) =>
      if h[257..263] == Chars("ustar\0") && h[263..265] == Chars("00")
         && n.checksum == Sum(h[..148]) + 8 * 32 + Sum(h[156..])
      then
        Some(HeaderInfo(UntilNul(h[..100]), n.mode, n.uid, n.gid, n.size, n.mtime, h[156], UntilNul(h[157..257]),
                        UntilNul(h[265..297]), UntilNul(h[297..329]), h[329..512]))
      else None
  }

  function IndexOf(b: Bytes, x: Byte): (r: Option<nat>)
    ensures r.Some? ==> r.value < |b| && b[r.value] == x
  {
    if b == [] then None
    else if b[0] == x then Some(0)
    else
      match IndexOf(b[1..], x)
      case None => None
      case Some(i) => Some(i + 1)
  }

  datatype RecordInfo = RecordInfo(key: Bytes, value: Bytes, width: nat)

  /** One `length key=value` record at the start of `b`. */
  function ReadRecord(b: Bytes): (r: Option<RecordInfo>)
    ensures r.Some? ==> 0 < r.value.width <= |b|
  {
    match IndexOf(b, ' ' as int as Byte)
    case None => None
    case Some(i) =>
      match ParseDigits(b[..i], Decimal)
      case None => None
      case Some(length) =>
        if !(i + 1 < length <= |b|) || b[length - 1] != '\n' as int as Byte then None
        else
          var body := b[i + 1..length - 1];
          match IndexOf(body, '=' as int as Byte)
          case None => None
          case Some(j) => Some(RecordInfo(body[..j], body[j + 1..], length))
  }

  function ReadAttributes(b: Bytes, attributes: map<Bytes, Bytes>): Option<map<Bytes, Bytes>>
    decreases |b|
  {
    if b == [] then Some(attributes)
    else
      match ReadRecord(b)
      case None => None
      case Some(r) => ReadAttributes(b[r.width..], attributes[r.key := r.value])
  }

  function MemberPath(text: Bytes, kind: Kind): Path {
    if kind.Directory? && text != [] && text[|text| - 1] == SLASH then Split(text[..|text| - 1]) else Split(text)
  }

  /** An extended header's records override the fields of the header that follows it. */
  function EffectiveSize(info: HeaderInfo, attributes: map<Bytes, Bytes>): Option<nat> {
    if Chars("size") in attributes then ParseDigits(attributes[Chars("size")], Decimal) else Some(info.size)
  }

  function EffectivePath(info: HeaderInfo, attributes: map<Bytes, Bytes>): Bytes {
    if Chars("path") in attributes then attributes[Chars("path")] else info.name
  }

  /**
   What a reader learns about one member: the entry itself, its header, the extended
   header in front of it and that header's records.
   */
  datatype Member = Member(
    entry: Entry, header: HeaderInfo, extended: Option<HeaderInfo>, attributes: map<Bytes, Bytes>)

  function ReadMembers(b: Bytes, attributes: map<Bytes, Bytes>, extended: Option<HeaderInfo>): Option<seq<Member>>
    decreases |b|
  {
    if b == Zeros(2 * BLOCK) then Some([])
    else if |b| < BLOCK then None
    else
      match ReadHeader(b[..BLOCK])
      case None => None
      case Some(info) =>
        var rest := b[BLOCK..];
        if info.flag == FLAG_EXTENDED then
          if |rest| < info.size + Padding(info.size) then None
          else
            match ReadAttributes(rest[..info.size], attributes)
            case None => None
            case Some(read) => ReadMembers(rest[info.size + Padding(info.size)..], read, Some(info))
        else if info.flag == FLAG_DIRECTORY then
          var entry := Entry(MemberPath(EffectivePath(info, attributes), Directory), Directory, []);
          Prepend(Member(entry, info, extended, attributes), ReadMembers(rest, map[], None))
        else if info.flag == FLAG_FILE then
          match EffectiveSize(info, attributes)
          case None => None
          case Some(size) =>
            if |rest| < size + Padding(size) then None
            else
              var entry := Entry(MemberPath(EffectivePath(info, attributes), File), File, rest[..size]);
              Prepend(Member(entry, info, extended, attributes),
                      ReadMembers(rest[size + Padding(size)..], map[], None))
        else None
  }

  function EntriesIn(members: seq<Member>): (entries: seq<Entry>)
    ensures |entries| == |members|
  {
    seq(|members|, i requires 0 <= i < |members| => members[i].entry)
  }

  /** The entries alone. */
  function ReadArchive(b: Bytes): Option<seq<Entry>> {
    match ReadMembers(b, map[], None)
    case None => None
    case Some(members) => Some(EntriesIn(members))
  }
}
