/** The rotating Hiview log file: its header, its cursors, and what a run of writes, reads and reopenings
    leaves in the file and in the place it is moved to when it is full. */
module LogFile {
  import opened Common
  import opened Wire

  type uint8 = byte

  /** sizeof(HiviewFileHeader), which is packed. */
  const HEADER_SIZE: nat := 27

  const HIVIEW_LOG_TEXT_FILE := 0
  const HIVIEW_LOG_BIN_FILE := 1
  const HIVIEW_DUMP_FILE := 2
  const HIVIEW_FAULT_EVENT_FILE := 3
  const HIVIEW_UE_EVENT_FILE := 4
  const HIVIEW_STAT_EVENT_FILE := 5

  const HIVIEW_FILE_HEADER_PREFIX_MASK: uint32 := 0x4856_5700
  const HIVIEW_FILE_HEADER_PREFIX_LOG: uint32 := 0x4856_5701
  const HIVIEW_FILE_HEADER_PREFIX_EVENT: uint32 := 0x4856_5702
  const HIVIEW_FILE_HEADER_PREFIX_TEXT: uint32 := 0x4856_5703
  const HIVIEW_FILE_HEADER_MAIN_VERSION: uint8 := 1
  const HIVIEW_FILE_HEADER_SUB_VERSION: uint8 := 10
  const HIVIEW_UE_EVENT_VER: uint32 := 991231100
  const HIVIEW_FAULT_EVENT_VER: uint32 := 991231000
  const HIVIEW_STATIC_EVENT_VER: uint32 := 991231000

  function Uint32(x: int): uint32 {
    x % 0x1_0000_0000
  }

  // ---------------------------------------------------------------- bytes of a header

  /** The four bytes of a number in the memory of a little-endian machine, and back. */
  function Le32(x: uint32): (b: Bytes)
    ensures |b| == 4
  {
    var high := x / 0x100;
    [x % 0x100, high % 0x100, high / 0x100 % 0x100, high / 0x100 / 0x100]
  }

  function Join(low: byte, high: nat): nat {
    low as int + 0x100 * high
  }

  lemma JoinSplits(low: byte, high: nat)
    ensures Join(low, high) % 0x100 == low && Join(low, high) / 0x100 == high
  {
  }

  function FromLe32(b: Bytes): uint32
    requires |b| == 4
  {
    Join(b[0], Join(b[1], Join(b[2], b[3])))
  }

  lemma Le32RoundTrip(x: uint32)
    ensures FromLe32(Le32(x)) == x
  {
  }

  lemma FromLe32RoundTrip(b: Bytes)
    requires |b| == 4
    ensures Le32(FromLe32(b)) == b
  {
    JoinSplits(b[2], b[3]);
    JoinSplits(b[1], Join(b[2], b[3]));
    JoinSplits(b[0], Join(b[1], Join(b[2], b[3])));
    hide Join;
  }

  function Swap32(x: uint32): uint32 {
    var b := Le32(x);
    FromLe32([b[3], b[2], b[1], b[0]])
  }

  /** Swapping the bytes a second time gives the number back. */
  lemma SwapTwice(x: uint32)
    ensures Swap32(Swap32(x)) == x
  {
    hide Le32, FromLe32;
    var b := Le32(x);
    FromLe32RoundTrip([b[3], b[2], b[1], b[0]]);
    assert b == [b[0], b[1], b[2], b[3]];
    Le32RoundTrip(x);
  }

  datatype Header = Header(
    prefix: uint32, fileType: uint8, codeMainVersion: uint8, codeSubVersion: uint8, defineFileVersion: uint32,
    createTime: uint32, wCursor: uint32, rCursor: uint32, size: uint32)

  function Swapped(h: Header): Header {
    h.(prefix := Swap32(h.prefix), defineFileVersion := Swap32(h.defineFileVersion),
       createTime := Swap32(h.createTime))
  }

  /** The header as it lies in memory. */
  function Image(h: Header): (b: Bytes)
    ensures |b| == HEADER_SIZE
  {
    Le32(h.prefix) + [h.fileType, h.codeMainVersion, h.codeSubVersion] + Le32(h.defineFileVersion)
    + Le32(h.createTime) + Le32(h.wCursor) + Le32(h.rCursor) + Le32(h.size)
  }

  function FromImage(b: Bytes): Header
    requires |b| == HEADER_SIZE
  {
    Header(FromLe32(b[..4]), b[4], b[5], b[6], FromLe32(b[7..11]), FromLe32(b[11..15]),
           FromLe32(b[15..19]), FromLe32(b[19..23]), FromLe32(b[23..]))
  }

  lemma ImageRoundTrip(h: Header)
    ensures FromImage(Image(h)) == h
  {
    hide Le32, FromLe32;
    var b := Image(h);
    assert b[..4] == Le32(h.prefix) && b[7..11] == Le32(h.defineFileVersion) && b[11..15] == Le32(h.createTime);
    assert b[15..19] == Le32(h.wCursor) && b[19..23] == Le32(h.rCursor) && b[23..] == Le32(h.size);
    Le32RoundTrip(h.prefix);
    Le32RoundTrip(h.defineFileVersion);
    Le32RoundTrip(h.createTime);
    Le32RoundTrip(h.wCursor);
    Le32RoundTrip(h.rCursor);
    Le32RoundTrip(h.size);
  }

  /** The header as WriteFileHeader writes it, and as ReadFileHeader reads it. */
  function OnDisk(h: Header): (b: Bytes)
    ensures |b| == HEADER_SIZE
  {
    Image(Swapped(h))
  }

  function FromDisk(b: Bytes): Header
    requires |b| == HEADER_SIZE
  {
    Swapped(FromImage(b))
  }

  lemma HeaderRoundTrip(h: Header)
    ensures FromDisk(OnDisk(h)) == h
  {
    hide Image, FromImage, Swap32;
    ImageRoundTrip(Swapped(h));
    SwapTwice(h.prefix);
    SwapTwice(h.defineFileVersion);
    SwapTwice(h.createTime);
  }

  /** A number as its four bytes, the most significant first. */
  predicate BigEndian(b: Bytes, x: uint32) {
    |b| == 4 && x == 0x100_0000 * (b[0] as int) + 0x1_0000 * (b[1] as int) + 0x100 * (b[2] as int) + b[3] as int
  }

  predicate LittleEndian(b: Bytes, x: uint32) {
    |b| == 4 && x == b[0] as int + 0x100 * (b[1] as int) + 0x1_0000 * (b[2] as int) + 0x100_0000 * (b[3] as int)
  }

  lemma Le32Bytes(x: uint32)
    ensures LittleEndian(Le32(x), x) && BigEndian(Le32(Swap32(x)), x)
  {
    var b := Le32(x);
    Le32RoundTrip(x);
    FromLe32RoundTrip([b[3], b[2], b[1], b[0]]);
    hide Le32;
  }

  /** The header on disk, byte by byte: prefix, version and time with their most significant byte first, the
      cursors and the size with their least significant byte first. */
  lemma OnDiskBytes(h: Header)
    ensures var b := OnDisk(h);
            && BigEndian(b[..4], h.prefix)
            && b[4] == h.fileType && b[5] == h.codeMainVersion && b[6] == h.codeSubVersion
            && BigEndian(b[7..11], h.defineFileVersion) && BigEndian(b[11..15], h.createTime)
            && LittleEndian(b[15..19], h.wCursor) && LittleEndian(b[19..23], h.rCursor)
            && LittleEndian(b[23..], h.size)
  {
    var b, s := OnDisk(h), Swapped(h);
    Le32Bytes(h.prefix);
    Le32Bytes(h.defineFileVersion);
    Le32Bytes(h.createTime);
    Le32Bytes(h.wCursor);
    Le32Bytes(h.rCursor);
    Le32Bytes(h.size);
    hide Le32, Swap32, BigEndian, LittleEndian;
    assert b[..4] == Le32(s.prefix) && b[7..11] == Le32(s.defineFileVersion) && b[11..15] == Le32(s.createTime);
    assert b[15..19] == Le32(s.wCursor) && b[19..23] == Le32(s.rCursor) && b[23..] == Le32(s.size);
  }

  // ---------------------------------------------------------------- opening

  function GetDefineFileVersion(fileType: uint8): uint32 {
    if fileType == HIVIEW_UE_EVENT_FILE then HIVIEW_UE_EVENT_VER
    else if fileType == HIVIEW_STAT_EVENT_FILE then HIVIEW_STATIC_EVENT_VER
    else if fileType == HIVIEW_FAULT_EVENT_FILE then HIVIEW_FAULT_EVENT_VER
    else 0
  }

  /** The prefix of a new file. A dump file keeps whatever the header in memory had. */
  function PrefixOf(fileType: uint8, before: uint32): uint32 {
    if fileType == HIVIEW_LOG_TEXT_FILE then HIVIEW_FILE_HEADER_PREFIX_TEXT
    else if fileType == HIVIEW_LOG_BIN_FILE then HIVIEW_FILE_HEADER_PREFIX_LOG
    else if fileType in {HIVIEW_FAULT_EVENT_FILE, HIVIEW_UE_EVENT_FILE, HIVIEW_STAT_EVENT_FILE}
    then HIVIEW_FILE_HEADER_PREFIX_EVENT
    else before
  }

  predicate KnownPrefix(prefix: uint32) {
    prefix / 0x100 == HIVIEW_FILE_HEADER_PREFIX_MASK / 0x100
  }

  /** The file starts with a header of this code. The size of the file is taken as a 32-bit number. */
  predicate Recognised(file: Bytes) {
    |file| >= HEADER_SIZE && KnownPrefix(FromDisk(file[..HEADER_SIZE]).prefix) && Uint32(|file|) >= HEADER_SIZE
  }

  /** The file with `data` put in at `pos`; a gap is filled with zeros. */
  function Overwrite(file: Bytes, pos: nat, data: Bytes): Bytes {
    var f := if |file| < pos then file + seq(pos - |file|, _ => 0) else file;
    f[..pos] + data + if pos + |data| < |f| then f[pos + |data|..] else []
  }

  lemma BigEndianUnique(b: Bytes, x: uint32)
    requires BigEndian(b, x)
    ensures x / 0x100 == 0x1_0000 * (b[0] as int) + 0x100 * (b[1] as int) + b[2] as int
  {
  }

  lemma Letters(a: byte, b: byte, c: byte)
    ensures 0x1_0000 * (a as int) + 0x100 * (b as int) + c as int == 0x48_5657 <==> a == 0x48 && b == 0x56 && c == 0x57
  {
  }

  /** A file is recognised by the letters HVW at its start. */
  lemma RecognisedIff(file: Bytes)
    ensures Recognised(file) <==>
            && |file| >= 27 && |file| % 0x1_0000_0000 >= 27
            && file[0] == 0x48 && file[1] == 0x56 && file[2] == 0x57
  {
    if |file| >= HEADER_SIZE {
      var b := file[..HEADER_SIZE];
      var prefix := FromDisk(b).prefix;
      PrefixRead(b);
      BigEndianUnique(b[..4], prefix);
      Letters(b[0], b[1], b[2]);
      hide FromDisk, BigEndian;
    }
  }

  lemma PrefixRead(b: Bytes)
    requires |b| == HEADER_SIZE
    ensures BigEndian(b[..4], FromDisk(b).prefix)
  {
    SwappedRead(b[..4]);
    hide Swap32, FromLe32, BigEndian;
  }

  /** Only the bytes that are written are different; the file grows when they go beyond its end, and a gap is
      filled with zeros. */
  lemma OverwriteBytes(file: Bytes, pos: nat, data: Bytes)
    ensures var r, end := Overwrite(file, pos, data), pos + |data|;
            && |r| == (if end > |file| then end else |file|)
            && r[pos..end] == data
            && (forall k :: 0 <= k < |r| && !(pos <= k < end) ==> r[k] == if k < |file| then file[k] else 0)
  {
  }

  function Current(h: Header): Header {
    h.(codeMainVersion := HIVIEW_FILE_HEADER_MAIN_VERSION, codeSubVersion := HIVIEW_FILE_HEADER_SUB_VERSION,
       defineFileVersion := GetDefineFileVersion(h.fileType))
  }

  /** The header of a file that is not recognised. */
  function NewHeader(before: Header, fileType: uint8, size: uint32, now: uint32): Header {
    Header(PrefixOf(fileType, before.prefix), fileType, HIVIEW_FILE_HEADER_MAIN_VERSION,
           HIVIEW_FILE_HEADER_SUB_VERSION, GetDefineFileVersion(fileType), now, HEADER_SIZE, HEADER_SIZE,
           Uint32(size + HEADER_SIZE))
  }

  /** What InitHiviewFile makes of the header in memory and of the file. */
  function Opened(before: Header, fileType: uint8, size: uint32, now: uint32, file: Bytes): (Header, Bytes) {
    if Recognised(file) then
      (Current(FromDisk(file[..HEADER_SIZE]).(wCursor := Uint32(|file|), rCursor := HEADER_SIZE)), file)
    else
      var h := NewHeader(before, fileType, size, now);
      (h, Overwrite(file, 0, OnDisk(h)))
  }

  /** The first eleven bytes of a new file: the letters, the kind of the prefix, the type and the versions. */
  function FirstBytes(fileType: uint8): Bytes
    requires fileType <= 5 && fileType != 2
  {
    [0x48, 0x56, 0x57] +
    match fileType
    case 0 => [3, 0, 1, 10, 0, 0, 0, 0]
    case 1 => [1, 1, 1, 10, 0, 0, 0, 0]
    case 3 => [2, 3, 1, 10, 0x3B, 0x14, 0xFC, 0x18]
    case 4 => [2, 4, 1, 10, 0x3B, 0x14, 0xFC, 0x7C]
    case _ => [2, 5, 1, 10, 0x3B, 0x14, 0xFC, 0x18]
  }

  lemma BigEndianSame(b: Bytes, c: Bytes, x: uint32)
    requires BigEndian(b, x) && BigEndian(c, x)
    ensures b == c
  {
    FromLe32RoundTrip([b[3], b[2], b[1], b[0]]);
    FromLe32RoundTrip([c[3], c[2], c[1], c[0]]);
    assert FromLe32([b[3], b[2], b[1], b[0]]) == x == FromLe32([c[3], c[2], c[1], c[0]]);
    hide Le32, FromLe32;
    assert [b[3], b[2], b[1], b[0]] == [c[3], c[2], c[1], c[0]];
    assert b == [b[0], b[1], b[2], b[3]] && c == [c[0], c[1], c[2], c[3]];
  }

  lemma NewNumbers(before: Header, fileType: uint8)
    requires fileType <= 5 && fileType != 2
    ensures |FirstBytes(fileType)| == 11
    ensures BigEndian(FirstBytes(fileType)[..4], PrefixOf(fileType, before.prefix))
    ensures BigEndian(FirstBytes(fileType)[7..], GetDefineFileVersion(fileType))
  {
  }

  lemma NewHeaderBytes(before: Header, fileType: uint8, size: uint32, now: uint32)
    requires fileType <= 5 && fileType != 2
    ensures OnDisk(NewHeader(before, fileType, size, now))[..11] == FirstBytes(fileType)
  {
    var h := NewHeader(before, fileType, size, now);
    var b, first := OnDisk(h), FirstBytes(fileType);
    OnDiskBytes(h);
    NewNumbers(before, fileType);
    hide Uint32, PrefixOf, GetDefineFileVersion, OnDisk;
    BigEndianSame(b[..4], first[..4], h.prefix);
    BigEndianSame(b[7..11], first[7..], h.defineFileVersion);
    assert b[4] == first[4] && b[5] == first[5] && b[6] == first[6];
    hide NewHeader, FirstBytes, BigEndian;
    assert b[..11] == b[..4] + [b[4], b[5], b[6]] + b[7..11];
    assert first == first[..4] + [first[4], first[5], first[6]] + first[7..];
  }

  /** Opening a file that is not recognised gives it a new header and leaves what is behind the header. */
  lemma OpenForeign(before: Header, fileType: uint8, size: uint32, now: uint32, file: Bytes)
    requires !Recognised(file)
    ensures var (h, after) := Opened(before, fileType, size, now, file);
            && h.wCursor == 27 && h.rCursor == 27 && h.createTime == now && h.fileType == fileType
            && h.size == (size + 27) % 0x1_0000_0000
            && after[..27] == OnDisk(h)
            && after[27..] == if |file| > 27 then file[27..] else []
  {
    hide OnDisk;
    var h := NewHeader(before, fileType, size, now);
    OverwriteBytes(file, 0, OnDisk(h));
  }

  /** Opening a file that is recognised leaves it as it is and takes its prefix, type, time and size over,
      whatever the caller says; the versions are those of this code, whatever the file says, and the cursors
      stand at the end of the file and at the start of its body. */
  lemma OpenKnown(before: Header, fileType: uint8, size: uint32, now: uint32, file: Bytes)
    requires Recognised(file)
    ensures var (h, after) := Opened(before, fileType, size, now, file);
            && after == file
            && BigEndian(file[..4], h.prefix) && h.fileType == file[4]
            && BigEndian(file[11..15], h.createTime) && LittleEndian(file[23..27], h.size)
            && h.codeMainVersion == 1 && h.codeSubVersion == 10
            && h.defineFileVersion == (match file[4]
                                       case 3 => 991231000
                                       case 4 => 991231100
                                       case 5 => 991231000
                                       case _ => 0)
            && h.wCursor == |file| % 0x1_0000_0000 && h.rCursor == 27
  {
    var b := file[..HEADER_SIZE];
    FieldsRead(b);
    hide FromDisk, BigEndian, LittleEndian;
    assert b[..4] == file[..4] && b[11..15] == file[11..15] && b[23..] == file[23..27];
  }

  lemma FieldsRead(b: Bytes)
    requires |b| == HEADER_SIZE
    ensures var h := FromDisk(b);
            && BigEndian(b[..4], h.prefix) && h.fileType == b[4]
            && BigEndian(b[11..15], h.createTime) && LittleEndian(b[23..], h.size)
  {
    SwappedRead(b[..4]);
    SwappedRead(b[11..15]);
    hide Swap32, BigEndian;
  }

  lemma SwappedRead(b: Bytes)
    requires |b| == 4
    ensures BigEndian(b, Swap32(FromLe32(b)))
  {
    var x := FromLe32(b);
    FromLe32RoundTrip(b);
    Le32Bytes(Swap32(x));
    SwapTwice(x);
    hide Le32, Swap32, FromLe32, BigEndian;
  }

  // ---------------------------------------------------------------- writing and reading

  /** The header in memory, the file, and the file at the place where a full one is moved. */
  datatype Log = Log(header: Header, file: Bytes, out: Option<Bytes>)

  predicate Overflows(h: Header, len: nat, max: uint32) {
    Uint32(h.wCursor + len) > h.size || Uint32(h.wCursor + len) > max
  }

  /** The full file is moved, and a new one of the same kind is started. */
  function Rotate(l: Log, now: uint32): Log {
    var (h, file) := Opened(l.header, l.header.fileType, Uint32(l.header.size - HEADER_SIZE), now, []);
    Log(h, file, Some(l.file))
  }

  function Append(l: Log, data: Bytes): Log {
    l.(header := l.header.(wCursor := Uint32(l.header.wCursor + |data|)),
       file := Overwrite(l.file, l.header.wCursor, data))
  }

  /** WriteToFile, when the file operations succeed. After a rotation the length is not checked again. */
  function Write(l: Log, data: Bytes, max: uint32, now: uint32): Log {
    if data == [] then l
    else Append(if Overflows(l.header, |data|, max) then Rotate(l, now) else l, data)
  }

  /** What ReadFromFile returns when the file operations succeed. The length asked for is compared with
      the write cursor, which counts the header in. */
  function ReadLength(h: Header, n: nat): nat
    requires h.rCursor <= h.wCursor
  {
    if n == 0 || h.wCursor < n then 0
    else if n <= h.wCursor - h.rCursor then n else h.wCursor - h.rCursor
  }

  function Read(l: Log, n: nat): (Log, Bytes)
    requires l.header.rCursor <= l.header.wCursor <= |l.file|
  {
    var r, len := l.header.rCursor, ReadLength(l.header, n);
    (l.(header := l.header.(rCursor := r + len)), l.file[r..r + len])
  }
}
