/**
 * Decoder for Source-engine "VBSP" map files (src/bsp.rs).
 *
 * The file starts with a fixed header: the magic "VBSP", a version, a
 * directory of 64 lump records of 16 bytes each and an iteration counter,
 * 0x40C bytes in all. Lump 0 holds the entity text, plain or behind an
 * "LZMA" header; lump 40 holds an embedded archive made of ZIP local file
 * headers (STORE or LZMA entries). Every other lump is kept as its directory
 * record only.
 *
 * The spec functions (Decode and the functions it calls) state what the
 * decoder computes; ParseMap, ReadPakFiles and SortByOffset are the
 * step-by-step versions with loops, proved equal to them.
 */
module Bsp {
  import opened Wrappers
  import opened Bytes
  import opened Blacklist

  /** "VBSP" read as a little-endian u32. */
  const MAGIC: u32 := 0x5053_4256
  /** Magic, version, 64 directory records and the iteration counter. */
  const HEADER_LEN: nat := 0x40C
  const ITERATION_AT: nat := 0x408
  const LUMP_COUNT: nat := 64
  const ENTITIES: nat := 0
  const PAKFILE: nat := 40
  /** "LZMA", the marker of a compressed entity lump. */
  const LZMA_MAGIC: seq<byte> := [0x4C, 0x5A, 0x4D, 0x41]
  /** "LZMA" marker, u32 unpacked size, u32 packed size. */
  const LZMA_HEADER_LEN: nat := 12
  /** "PK\x03\x04", the signature of a ZIP local file header. */
  const LOCAL_HEADER_SIG: seq<byte> := [0x50, 0x4B, 0x03, 0x04]
  /** "PK\x01\x02", the signature of a ZIP central directory header. */
  const CENTRAL_DIR_SIG: seq<byte> := [0x50, 0x4B, 0x01, 0x02]
  const LOCAL_HEADER_LEN: nat := 30
  /** ZIP compression method 14. */
  const METHOD_LZMA: byte := 0x0E
  /** Version and properties-size fields in front of an LZMA entry's stream. */
  const LZMA_ENTRY_PREFIX: nat := 4

  /**
   * Decoding errors. The first three are the source's `BSPError`. The last two
   * stand for what the source does not report as an error: OutOfBounds where
   * it indexes or slices past the buffer (a panic, or an unchecked memory
   * read), EntityDecompressFailed where it unwraps a failed decompression of
   * the entity lump.
   */
  datatype BspError =
    | InvalidHeader(magic: u32)
    | InvalidVersion(version: u32)
    | InvalidPakFile(at: u32)
    | OutOfBounds
    | EntityDecompressFailed

  datatype BasicLump = BasicLump(offset: u32, size: u32, version: u32, four: u32)

  datatype EntityLump = EntityLump(base: BasicLump, text: seq<byte>)

  datatype PakAlgo = Store | Lzma(compressed: u32, decompressed: u32)

  /** A byte range (offset, length) inside the archive lump's own window. */
  datatype Span = Span(start: nat, len: nat)

  /**
   * One archive entry. `realData` holds the decompressed bytes of an LZMA
   * entry; `remove` marks the entry for removal on save; `blacklisted` is set
   * by the blacklist pass of the map window.
   */
  datatype PakFile = PakFile(
    name: Span,
    data: Span,
    realData: Option<seq<byte>>,
    algo: PakAlgo,
    remove: bool,
    blacklisted: Option<BlacklistReason>)

  datatype PakFileLump = PakFileLump(base: BasicLump, files: seq<PakFile>)

  datatype Lump = Entities(entities: EntityLump) | Pak(pak: PakFileLump) | Unknown(base: BasicLump) | Unset

  /** (lump index, directory offset). */
  type Placement = (nat, u32)

  datatype ParsedMap = ParsedMap(
    version: u32,
    iteration: u32,
    lumps: seq<Lump>,
    buf: seq<byte>,
    order: seq<Placement>)

  /** The LZMA decoder: a raw stream and the declared unpacked size in, the bytes or a failure out. */
  type LzmaDecoder = (seq<byte>, nat) -> Option<seq<byte>>

  predicate IsSupportedVersion(v: u32) {
    v == 19 || v == 20 || v == 21
  }

  // ---------------------------------------------------------------------
  // Accessors of an entry and of the archive lump
  // ---------------------------------------------------------------------

  predicate NameInBounds(e: PakFile, pak: seq<byte>) {
    e.name.start + e.name.len <= |pak|
  }

  predicate DataInBounds(e: PakFile, pak: seq<byte>) {
    e.realData.Some? || e.data.start + e.data.len <= |pak|
  }

  /** `PakFile::name`: the entry's name bytes inside the archive window. */
  function EntryName(e: PakFile, pak: seq<byte>): (r: seq<byte>)
    requires NameInBounds(e, pak)
    ensures |r| == e.name.len
    ensures forall k :: 0 <= k < |r| ==> r[k] == pak[e.name.start + k]
  {
    pak[e.name.start..e.name.start + e.name.len]
  }

  /** `PakFile::data`: the decompressed bytes of an LZMA entry, the stored bytes otherwise. */
  function EntryData(e: PakFile, pak: seq<byte>): (r: seq<byte>)
    requires DataInBounds(e, pak)
    ensures e.realData.Some? ==> r == e.realData.value
    ensures e.realData.None? ==> |r| == e.data.len && forall k :: 0 <= k < |r| ==> r[k] == pak[e.data.start + k]
  {
    match e.realData
    case Some(d) => d
    case None => pak[e.data.start..e.data.start + e.data.len]
  }

  predicate WindowInBuffer(base: BasicLump, buf: seq<byte>) {
    base.offset as nat + base.size as nat <= |buf|
  }

  /** `PakFileLump::data`: the bytes of a lump's window. */
  function LumpWindow(base: BasicLump, buf: seq<byte>): (r: seq<byte>)
    requires WindowInBuffer(base, buf)
    ensures |r| == base.size as nat
    ensures forall k :: 0 <= k < |r| ==> r[k] == buf[base.offset as nat + k]
  {
    buf[base.offset..base.offset as nat + base.size as nat]
  }

  // ---------------------------------------------------------------------
  // Header and directory
  // ---------------------------------------------------------------------

  /** Directory record `i`: four little-endian u32s at 8 + 16 * i. */
  function ReadLump(buf: seq<byte>, i: nat): BasicLump
    requires i < LUMP_COUNT && HEADER_LEN <= |buf|
  {
    var at := 8 + 16 * i;
    BasicLump(LeU32(buf, at), LeU32(buf, at + 4), LeU32(buf, at + 8), LeU32(buf, at + 12))
  }

  /** The 64 (index, offset) pairs in index order, before sorting. */
  function Placements(buf: seq<byte>): (r: seq<Placement>)
    requires HEADER_LEN <= |buf|
    ensures |r| == LUMP_COUNT
    ensures forall i :: 0 <= i < |r| ==> r[i] == (i, ReadLump(buf, i).offset)
  {
    seq(LUMP_COUNT, i requires 0 <= i < LUMP_COUNT && HEADER_LEN <= |buf| => (i, ReadLump(buf, i).offset))
  }

  // ---------------------------------------------------------------------
  // Lump 0: entity text
  // ---------------------------------------------------------------------

  /**
   * The entity text of lump 0. Behind the "LZMA" marker, the unpacked size
   * is the u32 at offset + 4 and the stream is bytes [offset + 12, offset +
   * size); the packed size at offset + 8 is read by the source for a debug
   * message only. Otherwise the text is the window without its last byte
   * when that byte is 0.
   */
  function EntityText(buf: seq<byte>, base: BasicLump, lzma: LzmaDecoder): Result<seq<byte>, BspError> {
    var off := base.offset as nat;
    var size := base.size as nat;
    if off + 4 > |buf| then Failure(OutOfBounds)
    else if buf[off..off + 4] == LZMA_MAGIC then
      if size < LZMA_HEADER_LEN || off + size > |buf| then Failure(OutOfBounds)
      else
        match lzma(buf[off + LZMA_HEADER_LEN..off + size], LeU32(buf, off + 4))
        case None => Failure(EntityDecompressFailed)
        case Some(text) => Success(text)
    else if off + size == 0 || off + size - 1 >= |buf| then Failure(OutOfBounds)
    else
      var delta := if buf[off + size - 1] == 0 then 1 else 0;
      if off + size - delta < off then Failure(OutOfBounds)
      else Success(buf[off..off + size - delta])
  }

  // ---------------------------------------------------------------------
  // Lump 40: the embedded archive
  // ---------------------------------------------------------------------

  /** What the walk promises of every entry it produces. */
  predicate FreshEntry(e: PakFile, file: seq<byte>) {
    && !e.remove
    && e.blacklisted.None?
    && (e.realData.Some? <==> e.algo.Lzma?)
    && (e.algo.Lzma? ==> e.data.start + e.data.len <= |file| && e.data.len == e.algo.compressed as nat)
  }

  /** What one local header at the cursor yields. */
  datatype Step = Next(entry: PakFile, next: nat) | EndOfEntries | Malformed(error: BspError)

  /**
   * The entry whose 30-byte local header starts at `pos`, and where the
   * cursor goes next: a STORE or an LZMA entry behind a local file header
   * signature, the end of the entries at a central directory signature.
   */
  function EntryAt(file: seq<byte>, pos: nat, lzma: LzmaDecoder): (r: Step)
    requires pos < |file| < U32_LIMIT
    ensures r.Next? ==> pos + LOCAL_HEADER_LEN <= |file| && pos + LOCAL_HEADER_LEN <= r.next && FreshEntry(r.entry, file)
    ensures r.Next? ==> r.entry.name == Span(pos + LOCAL_HEADER_LEN, LeU16(file, pos + 26))
    ensures r.Next? ==> r.next == r.entry.data.start + r.entry.data.len
    ensures r.Next? && r.entry.algo.Store? ==>
              r.entry.data == Span(pos + LOCAL_HEADER_LEN + LeU16(file, pos + 26) + LeU16(file, pos + 28), LeU32(file, pos + 22))
    ensures r.Next? && r.entry.algo.Lzma? ==>
              && r.entry.data == Span(pos + LOCAL_HEADER_LEN + LeU16(file, pos + 26), LeU32(file, pos + 18))
              && r.entry.algo == Lzma(LeU32(file, pos + 18), LeU32(file, pos + 22))
              && r.entry.realData == LzmaStream(file, pos, lzma)
    ensures r.Malformed? ==> r.error.InvalidPakFile? || r.error.OutOfBounds?
  {
    if pos + LOCAL_HEADER_LEN > |file| then Malformed(OutOfBounds)
    else if file[pos..pos + 4] == LOCAL_HEADER_SIG then
      if file[pos + 8] == 0 && file[pos + 9] == 0 then StoreEntryAt(file, pos)
      else if file[pos + 8] == METHOD_LZMA && file[pos + 9] == 0 then LzmaEntryAt(file, pos, lzma)
      else Malformed(InvalidPakFile(pos + 8))
    else if file[pos..pos + 4] == CENTRAL_DIR_SIG then EndOfEntries
    else Malformed(InvalidPakFile(pos))
  }

  /** A STORE entry: its name, its extra field and its data follow the header. */
  function StoreEntryAt(file: seq<byte>, pos: nat): (r: Step)
    requires pos + LOCAL_HEADER_LEN <= |file|
    ensures r.Next? && pos + LOCAL_HEADER_LEN <= r.next && FreshEntry(r.entry, file)
    ensures r.entry.algo == Store && r.entry.realData.None?
    ensures r.entry.name == Span(pos + LOCAL_HEADER_LEN, LeU16(file, pos + 26))
    ensures r.entry.data.start == r.entry.name.start + r.entry.name.len + LeU16(file, pos + 28)
    ensures r.entry.data.len == LeU32(file, pos + 22)
    ensures r.next == r.entry.data.start + r.entry.data.len
  {
    var nameLen := LeU16(file, pos + 26);
    var extraLen := LeU16(file, pos + 28);
    var dataSize := LeU32(file, pos + 22);
    var dataStart := pos + LOCAL_HEADER_LEN + nameLen + extraLen;
    Next(PakFile(Span(pos + LOCAL_HEADER_LEN, nameLen), Span(dataStart, dataSize), None, Store, false, None),
         dataStart + dataSize)
  }

  /**
   * What the decoder makes of an LZMA entry's data: the packed bytes after
   * the 4-byte version and properties-size prefix, with the size at offset 22
   * of the header as the unpacked size; None when they do not fit the window.
   */
  function LzmaStream(file: seq<byte>, pos: nat, lzma: LzmaDecoder): Option<seq<byte>>
    requires pos + LOCAL_HEADER_LEN <= |file|
  {
    var dataStart := pos + LOCAL_HEADER_LEN + LeU16(file, pos + 26);
    var compressed := LeU32(file, pos + 18) as nat;
    if compressed < LZMA_ENTRY_PREFIX || dataStart + compressed > |file| then None
    else lzma(file[dataStart + LZMA_ENTRY_PREFIX..dataStart + compressed], LeU32(file, pos + 22))
  }

  /**
   * An LZMA entry, which may not have an extra field: its name and its packed
   * data follow the header, and the data is decompressed on the spot.
   */
  function LzmaEntryAt(file: seq<byte>, pos: nat, lzma: LzmaDecoder): (r: Step)
    requires pos + LOCAL_HEADER_LEN <= |file| < U32_LIMIT
    ensures r.Next? ==> pos + LOCAL_HEADER_LEN <= r.next && FreshEntry(r.entry, file)
    ensures !r.EndOfEntries?
    ensures r.Malformed? ==> r.error.InvalidPakFile? || r.error.OutOfBounds?
    ensures r.Next? <==>
              && LeU16(file, pos + 28) == 0
              && LZMA_ENTRY_PREFIX <= LeU32(file, pos + 18) as nat
              && pos + LOCAL_HEADER_LEN + LeU16(file, pos + 26) + LeU32(file, pos + 18) as nat <= |file|
              && LzmaStream(file, pos, lzma).Some?
    ensures r.Next? ==>
              && r.entry.name == Span(pos + LOCAL_HEADER_LEN, LeU16(file, pos + 26))
              && r.entry.data == Span(r.entry.name.start + r.entry.name.len, LeU32(file, pos + 18))
              && r.entry.algo == Lzma(LeU32(file, pos + 18), LeU32(file, pos + 22))
              && r.entry.realData == LzmaStream(file, pos, lzma)
              && r.next == r.entry.data.start + r.entry.data.len
  {
    var nameLen := LeU16(file, pos + 26);
    if LeU16(file, pos + 28) != 0 then Malformed(InvalidPakFile(pos + 28))
    else
      var compressed := LeU32(file, pos + 18);
      var decompressed := LeU32(file, pos + 22);
      var dataStart := pos + LOCAL_HEADER_LEN + nameLen;
      if compressed < LZMA_ENTRY_PREFIX || dataStart + compressed > |file| then Malformed(OutOfBounds)
      else
        match lzma(file[dataStart + LZMA_ENTRY_PREFIX..dataStart + compressed], decompressed)
        case None => Malformed(InvalidPakFile(dataStart))
        case Some(unpacked) =>
          Next(PakFile(Span(pos + LOCAL_HEADER_LEN, nameLen), Span(dataStart, compressed),
                       Some(unpacked), Lzma(compressed, decompressed), false, None),
               dataStart + compressed)
  }

  /**
   * The archive walk from cursor `pos`: one local header after another while
   * the cursor is inside the window, up to a central directory header.
   */
  function WalkPak(file: seq<byte>, pos: nat, lzma: LzmaDecoder): (r: Result<seq<PakFile>, BspError>)
    requires |file| < U32_LIMIT
    ensures r.Success? ==> forall e :: e in r.value ==> FreshEntry(e, file)
    ensures r.Failure? ==> r.error.InvalidPakFile? || r.error.OutOfBounds?
    decreases |file| - pos
  {
    if pos >= |file| then Success([])
    else
      match EntryAt(file, pos, lzma)
      case EndOfEntries => Success([])
      case Malformed(e) => Failure(e)
      case Next(entry, next) =>
        var rest :- WalkPak(file, next, lzma);
        Success([entry] + rest)
  }

  /** The entries of the archive lump described by `base`. */
  function PakFiles(buf: seq<byte>, base: BasicLump, lzma: LzmaDecoder): Result<seq<PakFile>, BspError> {
    if !WindowInBuffer(base, buf) then Failure(OutOfBounds)
    else WalkPak(LumpWindow(base, buf), 0, lzma)
  }

  // ---------------------------------------------------------------------
  // Physical order of the lumps
  // ---------------------------------------------------------------------

  /** Inserts `p` after every element whose offset is at most its own. */
  function InsertByOffset(p: Placement, s: seq<Placement>): (r: seq<Placement>)
    ensures |r| == |s| + 1
  {
    if s == [] then [p]
    else if p.1 < s[0].1 then [p] + s
    else [s[0]] + InsertByOffset(p, s[1..])
  }

  /** A stable sort by offset (Rust's `sort_by_key`), as insertion in input order. */
  function SortedByOffset(s: seq<Placement>): (r: seq<Placement>)
    ensures |r| == |s|
  {
    if s == [] then [] else InsertByOffset(s[|s| - 1], SortedByOffset(s[..|s| - 1]))
  }

  // ---------------------------------------------------------------------
  // The whole map
  // ---------------------------------------------------------------------

  /** Lump `i` as the decoder builds it from its directory record. */
  function DecodeLump(buf: seq<byte>, i: nat, lzma: LzmaDecoder): Result<Lump, BspError>
    requires i < LUMP_COUNT && HEADER_LEN <= |buf|
  {
    var base := ReadLump(buf, i);
    if i == ENTITIES then
      var text :- EntityText(buf, base, lzma);
      Success(Entities(EntityLump(base, text)))
    else if i == PAKFILE then
      var files :- PakFiles(buf, base, lzma);
      Success(Pak(PakFileLump(base, files)))
    else Success(Unknown(base))
  }

  function AllLumps(buf: seq<byte>, entities: Lump, pak: Lump): (r: seq<Lump>)
    requires HEADER_LEN <= |buf|
    ensures |r| == LUMP_COUNT
  {
    seq(LUMP_COUNT, i requires 0 <= i < LUMP_COUNT && HEADER_LEN <= |buf| =>
      if i == ENTITIES then entities else if i == PAKFILE then pak else Unknown(ReadLump(buf, i)))
  }

  /** `ParsedMap::new`: header checks, directory, lumps 0 and 40, iteration and order. */
  function Decode(buf: seq<byte>, lzma: LzmaDecoder): Result<ParsedMap, BspError> {
    if |buf| < 4 then Failure(OutOfBounds)
    else if LeU32(buf, 0) != MAGIC then Failure(InvalidHeader(LeU32(buf, 0)))
    else if |buf| < 8 then Failure(OutOfBounds)
    else if !IsSupportedVersion(LeU32(buf, 4)) then Failure(InvalidVersion(LeU32(buf, 4)))
    else if |buf| < HEADER_LEN then Failure(OutOfBounds)
    else
      var lumps :- LumpsOf(buf, lzma);
      Success(ParsedMap(LeU32(buf, 4), LeU32(buf, ITERATION_AT), lumps, buf, SortedByOffset(Placements(buf))))
  }

  /** `order` lists every lump index below 64 exactly once. */
  predicate IsLumpOrder(order: seq<Placement>) {
    && |order| == LUMP_COUNT
    && (forall k :: 0 <= k < |order| ==> order[k].0 < LUMP_COUNT)
    && (forall k, l :: 0 <= k < l < |order| ==> order[k].0 != order[l].0)
  }

  /** The shape of every map `Decode` accepts. */
  predicate WellFormed(m: ParsedMap) {
    && |m.lumps| == LUMP_COUNT
    && m.lumps[ENTITIES].Entities?
    && m.lumps[PAKFILE].Pak?
    && (forall i :: 0 <= i < LUMP_COUNT && i != ENTITIES && i != PAKFILE ==> m.lumps[i].Unknown?)
    && WindowInBuffer(m.lumps[ENTITIES].entities.base, m.buf)
    && WindowInBuffer(m.lumps[PAKFILE].pak.base, m.buf)
    && IsLumpOrder(m.order)
  }

  // ---------------------------------------------------------------------
  // The decoder as the source runs it
  // ---------------------------------------------------------------------

  function Prepend(files: seq<PakFile>, r: Result<seq<PakFile>, BspError>): Result<seq<PakFile>, BspError> {
    match r
    case Success(rest) => Success(files + rest)
    case Failure(e) => Failure(e)
  }

  /** The archive walk with a moving cursor and a growing entry list. */
  method ReadPakFiles(file: seq<byte>, lzma: LzmaDecoder) returns (r: Result<seq<PakFile>, BspError>)
    requires |file| < U32_LIMIT
    ensures r == WalkPak(file, 0, lzma)
  {
    var position: nat := 0;
    var files: seq<PakFile> := [];
    PrependAppend([], [], WalkPak(file, 0, lzma));
    while position < |file|
      invariant WalkPak(file, 0, lzma) == Prepend(files, WalkPak(file, position, lzma))
      decreases |file| - position
    {
      var step := ReadEntry(file, position, lzma);
      match step {
        case EndOfEntries =>
          break;
        case Malformed(e) =>
          return Failure(e);
        case Next(entry, next) =>
          PrependAppend(files, [entry], WalkPak(file, next, lzma));
          files := files + [entry];
          position := next;
      }
    }
    assert files + [] == files;
    return Success(files);
  }

  /** Putting `a` and then `b` in front of a walk's result is putting `a + b` in front of it. */
  lemma PrependAppend(a: seq<PakFile>, b: seq<PakFile>, r: Result<seq<PakFile>, BspError>)
    ensures Prepend(a, Prepend(b, r)) == Prepend(a + b, r)
    ensures Prepend([], r) == r
  {
    if r.Success? {
      assert a + (b + r.value) == (a + b) + r.value;
      assert [] + r.value == r.value;
    }
  }

  /** One iteration of the walk: reads the local header at `headerPos` and advances past the entry. */
  method ReadEntry(file: seq<byte>, headerPos: nat, lzma: LzmaDecoder) returns (step: Step)
    requires headerPos < |file| < U32_LIMIT
    ensures step == EntryAt(file, headerPos, lzma)
  {
    if headerPos + LOCAL_HEADER_LEN > |file| {
      return Malformed(OutOfBounds);
    }
    var header := file[headerPos..headerPos + LOCAL_HEADER_LEN];
    assert header[..4] == file[headerPos..headerPos + 4];
    if header[..4] == LOCAL_HEADER_SIG {
      if header[8] != 0 || header[9] != 0 {
        if header[8] == METHOD_LZMA && header[9] == 0 {
          step := ReadLzmaEntry(file, headerPos, lzma);
        } else {
          step := Malformed(InvalidPakFile(headerPos + 8));
        }
      } else {
        var dataSize := LeU32(header, 22);
        var nameSize := LeU16(header, 26);
        var extraSize := LeU16(header, 28);
        assert dataSize == LeU32(file, headerPos + 22);
        assert nameSize == LeU16(file, headerPos + 26);
        assert extraSize == LeU16(file, headerPos + 28);
        var position := headerPos + LOCAL_HEADER_LEN;
        var name := Span(position, nameSize);
        position := position + nameSize + extraSize;
        var data := Span(position, dataSize);
        step := Next(PakFile(name, data, None, Store, false, None), position + dataSize);
      }
    } else if header[..4] == CENTRAL_DIR_SIG {
      step := EndOfEntries;
    } else {
      step := Malformed(InvalidPakFile(headerPos));
    }
  }

  /** The LZMA branch of one iteration: an entry with method 14 at `headerPos`. */
  method ReadLzmaEntry(file: seq<byte>, headerPos: nat, lzma: LzmaDecoder) returns (step: Step)
    requires headerPos + LOCAL_HEADER_LEN <= |file| < U32_LIMIT
    ensures step == LzmaEntryAt(file, headerPos, lzma)
  {
    var header := file[headerPos..headerPos + LOCAL_HEADER_LEN];
    var compressedSize := LeU32(header, 18);
    var dataSize := LeU32(header, 22);
    var nameSize := LeU16(header, 26);
    var extraSize := LeU16(header, 28);
    assert compressedSize == LeU32(file, headerPos + 18);
    assert dataSize == LeU32(file, headerPos + 22);
    assert nameSize == LeU16(file, headerPos + 26);
    assert extraSize == LeU16(file, headerPos + 28);
    if extraSize != 0 {
      return Malformed(InvalidPakFile(headerPos + 28));
    }
    var position := headerPos + LOCAL_HEADER_LEN;
    var name := Span(position, nameSize);
    position := position + nameSize + extraSize;
    var compressedData := Span(position, compressedSize);
    if compressedSize < LZMA_ENTRY_PREFIX || position + compressedSize > |file| {
      return Malformed(OutOfBounds);
    }
    var realData := lzma(file[position + LZMA_ENTRY_PREFIX..position + compressedSize], dataSize);
    if realData.None? {
      return Malformed(InvalidPakFile(position));
    }
    step := Next(PakFile(name, compressedData, realData, Lzma(compressedSize, dataSize), false, None),
                 position + compressedSize);
  }

  /** Stable in-place insertion sort of the placements by offset. */
  method SortByOffset(a: array<Placement>)
    modifies a
    ensures a[..] == SortedByOffset(old(a[..]))
  {
    ghost var s := a[..];
    for i := 0 to a.Length
      invariant a[..i] == SortedByOffset(s[..i])
      invariant a[i..] == s[i..]
    {
      SortedByOffsetNondecreasing(s[..i]);
      assert a[i] == s[i];
      InsertLast(a, i);
      assert s[..i + 1][..i] == s[..i];
    }
    assert s[..a.Length] == s;
  }

  /** Moves `a[i]` left past every element of the sorted prefix with a larger offset. */
  method InsertLast(a: array<Placement>, i: nat)
    requires i < a.Length
    requires NondecreasingOffsets(a[..i])
    modifies a
    ensures a[..i + 1] == InsertByOffset(old(a[i]), old(a[..i]))
    ensures a[i + 1..] == old(a[i + 1..])
  {
    ghost var sorted := a[..i];
    ghost var rest := a[i + 1..];
    var x := a[i];
    var j := i;
    while j > 0 && a[j - 1].1 > x.1
      invariant 0 <= j <= i
      invariant a[..j] == sorted[..j]
      invariant a[j + 1..i + 1] == sorted[j..i]
      invariant a[i + 1..] == rest
      invariant forall m :: j <= m < i ==> sorted[m].1 > x.1
    {
      ghost var before := a[..];
      a[j] := a[j - 1];
      ShiftStep(before, a[..], sorted, rest, x, i, j);
      j := j - 1;
    }
    ghost var before := a[..];
    a[j] := x;
    Place(before, a[..], sorted, rest, x, i, j);
  }

  /** Moving the entry before the gap into the gap moves the gap down by one. */
  lemma ShiftStep(before: seq<Placement>, after: seq<Placement>, sorted: seq<Placement>, rest: seq<Placement>,
                  x: Placement, i: nat, j: nat)
    requires 0 < j <= i < |before| && |sorted| == i
    requires before[..j] == sorted[..j] && before[j + 1..i + 1] == sorted[j..i] && before[i + 1..] == rest
    requires before[j - 1].1 > x.1
    requires after == before[j := before[j - 1]]
    ensures after[..j - 1] == sorted[..j - 1] && after[j..i + 1] == sorted[j - 1..i] && after[i + 1..] == rest
    ensures sorted[j - 1].1 > x.1
  {
    assert before[j - 1] == sorted[j - 1] by {
      assert before[..j][j - 1] == sorted[..j][j - 1];
    }
    assert after[..j - 1] == before[..j][..j - 1];
    assert after[j + 1..i + 1] == before[j + 1..i + 1];
    assert after[j..i + 1] == [after[j]] + after[j + 1..i + 1];
    assert sorted[j - 1..i] == [sorted[j - 1]] + sorted[j..i];
  }

  /** Putting `x` into the gap leaves the insertion of `x` into `sorted` in front. */
  lemma Place(before: seq<Placement>, after: seq<Placement>, sorted: seq<Placement>, rest: seq<Placement>,
              x: Placement, i: nat, j: nat)
    requires j <= i < |before| && |sorted| == i
    requires before[..j] == sorted[..j] && before[j + 1..i + 1] == sorted[j..i] && before[i + 1..] == rest
    requires NondecreasingOffsets(sorted)
    requires j == 0 || before[j - 1].1 <= x.1
    requires forall m :: j <= m < i ==> sorted[m].1 > x.1
    requires after == before[j := x]
    ensures after[..i + 1] == InsertByOffset(x, sorted) && after[i + 1..] == rest
  {
    var t := after[..i + 1];
    assert t[..j] == before[..j];
    assert t[j + 1..] == before[j + 1..i + 1];
    if j > 0 {
      assert before[j - 1] == sorted[j - 1] by {
        assert before[..j][j - 1] == sorted[..j][j - 1];
      }
    }
    InsertedAt(t, sorted, x, j);
    assert after[i + 1..] == before[i + 1..];
  }

  /** The shape left by the shifting loop is the insertion of `x` into `sorted`. */
  lemma InsertedAt(t: seq<Placement>, sorted: seq<Placement>, x: Placement, j: nat)
    requires j <= |sorted| && |t| == |sorted| + 1
    requires t[..j] == sorted[..j] && t[j] == x && t[j + 1..] == sorted[j..]
    requires NondecreasingOffsets(sorted)
    requires j == 0 || sorted[j - 1].1 <= x.1
    requires forall m :: j <= m < |sorted| ==> sorted[m].1 > x.1
    ensures t == InsertByOffset(x, sorted)
  {
    InsertByOffsetSplit(x, sorted, j);
    assert t == t[..j] + [t[j]] + t[j + 1..];
  }

  /** Offsets never decrease along a sorted sequence. */
  predicate NondecreasingOffsets(s: seq<Placement>) {
    forall m, n :: 0 <= m < n < |s| ==> s[m].1 <= s[n].1
  }

  lemma {:induction false} InsertByOffsetNondecreasing(p: Placement, s: seq<Placement>)
    requires NondecreasingOffsets(s)
    ensures NondecreasingOffsets(InsertByOffset(p, s))
    ensures forall q :: q in InsertByOffset(p, s) <==> q == p || q in s
  {
    if s != [] && p.1 >= s[0].1 {
      InsertByOffsetNondecreasing(p, s[1..]);
      var r := InsertByOffset(p, s);
      assert r == [s[0]] + InsertByOffset(p, s[1..]);
      forall q | q in InsertByOffset(p, s[1..]) ensures s[0].1 <= q.1 {
        if q != p {
          assert q in s[1..];
        }
      }
      forall q | q in s ensures q == s[0] || q in s[1..] {
        if q != s[0] {
          var k :| 0 <= k < |s| && s[k] == q;
          assert s[1..][k - 1] == q;
        }
      }
    }
  }

  lemma {:induction false} SortedByOffsetNondecreasing(s: seq<Placement>)
    ensures NondecreasingOffsets(SortedByOffset(s))
  {
    if s != [] {
      SortedByOffsetNondecreasing(s[..|s| - 1]);
      InsertByOffsetNondecreasing(s[|s| - 1], SortedByOffset(s[..|s| - 1]));
    }
  }

  /** Inserting `p` puts it exactly before the first element with a larger offset. */
  lemma {:induction false} InsertByOffsetSplit(p: Placement, s: seq<Placement>, k: nat)
    requires k <= |s|
    requires forall m :: 0 <= m < k ==> s[m].1 <= p.1
    requires forall m :: k <= m < |s| ==> s[m].1 > p.1
    ensures InsertByOffset(p, s) == s[..k] + [p] + s[k..]
  {
    if s != [] {
      if k == 0 {
        assert p.1 < s[0].1;
      } else {
        InsertByOffsetSplit(p, s[1..], k - 1);
        assert s[1..][..k - 1] == s[1..k];
        assert s[1..][k - 1..] == s[k..];
        assert [s[0]] + s[1..k] == s[..k];
      }
    }
  }

  /** Lumps 0 and 40 decoded, every other lump kept as its directory record. */
  function LumpsOf(buf: seq<byte>, lzma: LzmaDecoder): Result<seq<Lump>, BspError>
    requires HEADER_LEN <= |buf|
  {
    var entities :- DecodeLump(buf, ENTITIES, lzma);
    var pak :- DecodeLump(buf, PAKFILE, lzma);
    Success(AllLumps(buf, entities, pak))
  }

  /** The `for` loop of `ParsedMap::new` that fills the 64 lumps in index order. */
  method ReadLumps(buf: seq<byte>, lzma: LzmaDecoder) returns (r: Result<seq<Lump>, BspError>)
    requires HEADER_LEN <= |buf|
    ensures r == LumpsOf(buf, lzma)
  {
    var lumps := new Lump[LUMP_COUNT](_ => Unset);
    for i := 0 to LUMP_COUNT
      invariant forall j :: 0 <= j < i ==> DecodeLump(buf, j, lzma).Success? && lumps[j] == DecodeLump(buf, j, lzma).value
    {
      var lump := ReadLumpAt(buf, i, lzma);
      if lump.Failure? {
        return Failure(lump.error);
      }
      lumps[i] := lump.value;
    }
    var entities := DecodeLump(buf, ENTITIES, lzma).value;
    var pak := DecodeLump(buf, PAKFILE, lzma).value;
    assert lumps[..] == AllLumps(buf, entities, pak);
    r := Success(lumps[..]);
  }

  /** The body of that loop: lump `i` from its directory record. */
  method ReadLumpAt(buf: seq<byte>, i: nat, lzma: LzmaDecoder) returns (r: Result<Lump, BspError>)
    requires i < LUMP_COUNT && HEADER_LEN <= |buf|
    ensures r == DecodeLump(buf, i, lzma)
  {
    var base := ReadLump(buf, i);
    if i == ENTITIES {
      var text := EntityText(buf, base, lzma);
      if text.Failure? {
        return Failure(text.error);
      }
      r := Success(Entities(EntityLump(base, text.value)));
    } else if i == PAKFILE {
      if !WindowInBuffer(base, buf) {
        return Failure(OutOfBounds);
      }
      var files := ReadPakFiles(LumpWindow(base, buf), lzma);
      assert files == PakFiles(buf, base, lzma);
      if files.Failure? {
        return Failure(files.error);
      }
      r := Success(Pak(PakFileLump(base, files.value)));
    } else {
      r := Success(Unknown(base));
    }
  }

  /** `ParsedMap::new`. */
  method ParseMap(buf: seq<byte>, lzma: LzmaDecoder) returns (r: Result<ParsedMap, BspError>)
    ensures r == Decode(buf, lzma)
  {
    if |buf| < 4 {
      return Failure(OutOfBounds);
    }
    var magic := LeU32(buf, 0);
    if magic != MAGIC {
      return Failure(InvalidHeader(magic));
    }
    if |buf| < 8 {
      return Failure(OutOfBounds);
    }
    var version := LeU32(buf, 4);
    if version != 19 && version != 20 && version != 21 {
      return Failure(InvalidVersion(version));
    }
    if |buf| < HEADER_LEN {
      return Failure(OutOfBounds);
    }
    var lumps := ReadLumps(buf, lzma);
    if lumps.Failure? {
      return Failure(lumps.error);
    }
    var iteration := LeU32(buf, ITERATION_AT);
    var order := new Placement[LUMP_COUNT](i requires 0 <= i < LUMP_COUNT && HEADER_LEN <= |buf| => (i, ReadLump(buf, i).offset));
    assert order[..] == Placements(buf);
    SortByOffset(order);
    r := Success(ParsedMap(version, iteration, lumps.value, buf, order[..]));
  }
}
