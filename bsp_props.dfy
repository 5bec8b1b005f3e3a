/**
 * Properties of the map decoder: what each header check rejects, the shape
 * of every accepted map, the physical order of the lumps, and round trips
 * through small encoders for the header, the entity lump and a STORE-only
 * archive.
 */
module BspProps {
  import opened Wrappers
  import opened Bytes
  import opened Bsp

  // ---------------------------------------------------------------------
  // Header checks
  // ---------------------------------------------------------------------

  /** InvalidHeader is reported exactly when the first u32 is not "VBSP", and it carries that u32. */
  lemma DecodeInvalidHeader(buf: seq<byte>, lzma: LzmaDecoder, magic: u32)
    ensures Decode(buf, lzma) == Failure(InvalidHeader(magic)) <==> 4 <= |buf| && LeU32(buf, 0) == magic != MAGIC
  {
    if 4 <= |buf| && LeU32(buf, 0) == MAGIC && 8 <= |buf| && IsSupportedVersion(LeU32(buf, 4)) && HEADER_LEN <= |buf| {
      LumpsOfErrors(buf, lzma);
    }
  }

  /** InvalidVersion is reported exactly for a "VBSP" file whose version is not 19, 20 or 21. */
  lemma DecodeInvalidVersion(buf: seq<byte>, lzma: LzmaDecoder, version: u32)
    ensures Decode(buf, lzma) == Failure(InvalidVersion(version)) <==>
              8 <= |buf| && LeU32(buf, 0) == MAGIC && LeU32(buf, 4) == version && !IsSupportedVersion(version)
  {
    if 4 <= |buf| && LeU32(buf, 0) == MAGIC && 8 <= |buf| && IsSupportedVersion(LeU32(buf, 4)) && HEADER_LEN <= |buf| {
      LumpsOfErrors(buf, lzma);
    }
  }

  /** Lumps 0 and 40 fail only with the errors of the entity text and of the archive walk. */
  lemma LumpsOfErrors(buf: seq<byte>, lzma: LzmaDecoder)
    requires HEADER_LEN <= |buf|
    ensures LumpsOf(buf, lzma).Failure? ==>
              var e := LumpsOf(buf, lzma).error;
              e.OutOfBounds? || e.EntityDecompressFailed? || e.InvalidPakFile?
  {
  }

  /**
   * An accepted map: the header checks passed, version and iteration are the
   * u32s at 4 and 0x408, lump 0 holds the entity text and lump 40 the archive
   * entries of their windows, every other lump is its directory record, and
   * the map is well formed.
   */
  lemma DecodeSuccess(buf: seq<byte>, lzma: LzmaDecoder)
    requires Decode(buf, lzma).Success?
    ensures HEADER_LEN <= |buf| && LeU32(buf, 0) == MAGIC
    ensures var m := Decode(buf, lzma).value;
      && m.buf == buf
      && m.version == LeU32(buf, 4) && IsSupportedVersion(m.version)
      && m.iteration == LeU32(buf, ITERATION_AT)
      && |m.lumps| == LUMP_COUNT
      && EntityText(buf, ReadLump(buf, ENTITIES), lzma).Success?
      && m.lumps[ENTITIES] == Entities(EntityLump(ReadLump(buf, ENTITIES), EntityText(buf, ReadLump(buf, ENTITIES), lzma).value))
      && PakFiles(buf, ReadLump(buf, PAKFILE), lzma).Success?
      && m.lumps[PAKFILE] == Pak(PakFileLump(ReadLump(buf, PAKFILE), PakFiles(buf, ReadLump(buf, PAKFILE), lzma).value))
      && (forall i :: 0 <= i < LUMP_COUNT && i != ENTITIES && i != PAKFILE ==> m.lumps[i] == Unknown(ReadLump(buf, i)))
    ensures WellFormed(Decode(buf, lzma).value)
  {
    var m := Decode(buf, lzma).value;
    EntityWindowInBuffer(buf, ReadLump(buf, ENTITIES), lzma);
    DecodeOrder(buf, lzma);
  }

  /** A decoded entity text implies that the lump's window lies inside the buffer. */
  lemma EntityWindowInBuffer(buf: seq<byte>, base: BasicLump, lzma: LzmaDecoder)
    requires EntityText(buf, base, lzma).Success?
    ensures WindowInBuffer(base, buf)
  {
  }

  // ---------------------------------------------------------------------
  // Outcomes of one local header
  // ---------------------------------------------------------------------

  /**
   * With a whole 30-byte header at `pos`: a central directory signature ends
   * the walk; any other signature but a local header's is InvalidPakFile at
   * the header; a method other than 0 and 14 is InvalidPakFile at the method
   * field; an LZMA entry with an extra field is InvalidPakFile at the extra
   * length field, and one whose data the decoder rejects is InvalidPakFile
   * at the start of its data.
   */
  lemma EntryAtOutcomes(file: seq<byte>, pos: nat, lzma: LzmaDecoder)
    requires pos + LOCAL_HEADER_LEN <= |file| < U32_LIMIT
    ensures var r := EntryAt(file, pos, lzma);
      var local := file[pos..pos + 4] == LOCAL_HEADER_SIG;
      var store := file[pos + 8] == 0 && file[pos + 9] == 0;
      var lzmaMethod := file[pos + 8] == METHOD_LZMA && file[pos + 9] == 0;
      var dataStart := pos + LOCAL_HEADER_LEN + LeU16(file, pos + 26);
      && (r == EndOfEntries <==> file[pos..pos + 4] == CENTRAL_DIR_SIG)
      && (r == Malformed(InvalidPakFile(pos)) <==> !local && file[pos..pos + 4] != CENTRAL_DIR_SIG)
      && (r == Malformed(InvalidPakFile(pos + 8)) <==> local && !store && !lzmaMethod)
      && (r == Malformed(InvalidPakFile(pos + 28)) <==> local && lzmaMethod && LeU16(file, pos + 28) != 0)
      && (local && lzmaMethod && LeU16(file, pos + 28) == 0 && LZMA_ENTRY_PREFIX <= LeU32(file, pos + 18) as nat
          && dataStart + LeU32(file, pos + 18) as nat <= |file|
          && lzma(file[dataStart + LZMA_ENTRY_PREFIX..dataStart + LeU32(file, pos + 18) as nat], LeU32(file, pos + 22)).None?
          ==> r == Malformed(InvalidPakFile(dataStart)))
  {
  }

  // ---------------------------------------------------------------------
  // Physical order of the lumps
  // ---------------------------------------------------------------------

  /** `a` comes before `b`: a smaller offset, or the same offset and a smaller index. */
  predicate Before(a: Placement, b: Placement) {
    a.1 < b.1 || (a.1 == b.1 && a.0 < b.0)
  }

  predicate StrictlyOrdered(s: seq<Placement>) {
    forall k, l :: 0 <= k < l < |s| ==> Before(s[k], s[l])
  }

  predicate IncreasingIndices(s: seq<Placement>) {
    forall k, l :: 0 <= k < l < |s| ==> s[k].0 < s[l].0
  }

  lemma {:induction false} InsertByOffsetMultiset(p: Placement, s: seq<Placement>)
    ensures multiset(InsertByOffset(p, s)) == multiset(s) + multiset{p}
  {
    if s != [] && p.1 >= s[0].1 {
      InsertByOffsetMultiset(p, s[1..]);
      assert s == [s[0]] + s[1..];
    }
  }

  /** The stable sort is a permutation of its input. */
  lemma {:induction false} SortedByOffsetMultiset(s: seq<Placement>)
    ensures multiset(SortedByOffset(s)) == multiset(s)
  {
    if s != [] {
      var init := s[..|s| - 1];
      SortedByOffsetMultiset(init);
      InsertByOffsetMultiset(s[|s| - 1], SortedByOffset(init));
      assert s == init + [s[|s| - 1]];
    }
  }

  lemma {:induction false} InsertByOffsetOrdered(p: Placement, s: seq<Placement>)
    requires StrictlyOrdered(s)
    requires forall q :: q in s ==> q.0 < p.0
    ensures StrictlyOrdered(InsertByOffset(p, s))
  {
    if s == [] {
    } else if p.1 < s[0].1 {
      OrderedTail(s);
      forall q | q in s ensures Before(p, q) {
        if q != s[0] {
          assert q in s[1..] by {
            assert s == [s[0]] + s[1..];
          }
        }
      }
      ConsOrdered(p, s);
    } else {
      OrderedTail(s);
      var rest := s[1..];
      InsertByOffsetOrdered(p, rest);
      InsertByOffsetMultiset(p, rest);
      var t := InsertByOffset(p, rest);
      assert s[0] in s;
      forall q | q in t ensures Before(s[0], q) {
        assert q in multiset(t);
      }
      ConsOrdered(s[0], t);
    }
  }

  /** An element before every element of an ordered sequence can go in front of it. */
  lemma ConsOrdered(x: Placement, t: seq<Placement>)
    requires StrictlyOrdered(t)
    requires forall q :: q in t ==> Before(x, q)
    ensures StrictlyOrdered([x] + t)
  {
    var r := [x] + t;
    forall k, l | 0 <= k < l < |r| ensures Before(r[k], r[l]) {
      assert r[l] == t[l - 1];
      if k == 0 {
        assert t[l - 1] in t;
      } else {
        assert r[k] == t[k - 1];
      }
    }
  }

  /** The tail of an ordered sequence is ordered and comes after its head. */
  lemma OrderedTail(s: seq<Placement>)
    requires StrictlyOrdered(s) && s != []
    ensures StrictlyOrdered(s[1..])
    ensures forall q :: q in s[1..] ==> Before(s[0], q)
  {
    var rest := s[1..];
    forall k, l | 0 <= k < l < |rest| ensures Before(rest[k], rest[l]) {
      assert rest[k] == s[k + 1] && rest[l] == s[l + 1];
    }
    forall q | q in rest ensures Before(s[0], q) {
      var m :| 0 <= m < |rest| && rest[m] == q;
      assert q == s[m + 1];
    }
  }

  /** Sorting pairs listed by increasing index orders them by offset, then by index. */
  lemma {:induction false} SortedByOffsetOrdered(s: seq<Placement>)
    requires IncreasingIndices(s)
    ensures StrictlyOrdered(SortedByOffset(s))
  {
    if s != [] {
      var init := s[..|s| - 1];
      var last := s[|s| - 1];
      SortedByOffsetOrdered(init);
      SortedByOffsetMultiset(init);
      forall q | q in SortedByOffset(init) ensures q.0 < last.0 {
        assert q in multiset(init);
        var m :| 0 <= m < |init| && init[m] == q;
      }
      InsertByOffsetOrdered(last, SortedByOffset(init));
    }
  }

  /**
   * `order` holds exactly the 64 pairs (index, directory offset), sorted by
   * offset, and among equal offsets by index.
   */
  lemma DecodeOrder(buf: seq<byte>, lzma: LzmaDecoder)
    requires Decode(buf, lzma).Success?
    ensures HEADER_LEN <= |buf|
    ensures var order := Decode(buf, lzma).value.order;
      && |order| == LUMP_COUNT
      && (forall k :: 0 <= k < |order| ==> order[k].0 < LUMP_COUNT && order[k] == (order[k].0, ReadLump(buf, order[k].0).offset))
      && (forall i :: 0 <= i < LUMP_COUNT ==> (i, ReadLump(buf, i).offset) in order)
      && StrictlyOrdered(order)
      && IsLumpOrder(order)
  {
    var order := Decode(buf, lzma).value.order;
    var s := Placements(buf);
    assert order == SortedByOffset(s);
    SortedByOffsetMultiset(s);
    SortedByOffsetOrdered(s);
    forall k | 0 <= k < |order| ensures order[k].0 < LUMP_COUNT && order[k] == (order[k].0, ReadLump(buf, order[k].0).offset) {
      assert order[k] in multiset(s);
    }
    forall i | 0 <= i < LUMP_COUNT ensures (i, ReadLump(buf, i).offset) in order {
      assert s[i] in multiset(order);
    }
    forall k, l | 0 <= k < l < |order| ensures order[k].0 != order[l].0 {
      assert Before(order[k], order[l]);
    }
  }

  // ---------------------------------------------------------------------
  // Header round trip
  // ---------------------------------------------------------------------

  /** "VBSP". */
  const MAGIC_BYTES: seq<byte> := [0x56, 0x42, 0x53, 0x50]

  function RecordBytes(b: BasicLump): (r: seq<byte>)
    ensures |r| == 16
  {
    U32Bytes(b.offset) + U32Bytes(b.size) + U32Bytes(b.version) + U32Bytes(b.four)
  }

  function DirectoryBytes(dir: seq<BasicLump>): (r: seq<byte>)
    ensures |r| == 16 * |dir|
  {
    if dir == [] then [] else DirectoryBytes(dir[..|dir| - 1]) + RecordBytes(dir[|dir| - 1])
  }

  /** A map header: magic, version, 64 directory records, iteration. */
  function HeaderBytes(version: u32, dir: seq<BasicLump>, iteration: u32): (r: seq<byte>)
    requires |dir| == LUMP_COUNT
    ensures |r| == HEADER_LEN
  {
    MAGIC_BYTES + U32Bytes(version) + DirectoryBytes(dir) + U32Bytes(iteration)
  }

  lemma {:induction false} DirectoryBytesAt(dir: seq<BasicLump>, i: nat)
    requires i < |dir|
    ensures DirectoryBytes(dir)[16 * i..16 * i + 16] == RecordBytes(dir[i])
  {
    var n := |dir| - 1;
    var init := DirectoryBytes(dir[..n]);
    var last := RecordBytes(dir[n]);
    assert DirectoryBytes(dir) == init + last;
    if i < n {
      DirectoryBytesAt(dir[..n], i);
      assert dir[..n][i] == dir[i];
      SliceOfLeft(init, last, 16 * i, 16 * i + 16);
    } else {
      SliceOfRight(init, last);
    }
  }

  lemma SliceOfLeft(a: seq<byte>, b: seq<byte>, lo: nat, hi: nat)
    requires lo <= hi <= |a|
    ensures (a + b)[lo..hi] == a[lo..hi]
  {
  }

  lemma SliceOfRight(a: seq<byte>, b: seq<byte>)
    ensures (a + b)[|a|..|a| + |b|] == b
  {
  }

  /** The four fields of a directory record read back from its bytes. */
  lemma RecordFields(buf: seq<byte>, at: nat, b: BasicLump)
    requires at + 16 <= |buf| && buf[at..at + 16] == RecordBytes(b)
    ensures LeU32(buf, at) == b.offset && LeU32(buf, at + 4) == b.size
    ensures LeU32(buf, at + 8) == b.version && LeU32(buf, at + 12) == b.four
  {
    var r := RecordBytes(b);
    assert r[0..4] == U32Bytes(b.offset) && r[4..8] == U32Bytes(b.size);
    assert r[8..12] == U32Bytes(b.version) && r[12..16] == U32Bytes(b.four);
    SliceInside(buf, at, r, 0, 4);
    SliceInside(buf, at, r, 4, 8);
    SliceInside(buf, at, r, 8, 12);
    SliceInside(buf, at, r, 12, 16);
    LeU32Slice(buf, at, U32Bytes(b.offset), 0);
    LeU32Slice(buf, at + 4, U32Bytes(b.size), 0);
    LeU32Slice(buf, at + 8, U32Bytes(b.version), 0);
    LeU32Slice(buf, at + 12, U32Bytes(b.four), 0);
  }

  /** Every field written by HeaderBytes is read back by the decoder's header reads. */
  lemma HeaderRoundTrip(version: u32, dir: seq<BasicLump>, iteration: u32, body: seq<byte>)
    requires |dir| == LUMP_COUNT
    ensures var buf := HeaderBytes(version, dir, iteration) + body;
      && HEADER_LEN <= |buf|
      && LeU32(buf, 0) == MAGIC
      && LeU32(buf, 4) == version
      && LeU32(buf, ITERATION_AT) == iteration
      && (forall i :: 0 <= i < LUMP_COUNT ==> ReadLump(buf, i) == dir[i])
  {
    var buf := HeaderBytes(version, dir, iteration) + body;
    var d := DirectoryBytes(dir);
    assert buf[0..4] == MAGIC_BYTES;
    assert buf[4..8] == U32Bytes(version);
    assert buf[ITERATION_AT..ITERATION_AT + 4] == U32Bytes(iteration);
    LeU32Slice(buf, 4, U32Bytes(version), 0);
    LeU32Slice(buf, ITERATION_AT, U32Bytes(iteration), 0);
    forall i | 0 <= i < LUMP_COUNT ensures ReadLump(buf, i) == dir[i] {
      DirectoryBytesAt(dir, i);
      assert buf[8 + 16 * i..8 + 16 * i + 16] == d[16 * i..16 * i + 16];
      RecordFields(buf, 8 + 16 * i, dir[i]);
    }
  }

  /**
   * Decoding a file that starts with HeaderBytes: an unsupported version is
   * rejected with that version; an accepted map carries the version, the
   * iteration and the directory records that were written, and its order
   * lists (i, dir[i].offset) for every lump.
   */
  lemma DecodeOfHeader(version: u32, dir: seq<BasicLump>, iteration: u32, body: seq<byte>, lzma: LzmaDecoder)
    requires |dir| == LUMP_COUNT
    ensures var r := Decode(HeaderBytes(version, dir, iteration) + body, lzma);
      && (!IsSupportedVersion(version) ==> r == Failure(InvalidVersion(version)))
      && (r.Success? ==>
            && r.value.version == version
            && r.value.iteration == iteration
            && r.value.lumps[ENTITIES].entities.base == dir[ENTITIES]
            && r.value.lumps[PAKFILE].pak.base == dir[PAKFILE]
            && (forall i :: 0 <= i < LUMP_COUNT && i != ENTITIES && i != PAKFILE ==> r.value.lumps[i] == Unknown(dir[i]))
            && (forall i :: 0 <= i < LUMP_COUNT ==> (i, dir[i].offset) in r.value.order))
  {
    var buf := HeaderBytes(version, dir, iteration) + body;
    HeaderRoundTrip(version, dir, iteration, body);
    if Decode(buf, lzma).Success? {
      DecodeSuccess(buf, lzma);
      DecodeOrder(buf, lzma);
    }
  }

  // ---------------------------------------------------------------------
  // Entity lump
  // ---------------------------------------------------------------------

  /** A plain entity lump whose window is `text` and a NUL reads back as `text`. */
  lemma PlainEntityTextWithNul(buf: seq<byte>, base: BasicLump, lzma: LzmaDecoder, text: seq<byte>)
    requires WindowInBuffer(base, buf) && base.offset as nat + 4 <= |buf|
    requires buf[base.offset..base.offset as nat + 4] != LZMA_MAGIC
    requires LumpWindow(base, buf) == text + [0]
    ensures EntityText(buf, base, lzma) == Success(text)
  {
    var off := base.offset as nat;
    var w := LumpWindow(base, buf);
    assert buf[off + base.size as nat - 1] == w[|w| - 1] == 0;
    assert buf[off..off + base.size as nat - 1] == w[..|w| - 1] == text;
  }

  /** A plain entity lump whose window does not end in NUL reads back whole. */
  lemma PlainEntityTextWithoutNul(buf: seq<byte>, base: BasicLump, lzma: LzmaDecoder)
    requires WindowInBuffer(base, buf) && base.offset as nat + 4 <= |buf|
    requires buf[base.offset..base.offset as nat + 4] != LZMA_MAGIC
    requires base.size > 0 && LumpWindow(base, buf)[base.size - 1] != 0
    ensures EntityText(buf, base, lzma) == Success(LumpWindow(base, buf))
  {
  }

  /**
   * A compressed entity lump: the text is what the decoder makes of the
   * window's bytes from 12 on, with the u32 at window offset 4 as the
   * unpacked size; a decoder failure is EntityDecompressFailed.
   */
  lemma LzmaEntityText(buf: seq<byte>, base: BasicLump, lzma: LzmaDecoder)
    requires WindowInBuffer(base, buf) && base.size as nat >= LZMA_HEADER_LEN
    requires LumpWindow(base, buf)[..4] == LZMA_MAGIC
    ensures var w := LumpWindow(base, buf);
      match lzma(w[LZMA_HEADER_LEN..], LeU32(w, 4))
      case None => EntityText(buf, base, lzma) == Failure(EntityDecompressFailed)
      case Some(text) => EntityText(buf, base, lzma) == Success(text)
  {
    var off := base.offset as nat;
    var w := LumpWindow(base, buf);
    assert buf[off..off + |w|] == w;
    SliceInside(buf, off, w, 0, 4);
    SliceInside(buf, off, w, LZMA_HEADER_LEN, |w|);
    SliceInside(buf, off, w, 4, 8);
    LeU32Slice(buf, off + 4, w, 4);
  }

  // ---------------------------------------------------------------------
  // Archive round trip
  // ---------------------------------------------------------------------

  /**
   * An entry as an archiver writes it: a STORE entry with its extra field and
   * its data, or an LZMA entry with the 4-byte version and properties-size
   * prefix, the packed stream and the unpacked size.
   */
  datatype ArchiveEntry =
    | Stored(name: seq<byte>, extra: seq<byte>, data: seq<byte>)
    | Packed(name: seq<byte>, prefix: seq<byte>, stream: seq<byte>, unpacked: u32)

  predicate Encodable(e: ArchiveEntry) {
    && |e.name| < 0x1_0000
    && match e
       case Stored(_, extra, data) => |extra| < 0x1_0000 && |data| < U32_LIMIT
       case Packed(_, prefix, stream, _) => |prefix| == LZMA_ENTRY_PREFIX && |prefix| + |stream| < U32_LIMIT
  }

  /**
   * A 30-byte local header: signature, version 20, no flags, the method, zero
   * time, date and checksum, the two sizes, the name and extra-field lengths.
   */
  function LocalHeader(algo: byte, compressed: u32, size: u32, nameLen: u16, extraLen: u16): (r: seq<byte>)
    ensures |r| == LOCAL_HEADER_LEN
  {
    LOCAL_HEADER_SIG + [20, 0, 0, 0, algo, 0, 0, 0, 0, 0, 0, 0, 0, 0]
      + U32Bytes(compressed) + U32Bytes(size) + U16Bytes(nameLen) + U16Bytes(extraLen)
  }

  /** The header of an entry: method 0 with both sizes |data|, or method 14 with no extra field. */
  function HeaderOf(e: ArchiveEntry): (r: seq<byte>)
    requires Encodable(e)
    ensures |r| == LOCAL_HEADER_LEN
  {
    match e
    case Stored(name, extra, data) => LocalHeader(0, |data|, |data|, |name|, |extra|)
    case Packed(name, prefix, stream, unpacked) => LocalHeader(METHOD_LZMA, |prefix| + |stream|, unpacked, |name|, 0)
  }

  /** What follows the name. */
  function Payload(e: ArchiveEntry): seq<byte> {
    match e
    case Stored(_, extra, data) => extra + data
    case Packed(_, prefix, stream, _) => prefix + stream
  }

  function EntryBytes(e: ArchiveEntry): (r: seq<byte>)
    requires Encodable(e)
    ensures |r| == LOCAL_HEADER_LEN + |e.name| + |Payload(e)|
  {
    HeaderOf(e) + e.name + Payload(e)
  }

  function ArchiveBytes(es: seq<ArchiveEntry>): seq<byte>
    requires forall e :: e in es ==> Encodable(e)
  {
    if es == [] then [] else EntryBytes(es[0]) + ArchiveBytes(es[1..])
  }

  /** What may follow the last entry: nothing, or a central directory header. */
  predicate ArchiveTail(t: seq<byte>) {
    t == [] || (LOCAL_HEADER_LEN <= |t| && t[..4] == CENTRAL_DIR_SIG)
  }

  /** Whether the decoder accepts the entry's stream; a STORE entry always does. */
  predicate Decodes(e: ArchiveEntry, lzma: LzmaDecoder) {
    e.Stored? || lzma(e.stream, e.unpacked as nat).Some?
  }

  /** The bytes the entry holds: its data, or what the decoder makes of its stream. */
  function Content(e: ArchiveEntry, lzma: LzmaDecoder): seq<byte>
    requires Decodes(e, lzma)
  {
    match e
    case Stored(_, _, data) => data
    case Packed(_, _, stream, unpacked) => lzma(stream, unpacked as nat).value
  }

  /** The entry the walk should make of `e` when its local header starts at `pos`. */
  function EncodedEntryFile(pos: nat, e: ArchiveEntry, lzma: LzmaDecoder): PakFile
    requires Encodable(e)
  {
    match e
    case Stored(name, extra, data) =>
      PakFile(Span(pos + LOCAL_HEADER_LEN, |name|), Span(pos + LOCAL_HEADER_LEN + |name| + |extra|, |data|),
              None, Store, false, None)
    case Packed(name, prefix, stream, unpacked) =>
      PakFile(Span(pos + LOCAL_HEADER_LEN, |name|), Span(pos + LOCAL_HEADER_LEN + |name|, |prefix| + |stream|),
              lzma(stream, unpacked as nat), Lzma(|prefix| + |stream|, unpacked), false, None)
  }

  /** The fields of an encoded local header read back at their offsets. */
  lemma LocalHeaderFields(file: seq<byte>, pos: nat, algo: byte, compressed: u32, size: u32, nameLen: u16, extraLen: u16)
    requires pos + LOCAL_HEADER_LEN <= |file|
    requires file[pos..pos + LOCAL_HEADER_LEN] == LocalHeader(algo, compressed, size, nameLen, extraLen)
    ensures file[pos..pos + 4] == LOCAL_HEADER_SIG
    ensures file[pos + 8] == algo && file[pos + 9] == 0
    ensures LeU32(file, pos + 18) == compressed && LeU32(file, pos + 22) == size
    ensures LeU16(file, pos + 26) == nameLen && LeU16(file, pos + 28) == extraLen
  {
    var h := LocalHeader(algo, compressed, size, nameLen, extraLen);
    assert h[..4] == LOCAL_HEADER_SIG;
    assert h[8] == algo && h[9] == 0;
    assert h[18..22] == U32Bytes(compressed);
    assert h[22..26] == U32Bytes(size);
    assert h[26..28] == U16Bytes(nameLen);
    assert h[28..30] == U16Bytes(extraLen);
    SliceInside(file, pos, h, 0, 4);
    SliceInside(file, pos, h, 18, 22);
    SliceInside(file, pos, h, 22, 26);
    SliceInside(file, pos, h, 26, 28);
    SliceInside(file, pos, h, 28, 30);
    assert file[pos + 8] == h[8] && file[pos + 9] == h[9];
    LeU32Slice(file, pos + 18, U32Bytes(compressed), 0);
    LeU32Slice(file, pos + 22, U32Bytes(size), 0);
    LeU16Slice(file, pos + 26, U16Bytes(nameLen), 0);
    LeU16Slice(file, pos + 28, U16Bytes(extraLen), 0);
  }

  /** An encoded entry at `pos`: its header, its name and its payload in place. */
  lemma EntryParts(file: seq<byte>, pos: nat, e: ArchiveEntry)
    requires Encodable(e)
    requires pos + |EntryBytes(e)| <= |file| && file[pos..pos + |EntryBytes(e)|] == EntryBytes(e)
    ensures file[pos..pos + LOCAL_HEADER_LEN] == HeaderOf(e)
    ensures file[pos + LOCAL_HEADER_LEN..pos + LOCAL_HEADER_LEN + |e.name|] == e.name
    ensures file[pos + LOCAL_HEADER_LEN + |e.name|..pos + |EntryBytes(e)|] == Payload(e)
  {
    ThreeParts(file, pos, HeaderOf(e), e.name, Payload(e));
  }

  /** Three consecutive parts in place. */
  lemma ThreeParts(file: seq<byte>, pos: nat, a: seq<byte>, b: seq<byte>, c: seq<byte>)
    requires pos + |a| + |b| + |c| <= |file| && file[pos..pos + |a| + |b| + |c|] == a + b + c
    ensures file[pos..pos + |a|] == a
    ensures file[pos + |a|..pos + |a| + |b|] == b
    ensures file[pos + |a| + |b|..pos + |a| + |b| + |c|] == c
  {
    var h := a + b + c;
    assert h[..|a|] == a;
    assert h[|a|..|a| + |b|] == b;
    assert h[|a| + |b|..] == c;
    SliceInside(file, pos, h, 0, |a|);
    SliceInside(file, pos, h, |a|, |a| + |b|);
    SliceInside(file, pos, h, |a| + |b|, |h|);
  }

  /** The two parts of a payload in place. */
  lemma PayloadParts(file: seq<byte>, at: nat, a: seq<byte>, b: seq<byte>)
    requires at + |a| + |b| <= |file| && file[at..at + |a| + |b|] == a + b
    ensures file[at..at + |a|] == a && file[at + |a|..at + |a| + |b|] == b
  {
    SliceInside(file, at, a + b, 0, |a|);
    SliceInside(file, at, a + b, |a|, |a| + |b|);
    assert (a + b)[..|a|] == a && (a + b)[|a|..] == b;
  }

  /**
   * The walk reads an encoded entry back: a STORE entry as its name span,
   * its data span past the extra field and no unpacked bytes; an LZMA entry
   * as its name span, its packed span, its two sizes and the decoder's output
   * for its stream, or as an invalid archive at its data when the decoder
   * refuses the stream. The cursor lands right after the entry.
   */
  lemma EntryAtEncoded(file: seq<byte>, pos: nat, e: ArchiveEntry, lzma: LzmaDecoder)
    requires Encodable(e) && |file| < U32_LIMIT
    requires pos + |EntryBytes(e)| <= |file| && file[pos..pos + |EntryBytes(e)|] == EntryBytes(e)
    ensures pos < |file|
    ensures Decodes(e, lzma) ==> EntryAt(file, pos, lzma) == Next(EncodedEntryFile(pos, e, lzma), pos + |EntryBytes(e)|)
    ensures !Decodes(e, lzma) ==> EntryAt(file, pos, lzma) == Malformed(InvalidPakFile(pos + LOCAL_HEADER_LEN + |e.name|))
  {
    EntryParts(file, pos, e);
    var n := |e.name|;
    match e
    case Stored(name, extra, data) =>
      LocalHeaderFields(file, pos, 0, |data|, |data|, n, |extra|);
    case Packed(name, prefix, stream, unpacked) =>
      LocalHeaderFields(file, pos, METHOD_LZMA, |prefix| + |stream|, unpacked, n, 0);
      PayloadParts(file, pos + LOCAL_HEADER_LEN + n, prefix, stream);
      assert LzmaStream(file, pos, lzma) == lzma(stream, unpacked as nat);
  }

  /** Entry `k` of `files` is entry `k` of `es` read back, for every `k`. */
  predicate ReadsBack(files: seq<PakFile>, file: seq<byte>, es: seq<ArchiveEntry>, lzma: LzmaDecoder) {
    && |files| == |es|
    && forall k :: 0 <= k < |es| ==>
         && (files[k].algo.Store? <==> es[k].Stored?)
         && NameInBounds(files[k], file) && EntryName(files[k], file) == es[k].name
         && DataInBounds(files[k], file) && Decodes(es[k], lzma) && EntryData(files[k], file) == Content(es[k], lzma)
  }

  /** The name and the bytes of an encoded entry the decoder accepts, found at `pos`. */
  lemma EncodedEntryFields(file: seq<byte>, pos: nat, e: ArchiveEntry, lzma: LzmaDecoder)
    requires Encodable(e) && Decodes(e, lzma)
    requires pos + |EntryBytes(e)| <= |file| && file[pos..pos + |EntryBytes(e)|] == EntryBytes(e)
    ensures NameInBounds(EncodedEntryFile(pos, e, lzma), file)
    ensures EntryName(EncodedEntryFile(pos, e, lzma), file) == e.name
    ensures DataInBounds(EncodedEntryFile(pos, e, lzma), file)
    ensures EntryData(EncodedEntryFile(pos, e, lzma), file) == Content(e, lzma)
  {
    EntryParts(file, pos, e);
    if e.Stored? {
      PayloadParts(file, pos + LOCAL_HEADER_LEN + |e.name|, e.extra, e.data);
    }
  }

  lemma ReadsBackCons(f: PakFile, rest: seq<PakFile>, file: seq<byte>, es: seq<ArchiveEntry>, lzma: LzmaDecoder)
    requires es != [] && ReadsBack(rest, file, es[1..], lzma)
    requires f.algo.Store? <==> es[0].Stored?
    requires NameInBounds(f, file) && EntryName(f, file) == es[0].name
    requires DataInBounds(f, file) && Decodes(es[0], lzma) && EntryData(f, file) == Content(es[0], lzma)
    ensures ReadsBack([f] + rest, file, es, lzma)
  {
    var files := [f] + rest;
    forall k | 1 <= k < |es|
      ensures && (files[k].algo.Store? <==> es[k].Stored?)
              && NameInBounds(files[k], file) && EntryName(files[k], file) == es[k].name
              && DataInBounds(files[k], file) && Decodes(es[k], lzma) && EntryData(files[k], file) == Content(es[k], lzma)
    {
      assert files[k] == rest[k - 1] && es[k] == es[1..][k - 1];
    }
  }

  /** `file[pos..] == a + b` splits at `pos + |a|`. */
  lemma SplitSuffix(file: seq<byte>, pos: nat, a: seq<byte>, b: seq<byte>)
    requires pos <= |file| && file[pos..] == a + b
    ensures pos + |a| <= |file|
    ensures file[pos..pos + |a|] == a && file[pos + |a|..] == b
  {
    assert file[pos..pos + |a|] == file[pos..][..|a|];
    assert file[pos + |a|..] == file[pos..][|a|..];
  }

  /** The walk stops at the end of the window or at a central directory header. */
  lemma WalkPakAtTail(file: seq<byte>, pos: nat, tail: seq<byte>, lzma: LzmaDecoder)
    requires |file| < U32_LIMIT && ArchiveTail(tail)
    requires pos <= |file| && file[pos..] == tail
    ensures WalkPak(file, pos, lzma) == Success([])
  {
    if tail != [] {
      assert file[pos..pos + 4] == tail[..4];
      assert EntryAt(file, pos, lzma) == EndOfEntries;
    }
  }

  /** One step of the walk past an entry `f` that ends at `next`. */
  lemma WalkPakStep(file: seq<byte>, pos: nat, f: PakFile, next: nat, lzma: LzmaDecoder)
    requires pos < |file| < U32_LIMIT && EntryAt(file, pos, lzma) == Next(f, next)
    ensures WalkPak(file, next, lzma).Success? ==> WalkPak(file, pos, lzma) == Success([f] + WalkPak(file, next, lzma).value)
    ensures WalkPak(file, next, lzma).Failure? ==> WalkPak(file, pos, lzma) == WalkPak(file, next, lzma)
  {
  }

  /** The first entry's bytes, and the entries after it, in place. */
  lemma ArchiveSplit(file: seq<byte>, pos: nat, es: seq<ArchiveEntry>, tail: seq<byte>) returns (next: nat)
    requires es != [] && forall e :: e in es ==> Encodable(e)
    requires pos <= |file| && file[pos..] == ArchiveBytes(es) + tail
    ensures Encodable(es[0]) && forall e :: e in es[1..] ==> Encodable(e)
    ensures next == pos + |EntryBytes(es[0])| <= |file|
    ensures file[pos..next] == EntryBytes(es[0])
    ensures file[next..] == ArchiveBytes(es[1..]) + tail
  {
    ArchiveBytesCons(es);
    var first := EntryBytes(es[0]);
    var rest := ArchiveBytes(es[1..]);
    assert file[pos..] == (first + rest) + tail;
    SplitThree(file, pos, first, rest, tail);
    next := pos + |first|;
  }

  /** A suffix made of three parts: where the first ends and what follows it. */
  lemma SplitThree(file: seq<byte>, pos: nat, a: seq<byte>, b: seq<byte>, c: seq<byte>)
    requires pos <= |file| && file[pos..] == (a + b) + c
    ensures pos + |a| <= |file|
    ensures file[pos..pos + |a|] == a && file[pos + |a|..] == b + c
  {
    assert (a + b) + c == a + (b + c);
    SplitSuffix(file, pos, a, b + c);
  }

  /** The first entry's bytes come first. */
  lemma ArchiveBytesCons(es: seq<ArchiveEntry>)
    requires es != [] && forall e :: e in es ==> Encodable(e)
    ensures Encodable(es[0]) && forall e :: e in es[1..] ==> Encodable(e)
    ensures ArchiveBytes(es) == EntryBytes(es[0]) + ArchiveBytes(es[1..])
  {
    assert es[0] in es;
    assert forall e :: e in es[1..] ==> e in es;
  }

  /** An encoded entry the decoder accepts, in front of entries that read back, makes all of them read back. */
  lemma WalkEncodedCons(file: seq<byte>, pos: nat, next: nat, es: seq<ArchiveEntry>, lzma: LzmaDecoder)
    requires |file| < U32_LIMIT && es != [] && Encodable(es[0]) && Decodes(es[0], lzma)
    requires next == pos + |EntryBytes(es[0])| <= |file| && file[pos..next] == EntryBytes(es[0])
    requires WalkPak(file, next, lzma).Success?
    requires ReadsBack(WalkPak(file, next, lzma).value, file, es[1..], lzma)
    ensures WalkPak(file, pos, lzma).Success?
    ensures ReadsBack(WalkPak(file, pos, lzma).value, file, es, lzma)
  {
    var f := EncodedEntryFile(pos, es[0], lzma);
    var rest := WalkPak(file, next, lzma).value;
    EntryAtEncoded(file, pos, es[0], lzma);
    WalkPakStep(file, pos, f, next, lzma);
    assert f.algo.Store? <==> es[0].Stored?;
    EncodedEntryFields(file, pos, es[0], lzma);
    ReadsBackCons(f, rest, file, es, lzma);
  }

  /** Every entry decodes exactly when the first one and every later one do. */
  lemma AllDecodeCons(es: seq<ArchiveEntry>, lzma: LzmaDecoder)
    requires es != []
    ensures (forall e :: e in es ==> Decodes(e, lzma)) <==>
            Decodes(es[0], lzma) && forall e :: e in es[1..] ==> Decodes(e, lzma)
  {
    assert es == [es[0]] + es[1..];
  }

  /**
   * Walking entries written by ArchiveBytes, from any cursor `pos` at which
   * they start, succeeds exactly when the decoder accepts every LZMA stream;
   * it then finds one entry per written entry, in order, whose name is the
   * written name and whose bytes are the written data or the decoder's output,
   * and otherwise it reports an invalid archive.
   */
  lemma {:induction false} WalkEncodedEntries(file: seq<byte>, pos: nat, es: seq<ArchiveEntry>, tail: seq<byte>, lzma: LzmaDecoder)
    requires |file| < U32_LIMIT
    requires forall e :: e in es ==> Encodable(e)
    requires ArchiveTail(tail)
    requires pos <= |file| && file[pos..] == ArchiveBytes(es) + tail
    ensures WalkPak(file, pos, lzma).Success? <==> forall e :: e in es ==> Decodes(e, lzma)
    ensures WalkPak(file, pos, lzma).Success? ==> ReadsBack(WalkPak(file, pos, lzma).value, file, es, lzma)
    ensures WalkPak(file, pos, lzma).Failure? ==> WalkPak(file, pos, lzma).error.InvalidPakFile?
    decreases es
  {
    if es == [] {
      WalkPakAtTail(file, pos, tail, lzma);
    } else {
      var next := ArchiveSplit(file, pos, es, tail);
      WalkEncodedEntries(file, next, es[1..], tail, lzma);
      WalkEncodedFirst(file, pos, next, es, lzma);
    }
  }

  /** The step of WalkEncodedEntries: what the walk past the first entry makes of the whole walk. */
  lemma WalkEncodedFirst(file: seq<byte>, pos: nat, next: nat, es: seq<ArchiveEntry>, lzma: LzmaDecoder)
    requires |file| < U32_LIMIT && es != [] && Encodable(es[0])
    requires next == pos + |EntryBytes(es[0])| <= |file| && file[pos..next] == EntryBytes(es[0])
    requires WalkPak(file, next, lzma).Success? <==> forall e :: e in es[1..] ==> Decodes(e, lzma)
    requires WalkPak(file, next, lzma).Success? ==> ReadsBack(WalkPak(file, next, lzma).value, file, es[1..], lzma)
    requires WalkPak(file, next, lzma).Failure? ==> WalkPak(file, next, lzma).error.InvalidPakFile?
    ensures WalkPak(file, pos, lzma).Success? <==> forall e :: e in es ==> Decodes(e, lzma)
    ensures WalkPak(file, pos, lzma).Success? ==> ReadsBack(WalkPak(file, pos, lzma).value, file, es, lzma)
    ensures WalkPak(file, pos, lzma).Failure? ==> WalkPak(file, pos, lzma).error.InvalidPakFile?
  {
    AllDecodeCons(es, lzma);
    EntryAtEncoded(file, pos, es[0], lzma);
    if Decodes(es[0], lzma) {
      WalkPakStep(file, pos, EncodedEntryFile(pos, es[0], lzma), next, lzma);
      if WalkPak(file, next, lzma).Success? {
        WalkEncodedCons(file, pos, next, es, lzma);
      }
    }
  }

  /**
   * An archive lump made of encoded entries decodes exactly when the decoder
   * accepts every LZMA stream, and then to those entries.
   */
  lemma PakFilesOfEncodedArchive(buf: seq<byte>, base: BasicLump, es: seq<ArchiveEntry>, tail: seq<byte>, lzma: LzmaDecoder)
    requires forall e :: e in es ==> Encodable(e)
    requires ArchiveTail(tail)
    requires WindowInBuffer(base, buf) && LumpWindow(base, buf) == ArchiveBytes(es) + tail
    ensures PakFiles(buf, base, lzma).Success? <==> forall e :: e in es ==> Decodes(e, lzma)
    ensures PakFiles(buf, base, lzma).Success? ==> ReadsBack(PakFiles(buf, base, lzma).value, LumpWindow(base, buf), es, lzma)
  {
    var window := LumpWindow(base, buf);
    assert window[0..] == window;
    WalkEncodedEntries(window, 0, es, tail, lzma);
  }
}
