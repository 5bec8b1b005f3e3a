/**
 * The "Save" action (src/main.rs): the entity list serialised back to text,
 * the archive entries of removed textures marked, the kept entries handed to
 * an archive writer, the diagnostic table of lump offsets, and the in-place
 * patch of a copy of the map buffer when both new blobs fit their lumps.
 */
module Save {
  import opened Wrappers
  import opened Bytes
  import opened Bsp
  import opened Kv
  import opened MapWindow

  /** An archive member as the writer receives it: its name and its bytes. */
  type Member = (seq<byte>, seq<byte>)

  /** The archive writer (STORE only); its output is opaque to the model. */
  type ArchiveWriter = seq<Member> -> seq<byte>

  // ---------------------------------------------------------------------
  // Entity text
  // ---------------------------------------------------------------------

  /** The entities' texts joined with "\n". */
  function JoinTexts(es: seq<Entity>): seq<byte> {
    if es == [] then []
    else if |es| == 1 then es[0].text
    else es[0].text + [NEWLINE] + JoinTexts(es[1..])
  }

  /** The new entity lump: the joined texts, then "\n" and a NUL. */
  function EntityBlob(es: seq<Entity>): seq<byte> {
    JoinTexts(es) + [NEWLINE, 0]
  }

  /**
   * The blob of a non-empty entity list is each entity's text followed by
   * "\n", then a NUL.
   */
  lemma {:induction false} EntityBlobRestores(es: seq<Entity>)
    requires es != []
    ensures EntityBlob(es) == Restored(es) + [0]
  {
    if |es| > 1 {
      EntityBlobRestores(es[1..]);
      assert EntityBlob(es) == es[0].text + [NEWLINE] + EntityBlob(es[1..]);
    }
  }

  /**
   * Saving the entities exactly as the splitter produced them writes back
   * the entity lump they came from: the text and its terminating NUL.
   */
  lemma UnchangedEntitiesRoundTrip(text: seq<byte>)
    requires EndsWith(text, ENTITY_END)
    requires forall p :: p in SplitInclusive(text, ENTITY_END) ==> |p| > 3
    ensures EntityBlob(ParseEntsHacky(text)) == text + [0]
  {
    ParseEntsHackyRestores(text);
    EntityBlobRestores(ParseEntsHacky(text));
  }

  // ---------------------------------------------------------------------
  // Marking entries for removal
  // ---------------------------------------------------------------------

  predicate NamesInBounds(files: seq<PakFile>, pak: seq<byte>) {
    forall k :: 0 <= k < |files| ==> NameInBounds(files[k], pak)
  }

  /** The index of the first entry named `name`, if any. */
  function FirstNamed(files: seq<PakFile>, pak: seq<byte>, name: seq<byte>): (r: Option<nat>)
    requires NamesInBounds(files, pak)
    ensures r.Some? ==> r.value < |files| && EntryName(files[r.value], pak) == name
    ensures r.Some? ==> forall j :: 0 <= j < r.value ==> EntryName(files[j], pak) != name
    ensures r.None? ==> forall j :: 0 <= j < |files| ==> EntryName(files[j], pak) != name
    decreases files
  {
    if files == [] then None
    else if EntryName(files[0], pak) == name then Some(0)
    else
      match FirstNamed(files[1..], pak, name)
      case None => None
      case Some(k) => Some(k + 1)
  }

  /** `b` differs from `a` at most in `remove` flags that it sets. */
  predicate OnlyMarks(a: seq<PakFile>, b: seq<PakFile>) {
    && |a| == |b|
    && forall k :: 0 <= k < |a| ==> b[k] == a[k] || b[k] == a[k].(remove := true)
  }

  /** One texture's step: a texture marked for removal marks the first entry of the same name. */
  function MarkOne(files: seq<PakFile>, pak: seq<byte>, t: Texture): (r: seq<PakFile>)
    requires NamesInBounds(files, pak)
    ensures OnlyMarks(files, r)
  {
    if !t.toRemove then files
    else
      match FirstNamed(files, pak, t.name)
      case None => files
      case Some(k) => files[k := files[k].(remove := true)]
  }

  lemma OnlyMarksNames(a: seq<PakFile>, b: seq<PakFile>, pak: seq<byte>)
    requires OnlyMarks(a, b) && NamesInBounds(a, pak)
    ensures NamesInBounds(b, pak)
    ensures forall k :: 0 <= k < |a| ==> EntryName(b[k], pak) == EntryName(a[k], pak)
  {
  }

  /** The entries after every texture of `ts`, in order, has taken its step. */
  function MarkAll(files: seq<PakFile>, pak: seq<byte>, ts: seq<Texture>): (r: seq<PakFile>)
    requires NamesInBounds(files, pak)
    ensures OnlyMarks(files, r) && NamesInBounds(r, pak)
    decreases |ts|
  {
    if ts == [] then files
    else
      var before := MarkAll(files, pak, ts[..|ts| - 1]);
      var r := MarkOne(before, pak, ts[|ts| - 1]);
      OnlyMarksNames(before, r, pak);
      r
  }

  /** Setting flags does not move the first entry of a name. */
  lemma FirstNamedIgnoresMarks(a: seq<PakFile>, b: seq<PakFile>, pak: seq<byte>, name: seq<byte>)
    requires OnlyMarks(a, b) && NamesInBounds(a, pak)
    ensures NamesInBounds(b, pak)
    ensures FirstNamed(b, pak, name) == FirstNamed(a, pak, name)
  {
    OnlyMarksNames(a, b, pak);
  }

  /**
   * After the marking, an entry is flagged exactly when it was flagged
   * before or it is the first entry carrying the name of some texture
   * marked for removal; nothing else about any entry changes.
   */
  lemma {:induction false} MarkAllExactly(files: seq<PakFile>, pak: seq<byte>, ts: seq<Texture>, k: nat)
    requires NamesInBounds(files, pak) && k < |files|
    ensures MarkAll(files, pak, ts)[k].(remove := files[k].remove) == files[k]
    ensures MarkAll(files, pak, ts)[k].remove <==>
              files[k].remove || exists t :: t in ts && t.toRemove && FirstNamed(files, pak, t.name) == Some(k)
    decreases |ts|
  {
    if ts != [] {
      var init := ts[..|ts| - 1];
      var last := ts[|ts| - 1];
      var before := MarkAll(files, pak, init);
      MarkAllExactly(files, pak, init, k);
      FirstNamedIgnoresMarks(files, before, pak, last.name);
      assert forall t :: t in ts <==> t in init || t == last;
    }
  }

  /** `iter_mut().find` on the entries: the index of the first one named `name`. */
  method FindByName(files: array<PakFile>, pak: seq<byte>, name: seq<byte>) returns (r: Option<nat>)
    requires NamesInBounds(files[..], pak)
    ensures r == FirstNamed(files[..], pak, name)
  {
    var k := 0;
    while k < files.Length
      invariant k <= files.Length
      invariant forall j :: 0 <= j < k ==> EntryName(files[..][j], pak) != name
    {
      assert files[..][k] == files[k];
      if EntryName(files[k], pak) == name {
        r := Some(k);
        var first := FirstNamed(files[..], pak, name);
        assert first.Some? && !(first.value < k) && !(k < first.value);
        return;
      }
      k := k + 1;
    }
    r := None;
  }

  /** The removal marking loop, on the cloned entries. */
  method MarkForRemoval(files: array<PakFile>, pak: seq<byte>, textures: seq<Texture>)
    requires NamesInBounds(files[..], pak)
    modifies files
    ensures files[..] == MarkAll(old(files[..]), pak, textures)
  {
    ghost var original := files[..];
    for i := 0 to |textures|
      invariant files[..] == MarkAll(original, pak, textures[..i])
    {
      assert textures[..i + 1][..i] == textures[..i];
      var t := textures[i];
      if t.toRemove {
        var found := FindByName(files, pak, t.name);
        if found.Some? {
          files[found.value] := files[found.value].(remove := true);
        }
      }
    }
    assert textures[..|textures|] == textures;
  }

  // ---------------------------------------------------------------------
  // The entries handed to the archive writer
  // ---------------------------------------------------------------------

  /**
   * What handing the entries to the writer reads: every name, and the bytes
   * of the entries not marked for removal only.
   */
  predicate KeptInBounds(files: seq<PakFile>, pak: seq<byte>) {
    forall f :: f in files ==> NameInBounds(f, pak) && (!f.remove ==> DataInBounds(f, pak))
  }

  /** The (name, bytes) of every entry not marked for removal, in entry order. */
  function KeptFiles(files: seq<PakFile>, pak: seq<byte>): (r: seq<Member>)
    requires KeptInBounds(files, pak)
    ensures |r| <= |files|
    decreases files
  {
    if files == [] then []
    else
      assert forall f :: f in files[1..] ==> f in files;
      var rest := KeptFiles(files[1..], pak);
      if files[0].remove then rest
      else [(EntryName(files[0], pak), EntryData(files[0], pak))] + rest
  }

  /**
   * An entry's (name, bytes) is handed to the writer when it is not marked
   * for removal, and only such entries' are.
   */
  lemma {:induction false} KeptFilesMembers(files: seq<PakFile>, pak: seq<byte>)
    requires KeptInBounds(files, pak)
    ensures forall f :: f in files && !f.remove ==> (EntryName(f, pak), EntryData(f, pak)) in KeptFiles(files, pak)
    ensures forall m :: m in KeptFiles(files, pak) ==>
              exists f :: f in files && !f.remove && m == (EntryName(f, pak), EntryData(f, pak))
    decreases files
  {
    if files != [] {
      assert forall f :: f in files[1..] ==> f in files;
      KeptFilesMembers(files[1..], pak);
      assert forall f :: f in files ==> f == files[0] || f in files[1..];
    }
  }

  /** The kept entries of two runs of entries are those of each, in order. */
  lemma {:induction false} KeptFilesConcat(a: seq<PakFile>, b: seq<PakFile>, pak: seq<byte>)
    requires KeptInBounds(a, pak) && KeptInBounds(b, pak)
    ensures KeptInBounds(a + b, pak)
    ensures KeptFiles(a + b, pak) == KeptFiles(a, pak) + KeptFiles(b, pak)
  {
    if a == [] {
      assert a + b == b;
    } else {
      assert (a + b)[1..] == a[1..] + b;
      assert forall f :: f in a[1..] ==> f in a;
      KeptFilesConcat(a[1..], b, pak);
    }
  }

  /** The loop that feeds the writer: every entry not marked for removal, in order. */
  method CollectKept(files: array<PakFile>, pak: seq<byte>) returns (kept: seq<Member>)
    requires KeptInBounds(files[..], pak)
    ensures kept == KeptFiles(files[..], pak)
  {
    kept := [];
    for i := 0 to files.Length
      invariant KeptInBounds(files[..i], pak)
      invariant kept == KeptFiles(files[..i], pak)
    {
      assert files[..i + 1] == files[..i] + [files[i]];
      assert files[i] in files[..];
      KeptFilesConcat(files[..i], [files[i]], pak);
      if !files[i].remove {
        kept := kept + [(EntryName(files[i], pak), EntryData(files[i], pak))];
      }
    }
    assert files[..files.Length] == files[..];
  }

  // ---------------------------------------------------------------------
  // The diagnostic offset table
  // ---------------------------------------------------------------------

  /** The size the walk adds for lump `i`: the new blob lengths for lumps 0 and 40, the directory size otherwise. */
  function WalkSize(m: ParsedMap, i: nat, entLen: nat, pakLen: nat): nat
    requires WellFormed(m) && i < LUMP_COUNT
  {
    if i == ENTITIES then entLen
    else if i == PAKFILE then pakLen
    else m.lumps[i].base.size as nat
  }

  /** The sizes of the first `k` lumps of `order`, added up without wrapping. */
  function SizesBefore(m: ParsedMap, k: nat, entLen: nat, pakLen: nat): nat
    requires WellFormed(m) && k <= LUMP_COUNT
  {
    if k == 0 then 0
    else SizesBefore(m, k - 1, entLen, pakLen) + WalkSize(m, m.order[k - 1].0, entLen, pakLen)
  }

  /** An empty lump other than 0 and 40, which the table records at offset 0. */
  predicate EmptyOtherLump(m: ParsedMap, i: nat)
    requires WellFormed(m) && i < LUMP_COUNT
  {
    i != ENTITIES && i != PAKFILE && m.lumps[i].base.size == 0
  }

  /** `as u32`: the low 32 bits. */
  function Truncate(n: nat): u32 {
    (n % U32_LIMIT) as u32
  }

  /** `+=` on a u32 in a release build: the sum modulo 2^32. */
  function WrappingAdd(a: u32, b: u32): u32 {
    ((a as nat + b as nat) % U32_LIMIT) as u32
  }

  /** The running total of the walk before its `k`-th lump. */
  function Accumulated(m: ParsedMap, k: nat, entLen: nat, pakLen: nat): u32
    requires WellFormed(m) && k <= LUMP_COUNT
  {
    Truncate(HEADER_LEN + SizesBefore(m, k, entLen, pakLen))
  }

  /**
   * Where the table places the `k`-th lump of the walk: at 0x40C plus the
   * sizes before it, wrapped to 32 bits, or at 0 for an empty lump other
   * than 0 and 40.
   */
  function TableOffset(m: ParsedMap, k: nat, entLen: nat, pakLen: nat): u32
    requires WellFormed(m) && k < LUMP_COUNT
  {
    if EmptyOtherLump(m, m.order[k].0) then 0 else Accumulated(m, k, entLen, pakLen)
  }

  lemma TruncateAdd(a: nat, b: nat)
    ensures WrappingAdd(Truncate(a), Truncate(b)) == Truncate(a + b)
  {
  }

  /** Adding the truncated size of the `k`-th lump to the total before it gives the total after it. */
  lemma AccumulatedStep(m: ParsedMap, k: nat, entLen: nat, pakLen: nat)
    requires WellFormed(m) && k < LUMP_COUNT
    ensures Accumulated(m, k + 1, entLen, pakLen) ==
              WrappingAdd(Accumulated(m, k, entLen, pakLen), Truncate(WalkSize(m, m.order[k].0, entLen, pakLen)))
  {
    TruncateAdd(HEADER_LEN + SizesBefore(m, k, entLen, pakLen), WalkSize(m, m.order[k].0, entLen, pakLen));
  }

  /**
   * `lumps_temp`: walking the lumps in file order from 0x40C, the table
   * records each lump at `TableOffset`. The source computes the table and
   * discards it.
   */
  method LumpsTemp(m: ParsedMap, entLen: nat, pakLen: nat) returns (offsets: seq<u32>)
    requires WellFormed(m)
    ensures |offsets| == LUMP_COUNT
    ensures forall k :: 0 <= k < LUMP_COUNT ==> offsets[m.order[k].0] == TableOffset(m, k, entLen, pakLen)
  {
    var temp := new u32[LUMP_COUNT](_ => 0);
    var accum: u32 := HEADER_LEN as u32;
    for k := 0 to LUMP_COUNT
      invariant accum == Accumulated(m, k, entLen, pakLen)
      invariant forall j :: 0 <= j < k ==> temp[m.order[j].0] == TableOffset(m, j, entLen, pakLen)
    {
      var i := m.order[k].0;
      temp[i] := accum;
      var added: u32;
      if i == ENTITIES {
        added := Truncate(entLen);
      } else if i == PAKFILE {
        added := Truncate(pakLen);
      } else {
        var sz := m.lumps[i].base.size;
        added := sz;
        if sz == 0 {
          temp[i] := 0;
        }
      }
      AccumulatedStep(m, k, entLen, pakLen);
      accum := WrappingAdd(accum, added);
    }
    offsets := temp[..];
  }

  // ---------------------------------------------------------------------
  // The patch
  // ---------------------------------------------------------------------

  /** `data` followed by zeros up to `size` bytes. */
  function Padded(data: seq<byte>, size: nat): (r: seq<byte>)
    requires |data| <= size
    ensures |r| == size
    ensures forall k :: 0 <= k < size ==> r[k] == if k < |data| then data[k] else 0
  {
    data + seq(size - |data|, _ => 0)
  }

  /** `buf` with the bytes from `at` on replaced by `data`. */
  function Overwrite(buf: seq<byte>, at: nat, data: seq<byte>): (r: seq<byte>)
    requires at + |data| <= |buf|
    ensures |r| == |buf|
    ensures forall k :: 0 <= k < |buf| ==> r[k] == if at <= k < at + |data| then data[k - at] else buf[k]
  {
    buf[..at] + data + buf[at + |data|..]
  }

  predicate InWindow(lump: BasicLump, k: nat) {
    lump.offset as nat <= k < lump.offset as nat + lump.size as nat
  }

  /** The byte at position `k` of a window of `lump` that now holds `data` and zeros. */
  function PaddedAt(lump: BasicLump, data: seq<byte>, k: nat): byte
    requires InWindow(lump, k)
  {
    var j := k - lump.offset as nat;
    if j < |data| then data[j] else 0
  }

  /**
   * The saved map: nothing unless both blobs fit their lumps; otherwise the
   * original buffer with the entity window and then the archive window
   * overwritten by their blob and zeros.
   */
  function Patched(buf: seq<byte>, ent: BasicLump, pak: BasicLump, entityData: seq<byte>, pakData: seq<byte>): (r: Option<seq<byte>>)
    requires WindowInBuffer(ent, buf) && WindowInBuffer(pak, buf)
    ensures r.Some? <==> |entityData| <= ent.size as nat && |pakData| <= pak.size as nat
    ensures r.Some? ==> |r.value| == |buf|
    ensures r.Some? ==> forall k :: 0 <= k < |buf| ==>
              r.value[k] == if InWindow(pak, k) then PaddedAt(pak, pakData, k)
                            else if InWindow(ent, k) then PaddedAt(ent, entityData, k)
                            else buf[k]
  {
    if |entityData| <= ent.size as nat && |pakData| <= pak.size as nat then
      var withEntities := Overwrite(buf, ent.offset as nat, Padded(entityData, ent.size as nat));
      Some(Overwrite(withEntities, pak.offset as nat, Padded(pakData, pak.size as nat)))
    else None
  }

  /** When the two lumps do not overlap, each window holds exactly its blob and zeros. */
  lemma PatchedWindows(buf: seq<byte>, ent: BasicLump, pak: BasicLump, entityData: seq<byte>, pakData: seq<byte>)
    requires WindowInBuffer(ent, buf) && WindowInBuffer(pak, buf)
    requires ent.offset as nat + ent.size as nat <= pak.offset as nat || pak.offset as nat + pak.size as nat <= ent.offset as nat
    requires Patched(buf, ent, pak, entityData, pakData).Some?
    ensures var out := Patched(buf, ent, pak, entityData, pakData).value;
      && LumpWindow(ent, out) == Padded(entityData, ent.size as nat)
      && LumpWindow(pak, out) == Padded(pakData, pak.size as nat)
  {
    var out := Patched(buf, ent, pak, entityData, pakData).value;
    var e := LumpWindow(ent, out);
    var p := LumpWindow(pak, out);
    forall k | 0 <= k < |e| ensures e[k] == Padded(entityData, ent.size as nat)[k] {
      assert !InWindow(pak, ent.offset as nat + k) && InWindow(ent, ent.offset as nat + k);
    }
    forall k | 0 <= k < |p| ensures p[k] == Padded(pakData, pak.size as nat)[k] {
      assert InWindow(pak, pak.offset as nat + k);
    }
  }

  /** `copy_from_slice` of the blob into the window, then the zero-fill loop of the rest. */
  method WriteWindow(out: array<byte>, lump: BasicLump, data: seq<byte>)
    requires lump.offset as nat + lump.size as nat <= out.Length
    requires |data| <= lump.size as nat
    modifies out
    ensures out[..] == Overwrite(old(out[..]), lump.offset as nat, Padded(data, lump.size as nat))
  {
    var off := lump.offset as nat;
    var size := lump.size as nat;
    forall k | 0 <= k < |data| {
      out[off + k] := data[k];
    }
    var sz := |data|;
    if sz < size {
      for i := 0 to size - sz
        invariant forall k :: 0 <= k < out.Length ==>
                    out[k] == if off <= k < off + sz then data[k - off]
                              else if off + sz <= k < off + sz + i then 0
                              else old(out[k])
      {
        out[off + sz + i] := 0;
      }
    }
  }

  /** The size check and the patch of a copy of the buffer. */
  method Patch(buf: seq<byte>, ent: BasicLump, pak: BasicLump, entityData: seq<byte>, pakData: seq<byte>)
    returns (r: Option<seq<byte>>)
    requires WindowInBuffer(ent, buf) && WindowInBuffer(pak, buf)
    requires |entityData| < U32_LIMIT && |pakData| < U32_LIMIT
    ensures r == Patched(buf, ent, pak, entityData, pakData)
  {
    var canEnt := |entityData| <= ent.size as nat;
    var canPak := |pakData| <= pak.size as nat;
    if !(canEnt && canPak) {
      return None;
    }
    var out := new byte[|buf|](k requires 0 <= k < |buf| => buf[k]);
    assert out[..] == buf;
    WriteWindow(out, ent, entityData);
    WriteWindow(out, pak, pakData);
    r := Some(out[..]);
  }

  // ---------------------------------------------------------------------
  // The whole action
  // ---------------------------------------------------------------------

  function EntityBase(m: ParsedMap): BasicLump
    requires WellFormed(m)
  {
    m.lumps[ENTITIES].entities.base
  }

  function PakBase(m: ParsedMap): BasicLump
    requires WellFormed(m)
  {
    m.lumps[PAKFILE].pak.base
  }

  function PakWindow(m: ParsedMap): seq<byte>
    requires WellFormed(m)
  {
    LumpWindow(PakBase(m), m.buf)
  }

  /**
   * What saving reads of the archive entries: every name, and the bytes of
   * each entry still kept once the removed textures' entries are marked.
   */
  predicate EntriesInBounds(m: ParsedMap, textures: seq<Texture>)
    requires WellFormed(m)
  {
    var files := m.lumps[PAKFILE].pak.files;
    NamesInBounds(files, PakWindow(m)) && KeptInBounds(MarkAll(files, PakWindow(m), textures), PakWindow(m))
  }

  /** The members the archive writer receives when the textures in `textures` are removed. */
  function SavedMembers(m: ParsedMap, textures: seq<Texture>): seq<Member>
    requires WellFormed(m) && EntriesInBounds(m, textures)
  {
    var files := m.lumps[PAKFILE].pak.files;
    KeptFiles(MarkAll(files, PakWindow(m), textures), PakWindow(m))
  }

  /**
   * The Save button: serialise the entities, mark the removed textures'
   * entries on a copy of the entries, write the kept ones to a new archive,
   * compute the offset table, and patch a copy of the buffer if both new
   * blobs fit.
   */
  method SaveMap(m: ParsedMap, entities: seq<Entity>, textures: seq<Texture>, writer: ArchiveWriter)
    returns (r: Option<seq<byte>>)
    requires WellFormed(m) && EntriesInBounds(m, textures)
    requires |EntityBlob(entities)| < U32_LIMIT
    requires |writer(SavedMembers(m, textures))| < U32_LIMIT
    ensures r == Patched(m.buf, EntityBase(m), PakBase(m), EntityBlob(entities), writer(SavedMembers(m, textures)))
  {
    var entityData := EntityBlob(entities);
    var pak := PakWindow(m);
    var original := m.lumps[PAKFILE].pak.files;
    var files := new PakFile[|original|](k requires 0 <= k < |original| => original[k]);
    assert files[..] == original;
    MarkForRemoval(files, pak, textures);
    var kept := CollectKept(files, pak);
    var pakData := writer(kept);
    var offsets := LumpsTemp(m, |entityData|, |pakData|);
    r := Patch(m.buf, EntityBase(m), PakBase(m), entityData, pakData);
  }

  /**
   * Saving a map whose entity lump is the text and a NUL, with the entities
   * exactly as the splitter produced them, leaves the entity lump as it was
   * (when the archive lump lies elsewhere and the new archive fits).
   */
  lemma SaveKeepsUneditedEntities(m: ParsedMap, text: seq<byte>, pakData: seq<byte>)
    requires WellFormed(m)
    requires LumpWindow(EntityBase(m), m.buf) == text + [0]
    requires EndsWith(text, ENTITY_END)
    requires forall p :: p in SplitInclusive(text, ENTITY_END) ==> |p| > 3
    requires |pakData| <= PakBase(m).size as nat
    requires EntityBase(m).offset as nat + EntityBase(m).size as nat <= PakBase(m).offset as nat
    ensures var out := Patched(m.buf, EntityBase(m), PakBase(m), EntityBlob(ParseEntsHacky(text)), pakData);
      out.Some? && LumpWindow(EntityBase(m), out.value) == text + [0]
  {
    UnchangedEntitiesRoundTrip(text);
    var blob := EntityBlob(ParseEntsHacky(text));
    assert |blob| == EntityBase(m).size as nat;
    PatchedWindows(m.buf, EntityBase(m), PakBase(m), blob, pakData);
    assert Padded(blob, |blob|) == blob;
  }
}
