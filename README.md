# VBSP map parser and patcher, modelled in Dafny

This project models the core of a small tool for Source-engine maps. The
tool reads a `.bsp` file. It lists the map's entities and the textures and
files of the archive embedded in the map. It lets the user mark textures and
entries for removal, and it saves a patched copy of the map.

The model covers four parts of the program:

- **The map decoder** (`ParsedMap::new`, module `Bsp`, with its properties in
  `BspProps`):
  - the "VBSP" magic and the version check;
  - the 64-record lump directory and the iteration counter;
  - the entity lump, plain or behind an "LZMA" header;
  - the walk over the ZIP local headers of the archive lump (lump 40), with
    STORE and LZMA entries;
  - the `order` list of lumps, stable-sorted by offset.

  The decoder is written twice. The spec functions (`Decode`, `WalkPak`,
  `SortedByOffset`, ...) say what it computes. The methods (`ParseMap`,
  `ReadPakFiles` with its moving cursor, `SortByOffset` as an in-place sort
  over an array) follow the source's loops, and each is proved equal to its
  spec function. Round-trip lemmas decode what small encoders write: a
  header, a plain entity lump, and an archive of STORE entries (with extra
  fields) and LZMA entries, the latter read through the decoder parameter.
- **The entity text** (module `Kv`):
  - `parse_ents_hacky`, modelled as `split_inclusive("}\n")` and then a trim;
  - `Entity::pretty_name`, as a loop over Rust's `str::lines`.
- **The map window's byte and selection logic** (module `MapWindow`):
  - blacklist tagging of archive entries, in place;
  - the choice of `.vtf` entries as textures;
  - the problem a texture reports;
  - the in-place ABGR8888 to RGBA8888 byte swap;
  - the show/hide predicates of the texture list and the archive list.
- **The Save action** (module `Save`):
  - the entity blob;
  - the removal marking on a copy of the archive entries;
  - the (name, bytes) pairs handed to the archive writer;
  - the `lumps_temp` offset table, with its 32-bit wrap-around;
  - the size check, then the patch of a copy of the map buffer with each
    new blob and zero padding.

Text is modelled as bytes (`seq<byte>`). Three things the program hands to
libraries are function parameters:

- the LZMA decoder (`LzmaDecoder`);
- the archive writer (`ArchiveWriter`);
- the blacklist check (`Check`).

So is the texture library's verdict on an image (`Inspect`). Where the source
panics or reads past the buffer, the decoder returns `OutOfBounds` instead.
A failed decompression of the entity lump becomes `EntityDecompressFailed`.

## Model

| member | source | states |
|---|---|---|
| Bsp.EntryName | src/bsp.rs:76-82 | The name of an entry is the bytes of its name span inside the archive window. It has the span's length. |
| Bsp.EntryData | src/bsp.rs:68-74 | The data of an LZMA entry is its decompressed bytes. A stored entry's data is the bytes of its data span in the window. |
| Bsp.LumpWindow | src/bsp.rs:93-95 | A lump's window has the lump's size, and byte k is buffer byte offset + k. |
| Bsp.Placements | src/bsp.rs:311-319 | Before sorting, `order` is exactly the 64 pairs (i, offset of directory record i), in index order. |
| Bsp.EntryAt | src/bsp.rs:199-300 | One local header yields a new entry, the end of the entries, or an error (InvalidPakFile or OutOfBounds). A new entry is not marked for removal and not tagged, and carries decompressed data exactly when it is LZMA. Its name is the span (pos+30, u16 at 26). A STORE entry's data is the span after the name and the extra field (u16 at 28), with the u32 at 22 as length. An LZMA entry's data is the span right after the name with the u32 at 18 as length, its sizes are (u32 at 18, u32 at 22), and its decompressed data is the decoder's output. The cursor lands at the end of the data. |
| Bsp.StoreEntryAt | src/bsp.rs:261-292 | A STORE header always yields an entry with no decompressed data. Its name is the span (pos+30, u16 at 26). Its data starts after the name and skips an extra field of the length at offset 28, with the u32 at 22 as length. The cursor lands right after the data. |
| Bsp.LzmaEntryAt | src/bsp.rs:211-257 | An LZMA header never ends the walk. It yields an entry exactly when the extra-field length is 0, the packed size is at least 4, name and packed data fit in the window, and the decoder accepts the stream. The entry's name is the span (pos+30, u16 at 26). Its data is the packed span right after the name. Its sizes are (u32 at 18, u32 at 22). Its decompressed data is the decoder's output for the packed bytes after the 4-byte prefix, with the u32 at 22 as the unpacked size. The cursor lands right after the packed data. Otherwise the result is InvalidPakFile or OutOfBounds. |
| Bsp.WalkPak | src/bsp.rs:192-303 | Every entry the walk returns is a new entry as above. The walk fails only with InvalidPakFile or OutOfBounds. |
| Bsp.InsertByOffset | src/bsp.rs:320 | Inserting one placement lengthens the sequence by one. Its order and content are stated by the lemmas below. |
| Bsp.SortedByOffset | src/bsp.rs:320 | The stable sort keeps the length. Permutation, order and stability are in BspProps. |
| Bsp.AllLumps | src/bsp.rs:135-137 | The lump table has exactly 64 lumps. |
| Bsp.ReadPakFiles | src/bsp.rs:192-303 | The cursor loop that pushes entries returns exactly the archive walk from position 0: its entries or its error. |
| Bsp.ReadEntry | src/bsp.rs:199-300 | One iteration of that loop gives exactly the outcome of the header at the cursor. |
| Bsp.ReadLzmaEntry | src/bsp.rs:211-257 | The LZMA branch gives exactly the LZMA outcome of the header. |
| Bsp.SortByOffset | src/bsp.rs:320 | After the in-place sort, the array holds the stable sort by offset of its old contents. |
| Bsp.InsertLast | src/bsp.rs:320 | One pass moves element i into the sorted prefix where insertion by offset puts it. Elements after i are unchanged. |
| Bsp.InsertByOffsetNondecreasing | src/bsp.rs:320 | Inserting into a sequence with nondecreasing offsets keeps offsets nondecreasing. It adds exactly the inserted element. |
| Bsp.SortedByOffsetNondecreasing | src/bsp.rs:320 | The sorted sequence has nondecreasing offsets. |
| Bsp.InsertByOffsetSplit | src/bsp.rs:320 | An element is inserted after every element with an equal or smaller offset and before every element with a larger one, which makes the sort stable. |
| Bsp.ReadLumps | src/bsp.rs:137-307 | The loop over the 64 directory records gives exactly the decoded lump table, or the first lump error. |
| Bsp.ReadLumpAt | src/bsp.rs:138-306 | Each loop body gives exactly the decoding of lump i: entities for 0, the archive for 40, the raw record otherwise. |
| Bsp.ParseMap | src/bsp.rs:119-330 | `ParsedMap::new` returns exactly `Decode`: the same error or the same map. |
| BspProps.DecodeInvalidHeader | src/bsp.rs:121-125 | Decoding fails with InvalidHeader(v) if and only if the first little-endian u32 is v and v is not "VBSP". |
| BspProps.DecodeInvalidVersion | src/bsp.rs:126-129 | Decoding fails with InvalidVersion(v) if and only if the magic is right and the u32 at 4 is v, which is not 19, 20 or 21. |
| BspProps.LumpsOfErrors | src/bsp.rs:148-306 | Lump decoding fails only with the entity text's errors or the archive walk's errors. |
| BspProps.DecodeSuccess | src/bsp.rs:119-330 | In an accepted map: the magic is right, the version and iteration are the u32s at 4 and 0x408, lump 0 holds the entity text of its record, lump 40 the entries of its window, every other lump its record, and the map is well formed. |
| BspProps.EntityWindowInBuffer | src/bsp.rs:149-191 | A decoded entity text implies that the entity lump's window lies inside the buffer. |
| BspProps.EntryAtOutcomes | src/bsp.rs:199-299 | Iff statements for each outcome. A central-directory signature ends the walk without error. Any other non-local signature is InvalidPakFile(header). A method other than 0 and 14 is InvalidPakFile(header + 8). An LZMA entry with an extra field is InvalidPakFile(header + 28). A decoder failure is InvalidPakFile(data start). |
| BspProps.InsertByOffsetMultiset | src/bsp.rs:320 | Insertion adds exactly one copy of the inserted element. |
| BspProps.SortedByOffsetMultiset | src/bsp.rs:320 | The sort is a permutation of its input. |
| BspProps.InsertByOffsetOrdered | src/bsp.rs:320 | Inserting an element whose index is larger than every index present keeps the sequence ordered by (offset, index). |
| BspProps.SortedByOffsetOrdered | src/bsp.rs:320 | Stable-sorting pairs listed by increasing index orders them by offset, and equal offsets by index. |
| BspProps.DecodeOrder | src/bsp.rs:311-320 | The `order` of an accepted map is a permutation of the 64 pairs (i, offset of record i). It is strictly ordered by (offset, index) and lists every lump index once. |
| BspProps.DirectoryBytesAt | src/bsp.rs:138-141 | In an encoded directory, bytes 16i..16i+16 are record i. |
| BspProps.RecordFields | src/bsp.rs:138-141 | The decoder's four little-endian reads of an encoded record give back its offset, size, version and four. |
| BspProps.HeaderRoundTrip | src/bsp.rs:121-141 | Every field HeaderBytes writes is read back by the header reads: magic, version, each directory record, iteration. |
| BspProps.DecodeOfHeader | src/bsp.rs:119-320 | A file that starts with an encoded header decodes as follows. An unsupported version fails with that version. An accepted map carries the written version, iteration and records, and `order` holds (i, offset of record i) for every lump. |
| BspProps.PlainEntityTextWithNul | src/bsp.rs:179-189 | A plain entity window that is text + NUL decodes to the text. |
| BspProps.PlainEntityTextWithoutNul | src/bsp.rs:179-189 | A plain entity window whose last byte is not NUL decodes to the whole window. |
| BspProps.LzmaEntityText | src/bsp.rs:153-166 | The LZMA entity text is the decoder's output for window bytes 12..size, with the u32 at window offset 4 as the unpacked size. A decoder failure is EntityDecompressFailed. |
| BspProps.LocalHeaderFields | src/bsp.rs:199-292 | Every field LocalHeader writes is read back at the offset the walk reads it: signature, method, packed size, size, name length and extra-field length. |
| BspProps.EntryAtEncoded | src/bsp.rs:199-292 | An encoded entry at pos reads back. A STORE entry gives name span (pos+30, name length) and data span after the name and the extra field. An LZMA entry gives the packed span after the name, the written sizes and the decoder's output for the stream. An LZMA stream the decoder refuses gives InvalidPakFile at the data start. The cursor lands right after the entry. |
| BspProps.EncodedEntryFields | src/bsp.rs:68-82 | The entry read back from an encoded entry dereferences to the written name, and to the written data or the decoder's output. |
| BspProps.WalkPakAtTail | src/bsp.rs:199-296 | The walk ends without error at the end of the window or at a central-directory header. |
| BspProps.WalkPakStep | src/bsp.rs:199-301 | Past an entry, the walk is that entry followed by the walk from the next cursor, or that walk's error. |
| BspProps.ArchiveSplit | src/bsp.rs:199-301 | In an encoded archive, the first entry's bytes come first, and the rest of the window starts with the other entries' encoding. |
| BspProps.WalkEncodedCons | src/bsp.rs:192-303 | An encoded entry that the decoder accepts, in front of entries that read back, makes the whole list read back. |
| BspProps.WalkEncodedFirst | src/bsp.rs:192-303 | The walk over encoded entries succeeds exactly when it does past the first entry and the first entry decodes. On success the whole list reads back; on failure the error is InvalidPakFile. |
| BspProps.WalkEncodedEntries | src/bsp.rs:192-303 | Walking an encoded archive of STORE and LZMA entries succeeds exactly when the decoder accepts every LZMA stream. It then finds one entry per written entry, in order, with the written name, the written method, and the written data or the decoder's output. Otherwise the error is InvalidPakFile. |
| BspProps.PakFilesOfEncodedArchive | src/bsp.rs:192-303 | An archive lump made of encoded STORE and LZMA entries decodes exactly when the decoder accepts every LZMA stream, and then to entries whose names and bytes are the written ones. |
| Kv.CutEnd | src/kv.rs:74 | The first piece ends just after the first "}\n", or at the end of the text. It is never empty. |
| Kv.SplitInclusiveConcat | src/kv.rs:74 | The pieces concatenate back to the input, and the input is empty exactly when there are no pieces. |
| Kv.SplitInclusiveCuts | src/kv.rs:74 | Every piece is non-empty. Every piece but the last ends at its first "}\n". The last one does too, or contains none. |
| Kv.TrimPiece | src/kv.rs:76-80 | A piece longer than 3 bytes loses exactly its last byte. A shorter piece is kept. |
| Kv.ParseEntsHacky | src/kv.rs:72-88 | There is one entity per piece, in order. Each has the trimmed piece as its text and is not dirty. |
| Kv.ParseEntsHackyRestores | src/kv.rs:72-88 | If the text ends with "}\n" and every block is longer than 3 bytes, putting the stripped "\n" back after each entity gives the text again. |
| Kv.LinesOfTerminated | src/kv.rs:52 | `lines()` splits plain lines, each written with a trailing "\n", back into those lines. |
| Kv.LastValueStep | src/kv.rs:52-58 | The last classname/origin value of one more line is that line's value when it has that kind, and otherwise the previous one. |
| Kv.PrettyName | src/kv.rs:48-68 | The line loop returns the display name as written. The last classname (empty if none) is followed by "<origin>" when an origin line exists. Both values are sliced from byte 13. A line too short to slice is None (a panic in the source). |
| Kv.DisplayNameOfFourLines | src/kv.rs:48-68 | For the lines other, classname, origin, other, the name is the classname's value, then "<" + the origin's value + ">", or None when the origin line is too short. |
| Kv.LastValuesOfFour | src/kv.rs:52-58 | In those four lines, the last classname and origin values are those of lines 1 and 2. |
| Kv.DisplayNameOfEntity | src/kv.rs:53-64 | An entity `{`, `"classname" "c"`, `"origin" "o"`, `}` is shown as c<o without its first 3 bytes>, or None if o is shorter than 3. |
| Kv.IntendedDisplayNameOfEntity | src/kv.rs:53-64 | When the origin is sliced after its own prefix, the same entity is shown as c<o> for every o. |
| Kv.ClassnameLineFacts | src/kv.rs:53-54 | A classname line is recognised as one, and its value is the classname. |
| Kv.OriginLineFacts | src/kv.rs:55-56 | An origin line is recognised as one. As written, its slice fails iff the origin is shorter than 3 bytes, and otherwise drops 3 bytes. The intended slice yields the origin. |
| MapWindow.TagBlacklisted | src/map_window.rs:110-116 | An entry is tagged with the check's reason exactly when the check recognises its bytes. Every other entry is unchanged. |
| MapWindow.Problem | src/map_window.rs:145-232 | A blacklisted entry always reports its blacklist reason. UnsupportedImageFormat(format) is reported iff the entry is not blacklisted, does not decode, and is neither RGBA16161616F nor ABGR8888. Otherwise there is no problem. |
| MapWindow.Textures | src/map_window.rs:118-136 | Every texture is the texture of some ".vtf" entry, so it has a ".vtf" name and is not marked for removal. Every ".vtf" entry has its texture. There are no more textures than entries. Only names, and the data of ".vtf" entries, must lie in the window. |
| MapWindow.TexturesConcat | src/map_window.rs:118-128 | Textures keep the entry order: the textures of a + b are those of a followed by those of b. |
| MapWindow.TaggedTextureProblem | src/map_window.rs:110-160 | A texture made from a tagged entry reports a blacklist problem iff the check recognised the entry (or it was tagged already), and then with the check's reason. |
| MapWindow.SwapGroups | src/map_window.rs:194-201 | The swap keeps the length. |
| MapWindow.SwapGroupsAt | src/map_window.rs:194-201 | Byte i after the swap is the mirror byte inside its group of four. In the trailing len % 4 bytes it is itself. |
| MapWindow.SwapGroupsTwice | src/map_window.rs:194-201 | Swapping twice gives the image back. |
| MapWindow.SwapGroupsKeepsTail | src/map_window.rs:194-201 | The trailing len % 4 bytes are unchanged. |
| MapWindow.SwapAbgr | src/map_window.rs:193-201 | The in-place loop leaves the buffer equal to the swap of its old contents. |
| MapWindow.ShowTexture | src/map_window.rs:322-331 | A texture is shown iff (it has a problem, or "only blacklisted" is off) and (the filter is empty, or occurs in its name). |
| MapWindow.ShowPakFile | src/map_window.rs:388-398 | An archive entry is shown iff (it is tagged, or "only blacklisted" is off) and (the filter is empty, or occurs in its name). |
| Save.EntityBlobRestores | src/main.rs:139 | The blob of a non-empty entity list is each entity's text followed by "\n", then a NUL. |
| Save.UnchangedEntitiesRoundTrip | src/main.rs:139 | Saving the entities exactly as the splitter produced them gives back the original entity text and its NUL. |
| Save.FirstNamed | src/main.rs:150-152 | Finds the first entry with the given name, and no earlier entry has it. None means no entry has it. |
| Save.MarkOne | src/main.rs:148-155 | One texture's step only sets remove flags. |
| Save.MarkAll | src/main.rs:147-156 | The marking only sets remove flags, and names stay in bounds. |
| Save.FirstNamedIgnoresMarks | src/main.rs:147-156 | Setting flags does not change which entry is the first of a name. |
| Save.MarkAllExactly | src/main.rs:147-156 | After the marking, an entry is flagged iff it was flagged before or it is the first entry named like some texture marked for removal. Nothing else about any entry changes. |
| Save.FindByName | src/main.rs:150-154 | The search loop returns exactly the first entry with the name. |
| Save.MarkForRemoval | src/main.rs:146-156 | The loop over the textures leaves the cloned entries exactly as the marking specifies. |
| Save.KeptFiles | src/main.rs:165-170 | There are no more kept pairs than entries. |
| Save.KeptFilesMembers | src/main.rs:165-170 | An entry's (name, data) goes to the writer iff it is not marked for removal. |
| Save.KeptFilesConcat | src/main.rs:165-170 | Kept pairs keep the entry order: those of a + b are those of a followed by those of b. |
| Save.CollectKept | src/main.rs:165-170 | The loop hands the writer exactly the kept pairs, in order. |
| Save.TruncateAdd | src/main.rs:182-189 | Adding truncated u32s with wrap-around is truncating the true sum. |
| Save.AccumulatedStep | src/main.rs:177-195 | The running total after a lump is the total before it plus its truncated size, modulo 2^32. |
| Save.LumpsTemp | src/main.rs:175-196 | The table has 64 offsets. The k-th lump of `order` is at 0x40C plus the sizes before it, wrapped to 32 bits. The sizes are the new blob lengths for lumps 0 and 40 and the directory size otherwise. An empty lump other than 0 and 40 is at 0. |
| Save.Padded | src/main.rs:258-270 | A padded blob has the lump's size: the blob, then zeros. |
| Save.Overwrite | src/main.rs:258-270 | Overwriting keeps the length, replaces exactly the bytes of the window, and keeps all others. |
| Save.Patched | src/main.rs:251-274 | A patch exists iff both blobs fit their lumps. Then the output has the input's length. The archive window holds the archive blob and zeros. The rest of the entity window holds the entity blob and zeros. Every byte outside both windows, header and directory included, is the original. |
| Save.PatchedWindows | src/main.rs:258-270 | When the two lumps do not overlap, each window holds exactly its blob and then zeros. |
| Save.WriteWindow | src/main.rs:258-263 | `copy_from_slice` followed by the zero-fill loop writes the padded blob into the window, and no other byte of the buffer changes. |
| Save.Patch | src/main.rs:251-274 | The size check and the in-place writes on a clone of the buffer give exactly the patched map, or nothing. |
| Save.SaveMap | src/main.rs:138-275 | Save returns exactly the patch of the map's buffer with the new entity blob and the writer's output for the kept entries of the marked copy. It asks only that names, and the data of the entries kept after the marking, lie in the archive window. |
| Save.SaveKeepsUneditedEntities | src/main.rs:138-270 | If the entities are saved exactly as the splitter produced them, the entity lump is unchanged (when the archive lump lies after it and the new archive fits). |

## Findings

| source | as written | input that shows it | evidently intended | confidence | as-written member | corrected member |
|---|---|---|---|---|---|---|
| src/kv.rs:55-56 | An origin line is sliced from `CLASSNAME_PREFIX.len()` (13), but its own prefix `"origin" "` has 10 bytes. | The entity `{`, `"classname" "light"`, `"origin" "1 2 3"`, `}` is shown as `light< 3>`. With `"origin" "0"` the slice `line[13..11]` panics. | The origin is sliced after its own prefix, giving `light<1 2 3>`. | high (not executed) | Kv.DisplayNameOfEntity | Kv.IntendedDisplayNameOfEntity |

`Kv.PrettyName` keeps the slice as written. The intended slicing is the
`Intended` choice of `Kv.Slicing`, and the model's display-name definitions
take either choice.

## Left out

- LZMA decompression, the ZIP archive writer, the blacklist check and the VTF texture decoder are external libraries. They are function parameters, so their own behaviour is not modelled.
- The blacklist's hashing and lookup table in src/blacklist.rs are not part of this model. Only its interface is: entry bytes in, an optional reason out.
- Bsp.ParseMap: offsets and sizes are unbounded integers. The source's `offset + size` on u32 can wrap around in a release build, and a window past the buffer becomes OutOfBounds here, where the source panics or reads out of bounds.
- Bsp.ReadPakFiles: the loop test `(position as u32) < size` is modelled without the cast: the walk ends once the cursor reaches the window's end. In the source, a cursor pushed to 2^32 or beyond by huge declared sizes wraps; if the wrapped value is below the size, the next slice panics instead of ending the walk. The model's cursor always moves forward. In a build with a 32-bit usize (the WebAssembly build), `position += data_size as usize` wraps as well: a STORE header with name and extra-field lengths 0 and size 0xFFFFFFE2 moves the cursor by 30 + 0xFFFFFFE2 = 2^32, back to the same header, so the source pushes entries until memory runs out.
- Bsp.ParseMap: the source panics or reads beyond the buffer where a slice or an unchecked memory read falls outside it. All of these cases become the errors OutOfBounds and EntityDecompressFailed.
- Save.LumpsTemp: in a debug build the `accum +=` additions (src/main.rs:182-189) panic on u32 overflow. The model follows the release build, where they wrap.
- The debug-build `assert_eq!`s and the debug prints of the entity lump's sizes are left out. The packed size at offset + 8 is read only for that print.
- Text is bytes. `from_utf8_unchecked` and UTF-8 char-boundary panics in string slicing are not modelled.
- The `Display` messages of `BSPError` are not modelled.
- Save.SaveMap and Save.SavedMembers: every archive entry's name, and the data range of every entry still kept after the marking, must lie inside the archive window (a requires clause). The source would panic on such an entry; it does not read the data of entries marked for removal.
- MapWindow.TagBlacklisted: every entry's data range must lie inside the archive window (a requires clause). With a blacklist loaded, the source reads every entry's data (src/map_window.rs:112) and panics on an entry whose STORE data runs past the window.
- Kv.Lines: a "\r" is dropped only where it stands just before a "\n", as current `str::lines` does. Older Rust toolchains (before 1.77) also dropped a lone "\r" at the very end of the text; that variant is not modelled.
- MapWindow.Textures: every entry's name, and the data of every ".vtf" entry, must lie inside the archive window (a requires clause). The source would panic on such an entry; it does not read other entries' data when no blacklist is loaded.
- Save.Patch and Save.SaveMap: both blobs must be shorter than 4 GiB, so the `as u32` truncation of their lengths in the size check is not modelled.
- Save.LumpsTemp: the table is computed as the source computes it, and, as in the source, nothing uses it.
- Save.Patched: when the two lump windows overlap, the archive blob is written last and wins, as in the source. Save.PatchedWindows states the per-window contents only for windows that do not overlap.
- The commented-out full re-serialisation of the map in src/main.rs (lines 198-247) is dead code and not modelled.
- MapWindow.Textures: the `unwrap()` of the VTF parser (a panic on an entry that is not a valid VTF) is not modelled. The texture library's verdict is the `Inspect` parameter, and each texture records its name, removal flag and problem, without pixels.
- The RGBA16161616F conversion is floating point (f16 to u8) and is not modelled, nor is the texture upload to the GPU.
- The GUI (windows, buttons, checkboxes), the file dialogs and the platform glue in src/platform.rs and docs/k0k.js are I/O and not part of this model.
