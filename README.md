# Game Boy ROM patch manager, modelled in Dafny

The program applies IPS (International Patching System) patches to Game Boy
ROM images. It also converts between Game Boy tiles and images. This
project models its core and proves properties of the model:

- **IPS container** (module `Ips`, `ips.dfy`). A container is the magic
  `PATCH` followed by records. Each record is a 3-byte big-endian offset, a
  2-byte big-endian length and that many payload bytes. The model covers:
  - the constructor's parse loop, as a method (`Ips.ReadRecords`) proved
    against a specification function (`Ips.RecordsFrom`);
  - the errors raised before parsing: wrong extension, missing file, wrong
    magic;
  - `extract_offsets` and `has_conflict`, and the conflict relation's laws.
- **ROM file** (module `GB`, `gb.dfy`). `GBFile` is a class over the file's
  bytes. `read` and `write` follow the semantics of `seek`/`read`/`write` on
  a binary file: a read near the end comes back short, and a write past the
  end extends the file. Those semantics are defined once in module `Bytes`
  (`bytes.dfy`), together with big-endian integers.
- **Tile codec** (module `Tile`, `tile.dfy`). An 8x8 tile of 2-bit colour
  indices is stored in 16 bytes. Row `y` keeps the low bit of each pixel in
  byte `2y` and the high bit in byte `2y + 1`; pixel `x` is bit `7 - x`.
  - `read_tile`, `write_tile`, `read_multi_tile` and `write_multi_tile` are
    methods over `array2` images addressed `[x, y]`.
  - They are proved against the pure codec (`DecodeTile`, `EncodeTile`) and
    against the multi-tile address rule (`TileAddress`, with the sticky
    `jump_to` base).
  - For single tiles both round trips are proved. For multi-tile images,
    reading back what was written gives the image's colours when the tiles
    do not share ROM bytes (`Tile.MultiTileRoundTrip`), and writing back
    what was read leaves the ROM unchanged (`Tile.MultiTileRewrite`).
- **Patch manager** (module `Patch`, `patch.dfy`). The model covers:
  - `apply_patch`: records written in order; a failing write keeps the
    earlier writes;
  - `check_patch_conflicts`: the pairwise sweep, which fails open;
  - the selection rules of `interactive_mode`;
  - the name validation of `main`, the success count, and the run of
    `main` as a whole, after argument parsing.

The file system is a map from path to bytes. Three inputs that the program
gets from outside are parameters of the model:

- the lines typed at the selection prompt, already classified as a `Line`;
- the yes/no answer to the conflict question;
- which record write, if any, raises an I/O error (`fault`).

A payload cut short by the end of the file is kept as a short, possibly
empty, record; decoding stops at the next offset read
(`Ips.TruncatedPayloadExample`).

## Model

| member | source | states |
|---|---|---|
| Bytes.ReadAt | src/gb.py:17-20 | a read returns `min(size, len - pos)` bytes, and none past the end of the file |
| Bytes.ReadAtBytes | src/gb.py:17-20 | the bytes read are the file's bytes from the position on |
| Bytes.Overwrite | src/gb.py:22-27 | after a write, the written range holds the data; other bytes are unchanged; a gap past the old end reads as zero; the length grows to cover the write |
| Bytes.ReadOverwrite | src/gb.py:17-27 | reading back a range just written gives the written data |
| Bytes.ReadOverwriteElsewhere | src/gb.py:17-27 | a write to a disjoint range leaves a full read unchanged |
| Bytes.OverwriteWithOwnBytes | src/gb.py:17-27 | writing back the bytes just read at a position leaves the file unchanged |
| Bytes.BigEndianBound | src/ips.py:30-32 | an n-byte big-endian field is below 256^n |
| Bytes.BigEndianRoundTrip | src/ips.py:30-32 | reading back the n-byte big-endian encoding of a value gives the value |
| GB.GBFile.Read | src/gb.py:17-20 | returns at most `size` bytes: those of the file from `position` on |
| GB.GBFile.Write | src/gb.py:22-27 | the new contents are the old contents overwritten by `data` at `position` |
| Ips.Step | src/ips.py:23-36 | a loop turn that reads a record consumes at least 4 bytes besides its data and no more than the file holds, so the parse terminates |
| Ips.ReadRecord | src/ips.py:24-36 | one turn of the loop body: stop at `size - 3`, on a short offset or on a zero length; otherwise the record read and the position after its data |
| Ips.RecordsFrom | src/ips.py:23-36 | the records read from a position, each with its 4 header bytes and its data, fit in the rest of the file |
| Ips.NoTurn | src/ips.py:24-34 | when the turn at a position reads no record, nothing more is read from there |
| Ips.NextTurn | src/ips.py:27-36 | a turn that reads a record moves forward, within the file, and the records from there follow it |
| Ips.Parse | src/ips.py:19-36 | the file parses exactly when its first 5 bytes are `PATCH`; otherwise the error is `InvalidFormat` |
| Ips.Open | src/ips.py:8-36 | a wrong extension is rejected before the file is looked up, and a missing file before the magic is checked; the container loads exactly when the first 5 bytes are `PATCH` |
| Ips.Load | src/ips.py:8-36 | the constructor returns exactly what `Open` specifies: the error in the order above, or the records the parse loop reads |
| Ips.ReadRecords | src/ips.py:23-36 | the imperative parse loop returns the records of `RecordsFrom`, in file order |
| Ips.RecordTaken | src/ips.py:27-36 | a turn with 3 offset bytes and a nonzero length appends the record read and continues after its data |
| Ips.StopHere | src/ips.py:24-34 | the loop stops without a record at `size - 3`, on a short offset, or on a zero length |
| Ips.RecordsShape | src/ips.py:23-36 | every record has an offset below 2^24 and at most 65535 data bytes; every record but the last has data; records with their 4 header bytes fit in the file |
| Ips.StepShape | src/ips.py:27-32 | a record read has an offset below 2^24 and at most 65535 data bytes |
| Ips.EmptyDataEnds | src/ips.py:31-36 | a record whose nonzero length met the end of the file, so that its payload came out empty, is the last record read |
| Ips.ShortFileHasNoRecords | src/ips.py:19-29 | `PATCH` followed by at most 3 bytes parses to no records, without error |
| Ips.OneRecordExample | src/ips.py:23-36 | a concrete file with one record and a zero-filled tail parses to that one record |
| Ips.TruncatedPayloadExample | src/ips.py:31-36 | a length that runs past the end of the file keeps the record with the bytes that are there |
| Ips.EncodeRecords | src/ips.py:27-36 | the encoding of the records is 5 bytes per record plus their data |
| Ips.ParseSerialize | src/ips.py:19-36 | parsing `PATCH`, encoded records with 24-bit offsets and 1 to 65535 data bytes, and `EOF` gives back exactly those records |
| Ips.RecordsFromEncoded | src/ips.py:23-36 | the encoded records followed by the footer are read back one by one |
| Ips.ExtractOffsets | src/ips.py:42-45 | there is one offset per data byte: the total payload length |
| Ips.ExtractOffsetsAt | src/ips.py:42-45 | byte `i` of record `k` yields `offset + i`, after the offsets of the records before it |
| Ips.InExtractOffsets | src/ips.py:42-45 | an offset is yielded exactly when some record's range `[offset, offset + len)` covers it |
| Ips.HasConflict | src/ips.py:48-52 | the set intersection of the two offset lists is nonempty; its meaning is stated by `Ips.ConflictIffOverlap` |
| Ips.ConflictIffOverlap | src/ips.py:48-52 | two containers conflict exactly when a record of one overlaps a record of the other |
| Ips.ConflictSymmetric | src/ips.py:48-52 | the conflict relation is symmetric |
| Ips.SelfConflict | src/ips.py:48-52 | a container with a nonempty record conflicts with itself |
| Ips.NoWritesNoConflict | src/ips.py:48-52 | a container with no records, or only empty ones, conflicts with nothing |
| Ips.BoundaryExamples | src/ips.py:48-52 | ranges are half-open: `[16,18)` and `[18,20)` do not conflict; `[16,18)` and `[17,20)` do |
| Tile.ShiftIsPixelMask | src/tile.py:36-41 | `1 << (7 - x)` is the bit that holds pixel `x` |
| Tile.PixelMasksDisjoint | src/tile.py:36-41 | two pixels of a row use different bits |
| Tile.DecodePixel | src/tile.py:16-22 | the colour of one pixel is a 2-bit index, below 4 |
| Tile.DecodeTile | src/tile.py:16-22 | 16 bytes decode to an 8x8 tile of colour indices in 0..3 |
| Tile.DecodePixelBits | src/tile.py:16-22 | pixel `x` is bit `7 - x` of byte `2y` plus twice bit `7 - x` of byte `2y + 1`, a value in 0..3 |
| Tile.PlaneBits | src/tile.py:32-41 | one plane byte of a row; which bit is set for which pixel is stated by `Tile.PlaneBitsAt` |
| Tile.PlaneBitsAt | src/tile.py:32-41 | the bit of pixel `k` in a plane byte is set exactly when the pixel's colour has that plane's bit |
| Tile.EncodeTile | src/tile.py:30-41 | `write_tile` always produces exactly 16 bytes |
| Tile.DecodeEncode | src/tile.py:16-22 | decoding the 16 bytes `write_tile` builds gives each colour modulo 4 |
| Tile.EncodeDecode | src/tile.py:16-22 | encoding the decoding of any 16 bytes gives back the same 16 bytes |
| Tile.EncodeDecodeBit | src/tile.py:16-22 | each bit of the 16 bytes survives decoding and encoding again |
| Tile.ReadTile | src/tile.py:11-24 | reads 16 bytes at `index`; a short read raises; otherwise a fresh 8x8 image holding the decoded tile |
| Tile.DecodeRow | src/tile.py:16-22 | the inner decode loop sets row `y` of the image and nothing else |
| Tile.WriteTile | src/tile.py:26-43 | a tile that is not 8x8 is rejected with the ROM unchanged; otherwise the ROM is overwritten at `index` with exactly the 16 encoded bytes |
| Tile.EncodeBuffer | src/tile.py:30-41 | the zeroed buffer ends up holding the encoded tile |
| Tile.EncodeRow | src/tile.py:32-41 | the inner loop makes bytes `2y` and `2y + 1` the two planes of row `y`, and leaves the others alone |
| Tile.SetPixelBits | src/tile.py:38-41 | colour bit 0 sets the pixel's bit in the low byte and colour bit 1 in the high byte; higher colour bits are ignored |
| Tile.Base | src/tile.py:50-52 | the base address in force at tile `i`; stated by `Tile.BaseIsLastJump` and `Tile.BaseWithoutJump` |
| Tile.TileAddress | src/tile.py:50-53 | tile `i` is at `base + mapping[i] * 16`; `Tile.ReadMultiTile` and `Tile.WriteMultiTile` are proved to use it |
| Tile.BaseIsLastJump | src/tile.py:50-52 | the base in force is the last nonzero `jump_to` entry seen so far |
| Tile.BaseWithoutJump | src/tile.py:50-52 | without a nonzero jump so far the base is the starting index |
| Tile.TileOrigin | src/tile.py:54-55 | tile `i` of a `w` by `h` grid has its origin at `((i % w) * 8, (i // w) * 8)`, inside the image |
| Tile.TileCoords | src/tile.py:54-55 | pixel `(X, Y)` lies in tile column `X // 8` and tile row `Y // 8` |
| Tile.InTileIff | src/tile.py:54-56 | a pixel lies in the 8x8 block at tile `i`'s origin exactly when `i` is its tile, at place `(X % 8, Y % 8)`: the tiles do not overlap |
| Tile.TileOfInRange | src/tile.py:49-56 | every pixel of the image belongs to one of the `w * h` tiles: the tiles cover it |
| Tile.MultiTileImage | src/tile.py:45-58 | the image assembled is `w * 8` by `h * 8` |
| Tile.Paste | src/tile.py:56 | pasting changes exactly the 8x8 block at the origin, to the tile's pixels |
| Tile.PlaceTile | src/tile.py:54-56 | placing tile `i` changes exactly the pixels whose tile is `i` |
| Tile.ReadMultiTile | src/tile.py:45-58 | succeeds exactly when every tile can be indexed and read in full, and then returns a fresh image holding each pixel of its tile, read at `TileAddress` |
| Tile.ReadStep | src/tile.py:50-56 | one pass takes the jump, reads tile `i` at its address and pastes it, or fails on an index or a short read |
| Tile.ReadyLimit | src/tile.py:64-76 | the loop can index tile `k` exactly when `k` is below the limit |
| Tile.StopsAt | src/tile.py:64-76 | the loop stops at the first tile it cannot index |
| Tile.CopyBlock | src/tile.py:68-74 | the new 8x8 tile holds the block of the image that tile `i` covers |
| Tile.CopyBlockAt | src/tile.py:71-74 | the pixel loop copies the block at the given origin into a fresh 8x8 image |
| Tile.BlockAtPixel | src/tile.py:71-74 | pixel `(X, Y)` of the image is pixel `(X % 8, Y % 8)` of the 8x8 block holding it |
| Tile.WriteMultiTile | src/tile.py:60-76 | a wrong image size is rejected before any write; otherwise the tiles are written in order at their addresses, as far as `mapping` and a non-empty `jump_to` can be indexed |
| Tile.WriteStep | src/tile.py:64-76 | one pass takes the jump and writes tile `i`, or stops with nothing written |
| Tile.StoreBlock | src/tile.py:68-76 | copies tile `i` out of the image and writes its encoding at `base + mapping[i] * 16` |
| Tile.ReadWrittenTile | src/tile.py:11-43 | a tile written and read back at the same index gives its colours modulo 4 |
| Tile.WrittenTileSurvives | src/tile.py:60-76 | when tiles do not share ROM bytes, each tile written is still there after the later ones |
| Tile.RoundTripPixel | src/tile.py:45-76 | a pixel read back from its tile as written is its colour modulo 4 |
| Tile.MultiTileRoundTrip | src/tile.py:45-76 | `read_multi_tile` after `write_multi_tile` with the same addresses gives the image's colours modulo 4, provided the tiles do not share ROM bytes |
| Tile.ReadBlock | src/tile.py:45-58 | the block of tile `i` in the image read is the decoding of the 16 bytes at tile `i`'s address |
| Tile.ReadBlockPixel | src/tile.py:49-56 | each pixel of tile `i`'s block in the image read is the pixel of the tile read at its address |
| Tile.TilesRewritten | src/tile.py:64-76 | writing back at each tile's address the 16 bytes read there leaves the ROM unchanged |
| Tile.MultiTileRewrite | src/tile.py:45-76 | `write_multi_tile` of the image `read_multi_tile` gave, with the same addresses, leaves the ROM unchanged, even when tiles share bytes |
| Patch.ApplyRecords | patch.py:17-18 | writing the records in order never shortens the ROM; byte by byte it is stated by `Patch.ApplyRecordsByte` |
| Patch.LastCover | patch.py:17-18 | the last record that writes a byte, or none when no record writes it |
| Patch.ApplyRecordsLength | patch.py:17-18 | after applying, the file ends at its old end or at the end of the furthest nonempty record |
| Patch.ApplyRecordsByte | patch.py:17-18 | each byte is the one its last writing record put there; the later of two overlapping records wins; an unwritten byte keeps its value |
| Patch.ApplyRecordsAppend | patch.py:17-18 | applying two record lists one after the other is applying their concatenation |
| Patch.LastCoverAppend | patch.py:17-18 | the last writer in a concatenation comes from the second list when it writes the byte |
| Patch.DisjointPatchesCommute | patch.py:209-213 | two containers that do not conflict give the same ROM in either order |
| Patch.DisjointByte | patch.py:17-18 | a byte that at most one of two record lists writes comes out the same in either order |
| Patch.WrittenCount | patch.py:17-24 | all records are written exactly when no write raises |
| Patch.PatchApplies | patch.py:10-24 | `apply_patch` returns True exactly when the container loads and no write raises; stated by `Patch.ApplyPatch` |
| Patch.PatchEffect | patch.py:10-24 | a container that fails to load leaves the ROM unchanged; a patch that applies writes all its records in order; the ROM never shrinks |
| Patch.ApplyPatch | patch.py:10-24 | returns True exactly when the container loads and no write raises; the ROM holds the records written in order up to the failing one, with no rollback |
| Patch.AppliedPatchBytes | patch.py:17-21 | after a successful apply, each byte is its last writer's data, or its old value when no record covers it |
| Patch.OpenAll | patch.py:47-50 | the containers load exactly when each of them does |
| Patch.FirstConflictFrom | patch.py:53-59 | the pair found conflicts and no conflicting pair comes before it in sweep order |
| Patch.FirstConflict | patch.py:53-61 | no pair is found exactly when no pair `i < j` conflicts; otherwise the first conflicting pair in lexicographic order |
| Patch.ConflictWarning | patch.py:42-64 | a conflict is reported exactly when there are at least two paths, all of them load, and some pair `i < j` conflicts |
| Patch.CheckPatchConflicts | patch.py:42-64 | the sweep returns True exactly when it warns, about the pair `ConflictWarning` names |
| Patch.LoadAll | patch.py:47-50 | the loading loop gives the loaded containers, or fails on the first that does not load |
| Patch.Sweep | patch.py:53-61 | the nested loops return the first conflicting pair in `(i, j)` order |
| Patch.LoadFailure | patch.py:62-64 | one container that fails to load fails the whole check |
| Patch.StrLess | patch.py:118 | the order `sorted` uses on names; it is a strict total order (`Patch.StrLessTransitive`, `Patch.StrLessTotal`) |
| Patch.StrLessTransitive | patch.py:118 | the order `sorted` uses on names is transitive |
| Patch.StrLessTotal | patch.py:118 | two different names are ordered one way or the other |
| Patch.Insert | patch.py:118 | inserting a name into a sorted list keeps it sorted and adds just that name |
| Patch.SortStrings | patch.py:118 | `sorted(names)` is sorted and a permutation of the names |
| Patch.InteractiveMode | patch.py:109-147 | the prompt loop returns what `InteractiveSelection` specifies |
| Patch.AddNumbers | patch.py:130-140 | the selection after one line of numbers; stated by `Patch.AddNumbersMeaning` |
| Patch.Interact | patch.py:120-145 | the prompt loop over the lines typed; stated by `Patch.InteractOutcome` and `Patch.InteractSelectsCatalogNames` |
| Patch.InteractiveSelection | patch.py:109-147 | the names `interactive_mode` returns; stated by `Patch.InteractiveSelectionWithinCatalog` |
| Patch.SelectNumbers | patch.py:130-140 | the loop over one line's numbers gives the selection `AddNumbers` specifies |
| Patch.AddNumbersMeaning | patch.py:131-140 | numbers only append; a name is added exactly when a number in `1..len(patch_list)` names it; no name is selected twice |
| Patch.InteractSelectsCatalogNames | patch.py:120-145 | whatever the loop returns is a list of available names without repetition |
| Patch.InteractiveSelectionWithinCatalog | patch.py:109-147 | the interactive selection names each available patch at most once and nothing else |
| Patch.InteractOutcome | patch.py:124-145 | the first `done`, `all` or Ctrl-C decides: `all` selects every patch, Ctrl-C selects nothing, `done` returns what the number lines before it gathered |
| Patch.InteractWithoutDecision | patch.py:120-122 | without `done`, `all` or Ctrl-C the input runs out and the prompt raises |
| Patch.FirstUnknown | patch.py:185-191 | no unknown name exactly when every requested name is available; otherwise the first unavailable one |
| Patch.ValidateNames | patch.py:183-191 | the loop stops on the first unknown name; without one, the names are selected in the order given |
| Patch.ApplyAll | patch.py:228-237 | applying the selected patches in order never shortens the ROM |
| Patch.SuccessCount | patch.py:228-237 | the number of patches that applied is at most the number attempted |
| Patch.SuccessCountMeaning | patch.py:229-237 | the success count is at most the number selected; it equals it exactly when every patch applies, and is 0 exactly when none does |
| Patch.AllSucceed | patch.py:228-237 | the count equals the number attempted exactly when every patch applies |
| Patch.NoneSucceed | patch.py:228-237 | the count is 0 exactly when no patch applies |
| Patch.ApplySelected | patch.py:228-237 | the loop counts the patches whose `apply_patch` returned True, and the ROM holds their effects in order |
| Patch.Selected | patch.py:177-194 | the patches chosen are all available |
| Patch.Prepare | patch.py:166-213 | an unknown name stops before anything is copied; a run that goes on has a nonempty selection of available patches and an existing input |
| Patch.CopyAndPatch | patch.py:216-244 | the copy and apply steps of `main` as written: with the output equal to the input nothing is patched; a patched run attempts every selected patch and counts at most that many |
| Patch.CopyAndPatchInPlace | patch.py:216-237 | the evidently intended copy and apply steps: an in-place run is patched like any other |
| Patch.InPlaceDiscrepancy | patch.py:216-244 | the two agree unless the output equals the input; then `main` patches nothing, while the intended run writes every patch into the ROM and counts them all when they apply |
| Patch.InPlaceRunExample | patch.py:216-244 | with input and output both `a.gb` and one empty patch, `main` ends with `SameFile`; the intended run reports 1 of 1 patches applied |
| Patch.RunOutcome | patch.py:150-244 | an unknown patch name ends the run before the ROM is copied; an output equal to the input ends the run with nothing patched; a run that reaches the copy has an existing input; a patched run attempts at least one patch and counts at most that many |
| Patch.Run | patch.py:166-244 | `main` after argument parsing ends as `RunOutcome` specifies, including an in-place run that patches nothing |

## Findings

| source | as written | input that shows it | evidently intended | confidence | as-written member | corrected member |
|---|---|---|---|---|---|---|
| patch.py:216-223 | when the output name equals the input name, `main` makes the backup and then copies the input onto itself; `shutil.copyfile` raises `SameFileError`, the handler at patch.py:242-244 catches it, and no patch is applied | `--input a.gb --output a.gb` with one valid patch selected (`Patch.InPlaceRunExample`; in general `Patch.InPlaceDiscrepancy`) | patch the ROM in place after making the backup | not executed | Patch.CopyAndPatch | Patch.CopyAndPatchInPlace |

## Left out

- File handles, `os.path.isfile` and `os.path.getsize`: the file system is a map from path to bytes. `FileNotFoundError` is the path missing from the map.
- PIL images and the palette: images are `array2<bv8>` of palette indices addressed `[x, y]`. `getpixel`, `putpixel` and `paste` become array reads and writes. The RGB palette is display-only.
- `apply_tiles.py` and `apply_cheats.py`: they only make single calls into the core, with fixed addresses.
- `load_available_patches`, `show_help`, `list_patches`, argparse and all printing. The catalog is given as its names in discovery order (`keys`) and a map from name to path.
- Text input: `input()` lines at the selection prompt are given already classified as `Line` values. A line whose `int()` conversion raises is `NotNumbers`, and the whole line is discarded, as the list comprehension builds all numbers before any is used.
- Patch.Run: an end of input at the selection prompt ends the run (`InputEnded`). In the program, the `EOFError` escapes `main` uncaught.
- Patch.Run: the answer to the conflict question is a boolean. An end of input at that prompt is not modelled.
- Patch.Run: models `main` as written, so an output equal to the input ends with `SameFile` and nothing patched. `Patch.CopyAndPatchInPlace` is the corrected definition; `Patch.Run` does not use it.
- Patch.Run: the output and input names are compared as strings. Two different spellings of the same file are not recognised as the same file.
- Patch.Run: the backup copy itself is not recorded in the file-system map, and neither is the copy of the input to the output. A refused output name (not `.gb`) returns the copied bytes (`Copied`). A patched run returns the patched bytes.
- Patch.Run: a failure of the copy itself is not modelled. The `isfile` check of the output inside `GBFile` always passes after the copy.
- The `.gb` extension check of `GBFile.__init__` is modelled only in `Patch.Run`, as `EndsWith(output, ".gb")`. `GB.GBFile`'s constructor takes the bytes of an already opened file.
- The `TypeError` check of `GBFile.write` is left out: every caller passes bytes.
- I/O errors during writes are a parameter (`fault`, the index of the record whose write raises). A failing write is taken to write nothing. A write of no bytes leaves the file unchanged, even past its end.
- Tile.ReadMultiTile: `mapping` and `jump_to` entries are natural numbers. Python's negative indexing and negative addresses are not modelled.
- Tile.WriteMultiTile: `mapping` and `jump_to` entries are natural numbers, as above.
- Tile.MultiTileRoundTrip: the round trip is proved only when the tiles' ROM ranges do not overlap. Tiles written over one another keep the later tile's bytes.
- Ips.ParseSerialize: this proves only the direction from records to file. A file with trailing bytes after a truncated record, or without the `EOF` footer, parses to records that do not serialize back to the same bytes.
- Run-length-encoded records and 4-byte (IPS32) offsets: the program does not support them. A zero length ends the record list.
