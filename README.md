# DSI Studio core: a verified Dafny model

This project models seven pieces of DSI Studio in Dafny and proves properties of each. DSI Studio reconstructs diffusion MRI data, tracks fibres and runs connectometry statistics.

1. **`TinyTrack`** (module `TinyTrack`). This is the compact trajectory codec of the `.tt.gz` format.
   - Each streamline is taken on the integer layer, as coordinates already quantised to 1/32 voxel.
   - The codec delta-encodes them and splits every displacement that does not fit a signed byte into halved steps.
   - It frames each streamline as a 16-byte header plus one byte per later coordinate.
   - It cuts the records into chunks of about 128 MiB named `track`, `track1`, … .
   - The decoder scans the headers and rebuilds the points as prefix sums.
   - The model proves the round trip: loading what was saved gives every streamline back in order. A streamline without a leap comes back exactly. Otherwise the decoded streamline passes through every original point.
2. **`TractModel`**: the streamline store with its undo/redo history.
   - Module `TractStore` states every editing operation as a function on a `Store` value and proves its properties: delete, select, undo, redo, cut, cut by slice, add, erase-empty and clear.
   - Module `TractModelClass` holds the class `TractModel`, whose member vectors the methods push to, pop from and erase in place. Each method is proved to move the abstract store exactly as the matching `TractStore` function does.
3. **Connectivity counting** (module `Connectivity`, class `ConnectivityMatrix`):
   - the passing and end-point region lists of each streamline;
   - the region membership map of `set_regions`;
   - the pair emission of `for_each_connectivity`;
   - the "count" matrix with its threshold.
4. **Binary network measures** (module `Network`): the binarised matrix, node degree, the binary clustering coefficient, and `distance_bin`'s shortest walk lengths by matrix powers.
5. **Subject table and demographics** (modules `Demographics` and `ConnectometryDb`):
   - `parse_age_sex` and the CSV / whitespace table parser `parse_demo`;
   - the database's lockstep subject edits;
   - `calculate_si2vi`;
   - the regression model's `read_demo`, `select_variables`, `remove_subject` and `pre_process`.
6. **`program_option`** (module `ProgramOption`, class `Options`): the `--key=value` option map and its lookups.
7. **`TractRenderData`** (module `TractRender`): the vertex-buffer and strip bookkeeping of the renderer.

Module `Common` holds the sequence helpers the others share. These are filtering by a mask, the ascending list of set positions, sums, reversal and concatenation.

What the model abstracts:
- Coordinates are integers already multiplied by 32. The `ldexp`/`round` scaling on either side of the codec is exact.
- `std::stof` is a parameter, in two parts: a predicate `isNumber` ("the text reads as a number") and a function `value`.
- The compatibility test of `add_db` is a boolean parameter.
- A subject's QA buffer is a value (`seq<real>`), not an address into a shared buffer.
- Every `tipl::par_for` loop runs sequentially.
- File reading and writing become maps from chunk names to byte sequences.

## Model

| member | source | states |
|---|---|---|
| ProgramOption.Find | program_option.hpp:11-13 | the index of the first `=`, or the length when there is none, as `std::find` |
| ProgramOption.SplitOption | program_option.hpp:7-16 | accepted iff at least 3 characters, a leading `--` and an `=`; the key and value rebuild the argument, and the key holds no `=` |
| ProgramOption.LastOccurrenceWins | program_option.hpp:14 | after a run with no rejection, a key holds the value of its last occurrence |
| ProgramOption.KeyUntouched | program_option.hpp:14 | a key no argument names keeps its old presence and value |
| ProgramOption.StopsAtFirstRejected | program_option.hpp:23-31 | parsing stops at the first malformed argument; earlier options stay set and that argument is reported |
| ProgramOption.CollectAccepts | program_option.hpp:23-33 | nothing is rejected iff every argument is a well-formed option |
| ProgramOption.ParseStringAlwaysFails | program_option.hpp:39-48 | as written, the string overload rejects some token for every input: the first malformed token, or, when every token is well formed, the empty extraction after the last one |
| ProgramOption.ParseStringRejectsValidInput | program_option.hpp:39-48 | `"--a=1"` is one well-formed option, yet the string overload rejects it with an empty token |
| ProgramOption.ParseStringIntended | program_option.hpp:35-51 | the corrected overload succeeds iff every whitespace-separated token is a well-formed option |
| ProgramOption.RejectedStays | program_option.hpp:26-30 | once an argument is rejected, later arguments change nothing |
| ProgramOption.TokensAt | program_option.hpp:42 | the extraction at a position yields the next token, then the tokens after it |
| ProgramOption.Options.constructor | program_option.hpp:5-6 | an empty option map and an empty error message |
| ProgramOption.Options.AddOption | program_option.hpp:7-16 | returns whether the argument is well formed, and stores its key and value exactly then |
| ProgramOption.Options.Parse | program_option.hpp:20-34 | clears the map, skips `av[0]`, keeps the options before the first bad argument and sets `"cannot parse: "` plus it |
| ProgramOption.Options.ParseString | program_option.hpp:35-51 | always returns false; the map holds the options of the tokens before the first rejected token, and the message is `"cannot parse: "` plus that token, which is empty when every token is well formed |
| ProgramOption.Options.Has | program_option.hpp:53-56 | true iff the name is in the map |
| ProgramOption.Options.Get | program_option.hpp:58-65 | the stored value, or `""` when absent |
| ProgramOption.Options.GetOr | program_option.hpp:67-76 | the stored value, or the default when absent |
| ProgramOption.Options.GetAs | program_option.hpp:77-84 | `df` unchanged when absent, else the stream extraction of the stored text over `df` |
| TractRender.StripSizesSum | opengl/tract_render.hpp:99-108 | the strip sizes add up to the last recorded position |
| TractRender.EndStripValid | opengl/tract_render.hpp:99-108 | closing a strip keeps `|pos| == |size| + 1`, `pos.back() == count` and the sum invariant |
| TractRender.TractRenderData.constructor | opengl/tract_render.hpp:69-73 | both position lists start as `[0]`, the size lists and buffers empty |
| TractRender.TractRenderData.AddTube | opengl/tract_render.hpp:76-88 | appends position, normal and colour (9 values) and counts one vertex; `|tube_vertices| == 9 * count` holds |
| TractRender.TractRenderData.AddLine | opengl/tract_render.hpp:89-98 | appends position and colour (6 values) and counts one vertex; `|line_vertices| == 6 * count` holds |
| TractRender.TractRenderData.EndTubeStrip | opengl/tract_render.hpp:99-103 | pushes the vertices since the last strip as its size and the count as its end; the sizes still sum to the last position |
| TractRender.TractRenderData.EndLineStrip | opengl/tract_render.hpp:104-108 | the same for line strips |
| TinyTrack.FlattenToPoints | libs/tracking/tract_model.cpp:103-107 | the flat x y z layout and the point list are inverse |
| TinyTrack.RunningDeltas | libs/tracking/tract_model.cpp:105-107 | prefix sums of the displacements give back every point |
| TinyTrack.SumDeltas | libs/tracking/tract_model.cpp:105-107 | the displacements up to point k sum to point k |
| TinyTrack.Halve | libs/tracking/tract_model.cpp:128-134 | the halving loop ends with a step that fits a byte, lies between 0 and the displacement on every axis, and leaves a displacement that fits unchanged |
| TinyTrack.ResidualShrinks | libs/tracking/tract_model.cpp:135-141 | what remains after the halved step is strictly smaller |
| TinyTrack.PiecesFit | libs/tracking/tract_model.cpp:118-147 | every piece of a split displacement fits a byte, and a fitting displacement is its own only piece |
| TinyTrack.PiecesSum | libs/tracking/tract_model.cpp:118-147 | the pieces add up to exactly the displacement |
| TinyTrack.SplitTailSum | libs/tracking/tract_model.cpp:118-147 | splitting keeps the total displacement |
| TinyTrack.SplitWithoutLeap | libs/tracking/tract_model.cpp:110-118 | when no displacement leaps, splitting leaves the delta stream unchanged |
| TinyTrack.EncodeShape | libs/tracking/tract_model.cpp:103-147 | the encoding starts with the first point, every later entry fits a byte, and without a leap it is the plain delta stream |
| TinyTrack.EncodePrefix | libs/tracking/tract_model.cpp:118-147 | encoding a prefix of a streamline gives a prefix of its encoding |
| TinyTrack.SumEncode | libs/tracking/tract_model.cpp:118-147 | the stored displacements add up to the last point |
| TinyTrack.PassesThroughOriginals | libs/tracking/tract_model.cpp:118-147 | decoding the stored stream passes through every original point in order and ends at the last one |
| TinyTrack.LE32RoundTrip | libs/tracking/tract_model.cpp:56-64 | a `uint32_t` written little-endian reads back unchanged |
| TinyTrack.I32RoundTrip | libs/tracking/tract_model.cpp:56-64 | an `int32_t` in two's complement reads back unchanged |
| TinyTrack.SignedByteOf | libs/tracking/tract_model.cpp:177 | `char(v)` read back as a signed byte is `v` for every value that fits |
| TinyTrack.Header | libs/tracking/tract_model.cpp:169-174 | the header is 16 bytes |
| TinyTrack.RecordBytes | libs/tracking/tract_model.cpp:148 | a record is `16 + count - 3` bytes |
| TinyTrack.UndeltaFlatPoints | libs/tracking/tract_model.cpp:254-255 | the flat prefix sums of the decoder are the point-wise running sums |
| TinyTrack.RecordLayout | libs/tracking/tract_model.cpp:165-178 | the record is the header followed by one signed byte per later int |
| TinyTrack.HeaderReads | libs/tracking/tract_model.cpp:245-252 | a record's header reads back as its count and first point |
| TinyTrack.RecordDecodes | libs/tracking/tract_model.cpp:242-258 | a record placed anywhere in a chunk decodes to the prefix sums of what it stores |
| TinyTrack.ScanRecords | libs/tracking/tract_model.cpp:233-239 | the header scan, advancing by `count + 13`, finds exactly the record starts |
| TinyTrack.ChunkRoundTrip | libs/tracking/tract_model.cpp:232-258 | a chunk of records decodes, in order, to what each record stores |
| TinyTrack.TakeCount | libs/tracking/tract_model.cpp:154-162 | a chunk takes at least one record and never runs past the last |
| TinyTrack.TakeCountBound | libs/tracking/tract_model.cpp:154-162 | before its last record a chunk holds at most 134217728 bytes, and a chunk that is not the last holds more |
| TinyTrack.ChunksConcat | libs/tracking/tract_model.cpp:151-185 | chunking loses no byte and keeps the order |
| TinyTrack.NatToStringInjective | libs/tracking/tract_model.cpp:183 | `std::to_string` gives distinct numbers distinct texts |
| TinyTrack.ChunkNameInjective | libs/tracking/tract_model.cpp:180-183 | `track`, `track1`, `track2`, … are pairwise distinct names |
| TinyTrack.SaveMapHas | libs/tracking/tract_model.cpp:180-183 | the written file holds chunk b under its name exactly for the chunks written |
| TinyTrack.SaveLoadRoundTrip | libs/tracking/tract_model.cpp:67-263 | loading a saved file gives every streamline back, in order, as the prefix sums of its encoding; a file for no streamline has no `track` and fails |
| TinyTrack.LoadChunks | libs/tracking/tract_model.cpp:216-231 | loading from chunk b on gives the decoded streams of the records stored from b on |
| TinyTrack.ReloadedStreams | libs/tracking/tract_model.cpp:92-258 | the stored stream of each streamline decodes to its reloaded form |
| TinyTrack.ReloadedExact | libs/tracking/tract_model.cpp:67-263 | a streamline without a leap loads back exactly |
| TinyTrack.DeltaInPlace | libs/tracking/tract_model.cpp:105-107 | the backward subtraction loop leaves the delta stream in the array |
| TinyTrack.HasLeap | libs/tracking/tract_model.cpp:109-116 | false iff every int after the first point fits a byte |
| TinyTrack.HalveToFit | libs/tracking/tract_model.cpp:124-134 | interpolates iff the point is not the first and does not fit; the result is the halved step |
| TinyTrack.EmittedIsSplit | libs/tracking/tract_model.cpp:120-146 | the whole leap-splitting pass emits the split stream |
| TinyTrack.SplitLeaps | libs/tracking/tract_model.cpp:118-147 | the in-place leap-splitting loop outputs the split stream |
| TinyTrack.EncodeTrack | libs/tracking/tract_model.cpp:100-148 | the integer encoding of one streamline as `save_to_file` computes it |
| TinyTrack.WriteRecord | libs/tracking/tract_model.cpp:167-177 | the bytes written at the record's offset are the record, and nothing else changes |
| TinyTrack.ChunkExtent | libs/tracking/tract_model.cpp:153-162 | each record's offset is the running total of the sizes before it, and the chunk ends as the 128 MiB rule says |
| TinyTrack.WriteChunk | libs/tracking/tract_model.cpp:164-178 | the chunk buffer is its records laid end to end |
| TinyTrack.EncodeAll | libs/tracking/tract_model.cpp:92-149 | every streamline is encoded and its record size is `16 + |t32| - 3` |
| TinyTrack.WriteChunks | libs/tracking/tract_model.cpp:151-185 | the chunks are written in order, chunk b under its name |
| TinyTrack.SaveToFile | libs/tracking/tract_model.cpp:92-185 | the streamline part of the saved file |
| TinyTrack.DecodeAllFails | libs/tracking/tract_model.cpp:242-258 | once one record fails to decode, the whole chunk fails the same way |
| TinyTrack.ScanChunk | libs/tracking/tract_model.cpp:232-239 | the header scan loop of one chunk, including its missing bounds check |
| TinyTrack.DecodeRecord | libs/tracking/tract_model.cpp:244-257 | decodes one record; the only check is `count > buf_size` against the whole chunk |
| TinyTrack.DecodeChunkRecords | libs/tracking/tract_model.cpp:240-258 | decodes every record of one chunk, in order |
| TinyTrack.LoadBlock | libs/tracking/tract_model.cpp:216-258 | one block of the load loop appends its streamlines, or its failure is the load's outcome |
| TinyTrack.LoadFromFile | libs/tracking/tract_model.cpp:216-262 | reads `track`, `track1`, … in order until a name is missing; a missing `track` fails |
| TractStore.EraseEmptyKeeps | libs/tracking/tract_model.cpp:1667-1675 | no empty streamline is left; survivors keep their order with their own colours and tags; nothing else changes |
| TractStore.DeleteTracts | libs/tracking/tract_model.cpp:1677-1693 | `delete_tracts` keeps the store consistent: equal lengths of the parallel arrays, group sizes summing to the deleted stacks, one cut mark per group |
| TractStore.DeleteIgnoresRedo | libs/tracking/tract_model.cpp:1677-1693 | apart from clearing it, `delete_tracts` does not depend on the redo stack |
| TractStore.Undo | libs/tracking/tract_model.cpp:2336-2361 | `undo` keeps the store consistent |
| TractStore.Redo | libs/tracking/tract_model.cpp:2365-2378 | `redo` keeps the store consistent |
| TractStore.Cut | libs/tracking/tract_model.cpp:1841-1873 | `cut` keeps the store consistent |
| TractStore.CutBySlice | libs/tracking/tract_model.cpp:1911-1955 | `cut_by_slice` keeps the store consistent |
| TractStore.MoveOutPushes | libs/tracking/tract_model.cpp:1681-1686 | the listed rows are pushed onto the deleted stacks in list order |
| TractStore.MoveOutEmpties | libs/tracking/tract_model.cpp:1681-1686 | exactly the listed streamlines are emptied |
| TractStore.DeleteEffect | libs/tracking/tract_model.cpp:1677-1693 | on distinct indices of non-empty streamlines: the unlisted survive in order, the listed are pushed in list order, one group of that size is pushed, not a cut, and redo is cleared |
| TractStore.NotSelectedFacts | libs/tracking/tract_model.cpp:1697-1706 | `select_tracts` deletes exactly the unlisted indices, each once, in increasing order |
| TractStore.SelectKeeps | libs/tracking/tract_model.cpp:1695-1708 | exactly the listed streamlines survive, in their order; the rest become one group |
| TractStore.UndoDelete | libs/tracking/tract_model.cpp:2336-2361 | undoing a deletion re-appends the group in reverse deletion order, restores the deleted stacks, group sizes and cut marks, and pushes the redo entry |
| TractStore.RedoTail | libs/tracking/tract_model.cpp:2365-2378 | redo of an entry covering the tail moves that tail onto the deleted stacks as one group and keeps the rest of the redo stack |
| TractStore.RedoUndoDelete | libs/tracking/tract_model.cpp:2336-2378 | redo right after undoing a deletion deletes the same streamlines again |
| TractStore.UndoDeleteNonEmpty | libs/tracking/tract_model.cpp:2336-2361 | undoing a deletion of non-empty streamlines leaves none empty |
| TractStore.UndoPushesRedo | libs/tracking/tract_model.cpp:2340 | `undo` pushes one redo entry: the active size before the undo, and the group size |
| TractStore.CutIndicesFacts | libs/tracking/tract_model.cpp:1850-1859 | `cut` splits exactly the streamlines whose offset is non-zero, inside them and on more than 2 points, once each, in increasing order |
| TractStore.CutNothing | libs/tracking/tract_model.cpp:1860-1861 | `cut` changes nothing when no streamline splits |
| TractStore.CutPiecesFacts | libs/tracking/tract_model.cpp:1854-1857 | each split streamline becomes two non-empty fragments that concatenate to it, both with its colour |
| TractStore.CutPiecesCount | libs/tracking/tract_model.cpp:1854-1857 | two fragments per split streamline |
| TractStore.CutEffect | libs/tracking/tract_model.cpp:1841-1873 | the split streamlines leave as one group marked with the cut id; survivors keep their order; fragments are appended with the cut id as tag; the id advances and redo is cleared |
| TractStore.CutShape | libs/tracking/tract_model.cpp:1841-1873 | the sizes `cut` leaves: survivors plus two fragments per split, one more group, no redo |
| TractStore.UndoCut | libs/tracking/tract_model.cpp:2336-2361 | undoing a `cut` removes its fragments and brings the split streamlines back at the end, last split first, with their colours and tags |
| TractStore.UndoCutSize | libs/tracking/tract_model.cpp:2336-2361 | after undoing a cut, the active list is the survivors plus the restored streamlines |
| TractStore.StaleRedoAfterCutUndo | libs/tracking/tract_model.cpp:2340 | after a cut is undone, the redo entry's offset counts the erased fragments and lies past the end of the active list |
| TractStore.CutPoints | libs/tracking/tract_model.cpp:1875-1888 | point t's flag is `(coordinate on dim < pos) xor greater`, one flag per point |
| TractStore.LongEnough | libs/tracking/tract_model.cpp:1947 | a fragment is kept iff it has at least two points |
| TractStore.SliceCover | libs/tracking/tract_model.cpp:1921-1941 | the fragments of one streamline cover every point from the first kept one on, in order and without overlap; a cut-side point after a kept one starts a new fragment |
| TractStore.CutBySliceEffect | libs/tracking/tract_model.cpp:1911-1955 | every streamline leaves as one group marked with the cut id, the fragments of at least two points are appended with their colour and the cut id, and redo is cleared |
| TractStore.CutBySliceEmpty | libs/tracking/tract_model.cpp:1944-1945 | on a store without streamlines, `cut_by_slice` deletes nothing yet overwrites the previous group's cut mark |
| TractStore.CutBySliceKeepsMarks | libs/tracking/tract_model.cpp:1944-1945 | the corrected `cut_by_slice` never rewrites an earlier group's cut mark and is defined on every store |
| TractStore.AppendedKeeps | libs/tracking/tract_model.cpp:2389-2396 | appending keeps the old streamlines in place and adds the flagged inputs with the colour and tag 0 |
| TractStore.AddTractsKeeps | libs/tracking/tract_model.cpp:2385-2398 | every non-empty new streamline, and nothing else, is appended after the old ones with the colour and tag 0 |
| TractStore.AddLongTractsKeeps | libs/tracking/tract_model.cpp:2400-2412 | exactly the new streamlines whose unsigned step count is at least the threshold are appended |
| TractStore.EmptyPassesLengthTest | libs/tracking/tract_model.cpp:2405 | as written, an empty streamline passes the length test for every 32-bit threshold, because its step count wraps to 2^64 - 1 |
| TractStore.AddLongTractsIntendedKeeps | libs/tracking/tract_model.cpp:2400-2412 | with the intended test every appended streamline has more than `threshold` points, and on non-empty inputs it agrees with the written test |
| TractStore.AddValid | libs/tracking/tract_model.cpp:633-654 | merging keeps the store consistent |
| TractStore.AddGroupOrder | libs/tracking/tract_model.cpp:650-652 | after merging, the top group size is still this model's while the top deleted streamlines are the other model's |
| TractStore.AddIntendedGroupOrder | libs/tracking/tract_model.cpp:641-653 | after the corrected merge, the other model's top group size and its streamlines are both on top |
| TractStore.UndoIntendedPlain | libs/tracking/tract_model.cpp:2336-2361 | away from a cut, the corrected `undo` is the original one |
| TractStore.UndoIntended | libs/tracking/tract_model.cpp:2336-2361 | the corrected `undo` keeps the store consistent |
| TractStore.CutBySliceIntended | libs/tracking/tract_model.cpp:1911-1955 | the corrected `cut_by_slice` keeps the store consistent |
| TractStore.UndoIntendedAfterCut | libs/tracking/tract_model.cpp:2340-2357 | after undoing a cut, the corrected redo entry covers exactly the restored streamlines |
| TractStore.Popped | libs/tracking/tract_model.cpp:2341-2349 | k rounds of `undo`'s loop pop k streamlines onto the active arrays |
| TractModelClass.TractModel.constructor | libs/tracking/tract_model.cpp:1863-1870 | an empty store whose first cut id is 1, so that the cut marks `cut` writes are never 0 |
| TractModelClass.TractModel.Clear | libs/tracking/tract_model.cpp:1659-1665 | the active arrays and the redo stack are emptied, nothing else changes |
| TractModelClass.TractModel.ClearDeleted | libs/tracking/tract_model.cpp:2327-2334 | the deleted stacks, group sizes and redo stack are emptied |
| TractModelClass.TractModel.EraseEmpty | libs/tracking/tract_model.cpp:1667-1675 | moves the store as `TractStore.EraseEmpty` |
| TractModelClass.TractModel.DeleteTracts | libs/tracking/tract_model.cpp:1677-1693 | moves the store as `TractStore.DeleteTracts` |
| TractModelClass.TractModel.SelectTracts | libs/tracking/tract_model.cpp:1695-1708 | moves the store as `TractStore.SelectTracts` |
| TractModelClass.TractModel.Undo | libs/tracking/tract_model.cpp:2336-2361 | moves the store as `TractStore.Undo` |
| TractModelClass.TractModel.Redo | libs/tracking/tract_model.cpp:2365-2378 | moves the store as `TractStore.Redo`, keeping the rest of the redo stack |
| TractModelClass.TractModel.AddTracts | libs/tracking/tract_model.cpp:2385-2398 | moves the store as `TractStore.AddTracts` |
| TractModelClass.TractModel.AddLongTracts | libs/tracking/tract_model.cpp:2400-2412 | moves the store as `TractStore.AddLongTracts` |
| TractModelClass.TractModel.AddTractsLastColor | libs/tracking/tract_model.cpp:2380-2383 | adds with the last active streamline's colour, or the default colour when there is none |
| TractModelClass.TractModel.Add | libs/tracking/tract_model.cpp:633-654 | moves the store as `TractStore.Add` |
| TractModelClass.TractModel.Cut | libs/tracking/tract_model.cpp:1841-1873 | moves the store as `TractStore.Cut` |
| TractModelClass.TractModel.GetCutPoints | libs/tracking/tract_model.cpp:1875-1888 | the per-point flags are `TractStore.CutPoints` |
| TractModelClass.TractModel.SliceTract | libs/tracking/tract_model.cpp:1923-1941 | the fragments of one streamline are `TractStore.SliceFrags` |
| TractModelClass.TractModel.CutBySlice | libs/tracking/tract_model.cpp:1911-1955 | moves the store as `TractStore.CutBySlice` with the flags of `CutPoints` |
| TractModelClass.TractModel.CutByFlags | libs/tracking/tract_model.cpp:1918-1955 | moves the store as `TractStore.CutBySlice` for given flags |
| TractModelClass.TractModel.MoveToDeleted | libs/tracking/tract_model.cpp:1681-1686 | the loop of `delete_tracts` moves the store as `TractStore.MoveOut` |
| TractModelClass.TractModel.FlagSelected | libs/tracking/tract_model.cpp:1697-1699 | flag i is set iff i is listed |
| TractModelClass.TractModel.PopGroup | libs/tracking/tract_model.cpp:2341-2349 | n rounds of `undo`'s loop move the store as `TractStore.Popped` |
| TractModelClass.TractModel.RestoreGroup | libs/tracking/tract_model.cpp:2338-2349 | the redo push and the loop of `undo` move the store as `TractStore.Restore` |
| TractModelClass.TractModel.CollectCuts | libs/tracking/tract_model.cpp:1850-1859 | the first loop of `cut` yields the fragments, their colours and the indices to delete |
| TractModelClass.TractModel.CollectSlices | libs/tracking/tract_model.cpp:1918-1943 | the outer loop of `cut_by_slice` yields the fragments, their colours and every index |
| TractModelClass.TractModel.AppendFragments | libs/tracking/tract_model.cpp:1862-1872 | the top cut mark becomes the cut id, the fragments are appended tagged with it, and the id advances |
| TractModelClass.KeepMarked | libs/tracking/tract_model.cpp:1669-1674 | the `remove_if`/`erase` loop leaves the flagged entries in order |
| TractModelClass.PopRounds | libs/tracking/tract_model.cpp:2341-2349 | `undo`'s loop on the six arrays it touches |
| TractModelClass.AppendKept | libs/tracking/tract_model.cpp:2389-2396 | each flagged new streamline is pushed with the colour and tag 0 |
| TractModelClass.MoveRounds | libs/tracking/tract_model.cpp:1681-1686 | the loop of `delete_tracts` on the store value gives `MoveOut` |
| TractModelClass.PushShifted | libs/tracking/tract_model.cpp:643-646 | the other model's redo entries are appended, moved past this model's streamlines |
| TractModelClass.AppendTagged | libs/tracking/tract_model.cpp:1868-1871 | the fragments are appended with their colours and the cut id as tag |
| Connectivity.IndexOf | libs/tracking/tract_model.cpp:3392 | a valid voxel's index lies inside the grid |
| Connectivity.VisitsIff | libs/tracking/tract_model.cpp:3218-3240 | a region is met iff some in-grid point of the streamline lies in a voxel that lists it |
| Connectivity.PassingListFacts | libs/tracking/tract_model.cpp:3207-3241 | the passing list is ascending and holds exactly the regions below the region count met at an in-grid point |
| Connectivity.PassingOf | libs/tracking/tract_model.cpp:3218-3240 | the loop for one streamline computes its passing list |
| Connectivity.GetPassingList | libs/tracking/tract_model.cpp:3207-3241 | both output lists hold every streamline's passing list |
| Connectivity.GetEndList | libs/tracking/tract_model.cpp:3243-3266 | the region lists of the two end points of every streamline |
| Connectivity.ListsBelow | libs/tracking/tract_model.cpp:3486-3490 | both list kinds name only regions below the region count, one list per streamline |
| Connectivity.AllBalanced | libs/tracking/tract_model.cpp:3458-3475 | every pair is emitted as often in one order as in the other, and no region is paired with itself |
| Connectivity.PairsCount | libs/tracking/tract_model.cpp:3463-3474 | for lists without repeats, `(x, y)` is emitted once for `x` in the first list and `y` in the second, and once for the reverse |
| Connectivity.Report | libs/tracking/tract_model.cpp:3470-3473 | the callback adds one to `count[a][b]` and one to `count[b][a]` and nothing else |
| Connectivity.PassingAddsTwo | libs/tracking/tract_model.cpp:3463-3474 | in passing mode a streamline through distinct regions a and b adds exactly 2 to `count[a][b]` |
| Connectivity.EndsAddOne | libs/tracking/tract_model.cpp:3463-3474 | in end-point mode one region at each end adds 1 to that ordered pair and 1 to its reverse |
| Connectivity.CountSymmetric | libs/tracking/tract_model.cpp:3524-3527 | the count matrix is symmetric with a zero diagonal |
| Connectivity.AddRow | libs/tracking/tract_model.cpp:3468-3473 | the inner loop adds the emitted pairs of one region to the counts |
| Connectivity.AddStreamline | libs/tracking/tract_model.cpp:3465-3473 | one streamline adds its emitted pairs |
| Connectivity.CountConnections | libs/tracking/tract_model.cpp:3521-3527 | starting from zero, the counting loop gives the count matrix |
| Connectivity.MaxEntryFacts | libs/tracking/tract_model.cpp:3530-3533 | the maximum bounds every entry and is an entry, or 0 |
| Connectivity.MaxCount | libs/tracking/tract_model.cpp:3530-3533 | the loop finds that maximum |
| Connectivity.CountValuesFacts | libs/tracking/tract_model.cpp:3519-3541 | the "count" matrix is symmetric with a zero diagonal, and keeps an entry iff its count is above `max * threshold` |
| Connectivity.CalculateCount | libs/tracking/tract_model.cpp:3519-3541 | count, threshold and matrix value, as one pass |
| Connectivity.ApplyThreshold | libs/tracking/tract_model.cpp:3536-3541 | writes each count above the threshold and 0 elsewhere |
| Connectivity.CoversIff | libs/tracking/tract_model.cpp:3388-3393 | a voxel is covered iff some in-grid point of the region lies on it |
| Connectivity.RegionMapFacts | libs/tracking/tract_model.cpp:3376-3404 | one ascending list per voxel, holding exactly the regions one of whose in-grid points lies on it |
| Connectivity.RegionMapBelow | libs/tracking/tract_model.cpp:3383-3400 | every listed region is below the region count |
| Connectivity.OverlapAtMostTotal | libs/tracking/tract_model.cpp:3395-3405 | the overlap count never exceeds the covered count, so the ratio is at most 1 |
| Connectivity.Paint | libs/tracking/tract_model.cpp:3386-3393 | adds the region to the set of every in-grid voxel it covers |
| Connectivity.CollectSets | libs/tracking/tract_model.cpp:3383-3394 | the first loop builds the ordered set of regions at each voxel |
| Connectivity.BuildMap | libs/tracking/tract_model.cpp:3396-3400 | the second loop turns the sets into the membership map |
| Connectivity.CountVoxels | libs/tracking/tract_model.cpp:3395-3404 | counts the covered voxels and those in more than one region |
| Connectivity.ConnectivityMatrix.constructor | libs/tracking/tract_model.cpp:3477-3482 | no regions, an empty map and matrix, so `calculate` reports the missing regions until `set_regions` runs |
| Connectivity.ConnectivityMatrix.SetRegions | libs/tracking/tract_model.cpp:3376-3407 | sets the region count, the membership map and the covered and overlap counts |
| Connectivity.ConnectivityMatrix.Calculate | libs/tracking/tract_model.cpp:3477-3490 | fails with the message when there are no regions; otherwise the "count" matrix of the chosen lists |
| Network.BinarizedCount | libs/tracking/tract_model.cpp:3721-3725 | the binarised "count" matrix is binary, symmetric, with a zero diagonal, and links exactly the pairs whose count passed the threshold |
| Network.BinaryMatrix | libs/tracking/tract_model.cpp:3721-3725 | the loop builds `matrix_value > 0 ? 1 : 0` |
| Network.RowSumBound | libs/tracking/tract_model.cpp:3731-3733 | a binary row sums to at most its length |
| Network.ClusteringBounds | libs/tracking/tract_model.cpp:3738-3749 | without self-links the clustering coefficient lies in [0, 1] |
| Network.ClusteringLinked | libs/tracking/tract_model.cpp:3738-3749 | when every two neighbours are linked the coefficient is 1 (0 for degree below 2) |
| Network.ClusteringApart | libs/tracking/tract_model.cpp:3738-3749 | when no two neighbours are linked the coefficient is 0 |
| Network.NodeMeasures | libs/tracking/tract_model.cpp:3730-3749 | the degrees are the row sums and the coefficients are `Clustering` |
| Network.Triangles | libs/tracking/tract_model.cpp:3743-3746 | the double loop counts the links among the neighbours |
| Network.DotNonZero | libs/tracking/tract_model.cpp:3630 | a product entry is non-zero iff some term has both factors non-zero |
| Network.PowerStep | libs/tracking/tract_model.cpp:3627-3631 | the next power's non-zero pattern is the walks one link longer |
| Network.ExtendKeeps | libs/tracking/tract_model.cpp:3632-3638 | each round keeps "an entry is the shortest walk length found so far" |
| Network.ExtendShrinks | libs/tracking/tract_model.cpp:3632-3638 | a round that reaches a new pair shrinks the unreached set |
| Network.Closure | libs/tracking/tract_model.cpp:3639-3640 | once a round reaches nothing new, no longer walk reaches anything new |
| Network.Finished | libs/tracking/tract_model.cpp:3639-3640 | then the entries are the shortest walk lengths over all lengths |
| Network.Extend | libs/tracking/tract_model.cpp:3633-3638 | the update loop marks new pairs with the length and reports whether any was new |
| Network.StartDists | libs/tracking/tract_model.cpp:3624-3626 | walks of one link are the links themselves |
| Network.DistanceBin | libs/tracking/tract_model.cpp:3619-3643 | each entry is the length of the shortest walk, and "unreachable" exactly where there is none |
| Demographics.ParseAgeSex | libs/mapping/connectometry_db.cpp:6-25 | succeeds iff the name holds a `_M123Y_`/`_F123Y_` tag; the first tag gives the three digits and "1" for M, "0" for F; the outputs are unchanged on failure |
| Demographics.JoinPieces | libs/mapping/connectometry_db.cpp:173-174 | cutting at a separator is undone by joining, and no piece holds the separator |
| Demographics.PiecesLast | libs/mapping/connectometry_db.cpp:175-176 | the last piece is empty iff the text ends in the separator |
| Demographics.GetLinesJoin | libs/mapping/connectometry_db.cpp:165 | the lines hold no newline, and joining them gives back the text less a final newline |
| Demographics.CsvFieldsArePieces | libs/mapping/connectometry_db.cpp:171-176 | with the trailing-comma rule a non-empty CSV line splits at every comma |
| Demographics.Words | libs/mapping/connectometry_db.cpp:180-182 | the words are non-empty runs without a space |
| Demographics.WordsKeepText | libs/mapping/connectometry_db.cpp:180-182 | the words run together are exactly the line's non-space characters |
| Demographics.TableFacts | libs/mapping/connectometry_db.cpp:165-199 | a table that reads has a non-empty title row and rows as wide as it, in line order; a failure names the row whose width differs |
| Demographics.ReadTable | libs/mapping/connectometry_db.cpp:165-199 | the reading loop computes that table |
| Demographics.FindRow | libs/mapping/connectometry_db.cpp:216-222 | finds the first data row headed by the subject's name |
| Demographics.MatchRows | libs/mapping/connectometry_db.cpp:206-228 | the titles, then the first matching row of each subject in database order, stopping at the first subject without one |
| Demographics.ReorderedHeads | libs/mapping/connectometry_db.cpp:212-222 | after re-ordering, data row i is a row of the file headed by subject i's name |
| Demographics.SanitisedFacts | libs/mapping/connectometry_db.cpp:245-251 | only ' ', '/' and '\\' change, each to '_', and a second pass changes nothing |
| Demographics.SanitiseTitles | libs/mapping/connectometry_db.cpp:245-251 | every title is sanitised |
| Demographics.ScanColumns | libs/mapping/connectometry_db.cpp:258-275 | blanks (" " and "\r") are cleared, and a column is marked as soon as a cell is neither empty nor a number |
| Demographics.NumericIff | libs/mapping/connectometry_db.cpp:258-282 | a column is a feature iff each of its cells is empty or a number |
| Demographics.FeatureColumns | libs/mapping/connectometry_db.cpp:276-282 | the feature columns in ascending order, with their titles |
| Demographics.XRow | libs/mapping/connectometry_db.cpp:287-314 | subject i's row of X is 1 followed by its feature values, NaN for empty or missing cells |
| Demographics.BuildX | libs/mapping/connectometry_db.cpp:286-315 | X is the rows of all subjects laid end to end |
| Demographics.RowsOfConcat | libs/mapping/connectometry_db.cpp:292 | rows of equal width laid end to end are cut back into the same rows |
| Demographics.RemoveRow | libs/mapping/connectometry_db.cpp:1211 | erasing the `w` entries at `i * w` removes row i and no other |
| Demographics.SizeCompare | libs/mapping/connectometry_db.cpp:200-230 | the tests on the field count compare the row count with the subject count |
| Demographics.ShapeTable | libs/mapping/connectometry_db.cpp:165-236 | reading plus the shape checks: "Invalid demographic format", the re-ordering and "Subject number mismatch" |
| Demographics.BuildDemo | libs/mapping/connectometry_db.cpp:239-315 | titles, feature columns and X from the checked table |
| Demographics.ParseDemoText | libs/mapping/connectometry_db.cpp:154-318 | the body of `parse_demo` |
| Demographics.ParseShape | libs/mapping/connectometry_db.cpp:165-251 | after a successful read: one data row per subject, rows as wide as the titles, titles free of the three characters |
| Demographics.ParseX | libs/mapping/connectometry_db.cpp:286-315 | X has one row per subject: the intercept, then one value per feature column |
| Demographics.ParseFeatures | libs/mapping/connectometry_db.cpp:258-304 | features in ascending order, a column being one iff each cell is empty or a number |
| Demographics.ParseOrder | libs/mapping/connectometry_db.cpp:206-228 | a file with more rows than subjects is re-ordered so that data row i is headed by subject i's name |
| ConnectometryDb.MovedUp | libs/mapping/connectometry_db.cpp:946-953 | a permutation: the entry swaps with the one before it, and position 0 stays |
| ConnectometryDb.MovedDown | libs/mapping/connectometry_db.cpp:955-962 | a permutation: the entry swaps with the one after it, and the last position or beyond stays |
| ConnectometryDb.Unsigned32 | libs/mapping/connectometry_db.cpp:957 | `uint32_t(id)` of a 32-bit id: itself when non-negative, plus 2^32 when negative |
| ConnectometryDb.MoveDownNegative | libs/mapping/connectometry_db.cpp:957-958 | a negative id is a no-op with fewer than 2^31 subjects |
| ConnectometryDb.MoveDownUp | libs/mapping/connectometry_db.cpp:946-962 | moving down, then back up, restores the order |
| ConnectometryDb.MoveUpDown | libs/mapping/connectometry_db.cpp:946-962 | moving up, then back down, restores the order |
| ConnectometryDb.IndicesRank | libs/mapping/connectometry_db.cpp:334-341 | entry k of `si2vi` is voxel v iff k listed voxels lie before v |
| ConnectometryDb.VoxelToSubjectInverse | libs/mapping/connectometry_db.cpp:331-343 | the voxel at place `offset + k` of `si2vi` maps back to `offset + k` |
| ConnectometryDb.ListVoxels | libs/mapping/connectometry_db.cpp:334-341 | appends the non-zero voxels in ascending order and maps each to its place |
| ConnectometryDb.CountTrueBound | libs/mapping/connectometry_db.cpp:1172-1175 | the second group never outnumbers the subjects |
| ConnectometryDb.CountLabelled | libs/mapping/connectometry_db.cpp:1171-1174 | the loop counts the labels set |
| ConnectometryDb.ProjectedRows | libs/mapping/connectometry_db.cpp:1144-1161 | one row per whole row of X, each holding the chosen columns in order |
| ConnectometryDb.SelectedColumns | libs/mapping/connectometry_db.cpp:1149-1154 | the ascending list of selected columns |
| ConnectometryDb.ProjectColumns | libs/mapping/connectometry_db.cpp:1155-1158 | the copy loop gives the selected rows laid end to end |
| ConnectometryDb.RemovedRow | libs/mapping/connectometry_db.cpp:1210-1211 | removing a subject removes exactly its row of X and keeps the others in order |
| ConnectometryDb.Db.constructor | libs/mapping/connectometry_db.cpp:27-106 | the state `read_db` reaches once names, R² values, QA lists and the demographic text are read: the three lists in lockstep, unmodified, before it calls `parse_demo` and `calculate_si2vi` |
| ConnectometryDb.Db.RemoveSubject | libs/mapping/connectometry_db.cpp:321-330 | an index past the end changes nothing; otherwise the subject leaves all three lists, the count drops and the database is marked |
| ConnectometryDb.Db.MoveUp | libs/mapping/connectometry_db.cpp:946-953 | all three lists move as `MovedUp` |
| ConnectometryDb.Db.MoveDown | libs/mapping/connectometry_db.cpp:955-962 | all three lists move as `MovedDown` at `uint32_t(id)`, for every 32-bit id on a non-empty database; on an empty one only -1 is defined |
| ConnectometryDb.Db.AddDb | libs/mapping/connectometry_db.cpp:928-945 | refused when incompatible; otherwise the other subjects are appended in all three lists and the database is marked |
| ConnectometryDb.Db.CalculateSi2vi | libs/mapping/connectometry_db.cpp:331-343 | the non-zero voxels are appended in ascending order, `vi2si` inverts them and the QA length is `num_fiber * |si2vi|` |
| ConnectometryDb.Db.ParseDemo | libs/mapping/connectometry_db.cpp:154-318 | on success the titles, items, features, X and text are those of the parse; on failure the message is set and the text is left empty |
| ConnectometryDb.Db.Apply | libs/mapping/connectometry_db.cpp:239-316 | the end of `parse_demo` for either outcome |
| ConnectometryDb.Db.Reject | libs/mapping/connectometry_db.cpp:154-160 | a text that does not read: the demographics are cleared and the error is kept |
| ConnectometryDb.Db.Accept | libs/mapping/connectometry_db.cpp:239-316 | a text that reads: its titles, items, features and X replace the old ones, and every feature starts selected |
| ConnectometryDb.StatModel.constructor | libs/mapping/connectometry_db.cpp:1134-1142 | an empty model of type 0, before `read_demo` |
| ConnectometryDb.StatModel.ReadDemo | libs/mapping/connectometry_db.cpp:1134-1142 | subject indices 0 .. n-1, the database's X, and one column per feature plus the intercept |
| ConnectometryDb.StatModel.SelectVariables | libs/mapping/connectometry_db.cpp:1144-1161 | X keeps exactly the selected columns of each row, in increasing column order, and the width is the number selected |
| ConnectometryDb.StatModel.RemoveSubject | libs/mapping/connectometry_db.cpp:1204-1213 | an index past the subject list is an error that changes nothing; otherwise the label, the row of X and the index go |
| ConnectometryDb.StatModel.PreProcess | libs/mapping/connectometry_db.cpp:1163-1203 | group case: needs an X, records the group sizes and accepts when both exceed 3; cases 2 and 3 accept |

## Left out

- Storable: the codec's precondition. It requires at least one point and a length divisible by 3. An empty streamline is undefined behaviour in the source: the loop at tract_model.cpp:106 starts at `size()-1` and 171 reads `t32[0]`.
- Storable: coordinates lie in [-2^30, 2^30), so that no displacement `t32[j] -= t32[j-3]` at tract_model.cpp:107 overflows `int32_t`; larger int32 coordinates, whose differences may still fit, are excluded. It also requires `3 * |encoding| < 2^32`, so the `uint32_t(t32.size())` truncation at 170 is not modelled.
- Storable: `std::ldexp`/`std::round` at tract_model.cpp:104 and `std::ldexp` at 257 are exact steps. The model starts from integers already multiplied by 32, and its decoder returns those integers, without the float accumulation.
- Storable: `char` is taken to be signed, as on the platforms DSI Studio builds for. The decoder reads each byte as a value in [-128, 127].
- RedoFits: `TractModel.Redo` and `TractStore.Redo` require the top redo range to lie inside the active list. After a cut is undone, that range is stale (tract_model.cpp:2340, 2351-2357), and `delete_tracts` then indexes past the end, which is undefined behaviour. `StaleRedoAfterCutUndo` proves that this state arises; see "## Findings".
- SliceCanMark: `TractModel.CutBySlice`, `TractModel.CutByFlags` and `TractStore.CutBySlice` require a deleted group to exist after the deletion. On a model with no streamlines and no history, `is_cut.back()` at tract_model.cpp:1945 is undefined behaviour. With a history, the model follows the source (`CutBySliceEmpty`).
- Redo: requires `RedoFits`, for the reason given above for `RedoFits`.
- CutBySlice: requires `SliceCanMark`, and so does CutByFlags, for the reason given above for `SliceCanMark`.
- TractRender.Vec3: `float` coordinates are `real`, and `GLint`/`GLsizei` counts are unbounded integers, so neither float rounding nor counter overflow is modelled.
- ThresholdCount: `threshold_count *= threshold` (tract_model.cpp:3534) is exact: `floor(max * threshold)`. The `unsigned*float` product's rounding to `float` is not modelled.
- MatMul: entries are unbounded naturals. The `unsigned int` walk counts of `distance_bin` (tract_model.cpp:3630) can wrap to 0 for long walks on dense graphs, and that is not modelled.
- DistanceBin: works over `nat`, so it inherits MatMul's assumption. "Unreachable" is a distinct value instead of `std::numeric_limits<float>::max()`.
- ConnectivityMatrix.SetRegions: `overlap_ratio` is not stored. The model keeps the overlap and covered counts it is the quotient of, so the NaN at `total_count == 0` (tract_model.cpp:3405) does not arise.
- ConnectivityMatrix.SetRegions: region ids are unbounded, so neither the `uint16_t` truncation at 3392 nor the `short` truncation at 3400 is modelled (more than 32767 regions).
- ConnectivityMatrix.Calculate: only the "count" matrix type is modelled. "trk" writes files. "ncount", "ncount2", "mean_length" and the scalar modes are float numerics.
- CsvFields: an empty CSV line gives no field, which ends reading. In the source `line.back()` at connectometry_db.cpp:175 is undefined behaviour on an empty line.
- RowLength: the row-width error message leaves out `subject_names[row_count-1]` (connectometry_db.cpp:193). That read is out of bounds when the table has more rows than there are subjects.
- StatModel.SelectVariables: requires `featureCount > 0 && |sel| <= featureCount`. With a zero width, `X.size()/feature_count` (connectometry_db.cpp:1146) divides by zero. With more flags than columns, `X[i*feature_count+feature_map[j]]` reads another row's entry or past the end.
- StatModel.PreProcess: requires `modelType != 1`. Multiple regression (connectometry_db.cpp:1177-1197) needs the ranges of X and `mr.set_variables`, a matrix factorisation outside the model.
- Every `tipl::par_for` loop (tract_model.cpp:96, 165, 242, 1880, 3218; connectometry files) is sequential. The loop bodies write disjoint entries, so order does not matter.
- `delete_repeated` (tract_model.cpp:1710-1795) is not modelled: it reads and writes `repeated[]` from parallel threads, so its outcome depends on scheduling.
- `trim`'s voxel-ownership labelling (tract_model.cpp:2275-2324) is not modelled: it is an optional float-to-voxel step.
- `select` (the geometry that produces `cut`'s selection offsets) is not modelled: `TractStore.Cut` takes the offsets as input.
- `get_cut_points` with a transformation matrix (tract_model.cpp:1890-1909) is not modelled: it is float geometry.
- TractStore.StepsOf: sizes are assumed below 2^64 when modelling `size()/3-1` in `size_t`.
- `cur_cut_id` is declared in a header that is not part of this model. The model starts it at 1, so that 0 keeps meaning "not a cut".
- The `saved = true` of `save_to_file` (tract_model.cpp:947) is not modelled, because the codec works on streamline lists, not on a `TractModel`. Every other write of `saved` in the modelled operations is modelled.
- `save_to_file` and `load_from_file` are not modelled outside the `track` chunks: the other matrices (`dimension`, `voxel_size`, `trans_to_mni`, `report`, `parameter_id`, `color`, `cluster`), the gz container and the progress calls.
- Network: density, strength, the weighted measures, eigenvector centrality and the report text of `network_property` are float numerics and are not modelled.
- `subject_qa` entries are values, not addresses. The copy in `add_db` (connectometry_db.cpp:935-941) is an append of the other database's vectors, and aliasing between the two buffers is not modelled.
- `is_db_compatible` (connectometry_db.cpp:903) is not modelled: it is a parameter of `Db.AddDb`.
- `std::stof` is not modelled: it is the parameters `isNumber` and `value`. The `catch` branch at connectometry_db.cpp:306-312 cannot be taken once the scan has accepted a column, so the model has no such branch.
- `select_cohort` (connectometry_db.cpp:1216-1308) is not modelled: it is an optional selector parser.
- Db.constructor: stops at the state of connectometry_db.cpp:106. The rest of `read_db` is not part of it: the QA normalisation (74-89); the `age,sex` text built with `parse_age_sex` when the file holds no demographics (111-126); the call to `parse_demo` (108, 127), which `Db.ParseDemo` models; and the call to `calculate_si2vi` (131), which `Db.CalculateSi2vi` models.
- Db.MoveDown: requires `num_subjects > 0 || id == -1`. On an empty database `num_subjects-1` wraps to the largest unsigned value, so every id except -1 reaches the swaps at connectometry_db.cpp:959-961 on empty vectors, which is undefined behaviour. It also requires fewer than 2^32 subjects, so that `num_subjects` fits its `unsigned int`.
- Db.CalculateSi2vi: `vi2si[index] = uint32_t(si2vi.size())` (connectometry_db.cpp:338) and `subject_qa_length = num_fiber*uint32_t(si2vi.size())` (342) are unbounded naturals, so neither the 32-bit truncation of the place nor the wrap of the product is modelled.
- Options.ParseString: tokens are the maximal runs of non-space characters that `operator>>` extracts. Stream states beyond end-of-input are not modelled.

## Findings

| source | as written | input that shows it | evidently intended | confidence | as-written member | corrected member |
|---|---|---|---|---|---|---|
| program_option.hpp:39-48 | `while(in)` tests the stream before `in >> str`, so after the last token one more empty extraction reaches `add_option`, which rejects it | `parse("--a=1")` returns false with `error_msg == "cannot parse: "` | succeed iff every whitespace-separated token is a well-formed option | not executed | ProgramOption.ParseStringAlwaysFails, ProgramOption.ParseStringRejectsValidInput | ProgramOption.ParseStringIntended |
| libs/tracking/tract_model.cpp:650 | `add` inserts the other model's `deleted_count` at the front, while its deleted streamlines are appended at the back | merge a model with group sizes `[1]` into one with `[2]` (deleted stacks of 2 and 1 entries): the result's top group size is 2, yet its top deleted entry is the other model's | append `deleted_count` at the back, like the other stacks, so that `undo` restores the other model's group | not executed | TractStore.AddGroupOrder | TractStore.AddIntendedGroupOrder |
| libs/tracking/tract_model.cpp:1944-1945 | on a model without streamlines `delete_tracts` pushes nothing, yet `is_cut.back() = cur_cut_id` still runs | one deleted group (`is_cut == [0]`), no active streamline, then `cut_by_slice`: the plain deletion is turned into a cut mark; with no group at all, `back()` is undefined | leave a model without streamlines alone | not executed | TractStore.CutBySliceEmpty | TractStore.CutBySliceKeepsMarks |
| libs/tracking/tract_model.cpp:2340, 2351-2357 | `undo` records the redo offset before the cut branch erases the fragments, so after a cut-undo the offset points past the end | cut one streamline of three, then `undo`: the redo entry is `(4, 1)`, but only 3 streamlines remain | record where the restored streamlines finally sit: the last `count` active ones | not executed | TractStore.StaleRedoAfterCutUndo | TractStore.UndoIntendedAfterCut |
| libs/tracking/tract_model.cpp:2405 | `new_tract[index].size()/3-1` wraps to 2^64 - 1 for an empty streamline, so it passes every threshold and is appended | `add_tracts({{}}, 5, color)` appends an empty streamline | skip every streamline with fewer than `threshold + 1` points, the empty one included | not executed | TractStore.EmptyPassesLengthTest | TractStore.AddLongTractsIntendedKeeps |
