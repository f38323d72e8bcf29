# Verified models of the ra8-firmware tooling

Dafny models of the algorithmic cores among the repository's Python tools, with
proofs of what those tools are for. `dafny verify dfyconfig.toml` checks the project.

| files | what they model |
|---|---|
| `BlueNoiseKernel`, `BlueNoise`, `BlueNoiseRanks` | the void-and-cluster mask generator: toroidal integer filter, incremental energy field, homogenising swaps, ranking, thresholds |
| `RunLength`, `Atlas`, `AtlasWriters` | the R8LA v2 glyph atlas: run-length coverage, record layout, reader, the one-pass and the two-pass writer |
| `TreeDigest`, `TreeIdentity`, `TreeTotals`, `TreeRecords`, `TreeWalk` | the byte stream hashed for the managed Python environment, and the stack walk that produces it |
| `ComicZip`, `ComicPng` | the ZIP and PNG writers of the comic fixture, with strict readers |
| `Ppm` | the P6 reader and panel crop of the e-reader goldens |
| `Supervisor` | supervision of one GDB server child against an arbitrary environment |
| `UvCache` | installation of the pinned uv binary into a two-file cache, cut off anywhere |
| `StageArchive`, `StageExtract`, `StageVerify` | staging of worktree candidates: entry list, extraction, verification |
| `SgOffsets` | the secure-gateway slot check |
| `DriverStatus` | driver families and the attribution of headers and sources |
| `Sums`, `Arithmetic`, `Bytes`, `Order`, `Outcomes` | finite sums, index arithmetic, byte fields, byte-string order and sorting, results |

## Main results

- **Mask generator.** For every torus of at least ten cells, every radial kernel and every sample, the
  incrementally kept field is the direct convolution at every step; every swap that
  changes the pattern lowers (pairwise energy, index sum); and the final ranks alone,
  with every energy recomputed, satisfy the greedy specification, which no other
  ranking over the same prototype satisfies. With 256m cells the level sets of the
  mask are exactly the rank prefixes of length m * t. Weight, radius, edge and sample
  determine the mask.
- **Atlas.** The packer is optimal among all byte strings with the same meaning, a
  reader recovers every record and pixel, and the two writers are compared exactly.
- **Tree digest.** The stream before hashing is a complete invariant: equal streams
  exactly for equal trees, receipt apart. The stack walk equals the recursive
  traversal for every enumeration order, records each object once and returns the
  tree's own totals.
- **Containers.** ZIP, PNG and PPM round trips against independent readers, the PPM
  reader characterised by a grammar, and the exact archives that can be extracted.
- **State machines.** Safety over every run of the supervisor's environment, with every
  run explained event by event, and soundness of the uv cache after any sequence
  of runs interrupted at any step on the disk.
- **Checkers.** Local slot tests equal one global bijection, and every finding is
  characterised on the symbol table; families are total and unambiguous, with the exact
  conditions under which a source changes family and roots stop being an antichain.

## Where code and comments differ

The models follow the code.

- `gen_bluenoise_mask.py:148` says that homogenisation cannot need more swaps than
  cells. What holds is that the swaps come to rest within an explicit bound
  (`SwapsSettle`, `MovesBounded`) that is larger than N; whether N of them suffice for
  a given sample is not established, and `BoundReachesSettled` gives the exact test.
- `check_sg_offsets.py:163-164` lists a region whose size is not the veneer count times
  the stride as a finding; the code accepts up to 31 bytes of padding
  (`PaddingAccepted`, `PaddedRegion`).
- `gen_driver_status.py:17-18` describes a family root as a name that no other name is a
  prefix of. All roots together are so exactly when no header lies below an orphan source
  (`AllRootsAntichainIff`, `HeaderBelowOrphan`).
- `gen_driver_status.py:162-163` describes orphan sources as forming families of their
  own. They can also take over a source that a header family owned only under the
  `ra8_` prefix (`OrphanMovesSource`, `SourceKeepsFamilyIff`).
- `gen_comic_fixture.py:200-202` speaks of an offset in the returned entry; the entry
  always carries 0 and `build_cbz` replaces it.
- `display_atlases.py` and `literata_atlas.py` write one format but do not accept the
  same fonts (`WritersAgree`, `TallFontDisagreement`).

## Conventions

Raising is a failed `Result`. Bytes are integers below 256. Names and paths are byte
strings. Hash, CRC, deflate, the exponential in the kernel, the font rasteriser and the
random sample are parameters; each proof uses only the law stated at its declaration
(inflating undoes deflating, CRCs fit 32 bits, archive members are bounded, samples are
distinct cells). The walk's owner, permission and link policy is a predicate on records.
Clock readings are whole milliseconds that never decrease, and a sleep lasts at least its
interval. Environment answers in `Supervisor` are nondeterministic assignments.

## Model

| member | source | states |
|---|---|---|
| BlueNoiseKernel.BuildKernel | scripts/gen/gen_bluenoise_mask.py:77-92 | the kernel is the truncated square scanned row by row: exactly the offsets of positive weight, each once in ascending order, and read backwards with every offset negated it is the same list, for any radius and any weight that depends on the squared distance |
| BlueNoiseKernel.ReachSymmetric | scripts/gen/gen_bluenoise_mask.py:77-107 | p reaches q with the same total wrapped weight as q reaches p, also where the kernel wraps around a torus smaller than itself |
| BlueNoiseKernel.ReachSelf | scripts/gen/gen_bluenoise_mask.py:95-107 | every cell reaches itself with the same weight |
| BlueNoiseKernel.ReachTotal | scripts/gen/gen_bluenoise_mask.py:95-107 | the weights with which all cells reach one cell add up to the whole kernel |
| BlueNoise.Toggle | scripts/gen/gen_bluenoise_mask.py:95-107 | after the splat every field value has changed by sign times the wrapped weight reaching it from pos |
| BlueNoise.FieldPlace | scripts/gen/gen_bluenoise_mask.py:95-107 | a field that was the convolution of a pattern is the convolution of the pattern with one more pixel after one splat |
| BlueNoise.FieldRemove | scripts/gen/gen_bluenoise_mask.py:95-107 | the same for removing a pixel |
| BlueNoise.TightestCluster | scripts/gen/gen_bluenoise_mask.py:110-118 | the lowest-index set cell of highest energy, or -1 exactly when no cell is set |
| BlueNoise.LargestVoid | scripts/gen/gen_bluenoise_mask.py:121-129 | the lowest-index clear cell of lowest energy, or -1 exactly when every cell is set |
| BlueNoise.ComplementEnergy | scripts/gen/gen_bluenoise_mask.py:177-180 | the energies of a pattern and of its complement add up to the kernel weight at every cell |
| BlueNoise.VoidIsMajorityCluster | scripts/gen/gen_bluenoise_mask.py:177-187 | a cell is the largest void of a pattern exactly when it is the tightest cluster of the complement, ties included |
| BlueNoise.PairPlace | scripts/gen/gen_bluenoise_mask.py:148-157 | a new pixel raises the pairwise energy by twice the energy it lands on plus the self weight |
| BlueNoise.SwapDescends | scripts/gen/gen_bluenoise_mask.py:148-157 | a move that changes the pattern strictly lowers (pairwise energy, index sum) lexicographically |
| BlueNoise.Settle | scripts/gen/gen_bluenoise_mask.py:148-158 | moving without the loop's bound ends, in a pattern that a further move does not change, with the same number of pixels |
| BlueNoise.SwapsSettle | scripts/gen/gen_bluenoise_mask.py:148-158 | n moves reach the settled pattern exactly when n is at least the number of changing moves, and that number is at most the starting potential: pairwise energy times N squared, plus index sum |
| BlueNoise.MovesBounded | scripts/gen/gen_bluenoise_mask.py:148-158 | whatever the pattern, fewer than (kernel weight * N + 1) * N * N moves change it |
| BlueNoise.NoPatternRepeats | scripts/gen/gen_bluenoise_mask.py:148-158 | a pattern is seen twice only once it has settled |
| BlueNoise.BoundReachesSettled | scripts/gen/gen_bluenoise_mask.py:147-158 | a loop bounded by n moves ends settled exactly when one more move would change nothing, and always when n is at least the starting potential |
| BlueNoiseRanks.Place | scripts/gen/gen_bluenoise_mask.py:149-155 | setting a cell keeps the incremental field equal to the direct convolution |
| BlueNoiseRanks.Remove | scripts/gen/gen_bluenoise_mask.py:149-152 | clearing a cell keeps the incremental field equal to the direct convolution |
| BlueNoiseRanks.SeedPattern | scripts/gen/gen_bluenoise_mask.py:139-145 | exactly the sampled cells are set, and the field is their convolution |
| BlueNoiseRanks.SwapPixel | scripts/gen/gen_bluenoise_mask.py:148-157 | one loop body is one move, and it stops exactly when the move gives the pixel back |
| BlueNoiseRanks.RankCluster | scripts/gen/gen_bluenoise_mask.py:171-175 | one turn of phase 1 removes the tightest pixel left and gives it the next lower rank |
| BlueNoiseRanks.InitialPattern | scripts/gen/gen_bluenoise_mask.py:132-158 | the prototype is what N moves make of the pattern whose set cells are the sampled ones, with N // 10 pixels and an exact field |
| BlueNoiseRanks.RankMinority | scripts/gen/gen_bluenoise_mask.py:168-175 | phase 1 gives out the ranks below ones, each to the tightest cluster of what was left |
| BlueNoiseRanks.RankVoid | scripts/gen/gen_bluenoise_mask.py:181-187 | one turn fills the largest void, gives it the next rank and touches no rank of the prototype |
| BlueNoiseRanks.FillVoids | scripts/gen/gen_bluenoise_mask.py:181-187 | the filling loop gives out the remaining ranks, each to the largest void at that time, and leaves phase 1's ranks alone |
| BlueNoiseRanks.RankMatrix | scripts/gen/gen_bluenoise_mask.py:161-188 | the ranks are a permutation, satisfy the greedy specification with every energy recomputed from the ranks alone, and the cells ranked below ones are exactly the homogenised sample |
| BlueNoiseRanks.GreedyDetermines | scripts/gen/gen_bluenoise_mask.py:161-188 | no two rank matrices over the same prototype satisfy the greedy specification |
| BlueNoiseRanks.ClampIdle | scripts/gen/gen_bluenoise_mask.py:195-197 | the clamp to 255 never changes a threshold, whatever the number of cells |
| BlueNoiseRanks.ThresholdIsQuotient | scripts/gen/gen_bluenoise_mask.py:195-197 | with 256m cells the threshold of rank r is r / m |
| BlueNoiseRanks.ThresholdTexture | scripts/gen/gen_bluenoise_mask.py:191-198 | the texture holds the threshold of every cell's rank, for ranks that are a greedy permutation |
| BlueNoiseRanks.MaskLevels | scripts/gen/gen_bluenoise_mask.py:191-222 | with 256m cells every byte value occurs exactly m times and the level set of the mask at t is the set of ranks below m * t |
| BlueNoiseRanks.GenerateMask | scripts/gen/gen_bluenoise_mask.py:77-198 | from weight, radius, edge and sample to the thresholds: the kernel is the truncated square, the ranks are its greedy permutation over the homogenised sample, every texture byte is the threshold of its rank, and for every edge with 256m cells the mask is uniform with rank prefixes as level sets |
| BlueNoiseRanks.MaskDetermined | scripts/gen/gen_bluenoise_mask.py:23-28 | weight, radius, edge and sample determine the mask byte for byte: no two textures meet what the generator promises |
| RunLength.Quantise | scripts/gen/display_atlases.py:45 | a level times 85 is within 42 of the coverage |
| RunLength.PackedCoverage | scripts/gen/display_atlases.py:44-55 | the bytes unpack to exactly the quantised levels, and no byte string that unpacks to them is shorter |
| RunLength.GreedyIsShortest | scripts/gen/display_atlases.py:44-55 | the greedy code of whatever a byte string unpacks to is no longer than that byte string |
| RunLength.ConsumedExactly | scripts/gen/display_atlases.py:48-54 | given the pixel count, a reader stops exactly at the end of a glyph's coverage, whatever follows |
| RunLength.UnpackByte | scripts/gen/display_atlases.py:54 | the format of one byte: the top two bits are the level, the low six the run less one |
| Atlas.RecordRoundTrip | scripts/gen/display_atlases.py:97 | reading a 16-byte record gives back all seven fields, signed ones included |
| Atlas.RecordLayout | scripts/gen/display_atlases.py:97 | the sixteen bytes of a record one by one, little-endian, signed fields in two's complement |
| Atlas.HeaderLayout | scripts/gen/display_atlases.py:99 | the ten header bytes one by one |
| Atlas.AtlasLayout | scripts/gen/display_atlases.py:99 | header, sixteen bytes per glyph and coverage lie behind each other at fixed positions |
| Atlas.AtlasRoundTrip | scripts/gen/display_atlases.py:58-99 | parsing an atlas recovers header, every record and every glyph's levels; each glyph's coverage ends where the next begins and the last at the end of the file |
| AtlasWriters.BlendFill | scripts/gen/display_atlases.py:78-90 | in place, each pixel becomes the brighter of stroke and fill where the shifted fill covers it, and is unchanged elsewhere; it fails exactly when a fill pixel over the box lies past the end of the fill buffer |
| AtlasWriters.LayOut | scripts/gen/display_atlases.py:67-96 | a glyph is laid out exactly when it passes every check of the loop body |
| AtlasWriters.MakeAtlas | scripts/gen/display_atlases.py:58-99 | the writer succeeds exactly for acceptable fonts and then writes the atlas of its stroked cells |
| AtlasWriters.Generate | scripts/gen/literata_atlas.py:40-61 | the two-pass writer succeeds exactly for acceptable fonts and then writes the atlas of its plain cells |
| AtlasWriters.WritersAgree | scripts/gen/literata_atlas.py:40-61 | without a stroke both writers lay out the same cells and emit equal bytes; make_atlas accepts exactly what generate accepts, minus tall lines and incomplete masks |
| AtlasWriters.TallFontDisagreement | scripts/gen/display_atlases.py:61-64 | a font with a glyph, ascent 200 and descent 100 is refused by one writer and written by the other |
| AtlasWriters.WrittenAtlasReads | scripts/gen/display_atlases.py:58-99 | whatever make_atlas writes reads back with every glyph's code point, box, advance widened by twice the stroke, and at every pixel the level nearest to the brighter of stroke and fill |
| TreeDigest.RecordInjective | scripts/dev/managed_python_env.py:300-318 | a framed record followed by anything determines the record and what follows |
| TreeDigest.RecordReads | scripts/dev/managed_python_env.py:300-318 | a reader of six length-prefixed fields in the order kind letter, path, mode, owner, size, payload gets every record back, whatever follows |
| TreeDigest.RecordLayout | scripts/dev/managed_python_env.py:300-318 | the bytes of a record written out |
| TreeDigest.StreamReads | scripts/dev/managed_python_env.py:300-318 | the reader gets the whole record list back from the stream |
| TreeDigest.EncodedInjective | scripts/dev/managed_python_env.py:300-318 | the concatenated record stream determines the records |
| Bytes.BigEndian | scripts/dev/managed_python_env.py:311-313 | four- and eight-byte numbers byte by byte, most significant first |
| TreeIdentity.VisitDetermines | scripts/dev/managed_python_env.py:388-425 | equal record sequences at the same path come from equal directories, receipt apart |
| TreeIdentity.StreamDeterminesTree | scripts/dev/managed_python_env.py:380-426 | two accepted trees give the same pre-hash stream exactly when they are equal apart from the root receipt |
| TreeTotals.RootTotals | scripts/dev/managed_python_env.py:388-426 | the traversal makes one record per object of the tree without its receipt, and the recorded file sizes add up to the bytes stored in the tree, both counted on the tree itself |
| TreeWalk.AppendRecord | scripts/dev/managed_python_env.py:397-400 | one record is appended if it is trusted, encodable and within the entry and byte bounds, or refused |
| TreeWalk.TakeChildren | scripts/dev/managed_python_env.py:405-425 | the reversed loop over one listing records its non-directories and leaves its subdirectories on the stack in ascending order |
| TreeWalk.Walk | scripts/dev/managed_python_env.py:380-426 | the stack walk terminates, succeeds exactly when every object is encodable and trusted by the policy and the tree without its receipt is within both bounds, and then yields the traversal's stream, the number of objects and the bytes stored, for every enumeration order of every directory |
| TreeRecords.VisitCovers | scripts/dev/managed_python_env.py:388-425 | a record is produced exactly when it carries the kind, joined path, mode, owner, size and content of an object of the tree other than the root receipt |
| TreeRecords.VisitDistinct | scripts/dev/managed_python_env.py:388-425 | no path is recorded twice |
| TreeRecords.VisitOrdered | scripts/dev/managed_python_env.py:388-425 | a directory comes before what is in it, its non-directories before its subdirectories, the former by descending and the latter by ascending name |
| ComicZip.PageNamesDistinct | scripts/gen/gen_comic_fixture.py:204 | different pages get different member names |
| Bytes.LittleEndian | scripts/gen/gen_comic_fixture.py:209-210 | two- and four-byte struct fields byte by byte, least significant first |
| ComicZip.PageNameIs | scripts/gen/gen_comic_fixture.py:204 | a member name is page, the number from 1 in two digits or more without further leading zeros, and .png |
| ComicZip.WriteLocals | scripts/gen/gen_comic_fixture.py:274-280 | the local records are concatenated and every entry carries the length of the records before it |
| ComicZip.BuildCbz | scripts/gen/gen_comic_fixture.py:272-285 | the writer succeeds exactly when every field fits its struct slot, and then emits locals, directory and end record |
| ComicZip.ZipRoundTrip | scripts/gen/gen_comic_fixture.py:197-285 | a strict reader with literal byte positions, starting from the last 22 bytes, finds the central records tiling the directory, the local records tiling the prefix with matching names, CRCs and sizes, and inflates every page under its name, in order |
| ComicPng.EncodePng | scripts/gen/gen_comic_fixture.py:185-194 | scanlines are filtered with 0 and wrapped in the three chunks; a dimension or a stream that exceeds its field fails; a short buffer gives short scanlines |
| ComicPng.ChunkReads | scripts/gen/gen_comic_fixture.py:173-182 | a chunk is read back with its CRC over type and data, whatever surrounds it |
| ComicPng.PngLayout | scripts/gen/gen_comic_fixture.py:185-194 | the file written out: signature and three chunks with length, type, data and CRC over type and data |
| ComicPng.ScanlineAt | scripts/gen/gen_comic_fixture.py:189-192 | behind the lines above it a line is a filter byte 0 and its pixels |
| ComicPng.IhdrLayout | scripts/gen/gen_comic_fixture.py:188 | the thirteen header bytes one by one |
| ComicPng.PngRoundTrip | scripts/gen/gen_comic_fixture.py:173-194 | reading the file gives back width, height and the first width * height gray values, and a file made from too short a buffer is refused |
| Ppm.ReadPpm | scripts/gen/ereader_golden.py:62-83 | the scanning loops compute the reader that ReadsExactly characterises, refusing a word that is no integer and a truncated raster |
| Ppm.ReadsExactly | scripts/gen/ereader_golden.py:62-83 | a file reads as an image exactly when it can be cut into P6, three words behind blanks (the first gap may be empty) that spell its dimensions, and a rest whose bytes after one separator begin with the pixels |
| Ppm.IntRoundTrip | scripts/gen/ereader_golden.py:76-96 | int() undoes %d for every integer, negative ones included |
| Ppm.IntegerExactly | scripts/gen/ereader_golden.py:76 | int() accepts exactly blanks, an optional sign, digits in groups joined by single underscores, and blanks, with their decimal value |
| Ppm.CropPanel | scripts/gen/ereader_golden.py:86-97 | the crop fails exactly when no panel is left beside the sidebar, and otherwise writes the header bytes with single separators and the cropped rows |
| Ppm.CropPixel | scripts/gen/ereader_golden.py:92-95 | byte i of row r of the crop is byte i of row r of the source |
| Ppm.CropReadsBack | scripts/gen/ereader_golden.py:62-97 | re-reading a crop returns the reduced width, the height, the maxval and exactly the cropped raster, whatever its first bytes |
| Ppm.CropOfRead | scripts/gen/ereader_golden.py:62-112 | every file that reads with a panel can be cropped and read again |
| Supervisor.Session.PollChild | scripts/dev/remote_gdb_remote.py:252-267 | a poll reports a reaped child's code or finds it unreaped |
| Supervisor.Session.StopChild | scripts/dev/remote_gdb_remote.py:218-228 | the cleanup is one of five event sequences: the child already reaped; or terminate and wait; or after an expired wait a poll, a kill if it still runs, and a wait; it ends reaped unless the wait after the kill expired |
| Supervisor.Session.AwaitReady | scripts/dev/remote_gdb_remote.py:250-265 | startup is a number of quiet turns and one deciding turn that asks deadline, child, owner, stop request and listener in this order; it is still going on after n turns only if all n were quiet, and since every turn sleeps n is then at most 200, the start timeout divided by the poll interval |
| Supervisor.Session.WatchChild | scripts/dev/remote_gdb_remote.py:267-276 | after readiness there are quiet turns and one last turn that asks child, stop request and owner in this order, and the result is what that turn found |
| Supervisor.Session.Serve | scripts/dev/remote_gdb_remote.py:249-276 | the events of both loops, what they amount to, and whether the child has to be stopped |
| Supervisor.Session.Supervise | scripts/dev/remote_gdb_remote.py:235-279 | over every behaviour of the environment the run is explained from its first to its last event (launch, both loops, cleanup) together with its outcome; the trace is safe, a run that ends satisfies the whole verdict on signals, readiness, returned codes and reaping, and before readiness at most 200 turns pass |
| Supervisor.Append | scripts/dev/remote_gdb_remote.py:218-279 | each step that the supervisor may take keeps a safe trace safe |
| UvCache.Cache.WriteArchive | scripts/dev/bootstrap_uv_exec.py:228-249 | the archive appears whole and private, or not at all, wherever the creation, filling, mode change and rename of its temporary are cut off; what stays behind is at most one temporary with a beginning of the payload |
| UvCache.Cache.Stage | scripts/dev/bootstrap_uv_exec.py:228-249 | everything before the rename leaves both cache files alone |
| UvCache.Cache.Authenticate | scripts/dev/bootstrap_uv.py:408-429 | true exactly when both files are present, bounded, authentic and equal to the member |
| UvCache.Cache.NormalizeModes | scripts/dev/bootstrap_uv.py:504-518 | mode changes keep all bytes, can be cut off between, keep a complete cache complete, and end with the shared modes |
| UvCache.Cache.VerifyCached | scripts/dev/bootstrap_uv.py:540-573 | verification writes nothing and succeeds exactly when the probe passes, the files match and both modes are shared |
| UvCache.Cache.Install | scripts/dev/bootstrap_uv.py:624-637 | it succeeds exactly when there is a payload to install from; only authenticated bytes are stored, archive before executable, and whatever is left behind is a beginning of authenticated bytes |
| UvCache.Cache.EnsureUv | scripts/dev/bootstrap_uv.py:611-639 | soundness survives a cut before any step on the disk; nothing that is there changes, what is new is the download and its member, and an uninterrupted run succeeds exactly when what it found and the probe allow it, whatever the cache held |
| UvCache.Replay | scripts/dev/bootstrap_uv.py:611-639 | after any number of runs cut off anywhere, from an empty cache, the cache is sound, every store and every leftover was authenticated, and once any run was left alone the cache is complete, whatever cut runs follow |
| StageArchive.CollectEntries | scripts/dev/stage_worktree_context.py:148-159 | the entries are exactly the files and their ancestors as directories, by ascending name |
| StageArchive.EntryListUnique | scripts/dev/stage_worktree_context.py:148-159 | the list does not depend on the enumeration order of the files |
| StageArchive.ParentComesFirst | scripts/dev/stage_worktree_context.py:152-159 | the parent of every entry is a directory entry and comes earlier |
| StageArchive.AncestorsAre | scripts/dev/stage_worktree_context.py:152-157 | the directories above a name are its beginnings before a slash |
| StageArchive.SafeNameIff | scripts/dev/stage_worktree_context.py:202-209 | a member name is accepted exactly when without its trailing slashes it is . or has no empty, . or .. part |
| Order.LessMeans | scripts/dev/stage_worktree_context.py:159 | the byte order of names without recursion: agreement up to a position, and there the end or the smaller byte |
| StageArchive.CreateArchive | scripts/dev/stage_worktree_context.py:182-199 | an archive is created exactly for a non-empty census |
| StageArchive.ArchiveEntries | scripts/dev/stage_worktree_context.py:212-238 | the members are read exactly when every name is safe, none repeats, none is of an unsupported type and there is one, into the map of canonical names |
| StageExtract.Extract | scripts/dev/stage_worktree_context.py:326-347 | extraction succeeds exactly when all names are safe, no member is special, only directories lie above other members and a repeated name is a directory each time or a file each time; it leaves the members and directories invented above them, every member as stored if no name repeats; a created archive gives exactly its entries, under any default directory mode |
| StageVerify.CompareTrees | scripts/dev/stage_worktree_context.py:271-288 | the findings are exactly the missing, unexpected and differing names with the kind of difference (kind, then mode, then content or link), group by group and by ascending name, so none exactly when the two entry maps are equal |
| StageVerify.ExtractionFindings | scripts/dev/stage_worktree_context.py:267-347 | comparing the extraction of any readable archive without a member . with that archive finds at most unexpected directories that had to be invented above a member |
| StageVerify.VerifyArchive | scripts/dev/stage_worktree_context.py:267-288 | a readable archive and a tree without unsupported objects give exactly the findings that hold between the archive's entry map and the tree, in order |
| StageVerify.StageAndVerify | scripts/dev/stage_worktree_context.py:182-347 | create, extract, verify yields no findings for every non-empty set of candidates |
| SgOffsets.VeneerSymbols | scripts/checks/check_sg_offsets.py:143-154 | stripping the prefix off the secure bodies finds exactly the symbols that are defined together with their prefixed companion, each with its own address |
| SgOffsets.EmptyOffsets | scripts/checks/check_sg_offsets.py:202-205 | as many offsets as there are unused slots, the lowest one first |
| SgOffsets.PlaceVeneers | scripts/checks/check_sg_offsets.py:177-189 | the loop reports exactly the veneers outside the region, off the stride, or in a slot that an earlier one took (naming it), so nothing exactly when all offsets are inside, aligned and distinct |
| SgOffsets.OffsetsExact | scripts/checks/check_sg_offsets.py:202-209 | n distinct offsets that cover 0, 8, ..., 8(n-1) contain nothing else |
| SgOffsets.LocalIsGlobal | scripts/checks/check_sg_offsets.py:177-209 | the local tests together with full slots are equivalent to a bijection onto the slots |
| SgOffsets.SlotFindings | scripts/checks/check_sg_offsets.py:157-210 | the findings are exactly those that hold of the symbol table, each with its name, offset, size or count, by ascending name with a finding about the region last, an empty-slot finding only when nothing else is wrong and then with the number of vacant slots and the lowest; none exactly when the end symbol exists, there is a veneer, masked offsets biject onto the slots and padding is below 32 bytes; a missing base is an error |
| SgOffsets.WrongIsReported | scripts/checks/check_sg_offsets.py:177-189 | what the loop says about the sorted items is what holds of the table: a shared slot names the veneer with the lowest name in it |
| SgOffsets.PaddingAccepted | scripts/checks/check_sg_offsets.py:190-201 | a packed region stays packed with any padding below 32 bytes and with no more |
| SgOffsets.PaddedRegion | scripts/checks/check_sg_offsets.py:190-201 | one veneer in a region of 32 bytes is accepted |
| DriverStatus.OneRoot | scripts/gen/gen_driver_status.py:111-122 | every name extends exactly one root of its set |
| DriverStatus.OwnerIsLongest | scripts/gen/gen_driver_status.py:141-143 | the first owner in a list ordered by length is the unique longest owning root, and none exactly when no root owns the name |
| DriverStatus.DriverRoots | scripts/gen/gen_driver_status.py:157-168 | the roots are those of the headers and of the sources outside them, sorted |
| DriverStatus.AllRootsAntichainIff | scripts/gen/gen_driver_status.py:157-168 | header and orphan roots together form an antichain exactly when no header lies below an orphan source |
| DriverStatus.HeaderBelowOrphan | scripts/gen/gen_driver_status.py:157-168 | header a_b with source a: both are roots, one below the other |
| DriverStatus.HeadersKeepTheirFamily | scripts/gen/gen_driver_status.py:157-168 | adding orphan roots never moves a header out of its header family |
| DriverStatus.SourcesAreOwned | scripts/gen/gen_driver_status.py:146-168 | every source has an owner among all roots |
| DriverStatus.SourceKeepsFamilyIff | scripts/gen/gen_driver_status.py:146-168 | a source owned by a header family keeps it exactly when it is owned under its bare name or no orphan owns it |
| DriverStatus.OrphanMovesSource | scripts/gen/gen_driver_status.py:146-168 | header ra8_adc_x with sources adc_x and adc: the orphan adc takes adc_x away |
| DriverStatus.Collect | scripts/gen/gen_driver_status.py:228-241 | the roots are the minimal headers and the minimal sources outside all header families; every header is listed under its longest owner and nowhere else, every source under the longest owner of its bare name or, if nothing owns that, of its prefixed name; listings keep their order |

## Left out

- BlueNoiseRanks.InitialPattern: needs at least ten cells, so that one pixel can be seeded; the repository's edge is 64.
- BlueNoise.BoundReachesSettled: that N moves suffice for every sample is neither proved nor refuted; the proved bound is the starting potential.
- Supervisor.Session.Supervise: the environment may go on for ever (a child that runs, an owner that stays), so that a run ends is not stated, only that every further turn was quiet. Signals that the standard library itself withholds after its own internal poll are not distinguished.
- Supervisor.Session.WatchChild: observed for a number of turns, as the child may run for ever.
- StageArchive.CreateArchive: the tar encoding is the identity on members, and the digest of the written file is not modelled.
- StageExtract.Extract: a link already in the way of a file is refused instead of followed; members of a created archive never meet one.
- StageVerify.VerifyArchive: the directory is given as the map of its objects; the library walk that lists them is not modelled.
- Ppm.ReadPpm: Python's limit on the number of digits of an integer is not modelled.
- TreeWalk.Walk: what the trust policy says is a parameter; changes of the tree during the walk are not modelled.
- UvCache.Cache.WriteArchive: the rename itself is one step, and a write that the operating system refuses is not distinguished from one that is cut off.
- UvCache.Cache.NormalizeModes: the path-binding checks after the mode changes guard against concurrent writers, which are not modelled.
- UvCache.Cache.VerifyCached: the unchanged-descriptor checks after the probe guard against concurrent writers, which are not modelled.
- UvCache.Cache.EnsureUv: the POSIX path with a fixed manifest; symlink and inode-identity checks are not modelled.
- `offset_drift` and `pinned_image` of the slot check, and the API, test and app scans of the driver page: set differences and counts, only easy members.
- Rendering of pages, Zig, C and Markdown output, command lines, subprocesses, Git, downloads and self-tests.
- The C and Zig firmware, and the remaining scripts.
