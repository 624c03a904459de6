# Sparse matrix-vector product: CSR, CPSR encoding and the HLS SpMV kernel

This project models the integer core of an FPGA sparse matrix-vector product (SpMV) code base and proves properties of it in Dafny.

- **CSR matrices** (`CSRMatrix`). A matrix is stored as `data`, `indices` and `indptr`. The model covers its constructor, the fill helpers, `round_dim` and `rand_incr`.
- **Tiling** (`PartitionedCSR`). A CSR matrix is cut into a grid of row-partition x column-partition tiles. Tile rows are numbered locally; column indices stay global.
- **The CPSR encoder** (`CPSRMatrix`, cyclic packed streams of rows). It deals every tile's rows round-robin to `num_channels * pack_size` streams and closes each row with a row-advance marker `(0xFFFFFFFF, 1)`. It pads each channel's streams to the longest one and packs them into channel words. A two-word partition-table entry per channel and tile records where the tile starts and how long each stream was.
- **The kernel** (`spmv`). Its stages are:
  - the HBM word accessors;
  - `read_partition_table`;
  - `matrix_loader`, which rebuilds row indices by counting markers and frames each partition with start, next and exit tokens;
  - `wirte_unit` and `vector_buffer_access_unit` with `read_unit`, a token state machine;
  - the processing engines `pe`;
  - `result_drain_unit`.

  The FIFOs between the stages are sequences read from the front.
- **The host layout.** The host lays the partition tables and then the data into one buffer. The kernel looks for the data after `2 * total_num_partitions` words.
- **The newer host programs and the testbench:**
  - `partitionMatrixIn2`, with its workload-balanced split, and `partitionRows`;
  - `compute_ref`, single and iterated;
  - `check_buffer` and `check_aligned_vector`;
  - `generateRandomCSR` and `matrixVectorMultiply`;
  - the plain `spmv` kernel, which adds into its output.
- **Three small kernels and helpers:** `burst_engine`, the `vvadd` stream kernel and `format_size`.

## Modules

| file | module | models |
|---|---|---|
| errors.dfy | `Errors` | the error outcomes: invalid argument, division by zero, out-of-bounds access, a stalled FIFO |
| cint.dfy | `CInt` | the iteration count of a C `for` loop over a signed bound, the range of `uint64_t` |
| csr.dfy | `Csr` | `CSRMatrix`, its validity, rows, the product `SpMV`, the fills, `round_dim`, `rand_incr` |
| tiling.dfy | `Tiling` | `PartitionedCSR` |
| streams.dfy | `Streams` | streamizing one tile |
| cpsr.dfy | `Cpsr` | `append_with_CSR`, the `CPSRMatrix` constructor and reading its layout back |
| hbm.dfy | `Hbm` | `intepret_hbm_word`: words as bit vectors, the memory image of channel words |
| loader.dfy | `Loader` | `read_partition_table`, `matrix_loader` |
| decode.dfy | `LaneDecode` | what one loader lane makes of an encoded stream |
| layout.dfy | `HostLayout` | the host buffer and what the loader reads from it |
| pipeline.dfy | `Pipeline` | `read_unit`, `wirte_unit`, `vector_buffer_access_unit`, `pe` |
| drain.dfy | `Drain` | `result_drain_unit` |
| kernel.dfy | `Kernel` | the `spmv` kernel end to end |
| hostkernel.dfy | `HostKernel` | the host's buffer through the kernel |
| reference.dfy | `Reference` | `compute_ref`, `check_buffer`, `partitionMatrixIn2`, `partitionRows` |
| testbench.dfy | `Testbench` | `generateRandomCSR`, `matrixVectorMultiply`, the plain `spmv` kernel |
| burst.dfy | `Burst` | `burst_engine` |
| formatsize.dfy | `FormatSize` | `format_size` |
| vvadd.dfy | `Vvadd` | `load_input`, `compute_add`, `store_result`, `vvadd` |

## Model

| member | source | states |
|---|---|---|
| Csr.Empty | deprecated/spmv/sp_data_structure.h:60-65 | a new matrix is valid, has the requested shape, no non-zeros and every row empty |
| Csr.FromRowsRow | deprecated/spmv/sp_data_structure.h:44-57 | assembling a matrix row by row is faithful: row `k` of the result is exactly the `k`-th row handed in |
| Csr.RowsRoundTrip | deprecated/spmv/sp_data_structure.h:44-57 | cutting a valid matrix into its rows and reassembling them gives the same matrix |
| Csr.FlattenRowsPrefix | deprecated/spmv/sp_data_structure.h:44-57 | the rows before `k`, laid end to end, are exactly the first `indptr[k]` stored non-zeros |
| Csr.UniformFill | deprecated/spmv/sp_data_structure.h:74-90 | the filled matrix is valid with in-range columns; every row has `avg_degree` entries, entry `j` of row `i` at column `((i mod d) + j * (num_cols / d)) mod num_cols` with the fill value |
| Csr.UniformFillRows | deprecated/spmv/sp_data_structure.h:74-90 | the arrays `uniform_fill` writes form a valid matrix whose rows are those described above |
| Csr.DenseFill | deprecated/spmv/sp_data_structure.h:108-120 | on a matrix with a well-formed `indptr`, the result is valid and row `i` holds every column `0 .. num_cols` in order, each with the fill value |
| Csr.DenseFillRows | deprecated/spmv/sp_data_structure.h:108-120 | the arrays `dense_fill` writes form a valid matrix whose every row is the full row of columns |
| Csr.RoundDimAsWritten | deprecated/spmv/sp_data_structure.h:225-236 | as written: a zero divisor is a division by zero, and padding rows with `indptr` no longer than `num_rows` reads out of bounds, and only these fail; otherwise dimensions are rounded up to the least multiples, data and indices untouched, `indptr` kept when no rows are added; when rows are added `indptr` keeps its old offsets, each new slot holds the nnz `indptr[num_rows]`, and it is only `num_rows` long |
| Csr.RoundDimAsWrittenBreaksInvariant | deprecated/spmv/sp_data_structure.h:229 | a valid 1x1 matrix rounded to 2 rows is no longer a valid matrix |
| Csr.RoundDim | deprecated/spmv/sp_data_structure.h:225-236 | rounding yields a valid matrix whose dimensions are the least multiples not below the old ones; old rows are unchanged, added rows are empty, data and indices untouched |
| Csr.RoundDimIdempotent | deprecated/spmv/sp_data_structure.h:225-236 | rounding an already rounded matrix changes nothing |
| Csr.RoundDimPreservesProduct | deprecated/spmv/sp_data_structure.h:225-236 | the padded matrix's product is the old product followed by zeros |
| Csr.RandIncr | deprecated/spmv/sp_data_structure.h:20-38 | fails with "random range too small" exactly when `len > max - min`; otherwise it yields `len` strictly increasing values in `[min, max)`, the accepted draws sorted |
| Csr.SortDistinct | deprecated/spmv/sp_data_structure.h:35 | sorting distinct values yields a strictly increasing permutation of them |
| Tiling.CeilDivValue | deprecated/spmv/sp_data_structure.h:269-270 | the partition count is `n / d`, plus one when `d` does not divide `n` |
| Tiling.PartitionBounds | deprecated/spmv/sp_data_structure.h:271-274 | every partition ends within `n` and the last one ends exactly at `n` |
| Tiling.ItemPartition | deprecated/spmv/sp_data_structure.h:308-313 | item `x < n` lies in partition `x / d`, which exists, at offset `x mod d` inside it |
| Tiling.Tile | deprecated/spmv/sp_data_structure.h:281-328 | every tile is a valid matrix with its partition's row and column counts |
| Tiling.PartitionGrid | deprecated/spmv/sp_data_structure.h:259-329 | the grid keeps the partition sizes, total dimensions, ceiling partition counts and last-partition sizes, and every tile is valid |
| Tiling.PartitionAsWritten | deprecated/spmv/sp_data_structure.h:269-270 | as written, a zero partition size reaches a division by zero, and only then |
| Tiling.PartitionAsWrittenDividesByZero | deprecated/spmv/sp_data_structure.h:269-270 | a concrete 4x4 matrix with column partition size 0 divides by zero |
| Tiling.Partition | deprecated/spmv/sp_data_structure.h:259-329 | zero partition sizes are rejected as invalid arguments; otherwise the result is a well-formed grid |
| Tiling.TileRowContents | deprecated/spmv/sp_data_structure.h:305-318 | local row `k` of tile `(i, j)` holds exactly source row `i * row_partition_size + k`'s entries in column partition `j`, global columns kept, in source order |
| Tiling.TileIndptr | deprecated/spmv/sp_data_structure.h:320-328 | consecutive tile offsets differ by the row's count of entries in the tile's column range |
| Tiling.PlacedExactlyOnce | deprecated/spmv/sp_data_structure.h:305-318 | together, row `r`'s local rows in its row partition hold exactly row `r`'s entries, each in the tile of its column partition |
| Tiling.PiecesMembers | deprecated/spmv/sp_data_structure.h:313-315 | piece `j` of a row holds exactly the row's entries whose column lies in partition `j` |
| Tiling.TilesReassembleProduct | deprecated/spmv/sp_data_structure.h:305-318 | row `r` of `m * v` is the sum, over the column partitions, of the dot products of row `r`'s local rows in the tiles |
| Streams.RowLane | deprecated/spmv/sp_data_structure.h:375-376 | row `r` goes to stream `r mod num_streams`, at position `r / num_streams` of that stream's rows |
| Streams.LaneRowIdsShape | deprecated/spmv/sp_data_structure.h:375-376 | stream `s` receives exactly the rows `s, s + num_streams, ...` below the row count |
| Streams.StreamIsJoin | deprecated/spmv/sp_data_structure.h:375-387 | a stream is its rows' entries in order, each row closed by one marker |
| Streams.MarkersCountRows | deprecated/spmv/sp_data_structure.h:375-387 | a stream holds exactly one marker per row assigned to it, empty rows included, when no column index equals the marker |
| Cpsr.StreamPlacement | deprecated/spmv/sp_data_structure.h:398-403 | the stream stored at channel `ch`, slot `k` is stream `ch * pack_size + k`, and every stream has its own slot |
| Cpsr.MaxLength | deprecated/spmv/sp_data_structure.h:407-416 | the channel's share of words is the longest of its streams |
| Cpsr.AppendWithCsr | deprecated/spmv/sp_data_structure.h:361-437 | an append keeps the header; it adds exactly two table words per channel, keeps every earlier table word and channel word as a prefix, and grows each channel's data by exactly the length of its longest stream |
| Cpsr.AppendedEntry | deprecated/spmv/sp_data_structure.h:389-436 | the new entry's first word holds the channel's old size and its second the stream's pre-padding length; the new words carry the stream, then `(0, 0)` padding |
| Cpsr.AppendAllKeeps | deprecated/spmv/sp_data_structure.h:470-474 | later appends keep what an earlier append wrote, as a prefix |
| Cpsr.Build | deprecated/spmv/sp_data_structure.h:440-475 | zero channels is a modulo by zero; a row partition size, or a nonzero last-partition size, that the stream count does not divide is rejected; otherwise the tiles are appended in row-major order |
| Cpsr.AppendAllReadBack | deprecated/spmv/sp_data_structure.h:389-436 | after the appends, table entry `t` of each channel decodes, slot by slot, to tile `t`'s streams |
| Cpsr.LayoutReadBack | deprecated/spmv/sp_data_structure.h:440-475 | in the constructor's output, table words `2t` and `2t + 1` of channel `ch` locate stream `ch * pack_size + k` of tile `t`, with one entry per tile |
| Cpsr.BuildEvenStreams | deprecated/spmv/sp_data_structure.h:452-465 | the constructor's checks give every stream of every tile the same number of markers |
| Hbm.AsMetadataStart | deprecated/spmv/spmv.cpp:28-31 | the start field is a 32-bit value; `Hbm.StartField` shows it is the start the host packed |
| Hbm.AsMetadataLength | deprecated/spmv/spmv.cpp:33-36 | lane `k`'s length is a 32-bit value, read from the same bits as packet `k`'s index |
| Hbm.AsDataIndex | deprecated/spmv/spmv.cpp:38-41 | packet `k`'s index is a 32-bit value; `Hbm.PacketFields` shows it is the index the host packed |
| Hbm.AsDataValue | deprecated/spmv/spmv.cpp:43-46 | packet `k`'s value is a 32-bit value; `Hbm.PacketFields` shows it is the value the host packed |
| Hbm.SetVector | deprecated/spmv/spmv.cpp:48-56 | after `set_vector(w, k, v)`, `as_vector` of slot `k` gives `v mod 2^32` and every other slot is unchanged |
| Hbm.SetVectorLanes | deprecated/spmv/spmv.cpp:48-56 | `set_vector` updates exactly one 32-bit lane |
| Hbm.SetVectorOverwrites | deprecated/spmv/spmv.cpp:53-56 | a second `set_vector` to the same slot erases the first |
| Hbm.StartField | deprecated/spmv/spmv.cpp:28-31 | `as_metadata_start` reads back the start offset the host packed into a table word's packet 0, mod `2^32` |
| Hbm.PacketFields | deprecated/spmv/spmv.cpp:28-46 | the accessors read back the index and value the host packed for packet `k`, each mod `2^32` |
| Hbm.ParseWordBits | deprecated/spmv/spmv.cpp:12-24 | parsing the image of packets whose fields fit in 32 bits gives the packets back |
| Hbm.WordBitsParse | deprecated/spmv/spmv.cpp:12-24 | writing back the packets parsed from a word reproduces the word |
| Loader.ReadPartitionTable | deprecated/spmv/spmv.cpp:95-120 | reads words `2 * pid` and `2 * pid + 1`: the start from the first, lane `k`'s length from slot `k` of the second, and the maximum is the largest length; fails exactly when they are out of memory |
| Loader.LoadPartition | deprecated/spmv/spmv.cpp:147-178 | each lane's frame is a start token, its nonzeros and a next token; fails exactly when a data word the longest lane needs is out of memory |
| Loader.StreamPartition | deprecated/spmv/spmv.cpp:139-178 | the word-by-word loop, with its counters reset to the lane indices, produces exactly the per-lane frames |
| Loader.RunEmits | deprecated/spmv/spmv.cpp:159-169 | every non-marker packet yields one nonzero, in order, carrying no token |
| Loader.FrameTokens | deprecated/spmv/spmv.cpp:147-178 | a partition frame holds one start and one next token and never an exit |
| Loader.ColumnTokens | deprecated/spmv/spmv.cpp:131-180 | after `j` column partitions a lane holds `j` start and `j` next tokens and no exit |
| Loader.LoadColumnsStacks | deprecated/spmv/spmv.cpp:131-180 | when each partition reads cleanly, the lanes are its frames stacked in column order |
| Loader.MatrixLoader | deprecated/spmv/spmv.cpp:123-187 | each lane ends in its only exit token, after one start and one next token per column partition |
| LaneDecode.DecodeRows | deprecated/spmv/spmv.cpp:142-169 | a lane fed rows spaced `pack_size` apart from its own index emits exactly their nonzeros tagged with their rows, and leaves its counter on the next row |
| LaneDecode.DecodeStream | deprecated/spmv/spmv.cpp:142-169 | lane `k`, fed stream `k` of a tile, emits the nonzeros of rows `k, k + pack_size, ...` in order, each tagged with its own tile-local row |
| HostLayout.TableRead | deprecated/spmv/spmv.cpp:95-120 | the kernel reads back the start, each lane's length and their maximum, as the host stored them |
| HostLayout.PartitionRead | deprecated/spmv/spmv.cpp:152-172 | every lane makes of entry `t`'s data what it makes of its own stream |
| HostLayout.MatrixLoaderReadsTiles | deprecated/spmv/host.cpp:91-101 | over the host's buffer, the loader gives lane `k` one frame per tile of the row partition, holding exactly that tile's rows `k, k + pack_size, ...`, then the exit token |
| HostLayout.HostLoaderInput | deprecated/spmv/host.cpp:132-135 | with the host's own kernel arguments, the loader reads the first row partition's tiles, the data found after `2 * total_num_partitions` table words |
| Pipeline.ReadFrom | deprecated/spmv/spmv.cpp:199-228 | a call reads at least one item and never past its input; running out of input stalls |
| Pipeline.ReadFromEnds | deprecated/spmv/spmv.cpp:201-217 | a call ends on the item it read last: an exit token forwarded as the exit update, or a next token forwarded as the next update |
| Pipeline.ReadFrame | deprecated/spmv/spmv.cpp:199-228 | a frame is read in one call: the start token, every nonzero's product for its row, the next token |
| Pipeline.ReadSkipsIdle | deprecated/spmv/spmv.cpp:204-212 | while idle, the unit drops everything that is neither a start nor an exit token |
| Pipeline.WriteUnit | deprecated/spmv/spmv.cpp:232-250 | the bank is refilled from the partition's vector words; slots from `num_words * pack_size` on keep their contents; a missing word is out of bounds |
| Pipeline.WriteUnitSlots | deprecated/spmv/spmv.cpp:239-248 | bank slot `i * pack_size + kk` holds vector slot `kk` of word `col_pid * num_words + i` |
| Pipeline.AccessLaneFrames | deprecated/spmv/spmv.cpp:253-285 | a lane as the loader writes it leaves the access unit as one product frame per partition, then the exit update |
| Pipeline.ReadPartitionsFrames | deprecated/spmv/spmv.cpp:263-272 | the per-partition `read_unit` calls read exactly one frame each |
| Pipeline.VectorBufferAccessUnit | deprecated/spmv/spmv.cpp:253-285 | on success, every lane went through the per-partition banks, the same banks for all lanes |
| Pipeline.PeAccumulates | deprecated/spmv/spmv.cpp:297-318 | up to the exit token, each slot receives exactly the data of the updates whose row maps to it |
| Pipeline.RemainderSlotsMerge | deprecated/spmv/spmv.cpp:315-316 | as written, everything lane `k` computes piles into slot `k` and every other slot stays zero |
| Pipeline.PeAsWrittenMergesRows | deprecated/spmv/spmv.cpp:315-316 | rows 0 and 8 of lane 0 are added into one slot as written and kept apart when corrected |
| Pipeline.PeHoldsRows | deprecated/spmv/spmv.cpp:292-319 | corrected, slot `q` of lane `k` holds the total of row `q * pack_size + k` |
| Drain.DrainWords | deprecated/spmv/spmv.cpp:327 | `num_elements / pack_size / 2` whole words cover `2 * pack_size` rows each and no more |
| Drain.DrainWordAsWrittenSlots | deprecated/spmv/spmv.cpp:331-335 | as written, lane `k` ends with the odd slot's value and the even slot's value is lost |
| Drain.DrainAsWrittenIgnoresEven | deprecated/spmv/spmv.cpp:333-334 | as written, the drained word does not depend on the banks' even slots at all |
| Drain.DrainRowsAsWritten | deprecated/spmv/spmv.cpp:322-339 | lane `s < pack_size` of word `i` is bank `s`'s slot `2i + 1`; the upper lanes are whatever the word held |
| Drain.DrainRows | deprecated/spmv/spmv.cpp:322-339 | corrected, lane `s` of word `i` holds bank `s`'s slot `2i`, and lane `s + pack_size` bank `s`'s slot `2i + 1` |
| Drain.DrainAsWrittenLosesRows | deprecated/spmv/spmv.cpp:333-334 | one bank with slots `[5, 7]` drains to `[7, 0]` as written and to `[5, 7]` corrected |
| Kernel.SpmvAsWritten | deprecated/spmv/spmv.cpp:342-390 | the kernel as written produces, on success, `num_elements / pack_size / 2` words from banks it can read |
| Kernel.Spmv | deprecated/spmv/spmv.cpp:342-390 | the corrected kernel produces, on success, the same number of words from banks it can read |
| Kernel.SpmvRows | deprecated/spmv/spmv.cpp:342-390 | whenever the loader yields one frame per column partition holding only lane `k`'s rows, each with an output-bank slot, and the vector banks fill, the corrected kernel succeeds and lane `s` of output word `i` is row `2 * pack_size * i + s`'s sum of values times their vector values, mod `2^32` |
| Kernel.EnginesHoldRows | deprecated/spmv/spmv.cpp:380-383 | corrected engines leave slot `q` of bank `k` holding the total of row `q * pack_size + k` |
| Kernel.DrainHoldsRows | deprecated/spmv/spmv.cpp:322-339 | such banks drain to words whose lane `s` of word `i` holds row `2 * pack_size * i + s` |
| Kernel.ComputeRows | deprecated/spmv/spmv.cpp:342-390 | corrected, lane `s` of drained word `i` is the row `2 * pack_size * i + s` sum, over all partitions, of each value times its column's vector value, mod `2^32` |
| LaneDecode.LaneNonZerosRows | deprecated/spmv/spmv.cpp:142-169 | when every row a lane is fed is congruent to `k` and below `2^32`, every nonzero it yields carries no token and a row congruent to `k` within the same bound |
| HostKernel.LaneBodyFits | deprecated/spmv/spmv.cpp:142-169 | a tile of at most `pack_size * 1024` rows gives lane `k` only its own rows, each with an output-bank slot below 1024 |
| HostKernel.TileBodiesFit | deprecated/spmv/host.cpp:13-14 | when every tile of a row partition has at most `pack_size * 1024` rows (the host's `OB_SIZE`), every lane's bodies meet the kernel's engines' needs: no tokens, only the lane's rows, every row in a bank slot |
| HostKernel.HostSpmvRows | deprecated/spmv/host.cpp:79-101 | on the host's buffer, with row partitions of at most `pack_size * 1024` rows, the corrected kernel succeeds and lane `s` of word `w` is the sum over row `2 * pack_size * w + s` of the row partition's tiles of each value times its vector value, mod `2^32` |
| Reference.ComputeRef | examples/spmv-xhl-base-2device/host.cpp:90-105 | the result has `num_rows` entries, entry `r` the dot product of row `r` with the vector, i.e. the matrix-vector product (examples/spmv_distributed/host.cpp:113-128 is the same code) |
| Reference.IterateCompose | examples/spmv-xhl-base-2device/host.cpp:106-117 | `a` products followed by `b` more are `a + b` products, for any matrix shape the `a + b` products accept |
| Reference.Resize | examples/spmv-xhl-base-2device/host.cpp:112 | resizing keeps the entries below the new length and pads with zeros |
| Reference.PingPong | examples/spmv-xhl-base-2device/host.cpp:113-115 | alternating between two buffers, the buffer written last holds the product applied `N` times |
| Reference.ComputeRefIterated | examples/spmv-xhl-base-2device/host.cpp:106-117 | for any shape whose first product reads inside the vector (and, from two iterations on, inside `num_rows`): with `N > 0`, the result is the product applied `N` times; with `N = 0`, a vector longer than `num_rows` overruns `ref_result` and fails, and otherwise the vector is copied over the resized `ref_result`, whose later entries stay (examples/spmv_distributed/host.cpp:129-140 is the same code) |
| Reference.CheckBuffer | examples/spmv-xhl-base-2device/host.cpp:59-85 | false on a length mismatch; otherwise true exactly when the vectors are equal, whatever `stop_on_mismatch` is (examples/spmv_distributed/host.cpp:82-108 and `check_aligned_vector` at test.cpp:26-52 are the same code) |
| Reference.RowBlock | examples/spmv-xhl-base-2device/host.cpp:39-56 | a block of consecutive rows is a valid matrix with the requested row count and the original column count |
| Reference.RowBlockRows | examples/spmv-xhl-base-2device/host.cpp:46-52 | row `k` of a block is row `start + k` of the matrix |
| Reference.RowBlockEntries | examples/spmv-xhl-base-2device/host.cpp:45-51 | a block's non-zeros are the matrix's non-zeros between the block's bounding offsets |
| Reference.StepBackClosest | examples/spmv-xhl-base-2device/host.cpp:34-35 | stepping back picks whichever of the two neighbouring offsets is closer to half the non-zeros |
| Reference.ClosestSplit | examples/spmv-xhl-base-2device/host.cpp:28-38 | the chosen row offset is at least as close to half the non-zeros as any other row offset |
| Reference.SplitPointAsWritten | examples/spmv-xhl-base-2device/host.cpp:27-38 | without balancing, the split is `num_rows / 2`; with balancing, the split is the best-balanced row, and a matrix without non-zeros overruns `indptr` |
| Reference.EmptyMatrixOverrun | examples/spmv-xhl-base-2device/host.cpp:29-35 | for a matrix with no non-zeros no offset exceeds half the count, so the search runs off the end of `indptr` |
| Reference.SplitPoint | examples/spmv-xhl-base-2device/host.cpp:27-38 | the corrected split: the best-balanced row when there are non-zeros, `num_rows / 2` otherwise |
| Reference.PartitionIn2AsWritten | examples/spmv-xhl-base-2device/host.cpp:22-57 | fails exactly for a balanced split of a matrix with no non-zeros; otherwise returns the two halves |
| Reference.HalvesCover | examples/spmv-xhl-base-2device/host.cpp:39-56 | both parts are valid with the original column count; their data and indices concatenate to the original's and their rows are the original rows in order |
| Reference.PartitionIn2 | examples/spmv-xhl-base-2device/host.cpp:22-57 | two parts whose row counts add up to `num_rows`; without balancing the first part has `num_rows / 2` rows |
| Reference.RowBoundShape | examples/spmv_distributed/host.cpp:67-70 | partition bounds `p * n / P` are monotone, start at 0 and end at `n` |
| Reference.PartitionRows | examples/spmv_distributed/host.cpp:60-80 | part `p` is valid, keeps `num_cols` and has the difference of its bounds as row count |
| Reference.PartitionRowsRows | examples/spmv_distributed/host.cpp:71-78 | row `k` of part `p` is row `p * n / P + k` of the matrix |
| Reference.PartitionsAdjoin | examples/spmv_distributed/host.cpp:67-70 | the row counts of the parts before `q` add up to part `q`'s first row |
| Reference.PartitionsCover | examples/spmv_distributed/host.cpp:67-70 | the row counts of all parts add up to `n` |
| Testbench.GenerateRow | test.cpp:63-70 | one row stores strictly increasing columns below the column count with values in `[0, 100)`; it draws once per column plus once per stored entry; density 0 or less stores nothing and 100 or more stores every column |
| Testbench.GenerateRandomCsr | test.cpp:53-74 | row offsets start at 0, never decrease and end at the entry count; columns are strictly increasing in each row and below `numCols`; values are in `[0, 100)`; density 0 or less gives no entries and 100 or more a dense matrix |
| Testbench.MatrixVectorMultiply | test.cpp:91-102 | `row_ptr.size() - 1` results, each the sum of `values[j] * vector[col_idx[j]]` over its row |
| Testbench.RangeDotsAreSpMV | test.cpp:95-99 | on a valid matrix each row's array sum is the matrix-vector product's entry |
| Testbench.SpmvKernel | examples/spmv/spmv.cpp:59-66 | rows below `num_rows` get their dot product added to their initial value; other entries are untouched; an empty row keeps its value |
| Burst.NumTransfers | burst_engine/burst_engine.cpp:10 | the number of whole 64-byte transfers in the size |
| Burst.BurstEngine | burst_engine/burst_engine.cpp:5-24 | read mode sets word 0 to the 512-bit wrapping sum of the first `num_transfers` words, or to 0 when there are none, and keeps the rest; write mode sets word `i` to `i` below `num_transfers` and keeps the rest |
| FormatSize.Scale | burst_engine/host.old.cpp:80-92 | the number is the size divided by the unit's magnitude, rounded down; it is below 1024 unless the unit is GB, and the unit is the largest of B, KB, MB, GB not above the size |
| FormatSize.DecimalRoundTrip | burst_engine/host.old.cpp:93 | a number's decimal digits read back as the number |
| FormatSize.FormatSize | burst_engine/host.old.cpp:80-93 | a size below 1024 prints as its decimal followed by `" B"` |
| FormatSize.FormatSizeRoundTrip | burst_engine/host.old.cpp:80-93 | parsing the printed text gives back the scaled number and its unit |
| Vvadd.LoadInput | deprecated/examples/vvadd_zs343/vvadd.cpp:4-8 | the stream gains `in[0 .. size)` in index order; reading past the input is out of bounds |
| Vvadd.ComputeAdd | deprecated/examples/vvadd_zs343/vvadd.cpp:10-17 | exactly `size` items leave each input stream and their pairwise sums join the output in order; a short input stalls |
| Vvadd.StoreResult | deprecated/examples/vvadd_zs343/vvadd.cpp:19-23 | the `i`-th item read goes to `out[i]`; a short stream stalls and a short output is out of bounds |
| Vvadd.Vvadd | deprecated/examples/vvadd_zs343/vvadd.cpp:26-40 | `out[i] = in1[i] + in2[i]` below `size`, the rest untouched and all streams drained; succeeds exactly when all three arrays hold `size` items |

## Left out

- Fixed point: `value_t` is `ap_ufixed<32, 8>` with rounding and saturation. The model uses unbounded integers for values and reduces them mod `2^32` only where a value is stored in a 32-bit word field.
- OpenCL and XRT host code is not modelled: buffers, migration, kernel launch, timing. So are file and console I/O (`load_from_txt`, `store_to_txt`, `print_*`) and the `main` programs.
- `random_fill` is not modelled. It draws a row degree from `rand()` and calls `rand_incr`.
- Csr.UniformFill: a zero `avg_degree`, or a zero `num_cols` with rows present, divides by zero in the source; the precondition excludes both.
- Csr.RoundDim: the corrected rounding requires non-zero divisors and a valid matrix. Csr.RoundDimAsWritten reports a zero divisor as a division by zero.
- Csr.RandIncr: the retry loop of `rand_incr` is replaced by its accepted draws, a parameter required to be distinct values in `[min, max)`. Its non-termination under an adversarial `rand()` is not modelled. `min <= max` is required, as the unsigned subtraction `max - min` otherwise wraps around.
- Testbench.GenerateRandomCsr: `rand()` is a parameter `rand(d)`, the `d`-th value drawn after seeding. The arrays are assumed to start empty, as every caller has them.
- Testbench.MatrixVectorMultiply: an empty `row_ptr` (where `size() - 1` wraps around) is excluded by the precondition.
- Testbench.SpmvKernel: `num_cols` is unused by the kernel; the model requires instead that every column read lies inside `vector_in`.
- Tiling.Partition and the other members use unbounded `nat`: 32-bit overflow of `unsigned` sizes and offsets is not modelled, except for the kernel's `index_t` fields, which are reduced mod `2^32`. Tiling.Partition and Tiling.PartitionAsWritten also require a well-formed CSR whose column indices are all below `num_cols`; the constructor checks neither, and a column at or beyond `num_cols` would index past the tile grid or land in the last column tile.
- The kernel's multi-channel composition is not modelled: the host encodes on one channel, and the end-to-end theorems are stated for one channel.
- HLS dataflow scheduling, FIFO depths and pragmas are not modelled. Each stage consumes its predecessor's complete output, which FIFOs make equivalent.
- Kernel.SpmvAsWritten: the vector buffer before its first refill and a drained word before its lanes are set are uninitialised in the kernel. They are parameters (`init`, `blank`).
- Pipeline.WriteUnit: `wirte_unit` fills only the first `num_words * pack_size` slots of each bank, and `read_unit` indexes the bank by `(col / pack_size) mod vb_bank_size`. Both are kept as written, and no end-to-end claim is made about which vector element a column selects. Kernel.ComputeRows states the result in terms of the bank values the kernel reads.
- Vvadd.Vvadd: the static FIFOs are assumed empty on entry, as they are on a first call.
- Burst.BurstEngine: `size_in_bytes` is required to fit in 64 bits, and `location` to hold the words the transfers touch. Accesses outside `location` are not modelled.
- FormatSize.FormatSize: the size is required to fit in an unsigned 64-bit value, as `uint64_t` holds it. The `std::to_string` text is modelled by its decimal digits.

## Findings

| source | as written | input that shows it | evidently intended | confidence | as-written member | corrected member |
|---|---|---|---|---|---|---|
| deprecated/spmv/sp_data_structure.h:229 | `indptr` is resized to `new_num_rows` | a 1x1 matrix rounded to a row multiple of 2 has 2 rows and 2 offsets | `indptr` resized to `new_num_rows + 1`, padded with the nnz | not executed | Csr.RoundDimAsWrittenBreaksInvariant | Csr.RoundDim |
| deprecated/spmv/sp_data_structure.h:269-270 | partition counts divide by the partition sizes without a check | a 4x4 matrix with column partition size 0 | zero partition sizes rejected as invalid arguments | not executed | Tiling.PartitionAsWrittenDividesByZero | Tiling.Partition |
| deprecated/spmv/spmv.cpp:315-316 | `pe` indexes its bank by `row_index % pack_size` | lane 0 updates for rows 0 and 8 with `pack_size` 8 land in one slot | slot `row_index / pack_size`, one row per slot | not executed | Pipeline.PeAsWrittenMergesRows | Pipeline.PeHoldsRows |
| deprecated/spmv/spmv.cpp:333-334 | both values of a pair are written to lane `k` of the word | one bank with slots `[5, 7]` drains to `[7, 0]` | the second value in lane `k + pack_size` | not executed | Drain.DrainAsWrittenLosesRows | Drain.DrainRows |
| examples/spmv-xhl-base-2device/host.cpp:29-35 | the balanced split searches `indptr` for an offset above half the nnz | a 2x2 matrix with no non-zeros: no offset exceeds 0, the loop ends at `indptr.size()` and `indptr[ind]` is read past the end | fall back to `num_rows / 2` when there is nothing to balance | not executed | Reference.EmptyMatrixOverrun | Reference.SplitPoint |
