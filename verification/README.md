# A Dafny model of the vector search engine

The repository is an IVF + RaBitQ vector search engine with a columnar payload
store. This project models the parts of it that carry invariants of their own and
proves what they are for. Code that updates state in the repository is imperative
here as well (classes, arrays, loops), proved against specification functions; the
laws about those functions are lemmas.

| file | models |
|---|---|
| `OrderStats`, `Pigeonhole`, `Bits`, `WordArray`, `Status` | sorting and order statistics, counting, bits and little-endian integers, word arrays, statuses |
| `BinaryHeap`, `TopKHeap`, `ResultCollector` | make/push/pop/sort heap on arrays, the keep-the-k-smallest heap, the exact-rerank collector |
| `ProbeLoop`, `PrunedSearch`, `Replay` | the two-stage probe loop with its frozen frontier and counters, the theorem that pruning loses nothing, the offline replay |
| `CoarseSelect`, `GroundTruth`, `Conann` | coarse cluster selection, blocked exact top-k, fixed-threshold classification and calibration |
| `BitpackCodec`, `DictCodec` | LSB-first bit packing, dictionary encoding |
| `ColumnFormat`, `ColumnStore` | column writers, the serialised image, reading it back; the classes that do it |
| `PayloadLayout`, `Bitplanes`, `PayloadCells`, `BlockTrailer`, `ExDataRegion`, `RegionImage` | payload layouts, bitplane decoders, the visit of all cells, the address trailer of a block, the region walk, and regions built to be walked |
| `ReadProtocol`, `AsyncReader`, `BufferPool` | the read protocol over queue, kernel and completion queue; the ring and fallback readers; the I/O buffer pool |
| `NpyHeader`, `NpyFile`, `VecsFile`, `ExportClustering` | the .npy header scanner and printer, .npy files, .fvecs/.ivecs files, assignment reconstruction |

Main results, in the system's terms:

* Pruned search is exact. With every first estimate within margin_s1 and every second
  within margin_s1 over 2^(bits-1), reranking only the
  survivors of the probe loop returns the brute-force top-k distances, for any
  clusters and any top_k of at least one (`PrunedSearch.PrunedSearchIsExact`,
  `PrunedSearch.SafeOutIsBeaten`, and the composed method `PrunedSearch.Search`).
* A locator from a successful ingest reads back its value from the serialised image
  after any history of other ingests, including ones that failed half-way
  (`ColumnFormat.LocatorsSurviveHistory`, `ExactRowBack`, and for every value of every
  column type `NativeValuesSurvive`).
* Both coarse selections, the blocked ground truth and the result collector are
  tied to one notion of the k smallest values.
* Bit packing is one identity over a little-endian integer, and unpacking inverts it,
  exactly as long as the 32-bit bit position does not wrap
  (`BitpackCodec.PacksExactly`, `ReadsBackExactly`).
* Every fixed payload layout is a bijection between cells and payload slots, the
  decoders agree with true bitplanes, an accepted region is tiled exactly, and every
  region built from cells is accepted with the totals of its cells
  (`RegionImage.BuiltFile`).
* The readers deliver every prepared tag exactly once over every run, and what polls and
  waits hand out is what the kernel posted, in order
  (`ReadProtocol.RunsDeliver`); every run of
  the fallback is a run of a ring reader with room for its prepares
  (`AsyncReader.FallbackRunRefines`); the buffer pool never lends a buffer twice and
  loses no capacity.
* Written .npy, .fvecs and .ivecs files load back, with the exact condition each time.

## How the outside world appears

Distances are reals; the frontier has an explicit infinite case and ground-truth
scores an explicit minus infinity. Estimates, margins and exact distances are inputs
of a candidate; "within its margin" is an assumption of the theorems, not proved.
Files are byte sequences, a float in a file is its 32-bit pattern. The answer of a
kernel submit, the completions and the results of `pread` are parameters of each
step; the address an allocation returns is a parameter required to be no live
address. Sampled queries and their distances are the input of the calibration.
`ClassifyAdaptive` follows include/vdb/index/conann.h:94-99, column types
include/vdb/common/types.h:75-134, and the packed reader the scalar loop of
src/simd/bit_unpack.cpp:18-49. `std::sort`, `std::nth_element`, `argpartition` and
`argsort` enter through what they guarantee: `NthElement` and `SortPrefix` in
`CoarseSelect`, `ArgPartition` and `ArgSortDescending` in `GroundTruth`, and `Sort`
in `Conann` are stand-ins with those contracts.

Preconditions that are not in the code text but without which it is undefined:
`top_k >= 1` for the probe loop and the collector (the code reads the top of an
empty heap otherwise), `bits` from 1 to 32 (the shift by `bits - 1` leaves the 32-bit
word otherwise; the model takes it for any larger number), at least one row of
base vectors per ground-truth block and `topk >= 1`. `OpenForRead` replaces the schema
list, the id map and the buffer before it checks the header
(src/columns/column_store.cpp:236-249), so two more follow: `Ingest` needs no more
schemas than there are writers, and a column of the new list is read only after the
last `OpenForRead` succeeded, as the readers kept by a refused one need not view the
new buffer, if they are there at all. Any other column, and any store not opened, is
answered with its error. `EncodedSize` computes in 64 bits and returns 32
(include/vdb/codec/bitpack_codec.h:54-56), so packing needs that the size did not wrap
below the bytes it writes; it cannot for less than 2^35 - 7 bits
(`BitpackCodec.EncodedSizeIsRoomy`).

## Where code and documentation differ

The model follows the code.

* include/vdb/codec/bitpack_codec.h:30 says the default threshold 256 keeps widths
  at or below 8 bits. A largest value of exactly 256 takes 9
  (`BitpackCodec.DefaultThreshold`).
* include/vdb/index/conann.h:24-26 classifies with one margin; the code
  (src/index/conann.cpp:61-69) uses twice the margin. `Conann.ClassifiedSoundly` is
  about the code.
* include/vdb/index/conann.h:127-129 says a higher percentile is more conservative,
  with fewer SafeOut. The code takes place floor((1 - percentile) * samples) of the
  ascending samples, so a higher percentile never raises the threshold
  (`Conann.PercentileTightens`).
* src/simd/bit_unpack.cpp:15 calls the scalar reader correct for widths 1 to 8; its
  loop is modelled, and proved, for any width up to 32.

## Properties with a condition

The conditions are exact: each holds in both directions, for all inputs.

* in_flight_ counts submitted and unreaped requests only while each kernel submit
  takes the whole queue: `ReadProtocol.ExactRuns` is the exact condition over runs,
  and `ReadProtocol.FailedSubmitUnderflows` a run that underflows it.
* Lowering the scale of a replay loosens the counts, but with negative margins it can
  take SafeIn away; `Replay.CountsLoosenExactly` says for which candidate lists it does
  not, `Stage1LoosensExactly` and `Stage2LoosensExactly` for which rows.
* Bit positions are 32-bit words (src/codec/bitpack_codec.cpp:46-64,
  src/simd/bit_unpack.cpp:26-45). Past 2^32 bits values merge: with 2^27 + 1 values at
  width 32, bit 0 of the last lands on bit 0 of the first. `BitpackCodec.PacksExactly`
  and `ReadsBackExactly` are the condition for a count and a width.
* rabitq_code_zip/analyze_vector_bitplanes.py:471 divides by the payload size when
  there are four planes, so a file without payload is analysed only with fewer
  (`ExDataRegion.Analyze`).

## Model

| member | source | states |
|---|---|---|
| PrunedSearch.PrunedSearchIsExact | benchmarks/bench_rabitq_diagnostic.cpp:617-747 | for every sequence of probed clusters where each candidate is within its margin at the stage that decided it (the first estimate within margin_s1, the second within margin_s1 over 2^(bits-1)), the topK smallest exact distances among the survivors are the topK smallest among everything probed |
| PrunedSearch.SafeOutIsBeaten | benchmarks/bench_rabitq_diagnostic.cpp:632-737 | every candidate finally classed SafeOut has at least topK distinct earlier survivors with strictly smaller exact distance |
| PrunedSearch.SoundEstimatesSuffice | benchmarks/bench_rabitq_diagnostic.cpp:664-697 | when both estimates of every probed candidate are within those bounds, whatever stage decides is |
| PrunedSearch.Search | benchmarks/bench_rabitq_diagnostic.cpp:617-747 | probe, exact rerank of the survivors and finalize, composed: under sound estimates the result distances are the brute-force topK in ascending order, and every result is a surviving row with its own distance, none more often than it survived |
| PrunedSearch.FrontierNeverRises | benchmarks/bench_rabitq_diagnostic.cpp:740-745 | the frontier reported after a later cluster is never above one reported earlier |
| PrunedSearch.FrontierMeaning | benchmarks/bench_rabitq_diagnostic.cpp:632-635 | the frontier is infinite exactly while fewer than topK survivors were seen; finite, it is the topK-th smallest upper bound, by counting |
| PrunedSearch.CountersBalance | benchmarks/bench_rabitq_diagnostic.cpp:668-703 | for the counters of every whole run: as many candidates as were probed; each stage partitions the rows it saw, stage two sees exactly the rows stage one left uncertain, and the final classes are the sums of both stages |
| PrunedSearch.QueryLogged | benchmarks/bench_rabitq_diagnostic.cpp:632-746 | every probed candidate of a query is logged once, in probe order |
| PrunedSearch.RunLogged | benchmarks/bench_rabitq_diagnostic.cpp:617-747 | so is every candidate of a run, query by query |
| PrunedSearch.FinalsBalance | benchmarks/bench_rabitq_diagnostic.cpp:697-737 | SafeOut rows and survivors together are all rows |
| PrunedSearch.NoFalseSafeOut | benchmarks/bench_rabitq_diagnostic.cpp:697-700 | over a whole run of queries with sound margins: when the rows flagged as true neighbours are ones with fewer than topK rows of their query strictly closer, the false-SafeOut counter is zero |
| ProbeLoop.DecidingStage | benchmarks/bench_rabitq_diagnostic.cpp:668-697 | the second stage runs exactly for what the first leaves uncertain with two bits or more; the deciding estimate is that of the last stage run, and its margin is the candidate margin, times 2^-(bits-1) in stage two |
| ProbeLoop.ClassMeaning | include/vdb/index/conann.h:94-99 | SafeOut exactly when everything within the margin of the estimate is beyond the frontier, SafeIn exactly when not SafeOut and everything within it is below the calibrated distance |
| ProbeLoop.ProbeCandidate | benchmarks/bench_rabitq_diagnostic.cpp:664-703 | one candidate: its two-stage decision and the counters it bumps |
| ProbeLoop.UpdateFrontier | benchmarks/bench_rabitq_diagnostic.cpp:718-737 | the heap keeps the topK smallest upper bounds of all survivors when a row is added |
| ProbeLoop.ProbeCluster | benchmarks/bench_rabitq_diagnostic.cpp:632-738 | all members of a cluster are judged against the frontier frozen at its start, while the heap and the counters move |
| ProbeLoop.ProbeQuery | benchmarks/bench_rabitq_diagnostic.cpp:621-746 | one query: the log of all decisions, the frontier after each cluster, and the counters |
| ProbeLoop.ProbeRun | benchmarks/bench_rabitq_diagnostic.cpp:606-747 | a whole run: every counter equals the number of logged rows it counts |
| TopKHeap.TopKHeap.Offer | benchmarks/bench_rabitq_diagnostic.cpp:725-736 | a record enters while there is room and later exactly when its key beats the k-th smallest offered; a refused one leaves the heap as it was |
| TopKHeap.KeptKeys | benchmarks/bench_rabitq_diagnostic.cpp:718-737 | whatever the arrangement of the heap and however ties fall, the kept keys are the k smallest offered |
| TopKHeap.TopKHeap.Drain | src/query/result_collector.cpp:37-47 | draining largest first and reversing gives the k smallest keys in ascending order |
| ResultCollector.ResultCollector.constructor | src/query/result_collector.cpp:9 | a new collector has been offered nothing |
| ResultCollector.ResultCollector.TryInsert | src/query/result_collector.cpp:11-22 | an entry enters while there is room, later exactly when it is strictly below the current topK-th smallest distance |
| ResultCollector.ResultCollector.TopDistance | src/query/result_collector.cpp:24-27 | the largest kept distance, or the largest float when nothing is kept |
| ResultCollector.ResultCollector.Full | src/query/result_collector.cpp:29-31 | full exactly when topK entries were offered |
| ResultCollector.ResultCollector.Size | src/query/result_collector.cpp:33-35 | the smaller of topK and the number offered |
| ResultCollector.ResultCollector.Finalize | src/query/result_collector.cpp:37-47 | the topK smallest offered distances, ascending, each still with an address it was offered with; the collector is empty afterwards |
| Replay.ReplayScale | benchmarks/bench_safein_replay.cpp:250-267 | one pass over the rows gives the summary at one scale |
| Replay.ReplayScales | benchmarks/bench_safein_replay.cpp:245-269 | one summary per scale, in order |
| Replay.SummaryCounts | benchmarks/bench_safein_replay.cpp:118-128 | every field of every summary, by counting rows: classes per stage, a SafeIn false for a row that is no true neighbour, a SafeOut false for one that is |
| Replay.LowerScaleLoosens | benchmarks/bench_safein_replay.cpp:118-142 | lowering the scale over rows whose margins are not negative, or that are SafeOut anyway, never lowers a SafeIn or false-SafeIn count at any stage and leaves every SafeOut count as it was |
| Replay.Stage1LoosensExactly | benchmarks/bench_safein_replay.cpp:130-142 | for one row and all pairs of scales, lowering the scale turns its stage-one class at most from Uncertain to SafeIn if and only if its margin is not negative or it is SafeOut |
| Replay.Stage2LoosensExactly | benchmarks/bench_safein_replay.cpp:130-142 | the same for stage two |
| Replay.CountsLoosenExactly | benchmarks/bench_safein_replay.cpp:250-267 | for every candidate list: its counts loosen between all pairs of scales, at every stage, if and only if both stages of every row meet that condition |
| Replay.NegativeMarginTightens | benchmarks/bench_safein_replay.cpp:118-142 | a concrete row that loses SafeIn |
| Replay.ClassesPartitionRows | benchmarks/bench_safein_replay.cpp:250-267 | SafeIn, SafeOut and Uncertain add up to the rows counted at each stage |
| Replay.ReplayAtScaleOne | benchmarks/bench_safein_replay.cpp:250-267 | replaying the exact log of any run at scale one reproduces the counters of the run itself |
| CoarseSelect.SelectTopNProbeSmall | src/simd/coarse_select.cpp:9-27 | the first min(nprobe, nlist) places are distinct ids in non-decreasing score order and no omitted id scores less |
| CoarseSelect.SelectTopNProbeSmallSpecialized | src/simd/coarse_select.cpp:29-77 | the in-place heap version makes the same promise |
| CoarseSelect.SelectionsAgree | src/simd/coarse_select.cpp:9-77 | any two selections of the same size have the same score sequence, so both versions agree up to ties |
| CoarseSelect.SelectedScores | src/simd/coarse_select.cpp:9-27 | the scores of a selection are the smallest scores in ascending order |
| CoarseSelect.KeptIsSelected | src/simd/coarse_select.cpp:52-74 | keeping the m smallest of the ids by heap and sorting them is a selection |
| BinaryHeap.MakeHeap | src/simd/coarse_select.cpp:55-57 | heap order by a rearrangement of the prefix |
| BinaryHeap.PopHeap | src/simd/coarse_select.cpp:63-65 | the largest element moves behind the heap and the rest is a heap |
| BinaryHeap.PushHeap | src/simd/coarse_select.cpp:67-69 | the last element joins the heap by a rearrangement |
| BinaryHeap.SortHeap | src/simd/coarse_select.cpp:72-74 | a heap becomes an ascending rearrangement of itself |
| BitpackCodec.ComputeMinBitWidth | src/codec/bitpack_codec.cpp:11-36 | zero exactly when a value exceeds the threshold; otherwise the least positive width that holds every value, one for no values |
| BitpackCodec.DefaultThreshold | include/vdb/codec/bitpack_codec.h:30-50 | with the default threshold of 256 the width is at most eight, except nine exactly when the largest value is 256 |
| BitpackCodec.PackValue | src/codec/bitpack_codec.cpp:48-64 | the inner loop or-s the low w bits of a value in from its bit position on, across any byte boundaries and past the wrap of the 32-bit position |
| BitpackCodec.Encode | src/codec/bitpack_codec.cpp:38-70 | the bytes hold every value or-ed in at bit i*w modulo 2^32, for any number of values whose buffer size has not wrapped |
| BitpackCodec.EncodedSizeIsRoomy | include/vdb/codec/bitpack_codec.h:52-56 | the size never wraps below what is written for fewer than 2^35 - 7 bits |
| BitpackCodec.EncodedSizeIsLeast | include/vdb/codec/bitpack_codec.h:52-56 | below that many bits it is the least number of bytes |
| BitpackCodec.PackedBit | src/codec/bitpack_codec.cpp:46-67 | a packed bit is set exactly when a set bit of some value lands on it |
| BitpackCodec.PacksExactly | src/codec/bitpack_codec.cpp:38-70 | encoding is the sum of (value mod 2^w) * 2^(i*w), for every list of n words, if and only if n*w is at most 2^32 |
| BitpackCodec.PackedBound | src/codec/bitpack_codec.cpp:38-70 | the sum of (value mod 2^w) * 2^(i*w) is below 2^(count*w): the unused tail bits are zero |
| BitpackCodec.ReadPacked | src/codec/bitpack_codec.cpp:72-80 | bits i*w to i*w+w-1 of that sum are value i reduced to w bits |
| BitpackCodec.UnpackValue | src/simd/bit_unpack.cpp:25-48 | the scalar reader gathers w bits from any 32-bit bit position, wrapping with it |
| BitpackCodec.Decode | src/codec/bitpack_codec.cpp:72-80 | decoding gathers each value at bit i*w modulo 2^32 |
| BitpackCodec.DecodeOfEncode | src/codec/bitpack_codec.cpp:38-80 | up to 2^32 bits, decoding what was encoded gives each value mod 2^w, hence all values back if and only if they fit w bits |
| BitpackCodec.ReadsBackExactly | src/codec/bitpack_codec.cpp:38-80 | decoding gives back every list of n words, each cut to w bits, if and only if n*w is at most 2^32; beyond it a list is lost |
| BitpackCodec.PackUnpack | src/codec/bitpack_codec.cpp:11-80 | at the computed width nothing is lost up to 2^32 bits; beyond, the values read off the merged bits; zero width keeps the values raw |
| BitpackCodec.WidthOfWords | src/codec/bitpack_codec.cpp:29-35 | 32-bit values never take more than 32 bits |
| DictCodec.BuildDict | src/codec/dict_codec.cpp:8-32 | dictionary without duplicates in order of first occurrence, indices naming exactly the equal values |
| DictCodec.Decode | src/codec/dict_codec.cpp:34-44 | each index gives its entry, or the empty string when out of range |
| DictCodec.StoreAndLoad | src/codec/dict_codec.cpp:8-44 | a column comes back through dictionary, packing and decoding as long as its indices take at most 2^32 bits, so always up to 2^27 values |
| DictCodec.DictNoLarger | src/codec/dict_codec.cpp:16-28 | indices stay below the number of values |
| ColumnFormat.AppendKeepsWellFormed | src/columns/column_chunk_writer.cpp:63-119 | an accepted value keeps fixed-width data whole or the offset table gap-free from zero to the data size |
| ColumnFormat.LocatorMatchesTable | src/columns/column_chunk_writer.cpp:96-118 | a variable-length locator starts at its table entry, now and after later appends; its length is the step to the next entry, and its slot the record, if and only if each fits 32 bits |
| ColumnFormat.LocatorOfFixed | src/columns/column_chunk_writer.cpp:63-94 | a fixed-width locator points one width per earlier record past the base, with no table slot |
| ColumnFormat.PartialIngest | src/columns/column_store.cpp:92-119 | an ingest succeeds exactly when no column refuses; either way the columns before the first refusal are one record ahead and the others unchanged |
| ColumnFormat.IngestExtends | src/columns/column_store.cpp:102-115 | an ingest, failed or not, only adds to the writers |
| ColumnFormat.HistoryExtends | src/columns/column_store.cpp:92-119 | so does any history of ingests, and it keeps every writer well formed |
| ColumnFormat.HistoryStores | src/columns/column_store.cpp:92-119 | what a history leaves in a column is what was there and the values of the rows that reached it, in order, whether or not their ingest then succeeded |
| ColumnFormat.LocatorsAddress | src/columns/column_store.cpp:110-114 | every locator of a successful ingest points at the bytes its column then stores |
| ColumnFormat.LocatorsOfHistory | src/columns/column_store.cpp:92-119 | the locator of a column, from the history before its ingest: the bytes left in the column so far, its own length, and the number of values for a varying type |
| ColumnFormat.RegionsTile | src/columns/column_store.cpp:146-187 | column regions start at zero, follow one another without gap and end at the end of the body |
| ColumnFormat.CellInBody | src/columns/column_store.cpp:172-187 | bytes of a column sit in the body at region offset plus data offset, in bounds |
| ColumnFormat.TableInBody | src/columns/column_store.cpp:182-187 | offset table entries read back from the body as written |
| ColumnFormat.OpenOfImage | src/columns/column_store.cpp:234-286 | opening a serialised image succeeds and recovers every region offset |
| ColumnFormat.ReadOfImage | src/columns/column_store.cpp:378-401 | reading a stored cell from the image gives the datum of its bytes |
| ColumnFormat.ReaderRefuses | src/columns/column_chunk_reader.cpp:129-160 | which reads fail and how: a fixed-width cell above eight bytes, and any cell past the memory except an empty varying one |
| ColumnFormat.CellRefusals | src/columns/column_store.cpp:378-401 | a store not opened refuses, an unknown column is not found, and no other cell is answered so |
| ColumnFormat.OpensExactly | src/columns/column_store.cpp:244-262 | an image opens with as many schemas as it has columns; with any other number it is refused |
| ColumnFormat.LocatorsSurviveHistory | src/columns/column_store.cpp:92-401 | a locator of a successful ingest reads back its bytes (cut to the 32-bit length it records) from the image, whatever ingests came before or after and whichever of them failed part-way |
| ColumnFormat.ExactDatumBack | src/columns/column_chunk_reader.cpp:129-160 | the exact datum comes back if and only if it has the column type, nothing outside its payload, and a length that fits 32 bits |
| ColumnFormat.ExactRowBack | src/columns/column_store.cpp:92-418 | every column of the row read back is there, and equals the ingested datum if and only if the column can hold it without change |
| ColumnFormat.NativeValueBack | include/vdb/common/types.h:109-131 | every 1-, 2-, 4- and 8-byte value of the types of that width, and every value of the varying types whose length fits 32 bits, is stored as its own bytes and comes back |
| ColumnFormat.NativeValuesSurvive | src/columns/column_store.cpp:92-401 | so does every such value from the image, after any history around its ingest; a fixed-width column is as many values of that width as it has records |
| ColumnFormat.RowsSurviveHistory | src/columns/column_store.cpp:407-418 | reading all locators of a successful ingest gives the whole row back after any history |
| ColumnFormat.RowReads | src/columns/column_store.cpp:407-418 | a list of cells reads as a row exactly when every cell reads |
| ColumnFormat.RowColumns | src/columns/column_store.cpp:407-418 | the row then has the listed columns and no others |
| ColumnFormat.RowCells | src/columns/column_store.cpp:407-418 | each with the cell it is first listed with |
| ColumnFormat.RowStops | src/columns/column_store.cpp:407-418 | otherwise the answer is the error of the first cell that fails |
| ColumnStore.ColumnChunkWriter.constructor | src/columns/column_chunk_writer.cpp:29-42 | a new writer, with a zero table entry if variable-length |
| ColumnStore.ColumnChunkWriter.AppendBytes | src/columns/column_chunk_writer.cpp:63-119 | locator and new state of an accepted value; a refused one changes nothing |
| ColumnStore.ColumnChunkWriter.Append | src/columns/column_chunk_writer.cpp:121-126 | a datum is appended by its payload bytes |
| ColumnStore.ColumnChunkWriter.Serialise | src/columns/column_chunk_writer.cpp:158-176 | data followed by the offset table |
| ColumnStore.ColumnStore.Open | src/columns/column_store.cpp:62-86 | one empty, distinct writer per schema and a new id map; an empty schema list is refused and changes nothing |
| ColumnStore.ColumnStore.Ingest | src/columns/column_store.cpp:92-119 | the writers after a full or partial ingest, also under a schema list that was replaced; writers beyond it are left alone; the row count, and one locator per schema on success |
| ColumnStore.ColumnStore.SerialiseAll | src/columns/column_store.cpp:135-190 | the moving write pointer produces exactly the image of the writers: header, then every region; refused before Open |
| ColumnStore.ColumnStore.OpenForRead | src/columns/column_store.cpp:234-286 | succeeds exactly when the header fits; schema list, id map, buffer and flag change even when it does not; every column can be read after success, and after a refusal only the ones the new list does not have can be relied on |
| ColumnStore.ColumnStore.ReadColumn | src/columns/column_store.cpp:378-401 | region-adjusted read of one cell; unknown columns are not found, and a store not opened for reading is refused |
| ColumnStore.ColumnStore.Read | src/columns/column_store.cpp:407-418 | cells in order up to the first failure, a store not opened for reading being one; a column listed twice keeps its first cell |
| ColumnStore.ColumnStore.ReadColumns | src/columns/column_store.cpp:424-452 | exactly the requested columns, each from its last listed locator; otherwise the first failure in ascending column order |
| ColumnStore.RequestedMissing | src/columns/column_store.cpp:424-452 | a requested column that is not listed is not found |
| ColumnStore.RequestedLast | src/columns/column_store.cpp:424-452 | one that is reads as its last listed locator does |
| GroundTruth.MergeKeepsTop | benchmarks/scripts/prepare_youtube8m_bench_e2e.py:600-604 | merging a block keeps the carried list the top k of all scores so far, padded with minus infinity |
| GroundTruth.NoPadding | benchmarks/scripts/prepare_youtube8m_bench_e2e.py:591-604 | once every row was seen no id is -1 |
| GroundTruth.MergeBlock | benchmarks/scripts/prepare_youtube8m_bench_e2e.py:591-604 | one base block, for any block size |
| GroundTruth.BlockedTopK | benchmarks/scripts/prepare_youtube8m_bench_e2e.py:580-608 | ids are distinct, each with its own score, sorted descending, and the scores are the global k largest |
| GroundTruth.ArgPartition | benchmarks/scripts/prepare_youtube8m_bench_e2e.py:596-602 | k distinct places, none outside scoring more than one inside |
| GroundTruth.ArgSortDescending | benchmarks/scripts/prepare_youtube8m_bench_e2e.py:606-608 | all places in descending score order |
| PayloadLayout.OffsetInPayload | rabitq_code_zip/analyze_vector_bitplanes.py:152-177 | in every fixed layout a cell lies inside the payload on a slot boundary, also in a short last lane group |
| PayloadLayout.OffsetsDisjoint | rabitq_code_zip/analyze_vector_bitplanes.py:152-177 | different cells never share a byte |
| PayloadLayout.OffsetsOnto | rabitq_code_zip/analyze_vector_bitplanes.py:152-177 | every slot boundary of the payload is some cell |
| PayloadLayout.OwnerOfSlot | rabitq_code_zip/analyze_vector_bitplanes.py:152-177 | the cell is recovered from its slot |
| PayloadLayout.SlotOfOwner | rabitq_code_zip/analyze_vector_bitplanes.py:152-177 | every slot is the slot of the cell recovered from it |
| PayloadLayout.SlotOrder | rabitq_code_zip/analyze_vector_bitplanes.py:152-177 | and it keeps the order of the layout: by lane then block, by block then lane, or by groups of four or two lanes with block then lane inside, so there is no other such bijection |
| Bitplanes.BitplaneWordsFromNibble4 | rabitq_code_zip/analyze_vector_bitplanes.py:184-198 | bit d of plane p is bit p of the four-bit code stored for dimension d; all 64 dimensions are written once |
| Bitplanes.BitplaneWordsFrom2Bit | rabitq_code_zip/analyze_vector_bitplanes.py:201-211 | the same for two-bit codes |
| Bitplanes.DirectPlanes | rabitq_code_zip/analyze_vector_bitplanes.py:180-181 | the same for direct planes |
| Bitplanes.DirectBit | rabitq_code_zip/analyze_vector_bitplanes.py:180-181 | bit d of plane p is bit d of the p-th eight payload bytes |
| Bitplanes.StoredBit | rabitq_code_zip/analyze_vector_bitplanes.py:180-211 | bit p of the code of dimension d is that payload bit, for direct planes and for the four- and two-bit formats |
| Bitplanes.BitplaneWords | rabitq_code_zip/analyze_vector_bitplanes.py:214-223 | fails exactly when the layout fixes another width; otherwise the planes of the stored codes |
| Bitplanes.EqualCodesEqualWords | rabitq_code_zip/analyze_vector_bitplanes.py:180-223 | payloads carrying equal codes give equal words in all formats |
| Bitplanes.EqualWordsEqualCodes | rabitq_code_zip/analyze_vector_bitplanes.py:180-223 | and equal words come from equal codes |
| Bitplanes.Reassemble | rabitq_code_zip/analyze_vector_bitplanes.py:440-443 | or-ing the shifted bits gathers one bit from each plane |
| Bitplanes.GatherOfPlanes | rabitq_code_zip/analyze_vector_bitplanes.py:440-444 | reassembling a dimension gives the stored code |
| Bitplanes.CountCodes | rabitq_code_zip/analyze_vector_bitplanes.py:440-444 | the histogram of a cell grows by its 64 stored codes |
| PayloadCells.VisitIsPermutation | rabitq_code_zip/analyze_vector_bitplanes.py:426-430 | the lane and dimension-block loops visit every payload slot exactly once, in every layout |
| PayloadCells.CountBlock | rabitq_code_zip/analyze_vector_bitplanes.py:426-444 | the histogram of a batch block is that of its slots in payload order; it fails exactly when a cell cannot be decoded |
| ExDataRegion.WalkRegion | rabitq_code_zip/analyze_vector_bitplanes.py:398-444 | accepts exactly the regions with a good header, blocks that end where the next begins, and decodable cells |
| ExDataRegion.RegionIsTiled | rabitq_code_zip/analyze_vector_bitplanes.py:401-417 | an accepted region is its header and offset table followed by its batch blocks, nothing else |
| ExDataRegion.BlockIsTiled | rabitq_code_zip/analyze_vector_bitplanes.py:405-417 | an accepted block is its count word, its payload at full size, and eight factor bytes a lane |
| ExDataRegion.OffsetsGrow | rabitq_code_zip/analyze_vector_bitplanes.py:405-417 | accepted offsets strictly grow |
| ExDataRegion.RegionBytesConserved | rabitq_code_zip/analyze_vector_bitplanes.py:421-424 | payload plus factor and header bytes of an accepted region are its length without the offset table part |
| ExDataRegion.TotalsOfBlocks | rabitq_code_zip/analyze_vector_bitplanes.py:421-424 | each total by itself: records, blocks, payload bytes, and the count words and factors |
| ExDataRegion.HistSize | rabitq_code_zip/analyze_vector_bitplanes.py:421-444 | the histogram holds 64 codes for every lane and dimension block |
| BlockTrailer.ParseAddressTrailer | rabitq_code_zip/analyze_vector_bitplanes.py:139-149 | finds the trailer from the last eight bytes, a size past the start counting from the end again, and refuses a zero entry size |
| BlockTrailer.TrailerReach | rabitq_code_zip/analyze_vector_bitplanes.py:139-149 | in closed form: the magic in the last four bytes, a size of at least 24 that reaches back into the block or, from the end again, past its start, and a positive entry size; the fields lie there |
| BlockTrailer.TrailerReadsBack | src/storage/cluster_store.cpp:1214-1241 | the trailer a cluster block is closed with is found by the analysis, all six fields of it, with the entry count and the start of the address table as their 32-bit casts, even where the table size wrapped |
| ExDataRegion.EntryOfClosedBlock | rabitq_code_zip/analyze_vector_bitplanes.py:392-397 | in a block the store closed, the analysed region is the region that was written if and only if it ends within 4 GiB or is empty; the entry is then good exactly if the region is accepted |
| RegionImage.BuiltRegion | rabitq_code_zip/analyze_vector_bitplanes.py:398-444 | every region built from batches of compact cells is accepted, and its totals are those of the batches: lanes, batches, cell bytes, count words and factors, and the codes of every cell |
| RegionImage.HeaderMeans | rabitq_code_zip/analyze_vector_bitplanes.py:360-374 | which headers are supported, as many 64-dimension blocks as the dimensions need, the bytes of a cell and of a fast-scan block |
| RegionImage.BuiltFile | rabitq_code_zip/analyze_vector_bitplanes.py:389-444 | the analysis of a file whose blocks hold built regions succeeds on every entry, and its totals are those of all batches of the file |
| ExDataRegion.Analyze | rabitq_code_zip/analyze_vector_bitplanes.py:354-472 | over all entries: succeeds exactly on a supported header, found trailers with the right count, accepted regions and, with four planes, some payload; then the totals, the byte balance and the histogram size |
| ReadProtocol.RunsAccount | src/query/io_uring_reader.cpp:14-314 | over every run and whatever the kernel answers, each prepared tag is in exactly one of queue, kernel, completion queue and delivered list |
| ReadProtocol.DrainedMeansDelivered | src/query/io_uring_reader.cpp:250-314 | a drained reader has delivered exactly what was prepared |
| ReadProtocol.PollsReap | src/query/io_uring_reader.cpp:260-314 | a poll, or a wait that succeeds with something in flight, takes the oldest completions off the queue, records each as reaped and counts each out of flight; any other wait changes nothing |
| ReadProtocol.RunsDeliver | src/query/io_uring_reader.cpp:260-314 | first in, first out, over every run: the outputs of all polls and waits together are what was queued and what the kernel posted, in order, less what is still queued, and they are what was reaped |
| ReadProtocol.SubmitReports | src/query/io_uring_reader.cpp:250-258 | the count a submit returns is how many requests left the front of the queue for the kernel, and how many more are in flight |
| ReadProtocol.PrepReports | src/query/io_uring_reader.cpp:14-248 | a prepare succeeds exactly when the request is queued behind all others; a failed one prepares nothing, and changes nothing if even the flush failed |
| ReadProtocol.NewReaderStarts | src/query/io_uring_reader.cpp:228-258 | a new reader has nothing anywhere, so every law of the runs holds of it |
| ReadProtocol.RunsKeepLatest | src/query/io_uring_reader.cpp:14-258 | over every run the queue is what was prepared last, in order |
| ReadProtocol.CountersStayExact | src/query/io_uring_reader.cpp:14-314 | a step keeps prepped_ and in_flight_ exact if and only if its kernel submit takes the whole queue |
| ReadProtocol.ExactRuns | src/query/io_uring_reader.cpp:14-314 | over every run from an exact state, the counters are exact in every state if and only if every kernel submit of the run takes the whole queue |
| ReadProtocol.RunsKeepCounters | src/query/io_uring_reader.cpp:14-314 | over every run of whole submits prepped_ is the queue length and in_flight_ counts what was submitted and not reaped, without underflow |
| ReadProtocol.FailedSubmitUnderflows | src/query/io_uring_reader.cpp:22-31 | otherwise it can fail: a run with a failed submit after which in_flight_ wraps below zero |
| AsyncReader.IoUringReader.constructor | src/query/io_uring_reader.cpp:228-258 | a new reader has nothing queued |
| AsyncReader.IoUringReader.AcquireSqeWithAutoFlush | src/query/io_uring_reader.cpp:14-37 | a free slot, one flush when there is none, and the counters after it |
| AsyncReader.IoUringReader.PrepReadTagged | src/query/io_uring_reader.cpp:228-248 | the prepare step, success or failure |
| AsyncReader.IoUringReader.Submit | src/query/io_uring_reader.cpp:250-258 | the submit step |
| AsyncReader.IoUringReader.Poll | src/query/io_uring_reader.cpp:260-283 | up to max_count oldest completions, in order, each taken off the queue and reaped once |
| AsyncReader.IoUringReader.WaitAndPoll | src/query/io_uring_reader.cpp:285-314 | nothing for a zero count, nothing in flight or a failed wait; otherwise what a poll delivers, taken off the queue and reaped |
| AsyncReader.PreadFallbackReader.PrepReadTagged | src/query/pread_fallback_reader.cpp:10-15 | the request joins the pending list, keeping delivery order |
| AsyncReader.PreadFallbackReader.Submit | src/query/pread_fallback_reader.cpp:17-32 | every pending read completes, in order, with its own result |
| AsyncReader.PreadFallbackReader.Poll | src/query/pread_fallback_reader.cpp:34-41 | the oldest completions are delivered: delivered, completed and pending tags stay the preparation order |
| AsyncReader.PreadFallbackReader.WaitAndPoll | src/query/pread_fallback_reader.cpp:43-47 | nothing to wait for: what a poll delivers |
| AsyncReader.FallbackRunsInOrder | src/query/pread_fallback_reader.cpp:10-47 | over every run of fallback calls, delivered, completed and pending tags are the prepared ones in preparation order |
| AsyncReader.FallbackPrepRefines | src/query/pread_fallback_reader.cpp:10-15 | a fallback prepare is a ring prepare if and only if the ring has room for it |
| AsyncReader.FallbackSubmitRefines | src/query/pread_fallback_reader.cpp:17-32 | a fallback submit, empty or not, is a whole ring submit followed by the kernel completing the reads in queue order |
| AsyncReader.FallbackPollRefines | src/query/pread_fallback_reader.cpp:34-47 | a fallback poll is the ring reader poll |
| AsyncReader.FallbackRunRefines | src/query/pread_fallback_reader.cpp:10-47 | every run of fallback calls whose prepares find room is a run of the ring reader and its kernel, ending in the ring state that stands for the fallback state |
| AsyncReader.DeepRingHasRoom | src/query/pread_fallback_reader.cpp:10-47 | a ring as deep as the run is long always has room, so every fallback run is the run of some ring reader |
| BufferPool.AlignCovers | src/query/buffer_pool.cpp:10 | the aligned size is whole pages, and covers the request if and only if it is at most 2^32 - 4096 |
| BufferPool.Pool.constructor | include/vdb/query/buffer_pool.h:15 | a new pool is empty |
| BufferPool.Pool.Acquire | src/query/buffer_pool.cpp:9-33 | first fit with swap-and-pop, or a fresh buffer |
| BufferPool.Pool.Release | src/query/buffer_pool.cpp:35-41 | a lent buffer returns to the pool with its capacity |
| BufferPool.Pool.Prime | src/query/buffer_pool.cpp:43-56 | fresh buffers join the pool |
| BufferPool.PrimeAdds | src/query/buffer_pool.cpp:43-56 | one free buffer of the aligned size per allocated address, in order; nothing lent changes |
| BufferPool.AcquireIsSafe | src/query/buffer_pool.cpp:9-33 | the buffer was held by nobody, is whole pages and at least the aligned size; nothing already lent changes |
| BufferPool.ReleaseTwice | src/query/buffer_pool.cpp:35-41 | a second release changes nothing, and a release changes nothing exactly when the buffer is not lent |
| BufferPool.ReleasedThenAcquired | src/query/buffer_pool.cpp:9-41 | a released buffer is the last choice of the next acquire, after everything pooled before it and ahead of a fresh one |
| BufferPool.RunsAreSafe | src/query/buffer_pool.cpp:9-56 | over every run, pooled and lent buffers are the allocated ones, disjoint, duplicate-free, with their original capacities |
| BufferPool.RunOneMore | src/query/buffer_pool.cpp:9-56 | a run one call longer goes on where the run ended and returns one buffer more if the call is an acquire |
| BufferPool.LentStaysLent | src/query/buffer_pool.cpp:9-56 | a buffer that is not released stays lent at its capacity and no acquire of the run returns it |
| BufferPool.AcquireCapacity | src/query/buffer_pool.cpp:12-32 | capacity held or lent grows only when nothing pooled fits, by the aligned size |
| BufferPool.ReleaseCapacity | src/query/buffer_pool.cpp:35-41 | a release moves capacity without changing it |
| BufferPool.RunsConserve | src/query/buffer_pool.cpp:9-56 | over every run, capacity held or lent is what was ever allocated |
| BufferPool.NewPoolRuns | src/query/buffer_pool.cpp:9-56 | both, for every run of a new pool |
| NpyHeader.ExtractValue | src/io/npy_reader.cpp:24-58 | the scan loops find the value of the first occurrence of a key |
| NpyHeader.ParseShape | src/io/npy_reader.cpp:61-79 | the digit loops read every maximal run of digits in 32-bit arithmetic |
| NpyHeader.FieldRead | src/io/npy_reader.cpp:24-58 | a printed field is read back as it was printed |
| NpyHeader.ValueBetween | src/io/npy_reader.cpp:24-58 | a value is read as it stands, in either quoting of the key, with any blanks around it and any end |
| NpyHeader.FindFirst | src/io/npy_reader.cpp:24-30 | the search finds the first match, and reports none only when there is none |
| NpyHeader.KeyFound | src/io/npy_reader.cpp:24-35 | single quotes first, then double; no key or no colon gives no value |
| NpyHeader.QuotesOff | src/io/npy_reader.cpp:82-87 | one pair of quotes of either kind comes off, anything else stays |
| NpyHeader.ShapeParsed | src/io/npy_reader.cpp:61-79 | a printed one-dimensional shape parses to its length mod 2^32 |
| NpyHeader.HeaderRead | src/io/npy_reader.cpp:137-141 | descr, order and shape of a printed header are read back |
| NpyHeader.Padded | src/io/npy_reader.cpp:212-218 | padding and newline bring the data to a multiple of 16 |
| NpyFile.SaveNpyFloat32Vector | src/io/npy_reader.cpp:188-235 | writing step by step gives the saved file |
| NpyFile.ParseNpyHeader | src/io/npy_reader.cpp:96-144 | magic, version, length and dict, with the error of each check |
| NpyFile.HeaderRefusals | src/io/npy_reader.cpp:96-144 | which files are refused and how: not npy, another version, or shorter than the header they announce |
| NpyFile.AnyHeaderParses | src/io/npy_reader.cpp:96-144 | any header text in either version is parsed from where it stands, with the data right behind it |
| NpyFile.DataRefusals | src/io/npy_reader.cpp:152-186 | which arrays are refused and how: other types, Fortran order, scalars, and data that ends early |
| NpyFile.LoadNpyFloat32 | src/io/npy_reader.cpp:152-186 | header checks, size check and data |
| NpyFile.MatrixLoads | src/io/npy_reader.cpp:152-186 | a matrix of any size behind its header loads as that matrix: rows by columns, or one column for one dimension |
| NpyFile.SaveSucceeds | src/io/npy_reader.cpp:220-222 | the header never exceeds its 16-bit length field |
| NpyFile.ParseOfSaved | src/io/npy_reader.cpp:96-235 | parsing a saved file gives <f4, C order, its length mod 2^32, and a data offset that is a multiple of 16 |
| NpyFile.LoadOfSaved | src/io/npy_reader.cpp:152-235 | loading a saved vector gives its first length mod 2^32 values |
| NpyFile.RoundTripExact | src/io/npy_reader.cpp:152-235 | so the round trip is exact if and only if the vector has fewer than 2^32 elements |
| VecsFile.WriteFvecs | benchmarks/export_ivf_clustering.cpp:52-66 | one record per row: dimension, then the words of the row |
| VecsFile.WriteIvecs | benchmarks/export_ivf_clustering.cpp:68-79 | one-dimensional records |
| VecsFile.LoadVecs | src/io/vecs_reader.cpp:22-136 | size, dimension and per-record checks with their errors, and the data in row order |
| VecsFile.VecsRefusals | src/io/vecs_reader.cpp:22-136 | which files load, and that all others are refused as corrupt: first dimension, whole records, and the same dimension in every record read |
| VecsFile.LoadOfWritten | src/io/vecs_reader.cpp:82-136 | loading a written matrix gives it back if and only if it has a row, fewer than 2^32 rows, and a dimension from 1 to 2^31 - 1 |
| VecsFile.LoadedIsWritten | src/io/vecs_reader.cpp:82-136 | a file that loads is the written form of its array, with nothing ignored, if and only if it has fewer than 2^32 records |
| VecsFile.AssignmentsLoadBack | benchmarks/export_ivf_clustering.cpp:68-79 | exported assignments load back if and only if there is a row and fewer than 2^32 of them |
| ExportClustering.BuildRowMap | benchmarks/export_ivf_clustering.cpp:116-120 | every dataset id maps to a row that carries it |
| ExportClustering.AssignRecord | benchmarks/export_ivf_clustering.cpp:170-186 | assigns an unassigned known row and nothing else |
| ExportClustering.FullCount | benchmarks/export_ivf_clustering.cpp:178-199 | pigeonhole: as many different dataset ids as rows mean no duplicate id and no unassigned row |
| ExportClustering.CountDecides | benchmarks/export_ivf_clustering.cpp:194-199 | after all records, the final count decides completeness |
| ExportClustering.ReconstructAssignments | benchmarks/export_ivf_clustering.cpp:138-199 | succeeds exactly when every record is readable, dataset ids are distinct and the records carry them once each; then every row has a cluster below nlist that holds its id |
| ExportClustering.OneClusterPerRow | benchmarks/export_ivf_clustering.cpp:143-192 | only one cluster has a record of a row |
| ExportClustering.ExportAssignments | benchmarks/export_ivf_clustering.cpp:138-210 | the written file loads back to the reconstructed assignments exactly when there is a row |
| Conann.ClassifiedSoundly | src/index/conann.cpp:61-69 | an estimate within twice the margin is never classed SafeOut at or below d_k nor SafeIn at or above the SafeIn distance |
| Conann.OverloadsAgree | src/index/conann.cpp:51-69 | the two overloads agree on every estimate if and only if the thresholds do not cross |
| Conann.LegacyAgrees | src/index/conann.cpp:22-37 | without a SafeIn distance of its own a classifier has no crossed thresholds |
| Conann.ThresholdsOf | src/index/conann.cpp:29-69 | the thresholds of the four-argument classifier: the legacy distance for SafeOut, the calibrated one for SafeIn if there is one, each moved by twice the margin |
| Conann.CalibrateDistanceThreshold | src/index/conann.cpp:89-154 | the order statistic of the sampled k-th distances, or zero without data |
| Conann.KthDistanceRank | src/index/conann.cpp:140-143 | a sample is the k-th smallest distance, by counting, with k cut to between one and the number of distances |
| Conann.ThresholdRank | src/index/conann.cpp:146-153 | at most a share of 1 - percentile of the samples, and never all, lies strictly below the threshold; more than that below anything larger |
| Conann.PercentileTightens | src/index/conann.cpp:146-153 | raising the percentile never raises the threshold |
| Conann.SelfHitMadeUpFor | src/index/conann.cpp:75-87 | asking for one more neighbour makes up exactly for the zero self-distance |

## Left out

- floating point: rounding, NaN and signed zero; infinities other than the frontier and the padding.
- RaBitQ encoding, rotation and the distance estimators: estimates and margins are inputs.
- SIMD kernels, the AVX paths of the unpacker and of coarse selection.
- index building, clustering training, OpenMP scheduling and random sampling.
- real file, kernel and liburing calls, ring setup and its fallbacks, file and buffer registration, deferred task work.
- file-backed column reads and `Flush`; 64-bit wrap-around of file offsets; `num_records` beyond 2^32 wraps only in the locator slot.
- CSV and JSON output, timing, the error-statistics vectors, rates and log lines of the benchmarks.
- the header and lookup parsers of the bitplane analysis (their fields are its input), its per-plane popcounts and zero/one counters, the high-plane size estimate and the compression experiments.
- the rest of the cluster store beside the trailer that closes a block.
- BufferPool.Pool.Acquire: aborting when the allocator fails is not modelled; a request whose aligned size wraps to zero gets whatever the allocator answers for size zero.
- Replay.ReplayAtScaleOne: the log before it is printed; per_candidate.csv holds six significant digits, so a row within rounding of a threshold can change class.
- DictCodec.StoreAndLoad: past 2^32 packed bits only what `BitpackCodec.PackUnpack` says of the indices.
- TopKHeap.TopKHeap.Offer: the backing array has its final capacity from the start, where the vector grows.
- NpyFile.LoadNpyFloat32: a file that ends inside its version or length field leaves variables unset in the code; the model answers with an I/O error. Allocation failure for huge shapes is not modelled.
- NpyFile.SaveNpyFloat32Vector: creating the parent directory and write errors are not modelled.
- NpyHeader.ParseShape: characters are bytes; digits are '0' to '9'.
- VecsFile.LoadVecs: the float and integer loaders are one method, as they differ only in the meaning of a word; read errors of the stream are not modelled.
- ExportClustering.ReconstructAssignments: loading a cluster and reading a record are inputs with their possible failures; centroids and progress output are left out.
- AsyncReader.FallbackPollRefines: the fallback reports zero requests in flight, while the ring reader it stands for counts its completed, unreaped requests.
- Conann.CalibrateDistanceThreshold: shuffling, sampling and the distance kernel are the input rows.
- ColumnFormat.LocatorsSurviveHistory: for images whose sizes and offsets fit 64 bits and whose column ids are distinct.
- GroundTruth.BlockedTopK: one query row at a time; query blocks only batch them.
- `FromConfig`, the loader dispatch by file extension, the int64 and int32 npy loaders: they would only add easy members.
