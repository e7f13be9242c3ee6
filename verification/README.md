# Splayed, verified

A Dafny model of Splayed, a columnar store for `SYM x TIME x FIELD` data, from its bit
operations up to its table writer, with proofs of what each layer promises the next.
`dafny verify dfyconfig.toml` checks everything.

The model follows the program's own layers.

* **Bits and codecs** (`Bits`, `Bitmap`, `Cells`, `Bitpack`, `Delta`, `Rle`, `Chunk`). Bytes are
  integers below 256, buffers are arrays, and the masked-byte loops are proved against the list
  of bits they stand for. The three encodings and the chunk format are proved lossless.
* **The index** (`Order`, `Runs`, `Meta`, `MetaBuild`, `MetaFile`, `MetaLocate`, `MetaScan`,
  `MetaScanner`, `IndexMeaning`, `IndexLimit`, `TimePatterns`). An index stands for a list of
  `(sym, time)` rows. Building, storing, reading, locating and scanning are all stated about
  that list.
* **A field's life** (`Columns`, `ChunkStream`, `FieldFiles`, `FieldHandles`, `Stitch`,
  `ChunkBounds`, `FieldConvert`, `Cast`, `Capacity`). A field file (header only, plain or chunked)
  stands for one list of nullable cells. `FieldHandle` is a class with the fields of the original;
  `FieldHandles.RunOps` says that any sequence of reads, writes, closes and reopens behaves like
  that list.
* **Scanning** (`Ranges`, `Floats`, `Predicates`, `MaskRuns`, `FieldEval`, `FieldScan`, `PredicateSplit`,
  `Dataset`, `ChunkPlan`). Scanners are classes with a ghost function `Remaining()`, the rows
  still to come; every call takes its answer off the front of that list.
* **Tables** (`Calendar`, `Partitions`, `Spans`, `Gather`, `DictColumn`, `TableQuery`, `TableScan`,
  `WorkSteal`, `SingleRead`, `WriteTable`, `AcceptedWrite`, `HaltedWrite`, `AlignedColumn`). Calendar partitions,
  spans, gathering, lazy scans and batches, the workers' shared counter as interleaved steps, and
  the write as a map update, or what is left of it when it stops halfway.

Loops over buffers are methods with invariants, proved equal to a specification function; what
that function means is proved beside it. Compression backends are a pair of functions with
`unpack(pack(x)) == x`; `STORED` is the identity. Row counts, lengths and keys that the format
keeps in 32 bits are bounded where it matters: a chunk header holds 32-bit lengths, and
`Capacity.SafeRoomy` and `Capacity.SafeAnyCut` discharge the storage conditions `Roomy` and
`StoresAnyCut` for chunks of at most 2^27 rows and any codec that at worst doubles its input.

Where the program does not do what a caller may expect, a lemma gives the input and another the
exact condition:

* `WriteTable.TableHandle.Write` / `HaltedWrite.HalfWritten`: a NULL for a column file without a
  validity region is refused in the middle of the write phase, and what was written before stays.
  A write succeeds exactly when the input is sorted, every key is found, every type matches and no
  NULL meets such a column; `HaltedTable` says what a stopped write leaves behind, and
  `HaltedWrite.StoppedCells` that it is nothing but old cells and the input's own.
* `MetaScanner.LimitBeforeRanges`, `IndexLimit.RepeatsMissed` / `IndexLimit.ScanLimited`: an index
  scan counts its limit before the requested ranges are applied, and counts a symbol twice when an
  `Or` names it twice. The result is the first `limit` wanted rows exactly when those are among the
  rows counted, which always holds for an empty request whose `Or`s repeat no symbol. A dataset
  scan passes no limit down and is not affected.
* `MetaScan.OrAfterSymUnites` / `IndexMeaning.OrExactIff`: an `Or` of symbol equalities after
  another symbol condition widens it; it is harmless exactly when the time window is empty or both
  name the same symbols. `IndexMeaning.CompiledMeans` says what any predicate compiles to.
* `PredicateSplit.StrayEmptyOr` / `PredicateSplit.StraysExact`: an empty `Or` inside a field's `Or`
  is taken out and kept as a condition of its own; the collected conditions hold of the rows that
  satisfy the predicate exactly when every condition so taken out is true by itself.
* `TimePatterns.NegativeBoundLoses` / `TimePatterns.TimeLiteral`, `TimePatterns.FractionLoses` /
  `TimePatterns.FloatLiteral`, `TimePatterns.LastPattern`: the index takes a time literal as an unsigned word, so `time >= -5`
  finds nothing and `time < 5.5` misses time 5. A table scan whose window begins before the epoch
  finds none of the rows after it (`TableScan.EarlyWindow`).
* `FieldEval.NeighboursEqual` / `FieldEval.RoundedComparison`: an integer cell is rounded to a 64-bit
  float before it is compared with a float literal, so 2^53 + 1 equals 2^53.
* `MetaBuild.UnsortedRunPasses`, `MetaBuild.OtherDictionaryPasses` / `MetaBuild.BuildExact`: the
  builder checks a run by its first and last time and its length, and compares keys across segments
  without their dictionaries. The index reads back as the input exactly when every run's times
  strictly increase and each of its rows has the string of its first.
* `MetaLocate.NegativeDateAbsent`: a `Date32` before 1970 is stored as a 32-bit pattern, looked
  up as a 64-bit one, and never found.
* `Columns.OffsetIsDropped`: slicing a column view forgets the bit offset its validity started at.
* `FieldConvert.CreateBothWays`: creating a field compressed gives the same file as creating it
  plain and compressing it exactly when some row is not NULL.
* `AlignedColumn.NullReadsSeven` / `AlignedColumn.NullsMarkedValid`, `AlignedColumn.WriteHeals`: a
  column created for a write marks every covered row valid; the write that follows puts the NULLs
  back.
* `SingleRead.OneAskedTwoRead` / `SingleRead.ReadSingle`: reading a table with one selected
  partition into Arrow batches does not cut to the limit; it is right exactly when no more rows
  than the limit are found.
* `TableScan.StrangerMissed` / `TableScan.PruningLossless`: choosing partitions by name is right for
  every time window exactly when every row lives in the partition its time names, which creating a
  partition does not check.
* `Partitions.BeforeYearZero` / `Partitions.NamesParse`: the names of months and days have a range
  exactly from the year 0 on; a year name always has.

## Model

| member | source | states |
|---|---|---|
| Bits.MaskedWrite | crates/splayed-format/src/bitmap.rs:315-344 | merging a source byte under a mask changes exactly the masked bits |
| Bits.FromToLe | crates/splayed-codec/src/delta.rs:5-10 | reading back `n` little-endian bytes of a word gives the word modulo 2^(8n) |
| Bits.ToFromLe | crates/splayed-codec/src/delta.rs:5-10 | writing the word read from bytes gives the bytes again, and the word fits their width |
| Bits.BitFromLe | crates/splayed-format/src/bitmap.rs:219-225 | bit `k` of a little-endian word is bit `k` of the buffer it was loaded from |
| Bitmap.PopCountIsCountTrue | crates/splayed-format/src/bitmap.rs:203-232 | the population count of a word is the number of its set bits |
| Bitmap.CountOnes | crates/splayed-format/src/bitmap.rs:203-236 | head byte, 64-bit words, leftover bytes and tail byte together count exactly the set bits of the range, at any bit offset |
| Bitmap.FillBits | crates/splayed-format/src/bitmap.rs:240-278 | after filling, every bit in range has the new value, every other bit its old one, and the result is the number of bits set before |
| Bitmap.FillBytes | crates/splayed-format/src/bitmap.rs:260-267 | the whole-byte part of a fill carries the overwritten frontier on without touching bits outside |
| Bitmap.ReadShifted | crates/splayed-format/src/bitmap.rs:281-290 | a byte read at any phase holds the next `n` source bits in order, the second byte being read only when needed |
| Bitmap.CopyBits | crates/splayed-format/src/bitmap.rs:294-348 | copying between any two bit phases sets every destination bit in range to its source bit, leaves all others alone, and returns the exact one-counts before and after |
| Bitmap.CopyBytes | crates/splayed-format/src/bitmap.rs:322-335 | the whole-byte part of a copy, aligned or shifted across two source bytes, extends the overwritten range |
| Bitmap.OverwriteByte | crates/splayed-format/src/bitmap.rs:299-347 | replacing one byte whose bits agree inside and outside the mask extends the overwritten range by the bits of that byte |
| Bitmap.OverwrittenBits | crates/splayed-format/src/bitmap.rs:294-348 | an overwritten range reads back as the bits written |
| Bitmap.Pack | crates/splayed-format/src/bitmap.rs:75-80 | packing a bit list gives `ceil(n/8)` bytes whose bits are the list, padding bits zero |
| Bitmap.PackedBytes | crates/splayed-format/src/bitmap.rs:157-169 | extracting a range of bits at any offset gives the packed list of those bits |
| Bitmap.SameBitsSameBytes | crates/splayed-format/src/bitmap.rs:75-80 | buffers of one length with the same bits are the same bytes |
| Bitpack.ZigzagRoundTrip | crates/splayed-codec/src/bitpack.rs:31-37 | zigzag maps every 64-bit integer into 64 bits and back |
| Bitpack.ZigzagValue | crates/splayed-codec/src/bitpack.rs:31-33 | the shift-and-xor form equals `2v` for `v >= 0` and `-2v-1` below zero |
| Bitpack.SignExtendValue | crates/splayed-codec/src/bitpack.rs:7-20 | shifting up and arithmetically down reads the low bytes as a two's complement number |
| Bitpack.MapRoundTrip | crates/splayed-codec/src/bitpack.rs:7-29 | for every type and width, mapping a cell to a word and back gives the same bytes |
| Bitpack.MapValue | crates/splayed-codec/src/bitpack.rs:7-29 | a signed cell is packed as the zigzag code of its value, any other as its pattern |
| Bitpack.WidestLeast | crates/splayed-codec/src/bitpack.rs:48-51 | the chosen width is the least that holds every value |
| Bitpack.WriteBits | crates/splayed-codec/src/bitpack.rs:86-102 | writing `width` bits across bytes ORs exactly those bits into the buffer, nothing else |
| Bitpack.ReadBits | crates/splayed-codec/src/bitpack.rs:104-121 | reading `width` bits at any position gives the word made of those bits |
| Bitpack.EncodedBitsSlice | crates/splayed-codec/src/bitpack.rs:52-60 | the packed stream holds value `i` at bits `[i*w, i*w+w)` |
| Bitpack.Encode | crates/splayed-codec/src/bitpack.rs:41-61 | the encoder writes the width byte and the packed values of the specification |
| Bitpack.Decode | crates/splayed-codec/src/bitpack.rs:63-84 | the decoder accepts and rejects exactly as specified: too short, too wide, or the values |
| Bitpack.RoundTrip | crates/splayed-codec/src/bitpack.rs:41-84 | BITPACK decodes what it encodes, at every type and row count |
| Delta.RunningValue | crates/splayed-codec/src/delta.rs:14-45 | the running sum of wrapped differences equals the original word modulo 2^(8s) |
| Delta.Encode | crates/splayed-codec/src/delta.rs:14-28 | the in-place difference loop writes the specified wrapped differences |
| Delta.Decode | crates/splayed-codec/src/delta.rs:30-45 | the running-sum loop gives the specified words, or the length error |
| Delta.RoundTrip | crates/splayed-codec/src/delta.rs:14-45 | DELTA decodes what it encodes at widths 1, 2, 4 and 8 |
| Rle.RunLength | crates/splayed-codec/src/rle.rs:10-15 | the run at the head is maximal: all equal, and the next cell differs |
| Rle.DecodedCount | crates/splayed-codec/src/rle.rs:24-48 | a payload that decodes has runs summing to the row count, every cell of the type's width |
| Rle.Encode | crates/splayed-codec/src/rle.rs:5-22 | the loop writes one `(length, cell)` pair per maximal run |
| Rle.Decode | crates/splayed-codec/src/rle.rs:24-48 | truncated pairs, runs past the row count and trailing bytes are refused as specified; anything else gives the expanded cells |
| Rle.RoundTrip | crates/splayed-codec/src/rle.rs:5-48 | RLE decodes what it encodes below 2^32 rows |
| Chunk.HeaderRoundTrip | crates/splayed-codec/src/chunk.rs:19-40 | the 12 header bytes read back as the header, whatever follows |
| Chunk.HeaderLayout | crates/splayed-codec/src/chunk.rs:19-40 | row count, length of the encoded values and length of the payload stand in bytes 0-3, 4-7 and 8-11 |
| Chunk.ChunkLayout | crates/splayed-codec/src/chunk.rs:45-77 | those fields of a whole chunk count its rows, its encoded values and what follows the header, which unpacks to the encoded values and then the validity |
| Chunk.ValuesRoundTrip | crates/splayed-codec/src/chunk.rs:45-109 | each of the four encodings gives the values back |
| Chunk.RoundTrip | crates/splayed-codec/src/chunk.rs:45-109 | a chunk gives back values, rows and validity under every encoding and lossless backend |
| Chunk.ChunkPrefix | crates/splayed-codec/src/chunk.rs:45-77 | a chunk at the front of a stream announces its own length and row count |
| Chunk.DecodedShape | crates/splayed-codec/src/chunk.rs:79-109 | a chunk that decodes has as many bytes and validity bits as its rows need |
| Chunk.EncodeChunk | crates/splayed-codec/src/chunk.rs:45-77 | the encoder writes the specified bytes and refuses a value length or validity length that does not match |
| Chunk.DecodeChunk | crates/splayed-codec/src/chunk.rs:79-109 | the decoder accepts exactly the specified chunks, with the specified error otherwise |
| Ranges.RowRange.Intersect | crates/splayed-core/src/scan.rs:25-29 | the intersection covers exactly the common rows and is absent when there are none |
| Ranges.MergeRanges | crates/splayed-core/src/scan.rs:37-51 | merging gives a sorted, gap-separated list that covers exactly the same rows |
| Ranges.CanonicalUnique | crates/splayed-core/src/scan.rs:37-51 | two canonical lists that cover the same rows are the same list |
| Ranges.MergedEqualIff | crates/splayed-core/src/scan.rs:37-51 | two lists merge to the same list if and only if they cover the same rows |
| Ranges.ClampRanges | crates/splayed-core/src/scan.rs:55-69 | clamping keeps exactly the requested rows below the bound; an empty request means all of them |
| Ranges.IntersectRangeLists | crates/splayed-core/src/dataset.rs:1003-1020 | two-pointer intersection of sorted disjoint lists covers exactly the common rows, sorted and disjoint, canonical for canonical inputs |
| Meta.RowsUpToAt | crates/splayed-format/src/meta.rs:130-146 | row `row_start + k` of the index is the symbol's name with the `k`-th time of its stretch of the axis |
| Meta.BlocksOrdered | crates/splayed-format/src/meta.rs:130-133 | the blocks of rows of two symbols never overlap and follow symbol order |
| Meta.LocateRow | crates/splayed-core/src/meta_file.rs:543-562 | succeeds exactly for rows of the grid; the position found is the only one whose `global_row` is that row, and names its symbol and time |
| Meta.ReadIndex | crates/splayed-core/src/meta_file.rs:664-749 | succeeds exactly for ranges of the grid; the segments spell out precisely those rows |
| MetaBuild.PigeonholeLow | crates/splayed-core/src/meta_file.rs:127-148 | in a sorted axis the `k`-th time of an increasing run lies at least `k` places after the first |
| MetaBuild.SpanIsSlice | crates/splayed-core/src/meta_file.rs:127-148 | for an increasing run, the length check passes if and only if the run is a contiguous slice of the axis |
| MetaBuild.AcceptedIffSlices | crates/splayed-core/src/meta_file.rs:127-148 | for increasing runs, the builder accepts if and only if every run is a contiguous slice of the sorted distinct times |
| MetaBuild.BuildIndex | crates/splayed-core/src/meta_file.rs:60-149 | the builder succeeds exactly when the columns match and are not empty, the first key of every run names a string and every run passes the span check, and gives the specified index; a gap is reported as such |
| MetaBuild.ResultValid | crates/splayed-core/src/meta_file.rs:127-155 | what the builder accepts is a valid index with as many rows as the input |
| MetaBuild.BuildExact | crates/splayed-core/src/meta_file.rs:31-192 | the accepted index reads back as the input rows if and only if every run's times strictly increase and all its rows have the string of its first |
| MetaBuild.UnsortedRunPasses | crates/splayed-core/src/meta_file.rs:130-140 | a run `1, 3, 2, 4` is accepted and reads back in another order |
| MetaBuild.SymsExact | crates/splayed-core/src/meta_file.rs:88-111 | the strings read back exactly when rows that share a run share a string |
| MetaBuild.OtherDictionaryPasses | crates/splayed-core/src/meta_file.rs:88-111 | key 0 of two segments with different dictionaries is one run, and the second row reads back as the first one's symbol |
| MetaFile.HeaderRoundTrip | crates/splayed-format/src/meta.rs:64-90 | the 64 header bytes read back as the header |
| MetaFile.Serialize | crates/splayed-core/src/meta_file.rs:156-191 | the loops write header, axis, dictionary offsets, strings and records as specified, byte by byte as the layout lemmas say |
| MetaFile.HeaderLayout | crates/splayed-format/src/meta.rs:18-32 | the header of a written file: `SPLAYMTA`, version 2, time type, generation 1, the numbers of times, symbols and rows, the two section offsets and the file size, each at its bytes, the reserved ones 0 |
| MetaFile.HeaderAccepted | crates/splayed-format/src/meta.rs:73-105 | a header is accepted exactly when it is long enough, starts with the magic and has version 2 and a known time type |
| MetaFile.AxisLayout | crates/splayed-core/src/meta_file.rs:156-191 | time `i` of the axis stands `i` cells after the header |
| MetaFile.DictLayout | crates/splayed-core/src/meta_file.rs:156-191 | entry `j` of the dictionary is the length of the names before `j` |
| MetaFile.TextLayout | crates/splayed-core/src/meta_file.rs:156-191 | the text is the names one after the other |
| MetaFile.RecordLayout | crates/splayed-format/src/meta.rs:95-120 | record `j` is its first time, its number of times and its first row, four bytes each |
| MetaFile.FileRoundTrip | crates/splayed-core/src/meta_file.rs:156-191 | parsing the written bytes gives the index back |
| MetaFile.Build | crates/splayed-core/src/meta_file.rs:31-192 | rows in, bytes out: the bytes parse to the index the rows stand for, and bytes 32 to 35 hold the number of rows |
| MetaFile.BuildAndRead | crates/splayed-core/src/meta_file.rs:664-749 | building, storing, loading and reading, bounded by the header's row count, succeeds exactly inside the grid and returns the original `(sym, time)` rows when runs increase and share their strings |
| MetaLocate.SymIdOf | crates/splayed-core/src/meta_file.rs:513-527 | binary search finds a name exactly when it is there |
| MetaLocate.AxisIndexOf | crates/splayed-core/src/meta_file.rs:565-578 | binary search finds a time exactly when it is on the axis |
| MetaLocate.AxisLowerBound | crates/splayed-core/src/meta_file.rs:1045-1058 | the bound splits the axis into smaller times and the rest |
| MetaLocate.PresentIff | crates/splayed-core/src/meta_file.rs:823-927 | a key is in the index's row list exactly when some symbol's stretch of the axis holds its 64-bit time pattern |
| MetaLocate.PresentMeaning | crates/splayed-core/src/meta_file.rs:823-927 | a key is present when some row has its symbol and its time, a negative time standing for the pattern 2^64 above it |
| MetaLocate.KeyOrder | crates/splayed-core/src/meta_file.rs:823-860 | keys are ordered by the bytes of the symbol, then by time |
| MetaLocate.RiseMeaning | crates/splayed-core/src/meta_file.rs:893-909 | the patterns of sorted keys rise exactly when no symbol's keys step from before the epoch past it |
| MetaLocate.NegativeDateAbsent | crates/splayed-core/src/meta_file.rs:837-909 | a date before the epoch is never found |
| MetaLocate.AdvanceSym | crates/splayed-core/src/meta_file.rs:862-891 | the symbol cursor only moves forward and finds the name if it is in the index at all |
| MetaLocate.AdvanceTime | crates/splayed-core/src/meta_file.rs:893-909 | the time cursor only moves forward, past smaller times only |
| MetaLocate.Seek | crates/splayed-core/src/meta_file.rs:823-927 | one key is found exactly when it is present and later than the previous one; the cursors land strictly after where they were |
| MetaLocate.Locate | crates/splayed-core/src/meta_file.rs:823-927 | locating succeeds if and only if the keys are strictly sorted by symbol and time, the unsigned patterns of the times rise within a symbol, and all keys are present; with non-negative times the middle condition falls away; the ranges are maximal and list each key's row in order |
| Predicates.SymComparison | crates/splayed-core/src/scan.rs:86-98 | a symbol is compared with a string literal by bytes, under every operator |
| MetaScan.LowerBoundSplits | crates/splayed-core/src/meta_file.rs:1045-1058 | the bound counts exactly the axis entries below a value |
| MetaScan.CmpMeaning | crates/splayed-core/src/meta_file.rs:1004-1041 | compiling a comparison whose time literal is a plain one never loses a row that satisfies it, only narrows, and is exact for symbol equality and time comparisons other than `Ne`; for other time literals see `TimePatterns` |
| MetaScan.OrMeaning | crates/splayed-core/src/meta_file.rs:975-1003 | compiling an `Or` never loses a row; for symbol equalities with no symbol condition before, it is exact |
| MetaScan.CompiledKeeps | crates/splayed-core/src/meta_file.rs:966-1042 | when its time literals are plain, the compiled condition selects every row that satisfies the predicate; for other literals `TimePatterns.ScanRowsUnsigned` says what is selected |
| MetaScan.CompiledExact | crates/splayed-core/src/meta_file.rs:966-1042 | for conjunctions of symbol equalities, plain time comparisons and one leading `Or` of symbol equalities the compiled condition selects exactly the satisfying rows; for every other shape `IndexMeaning.CompiledMeans` says what it selects |
| MetaScan.OrAfterSymUnites | crates/splayed-core/src/meta_file.rs:995-1002 | an `Or` after a symbol equality selects a row the predicate rejects |
| IndexMeaning.CompiledMeans | crates/splayed-core/src/meta_file.rs:966-1042 | whatever the predicate, the compiled window is the conjunction of its time comparisons, and the symbol set is what equalities cut and `Or`s widen, in order |
| IndexMeaning.OrMeans | crates/splayed-core/src/meta_file.rs:975-1003 | an `Or` of symbols adds its symbols to a set already there and is the set where none is |
| IndexMeaning.OrExactIff | crates/splayed-core/src/meta_file.rs:995-1002 | after a symbol condition an `Or` of symbols is right at every grid position if and only if the window is empty or it names just the symbols already selected |
| TimePatterns.TimeLiteral | crates/splayed-core/src/meta_file.rs:1018-1036 | an integer time literal is decided rightly, for a time from the epoch on, exactly when it is not negative (apart from `Ne` at that very time) or the comparison is `Eq` or `Ne` |
| TimePatterns.FloatLiteral | crates/splayed-core/src/meta_file.rs:1018-1036 | a float time literal is decided rightly except at the one time it is truncated to, for the operators truncation turns round, and for NaN |
| TimePatterns.FloatWordMeaning | crates/splayed-core/src/meta_file.rs:1019-1024 | a float time literal stands for the greatest word not above it, 0 if there is none |
| TimePatterns.LastPattern | crates/splayed-core/src/meta_file.rs:1025-1036 | the literal of the greatest pattern: its successor saturates, so `Eq` and `Le` miss that very time and `Gt` finds it |
| TimePatterns.NegativeBoundLoses | crates/splayed-core/src/meta_file.rs:1018-1036 | `time >= -5` holds at time 5 and selects nothing |
| TimePatterns.FractionLoses | crates/splayed-core/src/meta_file.rs:1018-1036 | `time < 5.5` holds at time 5 and does not select it |
| TimePatterns.ScanRowsUnsigned | crates/splayed-core/src/meta_file.rs:1018-1036 | a dataset scan finds what it finds for the predicate whose time literals are replaced by their unsigned words, whatever the literals |
| MetaScanner.CompileNode | crates/splayed-core/src/meta_file.rs:966-1042 | the compiler that updates its accumulator computes the specified condition |
| MetaScanner.CollectShares | crates/splayed-core/src/meta_file.rs:759-790 | the loop over symbols, stopping at the limit, gives the specified ranges |
| MetaScanner.SharesCover | crates/splayed-core/src/meta_file.rs:759-790 | without a limit the symbols' ranges cover a row exactly when its symbol is listed and its time lies in the window |
| MetaScanner.SharesLimit | crates/splayed-core/src/meta_file.rs:759-790 | with a limit the ranges are a prefix of the full list, complete or long enough to meet it, rows of a symbol listed twice counting twice; what that costs is `IndexLimit.ScanLimited` |
| MetaScanner.ScanIndex | crates/splayed-core/src/meta_file.rs:751-811 | without a limit the scan covers exactly the requested rows the condition selects, as a canonical list |
| MetaScanner.LimitBeforeRanges | crates/splayed-core/src/meta_file.rs:759-790 | with limit 1 and range [1, 2), a wanted row is missed |
| IndexLimit.ScanLimited | crates/splayed-core/src/meta_file.rs:751-811 | a limited scan hands out the first `limit` wanted rows if and only if those are among the rows counted; for an empty request whose `Or`s repeat no symbol it always does |
| IndexLimit.LimitExact | crates/splayed-core/src/meta_file.rs:759-790 | the rows handed out, cut at the limit, are the first wanted ones exactly when the counted prefix holds them |
| IndexLimit.WholeGridCounted | crates/splayed-core/src/meta_file.rs:759-790 | without requested ranges and without repeated symbols the counted prefix always holds them |
| IndexLimit.RangesMissed | crates/splayed-core/src/meta_file.rs:759-790 | with limit 1 and range [1, 2) it does not |
| IndexLimit.RepeatsMissed | crates/splayed-core/src/meta_file.rs:990-994 | nor does it with limit 2 for `Or([sym = A, sym = A, sym = B])` and no ranges |
| MetaScanner.IndexScanner.Next | crates/splayed-core/src/meta_file.rs:1084-1098 | each call hands out the next rows of the list, cut at the limit, and stops only when none are left |
| Columns.CellsSlice | crates/splayed-format/src/column.rs:248-308 | a byte-and-bit slice of a column holds the slice of its cells |
| Columns.CellsSplice | crates/splayed-core/src/field_file.rs:1258-1284 | overwriting values and bits in place replaces exactly those cells |
| Columns.NoNulls | crates/splayed-format/src/column.rs:128-131 | no NULLs means every bit is set, and the other way round |
| Columns.SliceRows | crates/splayed-format/src/column.rs:248-308 | slicing succeeds exactly inside the view and gives that slice of values and cells, bit offsets taken as zero |
| Columns.AlignedReset | crates/splayed-format/src/column.rs:274-277 | a view whose bit offsets are zero loses nothing by slicing |
| Columns.OffsetIsDropped | crates/splayed-format/src/column.rs:274-277 | for every non-zero bit offset there is a bitmap whose first bit changes when the offset is dropped |
| ChunkStream.SplitJoins | crates/splayed-core/src/field_file.rs:116-174 | cutting a column at any row boundaries, bytes aligned or not, and joining the chunks gives the column back |
| ChunkStream.StreamRoundTrip | crates/splayed-core/src/field_file.rs:998-1035 | a stream of chunks decodes to exactly those chunks |
| ChunkStream.EncodeRows | crates/splayed-core/src/field_file.rs:116-174 | the chunking loop writes the stream of the specified cuts |
| ChunkStream.DecodeRows | crates/splayed-core/src/field_file.rs:998-1035 | decoding fills the working buffers with exactly the stream's values and bits and succeeds exactly when the chunks decode and their rows fill the header's |
| FieldFiles.StreamFileExact | crates/splayed-core/src/field_file.rs:116-174 | a stored chunked file stands for the column it was made from, in the same chunks |
| FieldFiles.EvenSum | crates/splayed-core/src/field_file.rs:41-75 | the default cuts of 8192 rows are non-empty and cover all rows |
| FieldFiles.EvenLengths | crates/splayed-core/src/field_file.rs:41-75 | every default chunk but the last has 8192 rows |
| FieldFiles.PlainParts | crates/splayed-core/src/field_file.rs:948-972 | a plain file's values and validity region read back as the column |
| FieldFiles.BlankCells | crates/splayed-core/src/field_file.rs:2031-2124 | a header-only file stands for a column of NULLs |
| FieldHandles.PartitionPoint | crates/splayed-core/src/field_file.rs:1103-1108 | the search splits the chunk ends into those at most `x` and those beyond |
| FieldHandles.PlainRows | crates/splayed-core/src/field_file.rs:1126-1133 | reading from one buffer pair gives the slice of cells, validity omitted only when every bit is set |
| FieldHandles.ChunkRows | crates/splayed-core/src/field_file.rs:1102-1125 | reading across chunks gives consecutive segments whose cells are the slice |
| FieldHandles.NullsSplice | crates/splayed-core/src/field_file.rs:1258-1284 | replacing bits changes the NULL count by the valid bits before minus those after |
| FieldHandles.PutView | crates/splayed-core/src/field_file.rs:1206-1231 | writing a view segment by segment splices values and bits and returns the exact change of the NULL count |
| FieldHandles.FieldHandle.Read | crates/splayed-core/src/field_file.rs:1086-1134 | a read succeeds exactly inside the column of a complete file and returns that slice of cells |
| FieldHandles.FieldHandle.Prepare | crates/splayed-core/src/field_file.rs:1164-1251 | before a write: buffers are grown or expanded with the column unchanged, and a NULL meant for a file without validity is refused |
| FieldHandles.FieldHandle.Expand | crates/splayed-core/src/field_file.rs:1289-1305 | expanding a header-only file leaves a column of NULLs with room for both regions |
| FieldHandles.FieldHandle.Overwrite | crates/splayed-core/src/field_file.rs:1183-1286 | the write replaces exactly the addressed cells and raises the generation by one |
| FieldHandles.FieldHandle.Write | crates/splayed-core/src/field_file.rs:1144-1286 | a write succeeds exactly when its guards hold; then the addressed cells change, the generation rises by one and the NULL count stays exact; of a chunked file only the header changes before the close; refused or empty, it changes nothing |
| FieldHandles.FieldHandle.Close | crates/splayed-core/src/field_file.rs:1430-1486 | closing writes back a modified chunked field in its own chunk grouping and leaves any other file as it is; the stored column is the handle's |
| FieldHandles.Open | crates/splayed-core/src/field_file.rs:2031-2124 | opening succeeds exactly for plain, header-only and readable chunked files; the handle stands for the file's column |
| FieldHandles.CloseAndOpen | crates/splayed-core/src/field_file.rs:1430-1486 | closing and reopening keeps cells, generation and form |
| FieldHandles.Perform | crates/splayed-core/src/field_file.rs:1086-1305 | one read, write or reopen answers and changes state as the abstract column does |
| FieldHandles.RunOps | crates/splayed-core/src/field_file.rs:998-1305 | any sequence of reads, writes, closes and reopens, from header-only, plain or chunked form, answers as one nullable column would, and the file left behind is that column with exact NULL count and generation |
| Stitch.StitchChunk | crates/splayed-core/src/field_file.rs:1880-1900 | bits of chunks whose lengths are no multiple of 8 are carried in the accumulator so that the stream holds all bits in order |
| Stitch.StitchedEnd | crates/splayed-core/src/field_file.rs:1995-2000 | with the last partial byte flushed the stream is the packed list of all bits |
| ChunkBounds.ChunkBoundaries | crates/splayed-core/src/field_file.rs:41-75 | offsets are accepted exactly when non-empty, starting at 0 and below the row count; sorted and deduplicated they are the starts of non-empty chunks that tile the rows |
| FieldConvert.NullCount | crates/splayed-core/src/field_file.rs:831-835 | the NULL count is rows minus set bits |
| FieldConvert.CreatePlain | crates/splayed-core/src/field_file.rs:792-836 | a plain file is created exactly for matching types and stands for the column given |
| FieldConvert.CreateEmpty | crates/splayed-core/src/field_file.rs:812-817 | an all-NULL field of any length is stored as a header alone |
| FieldConvert.CreateChunked | crates/splayed-core/src/field_file.rs:83-174 | a compressed file is created exactly for valid offsets and matching types, cut at those offsets |
| FieldConvert.Compress | crates/splayed-core/src/field_file.rs:1788-1876 | compressing succeeds exactly for a plain file with valid offsets and whole regions; header-only and all-NULL fields become headers |
| FieldConvert.CompressedExact | crates/splayed-core/src/field_file.rs:1788-1876 | the compressed file stands for the same column |
| FieldConvert.Decompress | crates/splayed-core/src/field_file.rs:1907-2028 | decompressing succeeds exactly for a readable chunked file; values are joined and a validity region is written when some chunk carries one |
| FieldConvert.DecompressedExact | crates/splayed-core/src/field_file.rs:1907-2028 | the decompressed file stands for the same column |
| FieldConvert.CompressAndBack | crates/splayed-core/src/field_file.rs:1788-2028 | compressing at any valid offsets and back keeps values, validity and NULL count; unless all rows are NULL the header and content return unchanged |
| FieldConvert.CreateBothWays | crates/splayed-core/src/field_file.rs:83-174 | creating compressed gives the same header and the same body bytes as creating plain and compressing, exactly when some row is not NULL |
| Cast.CastBatches | crates/splayed-core/src/field_file.rs:1531-1566 | batch by batch, the converted values and the carried validity bits are those of the whole column |
| Cast.CastStream | crates/splayed-core/src/field_file.rs:1531-1705 | the streamed file holds each converted cell, NULL where the source is NULL, with the validity bits unchanged |
| Cast.DrainValidity | crates/splayed-core/src/field_file.rs:1568-1586 | handing out the validity in 64 KiB pieces keeps every bit and counts the set ones exactly |
| Cast.Cast | crates/splayed-core/src/field_file.rs:1597-1705 | a cast converts every valid cell and keeps NULLs, NULL count, generation and storage form, and the chunk grouping unless all rows are NULL; to the same type it changes nothing |
| Capacity.EncodedSize | crates/splayed-codec/src/chunk.rs:45-77 | no encoding takes more than twelve bytes a row and one byte |
| Capacity.SafeRoomy | crates/splayed-codec/src/chunk.rs:45-77 | chunks of at most 2^27 rows fit their 32-bit header lengths whatever is written to the field |
| Capacity.StoredRoomy | crates/splayed-codec/src/chunk.rs:45-77 | for chunks that are encoded but not compressed that needs no assumption about a backend |
| Capacity.SafeAnyCut | crates/splayed-codec/src/chunk.rs:45-77 | a column of at most 2^27 rows fits however it is cut |
| MaskRuns.NextTrueRun | crates/splayed-core/src/field_file.rs:2252-2284 | the word-level search returns the leftmost maximal run of set bits at or after `from`, or none exactly when no bit is set |
| MaskRuns.PackMask | crates/splayed-core/src/field_file.rs:2214-2243 | the mask words hold each row's flag and validity, padding bits zero |
| FieldEval.EvalCmp | crates/splayed-core/src/field_file.rs:2349-2487 | each row's flag is the comparison of its value: integers exactly, literals out of the type's range decided as the mathematics says; floats as IEEE 754 orders them, an integer against a float rounded first; a literal of another kind is an error |
| FieldEval.IntegerValue | crates/splayed-core/src/field_file.rs:2365-2465 | what a cell is: two's complement or unsigned at the type's own width, a boolean exactly when its byte is not 0 |
| FieldEval.FloatValue | crates/splayed-core/src/field_file.rs:2468-2482 | a float cell is the little-endian pattern of its width |
| FieldEval.EvalPredicate | crates/splayed-core/src/field_file.rs:2289-2340 | each row's flag is the truth of the predicate on its value; a literal of the right kind is never refused |
| FieldEval.RoundedComparison | crates/splayed-core/src/field_file.rs:2399-2482 | an integer is compared with a float as numbers are exactly unless it is rounded to that very float without being it and the operator tells the sides apart; within 2^53 it is not rounded |
| FieldEval.NeighboursEqual | crates/splayed-core/src/field_file.rs:2418 | 2^53 + 1 equals the float 2^53 |
| Floats.PatternOrder | crates/splayed-core/src/field_file.rs:2469-2481 | non-negative float patterns of either width are ordered as the values they stand for |
| Floats.PatternSpecials | crates/splayed-core/src/field_file.rs:2468-2482 | the sign bit negates, an exponent of ones is infinity or NaN, zero and one have their patterns |
| Floats.PatternSpacing | crates/splayed-core/src/field_file.rs:2468-2482 | inside a binade values are evenly spaced, and below the least normal value as in the first binade |
| Floats.PatternDoubling | crates/splayed-core/src/field_file.rs:2468-2482 | raising the exponent by one doubles a normal value |
| Floats.PatternStorable | crates/splayed-core/src/field_file.rs:2468-2482 | every finite pattern of either width is a value of 53 significant bits |
| Floats.RoundedNearest | crates/splayed-core/src/field_file.rs:2418-2418 | the integer conversion goes to a nearest value of 53 significant bits |
| Floats.TieToEven | crates/splayed-core/src/field_file.rs:2418-2418 | half-way between two multiples the even one is taken |
| Floats.RoundedSide | crates/splayed-core/src/field_file.rs:2399-2482 | rounding never moves an integer past a float, and keeps one that is a float |
| FieldScan.FieldScanner.Evaluate | crates/splayed-core/src/field_file.rs:2214-2243 | the mask of a segment marks exactly the valid rows that satisfy the predicate |
| FieldScan.FieldScanner.Advance | crates/splayed-core/src/field_file.rs:2153-2195 | moving on to the next range loses no row and ends only when none are left |
| FieldScan.FieldScanner.Emit | crates/splayed-core/src/field_file.rs:2197-2212 | a run is handed out whole or cut to what the limit leaves |
| FieldScan.FieldScanner.Next | crates/splayed-core/src/field_file.rs:2153-2195 | each call takes the next matching rows off the front of what remains, across evaluation segments, cut to the limit; it ends only when nothing remains |
| FieldScan.Scan | crates/splayed-core/src/field_file.rs:1349-1371 | a scan of a handle hands out exactly the valid matching rows of the request, in its order, cut to the limit; an empty request is all rows |
| FieldScan.ClippedFilter | crates/splayed-core/src/field_file.rs:1349-1371 | clipping the requested ranges to the field loses none of their matching rows |
| FieldScan.Drain | crates/splayed-core/src/field_file.rs:2153-2195 | calling to the end terminates and gives exactly those rows |
| FieldScan.FieldHits | crates/splayed-core/src/field_file.rs:1349-1413 | a field's hits cover exactly the requested valid rows that satisfy the predicate, sorted and disjoint |
| PredicateSplit.WalkAccepts | crates/splayed-core/src/dataset.rs:1025-1073 | a predicate is split exactly when no `Or` or `Not` spans several fields |
| PredicateSplit.StripMeaning | crates/splayed-core/src/dataset.rs:1111-1120 | a one-field predicate with its names stripped means the same on the field's value |
| PredicateSplit.CollectedHolds | crates/splayed-core/src/dataset.rs:1076-1108 | whatever is collected for the index holds of every row that satisfies the predicate, or is a field-less condition taken out of a field's own `Or` |
| PredicateSplit.StraysExact | crates/splayed-core/src/dataset.rs:1076-1108 | all collected conditions hold of a row that satisfies the predicate if and only if every condition so taken out is true by itself |
| PredicateSplit.WalkMeaning | crates/splayed-core/src/dataset.rs:1025-1073 | the groups hold of a row exactly when every one-field part does, on non-NULL cells |
| PredicateSplit.SupportedMeaning | crates/splayed-core/src/dataset.rs:1025-1120 | for supported shapes the collected part and the groups together imply the predicate and that no tested cell is NULL |
| PredicateSplit.StrayEmptyOr | crates/splayed-core/src/dataset.rs:1076-1108 | an empty `Or` under a field's `Or` is collected and rejects a row the predicate accepts |
| Dataset.IndexNeverLoses | crates/splayed-core/src/dataset.rs:419-435 | with plain time literals and no false stray condition the index narrows to a superset of the satisfying rows |
| Dataset.IndexExact | crates/splayed-core/src/dataset.rs:419-435 | for the exact shapes a kept row satisfies every collected condition |
| Dataset.IndexNarrow | crates/splayed-core/src/dataset.rs:419-435 | the narrowed candidates are exactly those the index keeps |
| Dataset.ScanGroups | crates/splayed-core/src/dataset.rs:449-520 | every field scans the same candidates and gives exactly the ones its own group keeps; no error when the literals fit |
| Dataset.IntersectAll | crates/splayed-core/src/dataset.rs:521-528 | the candidates are cut by every field's rows, whether or not an empty result ends the loop |
| Dataset.FieldsNarrow | crates/splayed-core/src/dataset.rs:439-530 | each field's hits are intersected, an empty result ends the loop, and an empty candidate list never becomes a full scan; no error when fields exist and literals fit |
| Dataset.ReachedWanted | crates/splayed-core/src/dataset.rs:414-531 | with plain time literals and no false stray condition every requested row that satisfies the predicate with no tested cell NULL is found |
| Dataset.ReachedOnlyWanted | crates/splayed-core/src/dataset.rs:414-531 | for supported shapes nothing else is found |
| Dataset.ScanDataset | crates/splayed-core/src/dataset.rs:414-531 | the scan hands out, in order and cut to the limit, rows of the requested ranges: with plain time literals and no false stray condition none wanted is lost, and for supported shapes they are exactly the wanted ones |
| Dataset.DatasetScanner.Next | crates/splayed-core/src/dataset.rs:979-995 | each call takes the next rows off the front, the range crossing the limit is cut and the rest dropped |
| ChunkPlan.SymAlignedOffsets | crates/splayed-core/src/dataset.rs:862-885 | the plan from the index is the specified plan of its symbols' row counts |
| ChunkPlan.OffsetsFromKeys | crates/splayed-core/src/dataset.rs:1154-1203 | the plan from the symbol column is the specified plan of its runs |
| ChunkPlan.PlannersAgree | crates/splayed-core/src/dataset.rs:862-885 | an index built from a symbol column has the column's run lengths as row counts |
| ChunkPlan.PlanExact | crates/splayed-core/src/dataset.rs:862-885 | boundaries are strictly increasing, valid offsets, on symbol starts or multiples of the cap inside an oversized symbol, and no chunk exceeds target - 1 + cap rows |
| ChunkPlan.PlanBothWays | crates/splayed-core/src/dataset.rs:1154-1203 | both planners give the same boundaries, and the chunks cut there tile all rows within the bound |
| Calendar.DateRoundTrip | crates/splayed-table/src/partition.rs:43-65 | every valid proleptic Gregorian date (section 3.2.1 of ISO 8601:2004) comes back from its day number |
| Calendar.DayRoundTrip | crates/splayed-table/src/partition.rs:43-65 | every day number gives a valid date with that day number |
| Calendar.DayOrder | crates/splayed-table/src/partition.rs:43-65 | day order is lexicographic date order |
| Calendar.CountsDays | crates/splayed-table/src/partition.rs:43-51 | day 0 is 1970-01-01 and the next date has the next number |
| Partitions.RangeExact | crates/splayed-table/src/partition.rs:84-118 | a value lies in a name's range if and only if that is its partition name, and the range is not empty; years of either sign, months and dates from year 0 on |
| Partitions.ClockNames | crates/splayed-table/src/partition.rs:66-93 | any time of day of a date, in microseconds, has that date's year, month and day names; so has its day number |
| Partitions.DayOfClock | crates/splayed-table/src/partition.rs:95-118 | the range of a date is from its midnight to the last microsecond of 23:59:59 |
| Partitions.RangesTile | crates/splayed-table/src/partition.rs:95-118 | the range of the next name starts where a name's range ends |
| Partitions.NamesParse | crates/splayed-table/src/partition.rs:84-118 | a time's own partition name has a range, and is proper, if and only if the partitions are years or the time is not before year 0 |
| Partitions.BeforeYearZero | crates/splayed-table/src/partition.rs:95-118 | day -719529, the last before year 0: its year name has a range, its month and date names have none |
| Partitions.Window | crates/splayed-table/src/query.rs:337-344 | binary search and take-while keep exactly the overlapping ranges of a sorted disjoint list, in order |
| Partitions.Prune | crates/splayed-table/src/query.rs:315-346 | pruning keeps exactly the partitions whose range begins before `hi` and ends after `lo`, in time order, and fails exactly on a bad name |
| Partitions.Meets | crates/splayed-table/src/query.rs:337-344 | for non-empty windows that condition is having a point in common |
| Spans.KeyMeansName | crates/splayed-table/src/table.rs:428-440 | two values have the same integer key exactly when they have the same partition name |
| Spans.ComputeKey | crates/splayed-table/src/table.rs:463-486 | the memo of the last day or month never gives a wrong key |
| Spans.PartitionSpans | crates/splayed-table/src/table.rs:447-534 | the buckets are the maximal runs of equal partition, in input order |
| Spans.SpansOwn | crates/splayed-table/src/table.rs:447-534 | every span of a bucket lies inside the input and holds only rows of its own partition; spans of one bucket are apart |
| Spans.SpansCover | crates/splayed-table/src/table.rs:447-534 | every row lies in a span of its own partition's bucket |
| Spans.ScanPartitionRuns | crates/splayed-table/src/write.rs:54-103 | the pass accepts exactly inputs strictly sorted by symbol and time with every symbol present, and gives the same buckets |
| Spans.SortedMeaning | crates/splayed-table/src/write.rs:69-80 | strictly sorted: any two rows are in byte order of their symbols and, for one symbol, in time order |
| Spans.LongerFirst | crates/splayed-table/src/write.rs:69-80 | `AB` before `B` is sorted, `B` before `AB` is not |
| Order.LexMeaning | crates/splayed-table/src/write.rs:69-80 | strings are compared by bytes: a proper prefix first, otherwise the first difference decides |
| Gather.GatherCells | crates/splayed-table/src/table.rs:299-399 | gathering values and bits gathers the cells |
| Gather.GatherFixed | crates/splayed-table/src/table.rs:379-391 | the copying loop gives the gathered bytes |
| Gather.GatherValidity | crates/splayed-table/src/table.rs:403-425 | the gathered validity holds every gathered row's flag, and is left out exactly when all are valid |
| Gather.GatherDict | crates/splayed-table/src/table.rs:309-378 | every gathered row's new key decodes to the string its old key did, the small dictionary holding the used ones in order of first use, each once |
| Gather.FirstSeenDistinct | crates/splayed-table/src/table.rs:324-365 | first uses are listed without repetition |
| DictColumn.FromDictionary | crates/splayed-arrow/src/lib.rs:1251-1320 | a given dictionary keeps its strings and keys, NULL rows getting key 0 |
| DictColumn.FromStrings | crates/splayed-arrow/src/lib.rs:1251-1320 | the built dictionary holds each string once in order of first appearance, and each row's key points at its own string |
| TableQuery.TableScanner.Next | crates/splayed-table/src/query.rs:56-103 | each call takes the next rows off the front; once the limit is met no partition is opened; no error when every partition can be scanned |
| TableQuery.TableScanner.FromCurrent | crates/splayed-table/src/query.rs:62-81 | a piece of the open partition is cut to the limit, a finished partition is let go with no row lost |
| TableQuery.TableBatchReader.PullRange | crates/splayed-table/src/query.rs:202-213 | the leftover piece comes first, then the scanner's |
| TableQuery.TableBatchReader.NextBatch | crates/splayed-table/src/query.rs:244-282 | a batch holds exactly `size` rows, fewer only when nothing remains, and rows come off the front in order |
| TableQuery.TableBatchReader.Next | crates/splayed-table/src/query.rs:172-184 | after the end nothing, batch size 0 is an error, otherwise a range or a batch |
| TableQuery.ReadAll | crates/splayed-table/src/query.rs:172-282 | reading to the end terminates; the batches concatenate to the first `limit` rows of the partitions in order, every batch but the last full |
| TableScan.MissesNothing | crates/splayed-table/src/query.rs:315-346 | a partition whose range misses the time window holds no row the request wants |
| TableScan.Choose | crates/splayed-table/src/query.rs:311-346 | the chosen partitions are exactly those whose range overlaps the window, each once and in time order; when rows live where their time says, every partition that holds a wanted row is among them; a name without bounds is the only error |
| TableScan.PruningLossless | crates/splayed-table/src/query.rs:315-346 | no window ever loses a row by its partition's name if and only if every row lives in the partition its time names |
| TableScan.StrangerMissed | crates/splayed-table/src/table.rs:1428-1470 | a row stored under another day's name is missed by the window of its own day |
| TableScan.RowsFromMember | crates/splayed-table/src/query.rs:56-103 | a row is among those of the remaining partitions exactly when its partition's scan finds it |
| TableScan.RowsFromOrdered | crates/splayed-table/src/query.rs:56-103 | the rows come partition by partition in row order, none twice |
| TableScan.ScanTable | crates/splayed-table/src/query.rs:297-366 | a table scan hands out, up to the limit, partition by partition, every row of the partitions that overlap the window with the symbol, a time in the window and the predicate asked for, and for decided requests no other row; when rows live where their time says, no partition left out holds such a row |
| TableScan.RequestDecided | crates/splayed-table/src/query.rs:301-313 | a symbol, a window of plain times and a predicate of supported shape combine to a decided request |
| TableScan.RequestMeaning | crates/splayed-table/src/query.rs:297-313 | the combined predicate holds of a row exactly when its symbol is the one asked for, its time lies in `[lo, hi)` and the predicate holds with no tested cell NULL |
| TableScan.RequestKept | crates/splayed-table/src/query.rs:297-313 | a window of plain times and a splittable predicate that loses nothing make a request that loses nothing |
| TableScan.EarlyWindow | crates/splayed-table/src/query.rs:297-313 | where all times are from the epoch on, a window that begins before it finds nothing, so it is right exactly when no row is asked for |
| WorkSteal.StepInv | crates/splayed-table/src/table.rs:584-626 | every step of every worker keeps: tasks are claimed once, a done task's slot holds its own partition's result |
| WorkSteal.Run | crates/splayed-table/src/table.rs:584-626 | so does every schedule |
| WorkSteal.StepProgress | crates/splayed-arrow/src/lib.rs:898-945 | every step of a worker that is not finished brings the run closer to its end |
| WorkSteal.Complete | crates/splayed-arrow/src/lib.rs:898-971 | when all workers have stopped, either some partition failed and a worker says so, or every partition was processed exactly once and every slot is filled |
| WorkSteal.LargestFirstOrders | crates/splayed-arrow/src/lib.rs:860-882 | tasks list each partition once, larger ones first and equal ones in partition order |
| WorkSteal.TrimToLimit | crates/splayed-arrow/src/lib.rs:973-991 | trimming the batches keeps exactly the first `limit` rows |
| WorkSteal.Collect | crates/splayed-arrow/src/lib.rs:858-993 | under any interleaving, a collection that succeeds yields the sequential result cut to the limit |
| WorkSteal.ParallelRead | crates/splayed-arrow/src/lib.rs:858-993 | from the start state, along any schedule that ends without failure, collecting gives the sequential rows of the partitions cut to the limit |
| SingleRead.ReadSingle | crates/splayed-arrow/src/lib.rs:830-856 | a single selected partition is read whole: its batches concatenate to all rows its scan finds, the limit being met exactly when no more are found |
| SingleRead.DrainBatches | crates/splayed-arrow/src/lib.rs:842-856 | one batch for every range the scan hands out, until it ends |
| SingleRead.OneAskedTwoRead | crates/splayed-arrow/src/lib.rs:830-856 | with limit 1 a partition of two rows gives both |
| WriteTable.MapRanges | crates/splayed-table/src/write.rs:177-198 | the nested loop pairs every located grid row with its input row, in order |
| WriteTable.OverlaidExact | crates/splayed-table/src/write.rs:317-349 | after the writes each addressed grid row holds its input row's cell and every other row its old one |
| WriteTable.PlanPartition | crates/splayed-table/src/write.rs:151-204 | a partition is planned exactly when its keys can be located, and every planned write puts an input row at its own key |
| WriteTable.LocatePlan | crates/splayed-table/src/write.rs:111-206 | the plan of all partitions succeeds exactly when each does, before anything is written |
| WriteTable.WriteSlice | crates/splayed-table/src/write.rs:317-349 | one slice of one column is written, or refused and the column unchanged exactly when it brings a NULL to a column without room for it |
| WriteTable.WritePartition | crates/splayed-table/src/write.rs:317-349 | slice by slice and column by column every column of the input is overlaid and others stay; the first NULL without room stops it, with all earlier slices, and the earlier columns of that slice, written |
| WriteTable.CheckTypes | crates/splayed-table/src/write.rs:375-380 | the types of the input's columns are checked for all partitions before anything is written |
| WriteTable.WriteParts | crates/splayed-table/src/write.rs:218-313 | partition after partition is written; a refusal leaves the earlier ones written, its own half written and the later ones as they were |
| WriteTable.CellWritten | crates/splayed-table/src/write.rs:317-349 | in a written partition a cell takes the value of the input row with its key, and no other cell changes |
| WriteTable.UntouchedRight | crates/splayed-table/src/write.rs:218-313 | a partition without input rows keeps every cell |
| WriteTable.TableHandle.Write | crates/splayed-table/src/write.rs:218-313 | a write succeeds exactly when the table is writable and the input is empty, or is strictly sorted with rising time patterns and every key present, every type matches and no NULL goes to a column without room for it; it is then a map update (input cells at input keys, everything else unchanged); refused before the write phase it changes nothing, stopped by a NULL it leaves exactly what was written before |
| AcceptedWrite.AcceptsMeaning | crates/splayed-table/src/write.rs:54-206 | an input is accepted if and only if it is strictly sorted, every row's key is in the row's own partition, and no symbol has rows before and after the epoch in one partition |
| AcceptedWrite.HitMeaning | crates/splayed-table/src/write.rs:151-204 | an input row goes to the grid row of its partition with its symbol and its time |
| HaltedWrite.TakenExact | crates/splayed-table/src/write.rs:317-349 | in the partition that stopped, a column holds the input's cells at the rows of the slices it took and its old cells elsewhere |
| HaltedWrite.StoppedCells | crates/splayed-table/src/write.rs:218-313 | after a stopped write every cell of the table is its old content or that of the input row with its key |
| HaltedWrite.HalfWritten | crates/splayed-core/src/field_file.rs:1189-1201 | three symbols, a column without room for NULLs, an input whose second row is NULL: the write is refused and the first cell is changed |
| AlignedColumn.CopyView | crates/splayed-table/src/write.rs:418-457 | copying a view segment by segment splices its values into the column |
| AlignedColumn.BuildAligned | crates/splayed-table/src/write.rs:418-457 | a new column holds the input's values at the written rows, all marked valid, and NULL elsewhere |
| AlignedColumn.NullsMarkedValid | crates/splayed-table/src/write.rs:418-457 | it equals the input's cells exactly when no covered row is NULL |
| AlignedColumn.NullReadsSeven | crates/splayed-table/src/write.rs:418-457 | one row, a byte 7 marked NULL: the new column reads 7 there |
| AlignedColumn.WriteHeals | crates/splayed-table/src/write.rs:218-313 | writing the same rows afterwards leaves the input's cells |

## Left out

- Files, memory maps, locks, temporary files, renames, directory walks and schema discovery: a field file is a header and a body, a dataset an index and a map from names to fields, a table a map from names to partitions.
- ZSTD and LZ4: a backend is any pair of functions with `unpack(pack(x)) == x`.
- Numeric conversion in casts: a cast takes its per-cell conversion as a parameter.
- Utf8 fields other than the symbol column and in-memory dictionaries; a value predicate on one is an error in the program.
- The 64 bytes of the FIELD header: the header is a record. The META header and the chunk header are modelled byte for byte.
- `update_header`, `update_dataset`, `update_table_data` and `fix`: administrative replacements.
- Creating missing partitions and columns inside `write_table`: `TableHandle.Write` takes them as present. Building the missing column itself is `AlignedColumn`.
- Round-robin buckets of structural changes over partitions, and the parallel branches of `scan_dataset` and `write_table`: modelled sequentially; interleaving is modelled where workers share a counter.
- Repeated-dictionary segments in the symbol column given to the index builder, which it refuses. It does not look at validity: a NULL symbol counts as the string its key names.
- Text of partition names: a name is its scheme and its numbers. Group names and field-name checks are not modelled.
- Time values at the ends of the 64-bit range: day arithmetic is unbounded, so its overflow is not modelled.
- The order in which a dataset scan visits its fields (sorted by name): it changes neither the rows found nor whether the scan succeeds.
- A comparison without a field name at dataset level: never produced by the program's own builders.
- BuildAndRead: takes inputs whose strings and offsets fit the format's 64-bit fields, as any file does.
- RunOps: writes carry well-formed views; for a chunked field its condition `Roomy` says that chunks fit their 32-bit lengths, because the program truncates them silently otherwise (see `Capacity.SafeRoomy`).
- CompressAndBack: takes at least one row and the PLAIN encoding the program compresses with; its condition `StoresAnyCut` is discharged by `Capacity.SafeAnyCut`.
- Cast: takes `Roomy` for the target type, for the same reason.
- DecodeRows: a chunk stream with more rows than its header is an error here; the program panics on the slice.
- CompiledExact: speaks of the shapes the program decides by index alone and of plain time literals (`IndexMeaning.CompiledMeans` covers every shape). A negative, fractional or non-finite literal is taken as an unsigned word and may lose rows (`TimePatterns`).
- ScanDataset: exact for supported shapes with plain time literals; for every splittable predicate with plain time literals whose stray conditions are true no wanted row is lost. For other time literals `TimePatterns.ScanRowsUnsigned` gives the rows found.
- ScanTable: that no wanted row is lost to pruning needs rows that live where their time says (`PruningLossless`); the window bounds are plain (non-negative) times for exactness.
- ScanIndex: with a limit, states the walk's own result; when that is exact is `IndexLimit.ScanLimited`.
- FieldScanner: a truncated plain file, whose scan is an I/O error, is outside its source. After an evaluation error the program's scanner passes over the failed segment on the next call; the model's keeps its place.
- Compress: a plain file of zero rows that has a body is compressed to an empty chunked file here; the program panics on it.
- EvalPredicate: flags are booleans instead of bytes 0 and 1.
- FromStrings: a column of NULLs only has key 0 and an empty dictionary, as in the program.
- Collect: speaks of two or more partitions; the single-partition branch is `SingleRead`.
- TableHandle.Write: the serial branch. In the parallel branch other partitions may go on after one refuses, so more of them may be written. Column views start at bit offset 0 (see `Columns.OffsetIsDropped`), field names carry no dot, column names are distinct, and no column file is truncated. Generations are not in `Col`.
