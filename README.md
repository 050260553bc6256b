# Fixed-width column splitter and summer

A Dafny model of the core of *AvoidingStringAllocation*, a set of .NET
benchmarks that read a file of fixed-width records with no delimiters. A
layout of thirty column widths (`1, 2, …, 10` three times, 165 characters)
cuts each record into consecutive columns. The summing benchmark parses every
column with `int.Parse` and adds it to a 64-bit total, which it compares with
the checksum `370370370000000`. The variants differ only in where a column's
characters sit when they are parsed:

- a `Substring` of the line;
- a copy in a reused scratch `char[]`, read as a new string or as a span;
- a pre-sized string overwritten through a pinned pointer;
- a slice of the record buffer, which is a heap array, a `stackalloc` block or
  unmanaged memory.

An earlier copy of the benchmark class (`Program.cs`) does no parsing. It cuts
each line or block into a per-column result table: strings, `char[][]`,
pre-sized strings, or spans.

Modules:

- `Wrappers`: `Option` and `Result`.
- `Schema`: the layout. It defines `Sum` (`positions.Sum()`), `Offset` (the
  cumulative sums kept in `lastIndex`) and `Max` (`positions.Max()`), with the
  tiling lemmas: no gap, no overlap, every column inside the record.
- `Int32Parse`: `int.Parse` under `NumberStyles.Integer` as a `Result` with a
  format error and an overflow error. It also holds the unchecked `long += int`
  with explicit two's-complement wrap-around, and the formatting inverse used
  for the round trips.
- `TextStream`: the reading side of `StreamReader` over a character sequence
  with a cursor. `Lines` lists what `ReadLine` returns. `Blocks` lists the
  successive buffer contents that `Read(buffer, 0, n)` leaves while it returns
  a positive count. A short read leaves the tail of the buffer stale.
- `DataFile`: the file `GlobalSetup` writes (100,000 lines of 165 `'1'`
  characters) and what `ReadLine` and `Read` hand back from a file of records.
- `ColumnTotals`: the summing benchmark class of `ReadColumnFixedWidth.cs`.
  Every variant is proved to return `LineTotal` or `BlockTotal`: the sum over
  all records and columns, or the first exception, checked against the constant.
- `Checksum`: on a file of records exactly as wide as the layout, free of
  terminators and written one per line, the line variants and the block
  variants return the same result. On the benchmark's file the total is the
  constant: 100,000 × 3 × (1 + 11 + … + 1111111111).
- `ColumnTables`: the table-filling benchmark class of `Program.cs`.

The file is an input sequence; nothing is read from disk. The reader that
`ReadColumnFixedWidth.cs` shares between benchmarks is a field of the class.
The reader that each `Program.cs` benchmark opens is a fresh object, and the
method returns the table it leaves behind, so the final table can be stated.

The code neither strips line terminators in block mode nor checks record
lengths; the model follows the code:

- A record whose line is too short makes `Substring` or the string indexer
  throw (`OutOfRange`).
- A column that is not a numeral makes `int.Parse` throw.
- Block reads hand the terminator to the buffer; the column loop never looks
  at it.
- `Program.cs` sizes its buffer without the terminator, so window k is the
  k-th run of record-width characters of the file while record k starts
  k terminators further on: the windows fall one terminator further behind
  with every record (`DataFile.WindowsDriftAt`).

## Model

| member | source | states |
|---|---|---|
| `Schema.PositionsShape` | AvoidingStringAllocation/ReadColumnFixedWidth.cs:20 | the layout has 30 positive widths summing to 165, and its widest column is 10 |
| `Schema.MaxIsWidest` | AvoidingStringAllocation/ReadColumnFixedWidth.cs:81 | `positions.Max()` is one of the widths and no width exceeds it, so the scratch array fits every column |
| `Schema.OffsetNext` | AvoidingStringAllocation/ReadColumnFixedWidth.cs:65 | `lastIndex += positions[i]` moves from column i's start to column i+1's start |
| `Schema.OffsetMonotone` | AvoidingStringAllocation/ReadColumnFixedWidth.cs:60-66 | column starts grow by at least one character per column |
| `Schema.ColumnInRecord` | AvoidingStringAllocation/ReadColumnFixedWidth.cs:264-269 | the first column starts at 0, each ends where the next starts, the last ends at `Sum`, so every slice lies in `[0, Sum)` |
| `Schema.ColumnsDisjoint` | AvoidingStringAllocation/ReadColumnFixedWidth.cs:60-66 | an earlier column ends at or before a later one starts: no overlap |
| `Schema.ColumnsCover` | AvoidingStringAllocation/ReadColumnFixedWidth.cs:60-66 | every character of `[0, Sum)` lies in exactly one column: no gap, no overlap |
| `Int32Parse.ParseInt32` | AvoidingStringAllocation/ReadColumnFixedWidth.cs:63 | a successful `int.Parse` returns a value within the 32-bit range |
| `Int32Parse.NumeralAlphabet` | AvoidingStringAllocation/ReadColumnFixedWidth.cs:63 | a numeral consists only of white space, signs, decimal digits and trailing NULs |
| `Int32Parse.ParseRejectsForeign` | AvoidingStringAllocation/ReadColumnFixedWidth.cs:63 | `int.Parse` throws a format error on any text holding a character no numeral may hold |
| `Int32Parse.ParseRejectsBlank` | AvoidingStringAllocation/ReadColumnFixedWidth.cs:63 | `int.Parse` throws a format error on empty or all-white-space text |
| `Int32Parse.ParseFormat` | AvoidingStringAllocation/ReadColumnFixedWidth.cs:63 | parsing the decimal text of any 32-bit integer gives the integer back |
| `Int32Parse.ParsePadded` | AvoidingStringAllocation/ReadColumnFixedWidth.cs:63 | surrounding white space and trailing U+0000 characters do not change the parsed value |
| `Int32Parse.ParseZeroPadded` | AvoidingStringAllocation/ReadColumnFixedWidth.cs:63 | a zero-padded fixed-width column parses to the value of its digits |
| `Int32Parse.ShortDigitsParse` | AvoidingStringAllocation/ReadColumnFixedWidth.cs:63 | a column of at most nine digits never overflows and parses to its decimal value |
| `Int32Parse.DigitsValueFormatNat` | AvoidingStringAllocation/ReadColumnFixedWidth.cs:63 | reading back the digits of n, left to right as `value * 10 + digit`, gives n |
| `Int32Parse.DigitsValueLeadingZeros` | AvoidingStringAllocation/ReadColumnFixedWidth.cs:63 | leading zeros do not change a digit string's value |
| `Int32Parse.ValueBetweenBound` | AvoidingStringAllocation/ReadColumnFixedWidth.cs:63 | k digits denote a value in `[0, 10^k)` |
| `Int32Parse.AddInt64` | AvoidingStringAllocation/ReadColumnFixedWidth.cs:63 | `total += value` stays a 64-bit value, differs from the exact sum by 0 or ±2^64, and is exact when that fits |
| `Int32Parse.AddInt64Wraps` | AvoidingStringAllocation/ReadColumnFixedWidth.cs:63 | the unchecked sum is the two's-complement 64-bit representative of the exact sum |
| `TextStream.LineEnd` | AvoidingStringAllocation/ReadColumnFixedWidth.cs:56 | a line ends at the first `'\r'` or `'\n'`, and holds no terminator |
| `TextStream.TextReader.ReadLine` | AvoidingStringAllocation/ReadColumnFixedWidth.cs:56 | null at end of stream; otherwise the characters up to the next terminator, consuming it (`"\r\n"` as one) |
| `TextStream.TextReader.Read` | AvoidingStringAllocation/ReadColumnFixedWidth.cs:125 | copies min(count, remaining) characters to `buffer[index..]`, leaves the rest of the buffer unchanged, advances the cursor by that many |
| `TextStream.ReadStep` | AvoidingStringAllocation/ReadColumnFixedWidth.cs:125 | one `Read` returns 0 exactly when the stream is exhausted; otherwise the buffer holds the next block |
| `TextStream.BlocksLength` | AvoidingStringAllocation/ReadColumnFixedWidth.cs:125 | every block the loop processes has the buffer's full length, whatever count `Read` returned |
| `DataFile.GlobalSetup` | AvoidingStringAllocation/ReadColumnFixedWidth.cs:314-327 | keeps an existing file; otherwise writes 100,000 lines of 165 `'1'` characters, each followed by the terminator |
| `DataFile.JoinAppend` | AvoidingStringAllocation/ReadColumnFixedWidth.cs:321-324 | each `WriteLine` appends its record and the terminator at the end of the file |
| `DataFile.LinesOfJoin` | AvoidingStringAllocation/ReadColumnFixedWidth.cs:56 | `ReadLine` on a file written with `WriteLine` returns exactly the records, in order |
| `DataFile.BlocksOfJoin` | AvoidingStringAllocation/ReadColumnFixedWidth.cs:117-125 | with a buffer of one record plus terminator, the k records give exactly k blocks, each one record and its terminator |
| `DataFile.BlockAt` | AvoidingStringAllocation/Program.cs:122 | while the text lasts, block k of `Read` into a W-character buffer is the text's characters k·W to (k+1)·W |
| `DataFile.JoinLength` | AvoidingStringAllocation/ReadColumnFixedWidth.cs:321-324 | a file of W-character records is records × (W + terminator) characters long |
| `DataFile.RecordAt` | AvoidingStringAllocation/ReadColumnFixedWidth.cs:321-324 | record k of the file starts at k·(W + terminator) |
| `DataFile.WindowsDriftAt` | AvoidingStringAllocation/Program.cs:110-122 | with a buffer of the columns only, window k is characters k·W to (k+1)·W, while record k starts k terminators later |
| `ColumnTotals.AddColumn` | AvoidingStringAllocation/ReadColumnFixedWidth.cs:62-63 | a column throws out-of-range exactly when it runs past the record's end; otherwise its parsed value is added |
| `ColumnTotals.Checked` | AvoidingStringAllocation/ReadColumnFixedWidth.cs:70-75 | `"Wrong result"` exactly when the total differs from the checksum; otherwise the total, and earlier exceptions pass through |
| `ColumnTotals.PendingRead` | AvoidingStringAllocation/ReadColumnFixedWidth.cs:125 | after a `Read`, the blocks still to sum are the buffer's contents followed by the blocks of the rest, or none when it returned 0 |
| `ColumnTotals.NewBuffer` | AvoidingStringAllocation/ReadColumnFixedWidth.cs:118 | `new char[n]` is a fresh, all-zero array of length n |
| `ColumnTotals.CopyFromLine` | AvoidingStringAllocation/ReadColumnFixedWidth.cs:95-98 | the copy succeeds exactly when the line holds the whole column, and then the first `count` cells equal the column; the cells from `count` on are never touched |
| `ColumnTotals.CopyAndParse` | AvoidingStringAllocation/ReadColumnFixedWidth.cs:133-138 | the scratch array's first `count` cells equal the buffer slice, the rest are untouched, and the parse equals `int.Parse` of that slice |
| `ColumnTotals.PinnedCopyAndParse` | AvoidingStringAllocation/ReadColumnFixedWidth.cs:215-226 | the pre-sized string holds exactly the slice, with no space left over, and parses to `int.Parse` of the slice |
| `ColumnTotals.SubstringColumns` | AvoidingStringAllocation/ReadColumnFixedWidth.cs:58-66 | summing a line's columns via `Substring` gives the specification `AddColumnsFrom` |
| `ColumnTotals.CharArrayColumns` | AvoidingStringAllocation/ReadColumnFixedWidth.cs:89-102 | summing via the scratch array gives the same value as the substrings |
| `ColumnTotals.BufferColumns` | AvoidingStringAllocation/ReadColumnFixedWidth.cs:127-140 | summing a block's columns via the scratch array gives `AddColumnsFrom` of the block |
| `ColumnTotals.Blanks` | AvoidingStringAllocation/ReadColumnFixedWidth.cs:197-201 | one fresh string of spaces per column, of the column's width |
| `ColumnTotals.PinnedColumns` | AvoidingStringAllocation/ReadColumnFixedWidth.cs:209-228 | summing via the pre-sized strings gives `AddColumnsFrom` of the block |
| `ColumnTotals.SpanColumns` | AvoidingStringAllocation/ReadColumnFixedWidth.cs:262-269 | summing buffer slices directly gives `AddColumnsFrom` of the block |
| `ColumnTotals.ReadColumnFixedWidth.constructor` | AvoidingStringAllocation/ReadColumnFixedWidth.cs:18-21 | the layout is the thirty-width table, and the shared reader is open at the start of the data file |
| `ColumnTotals.ReadColumnFixedWidth.GetLineSize` | AvoidingStringAllocation/ReadColumnFixedWidth.cs:23-33 | the sum of all widths plus the terminator's length |
| `ColumnTotals.ReadColumnFixedWidth.GetReader` | AvoidingStringAllocation/ReadColumnFixedWidth.cs:35-40 | the shared reader is back at the start of the file |
| `ColumnTotals.ReadColumnFixedWidth.Minimum` | AvoidingStringAllocation/ReadColumnFixedWidth.cs:42-46 | only rewinds the reader |
| `ColumnTotals.ReadColumnFixedWidth.ReadLine_ResultSubstring` | AvoidingStringAllocation/ReadColumnFixedWidth.cs:49-76 | returns `LineTotal`: all lines' column values summed and checked against the constant, or the first exception; unless a parse or an index throws, the reader is left at end of file |
| `ColumnTotals.ReadColumnFixedWidth.ReadLine_ResultCharArray` | AvoidingStringAllocation/ReadColumnFixedWidth.cs:79-112 | returns the same `LineTotal` as the substring variant; unless a parse or an index throws, the reader is left at end of file |
| `ColumnTotals.ReadColumnFixedWidth.ReadBlock` | AvoidingStringAllocation/ReadColumnFixedWidth.cs:125 | one `Read` into the record buffer moves the loop one block along `Blocks` and returns how many characters it read: the buffer length, or fewer at the end of the file |
| `ColumnTotals.ReadColumnFixedWidth.CopyBlocks` | AvoidingStringAllocation/ReadColumnFixedWidth.cs:123-149 | the block loop with a scratch copy returns `BlockTotal`; unless a parse or an index throws, the reader is left at end of file |
| `ColumnTotals.ReadColumnFixedWidth.Read_ResultCharArray` | AvoidingStringAllocation/ReadColumnFixedWidth.cs:115-150 | returns `BlockTotal` of the file, starting from a zeroed buffer of `GetLineSize()` characters; unless a parse or an index throws, the reader is left at end of file |
| `ColumnTotals.ReadColumnFixedWidth.Read_ResultCharArraySpan` | AvoidingStringAllocation/ReadColumnFixedWidth.cs:153-188 | returns the same `BlockTotal` as `Read_ResultCharArray`; unless a parse or an index throws, the reader is left at end of file |
| `ColumnTotals.ReadColumnFixedWidth.PinnedBlocks` | AvoidingStringAllocation/ReadColumnFixedWidth.cs:205-237 | the block loop through pre-sized strings returns `BlockTotal`; unless a parse or an index throws, the reader is left at end of file |
| `ColumnTotals.ReadColumnFixedWidth.Read_ResultUseUnsafeCharPointer` | AvoidingStringAllocation/ReadColumnFixedWidth.cs:191-238 | returns the same `BlockTotal`; unless a parse or an index throws, the reader is left at end of file |
| `ColumnTotals.ReadColumnFixedWidth.SpanBlocks` | AvoidingStringAllocation/ReadColumnFixedWidth.cs:258-278 | the block loop over buffer slices returns `BlockTotal`; unless a parse or an index throws, the reader is left at end of file |
| `ColumnTotals.ReadColumnFixedWidth.Read_ResultSpan` | AvoidingStringAllocation/ReadColumnFixedWidth.cs:252-279 | returns the same `BlockTotal` whether the buffer is stack or heap memory; unless a parse or an index throws, the reader is left at end of file |
| `ColumnTotals.ReadColumnFixedWidth.Read_ResultSpanStackAlloc` | AvoidingStringAllocation/ReadColumnFixedWidth.cs:241-244 | returns the same `BlockTotal`; unless a parse or an index throws, the reader is left at end of file |
| `ColumnTotals.ReadColumnFixedWidth.Read_ResultSpanCharArray` | AvoidingStringAllocation/ReadColumnFixedWidth.cs:246-250 | returns the same `BlockTotal`; unless a parse or an index throws, the reader is left at end of file |
| `ColumnTotals.ReadColumnFixedWidth.Read_ResultSpanNative` | AvoidingStringAllocation/ReadColumnFixedWidth.cs:282-311 | returns `BlockTotal`, starting from the uncleared native memory; unless a parse or an index throws, the reader is left at end of file |
| `Checksum.ColumnsPrefix` | AvoidingStringAllocation/ReadColumnFixedWidth.cs:125-140 | a record's column sum depends only on its first `Sum` characters; the terminator and stale tail are never read |
| `Checksum.RecordsAgree` | AvoidingStringAllocation/ReadColumnFixedWidth.cs:56-67 | records that agree on their first `Sum` characters give the same total or the same exception |
| `Checksum.StrategiesAgree` | AvoidingStringAllocation/ReadColumnFixedWidth.cs:49-311 | on a file of records exactly as wide as the layout, holding no '\r' or '\n', written with terminator nl and read in blocks as wide as a record plus its terminator, line and block variants return the same result, whatever the buffer held |
| `Checksum.ParseOnes` | AvoidingStringAllocation/ReadColumnFixedWidth.cs:318 | one to ten `'1'` characters parse to 1, 11, …, 1111111111 without overflow |
| `Checksum.ColumnsOfOnes` | AvoidingStringAllocation/ReadColumnFixedWidth.cs:60-66 | a record of `'1'` characters adds the repunit of every column's width |
| `Checksum.RecordsOfOnes` | AvoidingStringAllocation/ReadColumnFixedWidth.cs:56-67 | k such records add k times one record's value |
| `Checksum.TimesIsProduct` | AvoidingStringAllocation/ReadColumnFixedWidth.cs:321 | k records of value v sum to k × v |
| `Checksum.PositionsOnesTotal` | AvoidingStringAllocation/ReadColumnFixedWidth.cs:20 | one record of ones adds 3 × 1,234,567,900 = 3,703,703,700 |
| `Checksum.BenchmarkRecords` | AvoidingStringAllocation/ReadColumnFixedWidth.cs:18 | the 100,000 records of ones add up to 370370370000000 |
| `Checksum.BenchmarkChecksum` | AvoidingStringAllocation/ReadColumnFixedWidth.cs:18-20 | on the file `GlobalSetup` writes, line variants and block variants both return the constant, with either terminator and any initial buffer |
| `ColumnTables.FieldsRebuildRecord` | AvoidingStringAllocation/Program.cs:55-59 | the columns, concatenated, are exactly the record up to the layout's width |
| `ColumnTables.SpansTile` | AvoidingStringAllocation/Program.cs:200-204 | the 30 views start at 0, each starts where the previous ends, the last ends at `Sum`, and each shows exactly its column |
| `ColumnTables.FilledLast` | AvoidingStringAllocation/Program.cs:51-59 | the loop throws exactly when some record is too short; otherwise the table holds only the last record's columns |
| `ColumnTables.GetReader` | AvoidingStringAllocation/Program.cs:69-72 | a new reader positioned at the start of the file |
| `ColumnTables.NextLine` | AvoidingStringAllocation/Program.cs:51 | the lines still to come are the returned line followed by the rest, or none at null |
| `ColumnTables.ReadWindow` | AvoidingStringAllocation/Program.cs:122 | the blocks still to come are the buffer's new contents followed by the rest; a 0 count leaves the buffer untouched |
| `ColumnTables.SubstringFields` | AvoidingStringAllocation/Program.cs:53-59 | succeeds exactly when the line covers the layout, and then `result[i]` is column i of the line |
| `ColumnTables.LineFields` | AvoidingStringAllocation/Program.cs:90-102 | succeeds exactly when the line covers the layout, and then `result[i][j]` is `line[offset_i + j]` |
| `ColumnTables.CopyColumn` | AvoidingStringAllocation/Program.cs:130-133 | the first `count` cells equal the buffer slice, and the cells after them are unchanged |
| `ColumnTables.BufferFields` | AvoidingStringAllocation/Program.cs:124-136 | every cell holds exactly its column of the buffer |
| `ColumnTables.SpanFields` | AvoidingStringAllocation/Program.cs:198-206 | `result[i]` is the view `(buffer, offset_i, positions[i])` |
| `ColumnTables.NewCells` | AvoidingStringAllocation/Program.cs:79-83 | one fresh, distinct array per column, of the column's width, filled with the given character |
| `ColumnTables.NewSpans` | AvoidingStringAllocation/Program.cs:188-192 | one fresh zeroed array per column, each viewed whole |
| `ColumnTables.SubstringEachLine` | AvoidingStringAllocation/Program.cs:48-61 | the table holds the last line's columns; it throws exactly when a line is too short |
| `ColumnTables.CopyEachLine` | AvoidingStringAllocation/Program.cs:85-104 | the cells hold the last line's columns; it throws exactly when a line is too short |
| `ColumnTables.CopyEachWindow` | AvoidingStringAllocation/Program.cs:120-138 | the buffer holds the last block and each cell that block's column; with no block nothing changes |
| `ColumnTables.SpanEachWindow` | AvoidingStringAllocation/Program.cs:194-208 | the buffer holds the last block and the views tile it; with no block nothing changes |
| `ColumnTables.ReadColumnFixedWidth.constructor` | AvoidingStringAllocation/Program.cs:41 | the layout is the thirty-width table |
| `ColumnTables.ReadColumnFixedWidth.GetLineSize` | AvoidingStringAllocation/Program.cs:64-67 | exactly the sum of the widths, with no room for a terminator |
| `ColumnTables.ReadColumnFixedWidth.Windows` | AvoidingStringAllocation/Program.cs:110-122 | the successive buffer contents, each exactly `GetLineSize()` characters long |
| `ColumnTables.ReadColumnFixedWidth.ReadLine_ResultSubstring` | AvoidingStringAllocation/Program.cs:44-62 | throws exactly when a line is shorter than the layout; otherwise `result[i]` is column i of the last line, or null for an empty file |
| `ColumnTables.ReadColumnFixedWidth.ReadLine_ResultCharArray` | AvoidingStringAllocation/Program.cs:75-105 | each `result[i]` keeps length `positions[i]` and ends up holding the last line's column i |
| `ColumnTables.ReadColumnFixedWidth.Read_ResultCharArray` | AvoidingStringAllocation/Program.cs:108-139 | the buffer holds the last window and each `result[i]` that window's column i; it never throws |
| `ColumnTables.ReadColumnFixedWidth.Read_ResultUseUnsafeCharPointer` | AvoidingStringAllocation/Program.cs:142-179 | each pre-sized string keeps its length and ends up holding the last window's column, or stays spaces for an empty file |
| `ColumnTables.ReadColumnFixedWidth.Read_ResultSpan` | AvoidingStringAllocation/Program.cs:182-209 | the views end up tiling the buffer, which holds the last window |

## Left out

- File I/O. The data file is a given character sequence. Opening, seeking, `DiscardBufferedData`, `Dispose` and the encoding are not modelled.
- Short reads. `StreamReader.Read` is modelled as copying min(count, remaining) characters. The model does not capture the shorter reads that a stream reporting itself blocked can cause before the end.
- Benchmark plumbing. BenchmarkDotNet attributes, `MyConfig`, jobs, `Main` and `BenchmarkRunner` carry no logic.
- `Program.CreateTempFile` is not modelled. It writes lines of `'a'`, but the `Program.cs` variants read whatever file exists and never parse it. `DataFile.GlobalSetup` models the summing benchmark's setup.
- Memory placement. `stackalloc`, heap arrays, `fixed` pointers and `Marshal.AllocHGlobal` all become one bounds-checked `array<char>`. Managed buffers start zeroed. Native memory starts with arbitrary contents, given as a parameter. The native buffer is never freed, and the model does not capture that leak.
- Strings as objects. A pre-sized string that a pointer overwrites is modelled as a mutable `array<char>` of fixed length. String immutability and interning are outside the model.
- Views. `ReadOnlySpan<char>` is modelled as an (array, start, length) value. C# does not allow an array of spans, which `Program.cs` declares. The model treats it as an array of such views.
- Exception types. `ArgumentOutOfRangeException` from `Substring` and `IndexOutOfRangeException` from the string indexer are one `OutOfRange` error.
- `int.Parse` details. The model covers the invariant-culture `NumberStyles.Integer` grammar: white space, an optional sign, digits, white space and trailing U+0000 characters. Culture-specific sign symbols are not modelled. The string and span overloads share one definition.
- `Program.cs` results. The source discards its tables when the method returns. The model returns them so that the final table can be stated.
