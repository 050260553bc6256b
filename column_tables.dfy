/**
 * The earlier ReadColumnFixedWidth benchmark (Program.cs): the same
 * thirty-column layout, but nothing is parsed. Each variant cuts every
 * line, or every block of `GetLineSize()` characters, into a per-column
 * result table (strings, `char[][]`, pre-sized strings or spans) which
 * the next line or block overwrites.
 *
 * Each variant opens its own reader on the data file, so the file's
 * contents are a parameter and the table the variant leaves behind is
 * returned; nothing that existed before a call is changed by it.
 */
module ColumnTables {
  import opened Wrappers
  import opened Schema
  import opened TextStream
  import opened DataFile
  import opened ColumnTotals

  /** A layout the column loops can run over: at least one column, all of positive width. */
  type Layout = ws: seq<int> | Schema.Valid(ws) witness [1]

  // ---------------------------------------------------------------------
  // What the tables hold
  // ---------------------------------------------------------------------

  /** Column i of a record that is at least as long as the layout. */
  function Field(record: seq<char>, ws: seq<int>, i: nat): (f: seq<char>)
    requires Valid(ws) && i < |ws| && Sum(ws) <= |record|
    ensures |f| == ws[i]
  {
    ColumnInRecord(ws, i);
    record[Offset(ws, i)..Offset(ws, i) + ws[i]]
  }

  /** All columns of a record, in order. */
  function Fields(record: seq<char>, ws: seq<int>): (fs: seq<seq<char>>)
    requires Valid(ws) && Sum(ws) <= |record|
    ensures |fs| == |ws|
  {
    seq(|ws|, i requires 0 <= i < |ws| => Field(record, ws, i))
  }

  /** The pieces put back together. */
  function Flatten(pieces: seq<seq<char>>): seq<char>
  {
    if pieces == [] then [] else pieces[0] + Flatten(pieces[1..])
  }

  /** Every record is at least as long as the layout. */
  predicate Fit(records: seq<seq<char>>, ws: seq<int>)
  {
    forall k :: 0 <= k < |records| ==> Sum(ws) <= |records[k]|
  }

  function Last<T>(s: seq<T>): T
    requires s != []
  {
    s[|s| - 1]
  }

  /** No two cells of the table share their characters. */
  predicate Distinct(cells: array<array<char>>)
    reads cells
  {
    forall i, k :: 0 <= i < k < cells.Length ==> cells[i] != cells[k]
  }

  /** Each cell holds its column of `record`. */
  ghost predicate CellsHold(cells: array<array<char>>, ws: seq<int>, record: seq<char>)
    reads cells, Cells(cells)
    requires Valid(ws) && cells.Length == |ws| && Sum(ws) <= |record|
  {
    forall i :: 0 <= i < |ws| ==> cells[i][..] == Field(record, ws, i)
  }

  /** How a line or block loop ends: it throws, or its table holds the columns of `record` (None: of no record yet). */
  datatype Outcome = Threw | Holds(record: Option<seq<char>>)

  /**
   * The loop over `records` with a table that holds the columns of `held`:
   * each record in turn replaces the table's contents, until one is
   * shorter than the layout and the copy throws.
   */
  function Filled(held: Option<seq<char>>, records: seq<seq<char>>, ws: seq<int>): Outcome
    decreases |records|
  {
    if records == [] then Holds(held)
    else if |records[0]| < Sum(ws) then Threw
    else Filled(Some(records[0]), records[1..], ws)
  }

  /**
   * The loop throws exactly when some record is shorter than the layout;
   * otherwise the table ends up holding the columns of the last record,
   * or what it held before when there are no records.
   */
  lemma {:induction false} FilledLast(held: Option<seq<char>>, records: seq<seq<char>>, ws: seq<int>)
    ensures Filled(held, records, ws) == Threw <==> !Fit(records, ws)
    ensures Filled(held, records, ws) != Threw ==>
      Filled(held, records, ws).record == if records == [] then held else Some(Last(records))
    decreases |records|
  {
    if records != [] && |records[0]| >= Sum(ws) {
      var rest := records[1..];
      FilledLast(Some(records[0]), rest, ws);
      assert Fit(records, ws) <==> Fit(rest, ws) by {
        if Fit(rest, ws) {
          forall k | 0 <= k < |records| ensures Sum(ws) <= |records[k]| {
            if k > 0 { assert records[k] == rest[k - 1]; }
          }
        }
      }
      if rest != [] {
        assert Last(rest) == Last(records);
      }
    }
  }

  /** One more record: it replaces the table's contents, or the copy throws. */
  lemma {:induction false} FilledStep(held: Option<seq<char>>, record: seq<char>, rest: seq<seq<char>>, ws: seq<int>)
    ensures Filled(held, [record] + rest, ws) == if |record| < Sum(ws) then Threw else Filled(Some(record), rest, ws)
  {
    assert ([record] + rest)[1..] == rest;
  }

  /**
   * `new ReadOnlySpan<char>(source, start, length)`: a view of part of an
   * array, not a copy of it.
   */
  datatype Span = Span(source: array<char>, start: int, length: int)

  /** The characters a span shows. */
  function Contents(s: Span): seq<char>
    reads s.source
    requires 0 <= s.start && 0 <= s.length && s.start + s.length <= s.source.Length
  {
    s.source[s.start..s.start + s.length]
  }

  /**
   * Cutting a record into its columns loses nothing and adds nothing:
   * the columns, put back together, are the record up to the layout's width.
   */
  lemma {:induction false} FieldsRebuildRecord(record: seq<char>, ws: seq<int>)
    requires Valid(ws) && Sum(ws) <= |record|
    ensures 0 < Sum(ws)
    ensures Flatten(Fields(record, ws)) == record[..Sum(ws)]
  {
    ColumnInRecord(ws, 0);
    FieldsFrom(record, ws, 0);
    assert Fields(record, ws)[0..] == Fields(record, ws);
  }

  lemma {:induction false} FieldsFrom(record: seq<char>, ws: seq<int>, i: nat)
    requires Valid(ws) && Sum(ws) <= |record| && i <= |ws|
    ensures 0 <= Offset(ws, i) <= Sum(ws)
    ensures Flatten(Fields(record, ws)[i..]) == record[Offset(ws, i)..Sum(ws)]
    decreases |ws| - i
  {
    var fs := Fields(record, ws);
    if i == |ws| {
      ColumnInRecord(ws, 0);
      assert fs[i..] == [];
    } else {
      ColumnInRecord(ws, i);
      FieldsFrom(record, ws, i + 1);
      assert fs[i..][1..] == fs[i + 1..];
      var at := Offset(ws, i);
      assert record[at..Sum(ws)] == record[at..at + ws[i]] + record[at + ws[i]..Sum(ws)];
    }
  }

  /**
   * Spans that each cover one column of a buffer tile [0, Sum(ws)) in
   * order: the first starts at 0, each starts where the previous ends,
   * the last ends at Sum(ws), and each shows exactly its column.
   */
  lemma {:induction false} SpansTile(ws: seq<int>, buffer: array<char>, spans: seq<Span>)
    requires Valid(ws) && Sum(ws) <= buffer.Length && |spans| == |ws|
    requires forall i :: 0 <= i < |ws| ==> spans[i] == Span(buffer, Offset(ws, i), ws[i])
    ensures spans[0].start == 0
    ensures forall i :: 0 <= i < |ws| - 1 ==> spans[i].start + spans[i].length == spans[i + 1].start
    ensures spans[|ws| - 1].start + spans[|ws| - 1].length == Sum(ws)
    ensures forall i :: 0 <= i < |ws| ==>
      0 <= spans[i].start && spans[i].start + spans[i].length <= buffer.Length &&
      Contents(spans[i]) == Field(buffer[..], ws, i)
  {
    ColumnInRecord(ws, |ws| - 1);
    forall i | 0 <= i < |ws|
      ensures 0 <= spans[i].start && spans[i].start + spans[i].length <= buffer.Length
      ensures Contents(spans[i]) == Field(buffer[..], ws, i)
      ensures i < |ws| - 1 ==> spans[i].start + spans[i].length == spans[i + 1].start
    {
      ColumnInRecord(ws, i);
    }
  }

  // ---------------------------------------------------------------------
  // Buffer size, reader and the blocks it delivers
  // ---------------------------------------------------------------------

  /** A new reader on the data file, positioned at its start. */
  method GetReader(file: seq<char>) returns (sr: TextReader)
    ensures fresh(sr) && sr.Valid() && sr.Remaining() == file
  {
    sr := new TextReader(file);
  }

  /**
   * `sr.Read(buffer, 0, buffer.Length) > 0`: the blocks still to come are
   * the buffer's new contents followed by the rest, or none once it
   * returns 0.
   */
  method ReadWindow(sr: TextReader, buffer: array<char>) returns (more: bool)
    requires sr.Valid()
    modifies sr, buffer
    ensures sr.Valid()
    ensures |sr.Remaining()| <= |old(sr.Remaining())|
    ensures more ==> |sr.Remaining()| < |old(sr.Remaining())|
    ensures more ==> old(Blocks(sr.Remaining(), buffer[..])) == [buffer[..]] + Blocks(sr.Remaining(), buffer[..])
    ensures !more ==> old(Blocks(sr.Remaining(), buffer[..])) == [] && buffer[..] == old(buffer[..])
  {
    ghost var text, before := sr.Remaining(), buffer[..];
    var n := sr.Read(buffer, 0, buffer.Length);
    ReadStep(text, before, n, buffer[..], sr.Remaining());
    more := n > 0;
  }

  /**
   * `sr.ReadLine()`: the lines still to come are the one it returns
   * followed by the rest, or none once it returns null.
   */
  method NextLine(sr: TextReader) returns (line: Option<seq<char>>)
    requires sr.Valid()
    modifies sr
    ensures sr.Valid()
    ensures |sr.Remaining()| <= |old(sr.Remaining())|
    ensures line.Some? ==> |sr.Remaining()| < |old(sr.Remaining())|
    ensures old(Lines(sr.Remaining())) == if line.Some? then [line.value] + Lines(sr.Remaining()) else []
  {
    line := sr.ReadLine();
  }

  // ---------------------------------------------------------------------
  // One line or block into the table
  // ---------------------------------------------------------------------

  /**
   * `result[i] = line.Substring(lastIndex, ws[i])` for every column;
   * `Substring` throws (ok == false) when the line is shorter than the layout.
   */
  method SubstringFields(ws: seq<int>, line: seq<char>, result: array<Option<seq<char>>>) returns (ok: bool)
    requires Valid(ws) && result.Length == |ws|
    modifies result
    ensures ok <==> Sum(ws) <= |line|
    ensures ok ==> forall i :: 0 <= i < |ws| ==> result[i] == Some(Field(line, ws, i))
  {
    var lastIndex := 0;
    for i := 0 to |ws|
      invariant lastIndex == Offset(ws, i) && lastIndex <= |line|
      invariant forall k :: 0 <= k < i ==>
        0 <= Offset(ws, k) && Offset(ws, k) + ws[k] <= |line| &&
        result[k] == Some(line[Offset(ws, k)..Offset(ws, k) + ws[k]])
    {
      ColumnInRecord(ws, i);
      if lastIndex + ws[i] > |line| {
        return false;
      }
      result[i] := Some(line[lastIndex..lastIndex + ws[i]]);
      lastIndex := lastIndex + ws[i];
    }
    ColumnInRecord(ws, 0);
    return true;
  }

  /**
   * `result[i][j] = line[lastIndex + j]` for every column; the string
   * indexer throws (ok == false) when the line is shorter than the layout.
   */
  method LineFields(ws: seq<int>, line: seq<char>, cells: array<array<char>>) returns (ok: bool)
    requires Valid(ws) && cells.Length == |ws| && Distinct(cells)
    requires forall i :: 0 <= i < |ws| ==> cells[i].Length == ws[i]
    modifies Cells(cells)
    ensures ok <==> Sum(ws) <= |line|
    ensures ok ==> forall i :: 0 <= i < |ws| ==> cells[i][..] == Field(line, ws, i)
  {
    var lastIndex := 0;
    for i := 0 to |ws|
      invariant lastIndex == Offset(ws, i) && lastIndex <= |line|
      invariant forall k :: 0 <= k < i ==>
        0 <= Offset(ws, k) && Offset(ws, k) + ws[k] <= |line| &&
        cells[k][..] == line[Offset(ws, k)..Offset(ws, k) + ws[k]]
    {
      ColumnInRecord(ws, i);
      var fieldLength := ws[i];
      var copied := CopyFromLine(line, lastIndex, fieldLength, cells[i]);
      if !copied {
        return false;
      }
      assert cells[i][..] == cells[i][..fieldLength];
      lastIndex := lastIndex + fieldLength;
    }
    ColumnInRecord(ws, 0);
    return true;
  }

  /** `cell[j] = buffer[at + j]` for j from 0 to count - 1. */
  method CopyColumn(buffer: array<char>, at: nat, count: nat, cell: array<char>)
    requires at + count <= buffer.Length && count <= cell.Length && buffer != cell
    modifies cell
    ensures cell[..count] == buffer[at..at + count]
    ensures cell[count..] == old(cell[count..])
  {
    for j := 0 to count
      invariant cell[..j] == buffer[at..at + j]
      invariant cell[count..] == old(cell[count..])
    {
      cell[j] := buffer[at + j];
    }
  }

  /**
   * Every column of the buffer into its cell, through the cell's array or
   * through a pointer pinned to the cell's string.
   */
  method BufferFields(ws: seq<int>, buffer: array<char>, cells: array<array<char>>)
    requires Valid(ws) && Sum(ws) <= buffer.Length
    requires cells.Length == |ws| && Distinct(cells) && buffer !in Cells(cells)
    requires forall i :: 0 <= i < |ws| ==> cells[i].Length == ws[i]
    modifies Cells(cells)
    ensures forall i :: 0 <= i < |ws| ==> cells[i][..] == Field(buffer[..], ws, i)
  {
    ghost var block := buffer[..];
    var lastIndex := 0;
    for i := 0 to |ws|
      invariant lastIndex == Offset(ws, i)
      invariant buffer[..] == block
      invariant forall k :: 0 <= k < i ==> cells[k][..] == Field(block, ws, k)
    {
      ColumnInRecord(ws, i);
      var fieldLength := ws[i];
      CopyColumn(buffer, lastIndex, fieldLength, cells[i]);
      assert cells[i][..] == cells[i][..fieldLength];
      lastIndex := lastIndex + fieldLength;
    }
  }

  /** `result[i] = new ReadOnlySpan<char>(buffer, lastIndex, ws[i])` for every column. */
  method SpanFields(ws: seq<int>, buffer: array<char>, result: array<Span>)
    requires Valid(ws) && Sum(ws) <= buffer.Length && result.Length == |ws|
    modifies result
    ensures forall i :: 0 <= i < |ws| ==> result[i] == Span(buffer, Offset(ws, i), ws[i])
  {
    var lastIndex := 0;
    for i := 0 to |ws|
      invariant lastIndex == Offset(ws, i)
      invariant forall k :: 0 <= k < i ==> result[k] == Span(buffer, Offset(ws, k), ws[k])
    {
      OffsetNext(ws, i);
      result[i] := Span(buffer, lastIndex, ws[i]);
      lastIndex := lastIndex + ws[i];
    }
  }

  /** `new char[ws[i]]` (fill '\0') or `new string(' ', ws[i])` (fill ' ') for every column. */
  method NewCells(ws: seq<int>, fill: char) returns (cells: array<array<char>>)
    requires Valid(ws)
    ensures fresh(cells) && cells.Length == |ws| && Distinct(cells)
    ensures forall i :: 0 <= i < |ws| ==> fresh(cells[i]) && cells[i][..] == seq(ws[i], _ => fill)
  {
    var empty := new char[0];
    cells := new array<char>[|ws|](_ => empty);
    for i := 0 to |ws|
      invariant forall k :: 0 <= k < i ==> fresh(cells[k]) && cells[k][..] == seq(ws[k], _ => fill)
      invariant forall k, m :: 0 <= k < m < i ==> cells[k] != cells[m]
    {
      cells[i] := new char[ws[i]](_ => fill);
    }
  }

  /**
   * The loop of `ReadLine_ResultSubstring`: every line's columns replace
   * the table's entries; a line shorter than the layout throws (ok == false).
   */
  method SubstringEachLine(ws: seq<int>, file: seq<char>, table: array<Option<seq<char>>>) returns (ok: bool)
    requires Valid(ws) && table.Length == |ws|
    modifies table
    ensures ok <==> Fit(Lines(file), ws)
    ensures ok && Lines(file) == [] ==> table[..] == old(table[..])
    ensures ok && Lines(file) != [] ==> forall i :: 0 <= i < |ws| ==> table[i] == Some(Field(Last(Lines(file)), ws, i))
  {
    var sr := GetReader(file);
    ghost var goal := Filled(None, Lines(file), ws);
    ghost var held: Option<seq<char>> := None;
    var line := NextLine(sr);
    while line.Some?
      invariant sr.Valid() && fresh(sr)
      invariant goal == Filled(held, if line.Some? then [line.value] + Lines(sr.Remaining()) else [], ws)
      invariant held.Some? ==> Sum(ws) <= |held.value|
      invariant held.None? ==> table[..] == old(table[..])
      invariant held.Some? ==> forall i :: 0 <= i < |ws| ==> table[i] == Some(Field(held.value, ws, i))
      decreases |sr.Remaining()|, line.Some?
    {
      FilledStep(held, line.value, Lines(sr.Remaining()), ws);
      ok := SubstringFields(ws, line.value, table);
      if !ok {
        FilledLast(None, Lines(file), ws);
        return;
      }
      held := Some(line.value);
      line := NextLine(sr);
    }
    FilledLast(None, Lines(file), ws);
    ok := true;
  }

  /**
   * The loop of `ReadLine_ResultCharArray`: every line's columns are copied
   * into the cells; a line shorter than the layout throws (ok == false).
   */
  method CopyEachLine(ws: seq<int>, file: seq<char>, cells: array<array<char>>) returns (ok: bool)
    requires Valid(ws) && cells.Length == |ws| && Distinct(cells)
    requires forall i :: 0 <= i < |ws| ==> cells[i].Length == ws[i]
    modifies Cells(cells)
    ensures ok <==> Fit(Lines(file), ws)
    ensures ok && Lines(file) == [] ==> forall i :: 0 <= i < |ws| ==> cells[i][..] == old(cells[i][..])
    ensures ok && Lines(file) != [] ==> forall i :: 0 <= i < |ws| ==> cells[i][..] == Field(Last(Lines(file)), ws, i)
  {
    var sr := GetReader(file);
    ghost var goal := Filled(None, Lines(file), ws);
    ghost var held: Option<seq<char>> := None;
    var line := NextLine(sr);
    while line.Some?
      invariant sr.Valid() && fresh(sr)
      invariant goal == Filled(held, if line.Some? then [line.value] + Lines(sr.Remaining()) else [], ws)
      invariant held.Some? ==> Sum(ws) <= |held.value|
      invariant held.None? ==> forall i :: 0 <= i < |ws| ==> cells[i][..] == old(cells[i][..])
      invariant held.Some? ==> CellsHold(cells, ws, held.value)
      decreases |sr.Remaining()|, line.Some?
    {
      FilledStep(held, line.value, Lines(sr.Remaining()), ws);
      ok := LineFields(ws, line.value, cells);
      if !ok {
        FilledLast(None, Lines(file), ws);
        return;
      }
      held := Some(line.value);
      line := NextLine(sr);
    }
    FilledLast(None, Lines(file), ws);
    ok := true;
  }

  /**
   * The `while (sr.Read(buffer, 0, bufferSize) > 0)` loop of the block
   * benchmarks that copy columns: after it the buffer holds the last block
   * and each cell that block's column; with no block nothing changes.
   */
  method CopyEachWindow(ws: seq<int>, file: seq<char>, buffer: array<char>, cells: array<array<char>>)
    requires Valid(ws) && buffer.Length == Sum(ws)
    requires cells.Length == |ws| && Distinct(cells) && buffer !in Cells(cells)
    requires forall i :: 0 <= i < |ws| ==> cells[i].Length == ws[i]
    modifies buffer, Cells(cells)
    ensures Blocks(file, old(buffer[..])) == [] ==>
      buffer[..] == old(buffer[..]) && forall i :: 0 <= i < |ws| ==> cells[i][..] == old(cells[i][..])
    ensures Blocks(file, old(buffer[..])) != [] ==>
      buffer[..] == Last(Blocks(file, old(buffer[..]))) &&
      forall i :: 0 <= i < |ws| ==> cells[i][..] == Field(buffer[..], ws, i)
  {
    var sr := GetReader(file);
    ghost var goal := Filled(None, Blocks(file, buffer[..]), ws);
    ghost var held: Option<seq<char>> := None;
    var more := ReadWindow(sr, buffer);
    while more
      invariant sr.Valid() && fresh(sr)
      invariant goal == Filled(held, if more then [buffer[..]] + Blocks(sr.Remaining(), buffer[..]) else [], ws)
      invariant !more ==> buffer[..] == if held.Some? then held.value else old(buffer[..])
      invariant held.None? ==> forall i :: 0 <= i < |ws| ==> cells[i][..] == old(cells[i][..])
      invariant held.Some? ==> |held.value| == Sum(ws)
      invariant held.Some? ==> CellsHold(cells, ws, held.value)
      decreases |sr.Remaining()|, more
    {
      FilledStep(held, buffer[..], Blocks(sr.Remaining(), buffer[..]), ws);
      BufferFields(ws, buffer, cells);
      held := Some(buffer[..]);
      more := ReadWindow(sr, buffer);
    }
    FilledLast(None, Blocks(file, old(buffer[..])), ws);
  }

  /** `new char[ws[i]]` wrapped in a span over the whole array, for every column. */
  method NewSpans(ws: seq<int>) returns (spans: array<Span>)
    requires Valid(ws)
    ensures fresh(spans) && spans.Length == |ws|
    ensures forall i :: 0 <= i < |ws| ==>
      fresh(spans[i].source) && spans[i] == Span(spans[i].source, 0, ws[i]) && spans[i].source[..] == Zeroed(ws[i])
  {
    var empty := new char[0];
    spans := new Span[|ws|](_ => Span(empty, 0, 0));
    for i := 0 to |ws|
      invariant forall k :: 0 <= k < i ==>
        fresh(spans[k].source) && spans[k] == Span(spans[k].source, 0, ws[k]) && spans[k].source[..] == Zeroed(ws[k])
    {
      var cell := new char[ws[i]](_ => '\0');
      spans[i] := Span(cell, 0, ws[i]);
    }
  }

  /**
   * The read loop of `Read_ResultSpan`: after it the buffer holds the last
   * block and the spans view that block's columns; with no block nothing
   * changes.
   */
  method SpanEachWindow(ws: seq<int>, file: seq<char>, buffer: array<char>, spans: array<Span>)
    requires Valid(ws) && buffer.Length == Sum(ws) && spans.Length == |ws|
    modifies buffer, spans
    ensures Blocks(file, old(buffer[..])) == [] ==> buffer[..] == old(buffer[..]) && spans[..] == old(spans[..])
    ensures Blocks(file, old(buffer[..])) != [] ==>
      buffer[..] == Last(Blocks(file, old(buffer[..]))) &&
      forall i :: 0 <= i < |ws| ==> spans[i] == Span(buffer, Offset(ws, i), ws[i])
  {
    var sr := GetReader(file);
    ghost var goal := Filled(None, Blocks(file, buffer[..]), ws);
    ghost var held: Option<seq<char>> := None;
    var more := ReadWindow(sr, buffer);
    while more
      invariant sr.Valid() && fresh(sr)
      invariant goal == Filled(held, if more then [buffer[..]] + Blocks(sr.Remaining(), buffer[..]) else [], ws)
      invariant !more ==> buffer[..] == if held.Some? then held.value else old(buffer[..])
      invariant held.None? ==> spans[..] == old(spans[..])
      invariant held.Some? ==> forall i :: 0 <= i < |ws| ==> spans[i] == Span(buffer, Offset(ws, i), ws[i])
      decreases |sr.Remaining()|, more
    {
      FilledStep(held, buffer[..], Blocks(sr.Remaining(), buffer[..]), ws);
      SpanFields(ws, buffer, spans);
      held := Some(buffer[..]);
      more := ReadWindow(sr, buffer);
    }
    FilledLast(None, Blocks(file, old(buffer[..])), ws);
  }

  /** The benchmark class; its layout is the static `positions` table. */
  class ReadColumnFixedWidth {
    const positions: Layout

    constructor ()
      ensures positions == Positions
    {
      PositionsShape();
      positions := Positions;
    }

    /** `positions.Sum()`: the size of a record's columns, without its line terminator. */
    function GetLineSize(): (size: int)
      ensures size == Sum(positions) && size > 0
    {
      ColumnInRecord(positions, 0);
      Sum(positions)
    }

    /** The successive contents of the block variants' buffer, of `GetLineSize()` characters. */
    function Windows(file: seq<char>): (bs: seq<seq<char>>)
      ensures forall k :: 0 <= k < |bs| ==> |bs[k]| == GetLineSize()
    {
      BlocksLength(file, Zeroed(GetLineSize()));
      Blocks(file, Zeroed(GetLineSize()))
    }

    // -------------------------------------------------------------------
    // The benchmarks
    // -------------------------------------------------------------------

    /**
     * `ReadLine` each record and `Substring` each column into a `string[]`.
     * It throws (ok == false) exactly when some line is shorter than the
     * layout; otherwise the table holds the last line's columns, or only
     * nulls when the file is empty.
     */
    method ReadLine_ResultSubstring(file: seq<char>) returns (result: array<Option<seq<char>>>, ok: bool)
      ensures fresh(result) && result.Length == |positions|
      ensures ok <==> Fit(Lines(file), positions)
      ensures ok && Lines(file) == [] ==> forall i :: 0 <= i < |positions| ==> result[i] == None
      ensures ok && Lines(file) != [] ==>
        forall i :: 0 <= i < |positions| ==> result[i] == Some(Field(Last(Lines(file)), positions, i))
    {
      result := new Option<seq<char>>[|positions|](_ => None);
      ok := SubstringEachLine(positions, file, result);
    }

    /**
     * `ReadLine` each record and copy each column into its own `char[]`,
     * allocated once per column. It throws (ok == false) exactly when some
     * line is shorter than the layout; otherwise each cell holds the last
     * line's column, or stays zeroed when the file is empty.
     */
    method ReadLine_ResultCharArray(file: seq<char>) returns (result: array<array<char>>, ok: bool)
      ensures fresh(result) && result.Length == |positions|
      ensures forall i :: 0 <= i < |positions| ==> fresh(result[i]) && result[i].Length == positions[i]
      ensures ok <==> Fit(Lines(file), positions)
      ensures ok && Lines(file) == [] ==> forall i :: 0 <= i < |positions| ==> result[i][..] == Zeroed(positions[i])
      ensures ok && Lines(file) != [] ==>
        forall i :: 0 <= i < |positions| ==> result[i][..] == Field(Last(Lines(file)), positions, i)
    {
      result := NewCells(positions, '\0');
      ok := CopyEachLine(positions, file, result);
    }

    /**
     * `Read` blocks of `GetLineSize()` characters and copy each column into
     * its own `char[]`. It cannot throw; each cell ends up holding its
     * column of the last block, or stays zeroed when the file is empty.
     */
    method Read_ResultCharArray(file: seq<char>) returns (buffer: array<char>, result: array<array<char>>)
      ensures fresh(buffer) && fresh(result) && result.Length == |positions|
      ensures forall i :: 0 <= i < |positions| ==> fresh(result[i]) && result[i].Length == positions[i]
      ensures Windows(file) == [] ==> buffer[..] == Zeroed(GetLineSize())
      ensures Windows(file) != [] ==> buffer[..] == Last(Windows(file))
      ensures Windows(file) == [] ==> forall i :: 0 <= i < |positions| ==> result[i][..] == Zeroed(positions[i])
      ensures Windows(file) != [] ==>
        forall i :: 0 <= i < |positions| ==> result[i][..] == Field(Last(Windows(file)), positions, i)
    {
      var bufferSize := GetLineSize();
      buffer := new char[bufferSize](_ => '\0');
      assert buffer[..] == Zeroed(bufferSize);
      result := NewCells(positions, '\0');
      CopyEachWindow(positions, file, buffer, result);
    }

    /**
     * `Read` blocks of `GetLineSize()` characters and copy each column
     * through a pinned pointer into a string of its width, created as
     * spaces. It cannot throw; each string ends up holding its column of
     * the last block, or stays all spaces when the file is empty.
     */
    method Read_ResultUseUnsafeCharPointer(file: seq<char>) returns (buffer: array<char>, result: array<array<char>>)
      ensures fresh(buffer) && fresh(result) && result.Length == |positions|
      ensures forall i :: 0 <= i < |positions| ==> fresh(result[i]) && result[i].Length == positions[i]
      ensures Windows(file) == [] ==> buffer[..] == Zeroed(GetLineSize())
      ensures Windows(file) != [] ==> buffer[..] == Last(Windows(file))
      ensures Windows(file) == [] ==> forall i :: 0 <= i < |positions| ==> result[i][..] == seq(positions[i], _ => ' ')
      ensures Windows(file) != [] ==>
        forall i :: 0 <= i < |positions| ==> result[i][..] == Field(Last(Windows(file)), positions, i)
    {
      var bufferSize := GetLineSize();
      buffer := new char[bufferSize](_ => '\0');
      assert buffer[..] == Zeroed(bufferSize);
      result := NewCells(positions, ' ');
      CopyEachWindow(positions, file, buffer, result);
    }

    /**
     * `Read` blocks of `GetLineSize()` characters and point one read-only
     * span per column into the buffer. It cannot throw; the spans end up
     * tiling the buffer, which holds the last block, or still view the
     * zeroed arrays they were created over when the file is empty.
     */
    method Read_ResultSpan(file: seq<char>) returns (buffer: array<char>, result: array<Span>)
      ensures fresh(buffer) && fresh(result) && result.Length == |positions|
      ensures Windows(file) == [] ==> buffer[..] == Zeroed(GetLineSize())
      ensures Windows(file) != [] ==> buffer[..] == Last(Windows(file))
      ensures Windows(file) == [] ==> forall i :: 0 <= i < |positions| ==>
        fresh(result[i].source) && result[i] == Span(result[i].source, 0, positions[i]) &&
        result[i].source[..] == Zeroed(positions[i])
      ensures Windows(file) != [] ==> forall i :: 0 <= i < |positions| ==>
        result[i] == Span(buffer, Offset(positions, i), positions[i])
    {
      var bufferSize := GetLineSize();
      buffer := new char[bufferSize](_ => '\0');
      assert buffer[..] == Zeroed(bufferSize);
      result := NewSpans(positions);
      SpanEachWindow(positions, file, buffer, result);
    }
  }
}
