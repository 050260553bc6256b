/**
 * ReadColumnFixedWidth (the summing benchmark): every variant reads the
 * data file, cuts each record into the thirty fixed-width columns, parses
 * each column with `int.Parse`, adds it to a 64-bit total and finally
 * compares the total with the known checksum. The variants differ only in
 * where the characters of a column live when they are parsed.
 */
module ColumnTotals {
  import opened Wrappers
  import opened Int32Parse
  import opened Schema
  import opened TextStream

  /** The checksum of the benchmark's data file. */
  const Expected: int := 370370370000000

  /** The exceptions a variant can end with. */
  datatype Failure =
    | ParseFailed(reason: ParseError)  // FormatException or OverflowException from int.Parse
    | OutOfRange                       // the record is shorter than the layout
    | WrongResult                      // "Wrong result": the total is not the checksum

  // ---------------------------------------------------------------------
  // What every variant computes
  // ---------------------------------------------------------------------

  /**
   * One column: the characters [at, at + width) of the record must exist;
   * their `int.Parse` value is added to the running total.
   */
  function AddColumn(total: int, record: seq<char>, at: int, width: int): (r: Result<int, Failure>)
    requires IsInt64(total) && 0 <= at && 0 < width
    ensures r.Ok? ==> IsInt64(r.value)
    ensures r != Err(WrongResult)
    ensures r == Err(OutOfRange) <==> at + width > |record|
  {
    if at + width > |record| then Err(OutOfRange)
    else match ParseInt32(record[at..at + width])
      case Err(e) => Err(ParseFailed(e))
      case Ok(v) => Ok(AddInt64(total, v))
  }

  /** Columns i, i + 1, ... of one record, left to right, stopping at the first exception. */
  function AddColumnsFrom(total: int, record: seq<char>, ws: seq<int>, i: nat): (r: Result<int, Failure>)
    requires Valid(ws) && i <= |ws| && IsInt64(total)
    ensures r.Ok? ==> IsInt64(r.value)
    ensures r != Err(WrongResult)
    decreases |ws| - i
  {
    if i == |ws| then Ok(total)
    else
      ColumnInRecord(ws, i);
      match AddColumn(total, record, Offset(ws, i), ws[i])
      case Err(e) => Err(e)
      case Ok(t) => AddColumnsFrom(t, record, ws, i + 1)
  }

  /** All columns of all records, record by record. */
  function AddRecords(total: int, records: seq<seq<char>>, ws: seq<int>): (r: Result<int, Failure>)
    requires Valid(ws) && IsInt64(total)
    ensures r.Ok? ==> IsInt64(r.value)
    ensures r != Err(WrongResult)
    decreases |records|
  {
    if records == [] then Ok(total)
    else
      match AddColumnsFrom(total, records[0], ws, 0)
      case Err(e) => Err(e)
      case Ok(t) => AddRecords(t, records[1..], ws)
  }

  /** Continue with the records `rest` once the current record has produced `r`. */
  function Then(r: Result<int, Failure>, rest: seq<seq<char>>, ws: seq<int>): Result<int, Failure>
    requires Valid(ws) && (r.Ok? ==> IsInt64(r.value))
  {
    match r
    case Err(e) => Err(e)
    case Ok(t) => AddRecords(t, rest, ws)
  }

  /** Column i parses to v: the rest of the record continues from the new total. */
  lemma {:induction false} ColumnParsed(total: int, record: seq<char>, ws: seq<int>, i: nat, v: int)
    requires Valid(ws) && i < |ws| && IsInt64(total) && IsInt32(v)
    requires 0 <= Offset(ws, i) && Offset(ws, i) + ws[i] <= |record|
    requires ParseInt32(record[Offset(ws, i)..Offset(ws, i) + ws[i]]) == Ok(v)
    ensures AddColumnsFrom(total, record, ws, i) == AddColumnsFrom(AddInt64(total, v), record, ws, i + 1)
  {
  }

  /** Column i throws: so does the whole record. */
  lemma {:induction false} ColumnFailed(total: int, record: seq<char>, ws: seq<int>, i: nat, e: Failure)
    requires Valid(ws) && i < |ws| && IsInt64(total) && 0 <= Offset(ws, i)
    requires AddColumn(total, record, Offset(ws, i), ws[i]) == Err(e)
    ensures AddColumnsFrom(total, record, ws, i) == Err(e)
  {
  }

  /** The first record's columns decide how the remaining records start. */
  lemma {:induction false} RecordsStep(total: int, record: seq<char>, rest: seq<seq<char>>, ws: seq<int>)
    requires Valid(ws) && IsInt64(total)
    ensures AddRecords(total, [record] + rest, ws) == Then(AddColumnsFrom(total, record, ws, 0), rest, ws)
  {
    assert ([record] + rest)[1..] == rest;
  }

  /** Once the first record's columns add up to t, the remaining records start from t. */
  lemma {:induction false} FirstRecord(total: int, records: seq<seq<char>>, ws: seq<int>, t: int)
    requires Valid(ws) && IsInt64(total) && records != []
    requires AddColumnsFrom(total, records[0], ws, 0) == Ok(t)
    ensures IsInt64(t) && AddRecords(total, records, ws) == AddRecords(t, records[1..], ws)
  {
  }

  /** The final check: "Wrong result" exactly when the total is not the checksum. */
  function Checked(r: Result<int, Failure>): (c: Result<int, Failure>)
    ensures r.Err? ==> c == r
    ensures r.Ok? && r.value == Expected ==> c == r
    ensures r.Ok? && r.value != Expected ==> c == Err(WrongResult)
  {
    match r
    case Err(e) => Err(e)
    case Ok(t) => if t != Expected then Err(WrongResult) else Ok(t)
  }

  /** What a variant that reads line by line returns (or throws) on the text `data`. */
  function LineTotal(data: seq<char>, ws: seq<int>): Result<int, Failure>
    requires Valid(ws)
  {
    Checked(AddRecords(0, Lines(data), ws))
  }

  /** What a variant that reads blocks into a buffer first holding `initial` returns (or throws). */
  function BlockTotal(data: seq<char>, initial: seq<char>, ws: seq<int>): Result<int, Failure>
    requires Valid(ws)
  {
    Checked(AddRecords(0, Blocks(data, initial), ws))
  }

  /**
   * What is still to come while a block variant loops: after a `Read`
   * that returned n, with `block` in the buffer and `rest` not yet read.
   */
  ghost function Pending(total: int, n: int, block: seq<char>, rest: seq<char>, ws: seq<int>): Result<int, Failure>
    requires Valid(ws) && IsInt64(total)
  {
    if n > 0 then AddRecords(total, [block] + Blocks(rest, block), ws) else Ok(total)
  }

  /**
   * A `Read` that returned n, leaving `after` in the buffer and `rest`
   * unread: the blocks of the text it read from are still to come.
   */
  lemma {:induction false} PendingRead(total: int, text: seq<char>, buffer: seq<char>, n: int, after: seq<char>, rest: seq<char>, ws: seq<int>)
    requires Valid(ws) && IsInt64(total) && n == Min(|buffer|, |text|)
    requires after == buffer[..0] + text[..n] + buffer[n..] && rest == text[n..]
    ensures |after| == |buffer|
    ensures AddRecords(total, Blocks(text, buffer), ws) == Pending(total, n, after, rest, ws)
  {
    ReadStep(text, buffer, n, after, rest);
  }

  /**
   * The columns of the block in the buffer produce s: an exception ends
   * everything, otherwise the blocks after it continue from the new total.
   */
  lemma {:induction false} PendingColumns(total: int, n: int, block: seq<char>, rest: seq<char>, s: Result<int, Failure>, ws: seq<int>)
    requires Valid(ws) && IsInt64(total) && n > 0
    requires s == AddColumnsFrom(total, block, ws, 0)
    ensures s.Err? ==> Pending(total, n, block, rest, ws) == s
    ensures s.Ok? ==> Pending(total, n, block, rest, ws) == AddRecords(s.value, Blocks(rest, block), ws)
  {
    RecordsStep(total, block, Blocks(rest, block), ws);
  }

  /** A freshly allocated managed buffer: `new char[n]` and `stackalloc char[n]` are zeroed. */
  function Zeroed(n: nat): (s: seq<char>)
    ensures |s| == n && forall i :: 0 <= i < n ==> s[i] == '\0'
  {
    seq(n, _ => '\0')
  }

  /** `new char[n]`: a fresh buffer of n '\0' characters. */
  method NewBuffer(n: nat) returns (buffer: array<char>)
    ensures fresh(buffer) && buffer[..] == Zeroed(n)
  {
    buffer := new char[n](_ => '\0');
  }

  // ---------------------------------------------------------------------
  // One column, as each variant reads it
  // ---------------------------------------------------------------------

  /**
   * `result[j] = line[at + j]` for j from 0 to count - 1; the string
   * indexer throws (ok == false) when the line ends before at + count.
   */
  method CopyFromLine(line: seq<char>, at: nat, count: nat, result: array<char>) returns (ok: bool)
    requires at <= |line| && count <= result.Length
    modifies result
    ensures ok <==> at + count <= |line|
    ensures ok ==> result[..count] == line[at..at + count]
    ensures result[count..] == old(result[count..])
  {
    for j := 0 to count
      invariant at + j <= |line|
      invariant result[..j] == line[at..at + j]
      invariant result[count..] == old(result[count..])
    {
      if at + j >= |line| {
        return false;
      }
      result[j] := line[at + j];
    }
    return true;
  }

  /**
   * `result[j] = lineBuffer[at + j]` for j from 0 to count - 1, then
   * `int.Parse` of result[0..count), read as a new string or as a span
   * over the array.
   */
  method CopyAndParse(lineBuffer: array<char>, at: nat, count: nat, result: array<char>)
    returns (parsed: Result<int, ParseError>)
    requires at + count <= lineBuffer.Length && count <= result.Length && lineBuffer != result
    modifies result
    ensures result[..count] == lineBuffer[at..at + count]
    ensures result[count..] == old(result[count..])
    ensures parsed == ParseInt32(lineBuffer[at..at + count])
  {
    for j := 0 to count
      invariant result[..j] == lineBuffer[at..at + j]
      invariant result[count..] == old(result[count..])
    {
      result[j] := lineBuffer[at + j];
    }
    parsed := ParseInt32(result[..count]);
  }

  /**
   * The column is copied through a pinned pointer into the characters of
   * a string of exactly its width, which is then parsed.
   */
  method PinnedCopyAndParse(lineBuffer: array<char>, at: nat, chars: array<char>)
    returns (parsed: Result<int, ParseError>)
    requires at + chars.Length <= lineBuffer.Length && lineBuffer != chars
    modifies chars
    ensures chars[..] == lineBuffer[at..at + chars.Length]
    ensures parsed == ParseInt32(lineBuffer[at..at + chars.Length])
  {
    for j := 0 to chars.Length
      invariant chars[..j] == lineBuffer[at..at + j]
    {
      chars[j] := lineBuffer[at + j];
    }
    assert chars[..] == chars[..chars.Length];
    parsed := ParseInt32(chars[..]);
  }


  /** Columns ws[0..] of one line, each cut with `Substring` and parsed. */
  method SubstringColumns(ws: seq<int>, line: seq<char>, start: int) returns (r: Result<int, Failure>)
    requires Valid(ws) && IsInt64(start)
    ensures r == AddColumnsFrom(start, line, ws, 0)
  {
    ghost var goal := AddColumnsFrom(start, line, ws, 0);
    var total := start;
    var lastIndex := 0;
    for i := 0 to |ws|
      invariant lastIndex == Offset(ws, i) && lastIndex <= |line|
      invariant IsInt64(total)
      invariant goal == AddColumnsFrom(total, line, ws, i)
    {
      ColumnInRecord(ws, i);
      if lastIndex + ws[i] > |line| {
        // Substring throws ArgumentOutOfRangeException
        ColumnFailed(total, line, ws, i, OutOfRange);
        return Err(OutOfRange);
      }
      var result := line[lastIndex..lastIndex + ws[i]];
      var parsed := ParseInt32(result);
      if parsed.Err? {
        ColumnFailed(total, line, ws, i, ParseFailed(parsed.error));
        return Err(ParseFailed(parsed.error));
      }
      ColumnParsed(total, line, ws, i, parsed.value);
      total := AddInt64(total, parsed.value);
      lastIndex := lastIndex + ws[i];
    }
    return Ok(total);
  }

  /** Columns ws[0..] of one line, each copied into `result` and parsed from there. */
  method CharArrayColumns(ws: seq<int>, line: seq<char>, result: array<char>, start: int) returns (r: Result<int, Failure>)
    requires Valid(ws) && IsInt64(start) && result.Length == Max(ws)
    modifies result
    ensures r == AddColumnsFrom(start, line, ws, 0)
  {
    MaxIsWidest(ws);
    ghost var goal := AddColumnsFrom(start, line, ws, 0);
    var total := start;
    var lastIndex := 0;
    for i := 0 to |ws|
      invariant lastIndex == Offset(ws, i) && lastIndex <= |line|
      invariant IsInt64(total)
      invariant goal == AddColumnsFrom(total, line, ws, i)
    {
      ColumnInRecord(ws, i);
      var fieldLength := ws[i];
      var copied := CopyFromLine(line, lastIndex, fieldLength, result);
      if !copied {
        // the string indexer throws IndexOutOfRangeException
        ColumnFailed(total, line, ws, i, OutOfRange);
        return Err(OutOfRange);
      }
      var column := result[..fieldLength];
      assert column == line[lastIndex..lastIndex + fieldLength];
      var parsed := ParseInt32(column);
      if parsed.Err? {
        ColumnFailed(total, line, ws, i, ParseFailed(parsed.error));
        return Err(ParseFailed(parsed.error));
      }
      ColumnParsed(total, line, ws, i, parsed.value);
      total := AddInt64(total, parsed.value);
      lastIndex := lastIndex + fieldLength;
    }
    return Ok(total);
  }

  /** Columns ws[0..] of one block, each copied into `result` and parsed from there. */
  method BufferColumns(ws: seq<int>, lineBuffer: array<char>, result: array<char>, start: int) returns (r: Result<int, Failure>)
    requires Valid(ws) && IsInt64(start) && lineBuffer != result
    requires lineBuffer.Length >= Sum(ws) && result.Length == Max(ws)
    modifies result
    ensures r == AddColumnsFrom(start, lineBuffer[..], ws, 0)
  {
    MaxIsWidest(ws);
    ghost var block := lineBuffer[..];
    ghost var goal := AddColumnsFrom(start, block, ws, 0);
    var total := start;
    var lastIndex := 0;
    for i := 0 to |ws|
      invariant lastIndex == Offset(ws, i)
      invariant IsInt64(total)
      invariant lineBuffer[..] == block
      invariant goal == AddColumnsFrom(total, block, ws, i)
    {
      ColumnInRecord(ws, i);
      var fieldLength := ws[i];
      var parsed := CopyAndParse(lineBuffer, lastIndex, fieldLength, result);
      if parsed.Err? {
        ColumnFailed(total, block, ws, i, ParseFailed(parsed.error));
        return Err(ParseFailed(parsed.error));
      }
      ColumnParsed(total, block, ws, i, parsed.value);
      total := AddInt64(total, parsed.value);
      lastIndex := lastIndex + fieldLength;
    }
    return Ok(total);
  }

  /** The arrays behind the strings of `cells`. */
  function Cells(cells: array<array<char>>): set<array<char>>
    reads cells
  {
    set i | 0 <= i < cells.Length :: cells[i]
  }

  /** `new string(' ', ws[i])` for each column. */
  method Blanks(ws: seq<int>) returns (cells: array<array<char>>)
    requires Valid(ws)
    ensures fresh(cells) && cells.Length == |ws|
    ensures forall i :: 0 <= i < |ws| ==> fresh(cells[i]) && cells[i][..] == seq(ws[i], _ => ' ')
    ensures forall i :: 0 <= i < |ws| ==> cells[i].Length == ws[i]
  {
    var empty := new char[0];
    cells := new array<char>[|ws|](_ => empty);
    for i := 0 to |ws|
      invariant forall k :: 0 <= k < i ==> fresh(cells[k]) && cells[k][..] == seq(ws[k], _ => ' ')
    {
      cells[i] := new char[ws[i]](_ => ' ');
    }
  }

  /** Columns ws[0..] of one block, each copied into the string cells[i] and parsed from there. */
  method PinnedColumns(ws: seq<int>, lineBuffer: array<char>, cells: array<array<char>>, start: int) returns (r: Result<int, Failure>)
    requires Valid(ws) && IsInt64(start) && lineBuffer.Length >= Sum(ws)
    requires cells.Length == |ws| && lineBuffer !in Cells(cells)
    requires forall i :: 0 <= i < |ws| ==> cells[i].Length == ws[i]
    modifies Cells(cells)
    ensures r == AddColumnsFrom(start, lineBuffer[..], ws, 0)
  {
    ghost var block := lineBuffer[..];
    ghost var goal := AddColumnsFrom(start, block, ws, 0);
    var total := start;
    var lastIndex := 0;
    for i := 0 to |ws|
      invariant lastIndex == Offset(ws, i)
      invariant IsInt64(total)
      invariant lineBuffer[..] == block
      invariant goal == AddColumnsFrom(total, block, ws, i)
    {
      ColumnInRecord(ws, i);
      var fieldLength := ws[i];
      var parsed := PinnedCopyAndParse(lineBuffer, lastIndex, cells[i]);
      if parsed.Err? {
        ColumnFailed(total, block, ws, i, ParseFailed(parsed.error));
        return Err(ParseFailed(parsed.error));
      }
      ColumnParsed(total, block, ws, i, parsed.value);
      total := AddInt64(total, parsed.value);
      lastIndex := lastIndex + fieldLength;
    }
    return Ok(total);
  }

  /** Columns ws[0..] of one block, each parsed as a slice of the buffer. */
  method SpanColumns(ws: seq<int>, buffer: array<char>, start: int) returns (r: Result<int, Failure>)
    requires Valid(ws) && IsInt64(start) && buffer.Length >= Sum(ws)
    ensures r == AddColumnsFrom(start, buffer[..], ws, 0)
  {
    ghost var block := buffer[..];
    ghost var goal := AddColumnsFrom(start, block, ws, 0);
    var total := start;
    var lastIndex := 0;
    for i := 0 to |ws|
      invariant lastIndex == Offset(ws, i)
      invariant IsInt64(total)
      invariant goal == AddColumnsFrom(total, block, ws, i)
    {
      ColumnInRecord(ws, i);
      var result := buffer[lastIndex..lastIndex + ws[i]];
      assert result == block[lastIndex..lastIndex + ws[i]];
      lastIndex := lastIndex + ws[i];
      var parsed := ParseInt32(result);
      if parsed.Err? {
        ColumnFailed(total, block, ws, i, ParseFailed(parsed.error));
        return Err(ParseFailed(parsed.error));
      }
      ColumnParsed(total, block, ws, i, parsed.value);
      total := AddInt64(total, parsed.value);
    }
    return Ok(total);
  }


  /** The benchmark class: the layout, the platform line terminator and the shared reader. */
  class ReadColumnFixedWidth {
    const positions: seq<int>
    const newLine: seq<char>
    const reader: TextReader

    ghost predicate Valid()
      reads this, reader
    {
      Schema.Valid(positions) && Sum(positions) > 0 && newLine != [] && reader.Valid()
    }

    /** `newLine` is `Environment.NewLine`; `data` is the content of the data file. */
    constructor (data: seq<char>, newLine: seq<char>)
      requires newLine == "\r\n" || newLine == "\n"
      ensures Valid() && fresh(reader)
      ensures positions == Positions && this.newLine == newLine && reader.data == data
      ensures reader.pos == 0 && reader.Remaining() == data
    {
      PositionsShape();
      positions := Positions;
      this.newLine := newLine;
      reader := new TextReader(data);
    }

    /** The size of one record on disk: all columns plus the line terminator. */
    method GetLineSize() returns (size: int)
      ensures size == Sum(positions) + |newLine|
    {
      size := 0;
      for i := 0 to |positions|
        invariant size == Offset(positions, i)
      {
        OffsetNext(positions, i);
        size := size + positions[i];
      }
      assert positions[..|positions|] == positions;
      size := size + |newLine|;
    }

    /** Rewinds the shared reader to the start of the file and drops what it had buffered. */
    method GetReader()
      requires Valid()
      modifies reader
      ensures Valid() && reader.pos == 0 && reader.Remaining() == reader.data
    {
      reader.Rewind();
    }

    /** The cost of rewinding alone. */
    method Minimum()
      requires Valid()
      modifies reader
      ensures Valid() && reader.pos == 0 && reader.Remaining() == reader.data
    {
      GetReader();
    }

    // -------------------------------------------------------------------
    // Reading line by line
    // -------------------------------------------------------------------

    /** `ReadLine` each record, `Substring` each column, `int.Parse` the substring. */
    method ReadLine_ResultSubstring() returns (r: Result<int, Failure>)
      requires Valid()
      modifies reader
      ensures Valid()
      ensures r.Ok? || r == Err(WrongResult) ==> reader.Remaining() == []
      ensures r == LineTotal(reader.data, positions)
    {
      var total := 0;
      GetReader();
      ghost var goal := AddRecords(0, Lines(reader.data), positions);
      var line := reader.ReadLine();
      while line.Some?
        invariant Valid() && IsInt64(total)
        invariant line.Some? ==> goal == AddRecords(total, [line.value] + Lines(reader.Remaining()), positions)
        invariant line.None? ==> goal == Ok(total) && reader.Remaining() == []
        decreases |reader.Remaining()|, line.Some?
      {
        assert ([line.value] + Lines(reader.Remaining()))[1..] == Lines(reader.Remaining());
        var s := SubstringColumns(positions, line.value, total);
        if s.Err? {
          return s;
        }
        total := s.value;
        line := reader.ReadLine();
      }
      if total != Expected {
        return Err(WrongResult);
      }
      return Ok(total);
    }

    /** `ReadLine` each record, copy each column into one reused `char[]`, parse a new string over it. */
    method ReadLine_ResultCharArray() returns (r: Result<int, Failure>)
      requires Valid()
      modifies reader
      ensures Valid()
      ensures r.Ok? || r == Err(WrongResult) ==> reader.Remaining() == []
      ensures r == LineTotal(reader.data, positions)
    {
      var result := NewBuffer(Max(positions));
      var total := 0;
      GetReader();
      ghost var goal := AddRecords(0, Lines(reader.data), positions);
      var line := reader.ReadLine();
      while line.Some?
        invariant Valid() && IsInt64(total) && result.Length == Max(positions)
        invariant line.Some? ==> goal == AddRecords(total, [line.value] + Lines(reader.Remaining()), positions)
        invariant line.None? ==> goal == Ok(total) && reader.Remaining() == []
        decreases |reader.Remaining()|, line.Some?
      {
        assert ([line.value] + Lines(reader.Remaining()))[1..] == Lines(reader.Remaining());
        var s := CharArrayColumns(positions, line.value, result, total);
        if s.Err? {
          return s;
        }
        total := s.value;
        line := reader.ReadLine();
      }
      if total != Expected {
        return Err(WrongResult);
      }
      return Ok(total);
    }

    // -------------------------------------------------------------------
    // Reading blocks of one record's size
    // -------------------------------------------------------------------

    /**
     * `sr.Read(lineBuffer, 0, lineBuffer.Length)`, seen from a block
     * variant's loop whose total is `total`: the blocks the reader had
     * still to deliver are what `Pending` says after the call.
     */
    method ReadBlock(lineBuffer: array<char>, ghost total: int) returns (n: int, ghost block: seq<char>, ghost rest: seq<char>)
      requires Valid() && IsInt64(total)
      modifies reader, lineBuffer
      ensures Valid() && block == lineBuffer[..] && rest == reader.Remaining()
      ensures |block| == lineBuffer.Length
      ensures n == Min(lineBuffer.Length, |old(reader.Remaining())|)
      ensures |rest| <= |old(reader.Remaining())| && (n > 0 ==> |rest| < |old(reader.Remaining())|) && n >= 0
      ensures AddRecords(total, Blocks(old(reader.Remaining()), old(lineBuffer[..])), positions)
           == Pending(total, n, block, rest, positions)
    {
      ghost var text := reader.Remaining();
      ghost var previous := lineBuffer[..];
      n := reader.Read(lineBuffer, 0, lineBuffer.Length);
      block := lineBuffer[..];
      rest := reader.Remaining();
      PendingRead(total, text, previous, n, block, rest, positions);
    }

    /**
     * `Read` blocks of one record's size into a reused buffer, copy each
     * column into one reused `char[]`, parse a new string over it.
     */
    method Read_ResultCharArray() returns (r: Result<int, Failure>)
      requires Valid()
      modifies reader
      ensures Valid()
      ensures r.Ok? || r == Err(WrongResult) ==> reader.Remaining() == []
      ensures r == BlockTotal(reader.data, Zeroed(Sum(positions) + |newLine|), positions)
    {
      var bufferSize := GetLineSize();
      var lineBuffer := NewBuffer(bufferSize);
      var result := NewBuffer(Max(positions));
      GetReader();
      r := CopyBlocks(lineBuffer, result, reader.data, Zeroed(Sum(positions) + |newLine|));
    }

    /** `Read_ResultCharArray` with the copy parsed as a `ReadOnlySpan<char>` over the array. */
    method Read_ResultCharArraySpan() returns (r: Result<int, Failure>)
      requires Valid()
      modifies reader
      ensures Valid()
      ensures r.Ok? || r == Err(WrongResult) ==> reader.Remaining() == []
      ensures r == BlockTotal(reader.data, Zeroed(Sum(positions) + |newLine|), positions)
    {
      var bufferSize := GetLineSize();
      var lineBuffer := NewBuffer(bufferSize);
      var result := NewBuffer(Max(positions));
      GetReader();
      r := CopyBlocks(lineBuffer, result, reader.data, Zeroed(Sum(positions) + |newLine|));
    }

    /**
     * The loop of the two variants above: read a block, copy and parse
     * each column, until `Read` returns 0; then compare with the checksum.
     */
    method CopyBlocks(lineBuffer: array<char>, result: array<char>, ghost text: seq<char>, ghost initial: seq<char>) returns (r: Result<int, Failure>)
      requires Valid() && lineBuffer != result && text == reader.Remaining() && initial == lineBuffer[..]
      requires lineBuffer.Length == Sum(positions) + |newLine| && result.Length == Max(positions)
      modifies reader, lineBuffer, result
      ensures Valid()
      ensures r.Ok? || r == Err(WrongResult) ==> reader.Remaining() == []
      ensures r == BlockTotal(text, initial, positions)
    {
      var total := 0;
      ghost var goal := AddRecords(0, Blocks(text, initial), positions);
      var n, block, rest := ReadBlock(lineBuffer, 0);
      while n > 0
        invariant Valid() && IsInt64(total)
        invariant block == lineBuffer[..] && rest == reader.Remaining() && |block| == lineBuffer.Length
        invariant goal == Pending(total, n, block, rest, positions)
        invariant n == 0 ==> rest == []
        decreases |rest|, n
      {
        var s := BufferColumns(positions, lineBuffer, result, total);
        PendingColumns(total, n, block, rest, s, positions);
        if s.Err? {
          return s;
        }
        total := s.value;
        n, block, rest := ReadBlock(lineBuffer, total);
      }
      if total != Expected {
        return Err(WrongResult);
      }
      return Ok(total);
    }

    /**
     * One string of spaces per column, of the column's width; each column
     * is copied through a pinned pointer into its own string, which is
     * then parsed.
     */
    method Read_ResultUseUnsafeCharPointer() returns (r: Result<int, Failure>)
      requires Valid()
      modifies reader
      ensures Valid()
      ensures r.Ok? || r == Err(WrongResult) ==> reader.Remaining() == []
      ensures r == BlockTotal(reader.data, Zeroed(Sum(positions) + |newLine|), positions)
    {
      var bufferSize := GetLineSize();
      var lineBuffer := NewBuffer(bufferSize);
      var result := Blanks(positions);
      assert lineBuffer !in Cells(result) by {
        forall i | 0 <= i < result.Length ensures result[i] != lineBuffer {
          assert fresh(result[i]);
        }
      }
      GetReader();
      r := PinnedBlocks(lineBuffer, result, reader.data, Zeroed(Sum(positions) + |newLine|));
    }

    /** The loop of `Read_ResultUseUnsafeCharPointer`: each column goes into its own string. */
    method PinnedBlocks(lineBuffer: array<char>, result: array<array<char>>, ghost text: seq<char>, ghost initial: seq<char>) returns (r: Result<int, Failure>)
      requires Valid() && text == reader.Remaining() && initial == lineBuffer[..]
      requires lineBuffer.Length == Sum(positions) + |newLine|
      requires result.Length == |positions| && lineBuffer !in Cells(result)
      requires forall i :: 0 <= i < |positions| ==> result[i].Length == positions[i]
      modifies reader, lineBuffer, Cells(result)
      ensures Valid()
      ensures r.Ok? || r == Err(WrongResult) ==> reader.Remaining() == []
      ensures r == BlockTotal(text, initial, positions)
    {
      var total := 0;
      ghost var goal := AddRecords(0, Blocks(text, initial), positions);
      var n, block, rest := ReadBlock(lineBuffer, 0);
      while n > 0
        invariant Valid() && IsInt64(total)
        invariant block == lineBuffer[..] && rest == reader.Remaining() && |block| == lineBuffer.Length
        invariant goal == Pending(total, n, block, rest, positions)
        invariant n == 0 ==> rest == []
        decreases |rest|, n
      {
        var s := PinnedColumns(positions, lineBuffer, result, total);
        PendingColumns(total, n, block, rest, s, positions);
        if s.Err? {
          return s;
        }
        total := s.value;
        n, block, rest := ReadBlock(lineBuffer, total);
      }
      if total != Expected {
        return Err(WrongResult);
      }
      return Ok(total);
    }

    /** `Read_ResultSpan` on a `stackalloc` buffer. */
    method Read_ResultSpanStackAlloc() returns (r: Result<int, Failure>)
      requires Valid()
      modifies reader
      ensures Valid()
      ensures r.Ok? || r == Err(WrongResult) ==> reader.Remaining() == []
      ensures r == BlockTotal(reader.data, Zeroed(Sum(positions) + |newLine|), positions)
    {
      r := Read_ResultSpan(true);
    }

    /** `Read_ResultSpan` on a `new char[]` buffer. */
    method Read_ResultSpanCharArray() returns (r: Result<int, Failure>)
      requires Valid()
      modifies reader
      ensures Valid()
      ensures r.Ok? || r == Err(WrongResult) ==> reader.Remaining() == []
      ensures r == BlockTotal(reader.data, Zeroed(Sum(positions) + |newLine|), positions)
    {
      r := Read_ResultSpan(false);
    }

    /**
     * `Read` blocks into a span and parse each column as a slice of it,
     * without copying. Both kinds of buffer start zeroed, so `stack` does
     * not change the result.
     */
    method Read_ResultSpan(stack: bool) returns (r: Result<int, Failure>)
      requires Valid()
      modifies reader
      ensures Valid()
      ensures r.Ok? || r == Err(WrongResult) ==> reader.Remaining() == []
      ensures r == BlockTotal(reader.data, Zeroed(Sum(positions) + |newLine|), positions)
    {
      var bufferSize := GetLineSize();
      var lineBuffer := NewBuffer(bufferSize);
      GetReader();
      r := SpanBlocks(lineBuffer, reader.data, Zeroed(Sum(positions) + |newLine|));
    }

    /**
     * `Read_ResultSpan` on unmanaged memory from `AllocHGlobal`, which is
     * not cleared: `memory` is what it holds when allocated.
     */
    method Read_ResultSpanNative(memory: int -> char) returns (r: Result<int, Failure>)
      requires Valid()
      modifies reader
      ensures Valid()
      ensures r.Ok? || r == Err(WrongResult) ==> reader.Remaining() == []
      ensures r == BlockTotal(reader.data, seq(Sum(positions) + |newLine|, i => memory(i)), positions)
    {
      var bufferSize := GetLineSize();
      var lineBuffer := new char[bufferSize](i => memory(i));
      GetReader();
      assert lineBuffer[..] == seq(bufferSize, i => memory(i));
      r := SpanBlocks(lineBuffer, reader.data, seq(Sum(positions) + |newLine|, i => memory(i)));
    }

    /** The loop of the span variants: each column is parsed where it lies in the buffer. */
    method SpanBlocks(lineBuffer: array<char>, ghost text: seq<char>, ghost initial: seq<char>) returns (r: Result<int, Failure>)
      requires Valid() && text == reader.Remaining() && initial == lineBuffer[..]
      requires lineBuffer.Length == Sum(positions) + |newLine|
      modifies reader, lineBuffer
      ensures Valid()
      ensures r.Ok? || r == Err(WrongResult) ==> reader.Remaining() == []
      ensures r == BlockTotal(text, initial, positions)
    {
      var total := 0;
      ghost var goal := AddRecords(0, Blocks(text, initial), positions);
      var n, block, rest := ReadBlock(lineBuffer, 0);
      while n > 0
        invariant Valid() && IsInt64(total)
        invariant block == lineBuffer[..] && rest == reader.Remaining() && |block| == lineBuffer.Length
        invariant goal == Pending(total, n, block, rest, positions)
        invariant n == 0 ==> rest == []
        decreases |rest|, n
      {
        var s := SpanColumns(positions, lineBuffer, total);
        PendingColumns(total, n, block, rest, s, positions);
        if s.Err? {
          return s;
        }
        total := s.value;
        n, block, rest := ReadBlock(lineBuffer, total);
      }
      if total != Expected {
        return Err(WrongResult);
      }
      return Ok(total);
    }
  }
}
