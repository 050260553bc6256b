/**
 * What the variants of ReadColumnFixedWidth have in common: on a file of
 * fixed-width records they all compute the same total, and on the file
 * `GlobalSetup` writes that total is the checksum 370370370000000.
 */
module Checksum {
  import opened Wrappers
  import opened Int32Parse
  import opened Schema
  import opened TextStream
  import opened DataFile
  import opened ColumnTotals

  // ---------------------------------------------------------------------
  // Every strategy sums the same columns
  // ---------------------------------------------------------------------

  /** The columns of a record depend only on its first Sum(ws) characters. */
  lemma {:induction false} ColumnsPrefix(total: int, a: seq<char>, b: seq<char>, ws: seq<int>, i: nat)
    requires Valid(ws) && i <= |ws| && IsInt64(total)
    requires 0 <= Sum(ws) <= |a| && Sum(ws) <= |b| && a[..Sum(ws)] == b[..Sum(ws)]
    ensures AddColumnsFrom(total, a, ws, i) == AddColumnsFrom(total, b, ws, i)
    decreases |ws| - i
  {
    if i < |ws| {
      ColumnInRecord(ws, i);
      var at, w := Offset(ws, i), ws[i];
      SliceOfPrefix(a, Sum(ws), at, w);
      SliceOfPrefix(b, Sum(ws), at, w);
      match AddColumn(total, a, at, w)
      case Err(_) =>
      case Ok(t) => ColumnsPrefix(t, a, b, ws, i + 1);
    }
  }

  /** A slice inside a prefix is the same slice of the whole. */
  lemma {:induction false} SliceOfPrefix(s: seq<char>, n: int, at: int, w: int)
    requires 0 <= at && 0 <= w && at + w <= n <= |s|
    ensures s[..n][at..at + w] == s[at..at + w]
  {
    var p, q := s[..n][at..at + w], s[at..at + w];
    assert forall k :: 0 <= k < w ==> p[k] == q[k];
  }

  /** Records that agree on their columns give the same total. */
  lemma {:induction false} RecordsAgree(total: int, xs: seq<seq<char>>, ys: seq<seq<char>>, ws: seq<int>)
    requires Valid(ws) && IsInt64(total) && |xs| == |ys| && 0 <= Sum(ws)
    requires forall k :: 0 <= k < |xs| ==> Sum(ws) <= |xs[k]| && Sum(ws) <= |ys[k]|
    requires forall k :: 0 <= k < |xs| ==> xs[k][..Sum(ws)] == ys[k][..Sum(ws)]
    ensures AddRecords(total, xs, ws) == AddRecords(total, ys, ws)
    decreases |xs|
  {
    if xs != [] {
      ColumnsPrefix(total, xs[0], ys[0], ws, 0);
      match AddColumnsFrom(total, xs[0], ws, 0)
      case Err(_) =>
      case Ok(t) => RecordsAgree(t, xs[1..], ys[1..], ws);
    }
  }

  /**
   * On a file of records of exactly the layout's width, each written with
   * `WriteLine`, the variants that read lines and the variants that read
   * blocks of one record's size (terminator included) return the same
   * total or throw the same exception, whatever the block buffer held.
   */
  lemma {:induction false} StrategiesAgree(records: seq<seq<char>>, nl: seq<char>, initial: seq<char>, ws: seq<int>)
    requires Valid(ws) && IsNewLine(nl) && |initial| == Sum(ws) + |nl|
    requires forall k :: 0 <= k < |records| ==> |records[k]| == Sum(ws) && NoTerminator(records[k])
    ensures LineTotal(Join(records, nl), ws) == BlockTotal(Join(records, nl), initial, ws)
  {
    PositiveSum(ws);
    LinesOfJoin(records, nl);
    BlocksOfJoin(records, nl, initial);
    var blocks := seq(|records|, k requires 0 <= k < |records| => records[k] + nl);
    forall k | 0 <= k < |records|
      ensures records[k][..Sum(ws)] == blocks[k][..Sum(ws)]
    {
      assert blocks[k] == records[k] + nl;
    }
    RecordsAgree(0, records, blocks, ws);
  }

  /** A valid layout is at least one character wide. */
  lemma {:induction false} PositiveSum(ws: seq<int>)
    requires Valid(ws)
    ensures Sum(ws) > 0
  {
    ColumnInRecord(ws, 0);
  }

  // ---------------------------------------------------------------------
  // The value of the benchmark's records
  // ---------------------------------------------------------------------

  /** 1, 11, 111, ...: the value of n '1' digits. */
  function Repunit(n: nat): nat
  {
    if n == 0 then 0 else Repunit(n - 1) * 10 + 1
  }

  /** Digits that are all '1' read as a repunit. */
  lemma {:induction false} OnesValue(s: seq<char>, hi: nat)
    requires hi <= |s| && forall i :: 0 <= i < hi ==> s[i] == '1'
    ensures ValueBetween(s, 0, hi) == Repunit(hi)
  {
    if hi > 0 {
      OnesValue(s, hi - 1);
    }
  }

  lemma {:induction false} RepunitMonotone(i: nat, j: nat)
    requires i <= j
    ensures Repunit(i) <= Repunit(j)
    decreases j - i
  {
    if i < j {
      RepunitMonotone(i, j - 1);
    }
  }

  /** A record of '1' characters only (stated character by character from the front). */
  predicate AllOnes(record: seq<char>)
    decreases |record|
  {
    record == [] || (record[0] == '1' && AllOnes(record[1..]))
  }

  /** Every character of a record of ones is '1'. */
  lemma {:induction false} OnesAt(record: seq<char>)
    requires AllOnes(record)
    ensures forall k :: 0 <= k < |record| ==> record[k] == '1'
    decreases |record|
  {
    if record != [] {
      OnesAt(record[1..]);
      forall k | 0 < k < |record|
        ensures record[k] == '1'
      {
        assert record[k] == record[1..][k - 1];
      }
    }
  }

  /** The records `GlobalSetup` writes are records of ones. */
  lemma {:induction false} OnesAreAllOnes(n: nat)
    ensures AllOnes(Ones(n))
  {
    if n > 0 {
      OnesAreAllOnes(n - 1);
      assert Ones(n)[1..] == Ones(n - 1);
    }
  }

  /** `int.Parse` of one to ten '1' characters is the repunit; it does not overflow. */
  lemma {:induction false} ParseOnes(s: seq<char>)
    requires 1 <= |s| <= 10 && forall k :: 0 <= k < |s| ==> s[k] == '1'
    ensures ParseInt32(s) == Ok(Repunit(|s|))
  {
    assert DigitsBetween(s, 0, |s|);
    SignedDigits(s, 0);
    OnesValue(s, |s|);
    RepunitMonotone(|s|, 10);
    assert Repunit(10) == 1111111111;
  }

  /** The sum of the repunits of the widths of columns i, i + 1, ... */
  function OnesTotal(ws: seq<int>, i: nat): nat
    requires Valid(ws) && i <= |ws|
    decreases |ws| - i
  {
    if i == |ws| then 0 else Repunit(ws[i]) + OnesTotal(ws, i + 1)
  }

  /** A column of '1' characters adds the repunit of its width. */
  lemma {:induction false} ColumnOfOnes(total: int, record: seq<char>, ws: seq<int>, i: nat)
    requires Valid(ws) && i < |ws| && Sum(ws) <= |record| && AllOnes(record) && ws[i] <= 10
    requires 0 <= total && total + Repunit(ws[i]) <= Int64Max
    ensures AddColumnsFrom(total, record, ws, i) == AddColumnsFrom(total + Repunit(ws[i]), record, ws, i + 1)
  {
    var v := Repunit(ws[i]);
    ColumnInRecord(ws, i);
    OnesAt(record);
    ParseOnes(record[Offset(ws, i)..Offset(ws, i) + ws[i]]);
    ColumnParsed(total, record, ws, i, v);
    assert AddInt64(total, v) == total + v;
  }

  /** A record of '1' characters adds the repunit of each column's width. */
  lemma {:induction false} ColumnsOfOnes(total: int, record: seq<char>, ws: seq<int>, i: nat)
    requires Valid(ws) && i <= |ws| && Sum(ws) <= |record| && AllOnes(record)
    requires forall k :: 0 <= k < |ws| ==> ws[k] <= 10
    requires 0 <= total && total + OnesTotal(ws, i) <= Int64Max
    ensures AddColumnsFrom(total, record, ws, i) == Ok(total + OnesTotal(ws, i))
    decreases |ws| - i
  {
    if i < |ws| {
      var v := Repunit(ws[i]);
      assert OnesTotal(ws, i) == v + OnesTotal(ws, i + 1);
      calc {
        AddColumnsFrom(total, record, ws, i);
        { ColumnOfOnes(total, record, ws, i); }
        AddColumnsFrom(total + v, record, ws, i + 1);
        { ColumnsOfOnes(total + v, record, ws, i + 1); }
        Ok(total + OnesTotal(ws, i));
      }
    }
  }

  /** k records of '1' characters add k times the value of one. */
  lemma {:induction false} RecordsOfOnes(total: int, records: seq<seq<char>>, L: nat, ws: seq<int>)
    requires Valid(ws) && Sum(ws) <= L
    requires forall j :: 0 <= j < |ws| ==> ws[j] <= 10
    requires forall j :: 0 <= j < |records| ==> records[j] == Ones(L)
    requires 0 <= total && total + Times(|records|, OnesTotal(ws, 0)) <= Int64Max
    ensures AddRecords(total, records, ws) == Ok(total + Times(|records|, OnesTotal(ws, 0)))
    decreases |records|
  {
    if records != [] {
      var v, rest := OnesTotal(ws, 0), records[1..];
      assert Times(|records|, v) == v + Times(|rest|, v);
      OnesAreAllOnes(L);
      OneRecordOfOnes(total, records, ws);
      RecordsOfOnes(total + v, rest, L, ws);
    }
  }

  /** The first record of '1' characters adds the value of one. */
  lemma {:induction false} OneRecordOfOnes(total: int, records: seq<seq<char>>, ws: seq<int>)
    requires Valid(ws) && records != [] && Sum(ws) <= |records[0]| && AllOnes(records[0])
    requires forall j :: 0 <= j < |ws| ==> ws[j] <= 10
    requires 0 <= total && total + OnesTotal(ws, 0) <= Int64Max
    ensures AddRecords(total, records, ws) == AddRecords(total + OnesTotal(ws, 0), records[1..], ws)
  {
    ColumnsOfOnes(total, records[0], ws, 0);
    FirstRecord(total, records, ws, total + OnesTotal(ws, 0));
  }

  /** k * v as repeated addition. */
  function Times(k: nat, v: nat): nat
  {
    if k == 0 then 0 else v + Times(k - 1, v)
  }

  lemma {:induction false} TimesIsProduct(k: nat, v: nat)
    ensures Times(k, v) == k * v
  {
    if k > 0 {
      TimesIsProduct(k - 1, v);
    }
  }

  /** One record of the benchmark file: 3 * (1 + 11 + ... + 1111111111). */
  lemma {:induction false} PositionsOnesTotal()
    ensures OnesTotal(Positions, 0) == 3703703700
  {
    PositionsValid();
    RepunitValues();
    assert OnesTotal(Positions, 29) == 1111111111;
    assert OnesTotal(Positions, 28) == 1222222222;
    assert OnesTotal(Positions, 27) == 1233333333;
    assert OnesTotal(Positions, 26) == 1234444444;
    assert OnesTotal(Positions, 25) == 1234555555;
    assert OnesTotal(Positions, 24) == 1234566666;
    assert OnesTotal(Positions, 23) == 1234567777;
    assert OnesTotal(Positions, 22) == 1234567888;
    assert OnesTotal(Positions, 21) == 1234567899;
    assert OnesTotal(Positions, 20) == 1234567900;
    assert OnesTotal(Positions, 19) == 2345679011;
    assert OnesTotal(Positions, 18) == 2456790122;
    assert OnesTotal(Positions, 17) == 2467901233;
    assert OnesTotal(Positions, 16) == 2469012344;
    assert OnesTotal(Positions, 15) == 2469123455;
    assert OnesTotal(Positions, 14) == 2469134566;
    assert OnesTotal(Positions, 13) == 2469135677;
    assert OnesTotal(Positions, 12) == 2469135788;
    assert OnesTotal(Positions, 11) == 2469135799;
    assert OnesTotal(Positions, 10) == 2469135800;
    assert OnesTotal(Positions, 9) == 3580246911;
    assert OnesTotal(Positions, 8) == 3691358022;
    assert OnesTotal(Positions, 7) == 3702469133;
    assert OnesTotal(Positions, 6) == 3703580244;
    assert OnesTotal(Positions, 5) == 3703691355;
    assert OnesTotal(Positions, 4) == 3703702466;
    assert OnesTotal(Positions, 3) == 3703703577;
    assert OnesTotal(Positions, 2) == 3703703688;
    assert OnesTotal(Positions, 1) == 3703703699;
    assert OnesTotal(Positions, 0) == 3703703700;
  }

  lemma {:induction false} RepunitValues()
    ensures Repunit(1) == 1 && Repunit(2) == 11 && Repunit(3) == 111 && Repunit(4) == 1111
    ensures Repunit(5) == 11111 && Repunit(6) == 111111 && Repunit(7) == 1111111
    ensures Repunit(8) == 11111111 && Repunit(9) == 111111111 && Repunit(10) == 1111111111
  {
  }

  /**
   * The checksum follows from the data: on the file `GlobalSetup` writes,
   * every variant returns 370370370000000 (100,000 records of value
   * 3,703,703,700), whether it reads lines or blocks and whatever the
   * block buffer held beforehand.
   */
  lemma {:induction false} BenchmarkChecksum(nl: seq<char>, initial: seq<char>)
    requires IsNewLine(nl) && |initial| == RecordWidth + |nl|
    ensures LineTotal(Benchmark(nl), Positions) == Ok(Expected)
    ensures BlockTotal(Benchmark(nl), initial, Positions) == Ok(Expected)
  {
    PositionsShape();
    var records := seq(RecordCount, _ => Ones(RecordWidth));
    forall k | 0 <= k < |records|
      ensures |records[k]| == Sum(Positions) && NoTerminator(records[k])
    {
      assert records[k] == Ones(RecordWidth);
    }
    LinesOfJoin(records, nl);
    BenchmarkRecords(records);
    StrategiesAgree(records, nl, initial, Positions);
  }

  /** The same, with the product written as one. */
  lemma {:induction false} RecordsOfOnesProduct(records: seq<seq<char>>, L: nat, ws: seq<int>)
    requires Valid(ws) && Sum(ws) <= L
    requires forall j :: 0 <= j < |ws| ==> ws[j] <= 10
    requires forall j :: 0 <= j < |records| ==> records[j] == Ones(L)
    requires |records| * OnesTotal(ws, 0) <= Int64Max
    ensures AddRecords(0, records, ws) == Ok(|records| * OnesTotal(ws, 0))
  {
    TimesIsProduct(|records|, OnesTotal(ws, 0));
    RecordsOfOnes(0, records, L, ws);
  }

  /** The records `GlobalSetup` writes add up to the checksum. */
  lemma {:induction false} BenchmarkRecords(records: seq<seq<char>>)
    requires |records| == RecordCount
    requires forall j :: 0 <= j < |records| ==> records[j] == Ones(RecordWidth)
    ensures AddRecords(0, records, Positions) == Ok(Expected)
  {
    PositionsShape();
    PositionsValid();
    PositionsOnesTotal();
    RecordsOfOnesProduct(records, RecordWidth, Positions);
  }
}
