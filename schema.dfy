/**
 * The record layout: an ordered list of column widths. Column i starts at
 * the sum of the widths before it, so the columns follow one another with
 * no gap and no overlap.
 */
module Schema {

  /** The widths of the thirty columns of the benchmark's records. */
  const Positions: seq<int> :=
    [1, 2, 3, 4, 5, 6, 7, 8, 9, 10,
     1, 2, 3, 4, 5, 6, 7, 8, 9, 10,
     1, 2, 3, 4, 5, 6, 7, 8, 9, 10]

  /** A layout has at least one column and every column is at least one character wide. */
  predicate Valid(ws: seq<int>)
  {
    |ws| > 0 && forall i :: 0 <= i < |ws| ==> ws[i] > 0
  }

  /** `positions.Sum()`: the width of a whole record. */
  function Sum(ws: seq<int>): int
  {
    if ws == [] then 0 else Sum(ws[..|ws| - 1]) + ws[|ws| - 1]
  }

  /** Where column i starts: the sum of the widths of the columns before it. */
  function Offset(ws: seq<int>, i: nat): int
    requires i <= |ws|
  {
    Sum(ws[..i])
  }

  /** `positions.Max()`. */
  function Max(ws: seq<int>): int
    requires |ws| > 0
  {
    if |ws| == 1 then ws[0]
    else
      var m := Max(ws[..|ws| - 1]);
      if ws[|ws| - 1] > m then ws[|ws| - 1] else m
  }

  /** The widest column is one of the columns and no column is wider. */
  lemma {:induction false} MaxIsWidest(ws: seq<int>)
    requires |ws| > 0
    ensures Max(ws) in ws
    ensures forall i :: 0 <= i < |ws| ==> ws[i] <= Max(ws)
  {
    if |ws| > 1 {
      var init := ws[..|ws| - 1];
      MaxIsWidest(init);
      assert forall i :: 0 <= i < |init| ==> init[i] == ws[i];
    }
  }

  /** Each column ends where the next one starts. */
  lemma {:induction false} OffsetNext(ws: seq<int>, i: nat)
    requires i < |ws|
    ensures Offset(ws, i + 1) == Offset(ws, i) + ws[i]
  {
    assert ws[..i + 1][..i] == ws[..i];
  }

  /** Offsets only grow, by at least one per column. */
  lemma {:induction false} OffsetMonotone(ws: seq<int>, i: nat, j: nat)
    requires Valid(ws) && i <= j <= |ws|
    ensures Offset(ws, i) + (j - i) <= Offset(ws, j)
    decreases j - i
  {
    if i < j {
      OffsetMonotone(ws, i, j - 1);
      OffsetNext(ws, j - 1);
    }
  }

  /**
   * The columns tile the record: the first starts at 0, each one starts
   * where the previous one ends, and the last one ends at the record
   * width; so column i lies inside [0, Sum(ws)).
   */
  lemma {:induction false} ColumnInRecord(ws: seq<int>, i: nat)
    requires Valid(ws) && i < |ws|
    ensures Offset(ws, 0) == 0 && Offset(ws, |ws|) == Sum(ws)
    ensures 0 <= Offset(ws, i) && Offset(ws, i) + ws[i] == Offset(ws, i + 1) <= Sum(ws)
  {
    assert ws[..|ws|] == ws;
    OffsetNext(ws, i);
    OffsetMonotone(ws, 0, i);
    OffsetMonotone(ws, i + 1, |ws|);
  }

  /** Two different columns never share a character. */
  lemma {:induction false} ColumnsDisjoint(ws: seq<int>, i: nat, j: nat)
    requires Valid(ws) && i < j < |ws|
    ensures Offset(ws, i) + ws[i] <= Offset(ws, j)
  {
    OffsetNext(ws, i);
    OffsetMonotone(ws, i + 1, j);
  }

  /** The column that character p of a record belongs to. */
  function ColumnOf(ws: seq<int>, p: int): (i: nat)
    requires Valid(ws) && 0 <= p < Sum(ws)
    ensures i < |ws| && Offset(ws, i) <= p < Offset(ws, i) + ws[i]
  {
    var n := |ws| - 1;
    ColumnInRecord(ws, n);
    if p >= Offset(ws, n) then n
    else
      var i := ColumnOf(ws[..n], p);
      assert ws[..n][..i] == ws[..i];
      assert ws[..n][..i + 1] == ws[..i + 1];
      OffsetNext(ws, i);
      i
  }

  /** Every character of a record lies in exactly one column: no gaps and no overlap. */
  lemma {:induction false} ColumnsCover(ws: seq<int>, p: int, i: nat)
    requires Valid(ws) && 0 <= p < Sum(ws) && i < |ws|
    ensures Offset(ws, i) <= p < Offset(ws, i) + ws[i] <==> i == ColumnOf(ws, p)
  {
    var c := ColumnOf(ws, p);
    if i < c {
      ColumnsDisjoint(ws, i, c);
    } else if c < i {
      ColumnsDisjoint(ws, c, i);
    }
  }

  /** The benchmark layout: thirty positive columns, 165 characters in all, the widest 10. */
  lemma {:induction false} PositionsShape()
    ensures Valid(Positions)
    ensures |Positions| == 30 && Sum(Positions) == 165 && Max(Positions) == 10
  {
    PositionsValid();
    PositionsSum();
    MaxIsWidest(Positions);
    assert Positions[9] == 10;
  }

  lemma {:induction false} PositionsValid()
    ensures Valid(Positions)
    ensures forall i :: 0 <= i < |Positions| ==> Positions[i] <= 10
  {
  }

  lemma {:induction false} PositionsSum()
    ensures Sum(Positions) == 165
  {
    assert Positions[..30] == Positions;
    PositionsOffset20();
    OffsetNext(Positions, 20); OffsetNext(Positions, 21); OffsetNext(Positions, 22); OffsetNext(Positions, 23); OffsetNext(Positions, 24); OffsetNext(Positions, 25); OffsetNext(Positions, 26); OffsetNext(Positions, 27); OffsetNext(Positions, 28); OffsetNext(Positions, 29);
  }

  lemma {:induction false} PositionsOffset20()
    ensures Offset(Positions, 20) == 110
  {
    PositionsOffset10();
    OffsetNext(Positions, 10); OffsetNext(Positions, 11); OffsetNext(Positions, 12); OffsetNext(Positions, 13); OffsetNext(Positions, 14); OffsetNext(Positions, 15); OffsetNext(Positions, 16); OffsetNext(Positions, 17); OffsetNext(Positions, 18); OffsetNext(Positions, 19);
  }

  lemma {:induction false} PositionsOffset10()
    ensures Offset(Positions, 10) == 55
  {
    assert Positions[..0] == [];
    OffsetNext(Positions, 0); OffsetNext(Positions, 1); OffsetNext(Positions, 2); OffsetNext(Positions, 3); OffsetNext(Positions, 4); OffsetNext(Positions, 5); OffsetNext(Positions, 6); OffsetNext(Positions, 7); OffsetNext(Positions, 8); OffsetNext(Positions, 9);
  }
}
