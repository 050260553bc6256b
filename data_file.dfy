/**
 * The data file the benchmarks read: records written one per line with
 * `WriteLine`, and what `ReadLine` and `Read` hand back from such a file.
 */
module DataFile {
  import opened TextStream

  /** The number of records `GlobalSetup` writes. */
  const RecordCount: nat := 100000

  /** The width of the records `GlobalSetup` writes. */
  const RecordWidth: nat := 165

  /** `new string('1', n)`. */
  function Ones(n: nat): (s: seq<char>)
    ensures |s| == n && forall i :: 0 <= i < n ==> s[i] == '1'
  {
    seq(n, _ => '1')
  }

  /** The text of the records, each followed by the line terminator `nl`. */
  function Join(records: seq<seq<char>>, nl: seq<char>): seq<char>
  {
    if records == [] then [] else records[0] + nl + Join(records[1..], nl)
  }

  /** The data file `GlobalSetup` writes when the platform terminator is `nl`. */
  function Benchmark(nl: seq<char>): seq<char>
  {
    Join(seq(RecordCount, _ => Ones(RecordWidth)), nl)
  }

  /** A terminator `WriteLine` can write: `Environment.NewLine` on Windows or elsewhere. */
  predicate IsNewLine(nl: seq<char>) { nl == "\r\n" || nl == "\n" }

  /** Writing one more record appends it and its terminator at the end. */
  lemma {:induction false} JoinAppend(records: seq<seq<char>>, r: seq<char>, nl: seq<char>)
    ensures Join(records + [r], nl) == Join(records, nl) + r + nl
    decreases |records|
  {
    if records == [] {
      assert Join([r], nl) == r + nl + Join([], nl);
    } else {
      assert (records + [r])[0] == records[0];
      assert (records + [r])[1..] == records[1..] + [r];
      JoinAppend(records[1..], r, nl);
    }
  }

  /**
   * `GlobalSetup`: when the file does not exist yet (`fileExists` is false),
   * write 100,000 lines of 165 '1' characters; otherwise keep `existing`.
   */
  method GlobalSetup(fileExists: bool, existing: seq<char>, nl: seq<char>) returns (data: seq<char>)
    ensures fileExists ==> data == existing
    ensures !fileExists ==> data == Benchmark(nl)
  {
    if fileExists {
      return existing;
    }
    var line := Ones(RecordWidth);
    data := [];
    for i := 0 to RecordCount
      invariant data == Join(seq(i, _ => line), nl)
    {
      JoinAppend(seq(i, _ => line), line, nl);
      assert seq(i + 1, _ => line) == seq(i, _ => line) + [line];
      data := data + line + nl;
    }
  }

  // ---------------------------------------------------------------------
  // Reading the file back
  // ---------------------------------------------------------------------

  /** A line ends at the first terminator after it. */
  lemma {:induction false} LineEndAfter(r: seq<char>, t: seq<char>)
    requires NoTerminator(r) && t != [] && IsTerminator(t[0])
    ensures LineEnd(r + t) == |r|
    decreases |r|
  {
    if r != [] {
      assert (r + t)[1..] == r[1..] + t;
      LineEndAfter(r[1..], t);
    } else {
      assert r + t == t;
    }
  }

  /**
   * `ReadLine` on a terminator-free record followed by its terminator
   * returns the record and resumes right after the terminator.
   */
  lemma LinesStep(r: seq<char>, nl: seq<char>, rest: seq<char>)
    requires NoTerminator(r) && IsNewLine(nl)
    ensures NextLineStart(r + (nl + rest)) == |r| + |nl|
    ensures Lines(r + (nl + rest)) == [r] + Lines(rest)
  {
    var s := r + (nl + rest);
    LineEndAfter(r, nl + rest);
    assert s[|r|..|r| + |nl|] == nl;
    assert s[..|r|] == r;
    assert s[|r| + |nl|..] == rest;
  }

  /** `ReadLine` returns the records written with `WriteLine`, in order. */
  lemma {:induction false} LinesOfJoin(records: seq<seq<char>>, nl: seq<char>)
    requires IsNewLine(nl)
    requires forall k :: 0 <= k < |records| ==> NoTerminator(records[k])
    ensures Lines(Join(records, nl)) == records
    decreases |records|
  {
    if records != [] {
      var r, rest := records[0], Join(records[1..], nl);
      assert Join(records, nl) == r + (nl + rest);
      LinesStep(r, nl, rest);
      LinesOfJoin(records[1..], nl);
    }
  }

  /**
   * When the buffer holds exactly one record and its terminator, each
   * `Read` returns the next record and its terminator, whatever the
   * buffer held before.
   */
  lemma {:induction false} BlocksOfJoin(records: seq<seq<char>>, nl: seq<char>, buffer: seq<char>)
    requires |buffer| > 0
    requires forall k :: 0 <= k < |records| ==> |records[k]| + |nl| == |buffer|
    ensures Blocks(Join(records, nl), buffer) == seq(|records|, k requires 0 <= k < |records| => records[k] + nl)
    decreases |records|
  {
    var want := seq(|records|, k requires 0 <= k < |records| => records[k] + nl);
    if records != [] {
      var r, rest := records[0], Join(records[1..], nl);
      var s := Join(records, nl);
      assert s == (r + nl) + rest;
      var n := Min(|buffer|, |s|);
      assert n == |r + nl|;
      assert s[..n] + buffer[n..] == r + nl;
      assert s[n..] == rest;
      BlocksOfJoin(records[1..], nl, r + nl);
      assert want == [r + nl] + seq(|records| - 1, k requires 0 <= k < |records| - 1 => records[1..][k] + nl);
    }
  }

  /**
   * While the text lasts, `Read` into a buffer of W characters hands back
   * consecutive W-character windows: block k is text[k * W, (k + 1) * W).
   */
  lemma {:induction false} BlockAt(s: seq<char>, buffer: seq<char>, k: nat)
    requires |buffer| > 0 && (k + 1) * |buffer| <= |s|
    ensures k < |Blocks(s, buffer)|
    ensures Blocks(s, buffer)[k] == s[k * |buffer|..(k + 1) * |buffer|]
    decreases k
  {
    var w := |buffer|;
    assert (k + 1) * w == k * w + w;
    assert k * w >= 0;
    var next := s[..w] + buffer[w..];
    assert next == s[..w];
    assert Blocks(s, buffer) == [next] + Blocks(s[w..], next);
    if k > 0 {
      assert k * w == (k - 1) * w + w;
      BlockAt(s[w..], next, k - 1);
      assert s[w..][(k - 1) * w..k * w] == s[k * w..(k + 1) * w];
    }
  }

  /** The file is exactly |records| lines of W + |nl| characters. */
  lemma {:induction false} JoinLength(records: seq<seq<char>>, nl: seq<char>, w: nat)
    requires forall j :: 0 <= j < |records| ==> |records[j]| == w
    ensures |Join(records, nl)| == |records| * (w + |nl|)
    decreases |records|
  {
    if records != [] {
      JoinLength(records[1..], nl, w);
      ShiftProduct(|records| - 1, w + |nl|);
    }
  }

  /** (k + 1) * l == k * l + l, kept apart so the proofs above stay linear. */
  lemma ShiftProduct(k: nat, l: nat)
    ensures (k + 1) * l == k * l + l
  {
  }

  /** Record k of a file of W-character records starts at k * (W + |nl|). */
  lemma {:induction false} RecordAt(records: seq<seq<char>>, nl: seq<char>, w: nat, k: nat)
    requires k < |records| && forall j :: 0 <= j < |records| ==> |records[j]| == w
    ensures k * (w + |nl|) + w <= |Join(records, nl)|
    ensures Join(records, nl)[k * (w + |nl|)..k * (w + |nl|) + w] == records[k]
    decreases |records|
  {
    var l := w + |nl|;
    var rest := records[1..];
    var tail := Join(rest, nl);
    assert Join(records, nl) == records[0] + nl + tail;
    if k > 0 {
      RecordAt(rest, nl, w, k - 1);
      ShiftProduct(k - 1, l);
      assert Join(records, nl)[k * l..k * l + w] == tail[(k - 1) * l..(k - 1) * l + w];
    }
  }

  /** The arithmetic of `WindowsDriftAt`: record k's window lies inside the file. */
  lemma DriftBounds(k: nat, w: nat, m: nat, n: nat)
    requires k < n
    ensures k * (w + m) == k * w + k * m
    ensures (k + 1) * w <= k * w + k * m + w <= n * (w + m)
  {
    assert (k + 1) * (w + m) <= n * (w + m);
  }

  /**
   * With a buffer as wide as a record but no room for its terminator,
   * window k is the k-th run of W characters of the file, while record k
   * starts k * |nl| characters further on: the windows fall one
   * terminator further behind the records with every record.
   */
  lemma {:induction false} WindowsDriftAt(records: seq<seq<char>>, nl: seq<char>, buffer: seq<char>, k: nat)
    requires |buffer| > 0 && k < |records|
    requires forall j :: 0 <= j < |records| ==> |records[j]| == |buffer|
    ensures (k + 1) * |buffer| <= |Join(records, nl)|
    ensures k < |Blocks(Join(records, nl), buffer)|
    ensures Blocks(Join(records, nl), buffer)[k] == Join(records, nl)[k * |buffer|..(k + 1) * |buffer|]
    ensures k * |buffer| + k * |nl| + |buffer| <= |Join(records, nl)|
    ensures Join(records, nl)[k * |buffer| + k * |nl|..k * |buffer| + k * |nl| + |buffer|] == records[k]
  {
    JoinLength(records, nl, |buffer|);
    DriftBounds(k, |buffer|, |nl|, |records|);
    RecordAt(records, nl, |buffer|, k);
    BlockAt(Join(records, nl), buffer, k);
  }
}
