/**
 * The reading side of `StreamReader` as the column readers use it: a
 * character stream with a cursor, read either line by line (`ReadLine`)
 * or in blocks copied into a caller's buffer (`Read`).
 */
module TextStream {
  import opened Wrappers

  predicate IsTerminator(c: char) { c == '\r' || c == '\n' }

  predicate NoTerminator(s: seq<char>) { forall i :: 0 <= i < |s| ==> !IsTerminator(s[i]) }

  function Min(a: int, b: int): int { if a <= b then a else b }

  /** Index in s of the first '\r' or '\n', or |s| when there is none. */
  function LineEnd(s: seq<char>): (k: nat)
    ensures k <= |s|
    ensures NoTerminator(s[..k])
    ensures k < |s| ==> IsTerminator(s[k])
  {
    if s == [] || IsTerminator(s[0]) then 0
    else
      var k := 1 + LineEnd(s[1..]);
      assert s[..k] == [s[0]] + s[1..][..k - 1];
      k
  }

  /** Where the next line starts: after "\r\n", a lone '\r' or '\n', or at the end of s. */
  function NextLineStart(s: seq<char>): (k: nat)
    ensures LineEnd(s) <= k <= |s|
    ensures s != [] ==> k > 0
  {
    var e := LineEnd(s);
    if e == |s| then e
    else if s[e] == '\r' && e + 1 < |s| && s[e + 1] == '\n' then e + 2
    else e + 1
  }

  /** The lines `ReadLine` returns from s, in order, until it returns null. */
  function Lines(s: seq<char>): (ls: seq<seq<char>>)
    ensures forall k :: 0 <= k < |ls| ==> NoTerminator(ls[k])
    decreases |s|
  {
    if s == [] then [] else [s[..LineEnd(s)]] + Lines(s[NextLineStart(s)..])
  }

  /**
   * The successive contents of a reused buffer that `Read(buffer, 0,
   * buffer.Length)` fills from s, one entry per call that returns a
   * positive count. A call copies as many characters as remain, up to the
   * buffer's length; the rest of the buffer keeps what the previous call
   * left there. A call with an empty buffer returns 0.
   */
  function Blocks(s: seq<char>, buffer: seq<char>): (bs: seq<seq<char>>)
    decreases |s|
  {
    if s == [] || buffer == [] then []
    else
      var n := Min(|buffer|, |s|);
      var next := s[..n] + buffer[n..];
      [next] + Blocks(s[n..], next)
  }

  /**
   * One call of `Read(buffer, 0, buffer.Length)` on the text s: it returns
   * 0 exactly when s is exhausted, and otherwise the buffer it leaves and
   * the text after it are the first block and where the rest come from.
   */
  lemma {:induction false} ReadStep(s: seq<char>, buffer: seq<char>, n: int, after: seq<char>, rest: seq<char>)
    requires n == Min(|buffer|, |s|)
    requires after == buffer[..0] + s[..n] + buffer[n..] && rest == s[n..]
    ensures n == 0 ==> Blocks(s, buffer) == []
    ensures n > 0 ==> Blocks(s, buffer) == [after] + Blocks(rest, after)
  {
    if n > 0 {
      assert buffer[..0] + s[..n] == s[..n];
    }
  }

  /** Every block is as long as the buffer it was read into. */
  lemma {:induction false} BlocksLength(s: seq<char>, buffer: seq<char>)
    ensures forall k :: 0 <= k < |Blocks(s, buffer)| ==> |Blocks(s, buffer)[k]| == |buffer|
    decreases |s|
  {
    if s != [] && buffer != [] {
      var n := Min(|buffer|, |s|);
      var next := s[..n] + buffer[n..];
      BlocksLength(s[n..], next);
    }
  }

  /** A `StreamReader` over a fixed text, with its read position. */
  class TextReader {
    const data: seq<char>
    var pos: nat

    ghost predicate Valid()
      reads this
    {
      pos <= |data|
    }

    /** The characters not yet read. */
    ghost function Remaining(): seq<char>
      reads this
      requires Valid()
    {
      data[pos..]
    }

    constructor (data: seq<char>)
      ensures Valid() && this.data == data && pos == 0
    {
      this.data := data;
      pos := 0;
    }

    /** Seek the underlying stream back to its start and discard buffered characters. */
    method Rewind()
      modifies this
      ensures Valid() && pos == 0
    {
      pos := 0;
    }

    /**
     * `ReadLine()`: null at the end of the stream; otherwise the characters
     * up to the next line terminator, which is consumed ("\r\n" as one).
     */
    method ReadLine() returns (line: Option<seq<char>>)
      requires Valid()
      modifies this
      ensures Valid()
      ensures old(Remaining()) == [] ==> line == None && pos == old(pos)
      ensures old(Remaining()) != [] ==>
        && line == Some(old(Remaining())[..LineEnd(old(Remaining()))])
        && Remaining() == old(Remaining())[NextLineStart(old(Remaining()))..]
    {
      if pos == |data| {
        return None;
      }
      ghost var rest := data[pos..];
      var k := pos;
      while k < |data| && !IsTerminator(data[k])
        invariant pos <= k <= |data|
        invariant forall i :: pos <= i < k ==> !IsTerminator(data[i])
      {
        k := k + 1;
      }
      assert rest[..k - pos] == data[pos..k];
      assert k - pos == LineEnd(rest);
      assert data[pos..k] == rest[..k - pos];
      line := Some(data[pos..k]);
      if k < |data| && data[k] == '\r' && k + 1 < |data| && data[k + 1] == '\n' {
        pos := k + 2;
      } else if k < |data| {
        pos := k + 1;
      } else {
        pos := k;
      }
      assert pos - old(pos) == NextLineStart(rest);
    }

    /**
     * `Read(buffer, index, count)`: copies the next min(count, remaining)
     * characters to buffer[index..] and returns how many it copied; the
     * rest of the buffer is left as it was.
     */
    method Read(buffer: array<char>, index: int, count: int) returns (n: int)
      requires Valid()
      requires 0 <= index && 0 <= count && index + count <= buffer.Length
      modifies this, buffer
      ensures Valid()
      ensures n == Min(count, |old(Remaining())|)
      ensures buffer[..] == old(buffer[..index]) + old(Remaining())[..n] + old(buffer[index + n..])
      ensures Remaining() == old(Remaining())[n..]
    {
      var start := pos;
      n := Min(count, |data| - start);
      var k := 0;
      while k < n
        invariant 0 <= k <= n
        invariant buffer[..] == old(buffer[..index]) + data[start..start + k] + old(buffer[index + k..])
      {
        buffer[index + k] := data[start + k];
        k := k + 1;
      }
      pos := start + n;
    }
  }
}
