/**
 * The two pieces of .NET integer arithmetic the column summer depends on:
 * `int.Parse` of a column's characters into a 32-bit integer, and the
 * unchecked `long += int` that accumulates the running total.
 */
module Int32Parse {
  import opened Wrappers

  const Int32Max: int := 0x7FFF_FFFF
  const Int32Min: int := -0x8000_0000
  const Int64Max: int := 0x7FFF_FFFF_FFFF_FFFF
  const Int64Min: int := -0x8000_0000_0000_0000
  const TwoTo64: int := 0x1_0000_0000_0000_0000

  predicate IsInt32(x: int) { Int32Min <= x <= Int32Max }

  predicate IsInt64(x: int) { Int64Min <= x <= Int64Max }

  /** The two ways `int.Parse` rejects its input: FormatException and OverflowException. */
  datatype ParseError = FormatError | OverflowError

  predicate IsDigit(c: char) { '0' <= c <= '9' }

  /** Every character of s[lo..hi] is an ASCII decimal digit. */
  predicate DigitsBetween(s: seq<char>, lo: nat, hi: nat)
    requires lo <= hi <= |s|
  {
    forall i :: lo <= i < hi ==> IsDigit(s[i])
  }

  predicate AllDigits(s: seq<char>) { DigitsBetween(s, 0, |s|) }

  /** The value of a digit character (only meaningful when IsDigit(c)). */
  function DigitValue(c: char): int
  {
    c as int - '0' as int
  }

  /** The value of the digits s[lo..hi] read left to right, as `value * 10 + digit`. */
  function ValueBetween(s: seq<char>, lo: nat, hi: nat): int
    requires lo <= hi <= |s|
    decreases hi - lo
  {
    if hi == lo then 0 else ValueBetween(s, lo, hi - 1) * 10 + DigitValue(s[hi - 1])
  }

  function DigitsValue(s: seq<char>): int
    requires AllDigits(s)
  {
    ValueBetween(s, 0, |s|)
  }

  function Pow10(k: nat): nat
  {
    if k == 0 then 1 else 10 * Pow10(k - 1)
  }

  /** The characters `int.Parse` skips around a number: U+0009 to U+000D and the space. */
  predicate IsWhite(c: char) { c == ' ' || '\t' <= c <= '\r' }

  /** The first index at or after k that does not hold white space. */
  function SkipWhite(s: seq<char>, k: nat): (e: nat)
    requires k <= |s|
    ensures k <= e <= |s|
    decreases |s| - k
  {
    if k < |s| && IsWhite(s[k]) then SkipWhite(s, k + 1) else k
  }

  /** SkipWhite stops exactly at the end of the run of white space starting at k. */
  lemma {:induction false} SkipWhiteAt(s: seq<char>, k: nat, e: nat)
    requires k <= e <= |s|
    requires forall i :: k <= i < e ==> IsWhite(s[i])
    requires e < |s| ==> !IsWhite(s[e])
    ensures SkipWhite(s, k) == e
    decreases e - k
  {
    if k < e {
      SkipWhiteAt(s, k + 1, e);
    }
  }

  /** The first index at or after k that does not hold a digit. */
  function SkipDigits(s: seq<char>, k: nat): (e: nat)
    requires k <= |s|
    ensures k <= e <= |s|
    decreases |s| - k
  {
    if k < |s| && IsDigit(s[k]) then SkipDigits(s, k + 1) else k
  }

  /** SkipDigits stops exactly at the end of the run of digits starting at k. */
  lemma {:induction false} SkipDigitsAt(s: seq<char>, k: nat, e: nat)
    requires k <= e <= |s| && DigitsBetween(s, k, e)
    requires e < |s| ==> !IsDigit(s[e])
    ensures SkipDigits(s, k) == e
    decreases e - k
  {
    if k < e {
      SkipDigitsAt(s, k + 1, e);
    }
  }

  /** Where the optional sign would stand: after the leading white space. */
  function SignStart(s: seq<char>): nat
    ensures SignStart(s) <= |s|
  {
    SkipWhite(s, 0)
  }

  /** Where the digits start: after the leading white space and the optional sign. */
  function DigitsStart(s: seq<char>): (k: nat)
    ensures SignStart(s) <= k <= |s|
  {
    var b := SignStart(s);
    if b < |s| && (s[b] == '+' || s[b] == '-') then b + 1 else b
  }

  function DigitsEnd(s: seq<char>): nat
    ensures DigitsStart(s) <= DigitsEnd(s) <= |s|
  {
    SkipDigits(s, DigitsStart(s))
  }

  /** Every character from k on is U+0000 (`TrailingZeros` in the .NET parser). */
  predicate NulsFrom(s: seq<char>, k: nat)
    requires k <= |s|
    decreases |s| - k
  {
    k == |s| || (s[k] == '\0' && NulsFrom(s, k + 1))
  }

  /** NulsFrom as a statement about every index. */
  lemma {:induction false} NulsFromAt(s: seq<char>, k: nat)
    requires k <= |s|
    ensures NulsFrom(s, k) <==> forall i :: k <= i < |s| ==> s[i] == '\0'
    decreases |s| - k
  {
    if k < |s| {
      NulsFromAt(s, k + 1);
    }
  }

  /**
   * What `int.Parse` accepts under `NumberStyles.Integer`: white space, an
   * optional sign, at least one digit, white space, and then nothing but
   * U+0000 characters.
   */
  predicate IsNumeral(s: seq<char>)
  {
    DigitsStart(s) < DigitsEnd(s) && NulsFrom(s, SkipWhite(s, DigitsEnd(s)))
  }

  function NumeralValue(s: seq<char>): int
    requires IsNumeral(s)
  {
    var m := ValueBetween(s, DigitsStart(s), DigitsEnd(s));
    if s[SignStart(s)] == '-' then 0 - m else m
  }

  /**
   * `int.Parse(s)`: a numeral whose value fits in 32 bits parses to that
   * value; anything that is not a numeral is a format error; a numeral
   * out of range is an overflow.
   */
  function ParseInt32(s: seq<char>): (r: Result<int, ParseError>)
    ensures r.Ok? ==> IsInt32(r.value)
  {
    if !IsNumeral(s) then Err(FormatError)
    else if IsInt32(NumeralValue(s)) then Ok(NumeralValue(s))
    else Err(OverflowError)
  }

  /** The characters a numeral is made of: white space, a sign, digits and U+0000. */
  predicate NumeralChar(c: char)
  {
    IsWhite(c) || c == '+' || c == '-' || IsDigit(c) || c == '\0'
  }

  /** Everything SkipWhite skips is white space. */
  lemma {:induction false} SkipWhiteRun(s: seq<char>, k: nat)
    requires k <= |s|
    ensures forall i :: k <= i < SkipWhite(s, k) ==> IsWhite(s[i])
    decreases |s| - k
  {
    if k < |s| && IsWhite(s[k]) {
      SkipWhiteRun(s, k + 1);
    }
  }

  /** Everything SkipDigits skips is a digit. */
  lemma {:induction false} SkipDigitsRun(s: seq<char>, k: nat)
    requires k <= |s|
    ensures forall i :: k <= i < SkipDigits(s, k) ==> IsDigit(s[i])
    decreases |s| - k
  {
    if k < |s| && IsDigit(s[k]) {
      SkipDigitsRun(s, k + 1);
    }
  }

  /** A numeral holds nothing but white space, signs, digits and U+0000 characters. */
  lemma {:induction false} NumeralAlphabet(s: seq<char>)
    requires IsNumeral(s)
    ensures forall i :: 0 <= i < |s| ==> NumeralChar(s[i])
  {
    var e := DigitsEnd(s);
    SkipWhiteRun(s, 0);
    SkipDigitsRun(s, DigitsStart(s));
    SkipWhiteRun(s, e);
    NulsFromAt(s, SkipWhite(s, e));
  }

  /**
   * `int.Parse` throws FormatException on a column holding any other
   * character, such as the 'a' lines of an unparsable data file.
   */
  lemma {:induction false} ParseRejectsForeign(s: seq<char>, k: nat)
    requires k < |s| && !NumeralChar(s[k])
    ensures ParseInt32(s) == Err(FormatError)
  {
    if IsNumeral(s) {
      NumeralAlphabet(s);
      assert false;
    }
  }

  /** `int.Parse` throws FormatException on an empty or all-blank column: a numeral needs a digit. */
  lemma {:induction false} ParseRejectsBlank(s: seq<char>)
    requires forall i :: 0 <= i < |s| ==> IsWhite(s[i])
    ensures ParseInt32(s) == Err(FormatError)
  {
    if IsNumeral(s) {
      SkipDigitsRun(s, DigitsStart(s));
      assert false;
    }
  }

  /**
   * `long + int` in an unchecked context: the exact sum brought back into
   * the 64-bit range by two's complement wrap-around.
   */
  function AddInt64(a: int, b: int): (r: int)
    requires IsInt64(a) && IsInt32(b)
    ensures IsInt64(r)
    ensures r == a + b || r == a + b - TwoTo64 || r == a + b + TwoTo64
    ensures IsInt64(a + b) ==> r == a + b
  {
    var s := a + b;
    if s > Int64Max then s - TwoTo64
    else if s < Int64Min then s + TwoTo64
    else s
  }

  /** The canonical 64-bit representative of an unbounded integer. */
  function Wrap64(x: int): (r: int)
    ensures IsInt64(r)
    ensures (r - x) % TwoTo64 == 0
  {
    (x - Int64Min) % TwoTo64 + Int64Min
  }

  /** The unchecked sum is the 64-bit representative of the exact sum. */
  lemma {:induction false} AddInt64Wraps(a: int, b: int)
    requires IsInt64(a) && IsInt32(b)
    ensures AddInt64(a, b) == Wrap64(a + b)
  {
    var r, s := AddInt64(a, b), a + b;
    if s > Int64Max {
      assert s - Int64Min == (r - Int64Min) + TwoTo64;
    } else if s < Int64Min {
      assert s - Int64Min == (r - Int64Min) - TwoTo64;
    }
  }

  // ---------------------------------------------------------------------
  // Formatting: the inverse of parsing, as `int.ToString()` writes it
  // ---------------------------------------------------------------------

  function Digit(d: nat): (c: char)
    requires d < 10
    ensures IsDigit(c) && DigitValue(c) == d
  {
    ('0' as int + d) as char
  }

  /** The shortest decimal numeral of a natural number. */
  function FormatNat(n: nat): (s: seq<char>)
    ensures |s| > 0 && AllDigits(s)
    decreases n
  {
    if n < 10 then [Digit(n)] else FormatNat(n / 10) + [Digit(n % 10)]
  }

  function Format(n: int): seq<char>
  {
    if n < 0 then ['-'] + FormatNat(-n) else FormatNat(n)
  }

  function Zeros(k: nat): (s: seq<char>)
    ensures |s| == k && AllDigits(s)
  {
    if k == 0 then [] else Zeros(k - 1) + ['0']
  }

  /** Digits s[lo..hi] denote a value below 10^(hi - lo). */
  lemma {:induction false} ValueBetweenBound(s: seq<char>, lo: nat, hi: nat)
    requires lo <= hi <= |s| && DigitsBetween(s, lo, hi)
    ensures 0 <= ValueBetween(s, lo, hi) < Pow10(hi - lo)
    decreases hi - lo
  {
    if hi > lo {
      ValueBetweenBound(s, lo, hi - 1);
    }
  }

  /** The value of a digit run depends only on its characters, not on where it sits. */
  lemma {:induction false} ValueBetweenShift(s: seq<char>, lo: nat, hi: nat, t: seq<char>, d: nat)
    requires lo <= hi <= |s| && DigitsBetween(s, lo, hi)
    requires d + hi - lo <= |t|
    requires forall i :: lo <= i < hi ==> t[d + i - lo] == s[i]
    ensures DigitsBetween(t, d, d + hi - lo)
    ensures ValueBetween(t, d, d + hi - lo) == ValueBetween(s, lo, hi)
    decreases hi - lo
  {
    assert DigitsBetween(t, d, d + hi - lo) by {
      forall j | d <= j < d + hi - lo ensures IsDigit(t[j]) {
        assert t[d + (j - d + lo) - lo] == s[j - d + lo];
      }
    }
    if hi > lo {
      ValueBetweenShift(s, lo, hi - 1, t, d);
      assert t[d + (hi - 1) - lo] == s[hi - 1];
    }
  }

  /** A leading zero does not change the value of a digit run. */
  lemma {:induction false} ValueBetweenLeadingZero(s: seq<char>, lo: nat, hi: nat)
    requires lo < hi <= |s| && DigitsBetween(s, lo, hi) && s[lo] == '0'
    ensures ValueBetween(s, lo, hi) == ValueBetween(s, lo + 1, hi)
    decreases hi - lo
  {
    if hi > lo + 1 {
      ValueBetweenLeadingZero(s, lo, hi - 1);
    }
  }

  /** Reading back the numeral of n gives n. */
  lemma {:induction false} DigitsValueFormatNat(n: nat)
    ensures DigitsValue(FormatNat(n)) == n
    decreases n
  {
    if n >= 10 {
      var p := FormatNat(n / 10);
      var s := FormatNat(n);
      DigitsValueFormatNat(n / 10);
      assert s == p + [Digit(n % 10)];
      ValueBetweenShift(p, 0, |p|, s, 0);
      assert ValueBetween(s, 0, |s|) == ValueBetween(s, 0, |p|) * 10 + DigitValue(s[|p|]);
      assert DigitValue(s[|p|]) == n % 10;
      assert ValueBetween(s, 0, |p|) == n / 10;
    } else {
      assert ValueBetween(FormatNat(n), 0, 1) == DigitValue(Digit(n));
    }
  }

  /** Leading zeros do not change the value of a digit string. */
  lemma {:induction false} DigitsValueLeadingZeros(k: nat, s: seq<char>)
    requires AllDigits(s)
    ensures AllDigits(Zeros(k) + s)
    ensures DigitsValue(Zeros(k) + s) == DigitsValue(s)
  {
    var z := Zeros(k) + s;
    assert AllDigits(z) by {
      forall i | 0 <= i < |z| ensures IsDigit(z[i]) {
        if i < k { assert z[i] == Zeros(k)[i]; } else { assert z[i] == s[i - k]; }
      }
    }
    var j := 0;
    while j < k
      invariant 0 <= j <= k
      invariant ValueBetween(z, 0, |z|) == ValueBetween(z, j, |z|)
    {
      assert z[j] == Zeros(k)[j];
      ZerosAreZero(k, j);
      ValueBetweenLeadingZero(z, j, |z|);
      j := j + 1;
    }
    ValueBetweenShift(z, k, |z|, s, 0);
  }

  lemma {:induction false} ZerosAreZero(k: nat, j: nat)
    requires j < k
    ensures Zeros(k)[j] == '0'
  {
    if j < k - 1 {
      ZerosAreZero(k - 1, j);
    }
  }

  /** An optional sign followed by digits up to the end is a numeral with no padding. */
  lemma {:induction false} SignedDigits(s: seq<char>, b: nat)
    requires b < |s| && DigitsBetween(s, b, |s|)
    requires b == 0 || (b == 1 && (s[0] == '+' || s[0] == '-'))
    ensures SignStart(s) == 0 && DigitsStart(s) == b && DigitsEnd(s) == |s|
    ensures IsNumeral(s) && NumeralValue(s) == (if s[0] == '-' then 0 - ValueBetween(s, b, |s|) else ValueBetween(s, b, |s|))
  {
    assert IsDigit(s[b]);
    assert SkipWhite(s, 0) == 0;
    SkipDigitsAt(s, b, |s|);
  }

  predicate AllWhite(s: seq<char>) { forall i :: 0 <= i < |s| ==> IsWhite(s[i]) }

  predicate AllNuls(s: seq<char>) { forall i :: 0 <= i < |s| ==> s[i] == '\0' }

  /**
   * The parts of a numeral located by index: white space up to p, a sign
   * when b == 1, digits from p + b up to q, white space up to t and
   * U+0000 characters after that.
   */
  lemma {:induction false} NumeralAt(s: seq<char>, p: nat, b: nat, q: nat, t: nat)
    requires p + b < q <= t <= |s| && b <= 1
    requires forall i :: 0 <= i < p ==> IsWhite(s[i])
    requires b == 1 ==> s[p] == '+' || s[p] == '-'
    requires DigitsBetween(s, p + b, q) && (q < |s| ==> !IsDigit(s[q]))
    requires (forall i :: q <= i < t ==> IsWhite(s[i])) && (t < |s| ==> !IsWhite(s[t]))
    requires NulsFrom(s, t)
    ensures SignStart(s) == p && DigitsStart(s) == p + b && DigitsEnd(s) == q
    ensures IsNumeral(s)
    ensures NumeralValue(s) == if s[p] == '-' then 0 - ValueBetween(s, p + b, q) else ValueBetween(s, p + b, q)
  {
    assert IsDigit(s[p + b]);
    SkipWhiteAt(s, 0, p);
    SkipDigitsAt(s, p + b, q);
    SkipWhiteAt(s, q, t);
  }

  /**
   * `int.Parse` of a 32-bit number's numeral, with white space before and
   * after it and U+0000 characters at the very end, gives the number back:
   * `int.Parse("  -42 \0\0") == -42`.
   */
  lemma {:induction false} ParsePadded(lead: seq<char>, n: int, trail: seq<char>, nuls: seq<char>)
    requires IsInt32(n) && AllWhite(lead) && AllWhite(trail) && AllNuls(nuls)
    ensures ParseInt32(lead + Format(n) + trail + nuls) == Ok(n)
  {
    var m: nat := if n < 0 then -n else n;
    var sign := if n < 0 then ['-'] else [];
    var s := lead + Format(n) + trail + nuls;
    assert s == lead + sign + FormatNat(m) + trail + nuls by {
      assert Format(n) == sign + FormatNat(m);
    }
    DigitsValueFormatNat(m);
    PaddedDigits(lead, sign, FormatNat(m), trail, nuls);
  }

  /** White space, an optional sign, digits, white space and U+0000 characters form a numeral. */
  lemma {:induction false} PaddedDigits(lead: seq<char>, sign: seq<char>, g: seq<char>, trail: seq<char>, nuls: seq<char>)
    requires AllWhite(lead) && AllWhite(trail) && AllNuls(nuls)
    requires sign == [] || sign == ['-'] || sign == ['+']
    requires |g| > 0 && AllDigits(g)
    ensures IsNumeral(lead + sign + g + trail + nuls)
    ensures NumeralValue(lead + sign + g + trail + nuls) == if sign == ['-'] then 0 - DigitsValue(g) else DigitsValue(g)
  {
    var s := lead + sign + g + trail + nuls;
    var p, b := |lead|, |sign|;
    var q := p + b + |g|;
    var t := q + |trail|;
    PaddedLayout(lead, sign, g, trail, nuls);
    NumeralAt(s, p, b, q, t);
    assert (s[p] == '-') == (sign == ['-']);
  }

  /** Where each part of a padded numeral lies. */
  lemma {:induction false} PaddedLayout(lead: seq<char>, sign: seq<char>, g: seq<char>, trail: seq<char>, nuls: seq<char>)
    requires AllWhite(lead) && AllWhite(trail) && AllNuls(nuls)
    requires sign == [] || sign == ['-'] || sign == ['+']
    requires |g| > 0 && AllDigits(g)
    ensures var s, p, q := lead + sign + g + trail + nuls, |lead|, |lead| + |sign| + |g|;
      && (forall i :: 0 <= i < p ==> IsWhite(s[i]))
      && s[p] == (if sign == [] then g[0] else sign[0])
      && DigitsBetween(s, p + |sign|, q) && ValueBetween(s, p + |sign|, q) == DigitsValue(g)
      && (q < |s| ==> !IsDigit(s[q]))
      && (forall i :: q <= i < q + |trail| ==> IsWhite(s[i]))
      && (q + |trail| < |s| ==> !IsWhite(s[q + |trail|]))
      && NulsFrom(s, q + |trail|)
  {
    var s := lead + sign + g + trail + nuls;
    assert s == lead + (sign + g + trail + nuls);
    WhitePrefix(lead, sign + g + trail + nuls);
    assert s[|lead|] == (if sign == [] then g[0] else sign[0]);
    assert s == (lead + sign) + g + (trail + nuls);
    DigitsInside(lead + sign, g, trail + nuls);
    PaddingSuffix(lead + sign + g, trail, nuls);
  }

  lemma {:induction false} WhitePrefix(a: seq<char>, c: seq<char>)
    requires AllWhite(a)
    ensures forall i :: 0 <= i < |a| ==> IsWhite((a + c)[i])
  {
  }

  lemma {:induction false} DigitsInside(a: seq<char>, g: seq<char>, c: seq<char>)
    requires AllDigits(g)
    ensures DigitsBetween(a + g + c, |a|, |a| + |g|)
    ensures ValueBetween(a + g + c, |a|, |a| + |g|) == DigitsValue(g)
  {
    forall i | 0 <= i < |g| ensures (a + g + c)[|a| + i - 0] == g[i] {
    }
    ValueBetweenShift(g, 0, |g|, a + g + c, |a|);
  }

  lemma {:induction false} PaddingSuffix(a: seq<char>, trail: seq<char>, nuls: seq<char>)
    requires AllWhite(trail) && AllNuls(nuls)
    ensures var s, k := a + trail + nuls, |a|;
      && (forall i :: k <= i < k + |trail| ==> IsWhite(s[i]))
      && NulsFrom(s, k + |trail|)
      && (k + |trail| < |s| ==> s[k + |trail|] == '\0')
      && (k < |s| ==> IsWhite(s[k]) || s[k] == '\0')
  {
    var s, k := a + trail + nuls, |a|;
    forall i | k <= i < k + |trail| ensures IsWhite(s[i]) {
      assert s[i] == trail[i - k];
    }
    forall i | k + |trail| <= i < |s| ensures s[i] == '\0' {
      assert s[i] == nuls[i - k - |trail|];
    }
    NulsFromAt(s, k + |trail|);
  }

  /** `int.Parse(n.ToString()) == n` for every 32-bit n. */
  lemma {:induction false} ParseFormat(n: int)
    requires IsInt32(n)
    ensures ParseInt32(Format(n)) == Ok(n)
  {
    ParsePadded([], n, [], []);
    assert [] + Format(n) + [] + [] == Format(n);
  }

  /**
   * A fixed-width column holding a zero-padded numeral parses to the
   * numeral's value: `int.Parse("000042") == 42`.
   */
  lemma {:induction false} ParseZeroPadded(k: nat, n: nat)
    requires n <= Int32Max
    ensures ParseInt32(Zeros(k) + FormatNat(n)) == Ok(n)
  {
    var s := Zeros(k) + FormatNat(n);
    DigitsValueLeadingZeros(k, FormatNat(n));
    DigitsValueFormatNat(n);
    assert IsDigit(s[0]);
    SignedDigits(s, 0);
  }

  /** A digit string of at most nine digits never overflows `int.Parse`. */
  lemma {:induction false} ShortDigitsParse(s: seq<char>)
    requires 0 < |s| <= 9 && AllDigits(s)
    ensures ParseInt32(s) == Ok(DigitsValue(s))
  {
    ValueBetweenBound(s, 0, |s|);
    Pow10Monotone(|s|, 9);
    assert Pow10(9) == 1000000000;
    assert IsDigit(s[0]);
    SignedDigits(s, 0);
  }

  lemma {:induction false} Pow10Monotone(i: nat, j: nat)
    requires i <= j
    ensures Pow10(i) <= Pow10(j)
    decreases j
  {
    if i < j {
      Pow10Monotone(i, j - 1);
    }
  }
}
