/** Positional (big-endian) values of digit sequences and ordinal lexicographic
    comparison, the arithmetic behind the ordering and increment properties. */
module Positional {

  function Pow(base: nat, n: nat): (r: nat)
    ensures base > 0 ==> r > 0
  {
    if n == 0 then 1 else base * Pow(base, n - 1)
  }

  /** Every entry of `s` is a digit of `base`. */
  predicate IsDigits(s: seq<int>, base: nat) {
    forall i :: 0 <= i < |s| ==> 0 <= s[i] < base
  }

  /** The big-endian value of `s`: most significant digit first. */
  function Value(s: seq<int>, base: nat): int {
    if |s| == 0 then 0 else s[0] * Pow(base, |s| - 1) + Value(s[1..], base)
  }

  /** Ordinal comparison: the first differing entry decides, a proper prefix comes
      first; the result is the sign -1, 0 or 1. */
  function LexCompare(s: seq<int>, t: seq<int>): (r: int)
    ensures -1 <= r <= 1
  {
    if |s| == 0 && |t| == 0 then 0
    else if |s| == 0 then -1
    else if |t| == 0 then 1
    else if s[0] < t[0] then -1
    else if s[0] > t[0] then 1
    else LexCompare(s[1..], t[1..])
  }

  function Sign(x: int): int {
    if x < 0 then -1 else if x > 0 then 1 else 0
  }

  lemma {:induction false} ValueBounds(s: seq<int>, base: nat)
    requires IsDigits(s, base)
    ensures 0 <= Value(s, base) < Pow(base, |s|)
  {
    if |s| > 0 {
      ValueBounds(s[1..], base);
      var p := Pow(base, |s| - 1);
      assert s[0] * p <= (base - 1) * p by { MulLeq(s[0], base - 1, p); }
    }
  }

  lemma MulLeq(a: int, b: int, p: nat)
    requires a <= b
    ensures a * p <= b * p
  {
  }

  /** Splitting a digit sequence splits its value. */
  lemma {:induction false} ValueConcat(a: seq<int>, b: seq<int>, base: nat)
    ensures Value(a + b, base) == Value(a, base) * Pow(base, |b|) + Value(b, base)
  {
    if |a| > 0 {
      assert (a + b)[1..] == a[1..] + b;
      ValueConcat(a[1..], b, base);
      PowAdd(base, |a| - 1, |b|);
      var x, p, q := a[0], Pow(base, |a| - 1), Pow(base, |b|);
      var rest, vb := Value(a[1..], base), Value(b, base);
      assert Value(a + b, base) == x * (p * q) + (rest * q + vb);
      assert Value(a, base) == x * p + rest;
      Distribute(x, p, q, rest);
    } else {
      assert a + b == b;
    }
  }

  /** Splitting at position k. */
  lemma ValueSplit(s: seq<int>, k: nat, base: nat)
    requires k <= |s|
    ensures Value(s, base) == Value(s[..k], base) * Pow(base, |s| - k) + Value(s[k..], base)
  {
    assert s == s[..k] + s[k..];
    ValueConcat(s[..k], s[k..], base);
  }

  lemma Distribute(x: int, p: int, q: int, rest: int)
    ensures x * (p * q) + rest * q == (x * p + rest) * q
  {
  }

  lemma MulAssoc(x: int, y: int, z: int)
    ensures x * (y * z) == (x * y) * z
  {
  }

  lemma {:induction false} PowAdd(base: nat, m: nat, n: nat)
    ensures Pow(base, m + n) == Pow(base, m) * Pow(base, n)
  {
    if m > 0 {
      PowAdd(base, m - 1, n);
      MulAssoc(base, Pow(base, m - 1), Pow(base, n));
    }
  }

  /** For digit sequences of one length, ordinal comparison is comparison of values. */
  lemma {:induction false} LexCompareIsValueOrder(s: seq<int>, t: seq<int>, base: nat)
    requires |s| == |t| && IsDigits(s, base) && IsDigits(t, base)
    ensures LexCompare(s, t) == Sign(Value(s, base) - Value(t, base))
  {
    if |s| > 0 {
      var p := Pow(base, |s| - 1);
      var vs, vt := Value(s[1..], base), Value(t[1..], base);
      assert Value(s, base) == s[0] * p + vs;
      assert Value(t, base) == t[0] * p + vt;
      ValueBounds(s[1..], base);
      ValueBounds(t[1..], base);
      if s[0] < t[0] {
        StrictStep(s[0], t[0], p, vs, vt);
      } else if s[0] > t[0] {
        StrictStep(t[0], s[0], p, vt, vs);
      } else {
        LexCompareIsValueOrder(s[1..], t[1..], base);
      }
    }
  }

  /** A smaller leading digit gives a smaller value, whatever follows it. */
  lemma StrictStep(x: int, y: int, p: nat, vx: int, vy: int)
    requires x < y && 0 <= vx < p && 0 <= vy
    ensures x * p + vx < y * p + vy
  {
    MulLeq(x + 1, y, p);
  }

  /** A common prefix does not take part in the comparison. */
  lemma {:induction false} LexCompareCommonPrefix(p: seq<int>, s: seq<int>, t: seq<int>)
    ensures LexCompare(p + s, p + t) == LexCompare(s, t)
  {
    if |p| > 0 {
      assert (p + s)[1..] == p[1..] + s;
      assert (p + t)[1..] == p[1..] + t;
      LexCompareCommonPrefix(p[1..], s, t);
    } else {
      assert p + s == s && p + t == t;
    }
  }

  /** Prefixes of one length that already differ decide the comparison. */
  lemma {:induction false} LexCompareDecidedByPrefix(p: seq<int>, q: seq<int>, s: seq<int>, t: seq<int>)
    requires |p| == |q| && p != q
    ensures LexCompare(p + s, q + t) == LexCompare(p, q)
  {
    if p[0] == q[0] {
      assert (p + s)[1..] == p[1..] + s;
      assert (q + t)[1..] == q[1..] + t;
      assert p[1..] != q[1..] by { assert p == [p[0]] + p[1..] && q == [q[0]] + q[1..]; }
      LexCompareDecidedByPrefix(p[1..], q[1..], s, t);
    }
  }

  /** The comparison is zero only on equal sequences. */
  lemma {:induction false} LexCompareZero(s: seq<int>, t: seq<int>)
    ensures LexCompare(s, t) == 0 <==> s == t
  {
    if |s| > 0 && |t| > 0 && s[0] == t[0] {
      LexCompareZero(s[1..], t[1..]);
      assert s == [s[0]] + s[1..] && t == [t[0]] + t[1..];
    }
  }

  /** Swapping the operands negates the comparison. */
  lemma {:induction false} LexCompareAntisymmetric(s: seq<int>, t: seq<int>)
    ensures LexCompare(t, s) == -LexCompare(s, t)
  {
    if |s| > 0 && |t| > 0 && s[0] == t[0] {
      LexCompareAntisymmetric(s[1..], t[1..]);
    }
  }

  /** Replacing the entries of both operands by entries that compare the same
      way, position by position, keeps the comparison. */
  lemma {:induction false} LexCompareSameOrder(s: seq<int>, t: seq<int>, fs: seq<int>, ft: seq<int>)
    requires |fs| == |s| && |ft| == |t|
    requires forall i :: 0 <= i < |s| && i < |t| ==> Sign(fs[i] - ft[i]) == Sign(s[i] - t[i])
    ensures LexCompare(fs, ft) == LexCompare(s, t)
  {
    if |s| > 0 && |t| > 0 {
      assert Sign(fs[0] - ft[0]) == Sign(s[0] - t[0]);
      if s[0] == t[0] {
        LexCompareSameOrder(s[1..], t[1..], fs[1..], ft[1..]);
      }
    }
  }
}
