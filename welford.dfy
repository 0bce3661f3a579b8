/** The moment accumulator: Welford's update of the running mean and of M2
    (the sum of squared deviations from the mean) when one sample leaves the
    window and when one enters it. */
module Welford {
  import opened WindowMath

  /** Taking `x` out of `v` leaves `w`, and M2 of `w` about its own mean is
      M2 of `v` less `(x - mean(v)) * (x - mean(w))`. The mean of what is
      left is taken over its `|w|` remaining samples (0 when none remain). */
  lemma RemoveExact(v: seq<real>, w: seq<real>, x: real)
    requires |v| == |w| + 1
    requires Sum(v) == Sum(w) + x && SumSq(v) == SumSq(w) + x * x
    ensures SqDev(v, Mean(v)) - (x - Mean(v)) * (x - MeanOrZero(w)) == SqDev(w, MeanOrZero(w))
  {
    SqDevExpand(v, Mean(v));
    SqDevExpand(w, MeanOrZero(w));
    if |w| == 0 {
      assert Sum(w) == 0.0 && SumSq(w) == 0.0;
    }
    RemoveAlgebra(SqDev(v, Mean(v)), SumSq(v), Sum(v), |v| as real, SqDev(w, MeanOrZero(w)), SumSq(w), Sum(w), |w| as real,
                  Max(|w|, 1) as real, x, Mean(v), MeanOrZero(w));
  }

  /** `RemoveExact` on the power sums: `qv`, `sv` and `nv` are the sum of
      squares, the sum and the count of the samples before `x` leaves, with
      mean `m`; `qw`, `sw` and `nw` those after, with mean `d` (taken over
      `dn`, which is `nw` or, when nothing is left, 1); `mv` and `mw` are
      M2 before and after, in their expansion into the power sums. */
  lemma RemoveAlgebra(mv: real, qv: real, sv: real, nv: real, mw: real, qw: real, sw: real, nw: real, dn: real,
                      x: real, m: real, d: real)
    requires mv == qv - 2.0 * m * sv + nv * m * m && mw == qw - 2.0 * d * sw + nw * d * d
    requires nw >= 0.0 && nv == nw + 1.0 && dn == (if nw > 0.0 then nw else 1.0)
    requires sv == sw + x && qv == qw + x * x
    requires nw == 0.0 ==> sw == 0.0 && qw == 0.0
    requires m == sv / nv && d == sw / dn
    ensures mv - (x - m) * (x - d) == mw
  {
  }

  /** Adding `y` to `w` gives `v`, and M2 of `v` about its mean `e` is M2
      of `w` plus `(y - d) * (y - e)`, where `d` is the mean of `w` (any
      value when `w` is empty). */
  lemma InsertExact(w: seq<real>, v: seq<real>, d: real, e: real, y: real)
    requires |v| == |w| + 1
    requires Sum(v) == Sum(w) + y && SumSq(v) == SumSq(w) + y * y
    requires |w| > 0 ==> d == Mean(w)
    requires e == Mean(v)
    ensures SqDev(w, d) + (y - d) * (y - e) == SqDev(v, e)
  {
    SqDevExpand(v, e);
    SqDevExpand(w, d);
    if |w| == 0 {
      assert Sum(w) == 0.0 && SumSq(w) == 0.0;
    }
    InsertAlgebra(SqDev(w, d), SumSq(w), Sum(w), |w| as real, SqDev(v, e), SumSq(v), Sum(v), |v| as real, y, d, e);
  }

  /** `InsertExact` on the power sums: `qw`, `sw` and `nw` are the sum of
      squares, the sum and the count before `y` joins, with mean `d` when
      `nw > 0`; `qv`, `sv` and `nv` those after, with mean `e`; `mw` and
      `mv` are M2 before and after, in their expansion into the power sums. */
  lemma InsertAlgebra(mw: real, qw: real, sw: real, nw: real, mv: real, qv: real, sv: real, nv: real,
                      y: real, d: real, e: real)
    requires mw == qw - 2.0 * d * sw + nw * d * d && mv == qv - 2.0 * e * sv + nv * e * e
    requires nw >= 0.0 && nv == nw + 1.0
    requires sv == sw + y && qv == qw + y * y
    requires nw == 0.0 ==> sw == 0.0 && qw == 0.0
    requires nw > 0.0 ==> d == sw / nw
    requires e == sv / nv
    ensures mw + (y - d) * (y - e) == mv
  {
  }

  /** The accumulator fields `sum`, `mean` and `q` (M2). */
  datatype Moments = Moments(sum: real, mean: real, q: real)

  /** The accumulator holds the sum, the mean and M2 of `w` (the mean is
      free when `w` is empty). */
  ghost predicate Exact(w: seq<real>, acc: Moments)
  {
    acc.sum == Sum(w) && acc.q == SqDev(w, acc.mean) && (|w| > 0 ==> acc.mean == Mean(w))
  }

  /** The removal step on exact arithmetic: with `sum`, `mean` and `q`
      computed as `append` computes them from an accumulator exact for `all`,
      the new accumulator is exact for `rest`, `all` without `p`. */
  lemma WithdrawExact(all: seq<real>, rest: seq<real>, p: real, acc: Moments, n: nat, sum: real, mean: real, q: real)
    requires Exact(all, acc) && n == |all| == |rest| + 1
    requires Sum(all) == Sum(rest) + p && SumSq(all) == SumSq(rest) + p * p
    requires sum == acc.sum - p && mean == sum / Max(n - 1, 1) as real && q == acc.q - (p - acc.mean) * (p - mean)
    ensures Exact(rest, Moments(sum, mean, q)) && q >= 0.0
  {
    assert Max(n - 1, 1) == Max(|rest|, 1);
    assert sum == Sum(rest);
    assert mean == MeanOrZero(rest);
    RemoveExact(all, rest, p);
    SqDevNonNegative(rest, mean);
  }

  /** The insertion step on exact arithmetic: with `sum`, `mean` and `q`
      computed as `append` computes them from an accumulator exact for
      `rest`, the new accumulator is exact for `all`, `rest` and `x`. */
  lemma DepositExact(rest: seq<real>, all: seq<real>, x: real, acc: Moments, n: nat, sum: real, mean: real, q: real)
    requires Exact(rest, acc) && n == |all| == |rest| + 1
    requires Sum(all) == Sum(rest) + x && SumSq(all) == SumSq(rest) + x * x
    requires sum == acc.sum + x && mean == sum / n as real && q == acc.q + (x - acc.mean) * (x - mean)
    ensures Exact(all, Moments(sum, mean, q)) && q >= 0.0
  {
    assert mean == Mean(all);
    InsertExact(rest, all, acc.mean, mean, x);
    SqDevNonNegative(all, mean);
  }

  /** `append`'s removal step (lines 93-100) for a sample `p` leaving an
      accumulator over `n` samples. The remaining mean is taken over the
      `n - 1` samples left (over 1 when none is left), where the source
      divides by `n`; M2 is clamped at zero. From an accumulator exact for
      `all`, with `rest` being `all` without `p`, the result is exact for
      `rest`, and the clamp never fires. */
  method Withdraw(acc: Moments, n: nat, p: real, ghost all: seq<real>, ghost rest: seq<real>) returns (r: Moments)
    ensures r.sum == acc.sum - p && r.q >= 0.0
    ensures Exact(all, acc) && n == |all| == |rest| + 1
      && Sum(all) == Sum(rest) + p && SumSq(all) == SumSq(rest) + p * p
      ==> Exact(rest, r)
  {
    var sum := acc.sum - p;
    var mean := sum / Max(n - 1, 1) as real;
    var q := acc.q - (p - acc.mean) * (p - mean);
    ghost var unclamped := q;
    if q < 0.0 {
      q := 0.0;
    }
    r := Moments(sum, mean, q);
    if Exact(all, acc) && n == |all| == |rest| + 1 && Sum(all) == Sum(rest) + p && SumSq(all) == SumSq(rest) + p * p {
      WithdrawExact(all, rest, p, acc, n, sum, mean, unclamped);
    }
  }

  /** `append`'s insertion step (lines 119-126) for a sample `x` joining so
      that the accumulator covers `n` samples; M2 is clamped at zero. From an
      accumulator exact for `rest`, with `all` being `rest` and `x`, the
      result is exact for `all`, and the clamp never fires. */
  method Deposit(acc: Moments, n: nat, x: real, ghost rest: seq<real>, ghost all: seq<real>) returns (r: Moments)
    requires n > 0
    ensures r.sum == acc.sum + x && r.q >= 0.0
    ensures Exact(rest, acc) && n == |all| == |rest| + 1
      && Sum(all) == Sum(rest) + x && SumSq(all) == SumSq(rest) + x * x
      ==> Exact(all, r)
  {
    var sum := acc.sum + x;
    var mean := sum / n as real;
    var q := acc.q + (x - acc.mean) * (x - mean);
    ghost var unclamped := q;
    if q < 0.0 {
      q := 0.0;
    }
    r := Moments(sum, mean, q);
    if Exact(rest, acc) && n == |all| == |rest| + 1 && Sum(all) == Sum(rest) + x && SumSq(all) == SumSq(rest) + x * x {
      DepositExact(rest, all, x, acc, n, sum, mean, unclamped);
    }
  }

  /** One overwriting `append` on the accumulator as the source writes
      it: the removal step divides the remaining sum by the unchanged count
      `n` rather than by the `n - 1` samples that remain. Each step clamps M2
      at zero. */
  function ReplaceAsWritten(acc: Moments, n: nat, prev: real, next: real): (r: Moments)
    requires n > 0
    ensures r.q >= 0.0
    ensures r.sum == acc.sum - prev + next
  {
    var sum1 := acc.sum - prev;
    var mean1 := sum1 / n as real;
    var q1 := acc.q - (prev - acc.mean) * (prev - mean1);
    var q1c := if q1 < 0.0 then 0.0 else q1;
    var sum2 := sum1 + next;
    var mean2 := sum2 / n as real;
    var q2 := q1c + (next - mean1) * (next - mean2);
    Moments(sum2, mean2, if q2 < 0.0 then 0.0 else q2)
  }

  /** Capacity 2 after appending 1, 0 and 3 holds the window [0, 3]: the
      third append overwrites 1 and reaches the accumulator (sum 3, mean
      1.5, M2 4.5), which is exact. Appending 5 evicts 0; the as-written
      update then reports M2 = 5.75, but the window [3, 5] has M2 = 2
      (variance 2.875 instead of 1). */
  lemma ReplaceAsWrittenDrifts()
    ensures var before := Moments(3.0, 1.5, 4.5);
      ReplaceAsWritten(Moments(1.0, 0.5, 0.5), 2, 1.0, 3.0) == before
      && before == Moments(Sum([0.0, 3.0]), Mean([0.0, 3.0]), SqDev([0.0, 3.0], Mean([0.0, 3.0])))
      && ReplaceAsWritten(before, 2, 0.0, 5.0) == Moments(8.0, 4.0, 5.75)
      && SqDev([3.0, 5.0], Mean([3.0, 5.0])) == 2.0
  {
  }

  /** The error of the as-written overwrite, in general. Overwriting `p`
      by `y` in an accumulator over `n >= 2` samples whose sum is `S` and
      whose mean is `S / n`, the source's two steps give, before either
      clamp, M2 `q2`; the corrected steps (`Withdraw`, then `Deposit`),
      which keep an exact accumulator exact, give `q2'`. The two differ by
      `(S - p) * (y - p) / n^2`, so the unclamped as-written M2 equals
      the exact one only when the samples kept sum to zero or `y == p`.
      The clamps can hide the difference: overwriting 3 by 1 in the window
      [3, 1] clamps the removal's M2 of -0.5 to 0 and ends on the exact 0
      of [1, 1] (`ClampHidesGap`). */
  lemma ReplaceAsWrittenGap(acc: Moments, n: nat, p: real, y: real)
    requires n >= 2 && acc.mean == acc.sum / n as real
    ensures var a, c, b := (acc.sum - p) / n as real, (acc.sum - p) / (n - 1) as real, (acc.sum - p + y) / n as real;
      var q2 := acc.q - (p - acc.mean) * (p - a) + (y - a) * (y - b);
      var q2' := acc.q - (p - acc.mean) * (p - c) + (y - c) * (y - b);
      q2 == q2' + (acc.sum - p) * (y - p) / (n as real * n as real)
  {
  }

  /** The clamps can make the as-written overwrite exact where the gap is
      not zero: capacity 2 over [3, 1] (sum 4, mean 2, M2 2), appending 1
      overwrites 3; the removal's M2 of -0.5 is clamped to 0, the insertion
      adds 0, and the result is the exact accumulator of [1, 1], though
      `(S - p) * (y - p) = -2`. */
  lemma ClampHidesGap()
    ensures ReplaceAsWritten(Moments(4.0, 2.0, 2.0), 2, 3.0, 1.0) == Moments(2.0, 1.0, 0.0)
    ensures Exact([3.0, 1.0], Moments(4.0, 2.0, 2.0)) && Exact([1.0, 1.0], Moments(2.0, 1.0, 0.0))
  {
  }
}
