/** Sequence-level definitions of the statistics a window of samples has:
    sums, squared deviations, minimum and maximum, and the values held by a
    buffer whose slots may still be empty. */
module WindowMath {

  /** A buffer slot: `None` is a slot that has never been written. */
  datatype Option<T> = None | Some(value: T)

  function Min(a: int, b: int): int { if a < b then a else b }

  function Max(a: int, b: int): int { if a < b then b else a }

  /** Sum of `f` over the first `k` elements of `s`, accumulated from the
      first element on. */
  function SumTo(s: seq<real>, k: nat, f: real -> real): real
    requires k <= |s|
  {
    if k == 0 then 0.0 else SumTo(s, k - 1, f) + f(s[k - 1])
  }

  /** Sum of `f` over `s`, accumulated from the first element to the last. */
  function SumOf(s: seq<real>, f: real -> real): real
  {
    SumTo(s, |s|, f)
  }

  function Sum(s: seq<real>): real { SumOf(s, z => z) }

  function SumSq(s: seq<real>): real { SumOf(s, z => z * z) }

  /** Sum of the squared deviations of `s` from `c` (M2 when `c` is the mean). */
  function SqDev(s: seq<real>, c: real): real { SumOf(s, z => (z - c) * (z - c)) }

  function Mean(s: seq<real>): real
    requires |s| > 0
  {
    Sum(s) / |s| as real
  }

  /** The mean of `s`, or 0 for the empty sequence. */
  function MeanOrZero(s: seq<real>): real
  {
    Sum(s) / Max(|s|, 1) as real
  }

  /** The smallest element of a non-empty sequence. */
  function SeqMin(s: seq<real>): (m: real)
    requires |s| > 0
    ensures m in s
    ensures forall z :: z in s ==> m <= z
  {
    if |s| == 1 then s[0]
    else
      var rest := SeqMin(s[..|s| - 1]);
      assert forall z :: z in s ==> z in s[..|s| - 1] || z == s[|s| - 1];
      if s[|s| - 1] < rest then s[|s| - 1] else rest
  }

  /** The largest element of a non-empty sequence. */
  function SeqMax(s: seq<real>): (m: real)
    requires |s| > 0
    ensures m in s
    ensures forall z :: z in s ==> z <= m
  {
    if |s| == 1 then s[0]
    else
      var rest := SeqMax(s[..|s| - 1]);
      assert forall z :: z in s ==> z in s[..|s| - 1] || z == s[|s| - 1];
      if s[|s| - 1] > rest then s[|s| - 1] else rest
  }

  /** The values of the written slots of a buffer, in slot order (what a
      `forEach` over a sparse array visits). */
  function Filled(s: seq<Option<real>>): seq<real>
  {
    if s == [] then []
    else Filled(s[..|s| - 1]) + (if s[|s| - 1].Some? then [s[|s| - 1].value] else [])
  }

  /** One more slot read: its value joins the written values if it was written. */
  lemma FilledSnoc(s: seq<Option<real>>, i: nat)
    requires i < |s|
    ensures Filled(s[..i + 1]) == Filled(s[..i]) + (if s[i].Some? then [s[i].value] else [])
  {
    assert s[..i + 1][..i] == s[..i];
  }

  /** A partial sum reads only the elements it covers. */
  lemma {:induction false} SumToPrefix(a: seq<real>, b: seq<real>, k: nat, f: real -> real)
    requires k <= |a| && k <= |b|
    requires forall i :: 0 <= i < k ==> a[i] == b[i]
    ensures SumTo(a, k, f) == SumTo(b, k, f)
  {
    if k > 0 {
      SumToPrefix(a, b, k - 1, f);
    }
  }

  lemma SumOfSnoc(s: seq<real>, x: real, f: real -> real)
    ensures SumOf(s + [x], f) == SumOf(s, f) + f(x)
  {
    SumToPrefix(s + [x], s, |s|, f);
  }

  /** The sum over a non-empty sequence is the sum over all but its last
      element, plus the last. */
  lemma SumOfLast(s: seq<real>, f: real -> real)
    requires |s| > 0
    ensures SumOf(s, f) == SumOf(s[..|s| - 1], f) + f(s[|s| - 1])
  {
    SumToPrefix(s, s[..|s| - 1], |s| - 1, f);
  }

  lemma SumSnoc(s: seq<real>, x: real)
    ensures Sum(s + [x]) == Sum(s) + x
  {
    SumOfSnoc(s, x, z => z);
  }

  lemma SqDevSnoc(s: seq<real>, x: real, c: real)
    ensures SqDev(s + [x], c) == SqDev(s, c) + (x - c) * (x - c)
  {
    SumOfSnoc(s, x, z => (z - c) * (z - c));
  }

  lemma {:induction false} SumOfConcat(a: seq<real>, b: seq<real>, f: real -> real)
    ensures SumOf(a + b, f) == SumOf(a, f) + SumOf(b, f)
    decreases |b|
  {
    if b == [] {
      assert a + b == a;
    } else {
      var init, x := b[..|b| - 1], b[|b| - 1];
      assert a + b == (a + init) + [x] && b == init + [x];
      SumOfConcat(a, init, f);
      SumOfSnoc(a + init, x, f);
      SumOfSnoc(init, x, f);
    }
  }

  /** A buffer whose first `|r|` slots hold `r` and whose other slots are
      empty has exactly `r` as its written values. */
  lemma {:induction false} FilledPrefix(s: seq<Option<real>>, r: seq<real>)
    requires |r| <= |s|
    requires forall j :: 0 <= j < |r| ==> s[j] == Some(r[j])
    requires forall j :: |r| <= j < |s| ==> s[j] == None
    ensures Filled(s) == r
    decreases |s|
  {
    if s == [] {
    } else if |r| == |s| {
      FilledPrefix(s[..|s| - 1], r[..|r| - 1]);
      assert r == r[..|r| - 1] + [r[|r| - 1]];
    } else {
      FilledPrefix(s[..|s| - 1], r);
    }
  }

  /** Every written value lies within `[lo, hi]` when every written slot does. */
  lemma {:induction false} FilledWithin(s: seq<Option<real>>, lo: real, hi: real)
    requires forall j :: 0 <= j < |s| && s[j].Some? ==> lo <= s[j].value <= hi
    ensures forall z :: z in Filled(s) ==> lo <= z <= hi
    decreases |s|
  {
    if s != [] {
      FilledWithin(s[..|s| - 1], lo, hi);
    }
  }

  /** The value of a written slot is one of the written values. */
  lemma {:induction false} FilledContains(s: seq<Option<real>>, j: nat)
    requires j < |s| && s[j].Some?
    ensures s[j].value in Filled(s)
    decreases |s|
  {
    if j < |s| - 1 {
      FilledContains(s[..|s| - 1], j);
    }
  }

  /** M2 about any centre expands into the raw power sums. */
  lemma {:induction false} SqDevExpand(s: seq<real>, c: real)
    ensures SqDev(s, c) == SumSq(s) - 2.0 * c * Sum(s) + |s| as real * c * c
    decreases |s|
  {
    if s != [] {
      var init, x := s[..|s| - 1], s[|s| - 1];
      SqDevExpand(init, c);
      SumOfLast(s, z => (z - c) * (z - c));
      SumOfLast(s, z => z);
      SumOfLast(s, z => z * z);
    }
  }

  lemma {:induction false} SqDevNonNegative(s: seq<real>, c: real)
    ensures SqDev(s, c) >= 0.0
    decreases |s|
  {
    if s != [] {
      var x := s[|s| - 1];
      SqDevNonNegative(s[..|s| - 1], c);
      SumOfLast(s, z => (z - c) * (z - c));
      assert (x - c) * (x - c) >= 0.0 by {
        if x - c < 0.0 { assert (x - c) * (x - c) == (c - x) * (c - x); }
      }
    }
  }

  /** A sum is bracketed by the count times the smallest and largest element. */
  lemma {:induction false} SumBetween(s: seq<real>, lo: real, hi: real)
    requires forall z :: z in s ==> lo <= z <= hi
    ensures |s| as real * lo <= Sum(s) <= |s| as real * hi
    decreases |s|
  {
    if s != [] {
      var init := s[..|s| - 1];
      assert forall z :: z in init ==> z in s;
      SumBetween(init, lo, hi);
      SumOfLast(s, z => z);
      assert s[|s| - 1] in s;
    }
  }
}
