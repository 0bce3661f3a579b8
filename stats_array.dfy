/** The rolling statistics engine: a fixed-size circular buffer of the most
    recent samples, with a running sum, mean and M2, a tracked minimum and
    maximum, and a countdown to a periodic full recompute. */
module RollingStats {
  import opened WindowMath
  import opened Ring
  import opened Welford
  import opened Rescan

  /** The least number of appends between two forced recomputes. */
  const RecomputeCount: nat := 25000

  /** The countdown's starting value for a buffer of `size` slots. */
  function RecomputeInterval(size: nat): (r: nat)
    ensures r >= 2 * size && r >= RecomputeCount
    ensures r == 2 * size || r == RecomputeCount
  {
    Max(2 * size, RecomputeCount)
  }

  /** A statistics snapshot. The standard deviation (the square root of the
      variance) is not part of the model. */
  datatype Stats = Stats(n: nat, min: real, max: real, sum: real, mean: real, variance: real)

  /** The statistics of a window defined from its samples alone; no data for
      an empty window. */
  function WindowStats(w: seq<real>): Option<Stats>
  {
    if |w| == 0 then None
    else Some(Stats(|w|, SeqMin(w), SeqMax(w), Sum(w), Mean(w), SqDev(w, Mean(w)) / |w| as real))
  }

  /** A snapshot reports no data exactly for the empty window; otherwise its
      variance is never negative and its mean lies between its minimum and
      its maximum. */
  lemma WindowStatsSound(w: seq<real>)
    ensures WindowStats(w).None? <==> w == []
    ensures w != [] ==> var s := WindowStats(w).value;
      s.n == |w| && s.variance >= 0.0 && s.min <= s.mean <= s.max
  {
    if w != [] {
      var k, m := |w| as real, Mean(w);
      SqDevNonNegative(w, m);
      SumBetween(w, SeqMin(w), SeqMax(w));
      QuotientBetween(k, SeqMin(w), Sum(w), SeqMax(w));
      QuotientBetween(k, 0.0, SqDev(w, m), SqDev(w, m));
    }
  }

  lemma QuotientBetween(k: real, lo: real, s: real, hi: real)
    requires k > 0.0 && k * lo <= s <= k * hi
    ensures lo <= s / k <= hi
  {
  }

  /** Rotating a window does not change any sum over its samples. */
  lemma RotationKeepsSum(w: seq<real>, a: nat, f: real -> real)
    requires a <= |w|
    ensures SumOf(w[a..] + w[..a], f) == SumOf(w, f)
  {
    SumOfConcat(w[a..], w[..a], f);
    SumOfConcat(w[..a], w[a..], f);
    assert w[..a] + w[a..] == w;
  }

  /** Dropping the oldest sample of a window takes it out of the sum and
      out of the sum of squares. */
  lemma DropOldest(w: seq<real>)
    requires |w| > 0
    ensures Sum(w) == Sum(w[1..]) + w[0] && SumSq(w) == SumSq(w[1..]) + w[0] * w[0]
  {
    assert w == [w[0]] + w[1..] && [] + [w[0]] == [w[0]];
    SumOfConcat([w[0]], w[1..], z => z);
    SumOfConcat([w[0]], w[1..], z => z * z);
    SumOfSnoc([], w[0], z => z);
    SumOfSnoc([], w[0], z => z * z);
  }

  /** A new sample at the end of a window adds itself to the sum and its
      square to the sum of squares. */
  lemma AddNewest(w: seq<real>, x: real)
    ensures Sum(w + [x]) == Sum(w) + x && SumSq(w + [x]) == SumSq(w) + x * x
  {
    SumOfSnoc(w, x, z => z);
    SumOfSnoc(w, x, z => z * z);
  }

  /** The window after one more sample `x`, for a capacity of `size`: it
      gains `x` and, once it already holds `size` samples, drops its
      oldest. */
  function Slide(w: seq<real>, x: real, size: nat): seq<real>
    requires 1 <= size
  {
    if |w| < size then w + [x] else w[1..] + [x]
  }

  /** The window after appending every sample of `h`, oldest first, to an
      empty engine of capacity `size`. */
  function Replay(h: seq<real>, size: nat): (w: seq<real>)
    requires 1 <= size
    ensures |w| == Min(|h|, size)
  {
    if h == [] then [] else Slide(Replay(h[..|h| - 1], size), h[|h| - 1], size)
  }

  /** Sliding keeps exactly the last `size` samples appended: the window is
      the suffix of the history of length `Min(|h|, size)`, its `i`-th
      sample being the history's `|h| - Min(|h|, size) + i`-th. */
  lemma {:induction false} ReplayIsSuffix(h: seq<real>, size: nat)
    requires 1 <= size
    ensures forall i :: 0 <= i < Min(|h|, size) ==> Replay(h, size)[i] == h[|h| - Min(|h|, size) + i]
  {
    if h != [] {
      var p, x := h[..|h| - 1], h[|h| - 1];
      ReplayIsSuffix(p, size);
      var r, w := Replay(p, size), Replay(h, size);
      forall i | 0 <= i < Min(|h|, size)
        ensures w[i] == h[|h| - Min(|h|, size) + i]
      {
        if |r| < size {
          assert w == r + [x];
          if i < |r| {
            assert w[i] == r[i] == p[|p| - |r| + i];
          }
        } else {
          assert w == r[1..] + [x];
          if i < |w| - 1 {
            assert w[i] == r[i + 1] == p[|p| - |r| + i + 1];
          }
        }
      }
    }
  }

  /** The replayed window is the suffix of the history of length
      `Min(|h|, size)`, as a whole sequence. */
  lemma ReplayKeepsLast(h: seq<real>, size: nat)
    requires 1 <= size
    ensures Replay(h, size) == h[|h| - Min(|h|, size)..]
  {
    ReplayIsSuffix(h, size);
  }

  /** A buffer of `|slots|` slots with write cursor `cursor` holds the window
      `w`: its `k`-th oldest sample at `SlotOf(k)`. While the window is
      filling, the cursor equals its length and exactly the slots from the
      cursor on are empty. */
  ghost predicate Arranged(slots: seq<Option<real>>, w: seq<real>, cursor: nat)
  {
    1 <= |slots| && cursor < |slots| && |w| <= |slots|
    && (|w| < |slots| ==> cursor == |w|)
    && (forall i :: 0 <= i < |slots| ==> (slots[i].None? <==> |w| < |slots| && |w| <= i))
    && (forall k {:trigger SlotOf(|slots|, cursor, |w|, k)} :: 0 <= k < |w| ==> slots[SlotOf(|slots|, cursor, |w|, k)] == Some(w[k]))
  }

  /** Writing the next sample `x` at the cursor and advancing the cursor
      keeps the arrangement of the slid window: the newest sample sits at the
      old cursor, and a full window's oldest sample, which sat there, is
      gone. */
  lemma ArrangedAfterWrite(slots: seq<Option<real>>, w: seq<real>, cursor: nat, x: real,
                           w': seq<real>, cursor': nat)
    requires Arranged(slots, w, cursor)
    requires w' == Slide(w, x, |slots|)
    requires cursor' == if cursor + 1 == |slots| then 0 else cursor + 1
    ensures Arranged(slots[cursor := Some(x)], w', cursor')
  {
    var size, n := |slots|, |w|;
    var slots' := slots[cursor := Some(x)];
    forall k | 0 <= k < |w'|
      ensures slots'[SlotOf(size, cursor', |w'|, k)] == Some(w'[k])
    {
      SlotAfterAppend(size, cursor, n, k);
    }
  }

  /** The slot at the cursor is written exactly when the window is full,
      and then it holds the oldest sample of the window. */
  lemma OldestAtCursor(slots: seq<Option<real>>, w: seq<real>, cursor: nat)
    requires Arranged(slots, w, cursor)
    ensures slots[cursor].Some? <==> |w| == |slots|
    ensures slots[cursor].Some? ==> slots[cursor] == Some(w[0])
  {
    if |w| == |slots| {
      assert SlotOf(|slots|, cursor, |w|, 0) == cursor;
    }
  }

  /** The written slots, in slot order, are the window rotated so that it
      starts at the oldest sample stored at or after slot 0. */
  lemma FilledIsRotation(slots: seq<Option<real>>, w: seq<real>, cursor: nat) returns (a: nat)
    requires Arranged(slots, w, cursor)
    ensures a <= |w|
    ensures Filled(slots) == w[a..] + w[..a]
  {
    var size, n := |slots|, |w|;
    if n < size {
      a := 0;
      forall j | 0 <= j < n ensures slots[j] == Some(w[j]) {
        assert SlotOf(size, cursor, n, j) == j;
      }
      FilledPrefix(slots, w);
      assert w[0..] + w[..0] == w;
    } else {
      a := size - cursor;
      var r := w[a..] + w[..a];
      forall j | 0 <= j < size ensures slots[j] == Some(r[j]) {
        var k := if j < cursor then a + j else j - cursor;
        assert SlotOf(size, cursor, n, k) == j;
      }
      FilledPrefix(slots, r);
    }
  }

  /** The written slots of an arranged buffer have the window's count, sum,
      M2 about any centre `c`, and elements. */
  lemma FilledLikeWindow(slots: seq<Option<real>>, w: seq<real>, cursor: nat, c: real)
    requires Arranged(slots, w, cursor)
    ensures |Filled(slots)| == |w|
    ensures Sum(Filled(slots)) == Sum(w) && SqDev(Filled(slots), c) == SqDev(w, c)
    ensures forall z :: z in Filled(slots) <==> z in w
  {
    var a := FilledIsRotation(slots, w, cursor);
    RotationKeepsSum(w, a, z => z);
    RotationKeepsSum(w, a, z => (z - c) * (z - c));
    assert w == w[..a] + w[a..];
  }

  /** `m` sits in slot `at` of `slots` and no written slot is smaller. */
  ghost predicate IsMin(slots: seq<Option<real>>, m: real, at: Option<nat>)
  {
    at.Some? && at.value < |slots| && slots[at.value] == Some(m)
    && forall i :: 0 <= i < |slots| && slots[i].Some? ==> m <= slots[i].value
  }

  /** `m` sits in slot `at` of `slots` and no written slot is larger. */
  ghost predicate IsMax(slots: seq<Option<real>>, m: real, at: Option<nat>)
  {
    at.Some? && at.value < |slots| && slots[at.value] == Some(m)
    && forall i :: 0 <= i < |slots| && slots[i].Some? ==> slots[i].value <= m
  }

  /** Slot `at` is where a backward walk from `cursor` first meets the
      minimum `m`: every slot visited before it holds a larger value. Since
      the walk is its own inverse, `Back(|slots|, cursor, at)` is the step
      at which `at` is visited. */
  ghost predicate FirstMinBack(slots: seq<Option<real>>, cursor: nat, m: real, at: Option<nat>)
  {
    cursor < |slots| && at.Some? && at.value < |slots|
    && forall t :: 0 <= t < Back(|slots|, cursor, at.value) ==>
         slots[Back(|slots|, cursor, t)].Some? && m < slots[Back(|slots|, cursor, t)].value
  }

  /** Slot `at` is where a backward walk from `cursor` first meets the
      maximum `m`: every slot visited before it holds a smaller value. */
  ghost predicate FirstMaxBack(slots: seq<Option<real>>, cursor: nat, m: real, at: Option<nat>)
  {
    cursor < |slots| && at.Some? && at.value < |slots|
    && forall t :: 0 <= t < Back(|slots|, cursor, at.value) ==>
         slots[Back(|slots|, cursor, t)].Some? && slots[Back(|slots|, cursor, t)].value < m
  }

  /** The source's minimum rescan starts from the sentinel `max + 1`, with
      `max` not yet updated for the new sample. With two slots or more this
      is harmless: the first slot visited, the one before the cursor, still
      holds a sample no larger than the old maximum, so it beats the
      sentinel and the scan runs on as one that starts from the first
      visited value, which is how `ComputeMin` starts. It therefore reports
      a slot, holding the minimum at its first position in visiting order.
      Only a single-slot buffer, whose one visited slot holds the new sample,
      exposes the sentinel (`RescanMinAsWrittenMissesSingleSlot`). */
  lemma SentinelHarmlessFromTwoSlots(slots: seq<Option<real>>, cursor: nat, oldMax: real, vals: seq<real>)
    requires 2 <= |slots| == |vals| && cursor < |slots|
    requires forall t :: 0 <= t < |vals| ==> slots[Back(|slots|, cursor, t)] == Some(vals[t])
    requires forall i :: 0 <= i < |slots| && i != cursor && slots[i].Some? ==> slots[i].value <= oldMax
    ensures RescanMinAsWritten(vals, oldMax + 1.0) == ScanMinFrom(vals, 1, vals[0], Some(0))
    ensures RescanMinAsWritten(vals, oldMax + 1.0).1.Some?
  {
  }

  class StatsArray {
    /** The capacity of the window. */
    const size: nat
    /** The slots; `None` is a slot never written (the source's `undefined`). */
    const buffer: array<Option<real>>
    /** The write cursor: the slot the next sample goes to. */
    var index: nat
    /** The number of written slots. */
    var n: nat
    /** M2, the sum of squared deviations from the mean. */
    var q: real
    var min: real
    var minIndex: Option<nat>
    var max: real
    var maxIndex: Option<nat>
    var sum: real
    var mean: real
    /** Appends left before the next forced recompute. */
    var nextCompute: int
    /** The samples the window holds, oldest first. */
    ghost var window: seq<real>
    /** Every sample appended since construction, oldest first. */
    ghost var history: seq<real>

    /** The buffer holds the window as `Arranged` lays it out, for the
        current write cursor, and `n` counts it. */
    ghost predicate Layout()
      reads this`index, this`window, this`n, buffer
    {
      1 <= size && buffer.Length == size && n == |window| && Arranged(buffer[..], window, index)
    }

    /** `sum`, `mean` and `q` are exactly the sum, the mean and M2 of the
        window. */
    ghost predicate MomentsExact()
      reads this`sum, this`mean, this`q, this`window
    {
      Exact(window, Moments(sum, mean, q))
    }

    /** With data, `min` and `max` bound every written slot and sit in the
        slots `minIndex` and `maxIndex`; with none, neither slot is set. */
    ghost predicate ExtremaExact()
      reads this`n, this`min, this`minIndex, this`max, this`maxIndex, buffer
    {
      (n == 0 ==> minIndex.None? && maxIndex.None?)
      && (n > 0 ==> IsMin(buffer[..], min, minIndex) && IsMax(buffer[..], max, maxIndex))
    }

    ghost predicate Valid()
      reads this, buffer
    {
      Layout() && MomentsExact() && ExtremaExact() && window == Replay(history, size)
      && 1 <= nextCompute <= RecomputeInterval(size)
    }

    constructor (size: nat)
      requires size >= 1
      ensures Valid() && fresh(buffer)
      ensures this.size == size && window == [] && history == [] && n == 0 && index == 0
      ensures nextCompute == RecomputeInterval(size)
    {
      this.size := size;
      buffer := new Option<real>[size](_ => None);
      index, n, q := 0, 0, 0.0;
      min, minIndex, max, maxIndex := 0.0, None, 0.0, None;
      sum, mean := 0.0, 0.0;
      nextCompute := RecomputeInterval(size);
      window, history := [], [];
      new;
      assert buffer[..] == seq(size, _ => None);
      FilledPrefix(buffer[..], []);
    }

    /** The incremental state describes the window itself: its count, sum,
        M2, minimum and maximum; and the window is the last `Min(k, size)`
        of the `k` samples appended so far, in order. */
    lemma StateIsWindow()
      requires Valid()
      ensures n == |window| == |Filled(buffer[..])|
      ensures sum == Sum(window)
      ensures q == SqDev(window, mean) && q >= 0.0
      ensures n == Min(|history|, size) && window == history[|history| - n..]
      ensures n > 0 ==> mean == Mean(window) && min == SeqMin(window) && max == SeqMax(window)
    {
      var w := window;
      ReplayKeepsLast(history, size);
      FilledLikeWindow(buffer[..], w, index, mean);
      SqDevNonNegative(w, mean);
      if n > 0 {
        var f := Filled(buffer[..]);
        FilledContains(buffer[..], minIndex.value);
        FilledContains(buffer[..], maxIndex.value);
        FilledWithin(buffer[..], min, max);
        assert min in w && max in w;
        assert forall z :: z in w ==> min <= z <= max;
      }
    }

    /** The statistics of the current window, or no data when it is empty. */
    function GetStats(): (r: Option<Stats>)
      reads this, buffer
      requires Valid()
      ensures r.None? <==> n == 0
      ensures r == WindowStats(window)
    {
      StateIsWindow();
      if n == 0 then None else Some(Stats(n, min, max, sum, mean, q / n as real))
    }

    /** The `#computeMin` rescan, walking back from the cursor over `n` slots.
        It starts with no candidate, so the first visited value always becomes
        one (the source starts from the sentinel `max + 1` instead). A visited
        value replaces the candidate only when strictly smaller, so the first
        occurrence of the minimum in visiting order is kept. */
    method ComputeMin() returns (ghost step: nat)
      requires buffer.Length == size && index < size && 1 <= n <= size
      requires forall t :: 0 <= t < n ==> buffer[Back(size, index, t)].Some?
      modifies this`min, this`minIndex
      ensures step < n && minIndex == Some(Back(size, index, step))
      ensures buffer[Back(size, index, step)] == Some(min)
      ensures forall t :: 0 <= t < n ==> min <= buffer[Back(size, index, t)].value
      ensures forall t :: 0 <= t < step ==> min < buffer[Back(size, index, t)].value
    {
      var slot: int := index;
      var best := 0.0;
      var bestIndex: Option<nat> := None;
      step := 0;
      for iteration := 0 to n
        invariant slot == if iteration == 0 then index else Back(size, index, iteration - 1)
        invariant bestIndex.None? <==> iteration == 0
        invariant step <= iteration && (iteration > 0 ==> step < iteration)
        invariant iteration > 0 ==> bestIndex == Some(Back(size, index, step))
        invariant iteration > 0 ==> buffer[Back(size, index, step)] == Some(best)
        invariant forall t :: 0 <= t < iteration ==> best <= buffer[Back(size, index, t)].value
        invariant forall t :: 0 <= t < step ==> best < buffer[Back(size, index, t)].value
      {
        slot := slot - 1;
        if slot < 0 {
          slot := slot + size;
        }
        assert slot == Back(size, index, iteration);
        var element := buffer[slot].value;
        if bestIndex.None? || element < best {
          bestIndex := Some(slot);
          best := element;
          step := iteration;
        }
      }
      minIndex := bestIndex;
      min := best;
    }

    /** The `#computeMax` rescan, walking back from the cursor over `n` slots
        from the sentinel `min - 1`. Since `min` already bounds every visited
        value from below, the first visited value beats the sentinel, so a
        slot is always found. A visited value replaces the candidate only when
        strictly larger. */
    method ComputeMax() returns (ghost step: nat)
      requires buffer.Length == size && index < size && 1 <= n <= size
      requires forall t :: 0 <= t < n ==> buffer[Back(size, index, t)].Some?
      requires forall t :: 0 <= t < n ==> min <= buffer[Back(size, index, t)].value
      modifies this`max, this`maxIndex
      ensures step < n && maxIndex == Some(Back(size, index, step))
      ensures buffer[Back(size, index, step)] == Some(max)
      ensures forall t :: 0 <= t < n ==> buffer[Back(size, index, t)].value <= max
      ensures forall t :: 0 <= t < step ==> buffer[Back(size, index, t)].value < max
    {
      var slot: int := index;
      var best := min - 1.0;
      var bestIndex: Option<nat> := None;
      step := 0;
      for iteration := 0 to n
        invariant slot == if iteration == 0 then index else Back(size, index, iteration - 1)
        invariant bestIndex.None? <==> iteration == 0
        invariant iteration == 0 ==> best == min - 1.0
        invariant step <= iteration && (iteration > 0 ==> step < iteration)
        invariant iteration > 0 ==> bestIndex == Some(Back(size, index, step))
        invariant iteration > 0 ==> buffer[Back(size, index, step)] == Some(best)
        invariant forall t :: 0 <= t < iteration ==> buffer[Back(size, index, t)].value <= best
        invariant forall t :: 0 <= t < step ==> buffer[Back(size, index, t)].value < best
      {
        slot := slot - 1;
        if slot < 0 {
          slot := slot + size;
        }
        assert slot == Back(size, index, iteration);
        var element := buffer[slot].value;
        if element > best {
          bestIndex := Some(slot);
          best := element;
          step := iteration;
        }
      }
      maxIndex := bestIndex;
      max := best;
    }

    /** The first `forEach` of `recompute`: the written slots summed in slot
        order (holes are skipped). */
    method SumSlots() returns (total: real)
      ensures total == Sum(Filled(buffer[..]))
    {
      total := 0.0;
      ghost var slots := buffer[..];
      for i := 0 to buffer.Length
        invariant total == Sum(Filled(slots[..i]))
      {
        FilledSnoc(slots, i);
        ghost var f := Filled(slots[..i]);
        if buffer[i].Some? {
          var element := buffer[i].value;
          assert Filled(slots[..i + 1]) == f + [element];
          SumSnoc(f, element);
          total := total + element;
        } else {
          assert Filled(slots[..i + 1]) == f;
        }
      }
      assert slots[..buffer.Length] == slots;
    }

    /** The second `forEach` of `recompute`: the squared deviations of the
        written slots from `c`, summed in slot order. */
    method SqDevSlots(c: real) returns (total: real)
      ensures total == SqDev(Filled(buffer[..]), c)
    {
      total := 0.0;
      ghost var slots := buffer[..];
      for i := 0 to buffer.Length
        invariant total == SqDev(Filled(slots[..i]), c)
      {
        FilledSnoc(slots, i);
        ghost var f := Filled(slots[..i]);
        if buffer[i].Some? {
          var element := buffer[i].value;
          assert Filled(slots[..i + 1]) == f + [element];
          SqDevSnoc(f, element, c);
          total := total + (element - c) * (element - c);
        } else {
          assert Filled(slots[..i + 1]) == f;
        }
      }
      assert slots[..buffer.Length] == slots;
    }

    /** `recompute`: refreshes the accumulator from the written slots and
        returns the snapshot (lines 177-186), the statistics of the window.
        Nothing else changes. */
    method Recompute() returns (r: Stats)
      requires Layout() && ExtremaExact() && n > 0 && window == Replay(history, size)
      modifies this`sum, this`mean, this`q, this`nextCompute
      ensures Valid()
      ensures nextCompute == RecomputeInterval(size)
      ensures old(MomentsExact()) ==> sum == old(sum) && mean == old(mean) && q == old(q)
      ensures Some(r) == GetStats() == WindowStats(window)
    {
      Refresh();
      r := Stats(n, min, max, sum, mean, q / n as real);
    }

    /** Lines 164-176 of `recompute`: resets the countdown and recomputes
        `sum`, `mean` and `q` from the written slots, in slot order. Over
        exact arithmetic an accumulator that was already exact is left as it
        was. */
    method Refresh()
      requires Layout() && ExtremaExact() && n > 0 && window == Replay(history, size)
      modifies this`sum, this`mean, this`q, this`nextCompute
      ensures Valid()
      ensures nextCompute == RecomputeInterval(size)
      ensures old(MomentsExact()) ==> sum == old(sum) && mean == old(mean) && q == old(q)
    {
      nextCompute := RecomputeInterval(size);
      sum := SumSlots();
      FilledLikeWindow(buffer[..], window, index, sum / n as real);
      mean := sum / n as real;
      q := SqDevSlots(mean);
    }

    /** Appends one sample and returns the engine itself. The sample in the
        cursor's slot, if any, leaves the accumulator (otherwise the count
        grows); the new sample takes the slot; the minimum and maximum follow
        the fast path, or are rescanned when their slot was just overwritten;
        the new sample enters the accumulator; the cursor advances, wrapping
        after the last slot; the countdown runs down and forces a recompute
        at zero. */
    method Append(x: real) returns (self: StatsArray)
      requires Valid()
      modifies this, buffer
      ensures Valid() && self == this
      ensures window == Slide(old(window), x, size) && history == old(history) + [x]
      ensures index == if old(index) + 1 == size then 0 else old(index) + 1
      ensures buffer[..] == old(buffer[..])[old(index) := Some(x)]
      ensures (old(n) == 0 || x <= old(min)) ==> min == x && minIndex == Some(old(index))
      ensures (old(n) > 0 && x > old(min) && old(minIndex) != Some(old(index)))
        ==> min == old(min) && minIndex == old(minIndex)
      ensures (old(n) == 0 || x >= old(max)) ==> max == x && maxIndex == Some(old(index))
      ensures (old(n) > 0 && x < old(max) && old(maxIndex) != Some(old(index)))
        ==> max == old(max) && maxIndex == old(maxIndex)
      ensures (old(n) > 0 && x > old(min) && old(minIndex) == Some(old(index)))
        ==> FirstMinBack(buffer[..], old(index), min, minIndex)
      ensures (old(n) > 0 && x < old(max) && old(maxIndex) == Some(old(index)))
        ==> FirstMaxBack(buffer[..], old(index), max, maxIndex)
      ensures nextCompute == if old(nextCompute) == 1 then RecomputeInterval(size) else old(nextCompute) - 1
    {
      ghost var before, w := buffer[..], window;
      var empty := n == 0;
      OldestAtCursor(before, w, index);

      ghost var rest := Evict(x);
      assert buffer[..] == before;
      Place(x, empty);

      Enter(x, before, w, rest);
      self := this;
    }

    /** Lines 90-103 of `append`: the sample in the cursor's slot, if there
        is one, is the oldest of the window and leaves the accumulator,
        otherwise the count grows. `x` joins the history. The accumulator is
        then exact for `rest`, the window less the sample that left, and the
        window slides to take `x`, which is `rest` and `x`. */
    method Evict(x: real) returns (ghost rest: seq<real>)
      requires buffer.Length == size >= 1 && index < size && MomentsExact() && n == |window| <= size
      requires buffer[index].Some? <==> n == size
      requires buffer[index].Some? ==> buffer[index] == Some(window[0])
      requires window == Replay(history, size)
      modifies this`n, this`sum, this`mean, this`q, this`window, this`history
      ensures window == Slide(old(window), x, size) == rest + [x]
      ensures history == old(history) + [x] && window == Replay(history, size)
      ensures n == |window| == |rest| + 1
      ensures Exact(rest, Moments(sum, mean, q))
    {
      var previous := buffer[index];
      if previous.Some? {
        rest := window[1..];
        DropOldest(window);
        var acc := Withdraw(Moments(sum, mean, q), n, previous.value, window, rest);
        sum, mean, q := acc.sum, acc.mean, acc.q;
      } else {
        rest := window;
        n := n + 1;
      }
      window := rest + [x];
      history := history + [x];
      assert history[..|history| - 1] == old(history);
    }

    /** Lines 104-117 of `append`: `x` takes the cursor's slot, then the
        minimum and the maximum follow it. */
    method Place(x: real, empty: bool)
      requires buffer.Length == size && index < size && 1 <= n <= size
      requires empty ==> forall i :: 0 <= i < size ==> buffer[i].None?
      requires !empty ==> IsMin(buffer[..], min, minIndex) && IsMax(buffer[..], max, maxIndex)
      requires buffer[index].Some? ==> n == size && forall i :: 0 <= i < size ==> buffer[i].Some?
      modifies buffer, this`min, this`minIndex, this`max, this`maxIndex
      ensures buffer[..] == old(buffer[..])[index := Some(x)]
      ensures IsMin(buffer[..], min, minIndex) && IsMax(buffer[..], max, maxIndex)
      ensures (empty || x <= old(min)) ==> min == x && minIndex == Some(index)
      ensures (!empty && x > old(min) && old(minIndex) != Some(index))
        ==> min == old(min) && minIndex == old(minIndex)
      ensures (empty || x >= old(max)) ==> max == x && maxIndex == Some(index)
      ensures (!empty && x < old(max) && old(maxIndex) != Some(index))
        ==> max == old(max) && maxIndex == old(maxIndex)
      ensures (!empty && x > old(min) && old(minIndex) == Some(index))
        ==> FirstMinBack(buffer[..], index, min, minIndex)
      ensures (!empty && x < old(max) && old(maxIndex) == Some(index))
        ==> FirstMaxBack(buffer[..], index, max, maxIndex)
    {
      ghost var before := buffer[..];
      buffer[index] := Some(x);
      assert buffer[..] == before[index := Some(x)];
      TrackMin(x, empty, before);
      TrackMax(x, empty, before);
    }

    /** Lines 106-111 of `append`, once `x` is in the cursor's slot of a
        buffer that held `before`: an empty window or a sample at or below
        the minimum makes `x` the minimum at the cursor; otherwise, when the
        minimum's slot was just overwritten (which happens only once every
        slot is written), the slots are rescanned; otherwise the minimum
        stays. */
    method TrackMin(x: real, empty: bool, ghost before: seq<Option<real>>)
      requires buffer.Length == size == |before| && index < size && 1 <= n <= size
      requires buffer[..] == before[index := Some(x)]
      requires empty ==> forall i :: 0 <= i < size ==> before[i].None?
      requires !empty ==> IsMin(before, min, minIndex)
      requires before[index].Some? ==> n == size && forall i :: 0 <= i < size ==> before[i].Some?
      modifies this`min, this`minIndex
      ensures IsMin(buffer[..], min, minIndex)
      ensures (empty || x <= old(min)) ==> min == x && minIndex == Some(index)
      ensures (!empty && x > old(min) && old(minIndex) != Some(index))
        ==> min == old(min) && minIndex == old(minIndex)
      ensures (!empty && x > old(min) && old(minIndex) == Some(index))
        ==> FirstMinBack(buffer[..], index, min, minIndex)
    {
      if empty || x <= min {
        minIndex := Some(index);
        min := x;
      } else if minIndex == Some(index) {
        ghost var step := ComputeMin();
        forall j | 0 <= j < size ensures min <= buffer[j].value {
          BackInverse(size, index, j);
        }
        BackInverse(size, index, step);
      }
    }

    /** Lines 112-117 of `append`: the same for the maximum, whose rescan
        starts from the sentinel `min - 1`, below every written slot because
        the minimum is already up to date. */
    method TrackMax(x: real, empty: bool, ghost before: seq<Option<real>>)
      requires buffer.Length == size == |before| && index < size && 1 <= n <= size
      requires buffer[..] == before[index := Some(x)]
      requires empty ==> forall i :: 0 <= i < size ==> before[i].None?
      requires !empty ==> IsMax(before, max, maxIndex)
      requires before[index].Some? ==> n == size && forall i :: 0 <= i < size ==> before[i].Some?
      requires IsMin(buffer[..], min, minIndex)
      modifies this`max, this`maxIndex
      ensures IsMax(buffer[..], max, maxIndex)
      ensures (empty || x >= old(max)) ==> max == x && maxIndex == Some(index)
      ensures (!empty && x < old(max) && old(maxIndex) != Some(index))
        ==> max == old(max) && maxIndex == old(maxIndex)
      ensures (!empty && x < old(max) && old(maxIndex) == Some(index))
        ==> FirstMaxBack(buffer[..], index, max, maxIndex)
    {
      if empty || x >= max {
        maxIndex := Some(index);
        max := x;
      } else if maxIndex == Some(index) {
        ghost var step := ComputeMax();
        forall j | 0 <= j < size ensures buffer[j].value <= max {
          BackInverse(size, index, j);
        }
        BackInverse(size, index, step);
      }
    }

    /** Lines 119-126 of `append`: `x` enters the accumulator, which was
        exact for `rest`, the window without `x`; then the cursor and the
        countdown move on. */
    method Enter(x: real, ghost before: seq<Option<real>>, ghost w: seq<real>, ghost rest: seq<real>)
      requires 1 <= size && buffer.Length == size && n == |window| == |rest| + 1
      requires Arranged(before, w, index) && buffer[..] == before[index := Some(x)]
      requires window == Slide(w, x, size) == rest + [x]
      requires Exact(rest, Moments(sum, mean, q)) && ExtremaExact()
      requires 1 <= nextCompute <= RecomputeInterval(size) && window == Replay(history, size)
      modifies this`index, this`sum, this`mean, this`q, this`nextCompute
      ensures Valid()
      ensures index == if old(index) + 1 == size then 0 else old(index) + 1
      ensures sum == old(sum) + x
      ensures min == old(min) && minIndex == old(minIndex) && max == old(max) && maxIndex == old(maxIndex)
      ensures nextCompute == if old(nextCompute) == 1 then RecomputeInterval(size) else old(nextCompute) - 1
    {
      AddNewest(rest, x);
      var acc := Deposit(Moments(sum, mean, q), n, x, rest, window);
      sum, mean, q := acc.sum, acc.mean, acc.q;
      Tick(x, before, w);
    }

    /** Lines 128-133 of `append`: the cursor advances, wrapping after the
        last slot; the countdown runs down by one and, at zero, a recompute
        restarts it. Since the accumulator is exact, the recompute leaves it
        as it was. */
    method Tick(ghost x: real, ghost before: seq<Option<real>>, ghost w: seq<real>)
      requires 1 <= size && buffer.Length == size && n == |window|
      requires Arranged(before, w, index) && buffer[..] == before[index := Some(x)]
      requires window == Slide(w, x, size)
      requires MomentsExact() && ExtremaExact() && n > 0
      requires 1 <= nextCompute <= RecomputeInterval(size) && window == Replay(history, size)
      modifies this`index, this`sum, this`mean, this`q, this`nextCompute
      ensures Valid()
      ensures index == if old(index) + 1 == size then 0 else old(index) + 1
      ensures sum == old(sum) && mean == old(mean) && q == old(q)
      ensures min == old(min) && minIndex == old(minIndex) && max == old(max) && maxIndex == old(maxIndex)
      ensures nextCompute == if old(nextCompute) == 1 then RecomputeInterval(size) else old(nextCompute) - 1
    {
      ArrangedAfterWrite(before, w, index, x, window, if index + 1 == size then 0 else index + 1);
      index := if index + 1 == size then 0 else index + 1;
      nextCompute := nextCompute - 1;
      if nextCompute == 0 {
        Refresh();
      }
    }
  }
}
