# Rolling statistics over a fixed-size window, in Dafny

This project models `statsArray` from `src/index.js`. It is a rolling
statistics engine that keeps the most recent `size` samples in a circular
buffer. Each `append` keeps four things up to date:

- the sample count, sum, mean and M2 (the sum of squared deviations from the
  mean), updated with Welford's method: one sample leaves the window and one
  enters it;
- the minimum and maximum, each with the slot that holds it;
- the write cursor, which wraps after the last slot;
- a countdown that forces a full recompute every `max(2 * size, 25000)`
  appends.

`getStats` reports the count, minimum, maximum, sum, mean and variance of the
window, or nothing for an empty window. `recompute` rebuilds the sum, mean
and M2 from the written slots.

The model has five modules:

- `WindowMath` (`window_math.dfy`) defines, on sequences, what the engine
  computes: `Sum`, `SumSq`, `SqDev` (M2 about a centre), `Mean`, `SeqMin`,
  `SeqMax`, and `Filled`, the values of the written slots in slot order. It
  also holds the lemmas about these.
- `Ring` (`ring.dfy`) holds the cursor arithmetic. `SlotOf` gives the slot of
  the `k`-th oldest sample. `Back` gives the slot visited at step `t` of a
  rescan.
- `Welford` (`welford.dfy`) holds the removal and insertion steps of the
  accumulator, proved exact over the reals, and the removal step as the
  source writes it.
- `Rescan` (`rescan.dfy`) holds the minimum rescan as the source writes it,
  starting from its sentinel.
- `RollingStats` (`stats_array.dfy`) holds the class `StatsArray`, with the
  buffer as an `array<Option<real>>` (`None` is a slot never written), the
  source's fields, two ghost fields and a class invariant:
  - the ghost field `window`, the samples held, oldest first;
  - the ghost field `history`, every sample appended so far, oldest first;
  - the invariant `Valid()`, which ties the concrete state to `window` and
    `window` to `history`.

  Each `append` step is a method with a `modifies` clause, and the rescans and
  `forEach` loops are loops with invariants.

Samples are mathematical reals. The source's removal step divides by the
wrong count (see Findings), so even over the reals its incremental M2 is not
exact. The model corrects that divisor (see Left out). With it corrected,
the incremental updates are exact over the reals, so `sum`, `mean` and `q`
are proved equal to `Sum`, `Mean` and `SqDev` of the window after every
append.

## Model

| member | source | states |
|---|---|---|
| `RollingStats.RecomputeInterval` | src/index.js:30 | the countdown restarts at the larger of twice the capacity and 25000 |
| `RollingStats.StatsArray.constructor` | src/index.js:13-31 | a new engine has an empty window, cursor 0, no written slot, no tracked extremum slot, and a full countdown, and it satisfies the invariant |
| `RollingStats.StatsArray.ComputeMin` | src/index.js:37-56 | the backward rescan from the cursor over `n` slots finds a slot holding a value no larger than any visited slot, and no earlier-visited slot is equal to it (strict `<`: the first occurrence in visiting order wins) |
| `RollingStats.StatsArray.ComputeMax` | src/index.js:61-80 | starting from the sentinel `min - 1`, the rescan always finds a slot, and that slot holds a value no smaller than any visited slot, the first such in visiting order |
| `Ring.Back` | src/index.js:43-47 | the rescan's wrapping iterator stays inside the buffer |
| `Ring.BackInverse` | src/index.js:43-47 | the backward walk is a bijection on the slots, so a rescan over a full buffer visits every slot exactly once |
| `Rescan.ScanMinFrom` | src/index.js:43-53 | the scan's result is at or below its starting value and at or below every visited value; the slot it reports holds the result and every earlier-visited slot is strictly larger; it reports no slot exactly when nothing visited is below the start |
| `Rescan.FirstMinIsScan` | src/index.js:43-53 | any value at a visiting step that is at or below every visited value, with every earlier-visited value strictly larger (the first minimum in visiting order, as `ComputeMin` ensures), is exactly the value and step the scan seeded with the first visited value reports |
| `Rescan.RescanMinAsWritten` | src/index.js:37-56 | the rescan as written, from the sentinel: it reports a slot exactly when some visited value is below the sentinel, and then that slot holds the true minimum; otherwise it reports the sentinel itself |
| `Rescan.RescanMinAsWrittenMissesSingleSlot` | src/index.js:41 | with capacity 1, appending 0 then 5 makes the as-written rescan report minimum 1 with no slot, while the window's minimum is 5 |
| `RollingStats.SentinelHarmlessFromTwoSlots` | src/index.js:37-56 | with two slots or more, the first slot the rescan visits holds a kept sample no larger than the old maximum, so the as-written rescan from `max + 1` equals a scan that starts from the first visited value, as `ComputeMin` does, and always reports a slot: the sentinel matters only for capacity 1 (with `Rescan.FirstMinIsScan`, that scan's result is the minimum and step `ComputeMin` ensures) |
| `RollingStats.StatsArray.Append` | src/index.js:89-136 | one append keeps the invariant and returns the engine itself; the window slides (it gains `x` and, when full, drops its oldest sample); only the cursor's slot changes, to `x`; the cursor advances and wraps; the fast-path and unchanged cases of the minimum and maximum (ties go to the new sample); after a rescan, the recorded slot is the first one holding the extremum in the backward walk from the old cursor (`FirstMinBack`, `FirstMaxBack`); the history gains `x`; the countdown runs down or restarts |
| `RollingStats.StatsArray.Evict` | src/index.js:90-103 | the window slides to take `x`: a written slot at the cursor, which the invariant makes the oldest sample of a full window, leaves the accumulator, and otherwise the count grows; the accumulator is then exact for the slid window without `x`; the history gains `x`, and the window is still its replay |
| `RollingStats.StatsArray.Place` | src/index.js:104-117 | only the cursor's slot changes, to `x`; afterwards `min`/`max` are the extrema of the written slots and sit in `minIndex`/`maxIndex`; the fast-path and unchanged cases as in the source; after a rescan, the recorded slot is the first holding the extremum in the backward walk from the cursor |
| `RollingStats.StatsArray.TrackMin` | src/index.js:106-111 | a sample at or below the minimum, or an empty window, makes it the minimum at the cursor; a rescan happens only when the minimum's slot was overwritten; otherwise nothing changes; in every case the result is the true minimum of the written slots, and after a rescan its slot is the first holding it in the backward walk from the cursor, every slot visited earlier holding a larger value (strict `<`) |
| `RollingStats.StatsArray.TrackMax` | src/index.js:112-117 | the same for the maximum, with the `min - 1` sentinel safe because the minimum is already current; after a rescan every slot visited before the recorded one holds a smaller value (strict `>`) |
| `RollingStats.StatsArray.Enter` | src/index.js:119-126 | the new sample enters the accumulator, which becomes exact for the slid window; the extrema are untouched; the invariant holds again once the cursor and countdown move |
| `RollingStats.StatsArray.Tick` | src/index.js:128-133 | the cursor advances by one and wraps to 0 after the last slot; the countdown drops by one, and at zero a recompute restarts it and leaves an exact accumulator unchanged |
| `Ring.Advance` | src/index.js:128 | the wrap-around written as a conditional equals `(index + 1) % size` |
| `Ring.SlotAfterAppend` | src/index.js:104-128 | after a write at the cursor and a cursor advance, the newest sample sits at the old cursor and every other sample of the slid window keeps its slot |
| `RollingStats.ArrangedAfterWrite` | src/index.js:104-128 | writing `x` at the cursor and advancing it keeps the buffer laid out as the slid window |
| `RollingStats.OldestAtCursor` | src/index.js:90-92 | the cursor's slot is written exactly when the window is full, and then it holds the oldest sample: eviction happens only once the window is full, and it evicts the oldest sample |
| `RollingStats.Replay` | src/index.js:89-136 | after appending `k` samples to a fresh engine, the window holds `min(k, size)` samples |
| `RollingStats.ReplayIsSuffix` | src/index.js:89-136 | the window after a history of appends is exactly the last `min(k, size)` samples of that history, in order |
| `RollingStats.ReplayKeepsLast` | src/index.js:89-136 | the same, as one sequence: the replayed window is the history's suffix of length `min(k, size)` |
| `RollingStats.DropOldest` | src/index.js:93 | taking the oldest sample out of a window takes it out of the sum and its square out of the sum of squares |
| `RollingStats.AddNewest` | src/index.js:119 | adding the newest sample adds it to the sum and its square to the sum of squares |
| `Welford.RemoveExact` | src/index.js:93-96 | M2 of the window less `x`, about its own mean, is the old M2 less `(x - old mean) * (x - new mean)`, where the new mean is over the remaining samples |
| `Welford.RemoveAlgebra` | src/index.js:93-96 | the removal identity on the power sums |
| `Welford.InsertExact` | src/index.js:119-122 | M2 of the window with `y` added, about its new mean, is the old M2 plus `(y - old mean) * (y - new mean)` |
| `Welford.InsertAlgebra` | src/index.js:119-122 | the insertion identity on the power sums |
| `Welford.WithdrawExact` | src/index.js:93-100 | the removal step takes an accumulator exact for a window to one exact for the window less the leaving sample, with `q >= 0`, so the clamp never fires |
| `Welford.DepositExact` | src/index.js:119-126 | the insertion step takes an accumulator exact for a window to one exact for the window with the new sample, with `q >= 0` |
| `Welford.Withdraw` | src/index.js:93-100 | the removal step with its clamp: the sum loses the sample, `q` is never negative, and an exact accumulator stays exact for the remaining samples |
| `Welford.Deposit` | src/index.js:119-126 | the insertion step with its clamp: the sum gains the sample, `q` is never negative, and an exact accumulator stays exact for the enlarged window |
| `Welford.ReplaceAsWritten` | src/index.js:93-126 | one overwriting append as written, dividing by the unchanged count after the removal: the sum is replaced correctly and `q` is never negative |
| `Welford.ReplaceAsWrittenDrifts` | src/index.js:95 | with capacity 2, the as-written third append (of 3, over 1) reaches the exact accumulator of [0, 3]; appending 5 as written then gives M2 5.75, but M2 of [3, 5] is 2 |
| `Welford.ReplaceAsWrittenGap` | src/index.js:93-96 | for every overwrite of `p` by `y` in `n >= 2` samples summing to `S`, the as-written steps before their clamps give an M2 that exceeds that of the corrected steps by exactly `(S - p) * (y - p) / n^2` (a signed amount), which `WithdrawExact` and `DepositExact` prove exact: the unclamped as-written M2 equals the exact one only when the kept samples sum to 0 or `y == p` |
| `Welford.ClampHidesGap` | src/index.js:93-126 | the clamps can hide that difference: overwriting 3 by 1 in the exact accumulator of [3, 1] clamps the removal's M2 of -0.5 to 0 and the as-written result is the exact accumulator of [1, 1], though `(S - p) * (y - p)` is -2 |
| `RollingStats.StatsArray.StateIsWindow` | src/index.js:89-136 | under the invariant, `n` counts both the window and the written slots and equals `min(k, size)` after `k` appends; the window is the last `n` samples appended, in order; `sum` is the window's sum; `q` is its M2 and is never negative; with data, `mean` is its mean and `min`/`max` are its minimum and maximum |
| `RollingStats.StatsArray.GetStats` | src/index.js:143-157 | `getStats` returns nothing exactly when the window is empty, and otherwise the statistics of the window itself, with variance `q / n` |
| `RollingStats.WindowStatsSound` | src/index.js:143-156 | a snapshot is missing only for an empty window; otherwise its count is the window length, its variance is never negative, and its mean lies between its minimum and maximum |
| `RollingStats.StatsArray.SumSlots` | src/index.js:169-172 | the first `forEach` sums exactly the written slots, skipping the holes |
| `RollingStats.StatsArray.SqDevSlots` | src/index.js:174-176 | the second `forEach` sums the squared deviations of exactly the written slots |
| `RollingStats.FilledIsRotation` | src/index.js:170-172 | the written slots, in slot order, are a rotation of the window |
| `RollingStats.FilledLikeWindow` | src/index.js:170-176 | so the written slots have the window's count, sum, M2 about any centre, and elements |
| `RollingStats.StatsArray.Refresh` | src/index.js:164-176 | the countdown restarts, the accumulator becomes exact for the window (the invariant holds), and an accumulator that was already exact is unchanged |
| `RollingStats.StatsArray.Recompute` | src/index.js:164-187 | as `Refresh`, and the returned snapshot is `getStats()` of the window, the statistics of the window itself |

## Left out

- The standard deviation (`Math.sqrt`, src/index.js:155, 185) is not part of the model. `Stats` stops at the variance.
- IEEE-754 doubles are modelled as reals. Rounding drift, which the periodic recompute exists to bound, is not modelled. Neither are NaN/Infinity propagation or absorption in `max + 1`.
- The initial sentinels `Number.MAX_VALUE` and `-Number.MAX_VALUE` (src/index.js:23, 25) are not modelled. For every finite sample they make the first append take the fast path, and the model states that case directly: an empty window takes the fast path. `min` and `max` start at 0, with no slot.
- `recompute` on an empty window divides 0 by 0 (src/index.js:173). `Recompute` and `Refresh` require a non-empty window, which holds whenever `append` calls them.
- The default capacity of 100 and non-integer or non-positive sizes are not modelled: the constructor requires `size >= 1`.
- `Append`, `Tick`: the cursor advance `(index + 1) % size` (src/index.js:128) is written as a conditional. `Ring.Advance` proves the two agree.
- `recompute` accumulates directly into the fields `sum` and `q`. `SumSlots` and `SqDevSlots` accumulate into locals that are then assigned. The resulting values are the same.
- `RollingStats.StatsArray.ComputeMin` starts with no candidate, not with the sentinel `max + 1` (see Findings). `Rescan.RescanMinAsWritten` models the sentinel as written. `RollingStats.SentinelHarmlessFromTwoSlots` shows that the two differ only for capacity 1.
- `Welford.Withdraw` divides the remaining sum by `max(n - 1, 1)`, not by `n` (see Findings). `Welford.ReplaceAsWritten` models the division as written.
- `RollingStats.StatsArray.Evict` removes the leaving sample through `Welford.Withdraw`, so its promise that the accumulator stays exact holds for the corrected divisor, not for the source's.
- `RollingStats.StatsArray.Append` inherits the corrected divisor through `Evict`: the exact `sum`, `mean` and `q` that its `Valid()` promises are those of the corrected removal step.
- `bench.js`, the test file and `module.exports` are not part of this model.

## Findings

| source | as written | input that shows it | evidently intended | confidence | as-written member | corrected member |
|---|---|---|---|---|---|---|
| src/index.js:95 | after a sample leaves, the mean is `sum / n` with `n` still counting the sample that left, and that mean feeds the M2 update | capacity 2, append 1, 0, 3, 5: `q` becomes 5.75, but M2 of the window [3, 5] is 2 (variance 2.875 instead of 1) | divide by the `n - 1` samples that remain, so M2 stays exact | not executed | `Welford.ReplaceAsWrittenDrifts` | `Welford.Withdraw` |
| src/index.js:41 | the minimum rescan starts from the sentinel `max + 1`, taken from the maximum before it is updated for the new sample | capacity 1, append 0 then 5: the rescan of the single slot (5) finds nothing below 1, leaving `min` 1 and `minIndex` undefined | start the rescan with no candidate, so the first visited slot is always taken | not executed | `Rescan.RescanMinAsWrittenMissesSingleSlot` | `RollingStats.StatsArray.ComputeMin` |
