/** The minimum rescan as the source writes it, over the values it visits in
    visiting order: the best so far starts at a sentinel with no slot, and a
    visited value replaces it only when strictly smaller. */
module Rescan {
  import opened WindowMath

  /** The scan from visiting step `k` on, with `best` and `at` its state so
      far. The result is the smallest value at or below `best`, at its first
      position in visiting order, or the untouched sentinel with no position
      when no visited value is below it. */
  function ScanMinFrom(vals: seq<real>, k: nat, best: real, at: Option<nat>): (r: (real, Option<nat>))
    requires k <= |vals|
    requires forall j :: 0 <= j < k ==> best <= vals[j]
    requires at.Some? ==> at.value < k && vals[at.value] == best
    requires at.Some? ==> forall j :: 0 <= j < at.value ==> best < vals[j]
    ensures r.0 <= best
    ensures forall j :: 0 <= j < |vals| ==> r.0 <= vals[j]
    ensures r.1.Some? ==> r.1.value < |vals| && vals[r.1.value] == r.0
    ensures r.1.Some? ==> forall j :: 0 <= j < r.1.value ==> r.0 < vals[j]
    ensures r.1.None? <==> at.None? && forall j :: k <= j < |vals| ==> best <= vals[j]
    ensures r.1.None? ==> r.0 == best
    decreases |vals| - k
  {
    if k == |vals| then (best, at)
    else if vals[k] < best then ScanMinFrom(vals, k + 1, vals[k], Some(k))
    else ScanMinFrom(vals, k + 1, best, at)
  }

  /** `#computeMin` with the sentinel `max + 1` it starts from. It finds the
      minimum, at its first occurrence in visiting order, exactly when some
      visited value lies below the sentinel; otherwise it reports the
      sentinel and no slot. */
  function RescanMinAsWritten(vals: seq<real>, sentinel: real): (r: (real, Option<nat>))
    ensures r.1.Some? <==> exists j :: 0 <= j < |vals| && vals[j] < sentinel
    ensures r.1.Some? ==> r.1.value < |vals| && vals[r.1.value] == r.0 == SeqMin(vals)
    ensures r.1.Some? ==> forall j :: 0 <= j < r.1.value ==> r.0 < vals[j]
    ensures r.1.None? ==> r.0 == sentinel
  {
    var r := ScanMinFrom(vals, 0, sentinel, None);
    if r.1.Some? then
      var m := SeqMin(vals);
      assert m == vals[r.1.value] by {
        assert vals[r.1.value] in vals;
        assert forall z :: z in vals ==> r.0 <= z;
      }
      r
    else r
  }

  /** A first minimum in visiting order is unique, so any `m` at step `s`
      that bounds every visited value from below, with every value visited
      before step `s` strictly larger (what the class's `ComputeMin`
      ensures), is exactly what the scan seeded with the first visited
      value reports. */
  lemma FirstMinIsScan(vals: seq<real>, m: real, s: nat)
    requires s < |vals| && vals[s] == m
    requires forall j :: 0 <= j < |vals| ==> m <= vals[j]
    requires forall j :: 0 <= j < s ==> m < vals[j]
    ensures ScanMinFrom(vals, 1, vals[0], Some(0)) == (m, Some(s))
  {
  }

  /** With a capacity of one slot, appending 0 and then 5 rescans the single
      slot (now 5) from the sentinel `0 + 1`: nothing is below it, so the
      minimum is reported as 1 with no slot, though the window holds only 5. */
  lemma RescanMinAsWrittenMissesSingleSlot()
    ensures RescanMinAsWritten([5.0], 0.0 + 1.0) == (1.0, None)
    ensures SeqMin([5.0]) == 5.0
  {
  }
}
