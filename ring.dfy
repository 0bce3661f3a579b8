/** Index arithmetic of the circular buffer: where the window's samples sit
    and in which order a backward walk from the write cursor visits them. */
module Ring {

  /** The slot that holds the `k`-th oldest of the `n` samples in a buffer of
      `size` slots whose write cursor is `index`. */
  function SlotOf(size: nat, index: nat, n: nat, k: nat): (r: nat)
    requires index < size && n <= size && k < n
    ensures r < size
  {
    var j := index + size - n + k;
    if j < size then j else j - size
  }

  /** The slot visited at step `t` of a walk that starts at `index`, steps
      back one slot before each visit and wraps from 0 to `size - 1`. */
  function Back(size: nat, index: nat, t: nat): (r: nat)
    requires index < size && t < size
    ensures r < size
  {
    if t < index then index - 1 - t else index + size - 1 - t
  }

  /** The backward walk is its own inverse, so `size` steps visit every slot
      exactly once. */
  lemma BackInverse(size: nat, index: nat, j: nat)
    requires index < size && j < size
    ensures Back(size, index, Back(size, index, j)) == j
  {
  }

  /** Advancing the cursor by one modulo `size`. */
  lemma Advance(size: nat, index: nat)
    requires index < size
    ensures (index + 1) % size == if index + 1 == size then 0 else index + 1
  {
  }

  /** Where the window's samples sit after one more sample is written at
      `index` and the cursor advances: the newest is at the old cursor, the
      others keep their slots (a full window drops its oldest). */
  lemma SlotAfterAppend(size: nat, index: nat, n: nat, k: nat)
    requires index < size && n <= size && (n < size ==> index == n)
    requires k < (if n < size then n + 1 else n)
    ensures var n' := if n < size then n + 1 else n;
      var index' := if index + 1 == size then 0 else index + 1;
      SlotOf(size, index', n', k)
        == if k == n' - 1 then index else SlotOf(size, index, n, if n < size then k else k + 1)
  {
  }
}
