/** The arithmetic both players share: moving to the next image with
    wrap-around, and the "mm:ss" split of the countdown. */
module Playlist {

  /** `show_next_image`'s index rule: the last index wraps to 0, any other
      index moves up by one. */
  function NextIndex(i: int, n: int): (j: int)
    ensures 0 <= i < n ==> 0 <= j < n && j == (i + 1) % n
    ensures 0 <= i < n ==> (j == 0 <==> i == n - 1)
  {
    if i >= n - 1 then 0 else i + 1
  }

  /** `previous_image`'s index rule: one index back, and no move at the
      first image. */
  function PreviousIndex(i: int): (j: int)
    ensures i >= 0 ==> 0 <= j <= i && (j == i <==> i == 0)
  {
    if i > 0 then i - 1 else i
  }

  /** Back and next undo each other away from the two ends of the list. */
  lemma PreviousUndoesNext(i: int, n: int)
    ensures 0 < i < n ==> NextIndex(PreviousIndex(i), n) == i
    ensures 0 <= i < n - 1 ==> PreviousIndex(NextIndex(i, n)) == i
  {
  }

  /** The index after `k` steps from `i`, without reshuffling. */
  function Advanced(i: int, n: int, k: nat): (r: int)
    ensures 0 <= i < n ==> 0 <= r < n
  {
    if k == 0 then i else NextIndex(Advanced(i, n, k - 1), n)
  }

  /** Steps compose: `a + b` steps are `a` steps, then `b` more. */
  lemma {:induction false} AdvancedAdd(i: int, n: int, a: nat, b: nat)
    ensures Advanced(i, n, a + b) == Advanced(Advanced(i, n, a), n, b)
  {
    if b > 0 {
      AdvancedAdd(i, n, a, b - 1);
    }
  }

  /** Below the last index, `k` steps just add `k`. */
  lemma {:induction false} AdvancedBelowEnd(i: int, n: int, k: nat)
    requires 0 <= i && i + k < n
    ensures Advanced(i, n, k) == i + k
  {
    if k > 0 {
      AdvancedBelowEnd(i, n, k - 1);
    }
  }

  /** Without shuffling, one step per image brings every index back to itself,
      and from the first image the `k`-th step shows image `k`. */
  lemma FullLap(i: int, n: int)
    requires 0 <= i < n
    ensures Advanced(i, n, n) == i
    ensures forall k :: 0 <= k < n ==> Advanced(0, n, k) == k
  {
    forall k | 0 <= k < n ensures Advanced(0, n, k) == k {
      AdvancedBelowEnd(0, n, k);
    }
    AdvancedBelowEnd(i, n, n - 1 - i);
    AdvancedAdd(i, n, n - 1 - i, 1);
    AdvancedAdd(i, n, n - i, i);
    AdvancedBelowEnd(0, n, i);
  }

  /** `update_timer_display` / the label in `update_timer`: `r // 60` minutes and
      `r % 60` seconds (Python's floor division, which agrees with Dafny's
      for the divisor 60). */
  function Clock(r: int): (mmss: (int, int))
    ensures 0 <= mmss.1 < 60
    ensures 60 * mmss.0 + mmss.1 == r
  {
    (r / 60, r % 60)
  }

  /** The split is the only one with seconds in [0, 60): a countdown of
      `60 * m + s` seconds reads back as `m` minutes and `s` seconds. */
  lemma ClockUnique(m: int, s: int)
    requires 0 <= s < 60
    ensures Clock(60 * m + s) == (m, s)
  {
    var c := Clock(60 * m + s);
    assert 60 * (c.0 - m) == s - c.1;
  }
}
