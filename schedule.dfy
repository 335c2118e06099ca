/** The timing engine of the session player, on values: where the player is
    in the list of timings, how `show_next_image` moves that position forward,
    and how `update_timing_for_previous_image` recomputes it when going back. */
module Schedule {
  import opened SessionFormat
  import Playlist

  /** `(current_timing_index, images_displayed_for_current_timing)`. */
  datatype Pos = Pos(timing: int, shown: int)

  const Start := Pos(0, 0)

  /** The counter bound: a timing shows `count` images, at least one. */
  function Quota(count: int): int {
    if count < 1 then 1 else count
  }

  /** The counter and timing index stay inside the timings. */
  predicate InRange(timings: seq<Timing>, p: Pos) {
    0 <= p.timing < |timings| && 0 <= p.shown <= Quota(timings[p.timing].count)
  }

  /** The timing part of `show_next_image`: count the image, and once the
      counter reaches the timing's count move to the next timing (wrapping to
      the first) with the counter back at 0. */
  function Advance(timings: seq<Timing>, p: Pos): (q: Pos)
    requires 0 <= p.timing < |timings|
    ensures 0 <= q.timing < |timings|
    ensures p.shown >= 0 ==> 0 <= q.shown < Quota(timings[q.timing].count)
    ensures p.shown >= 0 ==>
      (p.shown + 1 >= timings[p.timing].count <==> q == Pos((p.timing + 1) % |timings|, 0))
  {
    var shown := p.shown + 1;
    if shown >= timings[p.timing].count then Pos((p.timing + 1) % |timings|, 0)
    else Pos(p.timing, shown)
  }

  /** The position after `k` forward steps. */
  function Steps(timings: seq<Timing>, p: Pos, k: nat): (q: Pos)
    requires 0 <= p.timing < |timings|
    ensures 0 <= q.timing < |timings|
    ensures p.shown >= 0 ==> q.shown >= 0
  {
    if k == 0 then p else Advance(timings, Steps(timings, p, k - 1))
  }

  lemma {:induction false} StepsAdd(timings: seq<Timing>, p: Pos, a: nat, b: nat)
    requires 0 <= p.timing < |timings|
    ensures Steps(timings, p, a + b) == Steps(timings, Steps(timings, p, a), b)
  {
    if b > 0 {
      StepsAdd(timings, p, a, b - 1);
    }
  }

  /** Inside one timing the counter just counts. */
  lemma {:induction false} WithinTiming(timings: seq<Timing>, j: int, s: nat)
    requires 0 <= j < |timings| && s < timings[j].count
    ensures Steps(timings, Pos(j, 0), s) == Pos(j, s)
  {
    if s > 0 {
      WithinTiming(timings, j, s - 1);
    }
  }

  /** A timing with count `c` >= 1 lasts exactly `c` steps. */
  lemma TimingDone(timings: seq<Timing>, j: int)
    requires 0 <= j < |timings| && timings[j].count >= 1
    ensures Steps(timings, Pos(j, 0), timings[j].count) == Pos((j + 1) % |timings|, 0)
  {
    WithinTiming(timings, j, timings[j].count - 1);
  }

  predicate PositiveCounts(timings: seq<Timing>) {
    forall i :: 0 <= i < |timings| ==> timings[i].count >= 1
  }

  /** The number of images one round of the schedule shows. */
  function SumCounts(ts: seq<Timing>): int {
    if ts == [] then 0 else SumCounts(ts[..|ts| - 1]) + ts[|ts| - 1].count
  }

  lemma {:induction false} PrefixRounds(timings: seq<Timing>, j: nat)
    requires PositiveCounts(timings) && 1 <= |timings| && j <= |timings|
    ensures SumCounts(timings[..j]) >= j
    ensures Steps(timings, Start, SumCounts(timings[..j])) == Pos(if j == |timings| then 0 else j, 0)
  {
    if j > 0 {
      PrefixRounds(timings, j - 1);
      var before := SumCounts(timings[..j - 1]);
      var c := timings[j - 1].count;
      assert SumCounts(timings[..j]) == before + c by {
        assert timings[..j][..j - 1] == timings[..j - 1];
      }
      assert Steps(timings, Start, before) == Pos(j - 1, 0);
      StepsAdd(timings, Start, before, c);
      TimingDone(timings, j - 1);
      assert Steps(timings, Start, before + c) == Pos(j % |timings|, 0);
      SmallMod(j, |timings|);
    } else {
      assert timings[..0] == [];
    }
  }

  lemma SmallMod(j: int, n: int)
    requires 0 < j <= n
    ensures j % n == if j == n then 0 else j
  {
  }

  /** With every count at least 1, a full round of `SumCounts` images brings
      the schedule back to its first timing with the counter at 0. */
  lemma SchedulePeriodic(timings: seq<Timing>)
    requires PositiveCounts(timings) && 1 <= |timings|
    ensures SumCounts(timings) >= |timings|
    ensures Steps(timings, Start, SumCounts(timings)) == Start
  {
    PrefixRounds(timings, |timings|);
    assert timings[..|timings|] == timings;
  }

  // ----- going back -----

  /** One iteration of the replay loop: check the counter first, then count. */
  function ReplayStep(timings: seq<Timing>, p: Pos): (q: Pos)
    requires 0 <= p.timing < |timings|
    ensures 0 <= q.timing < |timings|
    ensures InRange(timings, p) ==> 1 <= q.shown <= Quota(timings[q.timing].count)
  {
    if p.shown >= timings[p.timing].count then Pos((p.timing + 1) % |timings|, 1)
    else Pos(p.timing, p.shown + 1)
  }

  /** The position `update_timing_for_previous_image` computes for image `k`:
      `k` replay iterations from the first timing. */
  function ReplayPos(timings: seq<Timing>, k: nat): (p: Pos)
    requires |timings| >= 1
    ensures InRange(timings, p)
    ensures k >= 1 ==> p.shown >= 1
  {
    if k == 0 then Start else ReplayStep(timings, ReplayPos(timings, k - 1))
  }

  /** The replay lands one forward step behind: for image `k` it gives the
      timing of step `k - 1`, with the counter one higher. */
  lemma {:induction false} ReplayLagsForward(timings: seq<Timing>, k: nat)
    requires |timings| >= 1 && PositiveCounts(timings) && k >= 1
    ensures var q := Steps(timings, Start, k - 1);
      ReplayPos(timings, k) == Pos(q.timing, q.shown + 1)
  {
    if k > 1 {
      ReplayLagsForward(timings, k - 1);
    }
  }

  /** Only the counts matter to the replay: durations and break flags do not. */
  lemma {:induction false} ReplayIgnoresBreaks(timings: seq<Timing>, other: seq<Timing>, k: nat)
    requires |timings| == |other| >= 1
    requires forall i :: 0 <= i < |timings| ==> timings[i].count == other[i].count
    ensures ReplayPos(timings, k) == ReplayPos(other, k)
  {
    if k > 0 {
      ReplayIgnoresBreaks(timings, other, k - 1);
      var p := ReplayPos(timings, k - 1);
      assert timings[p.timing].count == other[p.timing].count;
      assert ReplayStep(timings, p) == ReplayStep(other, p);
    }
  }

  // ----- image index and timing together -----

  /** `(current_index, position)`. */
  datatype Cursor = Cursor(index: int, pos: Pos)

  /** `show_next_image` without the shuffle: the image index moves only when
      the timing that was active BEFORE the step is not a break. */
  function NextCursor(timings: seq<Timing>, n: int, c: Cursor): (d: Cursor)
    requires 0 <= c.pos.timing < |timings|
    ensures d.pos == Advance(timings, c.pos)
    ensures timings[c.pos.timing].isBreak ==> d.index == c.index
    ensures !timings[c.pos.timing].isBreak && 0 <= c.index < n ==>
      0 <= d.index < n && d.index == (c.index + 1) % n
  {
    var moved := if timings[c.pos.timing].isBreak then c.index else Playlist.NextIndex(c.index, n);
    Cursor(moved, Advance(timings, c.pos))
  }

  /** The cursor after `k` steps from the start. */
  function Run(timings: seq<Timing>, n: int, k: nat): (c: Cursor)
    requires |timings| >= 1
    ensures 0 <= c.pos.timing < |timings|
  {
    if k == 0 then Cursor(0, Start) else NextCursor(timings, n, Run(timings, n, k - 1))
  }

  predicate NoBreaks(timings: seq<Timing>) {
    forall i :: 0 <= i < |timings| ==> !timings[i].isBreak
  }

  /** Before the first wrap and without breaks, step `k` shows image `k`. */
  lemma {:induction false} RunNoBreaks(timings: seq<Timing>, n: int, k: nat)
    requires |timings| >= 1 && NoBreaks(timings) && k < n
    ensures Run(timings, n, k) == Cursor(k, Steps(timings, Start, k))
  {
    if k > 0 {
      RunNoBreaks(timings, n, k - 1);
    }
  }

  /** `previous_image`: one image back, timing recomputed by the replay. */
  function BackCursor(timings: seq<Timing>, c: Cursor): (d: Cursor)
    requires |timings| >= 1
    ensures c.index > 0 ==> d.index == c.index - 1 && InRange(timings, d.pos)
    ensures c.index <= 0 ==> d == c
  {
    if c.index > 0 then Cursor(c.index - 1, ReplayPos(timings, c.index - 1)) else c
  }

  /** Two 1-image timings of 30 s and 60 s over three images: image 1 is first
      shown under the 60 s timing, but after moving on to image 2 and back it
      is shown under the 30 s timing. */
  lemma BackShiftsTiming()
    ensures var timings := [Timing(1, 30, false), Timing(1, 60, false)];
      && Run(timings, 3, 1) == Cursor(1, Pos(1, 0))
      && Run(timings, 3, 2) == Cursor(2, Pos(0, 0))
      && BackCursor(timings, Run(timings, 3, 2)) == Cursor(1, Pos(0, 1))
  {
  }

  /** Going back as evidently intended for a schedule without breaks, before
      the first wrap: image `k` gets the position the forward steps gave it,
      `Steps(start, k)`. */
  function BackCursorCorrected(timings: seq<Timing>, c: Cursor): (d: Cursor)
    requires |timings| >= 1
    ensures c.index > 0 ==> d.index == c.index - 1 && InRange(timings, d.pos)
    ensures c.index > 0 ==> d.pos == Steps(timings, Start, c.index - 1)
    ensures c.index <= 0 ==> d == c
  {
    if c.index > 0 then Cursor(c.index - 1, Steps(timings, Start, c.index - 1)) else c
  }

  /** Without breaks and before the first wrap, the corrected back undoes a
      step: the image comes back with the timing and counter it had. */
  lemma BackCorrectedUndoesStep(timings: seq<Timing>, n: int, k: nat)
    requires |timings| >= 1 && NoBreaks(timings) && 1 <= k < n
    ensures BackCursorCorrected(timings, Run(timings, n, k)) == Run(timings, n, k - 1)
    ensures NextCursor(timings, n, BackCursorCorrected(timings, Run(timings, n, k))) == Run(timings, n, k)
  {
    RunNoBreaks(timings, n, k);
    RunNoBreaks(timings, n, k - 1);
  }

  /** With a break the corrected back is still off: over timings of one
      30 s image and a one-image break, image 1 is shown as a picture at
      step 2, under the first timing, but going back from image 2 puts it
      under the break. */
  lemma BackCorrectedMissesBreaks()
    ensures var timings := [Timing(1, 30, false), Timing(1, 10, true)];
      && Run(timings, 3, 2) == Cursor(1, Pos(0, 0))
      && Run(timings, 3, 3) == Cursor(2, Pos(1, 0))
      && BackCursorCorrected(timings, Run(timings, 3, 3)) == Cursor(1, Pos(1, 0))
  {
  }
}
