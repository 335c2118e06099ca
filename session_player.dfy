/** `SessionPlayerWindow`: the slideshow that walks through a list of timings,
    showing `count` images of `duration` seconds each, or a break screen. */
module SessionWindow {
  import opened SessionFormat
  import opened Schedule
  import Playlist

  /** What the image label shows. */
  datatype Display = BreakMessage | Picture(path: string)

  /** What `update_timer` does to the sound cue. */
  datatype Cue = Play | Silence | Unchanged

  class SessionPlayer {
    var images: seq<string>
    const timings: seq<Timing>
    const shuffleMode: bool
    var currentIndex: int
    var currentTimingIndex: int
    var imagesDisplayedForCurrentTiming: int
    var remainingTime: int
    var timerRunning: bool

    function Position(): Pos
      reads this
    {
      Pos(currentTimingIndex, imagesDisplayedForCurrentTiming)
    }

    function Here(): Cursor
      reads this
    {
      Cursor(currentIndex, Position())
    }

    /** The index bounds every operation keeps: an image and a timing are
        selected, the counter is within the timing's quota, and the countdown
        is either full or strictly below it and not negative. */
    predicate Valid()
      reads this
    {
      && |timings| >= 1
      && |images| >= 1
      && 0 <= currentIndex < |images|
      && InRange(timings, Position())
      && (remainingTime == timings[currentTimingIndex].duration
          || 0 <= remainingTime < timings[currentTimingIndex].duration)
    }

    /** `__init__` once the timings are parsed; `shuffled` is the order
        `random.shuffle` picks when shuffle mode is on. */
    constructor (images: seq<string>, timings: seq<Timing>, shuffleMode: bool, shuffled: seq<string>)
      requires |images| >= 1 && |timings| >= 1
      requires multiset(shuffled) == multiset(images)
      ensures Valid()
      ensures this.timings == timings && this.shuffleMode == shuffleMode
      ensures this.images == if shuffleMode then shuffled else images
      ensures Here() == Cursor(0, Start)
      ensures remainingTime == timings[0].duration && !timerRunning
    {
      this.timings := timings;
      this.shuffleMode := shuffleMode;
      currentIndex := 0;
      timerRunning := false;
      currentTimingIndex := 0;
      imagesDisplayedForCurrentTiming := 0;
      remainingTime := timings[0].duration;
      this.images := if shuffleMode then shuffled else images;
      new;
      assert |shuffled| == |multiset(shuffled)| == |images|;
    }

    /** `start_timer`: sets the running flag, and does nothing if it is set. */
    method StartTimer()
      modifies this
      ensures timerRunning
      ensures images == old(images) && Here() == old(Here()) && remainingTime == old(remainingTime)
    {
      if !timerRunning {
        timerRunning := true;
      }
    }

    /** `stop_timer` (and `end_session`, which also closes the window). */
    method StopTimer()
      modifies this
      ensures !timerRunning
      ensures images == old(images) && Here() == old(Here()) && remainingTime == old(remainingTime)
    {
      if timerRunning {
        timerRunning := false;
      }
    }

    /** `reset_timer`: the countdown restarts at the current timing's duration. */
    method ResetTimer()
      requires Valid()
      modifies this
      ensures Valid()
      ensures remainingTime == timings[currentTimingIndex].duration
      ensures images == old(images) && Here() == old(Here()) && timerRunning == old(timerRunning)
    {
      remainingTime := timings[currentTimingIndex].duration;
    }

    /** `show_next_image` (also `skip_image`). */
    method ShowNextImage(shuffled: seq<string>)
      requires Valid() && multiset(shuffled) == multiset(images)
      modifies this
      ensures Valid()
      ensures Here() == NextCursor(timings, |old(images)|, old(Here()))
      ensures remainingTime == timings[currentTimingIndex].duration
      ensures var wrapped := !old(timings[currentTimingIndex].isBreak) && old(currentIndex) == |old(images)| - 1;
        images == if wrapped && shuffleMode then shuffled else old(images)
      ensures timerRunning == old(timerRunning)
    {
      imagesDisplayedForCurrentTiming := imagesDisplayedForCurrentTiming + 1;
      var isBreak := timings[currentTimingIndex].isBreak;
      if imagesDisplayedForCurrentTiming >= timings[currentTimingIndex].count {
        currentTimingIndex := (currentTimingIndex + 1) % |timings|;
        imagesDisplayedForCurrentTiming := 0;
      }
      remainingTime := timings[currentTimingIndex].duration;
      if !isBreak {
        if currentIndex >= |images| - 1 {
          currentIndex := 0;
          if shuffleMode {
            assert |shuffled| == |multiset(shuffled)| == |images|;
            images := shuffled;
          }
        } else {
          currentIndex := currentIndex + 1;
        }
      }
    }

    /** `show_current_image`: the break message during a break, otherwise the
        image at the current index. */
    function Screen(): (s: Display)
      requires Valid()
      reads this
      ensures s == BreakMessage <==> timings[currentTimingIndex].isBreak
      ensures s.Picture? ==> s.path == images[currentIndex]
    {
      if timings[currentTimingIndex].isBreak then BreakMessage else Picture(images[currentIndex])
    }

    /** `update_timer`, once a second: count down, or move on at zero. The
        sound cue plays once ten seconds or fewer are left. */
    method Tick(shuffled: seq<string>) returns (cue: Cue)
      requires Valid() && multiset(shuffled) == multiset(images)
      modifies this
      ensures Valid()
      ensures old(remainingTime) > 0 ==> cue == (if remainingTime <= 10 then Play else Silence)
      ensures old(remainingTime) <= 0 ==> cue == Unchanged
      ensures old(remainingTime) > 0 ==>
        remainingTime == old(remainingTime) - 1 && images == old(images) && Here() == old(Here())
      ensures old(remainingTime) <= 0 ==>
        Here() == NextCursor(timings, |old(images)|, old(Here()))
        && remainingTime == timings[currentTimingIndex].duration
      ensures var wrapped := !old(timings[currentTimingIndex].isBreak) && old(currentIndex) == |old(images)| - 1;
        old(remainingTime) <= 0 ==> images == if wrapped && shuffleMode then shuffled else old(images)
      ensures timerRunning == old(timerRunning)
    {
      if remainingTime > 0 {
        remainingTime := remainingTime - 1;
        cue := if remainingTime <= 10 then Play else Silence;
      } else {
        ShowNextImage(shuffled);
        cue := Unchanged;
      }
    }

    /** `previous_image`: nothing at the first image; otherwise one image
        back, with the timing state recomputed by the replay. */
    method PreviousImage()
      requires Valid()
      modifies this
      ensures Valid()
      ensures Here() == BackCursor(timings, old(Here()))
      ensures old(currentIndex) > 0 ==> remainingTime == timings[currentTimingIndex].duration
      ensures old(currentIndex) == 0 ==> remainingTime == old(remainingTime)
      ensures images == old(images) && timerRunning == old(timerRunning)
    {
      if currentIndex > 0 {
        currentIndex := currentIndex - 1;
        UpdateTimingForPreviousImage();
      }
    }

    /** `update_timing_for_previous_image`: replay `current_index` iterations
        of check-then-count from the first timing. */
    method UpdateTimingForPreviousImage()
      requires |timings| >= 1 && currentIndex >= 0
      modifies this
      ensures images == old(images) && currentIndex == old(currentIndex) && timerRunning == old(timerRunning)
      ensures Position() == ReplayPos(timings, currentIndex)
      ensures remainingTime == timings[currentTimingIndex].duration
    {
      currentTimingIndex := 0;
      imagesDisplayedForCurrentTiming := 0;
      var i := 0;
      while i < currentIndex
        invariant 0 <= i <= currentIndex
        invariant Position() == ReplayPos(timings, i)
        invariant images == old(images) && currentIndex == old(currentIndex)
        invariant timerRunning == old(timerRunning)
      {
        if imagesDisplayedForCurrentTiming >= timings[currentTimingIndex].count {
          currentTimingIndex := (currentTimingIndex + 1) % |timings|;
          imagesDisplayedForCurrentTiming := 0;
        }
        imagesDisplayedForCurrentTiming := imagesDisplayedForCurrentTiming + 1;
        i := i + 1;
      }
      remainingTime := timings[currentTimingIndex].duration;
    }

    /** `update_back_button_state`: Back is enabled exactly off the first image,
        which is exactly when `previous_image` moves. */
    function BackEnabled(): (enabled: bool)
      requires Valid()
      reads this
      ensures enabled <==> BackCursor(timings, Here()) != Here()
    {
      currentIndex != 0
    }
  }

  /** `SessionPlayerWindow.__init__` with the text: a text the strict parser
      rejects raises `ValueError`, so no player opens. */
  method Open(images: seq<string>, text: string, shuffleMode: bool, shuffled: seq<string>)
    returns (r: Result<SessionPlayer>)
    requires |images| >= 1 && multiset(shuffled) == multiset(images)
    ensures r.Ok? <==> ParseSessionDuration(text).Ok?
    ensures r.Err? ==> r.error == ParseSessionDuration(text).error
    ensures r.Ok? ==> fresh(r.value) && r.value.Valid() && r.value.timings == ParseSessionDuration(text).value
  {
    var timings := ParseSessionDuration(text);
    if timings.Err? {
      return Err(timings.error);
    }
    var p := new SessionPlayer(images, timings.value, shuffleMode, shuffled);
    return Ok(p);
  }

  /** With no negative durations, the countdown of a player in a valid state
      is never negative. */
  lemma CountdownNotNegative(p: SessionPlayer)
    requires p.Valid()
    requires forall i :: 0 <= i < |p.timings| ==> p.timings[i].duration >= 0
    ensures p.remainingTime >= 0
  {
  }
}
