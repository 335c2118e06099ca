/** Fixed-time mode: every image is shown for the same number of seconds,
    picked as minutes and seconds in `FixedTimeModeWindow` and handed to
    `ImagePlayerWindow` in milliseconds. */
module FixedWindow {
  import Playlist

  /** `start_fixed_time_mode`: `(minutes * 60 + seconds) * 1000` milliseconds. */
  function TimerDurationMs(minutes: int, seconds: int): (ms: int)
    ensures ms % 1000 == 0
    ensures 0 <= minutes && 0 <= seconds ==> ms >= 0
  {
    (minutes * 60 + seconds) * 1000
  }

  /** The player's countdown starts at `timer_duration // 1000`, which for the
      spin boxes' ranges (0 to 59 each) is `minutes * 60 + seconds` seconds,
      and the "mm:ss" label first reads back the minutes and seconds picked. */
  lemma InitialCountdown(minutes: int, seconds: int)
    requires 0 <= minutes <= 59 && 0 <= seconds <= 59
    ensures TimerDurationMs(minutes, seconds) / 1000 == minutes * 60 + seconds
    ensures Playlist.Clock(TimerDurationMs(minutes, seconds) / 1000) == (minutes, seconds)
  {
    var total := minutes * 60 + seconds;
    assert TimerDurationMs(minutes, seconds) == total * 1000;
    Playlist.ClockUnique(minutes, seconds);
  }

  /** `ImagePlayerWindow`. */
  class ImagePlayer {
    var images: seq<string>
    const timerDuration: int
    const shuffleMode: bool
    var currentIndex: int
    var remainingTime: int
    var timerRunning: bool

    /** `timer_duration // 1000`: the full countdown in seconds. */
    function Countdown(): int
      reads this
    {
      timerDuration / 1000
    }

    /** An image is selected and the countdown is full, or strictly below
        full and not negative. */
    predicate Valid()
      reads this
    {
      && |images| >= 1
      && 0 <= currentIndex < |images|
      && (remainingTime == Countdown() || 0 <= remainingTime < Countdown())
    }

    /** `__init__`; `shuffled` is the order `random.shuffle` picks when
        shuffle mode is on. */
    constructor (images: seq<string>, timerDuration: int, shuffleMode: bool, shuffled: seq<string>)
      requires |images| >= 1 && multiset(shuffled) == multiset(images)
      ensures Valid()
      ensures this.timerDuration == timerDuration && this.shuffleMode == shuffleMode
      ensures this.images == if shuffleMode then shuffled else images
      ensures currentIndex == 0 && remainingTime == timerDuration / 1000 && !timerRunning
    {
      this.images := if shuffleMode then shuffled else images;
      this.timerDuration := timerDuration;
      this.shuffleMode := shuffleMode;
      currentIndex := 0;
      remainingTime := timerDuration / 1000;
      timerRunning := false;
      new;
      assert |shuffled| == |multiset(shuffled)| == |images|;
    }

    /** `start_timer`: sets the running flag, and does nothing if it is set. */
    method StartTimer()
      modifies this
      ensures timerRunning
      ensures images == old(images) && currentIndex == old(currentIndex)
      ensures remainingTime == old(remainingTime)
    {
      if !timerRunning {
        timerRunning := true;
      }
    }

    /** `stop_timer` (and `end_practice`, which also closes the window). */
    method StopTimer()
      modifies this
      ensures !timerRunning
      ensures images == old(images) && currentIndex == old(currentIndex)
      ensures remainingTime == old(remainingTime)
    {
      if timerRunning {
        timerRunning := false;
      }
    }

    /** `reset_timer`: the countdown is full again; the image stays. */
    method ResetTimer()
      requires Valid()
      modifies this
      ensures Valid()
      ensures remainingTime == Countdown()
      ensures images == old(images) && currentIndex == old(currentIndex)
      ensures timerRunning == old(timerRunning)
    {
      remainingTime := timerDuration / 1000;
    }

    /** `show_next_image` (also `skip_image`): the next index with
        wrap-around, a reshuffle only at the wrap and only in shuffle mode,
        and a full countdown. */
    method ShowNextImage(shuffled: seq<string>)
      requires Valid() && multiset(shuffled) == multiset(images)
      modifies this
      ensures Valid()
      ensures currentIndex == Playlist.NextIndex(old(currentIndex), |old(images)|)
      ensures images == if shuffleMode && old(currentIndex) == |old(images)| - 1 then shuffled else old(images)
      ensures remainingTime == Countdown()
      ensures timerRunning == old(timerRunning)
    {
      if currentIndex >= |images| - 1 {
        currentIndex := 0;
        if shuffleMode {
          assert |shuffled| == |multiset(shuffled)| == |images|;
          images := shuffled;
        }
      } else {
        currentIndex := currentIndex + 1;
      }
      remainingTime := timerDuration / 1000;
    }

    /** `previous_image`: one image back with a full countdown, and nothing
        at all at the first image. */
    method PreviousImage()
      requires Valid()
      modifies this
      ensures Valid()
      ensures currentIndex == Playlist.PreviousIndex(old(currentIndex))
      ensures old(currentIndex) > 0 ==> remainingTime == Countdown()
      ensures old(currentIndex) == 0 ==> remainingTime == old(remainingTime)
      ensures images == old(images) && timerRunning == old(timerRunning)
    {
      if currentIndex > 0 {
        currentIndex := currentIndex - 1;
        remainingTime := timerDuration / 1000;
      }
    }

    /** `update_timer`, once a second: a positive countdown goes down by one;
        at zero the next image comes with a full countdown. */
    method Tick(shuffled: seq<string>)
      requires Valid() && multiset(shuffled) == multiset(images)
      modifies this
      ensures Valid()
      ensures old(remainingTime) > 0 ==>
        remainingTime == old(remainingTime) - 1 && images == old(images) && currentIndex == old(currentIndex)
      ensures old(remainingTime) <= 0 ==>
        currentIndex == Playlist.NextIndex(old(currentIndex), |old(images)|) && remainingTime == Countdown()
      ensures old(remainingTime) <= 0 ==>
        images == if shuffleMode && old(currentIndex) == |old(images)| - 1 then shuffled else old(images)
      ensures timerRunning == old(timerRunning)
    {
      if remainingTime > 0 {
        remainingTime := remainingTime - 1;
      } else {
        ShowNextImage(shuffled);
        remainingTime := timerDuration / 1000;
      }
    }

    /** `update_back_button_state`: Back is enabled exactly off the first
        image, which is exactly when `previous_image` moves. */
    function BackEnabled(): (enabled: bool)
      requires Valid()
      reads this
      ensures enabled <==> Playlist.PreviousIndex(currentIndex) != currentIndex
    {
      currentIndex != 0
    }
  }

  /** With a duration that is not negative, the countdown of a player in a
      valid state never is. */
  lemma CountdownNotNegative(p: ImagePlayer)
    requires p.Valid() && p.timerDuration >= 0
    ensures 0 <= p.remainingTime <= p.Countdown()
  {
  }
}
