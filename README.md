# Image timer: session timing engine

A desktop tool for timed figure-drawing practice shows the images of a
collection one after another, each for a set time. It has two players:

- The **fixed-time player** (`ImagePlayerWindow`) shows every image for the
  same number of seconds. The user picks the time as minutes and seconds.
- The **session player** (`SessionPlayerWindow`) follows a *session
  duration* text such as `"2x30sec + 1x5min break"`. The text lists timings
  of the form (count, seconds, is-break). The player runs through them
  cyclically: `count` images of that many seconds each, or `count` break
  screens.

Session texts are written by the custom-session dialog
(`convert_segments_to_duration`). They are read by two parsers:

- the strict parser of the session player (`parse_session_duration`, which
  raises `ValueError`);
- the lenient parser in `src/utils/session_utils.py`, which skips what it
  cannot read.

The model has seven modules:

| module | file | what it holds |
|---|---|---|
| `PyStr` | `py_str.dfy` | The Python string built-ins the formats rely on, on `seq<char>`: `find`, `in`, `split`, `replace`, `strip`, `int()` and `str()` of an integer. |
| `SessionFormat` | `session_format.dfy` | The strict parser, the serialiser and the `"name: duration"` entries of the session list. It proves what the strict parser makes of the serialiser's output. It also holds the corrected parser. |
| `SessionUtils` | `lenient_format.dfy` | The lenient parser, with its own round trip. |
| `Playlist` | `playlist.dfy` | The arithmetic both players share: the next index with wrap-around, and the `mm:ss` split of the countdown. |
| `Schedule` | `schedule.dfy` | The session player's position in the timings, on values. It covers the forward step, the replay that recomputes the position when going back, and the cursor of image index and position. |
| `SessionWindow` | `session_player.dfy` | `SessionPlayerWindow` as a class whose fields the methods update. The replay is a `while` loop proved against `Schedule.ReplayPos`. |
| `FixedWindow` | `fixed_player.dfy` | `ImagePlayerWindow` as a class, and the minutes-and-seconds to milliseconds arithmetic. |

How the source is represented:

- `random.shuffle` becomes a parameter `shuffled` with the same multiset of
  images as the list it replaces.
- The one-second `QTimer` tick becomes a call to `Tick`.
- Python's `ValueError` becomes a `Result` whose error says which conversion
  failed.

Points where the code behaves in a way that is easy to misread; the model
follows the code:

- **Image index during a break.** `show_next_image` reads `is_break` at
  `session_window.py:721`, before the counter moves on to the next timing
  (:722-725). So the timing active *before* the step decides whether the
  image index moves (:731-737).
- **Name prefix.** The strict parser takes `split(": ")[1]`. That is the
  piece between the first and second `": "`, not everything after the
  name.
- **Numbers.** `int()` accepts zero, negative numbers, a sign, underscores
  and surrounding white space. Timings are therefore any integers, not only
  positive ones. The invariants are stated so that they hold anyway: the
  counter stays at or below `max(1, count)` (it reaches the count after going
  back, `ReplayPos`, and is below it after a forward step, `Advance`), and
  the countdown is either full or between 0 and full.
- **Empty image list.** Nothing checks the image list for emptiness. The
  fixed-time player indexes it in its first `show_current_image`
  (`fixed_window.py:559`) and fails with an `IndexError` at once. The session
  player indexes it only outside breaks (`session_window.py:675-690`), so it
  fails the first time a timing that is not a break is shown. Both
  constructors require a non-empty list.
- **Round trip.** The serialiser does not always round-trip with the strict
  parser, and going back then forward does not always restore the position.
  See "## Findings".

## Model

| member | source | states |
|---|---|---|
| `PyStr.Find` | src/ui/session_window.py:790 | `-1` or an index where the substring occurs, with no occurrence before it (Python's `find` / `in`) |
| `PyStr.Split` | src/ui/session_window.py:791-793 | `str.split(sep)` gives at least one piece |
| `PyStr.SplitRejoins` | src/ui/session_window.py:791-793 | the pieces of `str.split(sep)`, joined by `sep`, give back the text |
| `PyStr.SplitPiecesLack` | src/ui/session_window.py:791-793 | no piece of `str.split(sep)` contains `sep` |
| `PyStr.SplitJoin` | src/ui/session_window.py:793 | splitting a joined list gives the list back when a character of the separator appears in no piece |
| `PyStr.ReplaceAbsent` | src/ui/session_window.py:800 | `str.replace` leaves a text without the pattern unchanged |
| `PyStr.ReplaceSuffix` | src/ui/session_window.py:807 | replacing a trailing unit whose first character does not occur earlier removes just that unit |
| `PyStr.Strip` | src/utils/session_utils.py:14 | `str.strip(chars)`: no stripped character is left at either end, and a text already clean is unchanged |
| `PyStr.StripBounds` | src/utils/session_utils.py:14 | what `strip` leaves is one slice of the text, and everything before and after that slice is a stripped character |
| `PyStr.PyIntIgnoresSpace` | src/utils/session_utils.py:13 | `int()` accepts every literal, and white space around it does not change the value |
| `PyStr.StripAround` | src/utils/session_utils.py:14 | `strip` removes exactly the runs of stripped characters around a text whose ends are not stripped |
| `PyStr.SplitHead` | src/ui/session_window.py:791 | the first piece of `split` is a prefix of the text, ended by the separator or by the end of the text, and no separator starts inside it (the first occurrence is used) |
| `PyStr.NotLiteral` | src/ui/session_window.py:800 | `int(text)` raises `ValueError` when the text has a character that no literal may contain |
| `PyStr.NatToString` | src/ui/session_window.py:948 | `str(n)` of a natural number is a digit run whose value is `n` |
| `SessionFormat.IntToStringIsNumber` | src/ui/session_window.py:948 | every character of `str(i)` is a digit or `-`, so it contains no separator character |
| `PyStr.IntToString` | src/ui/session_window.py:948 | `str(i)` is never empty |
| `PyStr.IntToStringShape` | src/ui/session_window.py:948 | `str(i)` starts with `-` exactly for a negative `i`; the rest is at least one digit and nothing but digits |
| `PyStr.IntToStringParses` | src/ui/session_window.py:801 | `int(str(i)) == i` for every integer |
| `SessionFormat.Int` | src/ui/session_window.py:800-801 | `int()` as a `Result`: the value on success, and otherwise the error naming the text |
| `SessionFormat.CountAndDuration` | src/ui/session_window.py:799 | `count, duration_part = segment.split("x")` succeeds exactly when there are two parts, and the segment is `count + "x" + duration_part` |
| `SessionFormat.ParseTiming` | src/ui/session_window.py:796-816 | a parsed piece is a break exactly when the piece contains `"break"` |
| `SessionFormat.PieceErrors` | src/ui/session_window.py:799-815 | a piece without exactly two parts on `x` raises, and so does a non-break piece with neither `sec` nor `min` |
| `SessionFormat.EmptyTextFails` | src/ui/session_window.py:793-799 | the empty text raises `ValueError` (its one piece has no `x`) |
| `SessionFormat.ParseAll` | src/ui/session_window.py:794-817 | the loop succeeds exactly when every piece parses, and then returns one timing per piece in input order |
| `SessionFormat.DurationText` | src/ui/session_window.py:790-791 | the duration part contains no `": "`, and a text without `": "` is kept whole |
| `SessionFormat.DurationTextFollowsFirst` | src/ui/session_window.py:790-791 | with a `": "`, the duration part is what follows the first `": "`, up to the next one or to the end |
| `SessionFormat.ParseSessionDuration` | src/ui/session_window.py:787-817 | on success, one timing per `" + "` piece of the duration part |
| `SessionFormat.ParseActiveSeconds` | src/ui/session_window.py:805-807 | `"NxMsec"` parses to `(N, M, False)` |
| `SessionFormat.ParseActiveMinutes` | src/ui/session_window.py:808-813 | `"NxMmin"` parses to `(N, 60*M, False)` |
| `SessionFormat.ParseMinutesBreak` | src/ui/session_window.py:796-801 | `"NxMmin break"` parses to `(N, 60*M, True)` |
| `SessionFormat.ParseSecondsBreak` | src/ui/session_window.py:796-801 | `"NxMsec break"` raises `ValueError` on the text `"Msec break"` |
| `SessionFormat.SegmentTexts` | src/ui/session_window.py:946-952 | one text per dialog row, in order |
| `SessionFormat.ChunkIsText` | src/ui/session_window.py:946-952 | what the loop appends for one row is that row's text followed by `" + "` |
| `SessionFormat.ChunksJoin` | src/ui/session_window.py:944-952 | the loop builds the row texts joined by `" + "`, with a trailing `" + "` |
| `SessionFormat.ConvertSegmentsToDuration` | src/ui/session_window.py:943-954 | the serialised text is the row texts `"{count}x{duration}{min,sec}[ break]"` joined by `" + "` |
| `SessionFormat.TimingsOf` | src/ui/session_window.py:800-816 | the timings the player should get from the rows: minutes times 60, the break flag from the row type |
| `SessionFormat.ParseSegmentText` | src/ui/session_window.py:796-816 | the strict parser reads a row text back to its timing, except a seconds break, which raises |
| `SessionFormat.TextLacks` | src/ui/session_window.py:946-952 | a row text contains no `':'` and no `'+'` |
| `SessionFormat.SplitConverted` | src/ui/session_window.py:793 | splitting the serialised text on `" + "` gives back the row texts |
| `SessionFormat.ConvertedParses` | src/ui/session_window.py:943-954 | parsing the serialised rows succeeds exactly when no row is a seconds break, and then gives `TimingsOf(rows)` |
| `SessionFormat.SessionEntry` | src/ui/session_window.py:189 | the entry is the name, then `": "` right after it, then the duration |
| `SessionFormat.EntryDurationText` | src/ui/session_window.py:189 | for a name without `": "`, the duration part of `"name: duration"` is the duration |
| `SessionFormat.EntryParses` | src/ui/session_window.py:189 | a list entry `"name: text"` with a name without `": "` parses to the rows' timings |
| `SessionFormat.NamedEntryText` | src/ui/session_window.py:790-791 | for a name `a: b`, the duration part the parser reads from `"a: b: text"` is `b` |
| `SessionFormat.NamedWithSeparatorFails` | src/ui/session_window.py:790-791 | the entry `"Pose: Gesture: 2x30sec"` raises `ValueError`: the parser reads `"Gesture"` |
| `SessionFormat.ParseTimingCorrected` | src/ui/session_window.py:796-801 | the corrected piece parser: a break is still exactly a piece containing `"break"` |
| `SessionFormat.CorrectedAgrees` | src/ui/session_window.py:796-816 | the corrected piece parser differs from the original only on pieces containing `"sec break"` |
| `SessionFormat.ParseSecondsBreakCorrected` | src/ui/session_window.py:796-801 | the corrected parser reads `"NxMsec break"` as `(N, M, True)` |
| `SessionFormat.ParseSegmentTextCorrected` | src/ui/session_window.py:796-816 | the corrected parser reads every row text back to its timing |
| `SessionFormat.DurationTextCorrected` | src/ui/session_window.py:790-791 | the corrected duration part contains no `": "`, and a text without `": "` is kept whole |
| `SessionFormat.ParseSessionDurationCorrected` | src/ui/session_window.py:787-817 | on success, one timing per piece of the corrected duration part |
| `SessionFormat.LastPiece` | src/ui/session_window.py:791 | the last `": "` piece of `x + ": " + y` is `y` when `y` has no `": "` |
| `SessionFormat.EntryParsesCorrected` | src/ui/session_window.py:189 | with the corrected parser, every entry `"name: text"`, whatever the name, and the bare text parse to the rows' timings |
| `SessionUtils.StripName` | src/utils/session_utils.py:4-5 | the text after the first `": "`: the part before it has no `": "`, and a text without `": "` is kept whole |
| `SessionUtils.FirstSeparatorOnly` | src/utils/session_utils.py:4-5 | after a name without `": "`, everything is kept, later `": "` included |
| `SessionUtils.ParseSegment` | src/utils/session_utils.py:9-30 | a piece is read only when it has two parts on `x` and `int()` reads the count; the row has that count; it is a break exactly when its stripped unit text contains `"break"`; minutes give a multiple of 60 |
| `SessionUtils.UnitEntry` | src/utils/session_utils.py:14-30 | the row keeps the count and is a break exactly when the unit text contains `"break"`; after `" break"` is removed, a text with `"min"` gives a row exactly when `int()` reads it without `"min"`, with 60 times that value, and any other text gives a row exactly when `int()` reads it without `"sec"`, with that value |
| `SessionUtils.Collect` | src/utils/session_utils.py:7-32 | no more rows than pieces, and each row comes from some piece |
| `SessionUtils.CollectAppend` | src/utils/session_utils.py:8-28 | the loop over `a + b` gives the rows of `a` and then those of `b` |
| `SessionUtils.CollectAll` | src/utils/session_utils.py:8-28 | when every piece reads, the rows are the pieces' rows in input order |
| `SessionUtils.CollectSkips` | src/utils/session_utils.py:10-11 | pieces that do not read are skipped |
| `SessionUtils.ParseSessionDuration` | src/utils/session_utils.py:1-32 | at most one row per `" + "` piece |
| `SessionUtils.EmptyText` | src/utils/session_utils.py:8-11 | the empty text gives no rows |
| `SessionUtils.EntriesOf` | src/utils/session_utils.py:28 | the rows expected from dialog rows: one per row, minutes times 60 |
| `SessionUtils.ReadPiece` | src/utils/session_utils.py:9-28 | `"NxM{sec,min}[ break]"` reads as its count, seconds, unit and type |
| `SessionUtils.ReadSegmentText` | src/utils/session_utils.py:9-28 | every row text the dialog writes reads back to its row, seconds breaks included |
| `SessionUtils.ConvertedReads` | src/utils/session_utils.py:1-32 | the lenient parser reads any serialised text back to its rows |
| `SessionUtils.EntryReads` | src/utils/session_utils.py:4-5 | so does a list entry whose name has no `": "` |
| `SessionUtils.NamedText` | src/utils/session_utils.py:4-5 | a name prefix without `": "` does not change the rows of a text without `": "` |
| `SessionUtils.BareNumberIsSeconds` | src/utils/session_utils.py:21-26 | a piece without a unit, such as `"2x30"`, is read as seconds |
| `Playlist.NextIndex` | src/ui/fixed_window.py:587-592 | the next index is in range and is `(i + 1) mod n`, and it is 0 exactly after the last index |
| `Playlist.PreviousIndex` | src/ui/fixed_window.py:533-536 | going back from an index that is not negative stays at or below it and not below 0, and stays put exactly at 0 |
| `Playlist.PreviousUndoesNext` | src/ui/fixed_window.py:533-536 | away from the wrap, back after next and next after back return to the same index |
| `Playlist.Advanced` | src/ui/fixed_window.py:585-592 | steps from an index in range stay in range |
| `Playlist.AdvancedAdd` | src/ui/fixed_window.py:585-595 | `a + b` steps are `a` steps then `b` steps |
| `Playlist.AdvancedBelowEnd` | src/ui/fixed_window.py:591-592 | below the last index, `k` steps add `k` |
| `Playlist.FullLap` | src/ui/fixed_window.py:585-595 | without shuffle, `len(images)` steps from any index come back to it, and step `k` from 0 shows image `k` |
| `Playlist.Clock` | src/ui/fixed_window.py:525-527 | the label's minutes and seconds: seconds in `[0, 60)` and `60*minutes + seconds` is the countdown |
| `Playlist.ClockUnique` | src/ui/session_window.py:747-750 | the split is unique: `60*m + s` with `0 <= s < 60` reads back as `(m, s)` |
| `Schedule.Advance` | src/ui/session_window.py:718-725 | the timing index stays in range; once the counter reaches the count the position is the next timing (wrapping) at 0, and the counter stays below `max(1, count)` |
| `Schedule.Steps` | src/ui/session_window.py:715-725 | `k` steps keep the timing index in range and the counter non-negative |
| `Schedule.StepsAdd` | src/ui/session_window.py:715-725 | steps compose |
| `Schedule.WithinTiming` | src/ui/session_window.py:718-725 | inside one timing the counter just counts |
| `Schedule.TimingDone` | src/ui/session_window.py:722-725 | a timing of count `c >= 1` lasts exactly `c` steps |
| `Schedule.PrefixRounds` | src/ui/session_window.py:715-725 | after the counts of the first `j` timings, the position is timing `j` at 0 |
| `Schedule.SchedulePeriodic` | src/ui/session_window.py:715-725 | with every count at least 1, a full round of images brings the schedule back to the first timing at 0 |
| `Schedule.ReplayStep` | src/ui/session_window.py:638-646 | one replay iteration keeps the timing in range and leaves the counter between 1 and `max(1, count)` |
| `Schedule.ReplayPos` | src/ui/session_window.py:630-646 | the replayed position is in range, with the counter at least 1 after one iteration |
| `Schedule.ReplayLagsForward` | src/ui/session_window.py:637-646 | the replay for image `k` gives the timing of forward step `k - 1`, with the counter one higher |
| `Schedule.ReplayIgnoresBreaks` | src/ui/session_window.py:637-646 | the replay depends only on the counts: break flags and durations do not matter |
| `Schedule.NextCursor` | src/ui/session_window.py:715-737 | the position advances; the image index stays during a break (the timing before the step), and otherwise moves to `(i + 1) mod n` |
| `Schedule.Run` | src/ui/session_window.py:715-737 | the cursor after `k` steps has its timing index in range |
| `Schedule.RunNoBreaks` | src/ui/session_window.py:731-737 | without breaks and before the first wrap, step `k` shows image `k` at position `Steps(k)` |
| `Schedule.BackCursor` | src/ui/session_window.py:616-646 | at image 0 nothing changes; otherwise the index goes down by one and the position is in range |
| `Schedule.BackShiftsTiming` | src/ui/session_window.py:637-646 | with timings 30 s then 60 s, image 1 is first shown under the 60 s timing but under the 30 s timing after going on and back |
| `Schedule.BackCursorCorrected` | src/ui/session_window.py:616-646 | going back from image `k` gives image `k - 1` the position in range that `k - 1` forward steps reach, the position it had going forward in a schedule without breaks before the first wrap |
| `Schedule.BackCorrectedMissesBreaks` | src/ui/session_window.py:715-737 | with a 30 s timing and a break, image 1 is shown as a picture under the first timing, but the corrected back puts it under the break |
| `Schedule.BackCorrectedUndoesStep` | src/ui/session_window.py:616-646 | without breaks, the corrected back undoes a step and a step forward after it restores the cursor |
| `SessionWindow.SessionPlayer.constructor` | src/ui/session_window.py:343-400 | first image, first timing, counter 0, the first timing's duration, stopped, and the images shuffled in shuffle mode |
| `SessionWindow.SessionPlayer.StartTimer` | src/ui/session_window.py:558-562 | running afterwards; nothing else changes, so starting twice is starting once |
| `SessionWindow.SessionPlayer.StopTimer` | src/ui/session_window.py:583-587 | stopped afterwards; nothing else changes |
| `SessionWindow.SessionPlayer.ResetTimer` | src/ui/session_window.py:607-610 | the countdown is the current timing's duration; the position does not move |
| `SessionWindow.SessionPlayer.ShowNextImage` | src/ui/session_window.py:715-740 | the cursor becomes `NextCursor`, the images are reshuffled only at a wrap in shuffle mode, the countdown is the new timing's duration, and the invariant holds |
| `SessionWindow.SessionPlayer.Screen` | src/ui/session_window.py:673-696 | the break message exactly during a break timing, and otherwise the image at the current index |
| `SessionWindow.SessionPlayer.Tick` | src/ui/session_window.py:658-671 | a positive countdown goes down by one and nothing else moves; at 0 the player steps as `show_next_image` does, with the images reshuffled only at a wrap outside a break in shuffle mode; the sound cue plays exactly at 10 seconds or fewer |
| `SessionWindow.SessionPlayer.PreviousImage` | src/ui/session_window.py:616-628 | the cursor becomes `BackCursor`: unchanged at image 0, else one image back with the replayed position and a full countdown |
| `SessionWindow.SessionPlayer.UpdateTimingForPreviousImage` | src/ui/session_window.py:630-650 | the loop leaves the position at `ReplayPos(current_index)` and the countdown at that timing's duration |
| `SessionWindow.SessionPlayer.BackEnabled` | src/ui/session_window.py:753-758 | Back is enabled exactly when going back would move |
| `SessionWindow.Open` | src/ui/session_window.py:389-393 | a player opens exactly when the text parses, with the parsed timings; otherwise the parser's error |
| `SessionWindow.CountdownNotNegative` | src/ui/session_window.py:658-671 | with durations that are not negative, the countdown never is |
| `FixedWindow.TimerDurationMs` | src/ui/fixed_window.py:117-119 | the duration is a whole number of seconds in milliseconds, and not negative for non-negative inputs |
| `FixedWindow.InitialCountdown` | src/ui/fixed_window.py:117-119 | for the spin boxes' ranges, `timer_duration // 1000` is `minutes*60 + seconds`, and the label reads back the picked minutes and seconds |
| `FixedWindow.ImagePlayer.constructor` | src/ui/fixed_window.py:284-321 | first image, countdown `timer_duration // 1000`, stopped, images shuffled in shuffle mode |
| `FixedWindow.ImagePlayer.StartTimer` | src/ui/fixed_window.py:474-477 | running afterwards; nothing else changes |
| `FixedWindow.ImagePlayer.StopTimer` | src/ui/fixed_window.py:499-502 | stopped afterwards; nothing else changes |
| `FixedWindow.ImagePlayer.ResetTimer` | src/ui/fixed_window.py:522-527 | the countdown is full again and the index is untouched |
| `FixedWindow.ImagePlayer.ShowNextImage` | src/ui/fixed_window.py:585-595 | the index becomes `NextIndex`, the images are reshuffled only at the wrap in shuffle mode, and the countdown is full |
| `FixedWindow.ImagePlayer.PreviousImage` | src/ui/fixed_window.py:533-539 | the index becomes `PreviousIndex`: one down with a full countdown above 0, and nothing changes at 0 |
| `FixedWindow.ImagePlayer.Tick` | src/ui/fixed_window.py:546-555 | a positive countdown goes down by one and nothing else moves; at 0 the next image with a full countdown, the images reshuffled only at the wrap in shuffle mode |
| `FixedWindow.ImagePlayer.BackEnabled` | src/ui/fixed_window.py:597-602 | Back is enabled exactly when going back would move the index |
| `FixedWindow.CountdownNotNegative` | src/ui/fixed_window.py:546-555 | with a non-negative duration the countdown stays between 0 and full |

## Left out

- The Qt layer is not modelled: widgets, labels, stylesheets, pixmap loading and scaling, the fullscreen toggle, key bindings, and the message boxes of the dialogs.
- The `mm:ss` label is modelled only as the minutes/seconds split (`Playlist.Clock`), not its zero-padded text.
- `QTimer` is not modelled. A tick is a call to `Tick`, made by the caller.
- The sound cue is not modelled as audio. `SessionWindow.SessionPlayer.Tick` only reports whether the cue plays or stops; volume and the media player are left out.
- `random.shuffle` is not modelled. The shuffled order is a parameter with the same multiset of images.
- SQLite storage is not modelled: `load_session_durations` and `save_session`. Only the list entry text `f"{name}: {duration}"` is modelled, as `SessionFormat.SessionEntry`.
- The `print` of skipped pieces in the lenient parser is not modelled.
- `int()` and `strip()` beyond ASCII are not modelled: Unicode digits, and Unicode white space such as U+00A0 and U+0085, which both of them treat as white space. The limit on the number of digits of `int()` is not modelled either.
- `skip_image` calls `show_next_image` and is covered by `ShowNextImage`.
- `end_session` and `end_practice` are covered by `StopTimer`. Closing the window is not modelled.
- `reset_timing_for_current_image` does what `reset_timer` does and is covered by `SessionWindow.SessionPlayer.ResetTimer`.
- SessionWindow.SessionPlayer.constructor: requires a non-empty image list. With an empty one the source raises `IndexError` the first time a timing that is not a break is shown, because `show_current_image` indexes the list only outside breaks (`session_window.py:675-690`). A schedule made only of breaks would run without error on an empty list; the model does not cover that case.
- FixedWindow.ImagePlayer.constructor: requires a non-empty image list. The source raises `IndexError` in its first `show_current_image` (`fixed_window.py:559`).
- PyStr.IntToString: its own contract states only that the text is not empty. Its shape is stated by `PyStr.IntToStringShape` and its reading back by `PyStr.IntToStringParses`.
- Schedule.BackCursorCorrected: the correction is proved right only for schedules without breaks, before the first wrap (`Schedule.BackCorrectedUndoesStep`). With breaks it still gives a wrong position (`Schedule.BackCorrectedMissesBreaks`). A back step that is right with breaks would have to find the last forward step that showed the image as a picture, which is not modelled.
- SessionWindow.SessionPlayer: the class keeps the behaviour as written. Its back navigation uses the replay of `update_timing_for_previous_image`. The corrected back navigation exists only as the function `Schedule.BackCursorCorrected`.
- SessionFormat.ParseTiming: its own contract states only the break flag. The values and the error cases are stated by the lemmas about it (`ParseActiveSeconds`, `ParseActiveMinutes`, `ParseMinutesBreak`, `ParseSecondsBreak`, `PieceErrors`, `ParseSegmentText`).

## Findings

| source | as written | input that shows it | evidently intended | confidence | as-written member | corrected member |
|---|---|---|---|---|---|---|
| src/ui/session_window.py:796-801 | Every piece containing "break" has `"min break"` removed and the rest converted with `int`. The dialog also writes seconds breaks as `"NxMsec break"`. | Rows `[(1, 30, seconds, break)]` are saved as `"1x30sec break"`. `int("30sec break")` raises `ValueError`, so the saved session cannot be played. | A seconds break reads as `(N, M, True)`, so every saved session plays. | not executed | `SessionFormat.ConvertedParses` | `SessionFormat.EntryParsesCorrected` |
| src/ui/session_window.py:790-791 | The duration part is `split(": ")[1]`, the second piece. | The session named `"Pose: Gesture"` is listed as `"Pose: Gesture: 2x30sec"`. The parser reads `"Gesture"` and raises `ValueError`. | The duration is the text after the last `": "`, which never contains one. | not executed | `SessionFormat.NamedWithSeparatorFails` | `SessionFormat.EntryParsesCorrected` |
| src/ui/session_window.py:637-646 | The replay checks the counter before counting. For image `k` it gives the timing of forward step `k - 1`. | Timings 30 s then 60 s, three images. Image 1 is first shown for 60 s. After going on to image 2 and back, image 1 gets the 30 s timing. | In a schedule without breaks, before the first wrap, going back gives the image the timing it had going forward, and back then forward restores the cursor. | not executed | `Schedule.BackShiftsTiming` | `Schedule.BackCorrectedUndoesStep` |
