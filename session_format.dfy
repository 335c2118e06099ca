/** The text format of session durations used by the session window: the strict
    parser of the session player (`SessionPlayerWindow.parse_session_duration`),
    the serialiser of the custom-session dialog
    (`CustomSessionDialog.convert_segments_to_duration`) and the
    "name: duration" entries of the session list. */
module SessionFormat {
  import opened PyStr

  /** One entry of the player's `timings`: (count, seconds, is_break). */
  datatype Timing = Timing(count: int, duration: int, isBreak: bool)

  /** The `ValueError`s the strict parser raises. */
  datatype ParseError =
    | UnpackMismatch(got: nat)                  // `count, duration_part = segment.split("x")`
    | InvalidLiteral(text: string)              // `int(text)`
    | InvalidDurationFormat(durationPart: string) // neither "sec" nor "min"

  datatype Result<+T> = Ok(value: T) | Err(error: ParseError) {
    predicate IsFailure() { Err? }
    function PropagateFailure<U>(): Result<U> requires Err? { Err(error) }
    function Extract(): T requires Ok? { value }
  }

  /** `int(text)`, raising `ValueError` on a bad literal. */
  function Int(text: string): (r: Result<int>)
    ensures r.Ok? <==> PyInt(text).Some?
    ensures r.Ok? ==> r.value == PyInt(text).value
    ensures r.Err? ==> r.error == InvalidLiteral(text)
  {
    match PyInt(text)
    case Some(v) => Ok(v)
    case None => Err(InvalidLiteral(text))
  }

  /** `count, duration_part = segment.split("x")`: exactly two parts, or `ValueError`. */
  function CountAndDuration(segment: string): (r: Result<(string, string)>)
    ensures r.Ok? <==> |Split(segment, "x")| == 2
    ensures r.Ok? ==> r.value.0 + "x" + r.value.1 == segment
  {
    var parts := Split(segment, "x");
    assert |parts| == 2 ==> Join(parts, "x") == parts[0] + "x" + parts[1];
    if |parts| != 2 then Err(UnpackMismatch(|parts|)) else Ok((parts[0], parts[1]))
  }

  /** One `" + "` piece as the strict parser reads it: a piece mentioning
      "break" anywhere is a break whose duration is in minutes; any other piece
      needs a "sec" or "min" unit. The count is converted last. */
  function ParseTiming(segment: string): (r: Result<Timing>)
    ensures r.Ok? ==> r.value.isBreak == Contains(segment, "break")
  {
    if Contains(segment, "break") then
      var parts :- CountAndDuration(segment);
      var minutes :- Int(Replace(parts.1, "min break", ""));
      var count :- Int(parts.0);
      Ok(Timing(count, minutes * 60, true))
    else
      var parts :- CountAndDuration(segment);
      var durationPart := parts.1;
      var duration :-
        if Contains(durationPart, "sec") then Int(Replace(durationPart, "sec", ""))
        else if Contains(durationPart, "min") then
          (var minutes :- Int(Replace(durationPart, "min", "")); Ok(minutes * 60))
        else Err(InvalidDurationFormat(durationPart));
      var count :- Int(parts.0);
      Ok(Timing(count, duration, false))
  }

  /** The parser's loop: every piece in order, stopping at the first error. */
  function ParseAll(segments: seq<string>, parse: string -> Result<Timing>): (r: Result<seq<Timing>>)
    ensures r.Ok? <==> forall i :: 0 <= i < |segments| ==> parse(segments[i]).Ok?
    ensures r.Ok? ==> |r.value| == |segments|
    ensures r.Ok? ==> forall i :: 0 <= i < |segments| ==> r.value[i] == parse(segments[i]).value
  {
    if segments == [] then Ok([])
    else
      var first :- parse(segments[0]);
      var rest :- ParseAll(segments[1..], parse);
      assert forall i :: 1 <= i < |segments| ==> segments[1..][i - 1] == segments[i];
      Ok([first] + rest)
  }

  /** The duration part of the text: `text.split(": ")[1]` when `": "` occurs,
      that is the piece between the first and the second `": "`. */
  function DurationText(text: string): (r: string)
    ensures !Contains(text, ": ") ==> r == text
    ensures !Contains(r, ": ")
  {
    if Contains(text, ": ") then
      SplitPiecesLack(text, ": ");
      Split(text, ": ")[1]
    else
      text
  }

  /** With a `": "` first found at `k`, the duration part is what follows
      it up to the next `": "` or to the end. */
  lemma DurationTextFollowsFirst(text: string, k: int, r: string)
    requires k == Find(text, ": ") && k >= 0 && r == DurationText(text)
    ensures r <= text[k + 2..] && PieceEnd(text[k + 2..], ": ", |r|)
  {
    SplitStep(text, ": ");
    SplitHead(text[k + 2..], ": ", r);
  }

  /** `SessionPlayerWindow.parse_session_duration`. */
  function ParseSessionDuration(text: string): (r: Result<seq<Timing>>)
    ensures r.Ok? ==> |r.value| == |Split(DurationText(text), " + ")| >= 1
  {
    ParseAll(Split(DurationText(text), " + "), ParseTiming)
  }

  /** How a saved session appears in the session list: `f"{name}: {duration}"`. */
  function SessionEntry(name: string, duration: string): (r: string)
    ensures |r| == |name| + 2 + |duration|
    ensures r[..|name|] == name && OccursAt(r, ": ", |name|) && r[|name| + 2..] == duration
  {
    name + ": " + duration
  }

  datatype Unit = Seconds | Minutes
  datatype Kind = Active | Break

  /** A row of the dialog's `segments`: (count, duration, unit, segment_type). */
  datatype Segment = Segment(count: int, duration: int, unit: Unit, kind: Kind)

  /** What one row appends to `duration_str` in the serialiser's loop. */
  function SegmentChunk(s: Segment): string {
    IntToString(s.count) + "x" + IntToString(s.duration)
      + (if s.unit == Minutes then "min " else "sec ")
      + (if s.kind == Break then "break " else "")
      + "+ "
  }

  function Chunks(segs: seq<Segment>): string {
    if segs == [] then "" else SegmentChunk(segs[0]) + Chunks(segs[1..])
  }

  /** The text of one segment between the separators. */
  function SegmentText(s: Segment): string {
    IntToString(s.count) + "x" + DurationWithUnit(s)
  }

  function DurationWithUnit(s: Segment): string {
    IntToString(s.duration) + (if s.unit == Minutes then "min" else "sec")
      + (if s.kind == Break then " break" else "")
  }

  function SegmentTexts(segs: seq<Segment>): (ts: seq<string>)
    ensures |ts| == |segs|
    ensures forall i :: 0 <= i < |segs| ==> ts[i] == SegmentText(segs[i])
  {
    seq(|segs|, i requires 0 <= i < |segs| => SegmentText(segs[i]))
  }

  /** `CustomSessionDialog.convert_segments_to_duration`: the chunks, then
      `.strip(" + ")`, which drops the trailing "+ " and the blank before it.
      The result is the segment texts joined by `" + "`. */
  function ConvertSegmentsToDuration(segs: seq<Segment>): (r: string)
    ensures r == Join(SegmentTexts(segs), " + ")
  {
    StripChunks(segs);
    Strip(Chunks(segs), {' ', '+'})
  }

  lemma StripChunks(segs: seq<Segment>)
    ensures Strip(Chunks(segs), {' ', '+'}) == Join(SegmentTexts(segs), " + ")
  {
    if segs == [] {
      assert Chunks(segs) == "" && SegmentTexts(segs) == [];
    } else {
      var j := Join(SegmentTexts(segs), " + ");
      assert Chunks(segs) == j + " + " by {
        ChunksJoin(segs);
      }
      assert Strip(j + " + ", {' ', '+'}) == j by {
        JoinedEnds(segs);
        StripSeparatorTail(j);
      }
    }
  }

  /** The joined segment texts start with a number and end with a unit. */
  lemma JoinedEnds(segs: seq<Segment>)
    requires segs != []
    ensures Shaped(Join(SegmentTexts(segs), " + "))
  {
    TextsShape(segs);
    assert |SegmentTexts(segs)| == |segs|;
    TextsEnds(SegmentTexts(segs));
  }

  /** A chunk text starts with a number and ends with a unit letter. */
  predicate Shaped(t: string) {
    t != [] && NumberChar(t[0]) && t[|t| - 1] in {'c', 'n', 'k'}
  }

  predicate AllShaped(ts: seq<string>) {
    forall i :: 0 <= i < |ts| ==> Shaped(ts[i])
  }

  /** Every segment text is shaped. */
  lemma TextsShape(segs: seq<Segment>)
    ensures AllShaped(SegmentTexts(segs))
  {
    var ts := SegmentTexts(segs);
    forall i | 0 <= i < |ts| ensures Shaped(ts[i]) {
      TextEnds(segs[i]);
    }
  }

  lemma TextsEnds(ts: seq<string>)
    requires |ts| >= 1 && AllShaped(ts)
    ensures Shaped(Join(ts, " + "))
  {
    JoinEnds(ts, " + ");
    assert Shaped(ts[0]) && Shaped(ts[|ts| - 1]);
  }

  lemma StripSeparatorTail(j: string)
    requires Shaped(j)
    ensures Strip(j + " + ", {' ', '+'}) == j
  {
    var cs := {' ', '+'};
    var s := j + " + ";
    assert s[0] !in cs by {
      ConsTail(j, " + ");
    }
    StripLeftKeeps(s, cs);
    assert forall i :: 0 <= i < |" + "| ==> " + "[i] in cs;
    StripRightTail(j, " + ", cs);
  }

  lemma ChunkIsText(s: Segment)
    ensures SegmentChunk(s) == SegmentText(s) + " + "
  {
    ChunkShape(IntToString(s.count), IntToString(s.duration),
      if s.unit == Minutes then "min" else "sec", s.kind == Break);
  }

  lemma ChunkShape(c: string, d: string, u: string, isBreak: bool)
    ensures c + "x" + d + (u + " ") + (if isBreak then "break " else "") + "+ "
         == c + "x" + (d + u + (if isBreak then " break" else "")) + " + "
  {
  }

  lemma {:induction false} ChunksJoin(segs: seq<Segment>)
    ensures segs == [] ==> Chunks(segs) == ""
    ensures segs != [] ==> Chunks(segs) == Join(SegmentTexts(segs), " + ") + " + "
  {
    if segs != [] {
      var ts := SegmentTexts(segs);
      assert SegmentChunk(segs[0]) == ts[0] + " + " by {
        ChunkIsText(segs[0]);
      }
      if |segs| > 1 {
        var j := Join(ts[1..], " + ");
        assert Chunks(segs[1..]) == j + " + " by {
          ChunksJoin(segs[1..]);
          assert ts[1..] == SegmentTexts(segs[1..]);
        }
        assert Join(ts, " + ") == ts[0] + " + " + j;
        SeparatorsAssociate(ts[0], j, " + ");
      } else {
        assert Chunks(segs[1..]) == "";
      }
    }
  }

  lemma SeparatorsAssociate(a: string, j: string, sep: string)
    ensures (a + sep) + (j + sep) == (a + sep + j) + sep
  {
  }

  /** A number as rendered by `str()`: digits, possibly after a minus sign. */
  predicate NumberChar(c: char) {
    IsDigit(c) || c == '-'
  }

  lemma TextEnds(s: Segment)
    ensures Shaped(SegmentText(s))
  {
    var c := IntToString(s.count);
    IntToStringIsNumber(s.count);
    assert SegmentText(s)[0] == c[0];
  }

  lemma {:induction false} JoinEnds(ps: seq<string>, sep: string)
    requires |ps| >= 1 && forall i :: 0 <= i < |ps| ==> ps[i] != []
    ensures Join(ps, sep) != []
    ensures Join(ps, sep)[0] == ps[0][0]
    ensures Join(ps, sep)[|Join(ps, sep)| - 1] == ps[|ps| - 1][|ps[|ps| - 1]| - 1]
  {
    if |ps| > 1 {
      JoinEnds(ps[1..], sep);
    }
  }

  /** The `ValueError`s of one piece: a piece that does not split into
      exactly two parts on "x", and a non-break piece whose duration part has
      neither "sec" nor "min". */
  lemma PieceErrors(segment: string)
    ensures var parts := Split(segment, "x");
      |parts| != 2 ==> ParseTiming(segment) == Err(UnpackMismatch(|parts|))
    ensures var parts := Split(segment, "x");
      (&& |parts| == 2 && !Contains(segment, "break")
       && !Contains(parts[1], "sec") && !Contains(parts[1], "min"))
      ==> ParseTiming(segment) == Err(InvalidDurationFormat(parts[1]))
  {
  }

  /** The empty text has one empty piece, which has no "x" to split on. */
  lemma EmptyTextFails()
    ensures ParseSessionDuration("") == Err(UnpackMismatch(1))
  {
    assert !Contains("", ": ");
    SplitMissing("", " + ");
    SplitMissing("", "x");
    PieceErrors("");
  }

  // ----- reading back what the serialiser writes -----

  /** What the player makes of one dialog row: minutes become seconds. */
  function TimingOf(s: Segment): Timing {
    Timing(s.count, if s.unit == Minutes then s.duration * 60 else s.duration, s.kind == Break)
  }

  function TimingsOf(segs: seq<Segment>): (r: seq<Timing>)
    ensures |r| == |segs|
    ensures forall i :: 0 <= i < |segs| ==> r[i] == TimingOf(segs[i])
  {
    if segs == [] then [] else [TimingOf(segs[0])] + TimingsOf(segs[1..])
  }

  /** A row the strict parser cannot read back: a break measured in seconds. */
  predicate SecondsBreak(s: Segment) {
    s.unit == Seconds && s.kind == Break
  }

  /** The text of a rendered number: digits and a possible minus sign. */
  predicate IsNumberText(t: string) {
    t != [] && forall i :: 0 <= i < |t| ==> NumberChar(t[i])
  }

  lemma NumberTextLacks(t: string, c: char)
    requires IsNumberText(t) && !NumberChar(c)
    ensures c !in t
  {
  }

  lemma IntToStringIsNumber(i: int)
    ensures IsNumberText(IntToString(i))
  {
    var n := NatToString(if i < 0 then -i else i);
    if i < 0 {
      forall k | 0 <= k < |"-" + n| ensures NumberChar(("-" + n)[k]) {
        if k > 0 {
          assert ("-" + n)[k] == n[k - 1];
        }
      }
    }
  }

  /** `split("x")` of `count + "x" + rest` gives the two parts back. */
  lemma SplitAtX(c: string, rest: string)
    requires 'x' !in c && 'x' !in rest
    ensures Split(c + "x" + rest, "x") == [c, rest]
    ensures CountAndDuration(c + "x" + rest) == Ok((c, rest))
  {
    assert Join([c, rest], "x") == c + "x" + rest;
    SplitJoin([c, rest], "x", 0);
  }

  /** The facts about `c + "x" + rest` the parser's branches turn on. */
  lemma SegmentFacts(c: string, d: string, unit: string, suffix: string)
    requires IsNumberText(c) && IsNumberText(d)
    requires unit == "sec" || unit == "min"
    requires suffix == "" || suffix == " break"
    ensures var rest := d + unit + suffix;
      && CountAndDuration(c + "x" + rest) == Ok((c, rest))
      && (Contains(c + "x" + rest, "break") <==> suffix == " break")
      && (Contains(rest, "sec") <==> unit == "sec")
  {
    var rest := d + unit + suffix;
    NumberTextLacks(c, 'x');
    NumberTextLacks(d, 'x');
    assert 'x' !in rest;
    SplitAtX(c, rest);
    BreakFact(c, d, unit, suffix);
    SecFact(d, unit, suffix);
  }

  lemma BreakFact(c: string, d: string, unit: string, suffix: string)
    requires IsNumberText(c) && IsNumberText(d)
    requires unit == "sec" || unit == "min"
    requires suffix == "" || suffix == " break"
    ensures Contains(c + "x" + (d + unit + suffix), "break") <==> suffix == " break"
  {
    var seg := c + "x" + (d + unit + suffix);
    if suffix == "" {
      NumberTextLacks(c, 'b');
      NumberTextLacks(d, 'b');
      assert 'b' !in seg;
      MissingCharNotContained(seg, "break", 0);
    } else {
      assert seg[|seg| - 5..] == "break";
      OccursAtContains(seg, "break", |seg| - 5);
    }
  }

  lemma SecFact(d: string, unit: string, suffix: string)
    requires IsNumberText(d)
    requires unit == "sec" || unit == "min"
    requires suffix == "" || suffix == " break"
    ensures Contains(d + unit + suffix, "sec") <==> unit == "sec"
  {
    var rest := d + unit + suffix;
    if unit == "sec" {
      assert rest[|d|..|d| + 3] == "sec";
      OccursAtContains(rest, "sec", |d|);
    } else {
      NumberTextLacks(d, 's');
      assert 's' !in rest;
      MissingCharNotContained(rest, "sec", 0);
    }
  }

  /** The four shapes of a segment text `c + "x" + d + unit + suffix`. */
  lemma ParseActiveSeconds(c: string, d: string, count: int, duration: int)
    requires IsNumberText(c) && IsNumberText(d)
    requires PyInt(c) == Some(count) && PyInt(d) == Some(duration)
    ensures ParseTiming(c + "x" + (d + "sec")) == Ok(Timing(count, duration, false))
  {
    var rest := d + "sec";
    SegmentFacts(c, d, "sec", "");
    assert rest + "" == rest;
    NumberTextLacks(d, 's');
    ReplaceSuffix(d, "sec", "");
    assert Replace(rest, "sec", "") == d;
  }

  lemma ParseActiveMinutes(c: string, d: string, count: int, duration: int)
    requires IsNumberText(c) && IsNumberText(d)
    requires PyInt(c) == Some(count) && PyInt(d) == Some(duration)
    ensures ParseTiming(c + "x" + (d + "min")) == Ok(Timing(count, duration * 60, false))
  {
    var rest := d + "min";
    SegmentFacts(c, d, "min", "");
    assert rest + "" == rest;
    OccursAtContains(rest, "min", |d|);
    NumberTextLacks(d, 'm');
    ReplaceSuffix(d, "min", "");
    assert Replace(rest, "min", "") == d;
  }

  lemma ParseMinutesBreak(c: string, d: string, count: int, duration: int)
    requires IsNumberText(c) && IsNumberText(d)
    requires PyInt(c) == Some(count) && PyInt(d) == Some(duration)
    ensures ParseTiming(c + "x" + (d + "min" + " break")) == Ok(Timing(count, duration * 60, true))
  {
    BreakPatterns();
    var rest := d + "min" + " break";
    var seg := c + "x" + rest;
    assert Contains(seg, "break") && CountAndDuration(seg) == Ok((c, rest)) by {
      SegmentFacts(c, d, "min", " break");
    }
    assert Replace(rest, "min break", "") == d by {
      NumberTextLacks(d, 'm');
      DropUnitBreak(d, "min", "min break");
    }
    BreakValue(seg, c, rest, count, duration);
  }

  lemma ParseSecondsBreak(c: string, d: string)
    requires IsNumberText(c) && IsNumberText(d)
    ensures ParseTiming(c + "x" + (d + "sec" + " break")) == Err(InvalidLiteral(d + "sec" + " break"))
  {
    var rest := d + "sec" + " break";
    var seg := c + "x" + rest;
    assert Contains(seg, "break") && CountAndDuration(seg) == Ok((c, rest)) by {
      SegmentFacts(c, d, "sec", " break");
    }
    SecondsBreakText(d);
    BreakError(seg, c, rest);
  }

  /** Dropping the trailing "min break" of a minutes break leaves the number. */
  /** The patterns the break branch removes are a unit and " break". */
  lemma BreakPatterns()
    ensures "min" + " break" == "min break" && "sec" + " break" == "sec break"
  {
  }

  /** Removing "<unit> break" from a number followed by it leaves the number. */
  lemma DropUnitBreak(d: string, u: string, p: string)
    requires |u| >= 1 && u[0] !in d && p == u + " break"
    ensures Replace(d + u + " break", p, "") == d
  {
    assert d + u + " break" == d + p;
    ReplaceSuffix(d, p, "");
    assert d + "" == d;
  }

  lemma SecondsBreakText(d: string)
    requires IsNumberText(d)
    ensures !Contains(d + "sec" + " break", "min break")
    ensures PyInt(d + "sec" + " break") == None
  {
    var rest := d + "sec" + " break";
    NumberTextLacks(d, 'm');
    assert 'm' !in rest;
    MissingCharNotContained(rest, "min break", 0);
    assert rest[|d|] == 's';
    NotLiteral(rest, |d|);
  }

  /** The break branch of `ParseTiming` with both numbers read. */
  lemma BreakValue(segment: string, c: string, rest: string, count: int, minutes: int)
    requires Contains(segment, "break") && CountAndDuration(segment) == Ok((c, rest))
    requires Int(Replace(rest, "min break", "")) == Ok(minutes) && Int(c) == Ok(count)
    ensures ParseTiming(segment) == Ok(Timing(count, minutes * 60, true))
  {
  }

  /** The break branch of `ParseTiming` when the duration part is not a literal. */
  lemma BreakError(segment: string, c: string, rest: string)
    requires Contains(segment, "break") && CountAndDuration(segment) == Ok((c, rest))
    requires !Contains(rest, "min break") && PyInt(rest) == None
    ensures ParseTiming(segment) == Err(InvalidLiteral(rest))
  {
    ReplaceAbsent(rest, "min break", "");
  }

  /** One row, rendered by the serialiser and read by the strict parser. */
  lemma ParseSegmentText(s: Segment)
    ensures ParseTiming(SegmentText(s))
         == if SecondsBreak(s) then Err(InvalidLiteral(DurationWithUnit(s))) else Ok(TimingOf(s))
  {
    if s.kind == Active {
      ParseActiveRow(s);
    } else if s.unit == Minutes {
      ParseMinutesBreakRow(s);
    } else {
      ParseSecondsBreakRow(s);
    }
  }

  /** The numbers of a row as rendered: number texts that `int()` reads back. */
  lemma RowNumbers(s: Segment)
    ensures IsNumberText(IntToString(s.count)) && PyInt(IntToString(s.count)) == Some(s.count)
    ensures IsNumberText(IntToString(s.duration)) && PyInt(IntToString(s.duration)) == Some(s.duration)
  {
    IntToStringIsNumber(s.count);
    IntToStringParses(s.count);
    IntToStringIsNumber(s.duration);
    IntToStringParses(s.duration);
  }

  lemma ParseActiveRow(s: Segment)
    requires s.kind == Active
    ensures ParseTiming(SegmentText(s)) == Ok(TimingOf(s))
  {
    var c, d := IntToString(s.count), IntToString(s.duration);
    RowNumbers(s);
    var unit := if s.unit == Minutes then "min" else "sec";
    assert SegmentText(s) == c + "x" + (d + unit) by {
      EmptySuffix(d + unit);
    }
    if s.unit == Seconds {
      ParseActiveSeconds(c, d, s.count, s.duration);
    } else {
      ParseActiveMinutes(c, d, s.count, s.duration);
    }
  }

  lemma ParseMinutesBreakRow(s: Segment)
    requires s.kind == Break && s.unit == Minutes
    ensures ParseTiming(SegmentText(s)) == Ok(TimingOf(s))
  {
    var c, d := IntToString(s.count), IntToString(s.duration);
    RowNumbers(s);
    assert SegmentText(s) == c + "x" + (d + "min" + " break");
    ParseMinutesBreak(c, d, s.count, s.duration);
  }

  lemma ParseSecondsBreakRow(s: Segment)
    requires SecondsBreak(s)
    ensures ParseTiming(SegmentText(s)) == Err(InvalidLiteral(DurationWithUnit(s)))
  {
    var c, d := IntToString(s.count), IntToString(s.duration);
    RowNumbers(s);
    assert SegmentText(s) == c + "x" + (d + "sec" + " break");
    ParseSecondsBreak(c, d);
  }

  lemma EmptySuffix(t: string)
    ensures t + "" == t
  {
  }

  // ----- whole texts -----

  lemma {:induction false} JoinLacks(ps: seq<string>, sep: string, ch: char)
    requires ch !in sep && forall i :: 0 <= i < |ps| ==> ch !in ps[i]
    ensures ch !in Join(ps, sep)
    decreases |ps|
  {
    if |ps| > 1 {
      JoinLacks(ps[1..], sep, ch);
    }
  }

  /** No segment text contains a colon or a plus sign. */
  lemma TextLacks(s: Segment)
    ensures ':' !in SegmentText(s) && '+' !in SegmentText(s)
  {
    var c, d := IntToString(s.count), IntToString(s.duration);
    IntToStringIsNumber(s.count);
    IntToStringIsNumber(s.duration);
    PieceLacks(c, d, s, ':');
    PieceLacks(c, d, s, '+');
  }

  lemma PieceLacks(c: string, d: string, s: Segment, ch: char)
    requires c == IntToString(s.count) && d == IntToString(s.duration)
    requires IsNumberText(c) && IsNumberText(d) && !NumberChar(ch) && ch !in {'x', 'm', 'i', 'n', 's', 'e', 'c', ' ', 'b', 'r', 'a', 'k'}
    ensures ch !in SegmentText(s)
  {
    var unit := if s.unit == Minutes then "min" else "sec";
    var suffix := if s.kind == Break then " break" else "";
    assert SegmentText(s) == c + "x" + (d + unit + suffix);
    NumberTextLacks(c, ch);
    NumberTextLacks(d, ch);
    assert ch !in unit && ch !in suffix && ch !in "x";
    NotInConcat(ch, d, unit);
    NotInConcat(ch, d + unit, suffix);
    NotInConcat(ch, c, "x");
    NotInConcat(ch, c + "x", d + unit + suffix);
  }

  /** The serialiser's output never contains a colon. */
  lemma ConvertedLacksColon(segs: seq<Segment>)
    ensures ':' !in ConvertSegmentsToDuration(segs)
  {
    var ts := SegmentTexts(segs);
    forall i | 0 <= i < |ts| ensures ':' !in ts[i] { TextLacks(segs[i]); }
    JoinLacks(ts, " + ", ':');
  }

  /** Splitting the serialiser's output at `" + "` gives the segment texts back. */
  lemma SplitConverted(segs: seq<Segment>)
    requires segs != []
    ensures Split(ConvertSegmentsToDuration(segs), " + ") == SegmentTexts(segs)
  {
    var ts := SegmentTexts(segs);
    forall i | 0 <= i < |ts| ensures '+' !in ts[i] { TextLacks(segs[i]); }
    SplitJoin(ts, " + ", 1);
  }

  /** A text without `": "` is its own duration part. */
  lemma NoNameDurationText(text: string)
    requires ':' !in text
    ensures DurationText(text) == text
  {
    MissingCharNotContained(text, ": ", 0);
  }

  /** What the parser reads from the pieces, given each piece's result. */
  lemma ParseAllMapped(ts: seq<string>, segs: seq<Segment>, parse: string -> Result<Timing>)
    requires |ts| == |segs|
    requires forall i :: 0 <= i < |ts| ==> parse(ts[i]) == Ok(TimingOf(segs[i]))
    ensures ParseAll(ts, parse) == Ok(TimingsOf(segs))
  {
  }

  /** A saved session whose rows are all readable comes back as the timings
      those rows describe; one seconds break anywhere makes the text unreadable. */
  lemma ConvertedParses(segs: seq<Segment>)
    requires segs != []
    ensures ParseSessionDuration(ConvertSegmentsToDuration(segs)).Ok?
        <==> forall i :: 0 <= i < |segs| ==> !SecondsBreak(segs[i])
    ensures (forall i :: 0 <= i < |segs| ==> !SecondsBreak(segs[i])) ==>
      ParseSessionDuration(ConvertSegmentsToDuration(segs)) == Ok(TimingsOf(segs))
  {
    ConvertedPieces(segs);
    RowsParse(segs);
  }

  /** The strict parser sees the serialised text as its row texts. */
  lemma ConvertedPieces(segs: seq<Segment>)
    requires segs != []
    ensures ParseSessionDuration(ConvertSegmentsToDuration(segs)) == ParseAll(SegmentTexts(segs), ParseTiming)
  {
    var text := ConvertSegmentsToDuration(segs);
    ConvertedLacksColon(segs);
    NoNameDurationText(text);
    SplitConverted(segs);
  }

  /** The row texts parse, one by one, exactly when no row is a seconds break. */
  lemma RowsParse(segs: seq<Segment>)
    ensures ParseAll(SegmentTexts(segs), ParseTiming).Ok?
        <==> forall i :: 0 <= i < |segs| ==> !SecondsBreak(segs[i])
    ensures (forall i :: 0 <= i < |segs| ==> !SecondsBreak(segs[i])) ==>
      ParseAll(SegmentTexts(segs), ParseTiming) == Ok(TimingsOf(segs))
  {
    var ts := SegmentTexts(segs);
    forall i | 0 <= i < |segs|
      ensures ParseTiming(ts[i]).Ok? <==> !SecondsBreak(segs[i])
      ensures !SecondsBreak(segs[i]) ==> ParseTiming(ts[i]) == Ok(TimingOf(segs[i]))
    {
      ParseSegmentText(segs[i]);
    }
    RowsParseBy(ts, segs, ParseTiming);
  }

  /** `RowsParse` for any piece parser that reads the row texts as `ParseTiming` does. */
  lemma RowsParseBy(ts: seq<string>, segs: seq<Segment>, parse: string -> Result<Timing>)
    requires |ts| == |segs|
    requires forall i :: 0 <= i < |segs| ==> (parse(ts[i]).Ok? <==> !SecondsBreak(segs[i]))
    requires forall i :: 0 <= i < |segs| ==> !SecondsBreak(segs[i]) ==> parse(ts[i]) == Ok(TimingOf(segs[i]))
    ensures ParseAll(ts, parse).Ok? <==> forall i :: 0 <= i < |segs| ==> !SecondsBreak(segs[i])
    ensures (forall i :: 0 <= i < |segs| ==> !SecondsBreak(segs[i])) ==> ParseAll(ts, parse) == Ok(TimingsOf(segs))
  {
    if forall i :: 0 <= i < |segs| ==> !SecondsBreak(segs[i]) {
      ParseAllMapped(ts, segs, parse);
    }
  }

  // ----- "name: duration" entries -----

  /** A piece without `sep` splits to itself. */
  lemma SplitMissing(s: string, sep: string)
    requires sep != "" && !Contains(s, sep)
    ensures Split(s, sep) == [s]
  {
  }

  lemma SplitWhole(s: string, sep: string)
    requires sep != ""
    ensures !Contains(s, sep) ==> Split(s, sep) == [s]
  {
  }

  /** The first `": "` of an entry is the one after the name when the name has none. */
  lemma FindAfterName(name: string, rest: string)
    requires !Contains(name, ": ")
    ensures Find(name + ": " + rest, ": ") == |name|
  {
    var s := name + ": " + rest;
    var n := |name|;
    assert s[n..n + 2] == ": ";
    forall i | 0 <= i < n ensures !OccursAt(s, ": ", i) {
      if i + 2 <= n {
        assert s[i..i + 2] == name[i..i + 2];
        if OccursAt(name, ": ", i) { OccursAtContains(name, ": ", i); }
      } else {
        assert s[i + 1] == ':';
        assert s[i..i + 2][1] == s[i + 1];
      }
    }
    assert OccursAt(s, ": ", n);
    var k := Find(s, ": ");
    assert k != -1 && k <= n;
  }

  lemma SplitAfterName(name: string, rest: string)
    requires !Contains(name, ": ")
    ensures Split(name + ": " + rest, ": ") == [name] + Split(rest, ": ")
  {
    var s := name + ": " + rest;
    FindAfterName(name, rest);
    assert s[..|name|] == name && s[|name| + 2..] == rest;
  }

  /** The duration part of a list entry is the serialised text when the name has no `": "`. */
  lemma EntryDurationText(name: string, duration: string)
    requires !Contains(name, ": ") && ':' !in duration
    ensures DurationText(SessionEntry(name, duration)) == duration
  {
    var e := SessionEntry(name, duration);
    assert e[|name|..|name| + 2] == ": ";
    OccursAtContains(e, ": ", |name|);
    SplitAfterName(name, duration);
    MissingCharNotContained(duration, ": ", 0);
    SplitMissing(duration, ": ");
  }

  /** Picking a saved session from the list plays exactly its rows, as long as
      the name has no `": "` and no row is a seconds break. */
  lemma EntryParses(name: string, segs: seq<Segment>)
    requires !Contains(name, ": ") && segs != []
    requires forall i :: 0 <= i < |segs| ==> !SecondsBreak(segs[i])
    ensures ParseSessionDuration(SessionEntry(name, ConvertSegmentsToDuration(segs))) == Ok(TimingsOf(segs))
  {
    var text := ConvertSegmentsToDuration(segs);
    ConvertedLacksColon(segs);
    EntryDurationText(name, text);
    NoNameDurationText(text);
    ConvertedParses(segs);
  }

  /** A name with `": "` in it: the parser reads the second half of the name
      as the duration. "Pose: Gesture" with the rows "2x30sec" is not playable. */
  lemma NamedWithSeparatorFails()
    ensures ParseSessionDuration(SessionEntry("Pose: Gesture", "2x30sec")) == Err(UnpackMismatch(1))
  {
    NamedWithSeparatorText();
    GestureFails();
  }

  lemma NamedWithSeparatorText()
    ensures DurationText(SessionEntry("Pose: Gesture", "2x30sec")) == "Gesture"
  {
    assert "Pose: Gesture" == "Pose" + ": " + "Gesture";
    assert ':' !in "Pose" && ':' !in "Gesture" && ':' !in "2x30sec";
    NamedEntryText("Pose", "Gesture", "2x30sec");
  }

  /** A name `a: b` puts `b` where the duration part is read from. */
  lemma NamedEntryText(a: string, b: string, d: string)
    requires ':' !in a && ':' !in b && ':' !in d
    ensures DurationText(SessionEntry(a + ": " + b, d)) == b
  {
    var e := SessionEntry(a + ": " + b, d);
    var rest := b + ": " + d;
    assert e == a + ": " + rest;
    MissingCharNotContained(a, ": ", 0);
    MissingCharNotContained(b, ": ", 0);
    MissingCharNotContained(d, ": ", 0);
    assert Split(rest, ": ") == [b, d] by {
      SplitAfterName(b, d);
      SplitMissing(d, ": ");
    }
    SplitAfterName(a, rest);
    assert Contains(e, ": ") by {
      assert e[|a|..|a| + 2] == ": ";
      OccursAtContains(e, ": ", |a|);
    }
  }

  lemma GestureFails()
    ensures Split("Gesture", " + ") == ["Gesture"]
    ensures ParseTiming("Gesture") == Err(UnpackMismatch(1))
  {
    assert '+' !in "Gesture" && 'x' !in "Gesture" && 'b' !in "Gesture";
    MissingCharNotContained("Gesture", " + ", 1);
    SplitMissing("Gesture", " + ");
    MissingCharNotContained("Gesture", "break", 0);
    MissingCharNotContained("Gesture", "x", 0);
    SplitMissing("Gesture", "x");
  }

  // ----- the parser as evidently intended -----

  /** `ParseTiming` with the break branch reading "sec break" as well as
      "min break", the two forms the serialiser writes. */
  function ParseTimingCorrected(segment: string): (r: Result<Timing>)
    ensures r.Ok? ==> r.value.isBreak == Contains(segment, "break")
  {
    if Contains(segment, "break") then
      var parts :- CountAndDuration(segment);
      var duration :-
        if Contains(parts.1, "sec break") then Int(Replace(parts.1, "sec break", ""))
        else (var minutes :- Int(Replace(parts.1, "min break", "")); Ok(minutes * 60));
      var count :- Int(parts.0);
      Ok(Timing(count, duration, true))
    else
      ParseTiming(segment)
  }

  /** The duration part as the text after the LAST `": "`: durations never
      contain a colon, names may. */
  function DurationTextCorrected(text: string): (r: string)
    ensures !Contains(r, ": ")
    ensures !Contains(text, ": ") ==> r == text
  {
    var ps := Split(text, ": ");
    SplitWhole(text, ": ");
    SplitPiecesLack(text, ": ");
    ps[|ps| - 1]
  }

  function ParseSessionDurationCorrected(text: string): (r: Result<seq<Timing>>)
    ensures r.Ok? ==> |r.value| == |Split(DurationTextCorrected(text), " + ")| >= 1
  {
    ParseAll(Split(DurationTextCorrected(text), " + "), ParseTimingCorrected)
  }

  /** `p` occurring in the tail of a text occurs in the text. */
  lemma ContainsInTail(a: string, b: string, p: string)
    requires Contains(b, p)
    ensures Contains(a + b, p)
  {
    var i := Find(b, p);
    assert (a + b)[|a| + i..|a| + i + |p|] == b[i..i + |p|];
    OccursAtContains(a + b, p, |a| + i);
  }

  /** The correction changes nothing for a segment without "sec break". */
  lemma CorrectedAgrees(segment: string)
    requires !Contains(segment, "sec break")
    ensures ParseTimingCorrected(segment) == ParseTiming(segment)
  {
    if Contains(segment, "break") {
      var parts := CountAndDuration(segment);
      if parts.Ok? {
        var c, rest := parts.value.0, parts.value.1;
        assert !Contains(rest, "sec break") by {
          if Contains(rest, "sec break") {
            ContainsInTail(c + "x", rest, "sec break");
          }
        }
        var minutes := Int(Replace(rest, "min break", ""));
        var count := Int(c);
        var expected :=
          if minutes.Err? then Err(minutes.error)
          else if count.Err? then Err(count.error)
          else Ok(Timing(count.value, minutes.value * 60, true));
        assert ParseTiming(segment) == expected;
        assert ParseTimingCorrected(segment) == expected;
      }
    }
  }

  lemma SecBreakRest(d: string)
    requires IsNumberText(d)
    ensures Contains(d + "sec" + " break", "sec break")
    ensures Replace(d + "sec" + " break", "sec break", "") == d
  {
    BreakPatterns();
    var rest := d + "sec" + " break";
    assert rest[|d|..|d| + 9] == "sec break";
    OccursAtContains(rest, "sec break", |d|);
    NumberTextLacks(d, 's');
    DropUnitBreak(d, "sec", "sec break");
  }

  /** The corrected break branch with a seconds duration read. */
  lemma SecondsBreakValue(segment: string, c: string, rest: string, count: int, seconds: int)
    requires Contains(segment, "break") && CountAndDuration(segment) == Ok((c, rest))
    requires Contains(rest, "sec break")
    requires Int(Replace(rest, "sec break", "")) == Ok(seconds) && Int(c) == Ok(count)
    ensures ParseTimingCorrected(segment) == Ok(Timing(count, seconds, true))
  {
  }

  lemma ParseSecondsBreakCorrected(c: string, d: string, count: int, duration: int)
    requires IsNumberText(c) && IsNumberText(d)
    requires PyInt(c) == Some(count) && PyInt(d) == Some(duration)
    ensures ParseTimingCorrected(c + "x" + (d + "sec" + " break")) == Ok(Timing(count, duration, true))
  {
    var rest := d + "sec" + " break";
    var seg := c + "x" + rest;
    assert Contains(seg, "break") && CountAndDuration(seg) == Ok((c, rest)) by {
      SegmentFacts(c, d, "sec", " break");
    }
    SecBreakRest(d);
    SecondsBreakValue(seg, c, rest, count, duration);
  }

  /** Every row the dialog can save reads back as its timing. */
  lemma ParseSegmentTextCorrected(s: Segment)
    ensures ParseTimingCorrected(SegmentText(s)) == Ok(TimingOf(s))
  {
    var c, d := IntToString(s.count), IntToString(s.duration);
    var t := SegmentText(s);
    if SecondsBreak(s) {
      assert IsNumberText(c) && PyInt(c) == Some(s.count) by {
        IntToStringIsNumber(s.count);
        IntToStringParses(s.count);
      }
      assert IsNumberText(d) && PyInt(d) == Some(s.duration) by {
        IntToStringIsNumber(s.duration);
        IntToStringParses(s.duration);
      }
      assert t == c + "x" + (d + "sec" + " break");
      ParseSecondsBreakCorrected(c, d, s.count, s.duration);
    } else {
      IntToStringIsNumber(s.count);
      IntToStringIsNumber(s.duration);
      if s.unit == Minutes {
        NumberTextLacks(c, 's');
        NumberTextLacks(d, 's');
        assert 's' !in t;
        MissingCharNotContained(t, "sec break", 0);
      } else {
        NumberTextLacks(c, 'b');
        NumberTextLacks(d, 'b');
        assert 'b' !in t;
        MissingCharNotContained(t, "sec break", 4);
      }
      CorrectedAgrees(t);
      ParseSegmentText(s);
    }
  }

  /** The piece after the last `": "` of `x + ": " + y` is `y` when `y` has no `": "`. */
  lemma {:induction false} LastPiece(x: string, y: string)
    requires !Contains(y, ": ")
    ensures Split(x + ": " + y, ": ")[|Split(x + ": " + y, ": ")| - 1] == y
    decreases |x|, 1
  {
    var s := x + ": " + y;
    var k := FirstColon(x, y);
    var tail := Split(s[k + 2..], ": ");
    RestEndsWith(x, y, k);
    SplitEndsWith(s, ": ", Split(s, ": "), tail);
  }

  /** In `x + ": " + y` the first `": "` starts within `x + ":"`, at most at `|x|`. */
  lemma FirstColon(x: string, y: string) returns (k: int)
    ensures k == Find(x + ": " + y, ": ") && 0 <= k <= |x|
  {
    var s := x + ": " + y;
    assert OccursAt(s, ": ", |x|) by {
      assert s[|x|..|x| + 2] == ": ";
    }
    k := Find(s, ": ");
  }

  /** What follows the first `": "` of `x + ": " + y` splits with `y` last. */
  lemma {:induction false} RestEndsWith(x: string, y: string, k: int)
    requires !Contains(y, ": ")
    requires k == Find(x + ": " + y, ": ") && 0 <= k <= |x|
    ensures var t := Split((x + ": " + y)[k + 2..], ": "); t[|t| - 1] == y
    decreases |x|, 0
  {
    var s := x + ": " + y;
    DropPrefix(x + ": ", y, k + 2);
    if k == |x| {
      assert s[k + 2..] == y;
      SplitMissing(y, ": ");
    } else {
      assert k + 1 != |x| by {
        assert OccursAt(s, ": ", k);
        assert s[k..k + 2][1] == s[k + 1] && s[|x|] == ':';
      }
      DropPrefix(x, ": ", k + 2);
      assert s[k + 2..] == x[k + 2..] + ": " + y;
      LastPiece(x[k + 2..], y);
    }
  }

  lemma ConvertedParsesCorrected(text: string, segs: seq<Segment>)
    requires segs != [] && DurationTextCorrected(text) == ConvertSegmentsToDuration(segs)
    ensures ParseSessionDurationCorrected(text) == Ok(TimingsOf(segs))
  {
    var ts := SegmentTexts(segs);
    SplitConverted(segs);
    forall i | 0 <= i < |segs| ensures ParseTimingCorrected(ts[i]) == Ok(TimingOf(segs[i])) {
      ParseSegmentTextCorrected(segs[i]);
    }
    ParseAllMapped(ts, segs, ParseTimingCorrected);
  }

  /** With the correction every saved session plays its rows, whatever its
      name, both from the list and typed in bare. */
  lemma EntryParsesCorrected(name: string, segs: seq<Segment>)
    requires segs != []
    ensures ParseSessionDurationCorrected(SessionEntry(name, ConvertSegmentsToDuration(segs))) == Ok(TimingsOf(segs))
    ensures ParseSessionDurationCorrected(ConvertSegmentsToDuration(segs)) == Ok(TimingsOf(segs))
  {
    var text := ConvertSegmentsToDuration(segs);
    ConvertedLacksColon(segs);
    EntryTextCorrected(name, text);
    ConvertedParsesCorrected(SessionEntry(name, text), segs);
    ConvertedParsesCorrected(text, segs);
  }

  /** The corrected duration part of an entry, or of the bare text, is the
      text when it has no colon. */
  lemma EntryTextCorrected(name: string, text: string)
    requires ':' !in text
    ensures DurationTextCorrected(SessionEntry(name, text)) == text
    ensures DurationTextCorrected(text) == text
  {
    MissingCharNotContained(text, ": ", 0);
    LastPiece(name, text);
  }
}
