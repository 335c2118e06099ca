/** The lenient reader of session-duration texts in `src/utils/session_utils.py`:
    it drops a leading "name: ", reads every `" + "` piece it can and silently
    skips the rest, returning (count, seconds, unit, type) rows. */
module SessionUtils {
  import opened PyStr
  import SF = SessionFormat

  /** One returned row: `(count, duration, unit, segment_type)`; the duration is
      always in seconds, whatever the unit says. */
  datatype Entry = Entry(count: int, seconds: int, unit: SF.Unit, kind: SF.Kind)

  /** `duration_str.split(": ", 1)[1]` when `": "` occurs: everything after the
      first `": "`, later ones included. */
  function StripName(text: string): (r: string)
    ensures !Contains(text, ": ") ==> r == text
    ensures Contains(text, ": ") ==>
      exists k :: 0 <= k <= |text| - 2 && text == text[..k] + ": " + r && !Contains(text[..k], ": ")
  {
    if Contains(text, ": ") then
      var k := Find(text, ": ");
      assert text == text[..k] + ": " + text[k + 2..] by {
        assert text[k..k + 2] == ": ";
        assert text == text[..k] + text[k..k + 2] + text[k + 2..];
      }
      NoEarlierSeparator(text, k);
      text[k + 2..]
    else
      text
  }

  lemma NoEarlierSeparator(text: string, k: int)
    requires k == Find(text, ": ") && k >= 0
    ensures !Contains(text[..k], ": ")
  {
    if Contains(text[..k], ": ") {
      var j := Find(text[..k], ": ");
      assert text[..k][j..j + 2] == text[j..j + 2];
      assert OccursAt(text, ": ", j);
    }
  }

  /** One `" + "` piece, or `None` where the loop `continue`s or catches `ValueError`. */
  function ParseSegment(segment: string): (r: Option<Entry>)
    ensures |Split(segment, "x")| != 2 ==> r.None?
    ensures PyInt(Split(segment, "x")[0]).None? ==> r.None?
    ensures r.Some? ==> |Split(segment, "x")| == 2
    ensures r.Some? ==> r.value.count == PyInt(Split(segment, "x")[0]).value
    ensures r.Some? ==> (r.value.kind == SF.Break <==> Contains(Strip(Split(segment, "x")[1], Whitespace), "break"))
    ensures r.Some? && r.value.unit == SF.Minutes ==> r.value.seconds % 60 == 0
  {
    var parts := Split(segment, "x");
    if |parts| != 2 then None
    else
      match PyInt(parts[0])
      case None => None
      case Some(count) => UnitEntry(count, Strip(parts[1], Whitespace))
  }

  /** The unit text once a break's " break" is removed. */
  function WithoutBreak(unitText: string): string {
    if Contains(unitText, "break") then Replace(unitText, " break", "") else unitText
  }

  /** The row for a count and the stripped text after the `x`: " break" marks a
      break and is removed; then "min" means minutes, anything else seconds.
      The number left once the unit is removed must read, or there is no row. */
  function UnitEntry(count: int, unitText: string): (r: Option<Entry>)
    ensures r.Some? ==> r.value.count == count
    ensures r.Some? ==> (r.value.kind == SF.Break <==> Contains(unitText, "break"))
    ensures r.Some? && r.value.unit == SF.Minutes ==> r.value.seconds % 60 == 0
    ensures var t := WithoutBreak(unitText); Contains(t, "min") ==>
      && (r.Some? <==> PyInt(Replace(t, "min", "")).Some?)
      && (r.Some? ==> r.value.unit == SF.Minutes && r.value.seconds == 60 * PyInt(Replace(t, "min", "")).value)
    ensures var t := WithoutBreak(unitText); !Contains(t, "min") ==>
      && (r.Some? <==> PyInt(Replace(t, "sec", "")).Some?)
      && (r.Some? ==> r.value.unit == SF.Seconds && r.value.seconds == PyInt(Replace(t, "sec", "")).value)
  {
    var kind := if Contains(unitText, "break") then SF.Break else SF.Active;
    match Measure(WithoutBreak(unitText))
    case None => None
    case Some(m) => Some(Entry(count, m.0, m.1, kind))
  }

  /** The duration in seconds and the unit of a unit text without " break". */
  function Measure(t: string): (r: Option<(int, SF.Unit)>)
    ensures Contains(t, "min") ==>
      && (r.Some? <==> PyInt(Replace(t, "min", "")).Some?)
      && (r.Some? ==> r.value == (60 * PyInt(Replace(t, "min", "")).value, SF.Minutes))
    ensures !Contains(t, "min") ==>
      && (r.Some? <==> PyInt(Replace(t, "sec", "")).Some?)
      && (r.Some? ==> r.value == (PyInt(Replace(t, "sec", "")).value, SF.Seconds))
    ensures r.Some? && r.value.1 == SF.Minutes ==> r.value.0 % 60 == 0
  {
    if Contains(t, "min") then
      match PyInt(Replace(t, "min", ""))
      case None => None
      case Some(m) => WholeMinutes(m); Some((m * 60, SF.Minutes))
    else
      match PyInt(Replace(t, "sec", ""))
      case None => None
      case Some(s) => Some((s, SF.Seconds))
  }

  lemma WholeMinutes(m: int)
    ensures (m * 60) % 60 == 0
  {
  }

  /** The loop over the pieces: parsed pieces in order, unreadable ones skipped. */
  function Collect(pieces: seq<string>, parse: string -> Option<Entry>): (r: seq<Entry>)
    ensures |r| <= |pieces|
    ensures forall e :: e in r ==> exists i :: 0 <= i < |pieces| && parse(pieces[i]) == Some(e)
  {
    if pieces == [] then []
    else
      var rest := Collect(pieces[1..], parse);
      assert forall e :: e in rest ==> exists i :: 1 <= i < |pieces| && parse(pieces[i]) == Some(e) by {
        forall e | e in rest ensures exists i :: 1 <= i < |pieces| && parse(pieces[i]) == Some(e) {
          var i :| 0 <= i < |pieces[1..]| && parse(pieces[1..][i]) == Some(e);
          assert parse(pieces[i + 1]) == Some(e);
        }
      }
      match parse(pieces[0])
      case Some(e) => [e] + rest
      case None => rest
  }

  /** `parse_session_duration` of `src/utils/session_utils.py`. */
  function ParseSessionDuration(text: string): (r: seq<Entry>)
    ensures |r| <= |Split(StripName(text), " + ")|
  {
    Collect(Split(StripName(text), " + "), ParseSegment)
  }

  /** Skipping is local: the rows of two runs of pieces are the rows of each, in order. */
  lemma {:induction false} CollectAppend(a: seq<string>, b: seq<string>, parse: string -> Option<Entry>)
    ensures Collect(a + b, parse) == Collect(a, parse) + Collect(b, parse)
    decreases |a|
  {
    if a != [] {
      assert (a + b)[1..] == a[1..] + b;
      CollectAppend(a[1..], b, parse);
    } else {
      assert a + b == b;
    }
  }

  /** When every piece reads, there is one row per piece, in order. */
  lemma {:induction false} CollectAll(pieces: seq<string>, parse: string -> Option<Entry>)
    requires forall i :: 0 <= i < |pieces| ==> parse(pieces[i]).Some?
    ensures |Collect(pieces, parse)| == |pieces|
    ensures forall i :: 0 <= i < |pieces| ==> Collect(pieces, parse)[i] == parse(pieces[i]).value
    decreases |pieces|
  {
    if pieces != [] {
      CollectAll(pieces[1..], parse);
    }
  }

  /** A piece that does not read adds nothing. */
  lemma CollectSkips(pieces: seq<string>, parse: string -> Option<Entry>)
    requires forall i :: 0 <= i < |pieces| ==> parse(pieces[i]).None?
    ensures Collect(pieces, parse) == []
  {
  }

  /** The empty text has no rows. */
  lemma EmptyText()
    ensures ParseSessionDuration("") == []
  {
    MissingCharNotContained("", ": ", 0);
    MissingCharNotContained("", " + ", 0);
    SF.SplitMissing("", " + ");
    MissingCharNotContained("", "x", 0);
    SF.SplitMissing("", "x");
  }

  // ----- reading back what the dialog saves -----

  /** What the reader makes of a dialog row. */
  function EntryOf(s: SF.Segment): Entry {
    Entry(s.count, if s.unit == SF.Minutes then s.duration * 60 else s.duration, s.unit, s.kind)
  }

  function EntriesOf(segs: seq<SF.Segment>): (r: seq<Entry>)
    ensures |r| == |segs|
    ensures forall i :: 0 <= i < |segs| ==> r[i] == EntryOf(segs[i])
  {
    if segs == [] then [] else [EntryOf(segs[0])] + EntriesOf(segs[1..])
  }

  /** The unit handling of one number followed by "sec" or "min". */
  lemma UnitValue(d: string, unit: string, duration: int)
    requires SF.IsNumberText(d) && PyInt(d) == Some(duration)
    requires unit == "sec" || unit == "min"
    ensures unit == "min" ==> Contains(d + unit, "min") && PyInt(Replace(d + unit, "min", "")) == Some(duration)
    ensures unit == "sec" ==> !Contains(d + unit, "min") && PyInt(Replace(d + unit, "sec", "")) == Some(duration)
  {
    if unit == "min" {
      MinutesValue(d, duration);
    } else {
      SecondsValue(d, duration);
    }
  }

  lemma MinutesValue(d: string, duration: int)
    requires SF.IsNumberText(d) && PyInt(d) == Some(duration)
    ensures Contains(d + "min", "min") && PyInt(Replace(d + "min", "min", "")) == Some(duration)
  {
    SF.NumberTextLacks(d, 'm');
    assert (d + "min")[|d|..|d| + 3] == "min";
    OccursAtContains(d + "min", "min", |d|);
    ReplaceSuffix(d, "min", "");
    SF.EmptySuffix(d);
  }

  lemma SecondsValue(d: string, duration: int)
    requires SF.IsNumberText(d) && PyInt(d) == Some(duration)
    ensures !Contains(d + "sec", "min") && PyInt(Replace(d + "sec", "sec", "")) == Some(duration)
  {
    SF.NumberTextLacks(d, 'm');
    SF.NumberTextLacks(d, 's');
    assert 'm' !in "sec";
    NotInConcat('m', d, "sec");
    MissingCharNotContained(d + "sec", "min", 0);
    ReplaceSuffix(d, "sec", "");
    SF.EmptySuffix(d);
  }

  /** The break handling: the flag and the text left once " break" is removed. */
  lemma BreakPart(d: string, unit: string, suffix: string)
    requires SF.IsNumberText(d)
    requires unit == "sec" || unit == "min"
    requires suffix == "" || suffix == " break"
    ensures Contains(d + unit + suffix, "break") <==> suffix == " break"
    ensures suffix == " break" ==> Replace(d + unit + suffix, " break", "") == d + unit
  {
    var t := d + unit + suffix;
    if suffix == "" {
      SF.NumberTextLacks(d, 'b');
      assert 'b' !in t;
      MissingCharNotContained(t, "break", 0);
    } else {
      assert t[|t| - 5..] == "break";
      OccursAtContains(t, "break", |t| - 5);
      SF.NumberTextLacks(d, ' ');
      assert ' ' !in d + unit;
      ReplaceSuffix(d + unit, " break", "");
      assert d + unit + "" == d + unit;
    }
  }

  /** The unit text needs no stripping: it starts with a number and ends with a letter. */
  lemma UnitTextStripped(d: string, unit: string, suffix: string)
    requires SF.IsNumberText(d)
    requires unit == "sec" || unit == "min"
    requires suffix == "" || suffix == " break"
    ensures Strip(d + unit + suffix, Whitespace) == d + unit + suffix
  {
    var t := d + unit + suffix;
    assert t[0] == d[0];
    assert SF.NumberChar(d[0]);
    assert t[|t| - 1] in {'c', 'n', 'k'};
    StripNoop(t, Whitespace);
  }

  /** The reader's value for one piece of the shape `c + "x" + (d + unit + suffix)`. */
  lemma ReadPiece(c: string, d: string, unit: string, suffix: string, count: int, duration: int)
    requires SF.IsNumberText(c) && SF.IsNumberText(d)
    requires PyInt(c) == Some(count) && PyInt(d) == Some(duration)
    requires unit == "sec" || unit == "min"
    requires suffix == "" || suffix == " break"
    ensures ParseSegment(c + "x" + (d + unit + suffix))
         == Some(Entry(count, if unit == "min" then duration * 60 else duration,
                       if unit == "min" then SF.Minutes else SF.Seconds,
                       if suffix == " break" then SF.Break else SF.Active))
  {
    var rest := d + unit + suffix;
    SF.NumberTextLacks(c, 'x');
    SF.NumberTextLacks(d, 'x');
    assert 'x' !in unit && 'x' !in suffix;
    NotInConcat('x', d, unit);
    NotInConcat('x', d + unit, suffix);
    SF.SplitAtX(c, rest);
    UnitTextStripped(d, unit, suffix);
    ReadUnit(d, unit, suffix, count, duration);
  }

  lemma ReadUnit(d: string, unit: string, suffix: string, count: int, duration: int)
    requires SF.IsNumberText(d) && PyInt(d) == Some(duration)
    requires unit == "sec" || unit == "min"
    requires suffix == "" || suffix == " break"
    ensures UnitEntry(count, d + unit + suffix)
         == Some(Entry(count, if unit == "min" then duration * 60 else duration,
                       if unit == "min" then SF.Minutes else SF.Seconds,
                       if suffix == " break" then SF.Break else SF.Active))
  {
    BreakPart(d, unit, suffix);
    UnitValue(d, unit, duration);
    if suffix == "" {
      assert d + unit + suffix == d + unit;
    }
  }

  /** Every dialog row reads back, seconds breaks included. */
  lemma ReadSegmentText(s: SF.Segment)
    ensures ParseSegment(SF.SegmentText(s)) == Some(EntryOf(s))
  {
    var c, d := IntToString(s.count), IntToString(s.duration);
    SF.IntToStringIsNumber(s.count);
    SF.IntToStringIsNumber(s.duration);
    IntToStringParses(s.count);
    IntToStringParses(s.duration);
    var unit := if s.unit == SF.Minutes then "min" else "sec";
    var suffix := if s.kind == SF.Break then " break" else "";
    assert SF.SegmentText(s) == c + "x" + (d + unit + suffix);
    ReadPiece(c, d, unit, suffix, s.count, s.duration);
  }

  /** The dialog's text, read leniently, gives every row back with its duration
      in seconds; the empty session gives no rows. */
  lemma ConvertedReads(segs: seq<SF.Segment>)
    ensures ParseSessionDuration(SF.ConvertSegmentsToDuration(segs)) == EntriesOf(segs)
  {
    if segs == [] {
      assert SF.ConvertSegmentsToDuration(segs) == "" by {
        assert SF.SegmentTexts(segs) == [];
      }
      EmptyText();
    } else {
      ConvertedPieces(segs);
      RowsRead(segs);
    }
  }

  /** The lenient reader sees the serialised text as its row texts. */
  lemma ConvertedPieces(segs: seq<SF.Segment>)
    requires segs != []
    ensures ParseSessionDuration(SF.ConvertSegmentsToDuration(segs)) == Collect(SF.SegmentTexts(segs), ParseSegment)
  {
    var text := SF.ConvertSegmentsToDuration(segs);
    SF.ConvertedLacksColon(segs);
    MissingCharNotContained(text, ": ", 0);
    SF.SplitConverted(segs);
  }

  /** Every row text reads back to its row, in order. */
  lemma RowsRead(segs: seq<SF.Segment>)
    ensures Collect(SF.SegmentTexts(segs), ParseSegment) == EntriesOf(segs)
  {
    var ts := SF.SegmentTexts(segs);
    forall i | 0 <= i < |ts| ensures ParseSegment(ts[i]) == Some(EntryOf(segs[i])) {
      ReadSegmentText(segs[i]);
    }
    CollectAll(ts, ParseSegment);
  }

  /** A list entry `name: duration`: the name is dropped when it has no `": "`. */
  lemma EntryReads(name: string, segs: seq<SF.Segment>)
    requires !Contains(name, ": ")
    ensures ParseSessionDuration(SF.SessionEntry(name, SF.ConvertSegmentsToDuration(segs))) == EntriesOf(segs)
  {
    var text := SF.ConvertSegmentsToDuration(segs);
    ConvertedReads(segs);
    SF.ConvertedLacksColon(segs);
    MissingCharNotContained(text, ": ", 0);
    NamedText(name, text, EntriesOf(segs));
  }

  lemma NamedText(name: string, text: string, rows: seq<Entry>)
    requires !Contains(name, ": ") && !Contains(text, ": ") && ParseSessionDuration(text) == rows
    ensures ParseSessionDuration(SF.SessionEntry(name, text)) == rows
  {
    FirstSeparatorOnly(name, text);
    assert StripName(text) == text;
  }

  /** Only the first `": "` is the name's: with `"a: b: rest"` the reader keeps `"b: rest"`. */
  lemma FirstSeparatorOnly(name: string, rest: string)
    requires !Contains(name, ": ")
    ensures StripName(name + ": " + rest) == rest
  {
    var s := name + ": " + rest;
    SF.FindAfterName(name, rest);
    assert s[|name|..|name| + 2] == ": ";
    OccursAtContains(s, ": ", |name|);
    assert s[|name| + 2..] == rest;
  }

  /** A number with no unit is read as seconds. */
  lemma BareNumberIsSeconds(c: string, d: string, count: int, duration: int)
    requires SF.IsNumberText(c) && SF.IsNumberText(d)
    requires PyInt(c) == Some(count) && PyInt(d) == Some(duration)
    ensures ParseSegment(c + "x" + d) == Some(Entry(count, duration, SF.Seconds, SF.Active))
  {
    SF.NumberTextLacks(c, 'x');
    SF.NumberTextLacks(d, 'x');
    SF.SplitAtX(c, d);
    NumberStripped(d);
    BareUnit(d, count, duration);
  }

  lemma NumberStripped(d: string)
    requires SF.IsNumberText(d)
    ensures Strip(d, Whitespace) == d
  {
    assert SF.NumberChar(d[0]) && SF.NumberChar(d[|d| - 1]);
    StripNoop(d, Whitespace);
  }

  lemma BareUnit(d: string, count: int, duration: int)
    requires SF.IsNumberText(d) && PyInt(d) == Some(duration)
    ensures UnitEntry(count, d) == Some(Entry(count, duration, SF.Seconds, SF.Active))
  {
    SF.NumberTextLacks(d, 'b');
    MissingCharNotContained(d, "break", 0);
    SF.NumberTextLacks(d, 'm');
    MissingCharNotContained(d, "min", 0);
    SF.NumberTextLacks(d, 's');
    MissingCharNotContained(d, "sec", 0);
    ReplaceAbsent(d, "sec", "");
  }
}
