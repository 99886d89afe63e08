/**
 * The client-side repair of the sections data: `HH:MM` conversions, reading a section's
 * day letters and time range back from its label, replacing or repairing its slots,
 * the slot-overlap test and the one-line schedule display. Slot times here are minutes
 * since midnight (0..1439 for a valid time), one slot per day code.
 */
module SectionsProcessor {
  import opened Wrappers
  import opened Text

  /** A weekly meeting: a day code and minutes since midnight. */
  datatype TimeSlot = TimeSlot(day: string, start: int, end: int)

  datatype ProcessedSection = ProcessedSection(crn: string, labelText: string, room: string, career: string,
                                               closed: bool, slots: seq<TimeSlot>)

  datatype ProcessedCourse = ProcessedCourse(name: string, id: Option<string>, sections: seq<ProcessedSection>)

  datatype SectionsData = SectionsData(courses: seq<ProcessedCourse>)

  // ---------------------------------------------------------------- HH:MM

  /** `minutesToTime`: floor of the hours and JavaScript's remainder for the minutes, each padded to two. */
  function MinutesToTime(minutes: int): string {
    PadStart2(IntToString(minutes / 60)) + ":" + PadStart2(IntToString(JsRem(minutes, 60)))
  }

  /**
   * `timeToMinutes`: the texts before and after the first two `:`-separated parts, read
   * with `Number`; NaN (None) when a part is missing or not a number.
   */
  function TimeToMinutes(time: string): Option<int> {
    PartsToMinutes(Split(time, ':'))
  }

  /** The first two parts read as hours and minutes. */
  function PartsToMinutes(parts: seq<string>): Option<int> {
    if |parts| < 2 then None else HoursAndMinutes(NumberValue(parts[0]), NumberValue(parts[1]))
  }

  /** `hours * 60 + minutes`, NaN when either is. */
  function HoursAndMinutes(hours: Option<int>, minutes: Option<int>): Option<int> {
    if hours.Some? && minutes.Some? then Some(hours.value * 60 + minutes.value) else None
  }

  /** The parts around the first `:` are read as hours and minutes. */
  lemma TimeToMinutesOfSplit(time: string, a: string, b: string, hours: int, minutes: int)
    requires Split(time, ':') == [a, b]
    requires NumberValue(a) == Some(hours) && NumberValue(b) == Some(minutes)
    ensures TimeToMinutes(time) == Some(hours * 60 + minutes)
  {
    assert TimeToMinutes(time) == PartsToMinutes([a, b]);
    PairToMinutes(a, b);
    assert HoursAndMinutes(NumberValue(a), NumberValue(b)) == HoursAndMinutes(Some(hours), Some(minutes));
    HoursAndMinutesOf(hours, minutes);
  }

  lemma HoursAndMinutesOf(hours: int, minutes: int)
    ensures HoursAndMinutes(Some(hours), Some(minutes)) == Some(hours * 60 + minutes)
  {
  }

  lemma PairToMinutes(a: string, b: string)
    ensures PartsToMinutes([a, b]) == HoursAndMinutes(NumberValue(a), NumberValue(b))
  {
    assert [a, b][0] == a && [a, b][1] == b;
  }

  /**
   * Two colon-free texts around a colon read as the hours times 60 plus the minutes, as
   * soon as `Number` reads each of them.
   */
  lemma TimeToMinutesOfParts(a: string, b: string, hours: int, minutes: int)
    requires ':' !in a && ':' !in b
    requires NumberValue(a) == Some(hours) && NumberValue(b) == Some(minutes)
    ensures TimeToMinutes(a + ":" + b) == Some(hours * 60 + minutes)
  {
    SplitAround(a, b, ':');
    TimeToMinutesOfSplit(a + ":" + b, a, b, hours, minutes);
  }

  /** A part that `Number` does not read makes the whole time NaN. */
  lemma TimeToMinutesNaN(a: string, b: string)
    requires ':' !in a && ':' !in b
    requires NumberValue(a).None? || NumberValue(b).None?
    ensures TimeToMinutes(a + ":" + b).None?
  {
    SplitAround(a, b, ':');
  }

  /** A time without a colon has no minutes part and is NaN. */
  lemma TimeWithoutColon(time: string)
    requires ':' !in time
    ensures TimeToMinutes(time).None?
  {
  }

  /** A count whose hours and remainder are known prints as the two padded numbers around a colon. */
  lemma MinutesToTimeOf(m: int, hours: nat, minutes: nat)
    requires m / 60 == hours && JsRem(m, 60) == minutes
    ensures MinutesToTime(m) == PadStart2(NatToString(hours)) + ":" + PadStart2(NatToString(minutes))
  {
  }

  lemma DivMod60(hours: nat, minutes: nat)
    requires minutes < 60
    ensures (hours * 60 + minutes) / 60 == hours && JsRem(hours * 60 + minutes, 60) == minutes
  {
  }

  /** Padded hours below 100 and padded minutes around a colon read back as the count they print. */
  lemma PaddedTimeRead(hours: nat, minutes: nat)
    requires hours < 100 && minutes < 100
    ensures TimeToMinutes(PadStart2(NatToString(hours)) + ":" + PadStart2(NatToString(minutes)))
      == Some(hours * 60 + minutes)
  {
    var a, b := PadStart2(NatToString(hours)), PadStart2(NatToString(minutes));
    PaddedNumber(hours);
    PaddedNumber(minutes);
    DigitsExclude(a, ':');
    DigitsExclude(b, ':');
    TimeToMinutesOfParts(a, b, hours, minutes);
  }

  /**
   * Reading back a printed minute count gives the count, for every count whose hours have
   * at most two digits: `timeToMinutes(minutesToTime(m)) == m`.
   */
  lemma TimeRoundTrip(m: int)
    requires 0 <= m < 6000
    ensures TimeToMinutes(MinutesToTime(m)) == Some(m)
  {
    var hours, minutes := m / 60, m % 60;
    assert m == hours * 60 + minutes;
    MinutesToTimeOf(m, hours, minutes);
    PaddedTimeRead(hours, minutes);
  }

  /**
   * A well-formed `HH:MM` text whose minutes are below 60 reads as a count below 6000
   * that prints back to the same text.
   */
  lemma TextRoundTrip(a: string, b: string)
    requires |a| == 2 && |b| == 2 && AllDigits(a) && AllDigits(b) && b[0] <= '5'
    ensures var m := TimeToMinutes(a + ":" + b);
      m.Some? && 0 <= m.value < 6000 && MinutesToTime(m.value) == a + ":" + b
  {
    var hours, minutes := TwoDigitsValue(a), TwoDigitsValue(b);
    TwoDigitsTimeRead(a, b, hours, minutes);
    TwoDigitsRead(a);
    TwoDigitsRead(b);
    assert minutes < 60;
    PaddedTimePrint(a, b, hours, minutes, hours * 60 + minutes);
  }

  /** Two two-digit parts around a colon read as their values. */
  lemma TwoDigitsTimeRead(a: string, b: string, hours: nat, minutes: nat)
    requires |a| == 2 && |b| == 2 && AllDigits(a) && AllDigits(b)
    requires hours == TwoDigitsValue(a) && minutes == TwoDigitsValue(b)
    ensures TimeToMinutes(a + ":" + b) == Some(hours * 60 + minutes)
  {
    TwoDigitsRead(a);
    TwoDigitsRead(b);
    DigitsExclude(a, ':');
    DigitsExclude(b, ':');
    TimeToMinutesOfParts(a, b, hours, minutes);
  }

  /** A count made of hours and minutes below 60 prints as the two padded parts. */
  lemma PaddedTimePrint(a: string, b: string, hours: nat, minutes: nat, total: int)
    requires minutes < 60 && total == hours * 60 + minutes
    requires PadStart2(NatToString(hours)) == a && PadStart2(NatToString(minutes)) == b
    ensures MinutesToTime(total) == a + ":" + b
  {
    DivMod60(hours, minutes);
    MinutesToTimeOf(total, hours, minutes);
  }

  // ---------------------------------------------------------------- labels

  /** The letters of the leading day run `^([LMIJVS]+)`. */
  predicate IsLabelDayLetter(c: char) {
    c == 'L' || c == 'M' || c == 'I' || c == 'J' || c == 'V' || c == 'S'
  }

  /** The day codes of a day run: `MI` where it occurs, every other letter on its own. */
  function LabelDays(run: string): seq<string>
    decreases |run|
  {
    if run == [] then []
    else if |run| >= 2 && run[..2] == "MI" then ["MI"] + LabelDays(run[2..])
    else [[run[0]]] + LabelDays(run[1..])
  }

  function Concat(parts: seq<string>): string {
    if parts == [] then "" else parts[0] + Concat(parts[1..])
  }

  lemma {:induction false} ConcatAppend(a: seq<string>, b: seq<string>)
    ensures Concat(a + b) == Concat(a) + Concat(b)
  {
    if a != [] {
      assert (a + b)[1..] == a[1..] + b;
      ConcatAppend(a[1..], b);
    } else {
      assert a + b == b;
    }
  }

  /** The day codes concatenate back to the run. */
  lemma {:induction false} LabelDaysConcat(run: string)
    ensures Concat(LabelDays(run)) == run
    decreases |run|
  {
    if run != [] {
      if |run| >= 2 && run[..2] == "MI" {
        LabelDaysConcat(run[2..]);
        assert run == run[..2] + run[2..];
      } else {
        LabelDaysConcat(run[1..]);
        assert run == [run[0]] + run[1..];
      }
    }
  }

  /** Each day code is `MI` or one letter of the run. */
  lemma {:induction false} LabelDaysCodes(run: string)
    ensures forall d :: d in LabelDays(run) ==> d == "MI" || (|d| == 1 && d[0] in run)
    decreases |run|
  {
    if run != [] {
      if |run| >= 2 && run[..2] == "MI" {
        LabelDaysCodes(run[2..]);
        assert forall c :: c in run[2..] ==> c in run;
      } else {
        LabelDaysCodes(run[1..]);
        assert forall c :: c in run[1..] ==> c in run;
      }
    }
  }

  /** The day codes concatenate back to the run, and each is `MI` or one letter of the run. */
  lemma LabelDaysSpec(run: string)
    ensures Concat(LabelDays(run)) == run
    ensures forall d :: d in LabelDays(run) ==> d == "MI" || (|d| == 1 && d[0] in run)
  {
    LabelDaysConcat(run);
    LabelDaysCodes(run);
  }

  /** The captures of `(\d+):(\d+)\s+a\s+(\d+):(\d+)\s+(am|pm)`. */
  datatype RangeMatch = RangeMatch(startHour: nat, startMin: nat, endHour: nat, endMin: nat, pm: bool)

  /** `\d+:\d+` at `p`: the hour and minute values and the position after them. */
  function ClockAt(s: string, p: nat): (r: Option<(nat, nat, nat)>)
    requires p <= |s|
    ensures r.Some? ==> p < r.value.2 <= |s|
  {
    var d1 := Run(s, p, IsDigit);
    var q1 := p + d1;
    if d1 == 0 || q1 >= |s| || s[q1] != ':' then None else
    var d2 := Run(s, q1 + 1, IsDigit);
    if d2 == 0 then None
    else Some((DigitsAt(s, p, d1), DigitsAt(s, q1 + 1, d2), q1 + 1 + d2))
  }

  /** `ClockAt` from the lengths of the two digit runs. */
  lemma ClockAtOfRuns(s: string, p: nat, d1: nat, d2: nat, hour: nat, minute: nat)
    requires p + d1 + 1 + d2 <= |s| && d1 > 0 && d2 > 0
    requires Run(s, p, IsDigit) == d1 && s[p + d1] == ':' && Run(s, p + d1 + 1, IsDigit) == d2
    requires DigitsAt(s, p, d1) == hour && DigitsAt(s, p + d1 + 1, d2) == minute
    ensures ClockAt(s, p) == Some((hour, minute, p + d1 + 1 + d2))
  {
  }

  /** `\s+a\s+` at `p`: the position after it. */
  function SeparatorAt(s: string, p: nat): (r: Option<nat>)
    requires p <= |s|
    ensures r.Some? ==> p < r.value <= |s|
  {
    var w1 := Run(s, p, IsSpace);
    var q := p + w1;
    if w1 == 0 || q >= |s| || s[q] != 'a' then None else
    var w2 := Run(s, q + 1, IsSpace);
    if w2 == 0 then None else Some(q + 1 + w2)
  }

  /** `\s+(am|pm)` at `p`: whether it reads `pm`. */
  function MeridiemAfter(s: string, p: nat): Option<bool>
    requires p <= |s|
  {
    var w := Run(s, p, IsSpace);
    var q := p + w;
    if w == 0 || q + 2 > |s| || s[q + 1] != 'm' || (s[q] != 'a' && s[q] != 'p') then None
    else Some(s[q] == 'p')
  }

  /**
   * Whether the range pattern matches at position `p`, and its captures. Each greedy run
   * is followed by a character outside its class, so the first way to match is the only one.
   */
  function RangeAt(s: string, p: nat): Option<RangeMatch> {
    if p > |s| then None else
    match ClockAt(s, p)
    case None => None
    case Some((startHour, startMin, q2)) =>
      match SeparatorAt(s, q2)
      case None => None
      case Some(q4) =>
        match ClockAt(s, q4)
        case None => None
        case Some((endHour, endMin, q6)) =>
          match MeridiemAfter(s, q6)
          case None => None
          case Some(pm) => Some(RangeMatch(startHour, startMin, endHour, endMin, pm))
  }

  /** The leftmost match of the range pattern. */
  function FirstRange(s: string): (r: Option<RangeMatch>)
    ensures r.Some? ==>
      exists q :: 0 <= q <= |s| && RangeAt(s, q) == r && forall k :: 0 <= k < q ==> RangeAt(s, k).None?
    ensures r.None? ==> forall q :: 0 <= q <= |s| ==> RangeAt(s, q).None?
  {
    var at := (q: nat) => RangeAt(s, q);
    var found := Leftmost(at, 0, |s|);
    if found.Some? then
      assert at(found.value.0) == RangeAt(s, found.value.0);
      assert forall k :: 0 <= k < found.value.0 ==> at(k) == RangeAt(s, k);
      Some(found.value.1)
    else
      assert forall q :: 0 <= q <= |s| ==> at(q) == RangeAt(s, q);
      None
  }

  /** A match at `q` with none before it is the leftmost match. */
  lemma FirstRangeAt(s: string, q: nat, m: RangeMatch)
    requires q <= |s| && RangeAt(s, q) == Some(m)
    requires forall k :: 0 <= k < q ==> RangeAt(s, k).None?
    ensures FirstRange(s) == Some(m)
  {
    var r := FirstRange(s);
    assert r.Some?;
    var q' :| 0 <= q' <= |s| && RangeAt(s, q') == r && forall k :: 0 <= k < q' ==> RangeAt(s, k).None?;
    assert q' == q;
  }

  /** One time of the range in minutes, with the shared meridiem: pm adds 12 hours except at 12, and 12 am is hour 0. */
  function ClockMinutes(hour: nat, minute: nat, pm: bool): int {
    var m := hour * 60 + minute;
    if pm && hour != 12 then m + 720
    else if !pm && hour == 12 then m - 720
    else m
  }

  /** What `parseTimeFromLabel` returns on success. */
  datatype LabelTime = LabelTime(start: int, end: int, days: seq<string>)

  /** The result `parseTimeFromLabel` computes, as a value. */
  function LabelTimeOf(labelText: string): Option<LabelTime> {
    var n := Run(labelText, 0, IsLabelDayLetter);
    if n == 0 then None
    else match FirstRange(labelText)
      case None => None
      case Some(m) => Some(LabelTime(ClockMinutes(m.startHour, m.startMin, m.pm),
                                     ClockMinutes(m.endHour, m.endMin, m.pm),
                                     LabelDays(labelText[..n])))
  }

  /** With a day run of length `n` and a leftmost range `m`, the label reads as `m`'s times on the run's days. */
  lemma LabelTimeOfMatch(labelText: string, n: nat, m: RangeMatch)
    requires 0 < n && Run(labelText, 0, IsLabelDayLetter) == n && FirstRange(labelText) == Some(m)
    ensures n <= |labelText|
    ensures LabelTimeOf(labelText) == Some(LabelTime(ClockMinutes(m.startHour, m.startMin, m.pm),
                                                     ClockMinutes(m.endHour, m.endMin, m.pm),
                                                     LabelDays(labelText[..n])))
  {
  }

  /**
   * A label parses exactly when it starts with a day letter and contains the range
   * pattern somewhere; the days are the codes of the leading day run.
   */
  lemma LabelTimeOfSpec(labelText: string)
    ensures LabelTimeOf(labelText).Some? <==>
      (labelText != [] && IsLabelDayLetter(labelText[0]) && exists q :: 0 <= q <= |labelText| && RangeAt(labelText, q).Some?)
    ensures LabelTimeOf(labelText).Some? ==>
      Concat(LabelTimeOf(labelText).value.days) == labelText[..Run(labelText, 0, IsLabelDayLetter)]
  {
    var n := Run(labelText, 0, IsLabelDayLetter);
    LabelDaysSpec(labelText[..n]);
    if labelText != [] && IsLabelDayLetter(labelText[0]) {
      assert n > 0;
    }
  }

  /** The example label of the source's comment. */
  const ThursdayLabel: string := "J7:00 a 10:00 am"

  lemma ThursdayMorningChars()
    ensures var s := ThursdayLabel;
      |s| == 16 && s[0] == 'J' && s[1] == '7' && s[2] == ':' && s[3] == '0' && s[4] == '0' && s[5] == ' '
      && s[6] == 'a' && s[7] == ' ' && s[8] == '1' && s[9] == '0' && s[10] == ':' && s[11] == '0'
      && s[12] == '0' && s[13] == ' ' && s[14] == 'a' && s[15] == 'm'
  {
  }

  lemma ThursdayRunsStart()
    ensures Run(ThursdayLabel, 0, IsLabelDayLetter) == 1 && Run(ThursdayLabel, 0, IsDigit) == 0
      && Run(ThursdayLabel, 1, IsDigit) == 1
  {
    ThursdayMorningChars();
    RunExact(ThursdayLabel, 0, 1, IsLabelDayLetter);
    RunExact(ThursdayLabel, 0, 0, IsDigit);
    RunExact(ThursdayLabel, 1, 1, IsDigit);
  }

  lemma ThursdayRunsMiddle()
    ensures Run(ThursdayLabel, 3, IsDigit) == 2 && Run(ThursdayLabel, 5, IsSpace) == 1
      && Run(ThursdayLabel, 7, IsSpace) == 1
  {
    ThursdayMorningChars();
    RunExact(ThursdayLabel, 3, 2, IsDigit);
    RunExact(ThursdayLabel, 5, 1, IsSpace);
    RunExact(ThursdayLabel, 7, 1, IsSpace);
  }

  lemma ThursdayRunsEnd()
    ensures Run(ThursdayLabel, 8, IsDigit) == 2 && Run(ThursdayLabel, 11, IsDigit) == 2
      && Run(ThursdayLabel, 13, IsSpace) == 1
  {
    ThursdayMorningChars();
    RunExact(ThursdayLabel, 8, 2, IsDigit);
    RunExact(ThursdayLabel, 11, 2, IsDigit);
    RunExact(ThursdayLabel, 13, 1, IsSpace);
  }

  lemma ThursdayMorningDigits()
    ensures var s := ThursdayLabel;
      |s| == 16 && IsDigit(s[1]) && IsDigit(s[3]) && IsDigit(s[4]) && IsDigit(s[8]) && IsDigit(s[9])
      && IsDigit(s[11]) && IsDigit(s[12])
      && DigitsAt(s, 1, 1) == 7 && DigitsAt(s, 3, 2) == 0 && DigitsAt(s, 8, 2) == 10 && DigitsAt(s, 11, 2) == 0
  {
    ThursdayMorningChars();
  }

  /** The range pattern does not match at the day letter and matches right after it. */
  lemma ThursdayMorningRangeAt()
    ensures RangeAt(ThursdayLabel, 0).None?
    ensures RangeAt(ThursdayLabel, 1) == Some(RangeMatch(7, 0, 10, 0, false))
  {
    ThursdayMorningClocks();
    ThursdayMorningSeparators();
  }

  lemma ThursdayMorningSeparators()
    ensures SeparatorAt(ThursdayLabel, 5) == Some(8)
    ensures MeridiemAfter(ThursdayLabel, 13) == Some(false)
  {
    ThursdayRunsMiddle();
    ThursdayRunsEnd();
    ThursdayMorningChars();
  }

  lemma ThursdayMorningClocks()
    ensures ClockAt(ThursdayLabel, 0).None?
    ensures ClockAt(ThursdayLabel, 1) == Some((7, 0, 5))
    ensures ClockAt(ThursdayLabel, 8) == Some((10, 0, 13))
  {
    ThursdayRunsStart();
    ThursdayRunsMiddle();
    ThursdayRunsEnd();
    ThursdayMorningChars();
    ThursdayMorningDigits();
    ClockAtOfRuns(ThursdayLabel, 1, 1, 2, 7, 0);
    ClockAtOfRuns(ThursdayLabel, 8, 2, 2, 10, 0);
  }

  lemma ThursdayMorningRange()
    ensures FirstRange(ThursdayLabel) == Some(RangeMatch(7, 0, 10, 0, false))
  {
    ThursdayMorningRangeAt();
    FirstRangeAtOne(ThursdayLabel, RangeMatch(7, 0, 10, 0, false));
  }

  /** A match at position 1 and none at 0 is the leftmost match. */
  lemma FirstRangeAtOne(s: string, m: RangeMatch)
    requires 1 <= |s| && RangeAt(s, 0).None? && RangeAt(s, 1) == Some(m)
    ensures FirstRange(s) == Some(m)
  {
    FirstRangeAt(s, 1, m);
  }

  /** The day run of the example label is the one letter `J`. */
  lemma ThursdayMorningDays()
    ensures Run(ThursdayLabel, 0, IsLabelDayLetter) == 1 && LabelDays(ThursdayLabel[..1]) == ["J"]
  {
    ThursdayRunsStart();
    ThursdayMorningChars();
    var d := ThursdayLabel[..1];
    assert d == "J";
    assert LabelDays(d) == [d] + LabelDays(d[1..]);
  }

  /** The example of the source's comment: Thursday, 7:00 to 10:00 in the morning. */
  lemma ThursdayMorningExample()
    ensures LabelTimeOf(ThursdayLabel) == Some(LabelTime(420, 600, ["J"]))
  {
    ThursdayMorningDays();
    ThursdayMorningRange();
    var m := RangeMatch(7, 0, 10, 0, false);
    LabelTimeOfMatch(ThursdayLabel, 1, m);
    assert ClockMinutes(7, 0, false) == 420 && ClockMinutes(10, 0, false) == 600;
  }

  /** The source's `while` loop over the day run: `MI` where it occurs, every other letter on its own. */
  method SplitDayRun(daysStr: string) returns (days: seq<string>)
    ensures days == LabelDays(daysStr)
  {
    days := [];
    var i := 0;
    while i < |daysStr|
      invariant 0 <= i <= |daysStr|
      invariant days + LabelDays(daysStr[i..]) == LabelDays(daysStr)
    {
      if i < |daysStr| - 1 && daysStr[i..i + 2] == "MI" {
        assert daysStr[i..][..2] == "MI" && daysStr[i..][2..] == daysStr[i + 2..];
        days := days + ["MI"];
        i := i + 2;
      } else {
        assert daysStr[i..][1..] == daysStr[i + 1..];
        days := days + [[daysStr[i]]];
        i := i + 1;
      }
    }
    assert days == LabelDays(daysStr);
  }

  /** `parseTimeFromLabel`: the regular-expression matches as scans, and the day run split by the source's loop. */
  method ParseTimeFromLabel(labelText: string) returns (r: Option<LabelTime>)
    ensures r == LabelTimeOf(labelText)
  {
    var n := Run(labelText, 0, IsLabelDayLetter);
    if n == 0 {
      return None;
    }
    var days := SplitDayRun(labelText[..n]);
    var m := FirstRange(labelText);
    if m.None? {
      r := None;
    } else {
      LabelTimeOfMatch(labelText, n, m.value);
      r := Some(LabelTime(ClockMinutes(m.value.startHour, m.value.startMin, m.value.pm),
                          ClockMinutes(m.value.endHour, m.value.endMin, m.value.pm), days));
    }
  }

  // ---------------------------------------------------------------- slot repair

  /** The repair of one slot when the label does not parse: an end before the start gains 12 hours. */
  function FixSlot(slot: TimeSlot): TimeSlot {
    if slot.end < slot.start then slot.(end := slot.end + 720) else slot
  }

  /**
   * The slots a section ends up with: with a parsed label, one slot per parsed day with the
   * parsed start and end; without one, the existing slots, each repaired.
   */
  function RepairedSlots(parsed: Option<LabelTime>, slots: seq<TimeSlot>): seq<TimeSlot> {
    match parsed
    case Some(lt) => seq(|lt.days|, i requires 0 <= i < |lt.days| => TimeSlot(lt.days[i], lt.start, lt.end))
    case None => seq(|slots|, i requires 0 <= i < |slots| => FixSlot(slots[i]))
  }

  /**
   * `fixSectionSlots`: the section with its slots rebuilt from its label, or repaired when
   * the label does not parse. Every other field is kept.
   */
  function FixSectionSlots(section: ProcessedSection): ProcessedSection {
    section.(slots := RepairedSlots(LabelTimeOf(section.labelText), section.slots))
  }

  /**
   * Without a parsable label, a slot that was in order is kept, and a slot whose end was
   * at most 12 hours before its start ends up in order.
   */
  lemma RepairPutsInOrder(section: ProcessedSection, i: nat)
    requires LabelTimeOf(section.labelText).None? && i < |section.slots|
    requires section.slots[i].start - section.slots[i].end <= 720
    ensures FixSectionSlots(section).slots[i].start <= FixSectionSlots(section).slots[i].end
    ensures section.slots[i].start <= section.slots[i].end ==> FixSectionSlots(section).slots[i] == section.slots[i]
  {
  }

  /**
   * `after` is `before` repaired: the same section, whose slots are the label's days at the
   * label's times when the label parses, and otherwise the same slots on the same days from
   * the same starts, where an ordered slot is kept and one reversed by at most 12 hours is
   * put in order.
   */
  predicate Repaired(before: ProcessedSection, after: ProcessedSection) {
    RepairedWith(LabelTimeOf(before.labelText), before, after)
  }

  /** `Repaired`, for the label reading `parsed`. */
  predicate RepairedWith(parsed: Option<LabelTime>, before: ProcessedSection, after: ProcessedSection) {
    after.crn == before.crn && after.labelText == before.labelText && after.room == before.room
    && after.career == before.career && after.closed == before.closed
    && match parsed
      case Some(lt) =>
        |after.slots| == |lt.days|
        && forall k :: 0 <= k < |lt.days| ==>
          after.slots[k].day == lt.days[k] && after.slots[k].start == lt.start && after.slots[k].end == lt.end
      case None =>
        |after.slots| == |before.slots|
        && forall k :: 0 <= k < |before.slots| ==>
          after.slots[k].day == before.slots[k].day && after.slots[k].start == before.slots[k].start
          && (before.slots[k].start - before.slots[k].end <= 720 ==> after.slots[k].start <= after.slots[k].end)
          && (before.slots[k].start <= before.slots[k].end ==> after.slots[k] == before.slots[k])
  }

  /** Rebuilding the slots from a label reading repairs the section for that reading. */
  lemma RepairedSlotsRepair(parsed: Option<LabelTime>, before: ProcessedSection, after: ProcessedSection)
    requires after == before.(slots := RepairedSlots(parsed, before.slots))
    ensures RepairedWith(parsed, before, after)
  {
  }

  /** `fixSectionSlots` repairs the section it is given. */
  lemma FixSectionRepairs(section: ProcessedSection)
    ensures Repaired(section, FixSectionSlots(section))
  {
    RepairedSlotsRepair(LabelTimeOf(section.labelText), section, FixSectionSlots(section));
  }

  /** `processSectionsData`: every section of every course repaired, courses and sections kept in order. */
  function ProcessSectionsData(raw: SectionsData): SectionsData {
    SectionsData(seq(|raw.courses|, i requires 0 <= i < |raw.courses| =>
      var c := raw.courses[i];
      c.(sections := seq(|c.sections|, j requires 0 <= j < |c.sections| => FixSectionSlots(c.sections[j])))))
  }

  /**
   * The processed data holds the same courses in the same order, with the same names and
   * ids, and each course the same number of sections, each the repair of the section in
   * its place.
   */
  lemma ProcessSectionsDataSpec(raw: SectionsData)
    ensures var r := ProcessSectionsData(raw);
      |r.courses| == |raw.courses|
      && forall i :: 0 <= i < |raw.courses| ==>
        r.courses[i].name == raw.courses[i].name && r.courses[i].id == raw.courses[i].id
        && |r.courses[i].sections| == |raw.courses[i].sections|
        && forall j :: 0 <= j < |raw.courses[i].sections| ==> Repaired(raw.courses[i].sections[j], r.courses[i].sections[j])
  {
    var r := ProcessSectionsData(raw);
    forall i, j | 0 <= i < |raw.courses| && 0 <= j < |raw.courses[i].sections|
      ensures Repaired(raw.courses[i].sections[j], r.courses[i].sections[j])
    {
      FixSectionRepairs(raw.courses[i].sections[j]);
    }
  }

  // ---------------------------------------------------------------- conflicts

  /** Two slots overlap: same day and neither ends before the other starts (half-open intervals). */
  predicate SlotsOverlap(a: TimeSlot, b: TimeSlot) {
    a.day == b.day && !(a.end <= b.start || b.end <= a.start)
  }

  /** Some slot of the first list overlaps some slot of the second. */
  predicate SlotsConflict(xs: seq<TimeSlot>, ys: seq<TimeSlot>) {
    exists i, j :: 0 <= i < |xs| && 0 <= j < |ys| && SlotsOverlap(xs[i], ys[j])
  }

  /** `hasScheduleConflict`: the nested loop over both slot lists with its early return. */
  method HasScheduleConflict(section1: ProcessedSection, section2: ProcessedSection) returns (conflict: bool)
    ensures conflict <==> SlotsConflict(section1.slots, section2.slots)
    ensures conflict <==>
      exists i, j :: 0 <= i < |section1.slots| && 0 <= j < |section2.slots| &&
        section1.slots[i].day == section2.slots[j].day &&
        section1.slots[i].start < section2.slots[j].end && section2.slots[j].start < section1.slots[i].end
  {
    var xs, ys := section1.slots, section2.slots;
    var i := 0;
    while i < |xs|
      invariant 0 <= i <= |xs|
      invariant forall a, b :: 0 <= a < i && 0 <= b < |ys| ==> !SlotsOverlap(xs[a], ys[b])
    {
      var j := 0;
      while j < |ys|
        invariant 0 <= j <= |ys|
        invariant forall b :: 0 <= b < j ==> !SlotsOverlap(xs[i], ys[b])
      {
        if xs[i].day == ys[j].day {
          if !(xs[i].end <= ys[j].start || ys[j].end <= xs[i].start) {
            return true;
          }
        }
        j := j + 1;
      }
      i := i + 1;
    }
    return false;
  }

  /** The test is symmetric in its two sections. */
  lemma ConflictSymmetric(xs: seq<TimeSlot>, ys: seq<TimeSlot>)
    ensures SlotsConflict(xs, ys) <==> SlotsConflict(ys, xs)
  {
    if SlotsConflict(xs, ys) {
      var i, j :| 0 <= i < |xs| && 0 <= j < |ys| && SlotsOverlap(xs[i], ys[j]);
      assert SlotsOverlap(ys[j], xs[i]);
    }
    if SlotsConflict(ys, xs) {
      var j, i :| 0 <= j < |ys| && 0 <= i < |xs| && SlotsOverlap(ys[j], xs[i]);
      assert SlotsOverlap(xs[i], ys[j]);
    }
  }

  /** A section with a slot of positive length conflicts with itself: the callers must skip self-pairs. */
  lemma SelfConflict(xs: seq<TimeSlot>, k: nat)
    requires k < |xs| && xs[k].start < xs[k].end
    ensures SlotsConflict(xs, xs)
  {
    assert SlotsOverlap(xs[k], xs[k]);
  }

  /** Slots that touch, one ending when the other starts, do not overlap. */
  lemma TouchingDoNotOverlap(a: TimeSlot, b: TimeSlot)
    requires a.end == b.start && a.start <= a.end && b.start <= b.end
    ensures !SlotsOverlap(a, b) && !SlotsOverlap(b, a)
  {
  }

  // ---------------------------------------------------------------- display

  /** The display name of a day code; a code the table lacks is shown as it is. */
  function DayName(day: string): string {
    if day == "L" then "Lun"
    else if day == "MI" then "Mié"
    else if day == "J" then "Jue"
    else if day == "V" then "Vie"
    else if day == "S" then "Sáb"
    else day
  }

  /** One slot as `Day HH:MM-HH:MM`. */
  function SlotDisplay(slot: TimeSlot): string {
    DayName(slot.day) + " " + MinutesToTime(slot.start) + "-" + MinutesToTime(slot.end)
  }

  /** `formatScheduleDisplay`: the slots' displays joined by `, `. */
  function FormatScheduleDisplay(section: ProcessedSection): string {
    Join(seq(|section.slots|, i requires 0 <= i < |section.slots| => SlotDisplay(section.slots[i])), ", ")
  }

  lemma {:induction false} JoinSnoc(parts: seq<string>, x: string, sep: string)
    requires parts != []
    ensures Join(parts + [x], sep) == Join(parts, sep) + sep + x
  {
    if |parts| == 1 {
      assert (parts + [x])[1..] == [x];
    } else {
      assert (parts + [x])[1..] == parts[1..] + [x];
      JoinSnoc(parts[1..], x, sep);
    }
  }

  /**
   * The display grows by one entry per slot: no slots show as the empty text, one slot
   * as its entry, and each further slot adds `, ` and its entry at the end.
   */
  lemma FormatScheduleDisplaySnoc(section: ProcessedSection, slot: TimeSlot)
    ensures FormatScheduleDisplay(section.(slots := [])) == ""
    ensures FormatScheduleDisplay(section.(slots := [slot])) == SlotDisplay(slot)
    ensures section.slots != [] ==>
      FormatScheduleDisplay(section.(slots := section.slots + [slot]))
        == FormatScheduleDisplay(section) + ", " + SlotDisplay(slot)
  {
    var one := section.(slots := [slot]);
    assert seq(1, i requires 0 <= i < 1 => SlotDisplay(one.slots[i])) == [SlotDisplay(slot)];
    if section.slots != [] {
      var longer := section.(slots := section.slots + [slot]);
      var ps := seq(|section.slots|, i requires 0 <= i < |section.slots| => SlotDisplay(section.slots[i]));
      assert seq(|longer.slots|, i requires 0 <= i < |longer.slots| => SlotDisplay(longer.slots[i])) == ps + [SlotDisplay(slot)];
      JoinSnoc(ps, SlotDisplay(slot), ", ");
    }
  }

  /** Codes outside the table, `MA` among them, are shown raw; the five in it get their names. */
  lemma DayNameRaw(day: string)
    requires day !in ["L", "MI", "J", "V", "S"]
    ensures DayName(day) == day
  {
  }
}
