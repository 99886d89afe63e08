/**
 * The offline merge of newly published sections into the sections data: reading 12-hour
 * times, splitting day codes, turning a schedule text into minute-of-week slots and a
 * display label, reading one tab-separated line of the published list, and merging the
 * new sections into the existing courses with CRN de-duplication. Slots here are minutes
 * since Monday 00:00, the day's offset plus the minutes of the day.
 */
module MergeSections {
  import opened Wrappers
  import opened Text
  import opened Seqs
  import opened Grouping

  /** A weekly meeting: a day code and minutes since the start of the week. */
  datatype WeekSlot = WeekSlot(day: string, start: int, end: int)

  datatype Section = Section(crn: string, labelText: string, room: string, career: Option<string>,
                             closed: bool, slots: seq<WeekSlot>)

  datatype CourseWithSections = CourseWithSections(name: string, id: Option<string>, sections: seq<Section>)

  /** The catalog record the merge looks courses up in. */
  datatype CatalogEntry = CatalogEntry(id: string, name: string, credits: int)

  // ---------------------------------------------------------------- day codes

  /** The keys of `DAY_CODES` (and of `DAY_OFFSETS`). */
  predicate IsDayCode(code: string) {
    code == "L" || code == "MA" || code == "MI" || code == "J" || code == "V" || code == "S"
  }

  /** `DAY_CODES`: the display name of each code. */
  function DayCodeName(code: string): string
    requires IsDayCode(code)
  {
    if code == "L" then "Lun"
    else if code == "MA" then "Mar"
    else if code == "MI" then "Mié"
    else if code == "J" then "Jue"
    else if code == "V" then "Vie"
    else "Sáb"
  }

  /** `DAY_OFFSETS`: the minute of the week at which each day starts. */
  function DayOffset(code: string): (r: int)
    requires IsDayCode(code)
    ensures 0 <= r <= 7200 && r % 1440 == 0
  {
    if code == "L" then 0
    else if code == "MA" then 1440
    else if code == "MI" then 2880
    else if code == "J" then 4320
    else if code == "V" then 5760
    else 7200
  }

  /** The offsets put the six days one day apart, in week order. */
  lemma DayOffsetsDistinct(a: string, b: string)
    requires IsDayCode(a) && IsDayCode(b) && a != b
    ensures DayOffset(a) != DayOffset(b)
  {
  }

  /**
   * The day codes read from position `i` on, as the source's loop reads them: while the
   * character is an upper-case letter, a two-letter code is taken when the next character
   * is also upper case and the pair is a code; otherwise the letter is taken when it is a
   * code on its own, and skipped when it is not.
   */
  function DayCodesFrom(s: string, i: nat): (r: seq<string>)
    requires i <= |s|
    ensures forall k :: 0 <= k < |r| ==> IsDayCode(r[k])
    decreases |s| - i
  {
    if i >= |s| || !IsUpper(s[i]) then []
    else if i + 1 < |s| && IsUpper(s[i + 1]) && IsDayCode(s[i..i + 2]) then [s[i..i + 2]] + DayCodesFrom(s, i + 2)
    else if IsDayCode([s[i]]) then [[s[i]]] + DayCodesFrom(s, i + 1)
    else DayCodesFrom(s, i + 1)
  }

  /** `parseDayCodes` as a value. */
  function DayCodes(s: string): seq<string> {
    DayCodesFrom(s, 0)
  }

  /** `parseDayCodes`: the source's `while` loop with its `continue`. */
  method ParseDayCodes(s: string) returns (days: seq<string>)
    ensures days == DayCodes(s)
    ensures forall k :: 0 <= k < |days| ==> IsDayCode(days[k])
  {
    days := [];
    var i := 0;
    while i < |s| && IsUpper(s[i])
      invariant 0 <= i <= |s|
      invariant days + DayCodesFrom(s, i) == DayCodes(s)
      decreases |s| - i
    {
      ghost var rest := DayCodesFrom(s, i);
      if i + 1 < |s| && IsUpper(s[i + 1]) {
        var twoChar := s[i..i + 2];
        if IsDayCode(twoChar) {
          assert rest == [twoChar] + DayCodesFrom(s, i + 2);
          AppendAssoc(days, [twoChar], DayCodesFrom(s, i + 2));
          days := days + [twoChar];
          i := i + 2;
          continue;
        }
      }
      var oneChar := [s[i]];
      if IsDayCode(oneChar) {
        assert rest == [oneChar] + DayCodesFrom(s, i + 1);
        AppendAssoc(days, [oneChar], DayCodesFrom(s, i + 1));
        days := days + [oneChar];
      } else {
        assert rest == DayCodesFrom(s, i + 1);
      }
      i := i + 1;
    }
    assert DayCodesFrom(s, i) == [];
    assert days == days + [];
  }

  /** The codes read from `i` depend only on the upper-case run from `i` to `m`. */
  lemma {:induction false} DayCodesFromRun(s: string, i: nat, m: nat)
    requires i <= m <= |s| && (m == |s| || !IsUpper(s[m]))
    requires forall k :: i <= k < m ==> IsUpper(s[k])
    ensures DayCodesFrom(s, i) == DayCodesFrom(s[..m], i)
    decreases m - i
  {
    var t := s[..m];
    if i < m {
      assert t[i] == s[i];
      if i + 1 < m {
        assert t[i + 1] == s[i + 1];
        assert t[i..i + 2] == s[i..i + 2];
        DayCodesFromRun(s, i + 1, m);
        if i + 2 <= m {
          DayCodesFromRun(s, i + 2, m);
        }
      } else {
        DayCodesFromRun(s, i + 1, m);
      }
    }
  }

  /**
   * Reading stops at the first character that is not an upper-case letter: the codes of
   * a text are the codes of its leading upper-case run.
   */
  lemma DayCodesOfLeadingRun(s: string)
    ensures DayCodes(s) == DayCodes(s[..Run(s, 0, IsUpper)])
  {
    DayCodesFromRun(s, 0, Run(s, 0, IsUpper));
  }

  /** Two-letter codes are tried first: `MAMI` reads as Tuesday and Wednesday, `LMI` as Monday and Wednesday. */
  lemma TwoLetterCodesFirst()
    ensures DayCodes("MAMI") == ["MA", "MI"]
    ensures DayCodes("LMI") == ["L", "MI"]
  {
    var s := "MAMI";
    assert s[0..2] == "MA" && s[2..4] == "MI";
    assert DayCodesFrom(s, 4) == [];
    assert DayCodesFrom(s, 2) == ["MI"];
    var t := "LMI";
    assert t[0..2] == "LM" && t[1..3] == "MI" && !IsDayCode("LM");
    assert DayCodesFrom(t, 3) == [];
    assert DayCodesFrom(t, 1) == ["MI"];
  }

  /** An upper-case letter that starts no code is skipped: `X` reads as nothing, and `MX` too. */
  lemma NonCodesSkipped()
    ensures DayCodes("MX") == []
    ensures DayCodes("XJ") == ["J"]
  {
    var s := "MX";
    assert s[0..2] == "MX" && !IsDayCode("MX") && !IsDayCode("M") && !IsDayCode("X");
    assert DayCodesFrom(s, 2) == [];
    assert DayCodesFrom(s, 1) == [];
    var t := "XJ";
    assert t[0..2] == "XJ" && !IsDayCode("XJ");
    assert DayCodesFrom(t, 2) == [];
    assert DayCodesFrom(t, 1) == ["J"];
  }

  // ---------------------------------------------------------------- times

  /** `am` or `pm` in either case at `r`, as `(am|pm)` matches under the `i` flag; the letter is `a` or `p`. */
  predicate MeridiemAt(s: string, r: nat, letter: char) {
    r + 2 <= |s| && (s[r] == letter || s[r] as int == letter as int - 32) && (s[r + 1] == 'm' || s[r + 1] == 'M')
  }

  /** The captures of `(\d+):(\d+)\s*(am|pm)?`: hours, minutes and whether the meridiem read is `pm`. */
  datatype TimeMatch = TimeMatch(hours: nat, minutes: nat, pm: bool)

  /**
   * Whether the time pattern matches at `p`, and its captures. The digit and space runs
   * are greedy and each is followed by a character outside its class, so the first way to
   * match is the only one; the optional meridiem is captured whenever it follows.
   */
  function TimeAt(s: string, p: nat): Option<TimeMatch> {
    if p > |s| then None else
    var d1 := Run(s, p, IsDigit);
    var q1 := p + d1;
    if d1 == 0 || q1 >= |s| || s[q1] != ':' then None else
    var d2 := Run(s, q1 + 1, IsDigit);
    var q2 := q1 + 1 + d2;
    if d2 == 0 then None else
    var w := Run(s, q2, IsSpace);
    Some(TimeMatch(DigitsAt(s, p, d1), DigitsAt(s, q1 + 1, d2), MeridiemAt(s, q2 + w, 'p')))
  }

  /** The leftmost match of the time pattern. */
  function FirstTime(s: string): (r: Option<TimeMatch>)
    ensures r.Some? ==>
      exists q :: 0 <= q <= |s| && TimeAt(s, q) == r && forall k :: 0 <= k < q ==> TimeAt(s, k).None?
    ensures r.None? ==> forall q :: 0 <= q <= |s| ==> TimeAt(s, q).None?
  {
    var at := (q: nat) => TimeAt(s, q);
    var found := Leftmost(at, 0, |s|);
    if found.Some? then
      assert at(found.value.0) == TimeAt(s, found.value.0);
      assert forall k :: 0 <= k < found.value.0 ==> at(k) == TimeAt(s, k);
      Some(found.value.1)
    else
      assert forall q :: 0 <= q <= |s| ==> at(q) == TimeAt(s, q);
      None
  }

  /** A match at `q` with none before it is the leftmost match. */
  lemma FirstTimeAt(s: string, q: nat, m: TimeMatch)
    requires q <= |s| && TimeAt(s, q) == Some(m)
    requires forall k :: 0 <= k < q ==> TimeAt(s, k).None?
    ensures FirstTime(s) == Some(m)
  {
    var r := FirstTime(s);
    assert r.Some?;
    var q' :| 0 <= q' <= |s| && TimeAt(s, q') == r && forall k :: 0 <= k < q' ==> TimeAt(s, k).None?;
    assert q' == q;
  }

  /** What `parseTime` returns: 24-hour hours, minutes, and whether the hour is in the afternoon. */
  datatype Clock = Clock(hours: int, minutes: int, isPM: bool)

  /** The 12-hour conversion: `pm` adds 12 except at 12, and 12 without `pm` is hour 0. */
  function To24Hour(hours: nat, pm: bool): nat {
    if pm && hours != 12 then hours + 12
    else if !pm && hours == 12 then 0
    else hours
  }

  /**
   * The conversion keeps the hour's place on the 12-hour dial, and a dial hour 1..12 lands
   * in the afternoon half of the day exactly when it is `pm`.
   */
  lemma To24HourSpec(hours: nat, pm: bool)
    ensures To24Hour(hours, pm) % 12 == hours % 12
    ensures 1 <= hours <= 12 ==> To24Hour(hours, pm) < 24 && (To24Hour(hours, pm) >= 12 <==> pm)
  {
  }

  /** `parseTime`: the leftmost `H:MM` with its optional meridiem, or the error the source throws. */
  function ParseTime(timeStr: string): (r: Result<Clock, string>)
    ensures r.Err? <==> forall q :: 0 <= q <= |timeStr| ==> TimeAt(timeStr, q).None?
    ensures r.Err? ==> r.error == "Invalid time format: " + timeStr
    ensures r.Ok? ==> (r.value.isPM <==> r.value.hours >= 12)
    ensures r.Ok? ==>
      FirstTime(timeStr).Some?
      && r.value.hours == To24Hour(FirstTime(timeStr).value.hours, FirstTime(timeStr).value.pm)
      && r.value.minutes == FirstTime(timeStr).value.minutes
  {
    match FirstTime(timeStr)
    case None => Err("Invalid time format: " + timeStr)
    case Some(m) =>
      var hours := To24Hour(m.hours, m.pm);
      Ok(Clock(hours, m.minutes, hours >= 12))
  }

  /** `timeToMinutes(hours, minutes)`. */
  function ClockMinutes(hours: int, minutes: int): int {
    hours * 60 + minutes
  }

  /** `minutesToTime`: the hour of the day (floor of the hours, JavaScript's `% 24`) and the `% 60` minutes. */
  function MinutesToClock(totalMinutes: int): (r: (int, int))
    ensures 0 <= totalMinutes ==> 0 <= r.0 < 24 && 0 <= r.1 < 60
    ensures 0 <= totalMinutes < 1440 ==> ClockMinutes(r.0, r.1) == totalMinutes
  {
    (JsRem(totalMinutes / 60, 24), JsRem(totalMinutes, 60))
  }

  /** A count past midnight wraps to the same time of the next day. */
  lemma MinutesToClockWraps(totalMinutes: nat)
    ensures MinutesToClock(totalMinutes + 1440) == MinutesToClock(totalMinutes)
  {
    assert (totalMinutes + 1440) / 60 == totalMinutes / 60 + 24;
  }

  /** The hour shown on a 12-hour clock. */
  function DisplayHour(hours: int): int {
    if hours == 0 then 12 else if hours > 12 then hours - 12 else hours
  }

  /** `formatTime12Hour`: `H:MM AM` or `H:MM PM`, the minutes padded to two digits. */
  function FormatTime12Hour(hours: int, minutes: int): string {
    IntToString(DisplayHour(hours)) + ":" + PadStart2(IntToString(minutes)) + " " + (if hours >= 12 then "PM" else "AM")
  }

  /**
   * On the hours of a day, the 12-hour display shows 12 for hours 0 and 12, `hours - 12`
   * for the afternoon and the hour itself for the morning, always between 1 and 12, with
   * `PM` exactly from hour 12 on.
   */
  lemma FormatTime12HourShape(hours: int, minutes: int)
    requires 0 <= hours < 24 && 0 <= minutes < 60
    ensures 1 <= DisplayHour(hours) <= 12
    ensures hours == 0 || hours == 12 ==> DisplayHour(hours) == 12
    ensures 13 <= hours ==> DisplayHour(hours) == hours - 12
    ensures 1 <= hours <= 11 ==> DisplayHour(hours) == hours
    ensures var t := PadStart2(NatToString(minutes));
      FormatTime12Hour(hours, minutes)
      == NatToString(DisplayHour(hours)) + ":" + t + " " + (if hours >= 12 then "PM" else "AM")
      && |t| == 2 && AllDigits(t)
  {
    PadStart2Nat(minutes);
  }

  /** A meridiem as `(am|pm)` reads it under the `i` flag. */
  predicate IsMeridiem(mer: string) {
    |mer| == 2 && (MeridiemAt(mer, 0, 'a') || MeridiemAt(mer, 0, 'p'))
  }

  /**
   * The time pattern matches at the start of a text made of `d1` digits, a colon, `d2`
   * digits and `ws` spaces, each run ending where a character outside its class follows.
   */
  lemma TimeAtShape(t: string, d1: nat, d2: nat, ws: nat)
    requires 1 <= d1 && 1 <= d2 && d1 + 1 + d2 + ws <= |t|
    requires forall k :: 0 <= k < d1 ==> IsDigit(t[k])
    requires t[d1] == ':'
    requires forall k :: d1 + 1 <= k < d1 + 1 + d2 ==> IsDigit(t[k])
    requires d1 + 1 + d2 == |t| || !IsDigit(t[d1 + 1 + d2])
    requires Run(t, d1 + 1 + d2, IsSpace) == ws
    ensures TimeAt(t, 0) == Some(TimeMatch(DigitsAt(t, 0, d1), DigitsAt(t, d1 + 1, d2), MeridiemAt(t, d1 + 1 + d2 + ws, 'p')))
  {
    RunExact(t, 0, d1, IsDigit);
    RunExact(t, d1 + 1, d2, IsDigit);
    TimeAtOfRuns(t, d1, d2, ws);
  }

  /** The time pattern's captures, once the lengths of its three runs are known. */
  lemma TimeAtOfRuns(t: string, d1: nat, d2: nat, ws: nat)
    requires 1 <= d1 && 1 <= d2 && d1 < |t| && t[d1] == ':'
    requires Run(t, 0, IsDigit) == d1
    requires Run(t, d1 + 1, IsDigit) == d2
    requires Run(t, d1 + 1 + d2, IsSpace) == ws
    ensures TimeAt(t, 0) == Some(TimeMatch(DigitsAt(t, 0, d1), DigitsAt(t, d1 + 1, d2), MeridiemAt(t, d1 + 1 + d2 + ws, 'p')))
  {
  }

  /** Where the parts of a time text lie in it. */
  lemma TimeTextLayout(t: string, a: string, b: string, w: string, mer: string)
    requires t == a + ":" + b + w + mer
    ensures |t| == |a| + 1 + |b| + |w| + |mer|
    ensures t[..|a|] == a && t[|a|] == ':'
    ensures t[|a| + 1..|a| + 1 + |b|] == b
    ensures t[|a| + 1 + |b|..|a| + 1 + |b| + |w|] == w
    ensures t[|a| + 1 + |b| + |w|..] == mer
  {
  }

  /** `TimeAtShape` with the captures named. */
  lemma TimeAtIs(t: string, d1: nat, d2: nat, ws: nat, hours: nat, minutes: nat, pm: bool)
    requires 1 <= d1 && 1 <= d2 && d1 + 1 + d2 + ws <= |t|
    requires forall k :: 0 <= k < d1 ==> IsDigit(t[k])
    requires t[d1] == ':'
    requires forall k :: d1 + 1 <= k < d1 + 1 + d2 ==> IsDigit(t[k])
    requires d1 + 1 + d2 == |t| || !IsDigit(t[d1 + 1 + d2])
    requires Run(t, d1 + 1 + d2, IsSpace) == ws
    requires DigitsAt(t, 0, d1) == hours && DigitsAt(t, d1 + 1, d2) == minutes
    requires MeridiemAt(t, d1 + 1 + d2 + ws, 'p') == pm
    ensures TimeAt(t, 0) == Some(TimeMatch(hours, minutes, pm))
  {
    TimeAtShape(t, d1, d2, ws);
  }

  /** The digit runs of a time text are worth what the texts they spell are worth. */
  lemma TimeDigitValues(t: string, a: string, b: string, ws: nat)
    requires 1 <= |a| && 1 <= |b| && |a| + 1 + |b| + ws <= |t|
    requires forall k :: 0 <= k < |a| ==> IsDigit(t[k])
    requires t[..|a|] == a
    requires forall k :: |a| + 1 <= k < |a| + 1 + |b| ==> IsDigit(t[k])
    requires t[|a| + 1..|a| + 1 + |b|] == b
    ensures AllDigits(a) && AllDigits(b)
    ensures DigitsAt(t, 0, |a|) == DigitsValue(a) && DigitsAt(t, |a| + 1, |b|) == DigitsValue(b)
  {
    assert t[0..|a|] == a;
    DigitsAtSlice(t, 0, |a|, a);
    DigitsAtSlice(t, |a| + 1, |b|, b);
  }

  /** The character classes along a time text given by the slices its parts occupy. */
  lemma TimeSlicesClasses(t: string, a: string, b: string, w: string, mer: string)
    requires AllDigits(a) && AllDigits(b)
    requires forall k :: 0 <= k < |w| ==> IsSpace(w[k])
    requires mer == [] || IsMeridiem(mer)
    requires |t| == |a| + 1 + |b| + |w| + |mer|
    requires t[..|a|] == a
    requires t[|a| + 1..|a| + 1 + |b|] == b
    requires t[|a| + 1 + |b|..|a| + 1 + |b| + |w|] == w
    requires t[|a| + 1 + |b| + |w|..] == mer
    ensures forall k :: 0 <= k < |a| ==> IsDigit(t[k])
    ensures forall k :: |a| + 1 <= k < |a| + 1 + |b| ==> IsDigit(t[k])
    ensures forall k :: |a| + 1 + |b| <= k < |a| + 1 + |b| + |w| ==> IsSpace(t[k])
    ensures forall k :: 0 <= k < |mer| ==> t[|a| + 1 + |b| + |w| + k] == mer[k]
    ensures |a| + 1 + |b| == |t| || !IsDigit(t[|a| + 1 + |b|])
    ensures |a| + 1 + |b| + |w| == |t| || !IsSpace(t[|a| + 1 + |b| + |w|])
  {
    var q1 := |a|;
    var q2 := q1 + 1 + |b|;
    var r := q2 + |w|;
    forall k | 0 <= k < q1
      ensures IsDigit(t[k])
    {
      assert t[k] == a[k];
    }
    forall k | q1 + 1 <= k < q2
      ensures IsDigit(t[k])
    {
      assert t[k] == b[k - q1 - 1];
    }
    forall k | q2 <= k < r
      ensures IsSpace(t[k])
    {
      assert t[k] == w[k - q2];
    }
    forall k | 0 <= k < |mer|
      ensures t[r + k] == mer[k]
    {
    }
    if q2 < |t| {
      assert !IsDigit(t[q2]) by {
        if |w| > 0 {
          assert t[q2] == w[0];
        } else {
          assert t[q2] == mer[0];
        }
      }
    }
    if r < |t| {
      assert t[r] == mer[0];
    }
  }

  /** The time pattern on a text given by the slices its parts occupy. */
  lemma TimeAtOfSlices(t: string, a: string, b: string, w: string, mer: string)
    requires |a| >= 1 && |b| >= 1 && AllDigits(a) && AllDigits(b)
    requires forall k :: 0 <= k < |w| ==> IsSpace(w[k])
    requires mer == [] || IsMeridiem(mer)
    requires |t| == |a| + 1 + |b| + |w| + |mer|
    requires t[..|a|] == a && t[|a|] == ':'
    requires t[|a| + 1..|a| + 1 + |b|] == b
    requires t[|a| + 1 + |b|..|a| + 1 + |b| + |w|] == w
    requires t[|a| + 1 + |b| + |w|..] == mer
    ensures TimeAt(t, 0) == Some(TimeMatch(DigitsValue(a), DigitsValue(b), mer != [] && MeridiemAt(mer, 0, 'p')))
  {
    TimeSlicesClasses(t, a, b, w, mer);
    TimeDigitValues(t, a, b, |w|);
    TimeAtOfLayout(t, |a|, |b|, |w|, DigitsValue(a), DigitsValue(b), mer);
  }

  /** `TimeAtIs` for a text whose white space and meridiem are known by position. */
  lemma TimeAtOfLayout(t: string, d1: nat, d2: nat, ws: nat, hours: nat, minutes: nat, mer: string)
    requires 1 <= d1 && 1 <= d2 && |t| == d1 + 1 + d2 + ws + |mer|
    requires forall k :: 0 <= k < d1 ==> IsDigit(t[k])
    requires t[d1] == ':'
    requires forall k :: d1 + 1 <= k < d1 + 1 + d2 ==> IsDigit(t[k])
    requires forall k :: d1 + 1 + d2 <= k < d1 + 1 + d2 + ws ==> IsSpace(t[k])
    requires forall k :: 0 <= k < |mer| ==> t[d1 + 1 + d2 + ws + k] == mer[k]
    requires d1 + 1 + d2 == |t| || !IsDigit(t[d1 + 1 + d2])
    requires d1 + 1 + d2 + ws == |t| || !IsSpace(t[d1 + 1 + d2 + ws])
    requires DigitsAt(t, 0, d1) == hours && DigitsAt(t, d1 + 1, d2) == minutes
    ensures TimeAt(t, 0) == Some(TimeMatch(hours, minutes, mer != [] && MeridiemAt(mer, 0, 'p')))
  {
    RunExact(t, d1 + 1 + d2, ws, IsSpace);
    MeridiemAtShift(t, d1 + 1 + d2 + ws, mer, 'p');
    TimeAtIs(t, d1, d2, ws, hours, minutes, mer != [] && MeridiemAt(mer, 0, 'p'));
  }

  /**
   * The time pattern matches a text of digits, a colon, digits, white space and an
   * optional meridiem at its start, with the digits' values as captures.
   */
  lemma TimeAtOfText(t: string, a: string, b: string, w: string, mer: string)
    requires |a| >= 1 && |b| >= 1 && AllDigits(a) && AllDigits(b)
    requires forall k :: 0 <= k < |w| ==> IsSpace(w[k])
    requires mer == [] || IsMeridiem(mer)
    requires t == a + ":" + b + w + mer
    ensures TimeAt(t, 0) == Some(TimeMatch(DigitsValue(a), DigitsValue(b), mer != [] && MeridiemAt(mer, 0, 'p')))
  {
    TimeTextLayout(t, a, b, w, mer);
    TimeAtOfSlices(t, a, b, w, mer);
  }

  /** A meridiem test on the tail of a text is the test on that tail alone. */
  lemma MeridiemAtShift(t: string, r: nat, mer: string, letter: char)
    requires |t| == r + |mer|
    requires forall k :: 0 <= k < |mer| ==> t[r + k] == mer[k]
    ensures MeridiemAt(t, r, letter) == (mer != [] && MeridiemAt(mer, 0, letter))
  {
    if |mer| >= 2 {
      assert t[r] == mer[0] && t[r + 1] == mer[1];
    }
  }

  /** `parseTime` reads such a text as its hours, converted to 24 hours, and its minutes. */
  lemma ParseTimeOfText(t: string, a: string, b: string, w: string, mer: string)
    requires |a| >= 1 && |b| >= 1 && AllDigits(a) && AllDigits(b)
    requires forall k :: 0 <= k < |w| ==> IsSpace(w[k])
    requires mer == [] || IsMeridiem(mer)
    requires t == a + ":" + b + w + mer
    ensures var hours := To24Hour(DigitsValue(a), mer != [] && MeridiemAt(mer, 0, 'p'));
      ParseTime(t) == Ok(Clock(hours, DigitsValue(b), hours >= 12))
  {
    TimeAtOfText(t, a, b, w, mer);
    FirstTimeAt(t, 0, TimeMatch(DigitsValue(a), DigitsValue(b), mer != [] && MeridiemAt(mer, 0, 'p')));
  }

  /** Reading back a displayed time gives the hour of the day and the minutes it was made from. */
  lemma FormatTime12HourRoundTrip(hours: int, minutes: int)
    requires 0 <= hours < 24 && 0 <= minutes < 60
    ensures ParseTime(FormatTime12Hour(hours, minutes)) == Ok(Clock(hours, minutes, hours >= 12))
  {
    FormatTime12HourShape(hours, minutes);
    var a := NatToString(DisplayHour(hours));
    var b := PadStart2(NatToString(minutes));
    DigitsValueOfNatToString(DisplayHour(hours));
    PadStart2Nat(minutes);
    ParseDisplayed(FormatTime12Hour(hours, minutes), a, b, if hours >= 12 then "PM" else "AM", hours, minutes);
  }

  /** A time written as the 12-hour display hour, the minutes and the meridiem reads back as the hour of the day. */
  lemma ParseDisplayed(t: string, a: string, b: string, mer: string, hours: int, minutes: int)
    requires 0 <= hours < 24 && |a| >= 1 && |b| >= 1 && AllDigits(a) && AllDigits(b)
    requires DigitsValue(a) == DisplayHour(hours) && DigitsValue(b) == minutes
    requires mer == (if hours >= 12 then "PM" else "AM") && t == a + ":" + b + " " + mer
    ensures ParseTime(t) == Ok(Clock(hours, minutes, hours >= 12))
  {
    assert IsMeridiem(mer);
    ParseTimeOfText(t, a, b, " ", mer);
    assert MeridiemAt(mer, 0, 'p') == (hours >= 12);
  }

  // ---------------------------------------------------------------- schedules

  /** What `parseSchedule` returns: the week slots and the label shown for them. */
  datatype Schedule = Schedule(slots: seq<WeekSlot>, text: string)

  /** Where `\d+:\d+` matches at `p`: its hour digits, its minute digits, and the index just past them. */
  function ClockTextAt(s: string, p: nat): (r: Option<(string, string, nat)>)
    requires p <= |s|
    ensures r.Some? ==> |r.value.0| >= 1 && AllDigits(r.value.0) && |r.value.1| >= 1 && AllDigits(r.value.1)
    ensures r.Some? ==> p < r.value.2 <= |s|
  {
    var d1 := Run(s, p, IsDigit);
    var c := p + d1;
    if d1 == 0 || c >= |s| || s[c] != ':' then None else
    var d2 := Run(s, c + 1, IsDigit);
    if d2 == 0 then None else
    AllDigitsSlice(s, p, c);
    AllDigitsSlice(s, c + 1, c + 1 + d2);
    Some((s[p..c], s[c + 1..c + 1 + d2], c + 1 + d2))
  }

  /** The text `(am|pm)?` captures at `r` under the `i` flag: two letters, or nothing. */
  function MeridiemText(s: string, r: nat): (m: string)
    ensures m == [] || IsMeridiem(m)
  {
    if MeridiemAt(s, r, 'a') || MeridiemAt(s, r, 'p') then
      assert s[r..r + 2][0] == s[r] && s[r..r + 2][1] == s[r + 1];
      s[r..r + 2]
    else ""
  }

  /**
   * The captures of `([A-Z]+)(\d+:\d+)\s*a\s*(\d+:\d+)\s*(am|pm)?` under the `i` flag: the
   * letters, the hour and minute digits of both times, and the meridiem text (empty when
   * absent).
   */
  datatype RangeMatch = RangeMatch(letters: string, startHours: string, startMinutes: string,
                                   endHours: string, endMinutes: string, meridiem: string)

  /** The captures are what the pattern can capture: digits around each colon and an optional meridiem. */
  predicate RangeCaptures(m: RangeMatch) {
    |m.startHours| >= 1 && AllDigits(m.startHours) && |m.startMinutes| >= 1 && AllDigits(m.startMinutes)
    && |m.endHours| >= 1 && AllDigits(m.endHours) && |m.endMinutes| >= 1 && AllDigits(m.endMinutes)
    && (m.meridiem == [] || IsMeridiem(m.meridiem))
  }

  /**
   * Whether the range pattern matches at `p`, and its captures. Letters, digits, spaces
   * and the separating `a` belong to disjoint classes, and every run is greedy, so the
   * first way to match is the only one.
   */
  function RangeAt(s: string, p: nat): (r: Option<RangeMatch>)
    ensures r.Some? ==> RangeCaptures(r.value)
  {
    if p > |s| then None else
    var l := Run(s, p, IsAsciiLetter);
    if l == 0 then None else
    match ClockTextAt(s, p + l)
    case None => None
    case Some((h1, m1, e1)) =>
      var a := e1 + Run(s, e1, IsSpace);
      if a >= |s| || (s[a] != 'a' && s[a] != 'A') then None else
      var b := a + 1 + Run(s, a + 1, IsSpace);
      match ClockTextAt(s, b)
      case None => None
      case Some((h2, m2, e2)) =>
        Some(RangeMatch(s[p..p + l], h1, m1, h2, m2, MeridiemText(s, e2 + Run(s, e2, IsSpace))))
  }

  /** The leftmost match of the range pattern. */
  function FirstRange(s: string): (r: Option<RangeMatch>)
    ensures r.Some? ==> RangeCaptures(r.value)
    ensures r.Some? ==>
      exists q :: 0 <= q <= |s| && RangeAt(s, q) == r && forall k :: 0 <= k < q ==> RangeAt(s, k).None?
    ensures r.None? ==> forall q :: 0 <= q <= |s| ==> RangeAt(s, q).None?
  {
    var at := (q: nat) => RangeAt(s, q);
    var found := Leftmost(at, 0, |s|);
    if found.Some? then
      assert at(found.value.0) == RangeAt(s, found.value.0);
      assert forall k :: 0 <= k < found.value.0 ==> at(k) == RangeAt(s, k);
      Some(found.value.1)
    else
      assert forall q :: 0 <= q <= |s| ==> at(q) == RangeAt(s, q);
      None
  }

  /** A match at `q` with none before it is the leftmost match. */
  lemma FirstRangeAt(s: string, q: nat, m: RangeMatch)
    requires q <= |s| && RangeAt(s, q) == Some(m)
    requires forall k :: 0 <= k < q ==> RangeAt(s, k).None?
    ensures FirstRange(s) == Some(m)
  {
    var r := FirstRange(s);
    assert r.Some?;
    var q' :| 0 <= q' <= |s| && RangeAt(s, q') == r && forall k :: 0 <= k < q' ==> RangeAt(s, k).None?;
    assert q' == q;
  }

  /** `parseTime` on a captured time followed directly by the captured meridiem never fails. */
  lemma ParseTimeOfCapture(hours: string, minutes: string, meridiem: string)
    requires |hours| >= 1 && AllDigits(hours) && |minutes| >= 1 && AllDigits(minutes)
    requires meridiem == [] || IsMeridiem(meridiem)
    ensures var h := To24Hour(DigitsValue(hours), meridiem != [] && MeridiemAt(meridiem, 0, 'p'));
      ParseTime(hours + ":" + minutes + meridiem) == Ok(Clock(h, DigitsValue(minutes), h >= 12))
  {
    var t := hours + ":" + minutes + meridiem;
    assert t == hours + ":" + minutes + "" + meridiem;
    ParseTimeOfText(t, hours, minutes, "", meridiem);
  }

  /** The range form's start or end: its digits and the shared meridiem, as `parseTime` reads them. */
  function RangeClock(hours: string, minutes: string, meridiem: string): (c: Clock)
    requires |hours| >= 1 && AllDigits(hours) && |minutes| >= 1 && AllDigits(minutes)
    requires meridiem == [] || IsMeridiem(meridiem)
    ensures c.hours == To24Hour(DigitsValue(hours), meridiem != [] && MeridiemAt(meridiem, 0, 'p'))
    ensures c.minutes == DigitsValue(minutes)
  {
    ParseTimeOfCapture(hours, minutes, meridiem);
    ParseTime(hours + ":" + minutes + meridiem).value
  }

  /** `RangeClock` is what `parseTime` returns on the time and the meridiem: the call never throws. */
  lemma RangeClockParses(hours: string, minutes: string, meridiem: string)
    requires |hours| >= 1 && AllDigits(hours) && |minutes| >= 1 && AllDigits(minutes)
    requires meridiem == [] || IsMeridiem(meridiem)
    ensures ParseTime(hours + ":" + minutes + meridiem) == Ok(RangeClock(hours, minutes, meridiem))
  {
    ParseTimeOfCapture(hours, minutes, meridiem);
  }

  /** One slot per day, each at the day's offset plus the same minutes of the day. */
  function WeekSlots(days: seq<string>, start: int, end: int): seq<WeekSlot>
    requires forall k :: 0 <= k < |days| ==> IsDayCode(days[k])
  {
    seq(|days|, i requires 0 <= i < |days| => WeekSlot(days[i], DayOffset(days[i]) + start, DayOffset(days[i]) + end))
  }

  /** The condensed form's `forEach` that pushes one slot per day. */
  method PushDaySlots(days: seq<string>, start: int, end: int) returns (slots: seq<WeekSlot>)
    requires forall k :: 0 <= k < |days| ==> IsDayCode(days[k])
    ensures slots == WeekSlots(days, start, end)
  {
    slots := [];
    var i := 0;
    while i < |days|
      invariant 0 <= i <= |days|
      invariant slots == WeekSlots(days[..i], start, end)
    {
      slots := slots + [WeekSlot(days[i], DayOffset(days[i]) + start, DayOffset(days[i]) + end)];
      i := i + 1;
    }
    assert days[..i] == days;
  }

  /** The day names of the codes, joined by `/`. */
  function DayLabel(days: seq<string>): string
    requires forall k :: 0 <= k < |days| ==> IsDayCode(days[k])
  {
    Join(seq(|days|, i requires 0 <= i < |days| => DayCodeName(days[i])), "/")
  }

  /** The range form of a schedule. */
  function RangeSchedule(m: RangeMatch): Schedule
    requires RangeCaptures(m)
  {
    var days := DayCodes(m.letters);
    var start := RangeClock(m.startHours, m.startMinutes, m.meridiem);
    var end := RangeClock(m.endHours, m.endMinutes, m.meridiem);
    Schedule(WeekSlots(days, ClockMinutes(start.hours, start.minutes), ClockMinutes(end.hours, end.minutes)),
             DayLabel(days) + " " + FormatTime12Hour(start.hours, start.minutes)
             + " a " + FormatTime12Hour(end.hours, end.minutes))
  }

  /** Whether `(am|pm)` matches at `q` under the `i` flag, and whether it read `pm`. */
  function PeriodAt(s: string, q: nat): Option<bool> {
    if MeridiemAt(s, q, 'a') then Some(false)
    else if MeridiemAt(s, q, 'p') then Some(true)
    else None
  }

  /** The leftmost `am` or `pm`, in either case: whether it is `pm`. */
  function FirstPeriod(s: string): (r: Option<bool>)
    ensures r.Some? ==>
      exists q :: 0 <= q <= |s| && PeriodAt(s, q) == r && forall k :: 0 <= k < q ==> PeriodAt(s, k).None?
    ensures r.None? ==> forall q :: 0 <= q <= |s| ==> PeriodAt(s, q).None?
  {
    var at := (q: nat) => PeriodAt(s, q);
    var found := Leftmost(at, 0, |s|);
    if found.Some? then
      assert at(found.value.0) == PeriodAt(s, found.value.0);
      assert forall k :: 0 <= k < found.value.0 ==> at(k) == PeriodAt(s, k);
      Some(found.value.1)
    else
      assert forall q :: 0 <= q <= |s| ==> at(q) == PeriodAt(s, q);
      None
  }

  /**
   * The condensed form: the day codes at the start, the first time as the start, the
   * first meridiem anywhere (morning when there is none), and sessions of
   * `floor(credits * 45 / days)` minutes; the label alone when there is no time or no day.
   */
  function CondensedSchedule(s: string, credits: int): Schedule {
    var days := DayCodes(s);
    match FirstTime(s)
    case None => Schedule([], s)
    case Some(first) =>
      if days == [] then Schedule([], s) else
      var startHours := To24Hour(first.hours, FirstPeriod(s) == Some(true));
      var start := ClockMinutes(startHours, first.minutes);
      var end := start + (credits * 45) / |days|;
      Schedule(WeekSlots(days, start, end), CondensedLabel(days, startHours, first.minutes, end))
  }

  /** The condensed form's label: the days, then the start and the end as 12-hour times. */
  function CondensedLabel(days: seq<string>, startHours: int, startMinutes: int, end: int): string
    requires forall k :: 0 <= k < |days| ==> IsDayCode(days[k])
  {
    var endTime := MinutesToClock(end);
    DayLabel(days) + " " + FormatTime12Hour(startHours, startMinutes) + " a " + FormatTime12Hour(endTime.0, endTime.1)
  }

  /** `parseSchedule`: virtual classes first, then the range form, then the condensed form. */
  function ParseSchedule(s: string, credits: int): (r: Schedule)
    ensures Contains(s, "Virtual") || Contains(s, "VIRTU") ==> r == Schedule([], "Virtual")
    ensures forall k :: 0 <= k < |r.slots| ==> IsDayCode(r.slots[k].day)
  {
    if Contains(s, "Virtual") || Contains(s, "VIRTU") then Schedule([], "Virtual")
    else match FirstRange(s)
      case Some(m) => RangeSchedule(m)
      case None => CondensedSchedule(s, credits)
  }

  /**
   * The range form gives one slot per day code of the letters, each at the day's offset
   * plus the start and the end as `parseTime` reads them with the one meridiem the two
   * times share (`RangeClock`, `RangeClockParses`).
   */
  lemma RangeScheduleSlots(s: string, credits: int)
    requires !(Contains(s, "Virtual") || Contains(s, "VIRTU")) && FirstRange(s).Some?
    ensures var m := FirstRange(s).value;
      var days := DayCodes(m.letters);
      var a := RangeClock(m.startHours, m.startMinutes, m.meridiem);
      var b := RangeClock(m.endHours, m.endMinutes, m.meridiem);
      var r := ParseSchedule(s, credits);
      |r.slots| == |days|
      && forall k :: 0 <= k < |days| ==>
        r.slots[k] == WeekSlot(days[k], DayOffset(days[k]) + ClockMinutes(a.hours, a.minutes),
                               DayOffset(days[k]) + ClockMinutes(b.hours, b.minutes))
  {
    var m := FirstRange(s).value;
    assert ParseSchedule(s, credits) == RangeSchedule(m);
  }

  /**
   * The condensed form gives one slot per day code, all starting at the first time of
   * the text converted with its first meridiem and lasting `floor(credits * 45 / days)`.
   */
  lemma CondensedScheduleSlots(s: string, credits: int)
    requires !(Contains(s, "Virtual") || Contains(s, "VIRTU")) && FirstRange(s).None?
    requires FirstTime(s).Some? && DayCodes(s) != []
    ensures var days := DayCodes(s);
      var first := FirstTime(s).value;
      var start := To24Hour(first.hours, FirstPeriod(s) == Some(true)) * 60 + first.minutes;
      var r := ParseSchedule(s, credits);
      |r.slots| == |days|
      && forall k :: 0 <= k < |days| ==>
        r.slots[k] == WeekSlot(days[k], DayOffset(days[k]) + start, DayOffset(days[k]) + start + (credits * 45) / |days|)
  {
    var days := DayCodes(s);
    var first := FirstTime(s).value;
    var start := ClockMinutes(To24Hour(first.hours, FirstPeriod(s) == Some(true)), first.minutes);
    var end := start + (credits * 45) / |days|;
    CondensedSlotsAre(s, credits, days, first, start, end);
    WeekSlotsAt(days, start, end);
  }

  /** Slot `k` of `WeekSlots` is day `k`'s, at its offset. */
  lemma WeekSlotsAt(days: seq<string>, start: int, end: int)
    requires forall k :: 0 <= k < |days| ==> IsDayCode(days[k])
    ensures |WeekSlots(days, start, end)| == |days|
    ensures forall k :: 0 <= k < |days| ==>
      WeekSlots(days, start, end)[k] == WeekSlot(days[k], DayOffset(days[k]) + start, DayOffset(days[k]) + end)
  {
  }

  /** The slots of the condensed form, for its days, first time, start and end. */
  lemma CondensedSlotsAre(s: string, credits: int, days: seq<string>, first: TimeMatch, start: int, end: int)
    requires !(Contains(s, "Virtual") || Contains(s, "VIRTU")) && FirstRange(s).None?
    requires FirstTime(s) == Some(first) && days == DayCodes(s) != []
    requires start == ClockMinutes(To24Hour(first.hours, FirstPeriod(s) == Some(true)), first.minutes)
    requires end == start + (credits * 45) / |days|
    ensures ParseSchedule(s, credits).slots == WeekSlots(days, start, end)
  {
    CondensedIsParse(s, credits);
    CondensedSlotsOf(s, credits, days, first, start, end);
  }

  /** Neither virtual nor a range: `parseSchedule` takes the condensed form. */
  lemma CondensedIsParse(s: string, credits: int)
    requires !(Contains(s, "Virtual") || Contains(s, "VIRTU")) && FirstRange(s).None?
    ensures ParseSchedule(s, credits) == CondensedSchedule(s, credits)
  {
  }

  /** The condensed form's slots, for its days, start and end. */
  lemma CondensedSlotsOf(s: string, credits: int, days: seq<string>, first: TimeMatch, start: int, end: int)
    requires FirstTime(s) == Some(first) && days == DayCodes(s) != []
    requires start == ClockMinutes(To24Hour(first.hours, FirstPeriod(s) == Some(true)), first.minutes)
    requires end == start + (credits * 45) / |days|
    ensures CondensedSchedule(s, credits).slots == WeekSlots(days, start, end)
  {
    var startHours := To24Hour(first.hours, FirstPeriod(s) == Some(true));
    assert CondensedSchedule(s, credits) == Schedule(WeekSlots(days, start, end), CondensedLabel(days, startHours, first.minutes, end));
  }

  /** Without a time or without a day code, the condensed form gives no slot and keeps the text as its label. */
  lemma CondensedScheduleEmpty(s: string, credits: int)
    requires !(Contains(s, "Virtual") || Contains(s, "VIRTU")) && FirstRange(s).None?
    requires FirstTime(s).None? || DayCodes(s) == []
    ensures ParseSchedule(s, credits) == Schedule([], s)
  {
  }

  // ---------------------------------------------------------------- text lines

  /** `^([A-Z]+)(\d{3})` matches with the first `l` characters as its letters. */
  predicate CrnPrefix(crn: string, l: nat) {
    1 <= l && l + 3 <= |crn| && (forall k :: 0 <= k < l ==> IsUpper(crn[k]))
    && IsDigit(crn[l]) && IsDigit(crn[l + 1]) && IsDigit(crn[l + 2])
  }

  /** The course id a CRN starts with, `LLL-###`, read by the upper-case run and the three digits after it. */
  function CourseIdOfCrn(crn: string): (r: Option<string>)
    ensures r.Some? ==> CrnPrefix(crn, Run(crn, 0, IsUpper))
  {
    var l := Run(crn, 0, IsUpper);
    if l >= 1 && l + 3 <= |crn| && IsDigit(crn[l]) && IsDigit(crn[l + 1]) && IsDigit(crn[l + 2]) then
      Some(crn[..l] + "-" + crn[l..l + 3])
    else None
  }

  /**
   * `CourseIdOfCrn` is the regular expression: it finds an id exactly when the pattern
   * matches with some letter prefix, and then the id is that prefix, a dash and the three
   * digits.
   */
  lemma CourseIdOfCrnSpec(crn: string)
    ensures CourseIdOfCrn(crn).Some? <==> exists l: nat :: CrnPrefix(crn, l)
    ensures forall l: nat :: CrnPrefix(crn, l) ==> CourseIdOfCrn(crn) == Some(crn[..l] + "-" + crn[l..l + 3])
  {
    forall l: nat | CrnPrefix(crn, l)
      ensures CourseIdOfCrn(crn) == Some(crn[..l] + "-" + crn[l..l + 3])
    {
      RunExact(crn, 0, l, IsUpper);
    }
    if CourseIdOfCrn(crn).Some? {
      assert CrnPrefix(crn, Run(crn, 0, IsUpper));
    }
  }

  /** The CRN `ESP095001` names course `ESP-095`. */
  lemma CourseIdExample()
    ensures CourseIdOfCrn("ESP095001") == Some("ESP-095")
  {
    var crn := "ESP095001";
    assert CrnPrefix(crn, 3);
    CourseIdOfCrnSpec(crn);
    assert crn[..3] + "-" + crn[3..6] == "ESP-095";
  }

  /** The tab-separated fields of a line, trimmed, the empty ones dropped. */
  function Fields(line: string): seq<string> {
    var parts := Split(line, '\t');
    Filter(seq(|parts|, i requires 0 <= i < |parts| => Trim(parts[i])), (p: string) => p != [])
  }

  /** The catalog course a CRN names, when the catalog has it. */
  predicate KnownCourse(crn: string, courses: map<string, CatalogEntry>) {
    CourseIdOfCrn(crn).Some? && CourseIdOfCrn(crn).value in courses
  }

  /**
   * `parseTxtLine`: nothing for a closed line, a line of fewer than three fields, or a CRN
   * that names no catalog course; otherwise the section with its parsed schedule, the
   * fourth field or `TBA` as room, career `MED`, and open.
   */
  function ParseTxtLine(line: string, courses: map<string, CatalogEntry>): (r: Option<Section>) {
    if StartsWith(Trim(line), "Cerrado") then None else
    var parts := Fields(line);
    if |parts| < 3 then None else
    var crn := parts[0];
    var room := if |parts| > 3 then parts[3] else "TBA";
    match CourseIdOfCrn(crn)
    case None => None
    case Some(courseId) =>
      if courseId !in courses then None else
      var schedule := ParseSchedule(parts[2], courses[courseId].credits);
      Some(Section(crn, schedule.text, room, Some("MED"), false, schedule.slots))
  }

  /**
   * A line gives a section exactly when it is not closed, has three fields and its CRN
   * names a catalog course; the section is the CRN, the parsed schedule, the room or `TBA`.
   */
  lemma ParseTxtLineSpec(line: string, courses: map<string, CatalogEntry>)
    ensures var r := ParseTxtLine(line, courses);
      r.Some? <==> !StartsWith(Trim(line), "Cerrado") && |Fields(line)| >= 3 && KnownCourse(Fields(line)[0], courses)
    ensures var r := ParseTxtLine(line, courses);
      r.Some? ==>
      var parts := Fields(line);
      var schedule := ParseSchedule(parts[2], courses[CourseIdOfCrn(parts[0]).value].credits);
      r.value == Section(parts[0], schedule.text, if |parts| > 3 then parts[3] else "TBA", Some("MED"), false, schedule.slots)
  {
  }

  /** A parsed section is open, of career `MED`, has a non-empty room, its CRN names a catalog course, and its slots are on day codes. */
  lemma ParsedSectionShape(line: string, courses: map<string, CatalogEntry>)
    requires ParseTxtLine(line, courses).Some?
    ensures var x := ParseTxtLine(line, courses).value;
      !x.closed && x.career == Some("MED") && x.room != [] && KnownCourse(x.crn, courses)
      && forall k :: 0 <= k < |x.slots| ==> IsDayCode(x.slots[k].day)
  {
    ParseTxtLineSpec(line, courses);
    var parts := Fields(line);
    if |parts| > 3 {
      assert parts[3] in parts;
    }
  }

  /** The catalog as the source's `Map` holds it: keyed by id, a later course replacing an earlier one. */
  function CoursesById(catalog: seq<CatalogEntry>): (m: map<string, CatalogEntry>)
    ensures forall id :: id in m <==> exists k :: 0 <= k < |catalog| && catalog[k].id == id
    decreases |catalog|
  {
    if catalog == [] then map[]
    else
      var init := catalog[..|catalog| - 1];
      var last := catalog[|catalog| - 1];
      assert forall k :: 0 <= k < |init| ==> init[k] == catalog[k];
      CoursesById(init)[last.id := last]
  }

  /** The course a catalog id maps to is the last course of the list with that id. */
  lemma {:induction false} CoursesByIdLastWins(catalog: seq<CatalogEntry>, k: nat)
    requires k < |catalog|
    requires forall j :: k < j < |catalog| ==> catalog[j].id != catalog[k].id
    ensures catalog[k].id in CoursesById(catalog) && CoursesById(catalog)[catalog[k].id] == catalog[k]
    decreases |catalog|
  {
    if k < |catalog| - 1 {
      var init := catalog[..|catalog| - 1];
      assert init[k] == catalog[k];
      CoursesByIdLastWins(init, k);
    }
  }

  /** The section a parsed line contributes: none when the line was skipped. */
  function Contribution(x: Option<Section>): seq<Section> {
    if x.Some? then [x.value] else []
  }

  /** `parseTxtLine` against the catalog `courses`. */
  function TxtLineParser(courses: map<string, CatalogEntry>): string -> Option<Section> {
    (line: string) => ParseTxtLine(line, courses)
  }

  /** The lines, each read by `parse`, the failures dropped. */
  function ParsedWith(lines: seq<string>, parse: string -> Option<Section>): seq<Section>
    decreases |lines|
  {
    if lines == [] then []
    else ParsedWith(lines[..|lines| - 1], parse) + Contribution(parse(lines[|lines| - 1]))
  }

  /** The non-blank lines of the text, each parsed, the failures dropped. */
  function ParsedSections(lines: seq<string>, courses: map<string, CatalogEntry>): seq<Section> {
    ParsedWith(lines, TxtLineParser(courses))
  }

  /** At most one section per line, each what `parse` reads from one of the lines. */
  lemma {:induction false} ParsedWithSpec(lines: seq<string>, parse: string -> Option<Section>)
    ensures |ParsedWith(lines, parse)| <= |lines|
    ensures forall x :: x in ParsedWith(lines, parse) ==> exists k :: 0 <= k < |lines| && parse(lines[k]) == Some(x)
    decreases |lines|
  {
    if lines != [] {
      var init := lines[..|lines| - 1];
      ParsedWithSpec(init, parse);
      assert forall k :: 0 <= k < |init| ==> init[k] == lines[k];
    }
  }

  /** At most one section per line, each the parse of one of the lines. */
  lemma ParsedSectionsSpec(lines: seq<string>, courses: map<string, CatalogEntry>)
    ensures |ParsedSections(lines, courses)| <= |lines|
    ensures forall x :: x in ParsedSections(lines, courses) ==>
      exists k :: 0 <= k < |lines| && ParseTxtLine(lines[k], courses) == Some(x)
  {
    var parse := TxtLineParser(courses);
    ParsedWithSpec(lines, parse);
    forall x | x in ParsedSections(lines, courses)
      ensures exists k :: 0 <= k < |lines| && ParseTxtLine(lines[k], courses) == Some(x)
    {
      var k :| 0 <= k < |lines| && parse(lines[k]) == Some(x);
      assert parse(lines[k]) == ParseTxtLine(lines[k], courses);
    }
  }

  /** Every parsed section's CRN names a catalog course. */
  lemma ParsedSectionsKnown(lines: seq<string>, courses: map<string, CatalogEntry>)
    ensures forall x :: x in ParsedSections(lines, courses) ==> KnownCourse(x.crn, courses)
  {
    ParsedSectionsSpec(lines, courses);
    forall x | x in ParsedSections(lines, courses) ensures KnownCourse(x.crn, courses) {
      var k :| 0 <= k < |lines| && ParseTxtLine(lines[k], courses) == Some(x);
      ParsedSectionShape(lines[k], courses);
    }
  }

  lemma ParsedWithStep(lines: seq<string>, i: nat, parse: string -> Option<Section>)
    requires i < |lines|
    ensures ParsedWith(lines[..i + 1], parse) == ParsedWith(lines[..i], parse) + Contribution(parse(lines[i]))
  {
    assert lines[..i + 1][..i] == lines[..i];
  }

  /** The `forEach` over the lines: every line read by `parse`, every section it returns pushed. */
  method CollectParsed(lines: seq<string>, parse: string -> Option<Section>) returns (sections: seq<Section>)
    ensures sections == ParsedWith(lines, parse)
  {
    sections := [];
    var i := 0;
    while i < |lines|
      invariant 0 <= i <= |lines|
      invariant sections == ParsedWith(lines[..i], parse)
    {
      ParsedWithStep(lines, i, parse);
      var section := parse(lines[i]);
      sections := sections + Contribution(section);
      i := i + 1;
    }
    assert lines[..i] == lines;
  }

  /** The lines of the text file that are not blank. */
  function TxtLines(content: string): seq<string> {
    Filter(Split(content, '\n'), (line: string) => Trim(line) != [])
  }

  /** `parseTxtSections`: the non-blank lines, each parsed, every section returned pushed. */
  method ParseTxtSections(content: string, courses: map<string, CatalogEntry>) returns (sections: seq<Section>)
    ensures sections == ParsedSections(TxtLines(content), courses)
  {
    var lines := TxtLines(content);
    sections := CollectParsed(lines, TxtLineParser(courses));
  }

  // ---------------------------------------------------------------- merge

  /** The name of the catalog course a CRN names, or the empty name when it names none. */
  function CourseNameOf(crn: string, courses: map<string, CatalogEntry>): string {
    if KnownCourse(crn, courses) then courses[CourseIdOfCrn(crn).value].name else ""
  }

  /** The test that keeps a new section: its CRN names a catalog course. */
  function KnownSection(courses: map<string, CatalogEntry>): Section -> bool {
    (x: Section) => KnownCourse(x.crn, courses)
  }

  /** The grouping key: the name of the section's catalog course. */
  function CourseKey(courses: map<string, CatalogEntry>): Section -> string {
    (x: Section) => CourseNameOf(x.crn, courses)
  }

  /** The new sections grouped by the name of their catalog course, sections of no catalog course dropped. */
  function SectionsByCourse(news: seq<Section>, courses: map<string, CatalogEntry>): (r: seq<(string, seq<Section>)>)
    ensures NonEmptyGroups(r)
  {
    GroupBuckets(Filter(news, KnownSection(courses)), CourseKey(courses));
    Group(Filter(news, KnownSection(courses)), CourseKey(courses))
  }

  /**
   * The groups have distinct names, none is empty, and each holds exactly the new sections
   * of a catalog course of that name, in input order.
   */
  lemma SectionsByCourseSpec(news: seq<Section>, courses: map<string, CatalogEntry>)
    ensures var g := SectionsByCourse(news, courses);
      DistinctKeys(g)
      && (forall i :: 0 <= i < |g| ==> g[i].1 != [])
      && forall i :: 0 <= i < |g| ==>
        g[i].1 == Filter(news, (x: Section) => KnownCourse(x.crn, courses) && CourseNameOf(x.crn, courses) == g[i].0)
  {
    var known := Filter(news, KnownSection(courses));
    var g := SectionsByCourse(news, courses);
    GroupKeys(known, CourseKey(courses));
    GroupBuckets(known, CourseKey(courses));
    forall i | 0 <= i < |g|
      ensures g[i].1 == Filter(news, (x: Section) => KnownCourse(x.crn, courses) && CourseNameOf(x.crn, courses) == g[i].0)
    {
      FilterTwice(news, KnownSection(courses), HasKey(CourseKey(courses), g[i].0),
        (x: Section) => KnownCourse(x.crn, courses) && CourseNameOf(x.crn, courses) == g[i].0);
    }
  }

  /** The `forEach` that fills `newSectionsByCourse`, skipping a section whose CRN names no catalog course. */
  method GroupNewSections(news: seq<Section>, courses: map<string, CatalogEntry>) returns (groups: seq<(string, seq<Section>)>)
    ensures groups == SectionsByCourse(news, courses)
  {
    groups := [];
    var n := 0;
    while n < |news|
      invariant 0 <= n <= |news|
      invariant groups == SectionsByCourse(news[..n], courses)
    {
      var x := news[n];
      SectionsByCourseStep(news, n, courses);
      if KnownCourse(x.crn, courses) {
        var name := CourseNameOf(x.crn, courses);
        match BucketIndex(groups, name) {
          case Some(i) =>
            groups := groups[i := (groups[i].0, groups[i].1 + [x])];
          case None =>
            groups := groups + [(name, [x])];
        }
      }
      n := n + 1;
    }
    assert news[..n] == news;
  }

  lemma SectionsByCourseStep(news: seq<Section>, n: nat, courses: map<string, CatalogEntry>)
    requires n < |news|
    ensures var x, g := news[n], SectionsByCourse(news[..n], courses);
      SectionsByCourse(news[..n + 1], courses) ==
        if !KnownCourse(x.crn, courses) then g
        else match BucketIndex(g, CourseNameOf(x.crn, courses))
          case Some(i) => g[i := (g[i].0, g[i].1 + [x])]
          case None => g + [(CourseNameOf(x.crn, courses), [x])]
  {
    var x := news[n];
    assert news[..n + 1] == news[..n] + [x];
    FilterSnoc(news[..n], x, KnownSection(courses));
    var kept := Filter(news[..n + 1], KnownSection(courses));
    if KnownCourse(x.crn, courses) {
      assert kept == Filter(news[..n], KnownSection(courses)) + [x];
      assert kept[..|kept| - 1] == Filter(news[..n], KnownSection(courses));
      assert CourseKey(courses)(x) == CourseNameOf(x.crn, courses);
    } else {
      assert kept == Filter(news[..n], KnownSection(courses));
    }
  }

  predicate HasCrn(sections: seq<Section>, crn: string) {
    exists i :: 0 <= i < |sections| && sections[i].crn == crn
  }

  predicate DistinctCrns(sections: seq<Section>) {
    forall i, j :: 0 <= i < j < |sections| ==> sections[i].crn != sections[j].crn
  }

  /** The inner `forEach`: each new section is pushed unless a section with its CRN is already there. */
  function AddAbsent(existing: seq<Section>, news: seq<Section>): (r: seq<Section>)
    ensures |existing| <= |r| && r[..|existing|] == existing
    decreases |news|
  {
    if news == [] then existing
    else
      var acc := AddAbsent(existing, news[..|news| - 1]);
      var x := news[|news| - 1];
      if HasCrn(acc, x.crn) then acc else acc + [x]
  }

  /**
   * Adding keeps the old sections in front, the CRNs afterwards are the old and the new
   * ones, everything added is a new section, and a list free of repeated CRNs stays free of them.
   */
  lemma {:induction false} AddAbsentSpec(existing: seq<Section>, news: seq<Section>)
    ensures var r := AddAbsent(existing, news);
      (forall c :: HasCrn(r, c) <==> HasCrn(existing, c) || HasCrn(news, c))
      && (forall k :: |existing| <= k < |r| ==> r[k] in news)
      && (DistinctCrns(existing) ==> DistinctCrns(r))
    decreases |news|
  {
    if news != [] {
      var init, x := news[..|news| - 1], news[|news| - 1];
      AddAbsentSpec(existing, init);
      var acc := AddAbsent(existing, init);
      var r := AddAbsent(existing, news);
      forall c ensures HasCrn(news, c) <==> HasCrn(init, c) || x.crn == c {
        if HasCrn(init, c) {
          var i :| 0 <= i < |init| && init[i].crn == c;
          assert news[i] == init[i];
        }
        if HasCrn(news, c) && x.crn != c {
          var i :| 0 <= i < |news| && news[i].crn == c;
          assert init[i] == news[i];
        }
      }
      forall k | |existing| <= k < |r| ensures r[k] in news {
        if k < |acc| {
          assert acc[k] in init;
        } else {
          assert r[k] == x;
        }
      }
      if !HasCrn(acc, x.crn) {
        assert r == acc + [x];
        forall c ensures HasCrn(r, c) <==> HasCrn(acc, c) || x.crn == c {
          if HasCrn(r, c) && x.crn != c {
            var i :| 0 <= i < |r| && r[i].crn == c;
            assert acc[i] == r[i];
          }
          if HasCrn(acc, c) {
            var i :| 0 <= i < |acc| && acc[i].crn == c;
            assert r[i] == acc[i];
          }
          if x.crn == c {
            assert r[|acc|].crn == c;
          }
        }
      }
    }
  }

  /** The loop form of `AddAbsent`, with the `find` for each new section. */
  method AddAbsentSections(existing: seq<Section>, news: seq<Section>) returns (sections: seq<Section>)
    ensures sections == AddAbsent(existing, news)
  {
    sections := existing;
    var j := 0;
    while j < |news|
      invariant 0 <= j <= |news|
      invariant sections == AddAbsent(existing, news[..j])
    {
      var x := news[j];
      assert news[..j + 1][..j] == news[..j];
      var found := Find(sections, (s: Section) => s.crn == x.crn);
      if found.None? {
        sections := sections + [x];
      } else {
        assert HasCrn(sections, x.crn) by {
          var i := FindIndex(sections, (s: Section) => s.crn == x.crn).value;
          assert sections[i].crn == x.crn;
        }
      }
      j := j + 1;
    }
    assert news[..j] == news;
  }


  /** The test `find` uses to pick the course of a name. */
  function NamedCourse(name: string): CourseWithSections -> bool {
    (c: CourseWithSections) => c.name == name
  }

  function NamesOf(courses: seq<CourseWithSections>): set<string> {
    set c | c in courses :: c.name
  }

  predicate NonEmptyGroups(groups: seq<(string, seq<Section>)>) {
    forall i :: 0 <= i < |groups| ==> groups[i].1 != []
  }

  /**
   * One group merged in: a course whose name was among the existing ones gets the group's
   * sections with new CRNs; any other name becomes a new course, with the course id its
   * first CRN names, holding the whole group.
   */
  function MergeGroup(merged: seq<CourseWithSections>, names: set<string>, group: (string, seq<Section>)): (r: seq<CourseWithSections>)
    requires group.1 != []
    ensures |merged| <= |r|
  {
    var (name, sections) := group;
    if name in names then
      match FindIndex(merged, NamedCourse(name))
      case Some(i) => merged[i := merged[i].(sections := AddAbsent(merged[i].sections, sections))]
      case None => merged
    else merged + [CourseWithSections(name, CourseIdOfCrn(sections[0].crn), sections)]
  }

  /** The `forEach` over the new groups, in their order, starting from the existing courses. */
  function MergeGroups(base: seq<CourseWithSections>, names: set<string>, groups: seq<(string, seq<Section>)>): (r: seq<CourseWithSections>)
    requires NonEmptyGroups(groups)
    ensures |base| <= |r|
    decreases |groups|
  {
    if groups == [] then base
    else MergeGroup(MergeGroups(base, names, groups[..|groups| - 1]), names, groups[|groups| - 1])
  }

  /**
   * `after` grows `before`: no course is lost or moved, names and ids stay, and each course's
   * sections only get more sections at their end.
   */
  predicate Extends(before: seq<CourseWithSections>, after: seq<CourseWithSections>) {
    |before| <= |after|
    && forall k :: 0 <= k < |before| ==>
      after[k].name == before[k].name && after[k].id == before[k].id
      && |before[k].sections| <= |after[k].sections| && after[k].sections[..|before[k].sections|] == before[k].sections
  }

  /** Courses that had no repeated CRN still have none. */
  predicate KeepsDistinct(before: seq<CourseWithSections>, after: seq<CourseWithSections>)
    requires |before| <= |after|
  {
    forall k :: 0 <= k < |before| && DistinctCrns(before[k].sections) ==> DistinctCrns(after[k].sections)
  }

  lemma ExtendsTrans(a: seq<CourseWithSections>, b: seq<CourseWithSections>, c: seq<CourseWithSections>)
    requires Extends(a, b) && Extends(b, c)
    ensures Extends(a, c)
  {
    forall k | 0 <= k < |a|
      ensures c[k].sections[..|a[k].sections|] == a[k].sections
    {
      assert c[k].sections[..|a[k].sections|] == c[k].sections[..|b[k].sections|][..|a[k].sections|];
    }
  }

  /** Merging one group extends the courses and keeps their CRNs distinct. */
  lemma MergeGroupExtends(merged: seq<CourseWithSections>, names: set<string>, group: (string, seq<Section>))
    requires group.1 != []
    ensures Extends(merged, MergeGroup(merged, names, group))
    ensures KeepsDistinct(merged, MergeGroup(merged, names, group))
  {
    var (name, sections) := group;
    if name in names && FindIndex(merged, NamedCourse(name)).Some? {
      var i := FindIndex(merged, NamedCourse(name)).value;
      AddAbsentSpec(merged[i].sections, sections);
    }
  }

  /** The existing courses keep their place, name and id, and their sections come first and keep distinct CRNs. */
  lemma {:induction false} MergeGroupsExtends(base: seq<CourseWithSections>, names: set<string>, groups: seq<(string, seq<Section>)>)
    requires NonEmptyGroups(groups)
    ensures Extends(base, MergeGroups(base, names, groups))
    ensures KeepsDistinct(base, MergeGroups(base, names, groups))
    decreases |groups|
  {
    if groups != [] {
      var init := groups[..|groups| - 1];
      var m0 := MergeGroups(base, names, init);
      MergeGroupsExtends(base, names, init);
      MergeGroupExtends(m0, names, groups[|groups| - 1]);
      ExtendsTrans(base, m0, MergeGroups(base, names, groups));
    }
  }

  /** A course of an existing name is found among the existing courses. */
  lemma FindExisting(base: seq<CourseWithSections>, merged: seq<CourseWithSections>, name: string)
    requires Extends(base, merged) && name in NamesOf(base)
    ensures FindIndex(merged, NamedCourse(name)).Some? && FindIndex(merged, NamedCourse(name)).value < |base|
  {
    var c :| c in base && c.name == name;
    var j :| 0 <= j < |base| && base[j] == c;
    assert NamedCourse(name)(merged[j]);
  }

  /** The courses the new names add, in the order of their groups. */
  function NewCourses(names: set<string>, groups: seq<(string, seq<Section>)>): seq<CourseWithSections>
    requires NonEmptyGroups(groups)
    decreases |groups|
  {
    if groups == [] then []
    else
      var (name, sections) := groups[|groups| - 1];
      NewCourses(names, groups[..|groups| - 1])
        + if name in names then [] else [CourseWithSections(name, CourseIdOfCrn(sections[0].crn), sections)]
  }

  /** After the existing courses come exactly the new courses, nothing else. */
  lemma {:induction false} MergeGroupsSuffix(base: seq<CourseWithSections>, names: set<string>, groups: seq<(string, seq<Section>)>)
    requires NonEmptyGroups(groups) && names <= NamesOf(base)
    ensures MergeGroups(base, names, groups)[|base|..] == NewCourses(names, groups)
    decreases |groups|
  {
    MergeGroupsExtends(base, names, groups);
    if groups != [] {
      var init := groups[..|groups| - 1];
      var m0 := MergeGroups(base, names, init);
      MergeGroupsSuffix(base, names, init);
      MergeGroupsExtends(base, names, init);
      var (name, sections) := groups[|groups| - 1];
      if name in names {
        FindExisting(base, m0, name);
      }
    }
  }

  /** A course holds a section with CRN `crn` under the name `name`. */
  predicate Placed(m: seq<CourseWithSections>, name: string, crn: string) {
    exists k :: 0 <= k < |m| && m[k].name == name && HasCrn(m[k].sections, crn)
  }

  /** A placed CRN stays placed as the courses grow. */
  lemma PlacedPersists(before: seq<CourseWithSections>, after: seq<CourseWithSections>, name: string, crn: string)
    requires Extends(before, after) && Placed(before, name, crn)
    ensures Placed(after, name, crn)
  {
    var k :| 0 <= k < |before| && before[k].name == name && HasCrn(before[k].sections, crn);
    var i :| 0 <= i < |before[k].sections| && before[k].sections[i].crn == crn;
    assert after[k].sections[i] == before[k].sections[i];
  }

  /** Merging a group places each of its sections under the group's name. */
  lemma MergeGroupPlaces(base: seq<CourseWithSections>, merged: seq<CourseWithSections>, names: set<string>,
                         group: (string, seq<Section>), x: Section)
    requires group.1 != [] && names <= NamesOf(base) && Extends(base, merged) && x in group.1
    ensures Placed(MergeGroup(merged, names, group), group.0, x.crn)
  {
    var m := MergeGroup(merged, names, group);
    var j :| 0 <= j < |group.1| && group.1[j] == x;
    if group.0 in names {
      FindExisting(base, merged, group.0);
      var i := FindIndex(merged, NamedCourse(group.0)).value;
      AddAbsentSpec(merged[i].sections, group.1);
      assert HasCrn(group.1, x.crn);
      assert m[i].name == group.0 && HasCrn(m[i].sections, x.crn);
    } else {
      assert m[|merged|].sections[j].crn == x.crn;
    }
  }

  /** Every section of every group ends up, by CRN, in a course with the group's name. */
  lemma {:induction false} MergeGroupsPlaces(base: seq<CourseWithSections>, names: set<string>, groups: seq<(string, seq<Section>)>)
    requires NonEmptyGroups(groups) && names <= NamesOf(base)
    ensures forall g, x :: g in groups && x in g.1 ==> Placed(MergeGroups(base, names, groups), g.0, x.crn)
    decreases |groups|
  {
    if groups != [] {
      var init, last := groups[..|groups| - 1], groups[|groups| - 1];
      var m0 := MergeGroups(base, names, init);
      var m := MergeGroups(base, names, groups);
      MergeGroupsPlaces(base, names, init);
      MergeGroupsExtends(base, names, init);
      MergeGroupExtends(m0, names, last);
      forall g, x | g in groups && x in g.1
        ensures Placed(m, g.0, x.crn)
      {
        if g in init {
          PlacedPersists(m0, m, g.0, x.crn);
        } else {
          MergeGroupPlaces(base, m0, names, last, x);
        }
      }
    }
  }

  /** The loop over the groups, with the inner loop of `AddAbsentSections` for a course that exists. */
  method MergeNewSections(base: seq<CourseWithSections>, groups: seq<(string, seq<Section>)>) returns (merged: seq<CourseWithSections>)
    requires NonEmptyGroups(groups)
    ensures merged == MergeGroups(base, NamesOf(base), groups)
  {
    var names := NamesOf(base);
    merged := base;
    var i := 0;
    while i < |groups|
      invariant 0 <= i <= |groups|
      invariant merged == MergeGroups(base, names, groups[..i])
    {
      assert groups[..i + 1][..i] == groups[..i];
      var (name, sections) := groups[i];
      if name in names {
        var found := FindIndex(merged, NamedCourse(name));
        if found.Some? {
          var course := merged[found.value];
          var added := AddAbsentSections(course.sections, sections);
          merged := merged[found.value := course.(sections := added)];
        }
      } else {
        merged := merged + [CourseWithSections(name, CourseIdOfCrn(sections[0].crn), sections)];
      }
      i := i + 1;
    }
    assert groups[..i] == groups;
  }


  /** `localeCompare` on the names, as the order `nameLeq` on strings. */
  function ByName(nameLeq: (string, string) -> bool): (CourseWithSections, CourseWithSections) -> bool {
    (a: CourseWithSections, b: CourseWithSections) => nameLeq(a.name, b.name)
  }

  lemma ByNamePreorder(nameLeq: (string, string) -> bool)
    requires TotalPreorder(nameLeq)
    ensures TotalPreorder(ByName(nameLeq))
  {
    var leq := ByName(nameLeq);
    forall a, b ensures leq(a, b) || leq(b, a) {
      assert nameLeq(a.name, b.name) || nameLeq(b.name, a.name);
    }
    forall a, b, c | leq(a, b) && leq(b, c) ensures leq(a, c) {
      assert nameLeq(a.name, b.name) && nameLeq(b.name, c.name);
    }
  }

  /**
   * The merged course list: the catalog keyed by id, the sections of the text lines,
   * grouped by course name and merged into the existing courses, sorted by name.
   */
  function MergedCourses(existing: seq<CourseWithSections>, catalog: seq<CatalogEntry>, content: string,
                         nameLeq: (string, string) -> bool): seq<CourseWithSections>
  {
    var courses := CoursesById(catalog);
    var groups := SectionsByCourse(ParsedSections(TxtLines(content), courses), courses);
    SortBy(MergeGroups(existing, NamesOf(existing), groups), ByName(nameLeq))
  }

  /**
   * The result is ordered by name and is a reordering of the merged list, which holds the
   * existing courses, each keeping its name and id with its sections first and its CRNs
   * still distinct, and after them exactly the new courses.
   */
  lemma MergedCoursesSpec(existing: seq<CourseWithSections>, catalog: seq<CatalogEntry>, content: string,
                          nameLeq: (string, string) -> bool)
    requires TotalPreorder(nameLeq)
    ensures var courses := CoursesById(catalog);
      var groups := SectionsByCourse(ParsedSections(TxtLines(content), courses), courses);
      var result := MergedCourses(existing, catalog, content, nameLeq);
      NonEmptyGroups(groups)
      && SortedBy(result, ByName(nameLeq))
      && multiset(result) == multiset(MergeGroups(existing, NamesOf(existing), groups))
      && Extends(existing, MergeGroups(existing, NamesOf(existing), groups))
      && KeepsDistinct(existing, MergeGroups(existing, NamesOf(existing), groups))
      && MergeGroups(existing, NamesOf(existing), groups)[|existing|..] == NewCourses(NamesOf(existing), groups)
  {
    var courses := CoursesById(catalog);
    var parsed := ParsedSections(TxtLines(content), courses);
    var groups := SectionsByCourse(parsed, courses);
    SectionsByCourseSpec(parsed, courses);
    var m := MergeGroups(existing, NamesOf(existing), groups);
    ByNamePreorder(nameLeq);
    SortBySorted(m, ByName(nameLeq));
    SortByPermutes(m, ByName(nameLeq));
    MergeGroupsExtends(existing, NamesOf(existing), groups);
    MergeGroupsSuffix(existing, NamesOf(existing), groups);
  }

  /** Every section parsed from the text is, by CRN, in a result course named as its catalog course. */
  lemma MergedCoursesPlaces(existing: seq<CourseWithSections>, catalog: seq<CatalogEntry>, content: string,
                            nameLeq: (string, string) -> bool)
    ensures var courses := CoursesById(catalog);
      forall x :: x in ParsedSections(TxtLines(content), courses) ==>
        Placed(MergedCourses(existing, catalog, content, nameLeq), CourseNameOf(x.crn, courses), x.crn)
  {
    var courses := CoursesById(catalog);
    var parsed := ParsedSections(TxtLines(content), courses);
    ParsedSectionsKnown(TxtLines(content), courses);
    forall x | x in parsed
      ensures Placed(MergedCourses(existing, catalog, content, nameLeq), CourseNameOf(x.crn, courses), x.crn)
    {
      SectionPlaced(existing, parsed, courses, ByName(nameLeq), x);
    }
  }

  /** A new section of a catalog course is, by CRN, in a course of that course's name once merged and sorted. */
  lemma SectionPlaced(existing: seq<CourseWithSections>, news: seq<Section>, courses: map<string, CatalogEntry>,
                      leq: (CourseWithSections, CourseWithSections) -> bool, x: Section)
    requires x in news && KnownCourse(x.crn, courses)
    ensures Placed(SortBy(MergeGroups(existing, NamesOf(existing), SectionsByCourse(news, courses)), leq), CourseNameOf(x.crn, courses), x.crn)
  {
    var groups := SectionsByCourse(news, courses);
    SectionsByCourseSpec(news, courses);
    var m := MergeGroups(existing, NamesOf(existing), groups);
    var result := SortBy(m, leq);
    MergeGroupsPlaces(existing, NamesOf(existing), groups);
    SortByMembers(m, leq);
    SectionInGroup(news, courses, x);
    var g :| g in groups && g.0 == CourseNameOf(x.crn, courses) && x in g.1;
    assert Placed(m, g.0, x.crn);
    var k :| 0 <= k < |m| && m[k].name == g.0 && HasCrn(m[k].sections, x.crn);
    assert m[k] in result;
    var k' :| 0 <= k' < |result| && result[k'] == m[k];
  }

  /** A known section lies in the group of its course's name. */
  lemma SectionInGroup(news: seq<Section>, courses: map<string, CatalogEntry>, x: Section)
    requires x in news && KnownCourse(x.crn, courses)
    ensures exists g :: g in SectionsByCourse(news, courses) && g.0 == CourseNameOf(x.crn, courses) && x in g.1
  {
    var known := Filter(news, KnownSection(courses));
    var g := SectionsByCourse(news, courses);
    var name := CourseNameOf(x.crn, courses);
    assert x in known && CourseKey(courses)(x) == name;
    GroupKeys(known, CourseKey(courses));
    GroupBuckets(known, CourseKey(courses));
    var i := BucketIndex(g, name).value;
    assert x in Filter(known, HasKey(CourseKey(courses), name));
    assert g[i] in g;
  }

  /** The `forEach` that fills `coursesMap`. */
  method BuildCoursesMap(catalog: seq<CatalogEntry>) returns (courses: map<string, CatalogEntry>)
    ensures courses == CoursesById(catalog)
  {
    courses := map[];
    var i := 0;
    while i < |catalog|
      invariant 0 <= i <= |catalog|
      invariant courses == CoursesById(catalog[..i])
    {
      assert catalog[..i + 1][..i] == catalog[..i];
      courses := courses[catalog[i].id := catalog[i]];
      i := i + 1;
    }
    assert catalog[..i] == catalog;
  }

  /** The script's `main` without its file reads, file write and console output. */
  method MergeSectionsMain(existing: seq<CourseWithSections>, catalog: seq<CatalogEntry>, content: string,
                           nameLeq: (string, string) -> bool) returns (merged: seq<CourseWithSections>)
    ensures merged == MergedCourses(existing, catalog, content, nameLeq)
  {
    var courses := BuildCoursesMap(catalog);
    var parsed := ParseTxtSections(content, courses);
    var groups := GroupNewSections(parsed, courses);
    merged := MergeNewSections(existing, groups);
    merged := SortBy(merged, ByName(nameLeq));
  }
}
