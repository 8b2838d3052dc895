/**
 * utils/getOpeningStatus.ts: whether a store is open now, and otherwise when
 * it opens next.
 *
 * The clock is a parameter: "now" is a weekday (0 = Sunday … 6 = Saturday, as
 * `Date.getDay` counts) and a time of day in milliseconds since midnight. An
 * opening or closing instant `HH:MM` of `now`'s day is `setHours(HH, MM, 0, 0)`,
 * that is midnight plus `HH` hours and `MM` minutes; an hour or minute that
 * `Number` does not parse gives an invalid date, which no comparison admits.
 */
module Opening {

  import opened Wrappers
  import opened Text
  import opened StoreTypes

  datatype OpeningStatus = Open(to: string) | Closed(tomorrowOpenTime: string)

  /** `Date.getDay()`: 0 is Sunday. */
  type Weekday = d: nat | d < 7

  const MsPerDay: nat := 86_400_000
  const MsPerHour: nat := 3_600_000
  const MsPerMinute: nat := 60_000

  /** Milliseconds since midnight. */
  type TimeOfDay = t: nat | t < MsPerDay

  /** `openinghours[days[d]]` with `days = ['sunday', 'monday', …, 'saturday']`. */
  function DayOf(h: OpeningHours, d: Weekday): OpeningHoursDay
  {
    match d
    case 0 => h.sunday
    case 1 => h.monday
    case 2 => h.tuesday
    case 3 => h.wednesday
    case 4 => h.thursday
    case 5 => h.friday
    case _ => h.saturday
  }

  /** `t.split('+')[0]`: a time without its UTC offset. */
  function StripOffset(t: string): (r: string)
    ensures '+' !in r && |r| <= |t| && r == t[..|r|]
    ensures |r| < |t| ==> t[|r|] == '+'
  {
    BeforeFirst(t, '+')
  }

  // ---------------------------------------------------------------------------
  // `split` and `Number`

  /** `s.split(c)` for a one-character separator: the parts between the separators. */
  function Split(s: string, c: char): (r: seq<string>)
    ensures |r| >= 1 && r[0] == BeforeFirst(s, c)
    decreases |s|
  {
    var p := BeforeFirst(s, c);
    if |p| == |s| then [s] else [p] + Split(s[|p| + 1..], c)
  }

  /** `parts.join(c)`. */
  function Join(parts: seq<string>, c: char): string
  {
    if |parts| <= 1 then (if parts == [] then [] else parts[0])
    else parts[0] + [c] + Join(parts[1..], c)
  }

  /** Splitting and joining again gives the string back, and no part holds the separator. */
  lemma {:induction false} SplitJoin(s: string, c: char)
    ensures Join(Split(s, c), c) == s
    ensures forall i :: 0 <= i < |Split(s, c)| ==> c !in Split(s, c)[i]
    decreases |s|
  {
    var p := BeforeFirst(s, c);
    if |p| < |s| {
      var rest := s[|p| + 1..];
      SplitJoin(rest, c);
      assert s == p + [c] + rest;
      var r := Split(s, c);
      assert r == [p] + Split(rest, c);
      assert forall i :: 1 <= i < |r| ==> r[i] == Split(rest, c)[i - 1];
    }
  }

  predicate IsDigit(ch: char)
  {
    '0' <= ch <= '9'
  }

  function DigitValue(ch: char): nat
    requires IsDigit(ch)
  {
    ch as int - '0' as int
  }

  /** The value of a string of decimal digits. */
  function DigitsValue(s: string): nat
    requires forall i :: 0 <= i < |s| ==> IsDigit(s[i])
    decreases |s|
  {
    if s == [] then 0
    else DigitsValue(s[..|s| - 1]) * 10 + DigitValue(s[|s| - 1])
  }

  /**
   * `Number(s)` on the strings the opening hours hold: the empty string is 0,
   * a string of digits its value, anything else `NaN` (`None`).
   */
  function ParseNumber(s: string): (r: Option<nat>)
    ensures s == [] ==> r == Some(0)
    ensures r.Some? <==> forall i :: 0 <= i < |s| ==> IsDigit(s[i])
  {
    if forall i :: 0 <= i < |s| ==> IsDigit(s[i]) then Some(DigitsValue(s)) else None
  }

  /**
   * The instant `setHours(hour, minute, 0, 0)` of `now`'s day, as an offset from
   * midnight, for `[hour, minute] = t.split(':').map(Number)`. A missing minute
   * part is `undefined`, which `setHours` turns into `NaN`.
   */
  function ClockMs(t: string): (r: Option<nat>)
    ensures r.Some? ==> |Split(t, ':')| >= 2
  {
    var parts := Split(t, ':');
    if |parts| < 2 then None
    else
      match (ParseNumber(parts[0]), ParseNumber(parts[1]))
      case (Some(hour), Some(minute)) => Some(hour * MsPerHour + minute * MsPerMinute)
      case _ => None
  }

  /** A part without the separator, followed by the separator or nothing, is what `BeforeFirst` takes. */
  lemma {:induction false} BeforeFirstPart(a: string, c: char, rest: string)
    requires c !in a && (rest == [] || rest[0] == c)
    ensures BeforeFirst(a + rest, c) == a
    decreases |a|
  {
    if a != [] {
      BeforeFirstPart(a[1..], c, rest);
      assert (a + rest)[1..] == a[1..] + rest;
    }
  }

  /** A string without the separator splits into itself. */
  lemma SplitNone(a: string, c: char)
    requires c !in a
    ensures Split(a, c) == [a]
  {
    BeforeFirstPart(a, c, []);
    assert a + [] == a;
  }

  /** A part without the separator, then the separator, splits off first. */
  lemma SplitFirst(a: string, c: char, rest: string)
    requires c !in a
    ensures Split(a + [c] + rest, c) == [a] + Split(rest, c)
  {
    var s := a + [c] + rest;
    BeforeFirstPart(a, c, [c] + rest);
    assert s == a + ([c] + rest);
    assert s[|a| + 1..] == rest;
  }

  /** Two digits, tens first. */
  lemma TwoDigits(s: string)
    requires |s| == 2 && IsDigit(s[0]) && IsDigit(s[1])
    ensures ParseNumber(s) == Some(DigitValue(s[0]) * 10 + DigitValue(s[1]))
  {
    assert s[..1][..0] == [] && s[..1][0] == s[0];
    assert DigitsValue(s[..1]) == DigitValue(s[0]);
    assert DigitsValue(s) == DigitsValue(s[..1]) * 10 + DigitValue(s[1]);
  }

  /**
   * Every `HH:MM` whose two parts `Number` reads as `hour` and `minute` is
   * `hour` hours and `minute` minutes after midnight.
   */
  lemma ClockOf(hh: string, mm: string, hour: nat, minute: nat)
    requires ParseNumber(hh) == Some(hour) && ParseNumber(mm) == Some(minute)
    ensures ClockMs(hh + [':'] + mm) == Some(hour * MsPerHour + minute * MsPerMinute)
  {
    NoColon(hh);
    NoColon(mm);
    SplitFirst(hh, ':', mm);
    SplitNone(mm, ':');
  }

  /** A string that `Number` reads holds no colon. */
  lemma NoColon(s: string)
    requires ParseNumber(s).Some?
    ensures ':' !in s
  {
    forall i | 0 <= i < |s| ensures s[i] != ':' {
      assert IsDigit(s[i]);
    }
  }

  /** `"09:00"` is nine o'clock; the parts after the second are ignored. */
  lemma ClockNine()
    ensures ClockMs("09:00") == Some(9 * MsPerHour)
    ensures ClockMs("09:00:00") == Some(9 * MsPerHour)
  {
    SplitNone("00", ':');
    SplitFirst("09", ':', "00");
    assert "09:00" == "09" + [':'] + "00";
    SplitFirst("00", ':', "00");
    assert "00:00" == "00" + [':'] + "00";
    SplitFirst("09", ':', "00:00");
    assert "09:00:00" == "09" + [':'] + "00:00";
    TwoDigits("09");
    TwoDigits("00");
  }

  lemma ClockSix()
    ensures ClockMs("18:00") == Some(18 * MsPerHour)
  {
    SplitNone("00", ':');
    SplitFirst("18", ':', "00");
    assert "18:00" == "18" + [':'] + "00";
    TwoDigits("18");
    TwoDigits("00");
  }

  /** Without a minute part, or with a non-digit, there is no instant. */
  lemma ClockInvalid()
    ensures ClockMs("09") == None
    ensures ClockMs("9h:00") == None
  {
    SplitNone("09", ':');
    SplitNone("00", ':');
    SplitFirst("9h", ':', "00");
    assert "9h:00" == "9h" + [':'] + "00";
    assert !IsDigit("9h"[1]);
  }

  // ---------------------------------------------------------------------------
  // getNextOpenTime

  /** The first day `(today + i) % 7` with `i` from `from` to 7 that has an opening time. */
  function ScanFrom(h: OpeningHours, today: Weekday, from: nat): (r: OpeningStatus)
    requires 1 <= from <= 8
    ensures r.Closed?
    decreases 8 - from
  {
    if from == 8 then Closed("Closed")
    else
      var next := DayOf(h, (today + from) % 7);
      if next.opensAt != [] then Closed(StripOffset(next.opensAt))
      else ScanFrom(h, today, from + 1)
  }

  /** What `getNextOpenTime` returns: the scan over the next seven days, today last. */
  function NextOpenTime(h: OpeningHours, today: Weekday): (r: OpeningStatus)
    ensures r.Closed?
  {
    ScanFrom(h, today, 1)
  }

  /** `getNextOpenTime`: the bounded loop with its early return. */
  method GetNextOpenTime(h: OpeningHours, today: Weekday) returns (r: OpeningStatus)
    ensures r == NextOpenTime(h, today)
  {
    for i := 1 to 8
      invariant ScanFrom(h, today, i) == NextOpenTime(h, today)
    {
      var nextIndex := (today + i) % 7;
      var nextDay := DayOf(h, nextIndex);
      if nextDay.opensAt != [] {
        return Closed(StripOffset(nextDay.opensAt));
      }
    }
    return Closed("Closed");
  }

  /** The weekday `i` days after `today`. */
  function After(today: Weekday, i: nat): Weekday
  {
    (today + i) % 7
  }

  lemma AfterValue(today: Weekday, i: nat)
    requires i <= 7
    ensures After(today, i) == if today + i < 7 then today + i else today + i - 7
  {
  }

  /**
   * The scan finds the first of the next seven days, today last, whose
   * `opensAt` is not empty (only `opensAt` is looked at), and reports that
   * opening time without its offset; when there is none, "Closed".
   */
  lemma {:induction false} ScanFirst(h: OpeningHours, today: Weekday, from: nat) returns (i: nat)
    requires 1 <= from <= 8
    requires forall j :: 1 <= j < from ==> DayOf(h, After(today, j)).opensAt == []
    ensures from <= i <= 8
    ensures forall j :: 1 <= j < i ==> DayOf(h, After(today, j)).opensAt == []
    ensures i <= 7 ==>
      DayOf(h, After(today, i)).opensAt != [] &&
      ScanFrom(h, today, from) == Closed(StripOffset(DayOf(h, After(today, i)).opensAt))
    ensures i == 8 ==> ScanFrom(h, today, from) == Closed("Closed")
    decreases 8 - from
  {
    if from == 8 {
      i := 8;
    } else if DayOf(h, After(today, from)).opensAt != [] {
      i := from;
    } else {
      i := ScanFirst(h, today, from + 1);
    }
  }

  lemma NextOpenTimeFirst(h: OpeningHours, today: Weekday) returns (i: nat)
    ensures 1 <= i <= 8
    ensures forall j :: 1 <= j < i ==> DayOf(h, After(today, j)).opensAt == []
    ensures i <= 7 ==>
      DayOf(h, After(today, i)).opensAt != [] &&
      NextOpenTime(h, today) == Closed(StripOffset(DayOf(h, After(today, i)).opensAt))
    ensures i == 8 ==> NextOpenTime(h, today) == Closed("Closed")
  {
    i := ScanFirst(h, today, 1);
  }

  /** `i` runs over every weekday once, so a week with no opening time is "Closed". */
  lemma NoOpeningAllWeek(h: OpeningHours, today: Weekday)
    requires forall d: Weekday :: DayOf(h, d).opensAt == []
    ensures NextOpenTime(h, today) == Closed("Closed")
  {
    var i := NextOpenTimeFirst(h, today);
  }

  /** Every weekday is reached by exactly one step `i` of the scan, today by the last one. */
  lemma ScanCoversWeek(today: Weekday, d: Weekday) returns (i: nat)
    ensures 1 <= i <= 7 && After(today, i) == d
    ensures d == today <==> i == 7
    ensures forall j :: 1 <= j <= 7 && j != i ==> After(today, j) != d
  {
    i := if d > today then d - today else d + 7 - today;
    AfterValue(today, i);
    forall j | 1 <= j <= 7 && j != i ensures After(today, j) != d {
      AfterValue(today, j);
    }
  }

  // ---------------------------------------------------------------------------
  // getOpeningStatus

  /** What `getOpeningStatus` returns on weekday `today` at `now` milliseconds after midnight. */
  function StatusAt(h: OpeningHours, today: Weekday, now: TimeOfDay): OpeningStatus
  {
    var day := DayOf(h, today);
    if day.opensAt == [] || day.closesAt == [] then NextOpenTime(h, today)
    else
      match (ClockMs(StripOffset(day.opensAt)), ClockMs(StripOffset(day.closesAt)))
      case (Some(openTime), Some(closeTime)) =>
        if openTime <= now <= closeTime then Open(StripOffset(day.closesAt)) else NextOpenTime(h, today)
      case _ => NextOpenTime(h, today)
  }

  /** `getOpeningStatus`, with its early return and its call of `getNextOpenTime`. */
  method GetOpeningStatus(h: OpeningHours, today: Weekday, now: TimeOfDay) returns (r: OpeningStatus)
    ensures r == StatusAt(h, today, now)
  {
    var day := DayOf(h, today);
    if day.opensAt == [] || day.closesAt == [] {
      r := GetNextOpenTime(h, today);
      return;
    }
    var openTime := ClockMs(StripOffset(day.opensAt));
    var closeTime := ClockMs(StripOffset(day.closesAt));
    if openTime.Some? && closeTime.Some? && openTime.value <= now && now <= closeTime.value {
      return Open(StripOffset(day.closesAt));
    }
    r := GetNextOpenTime(h, today);
  }

  /** The store is open exactly when today has both times and now lies between them, both ends included. */
  lemma OpenIff(h: OpeningHours, today: Weekday, now: TimeOfDay)
    ensures var day := DayOf(h, today);
      StatusAt(h, today, now).Open? <==>
        && day.opensAt != [] && day.closesAt != []
        && ClockMs(StripOffset(day.opensAt)).Some? && ClockMs(StripOffset(day.closesAt)).Some?
        && ClockMs(StripOffset(day.opensAt)).value <= now <= ClockMs(StripOffset(day.closesAt)).value
  {
    var i := NextOpenTimeFirst(h, today);
  }

  /** When open, `to` is today's closing time without its offset. */
  lemma OpenUntil(h: OpeningHours, today: Weekday, now: TimeOfDay)
    requires StatusAt(h, today, now).Open?
    ensures StatusAt(h, today, now).to == StripOffset(DayOf(h, today).closesAt)
    ensures '+' !in StatusAt(h, today, now).to
  {
    var i := NextOpenTimeFirst(h, today);
  }

  /** When not open, the answer is the scan for the next opening, whatever today's times. */
  lemma ClosedMeansScan(h: OpeningHours, today: Weekday, now: TimeOfDay)
    requires !StatusAt(h, today, now).Open?
    ensures StatusAt(h, today, now) == NextOpenTime(h, today)
  {
  }

  /** A day without an opening or a closing time is never open. */
  lemma ClosedDay(h: OpeningHours, today: Weekday, now: TimeOfDay)
    requires DayOf(h, today).opensAt == [] || DayOf(h, today).closesAt == []
    ensures StatusAt(h, today, now) == NextOpenTime(h, today)
    ensures !StatusAt(h, today, now).Open?
  {
    var i := NextOpenTimeFirst(h, today);
  }

  /**
   * A store open on one weekday only, and not open now, next opens on that
   * weekday: when it is today, the week-later opening is reported, also before
   * today's opening time.
   */
  lemma OnlyOneDay(h: OpeningHours, today: Weekday, now: TimeOfDay, d: Weekday)
    requires DayOf(h, d).opensAt != []
    requires forall e: Weekday :: e != d ==> DayOf(h, e).opensAt == []
    requires !StatusAt(h, today, now).Open?
    ensures StatusAt(h, today, now) == Closed(StripOffset(DayOf(h, d).opensAt))
  {
    var i := NextOpenTimeFirst(h, today);
    var k := ScanCoversWeek(today, d);
  }

  // ---------------------------------------------------------------------------
  // The scenarios of utils/__test__/getOpeningStatus.spec.ts

  const NineToSix := OpeningHoursDay("09:00", "18:00")
  const Shut := OpeningHoursDay("", "")

  /** Open 09:00–18:00 on Wednesday and Thursday only. */
  const WedThu := OpeningHours(Shut, Shut, NineToSix, NineToSix, Shut, Shut, Shut)

  const ShutAllWeek := OpeningHours(Shut, Shut, Shut, Shut, Shut, Shut, Shut)

  lemma NextOpenWedThu()
    ensures NextOpenTime(WedThu, 3) == Closed("09:00")
  {
    assert After(3, 1) == 4;
    assert StripOffset("09:00") == "09:00";
  }

  /** On Wednesday the hours are 09:00 to 18:00. */
  lemma NineToSixToday(now: TimeOfDay)
    ensures StatusAt(WedThu, 3, now) ==
      if 9 * MsPerHour <= now <= 18 * MsPerHour then Open("18:00") else NextOpenTime(WedThu, 3)
  {
    var day := DayOf(WedThu, 3);
    assert day == NineToSix;
    assert StripOffset("09:00") == "09:00";
    assert StripOffset("18:00") == "18:00";
    ClockNine();
    ClockSix();
  }

  /** Wednesday 10:00 is within 09:00–18:00: open until 18:00. */
  lemma WednesdayMorning()
    ensures StatusAt(WedThu, 3, 10 * MsPerHour) == Open("18:00")
  {
    NineToSixToday(10 * MsPerHour);
  }

  /** Wednesday 08:00 and 20:00 are outside the hours: next opening 09:00, on Thursday. */
  lemma WednesdayOutsideHours()
    ensures StatusAt(WedThu, 3, 8 * MsPerHour) == Closed("09:00")
    ensures StatusAt(WedThu, 3, 20 * MsPerHour) == Closed("09:00")
  {
    NineToSixToday(8 * MsPerHour);
    NineToSixToday(20 * MsPerHour);
    NextOpenWedThu();
  }

  /** No opening time all week: "Closed". */
  lemma ShutWeek()
    ensures StatusAt(ShutAllWeek, 3, 10 * MsPerHour) == Closed("Closed")
  {
    NoOpeningAllWeek(ShutAllWeek, 3);
  }
}
