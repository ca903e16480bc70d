/**
 Daily maintenance windows.  Local times are nanoseconds since midnight of
 1970-01-01 in the window's zone, whose offset from UTC is constant.
 */
module Maintenance {
  import opened Durations
  import opened Numerals
  import opened Prelude

  const LONG_DAY_NAMES := ["Sunday", "Monday", "Tuesday", "Wednesday", "Thursday", "Friday", "Saturday"]

  // ---------------------------------------------------------------------------
  // The start time

  function TrimLeadingZero(s: string): string {
    if s != "" && s[0] == '0' then s[1..] else s
  }

  function ExtractNumericalValue(s: string): Option<int> {
    Atoi(TrimLeadingZero(s))
  }

  /** The duration from midnight to `hh:mm`; the character between the two is not looked at. */
  function HhmmToDuration(s: string): Option<int> {
    if |s| != 5 then None
    else
      var hours, minutes := ExtractNumericalValue(s[..2]), ExtractNumericalValue(s[3..5]);
      if hours.None? || minutes.None? then None
      else if hours.value < 0 || hours.value > 23 || minutes.value < 0 || minutes.value > 59 then None
      else Some(hours.value * HOUR + minutes.value * MINUTE)
  }

  lemma PaddedNumber(n: nat)
    requires n < 100
    ensures ExtractNumericalValue(TwoDigits(n)) == Some(n)
  {
    TwoDigitsRoundTrip(n);
  }

  /** Every well-formed time of day is read as itself. */
  lemma HhmmRoundTrip(hours: nat, minutes: nat)
    requires hours < 24 && minutes < 60
    ensures HhmmToDuration(TwoDigits(hours) + ":" + TwoDigits(minutes)) == Some(hours * HOUR + minutes * MINUTE)
  {
    var s := TwoDigits(hours) + ":" + TwoDigits(minutes);
    assert s[..2] == TwoDigits(hours) && s[3..5] == TwoDigits(minutes);
    PaddedNumber(hours);
    PaddedNumber(minutes);
  }

  // ---------------------------------------------------------------------------
  // The window

  /** Day 0 was a Thursday. */
  function Weekday(day: int): string {
    LONG_DAY_NAMES[(day + 4) % 7]
  }

  /** In every week, counted from that day, the days have their names in their order. */
  lemma WeekdayNames(week: int)
    ensures Weekday(7 * week) == "Thursday" && Weekday(7 * week + 1) == "Friday" && Weekday(7 * week + 2) == "Saturday"
    ensures Weekday(7 * week + 3) == "Sunday" && Weekday(7 * week + 4) == "Monday" && Weekday(7 * week + 5) == "Tuesday"
    ensures Weekday(7 * week + 6) == "Wednesday"
  {
  }

  predicate Scheduled(every: seq<string>, day: int) {
    every == [] || Weekday(day) in every
  }

  /** `now` lies strictly inside the window that starts on `day`. */
  predicate InWindowOf(day: int, start: int, duration: int, now: int) {
    day * DAY + start < now < day * DAY + start + duration
  }

  /** What a maintenance window promises: now is inside the window of some scheduled day. */
  ghost predicate UnderMaintenance(every: seq<string>, start: int, duration: int, now: int) {
    exists day :: Scheduled(every, day) && InWindowOf(day, start, duration, now)
  }

  /** The one day the code looks at: yesterday when the hour of the start is still to come. */
  function CandidateDay(start: int, now: int): int {
    if now % DAY / HOUR < start / HOUR then now / DAY - 1 else now / DAY
  }

  /** What the code computes for an enabled window. */
  predicate Decides(every: seq<string>, start: int, duration: int, now: int) {
    Scheduled(every, CandidateDay(start, now)) && InWindowOf(CandidateDay(start, now), start, duration, now)
  }

  predicate Validated(every: seq<string>, start: int, duration: int) {
    (forall d :: d in every ==> d in LONG_DAY_NAMES) && 0 <= start < DAY && 0 < duration <= DAY
  }

  /** A window of at most a day covers a moment only if it starts today or yesterday. */
  lemma WindowStartsTodayOrYesterday(day: int, start: int, duration: int, now: int)
    requires 0 <= start < DAY && 0 < duration <= DAY
    requires InWindowOf(day, start, duration, now)
    ensures day == now / DAY || day == now / DAY - 1
  {
  }

  /** The tail of yesterday's window that the code misses, because it compares hours only. */
  predicate InDroppedTail(start: int, duration: int, now: int) {
    now % DAY / HOUR == start / HOUR && InWindowOf(now / DAY - 1, start, duration, now)
  }

  /** At every moment: the code says yes exactly inside the window of a scheduled day, except in that tail. */
  lemma DecidesExceptInTail(every: seq<string>, start: int, duration: int, now: int)
    requires Validated(every, start, duration)
    ensures Decides(every, start, duration, now) <==>
            UnderMaintenance(every, start, duration, now) && !InDroppedTail(start, duration, now)
  {
    var today := now / DAY;
    assert now == today * DAY + now % DAY;
    if day :| Scheduled(every, day) && InWindowOf(day, start, duration, now) {
      WindowStartsTodayOrYesterday(day, start, duration, now);
      if day == today {
        assert now % DAY / HOUR >= start / HOUR;
      } else {
        assert now % DAY < start;
      }
    }
  }

  lemma SomeDayIsScheduled(every: seq<string>) returns (day: int)
    requires forall d :: d in every ==> d in LONG_DAY_NAMES
    ensures Scheduled(every, day)
  {
    if every == [] {
      day := 0;
    } else {
      assert every[0] in every;
      var w :| 0 <= w < 7 && LONG_DAY_NAMES[w] == every[0];
      day := w + 3;
      assert (day + 4) % 7 == w;
    }
  }

  lemma NoTailWhenItFits(start: int, duration: int, now: int)
    requires 0 <= start < DAY && duration + start % HOUR <= DAY
    ensures !InDroppedTail(start, duration, now)
  {
    assert now == now / DAY * DAY + now % DAY;
    assert start == start / HOUR * HOUR + start % HOUR;
    if now % DAY / HOUR == start / HOUR {
      assert now % DAY >= start / HOUR * HOUR;
    }
  }

  /**
   A validated window is decided correctly at every moment exactly when its duration
   plus the minutes of its start fit into a day.
   */
  lemma CorrectExactlyWhenItFits(every: seq<string>, start: int, duration: int)
    requires Validated(every, start, duration)
    ensures (forall now :: Decides(every, start, duration, now) <==> UnderMaintenance(every, start, duration, now)) <==>
            duration + start % HOUR <= DAY
  {
    if duration + start % HOUR <= DAY {
      forall now
        ensures Decides(every, start, duration, now) <==> UnderMaintenance(every, start, duration, now)
      {
        DecidesExceptInTail(every, start, duration, now);
        NoTailWhenItFits(start, duration, now);
      }
    } else {
      var day := SomeDayIsScheduled(every);
      var now := (day + 1) * DAY + start / HOUR * HOUR;
      DecidesExceptInTail(every, start, duration, now);
      assert now / DAY == day + 1 && now % DAY == start / HOUR * HOUR;
      assert InWindowOf(day, start, duration, now) && InDroppedTail(start, duration, now);
    }
  }

  // ---------------------------------------------------------------------------
  // The configuration object

  datatype Error = InvalidStartFormat | InvalidNumber | InvalidDuration | InvalidDayName | InvalidTimezone

  /** What is wrong with a start time; parts that are no numbers have the error of the number parser. */
  function StartError(s: string): (error: Option<Error>)
    ensures error.None? <==> HhmmToDuration(s).Some?
  {
    if |s| != 5 then Some(InvalidStartFormat)
    else if ExtractNumericalValue(s[..2]).None? || ExtractNumericalValue(s[3..5]).None? then Some(InvalidNumber)
    else if HhmmToDuration(s).None? then Some(InvalidStartFormat)
    else None
  }

  /** What is wrong with a window: the first of its parts that is not acceptable. */
  function FirstError(every: seq<string>, start: string, duration: int, zoneIsKnown: bool): Option<Error> {
    if exists d :: d in every && d !in LONG_DAY_NAMES then Some(InvalidDayName)
    else if StartError(start).Some? then StartError(start)
    else if duration <= 0 || duration > DAY then Some(InvalidDuration)
    else if !zoneIsKnown then Some(InvalidTimezone)
    else None
  }

  /** What a text of at most two characters stands for: an optional leading zero, and a number behind it. */
  ghost predicate Reads(s: string, n: int) {
    Atoi(if "0" <= s then s[1..] else s) == Some(n)
  }

  lemma NamesOfDays(d: string)
    ensures d in LONG_DAY_NAMES <==>
            d in ["Monday", "Tuesday", "Wednesday", "Thursday", "Friday", "Saturday", "Sunday"]
  {
  }

  lemma NumberBelow(s: string, bound: int)
    ensures (exists n :: 0 <= n <= bound && Reads(s, n)) <==>
            ExtractNumericalValue(s).Some? && 0 <= ExtractNumericalValue(s).value <= bound
  {
    assert TrimLeadingZero(s) == if "0" <= s then s[1..] else s;
    if ExtractNumericalValue(s).Some? {
      assert Reads(s, ExtractNumericalValue(s).value);
    }
  }

  lemma StartAccepted(s: string)
    ensures StartError(s) == None <==>
            |s| == 5 && (exists hours :: 0 <= hours <= 23 && Reads(s[..2], hours)) &&
            (exists minutes :: 0 <= minutes <= 59 && Reads(s[3..], minutes))
  {
    if |s| == 5 {
      assert s[3..] == s[3..5];
      NumberBelow(s[..2], 23);
      NumberBelow(s[3..], 59);
    }
  }

  /**
   A window is accepted exactly when all its days are names of weekdays, its start is
   two numbers around one more character that are a time of day, it lasts for more
   than nothing and at most a day, and its time zone is known.
   */
  lemma AcceptedExactly(every: seq<string>, start: string, duration: int, zoneIsKnown: bool)
    ensures FirstError(every, start, duration, zoneIsKnown) == None <==>
            (forall d :: d in every ==>
               d in ["Monday", "Tuesday", "Wednesday", "Thursday", "Friday", "Saturday", "Sunday"]) &&
            |start| == 5 && (exists hours :: 0 <= hours <= 23 && Reads(start[..2], hours)) &&
            (exists minutes :: 0 <= minutes <= 59 && Reads(start[3..], minutes)) &&
            0 < duration <= 86_400_000_000_000 && zoneIsKnown
  {
    StartAccepted(start);
    forall d
      ensures d in LONG_DAY_NAMES <==>
              d in ["Monday", "Tuesday", "Wednesday", "Thursday", "Friday", "Saturday", "Sunday"]
    {
      NamesOfDays(d);
    }
  }

  /** And then it starts at that time of day. */
  lemma StartsAt(start: string, hours: int, minutes: int)
    requires |start| == 5 && 0 <= hours <= 23 && Reads(start[..2], hours) && 0 <= minutes <= 59 &&
             Reads(start[3..], minutes)
    ensures HhmmToDuration(start) == Some(hours * 3_600_000_000_000 + minutes * 60_000_000_000)
  {
    assert start[3..] == start[3..5];
  }

  class Config {
    var enabled: Option<bool>
    var start: string
    var duration: int
    var timezone: string
    var every: seq<string>
    var timezoneOffset: Option<int>
    var durationToStartFromMidnight: int

    constructor (enabled: Option<bool>, start: string, duration: int, timezone: string, every: seq<string>)
      ensures this.enabled == enabled && this.start == start && this.duration == duration
      ensures this.timezone == timezone && this.every == every && timezoneOffset == None
    {
      this.enabled, this.start, this.duration, this.timezone, this.every := enabled, start, duration, timezone, every;
      timezoneOffset, durationToStartFromMidnight := None, 0;
    }

    /** A window is enabled unless its configuration says otherwise. */
    predicate IsEnabled(): (r: bool)
      reads this
      ensures r <==> enabled != Some(false)
    {
      enabled.None? || enabled.value
    }

    /** The window may be asked about. */
    predicate Ready()
      reads this
    {
      Validated(every, durationToStartFromMidnight, duration)
    }

    /** `location` is what loading the named time zone gives: its offset from UTC, or nothing. */
    method ValidateAndSetDefaults(location: Option<int>) returns (error: Option<Error>)
      modifies this`timezone, this`timezoneOffset, this`durationToStartFromMidnight
      ensures error ==
              if enabled != Some(false) then FirstError(every, start, duration, old(timezone) == "" || location.Some?)
                else None
      ensures enabled != Some(false) && error == None ==>
                Ready() && HhmmToDuration(start) == Some(durationToStartFromMidnight) &&
                timezoneOffset == (if old(timezone) == "" then Some(0) else location) &&
                timezone == if old(timezone) == "" then "UTC" else old(timezone)
    {
      if !IsEnabled() {
        return None;
      }
      for i := 0 to |every|
        invariant forall k :: 0 <= k < i ==> every[k] in LONG_DAY_NAMES
      {
        if every[i] !in LONG_DAY_NAMES {
          return Some(InvalidDayName);
        }
      }
      var parsed := HhmmToDuration(start);
      if parsed.None? {
        return StartError(start);
      }
      durationToStartFromMidnight := parsed.value;
      if duration <= 0 || duration > DAY {
        return Some(InvalidDuration);
      }
      if timezone != "" {
        timezoneOffset := location;
        if location.None? {
          return Some(InvalidTimezone);
        }
      } else {
        timezone, timezoneOffset := "UTC", Some(0);
      }
      return None;
    }

    /** `clock` is in UTC; a window never validated uses the machine's own offset. */
    method IsUnderMaintenance(clock: int, machineOffset: int) returns (r: bool)
      requires IsEnabled() ==> Ready()
      ensures var now := clock + if timezoneOffset.Some? then timezoneOffset.value else machineOffset;
              var s := durationToStartFromMidnight;
              var under := enabled != Some(false) && UnderMaintenance(every, s, duration, now);
              (r <==> under && !InDroppedTail(s, duration, now)) &&
              (duration + s % 3_600_000_000_000 <= 86_400_000_000_000 ==> (r <==> under))
    {
      if !IsEnabled() {
        return false;
      }
      var now := clock + if timezoneOffset.Some? then timezoneOffset.value else machineOffset;
      DecidesExceptInTail(every, durationToStartFromMidnight, duration, now);
      CorrectExactlyWhenItFits(every, durationToStartFromMidnight, duration);
      var adjustedDate := now / DAY;
      if now % DAY / HOUR < durationToStartFromMidnight / HOUR {
        adjustedDate := adjustedDate - 1;
      }
      var midnight := adjustedDate * DAY;
      if every != [] && Weekday(adjustedDate) !in every {
        return false;
      }
      var startOfPeriod := midnight + durationToStartFromMidnight;
      var endOfPeriod := startOfPeriod + duration;
      return now > startOfPeriod && now < endOfPeriod;
    }
  }
}
