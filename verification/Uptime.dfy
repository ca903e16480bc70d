/**
 The hourly uptime index of one endpoint and the range queries answered from it.

 Times are nanoseconds since the Unix epoch.  The index is keyed by the Unix
 timestamp (in seconds) of the start of an hour; the specification numbers the hours
 since the epoch.  The history of all inserted results exists only in the
 specification.
 */
module Uptime {
  import opened Durations

  const CLEAN_UP_THRESHOLD := 32 * 24
  const RETENTION := 30 * DAY

  datatype Result = Result(timestamp: int, success: bool, duration: nat)

  datatype HourlyStatistics = HourlyStatistics(total: nat, successful: nat, responseTime: nat)

  /** The timestamp that names an hour. */
  type Hour = t: int | t % 3600 == 0

  type Index = map<Hour, HourlyStatistics>

  /** `t.Unix()`. */
  function Unix(t: int): int {
    t / SECOND
  }

  /** `t.Truncate(time.Hour)`. */
  function Truncate(t: int): int {
    t - t % HOUR
  }

  /** The number of the hour of `t`. */
  function Number(t: int): int {
    t / HOUR
  }

  /** `t.Truncate(time.Hour).Unix()`, the name of the hour of `t`. */
  function HourOf(t: int): Hour {
    assert Truncate(t) == Number(t) * HOUR;
    Unix(Truncate(t))
  }

  /** The name of hour number `k`. */
  function Name(k: int): Hour {
    3600 * k
  }

  lemma HourOfIsNamed(t: int)
    ensures HourOf(t) == Name(Number(t))
  {
    assert Truncate(t) == Number(t) * HOUR;
  }

  // ---------------------------------------------------------------------------
  // Counting directly on the history

  /** The part of a result that is counted: the number of its hour, its outcome and its milliseconds. */
  datatype Sample = Sample(hour: int, success: bool, milliseconds: nat)

  function SampleOf(r: Result): Sample {
    Sample(Number(r.timestamp), r.success, r.duration / MILLISECOND)
  }

  function Plus(a: HourlyStatistics, b: HourlyStatistics): HourlyStatistics {
    HourlyStatistics(a.total + b.total, a.successful + b.successful, a.responseTime + b.responseTime)
  }

  /** What one sample adds to its hour. */
  function One(x: Sample): HourlyStatistics {
    HourlyStatistics(1, if x.success then 1 else 0, x.milliseconds)
  }

  /** The statistics with one more sample, if it is of the hours numbered from `lo` up to but not including `hi`. */
  function PlusWithin(s: HourlyStatistics, x: Sample, lo: int, hi: int): HourlyStatistics {
    if lo <= x.hour < hi then Plus(s, One(x)) else s
  }

  /** The statistics of all samples of the hours numbered from `lo` up to but not including `hi`. */
  function Tally(history: seq<Sample>, lo: int, hi: int): HourlyStatistics {
    if history == [] then HourlyStatistics(0, 0, 0)
    else PlusWithin(Tally(history[..|history| - 1], lo, hi), history[|history| - 1], lo, hi)
  }

  /** Successes are counted among all results, and where there is none nothing is counted at all. */
  lemma {:induction false} TallyIsConsistent(history: seq<Sample>, lo: int, hi: int)
    ensures var s := Tally(history, lo, hi);
            s.successful <= s.total && (s.total == 0 ==> s == HourlyStatistics(0, 0, 0))
  {
    if history == [] {
    } else {
      TallyIsConsistent(history[..|history| - 1], lo, hi);
    }
  }

  lemma PlusOnEitherSide(a: HourlyStatistics, b: HourlyStatistics, x: HourlyStatistics)
    ensures Plus(Plus(a, b), x) == Plus(Plus(a, x), b) == Plus(a, Plus(b, x))
  {
  }

  /** The tally of a span of hours is that of its first part plus that of its second. */
  lemma {:induction false} TallySplits(history: seq<Sample>, lo: int, mid: int, hi: int)
    requires lo <= mid <= hi
    ensures Tally(history, lo, hi) == Plus(Tally(history, lo, mid), Tally(history, mid, hi))
  {
    if history == [] {
    } else {
      var p, x := history[..|history| - 1], history[|history| - 1];
      TallySplits(p, lo, mid, hi);
      PlusOnEitherSide(Tally(p, lo, mid), Tally(p, mid, hi), One(x));
    }
  }

  lemma {:induction false} EmptySpan(history: seq<Sample>, k: int)
    ensures Tally(history, k, k) == HourlyStatistics(0, 0, 0)
  {
    if history == [] {
    } else {
      EmptySpan(history[..|history| - 1], k);
    }
  }

  // ---------------------------------------------------------------------------
  // What inserting does to the index

  /** Hours before this second may be forgotten. */
  function CutOff(now: int): int {
    Unix(now - (RETENTION + HOUR))
  }

  function Kept(index: Index, cutoff: int): Index {
    map h | h in index && h >= cutoff :: index[h]
  }

  function Inserted(index: Index, x: Sample): Index {
    var hour := Name(x.hour);
    index[hour := Plus(if hour in index then index[hour] else HourlyStatistics(0, 0, 0), One(x))]
  }

  function AfterResult(index: Index, r: Result, now: int): Index {
    var full := Inserted(index, SampleOf(r));
    if |full| > CLEAN_UP_THRESHOLD then Kept(full, CutOff(now)) else full
  }

  /** A result together with the clock reading its insertion sees. */
  datatype Insert = Insert(result: Result, now: int)

  function IndexAfter(inserts: seq<Insert>): Index {
    if inserts == [] then map[]
    else
      var n := |inserts| - 1;
      AfterResult(IndexAfter(inserts[..n]), inserts[n].result, inserts[n].now)
  }

  function History(inserts: seq<Insert>): seq<Sample> {
    seq(|inserts|, i requires 0 <= i < |inserts| => SampleOf(inserts[i].result))
  }

  /** The clock never goes back, and has not passed `now` yet. */
  ghost predicate MonotoneClock(inserts: seq<Insert>, now: int) {
    (forall i, j :: 0 <= i <= j < |inserts| ==> inserts[i].now <= inserts[j].now) &&
    forall i :: 0 <= i < |inserts| ==> inserts[i].now <= now
  }

  /** What the index says about hour number `k`. */
  function Lookup(index: Index, k: int): HourlyStatistics {
    if Name(k) in index && index[Name(k)].total != 0 then index[Name(k)] else HourlyStatistics(0, 0, 0)
  }

  /** Every hour in the index has data. */
  ghost predicate NoEmptyHours(index: Index) {
    forall h :: h in index ==> index[h].total > 0
  }

  lemma LookupInserted(index: Index, x: Sample, k: int)
    requires NoEmptyHours(index)
    ensures NoEmptyHours(Inserted(index, x))
    ensures Lookup(Inserted(index, x), k) == PlusWithin(Lookup(index, k), x, k, k + 1)
  {
    var after := Inserted(index, x);
    if k != x.hour {
      assert Lookup(after, k) == Lookup(index, k);
    } else {
      assert Lookup(after, k) == Plus(Lookup(index, k), One(x));
    }
  }

  lemma LookupKept(index: Index, cutoff: int, k: int)
    requires NoEmptyHours(index) && Name(k) >= cutoff
    ensures NoEmptyHours(Kept(index, cutoff))
    ensures Lookup(Kept(index, cutoff), k) == Lookup(index, k)
  {
  }

  lemma CutOffGrows(now: int, later: int)
    requires now <= later
    ensures CutOff(now) <= CutOff(later)
  {
  }

  /**
   The index agrees with the raw history on every hour that a clean-up at time `now`
   or earlier keeps.
   */
  lemma {:induction false} IndexAgreesWithHistory(inserts: seq<Insert>, now: int, k: int)
    requires MonotoneClock(inserts, now) && Name(k) >= CutOff(now)
    ensures NoEmptyHours(IndexAfter(inserts))
    ensures Lookup(IndexAfter(inserts), k) == Tally(History(inserts), k, k + 1)
  {
    if inserts == [] {
    } else {
      var n := |inserts| - 1;
      IndexAgreesWithHistory(inserts[..n], now, k);
      assert History(inserts)[..n] == History(inserts[..n]);
      CutOffGrows(inserts[n].now, now);
      var before, x := IndexAfter(inserts[..n]), SampleOf(inserts[n].result);
      LookupInserted(before, x, k);
      LookupKept(Inserted(before, x), CutOff(inserts[n].now), k);
    }
  }

  // ---------------------------------------------------------------------------
  // The index stays small

  lemma SameHour(a: Hour, b: Hour, lo: int)
    requires lo <= a < lo + 3600 && lo <= b < lo + 3600
    ensures a == b
  {
  }

  lemma {:induction false} AlignedHoursAreFew(hours: set<Hour>, lo: int, n: nat)
    requires forall h :: h in hours ==> lo <= h < lo + 3600 * n
    ensures |hours| <= n
  {
    if n == 0 {
      assert hours == {};
    } else {
      var earlier := set h | h in hours && h < lo + 3600 * (n - 1);
      AlignedHoursAreFew(earlier, lo, n - 1);
      if latest :| latest in hours && latest !in earlier {
        forall h | h in hours && h !in earlier
          ensures h == latest
        {
          SameHour(h, latest, lo + 3600 * (n - 1));
        }
        assert hours == earlier + {latest};
      } else {
        assert hours == earlier;
      }
    }
  }

  /** No result is stamped later than the clock at its insertion. */
  ghost predicate StampedByThen(inserts: seq<Insert>) {
    forall i :: 0 <= i < |inserts| ==> inserts[i].result.timestamp <= inserts[i].now
  }

  lemma {:induction false} HoursAreNotInTheFuture(inserts: seq<Insert>, now: int, hour: Hour)
    requires MonotoneClock(inserts, now) && StampedByThen(inserts)
    requires hour in IndexAfter(inserts)
    ensures hour <= Unix(now)
  {
    var n := |inserts| - 1;
    if hour != Name(Number(inserts[n].result.timestamp)) {
      HoursAreNotInTheFuture(inserts[..n], now, hour);
    }
  }

  lemma CutOffIsSecondsAgo(now: int)
    ensures CutOff(now) == Unix(now) - 721 * 3600
  {
  }

  lemma HoursWithinRetention(inserts: seq<Insert>, now: int)
    requires MonotoneClock(inserts, now) && StampedByThen(inserts)
    requires forall h :: h in IndexAfter(inserts) ==> h >= CutOff(now)
    ensures |IndexAfter(inserts)| <= 722
  {
    var hours := IndexAfter(inserts).Keys;
    CutOffIsSecondsAgo(now);
    var cutoff := CutOff(now);
    forall h | h in hours
      ensures cutoff <= h < cutoff + 3600 * 722
    {
      HoursAreNotInTheFuture(inserts, now, h);
    }
    AlignedHoursAreFew(hours, cutoff, 722);
  }

  /** After any insert there are at most 768 hours, and at most 722 when that insert cleaned up. */
  lemma IndexStaysSmall(inserts: seq<Insert>, r: Insert)
    requires MonotoneClock(inserts + [r], r.now) && StampedByThen(inserts + [r])
    ensures |IndexAfter(inserts + [r])| <= 768
    ensures var full := Inserted(IndexAfter(inserts), SampleOf(r.result));
            if |full| <= 768 then IndexAfter(inserts + [r]) == full else |IndexAfter(inserts + [r])| <= 722
  {
    assert (inserts + [r])[..|inserts|] == inserts;
    if |Inserted(IndexAfter(inserts), SampleOf(r.result))| > CLEAN_UP_THRESHOLD {
      HoursWithinRetention(inserts + [r], r.now);
    }
  }

  // ---------------------------------------------------------------------------
  // The walk over the hours of a query

  /** How many hours a query looks at. */
  function HoursWalked(from: int, to: int): nat {
    if from > to then 0 else (to - from) / HOUR + 1
  }

  /** The hour looked at in iteration `i`. */
  lemma WalkStep(from: int, i: nat)
    ensures HourOf(from + i * HOUR) == Name(Number(from) + i)
  {
    HourOfIsNamed(from + i * HOUR);
    assert (from + i * HOUR) / HOUR == from / HOUR + i;
  }

  lemma NotYetWalked(from: int, to: int, i: nat)
    requires from + i * HOUR <= to
    ensures i < HoursWalked(from, to)
  {
    assert i <= (to - from) / HOUR;
  }

  lemma AllWalked(from: int, to: int, i: nat)
    requires from <= to < from + i * HOUR && i <= HoursWalked(from, to)
    ensures i == HoursWalked(from, to)
  {
  }

  /** One past the number of the last hour walked. */
  function WalkEnd(from: int, to: int): int {
    if from % HOUR <= to % HOUR then Number(to) + 1 else Number(to)
  }

  /**
   The walk looks at every hour from that of `from` through that of `to`, each once,
   except that it leaves out the last one when `from` lies later within its hour
   than `to` does.
   */
  lemma WalkCoversTheRange(from: int, to: int)
    requires from <= to
    ensures Number(from) + HoursWalked(from, to) == WalkEnd(from, to)
  {
    var a, b := from / HOUR, to / HOUR;
    assert from == a * HOUR + from % HOUR && to == b * HOUR + to % HOUR;
    if from % HOUR <= to % HOUR {
      assert (to - from) / HOUR == b - a;
    } else {
      assert (to - from) / HOUR == b - a - 1;
    }
  }

  /** What the `n` hours from number `k` on add up to in the index. */
  function WalkSum(index: Index, k: int, n: nat): HourlyStatistics {
    if n == 0 then HourlyStatistics(0, 0, 0) else Plus(WalkSum(index, k, n - 1), Lookup(index, k + n - 1))
  }

  /** The index and the history say the same about hour number `h`. */
  ghost predicate AgreeAt(index: Index, history: seq<Sample>, h: int) {
    Lookup(index, h) == Tally(history, h, h + 1)
  }

  ghost predicate AgreeFrom(index: Index, history: seq<Sample>, k: int) {
    forall h :: h >= k ==> AgreeAt(index, history, h)
  }

  lemma AgreesAt(index: Index, history: seq<Sample>, k: int, h: int, hi: int)
    requires AgreeFrom(index, history, k) && k <= h && hi == h + 1
    ensures Lookup(index, h) == Tally(history, h, hi)
  {
    assert AgreeAt(index, history, h);
  }

  lemma WalkSumOneMore(index: Index, k: int, n: nat, s: HourlyStatistics)
    requires s == Lookup(index, k + n)
    ensures WalkSum(index, k, n + 1) == Plus(WalkSum(index, k, n), s)
  {
  }

  lemma OneMoreHour(index: Index, history: seq<Sample>, k: int, n: nat, h: int, hi: int)
    requires h == k + n && hi == h + 1 && AgreeFrom(index, history, k)
    requires WalkSum(index, k, n) == Tally(history, k, h)
    ensures WalkSum(index, k, n + 1) == Tally(history, k, hi)
  {
    AgreesAt(index, history, k, h, hi);
    WalkSumOneMore(index, k, n, Tally(history, h, hi));
    TallySplits(history, k, h, hi);
  }

  lemma NoHours(index: Index, history: seq<Sample>, k: int)
    ensures WalkSum(index, k, 0) == Tally(history, k, k)
  {
    EmptySpan(history, k);
  }

  /** Where index and history agree hour by hour, they agree on every span of hours. */
  lemma WalkSumIsTally(index: Index, history: seq<Sample>, k: int, n: nat, hi: int)
    requires AgreeFrom(index, history, k) && hi == k + n
    ensures WalkSum(index, k, n) == Tally(history, k, hi)
  {
    NoHours(index, history, k);
    for m := 0 to n
      invariant WalkSum(index, k, m) == Tally(history, k, k + m)
    {
      OneMoreHour(index, history, k, m, k + m, k + m + 1);
    }
  }

  lemma KeptHoursAgree(inserts: seq<Insert>, now: int, from: int)
    requires MonotoneClock(inserts, now)
    requires HourOf(from) >= CutOff(now)
    ensures AgreeFrom(IndexAfter(inserts), History(inserts), Number(from))
  {
    HourOfIsNamed(from);
    forall h | h >= Number(from)
      ensures AgreeAt(IndexAfter(inserts), History(inserts), h)
    {
      IndexAgreesWithHistory(inserts, now, h);
    }
  }

  /** Queries that start at most 30 days ago only look at hours that clean-up keeps. */
  lemma QueriedHoursAreKept(now: int, from: int)
    requires now - 30 * 24 * 3_600_000_000_000 <= from
    ensures HourOf(from) >= CutOff(now)
  {
    HourOfIsNamed(from);
  }

  /**
   Exactness of range queries: for every sequence of inserts under a clock that never
   goes back and every query made at `now` whose first hour clean-up keeps, the index
   adds up to the tally of all results ever inserted in the hours walked.
   */
  lemma RangeQueryIsExact(inserts: seq<Insert>, now: int, from: int, to: int)
    requires MonotoneClock(inserts, now)
    requires HourOf(from) >= CutOff(now) && from <= to
    ensures WalkSum(IndexAfter(inserts), Number(from), HoursWalked(from, to)) ==
            Tally(History(inserts), Number(from), WalkEnd(from, to))
  {
    KeptHoursAgree(inserts, now, from);
    WalkCoversTheRange(from, to);
    WalkSumIsTally(IndexAfter(inserts), History(inserts), Number(from), HoursWalked(from, to), WalkEnd(from, to));
  }

  /** In particular for every query that starts at most 30 days earlier. */
  lemma RecentRangeQueryIsExact(inserts: seq<Insert>, now: int, from: int, to: int)
    requires MonotoneClock(inserts, now)
    requires now - 30 * 24 * 3_600_000_000_000 <= from <= to
    ensures WalkSum(IndexAfter(inserts), Number(from), HoursWalked(from, to)) ==
            Tally(History(inserts), Number(from), WalkEnd(from, to))
  {
    QueriedHoursAreKept(now, from);
    RangeQueryIsExact(inserts, now, from, to);
  }

  // ---------------------------------------------------------------------------
  // What the numbers mean, on the inserts themselves

  /** The inserts whose results are stamped from time `lo` up to but not including `hi`. */
  ghost function ResultsIn(inserts: seq<Insert>, lo: int, hi: int): set<nat> {
    set i: nat | i < |inserts| && lo <= inserts[i].result.timestamp < hi
  }

  /** Those of them that succeeded. */
  ghost function SuccessesIn(inserts: seq<Insert>, lo: int, hi: int): set<nat> {
    set i: nat | i < |inserts| && lo <= inserts[i].result.timestamp < hi && inserts[i].result.success
  }

  /** Their durations, each in whole milliseconds, added up. */
  ghost function MillisecondsIn(inserts: seq<Insert>, lo: int, hi: int): nat {
    if inserts == [] then 0
    else
      var r := inserts[|inserts| - 1].result;
      MillisecondsIn(inserts[..|inserts| - 1], lo, hi) +
      if lo <= r.timestamp < hi then r.duration / 1_000_000 else 0
  }

  /** The start of the hour of a time. */
  function HourStart(t: int): int {
    t - t % 3_600_000_000_000
  }

  /** The end of the last hour that a query looks at. */
  function LastHourEnd(from: int, to: int): int {
    if from % 3_600_000_000_000 <= to % 3_600_000_000_000 then HourStart(to) + 3_600_000_000_000 else HourStart(to)
  }

  predicate Stamped(x: Insert, lo: int, hi: int) {
    lo <= x.result.timestamp < hi
  }

  lemma OneMoreResultIn(inserts: seq<Insert>, x: Insert, lo: int, hi: int)
    ensures |ResultsIn(inserts + [x], lo, hi)| == |ResultsIn(inserts, lo, hi)| + if Stamped(x, lo, hi) then 1 else 0
  {
    var n: nat := |inserts|;
    var more, results := inserts + [x], ResultsIn(inserts, lo, hi);
    assert more[n] == x && n !in results;
    assert forall i: nat :: i < n ==> more[i] == inserts[i];
    if Stamped(x, lo, hi) {
      assert ResultsIn(more, lo, hi) == results + {n};
    } else {
      assert ResultsIn(more, lo, hi) == results;
    }
  }

  lemma OneMoreSuccessIn(inserts: seq<Insert>, x: Insert, lo: int, hi: int)
    ensures |SuccessesIn(inserts + [x], lo, hi)| ==
            |SuccessesIn(inserts, lo, hi)| + if Stamped(x, lo, hi) && x.result.success then 1 else 0
  {
    var n: nat := |inserts|;
    var more, successes := inserts + [x], SuccessesIn(inserts, lo, hi);
    assert more[n] == x && n !in successes;
    assert forall i: nat :: i < n ==> more[i] == inserts[i];
    if Stamped(x, lo, hi) && x.result.success {
      assert SuccessesIn(more, lo, hi) == successes + {n};
    } else {
      assert SuccessesIn(more, lo, hi) == successes;
    }
  }

  lemma StampedWithin(t: int, lo: int, hi: int)
    ensures lo <= Number(t) < hi <==> lo * 3_600_000_000_000 <= t < hi * 3_600_000_000_000
  {
  }

  /** The tally of a span of hours counts its results and its successes, and adds up its milliseconds. */
  lemma {:induction false} TallyCounts(inserts: seq<Insert>, lo: int, hi: int)
    ensures var s := Tally(History(inserts), lo, hi);
            var from, to := lo * 3_600_000_000_000, hi * 3_600_000_000_000;
            s.total == |ResultsIn(inserts, from, to)| && s.successful == |SuccessesIn(inserts, from, to)| &&
            s.responseTime == MillisecondsIn(inserts, from, to)
  {
    if inserts == [] {
    } else {
      var n := |inserts| - 1;
      var p, x := inserts[..n], inserts[n];
      TallyCounts(p, lo, hi);
      OneMoreResultIn(p, x, lo * 3_600_000_000_000, hi * 3_600_000_000_000);
      OneMoreSuccessIn(p, x, lo * 3_600_000_000_000, hi * 3_600_000_000_000);
      StampedWithin(x.result.timestamp, lo, hi);
      assert inserts == p + [x];
      assert History(inserts)[..n] == History(p);
    }
  }

  lemma SpanOfQuery(from: int, to: int)
    ensures Number(from) * 3_600_000_000_000 == HourStart(from)
    ensures WalkEnd(from, to) * 3_600_000_000_000 == LastHourEnd(from, to)
  {
  }

  // ---------------------------------------------------------------------------
  // Averages

  function Average(s: HourlyStatistics): int
    requires s.total != 0
  {
    s.responseTime / s.total
  }

  function UptimeOf(s: HourlyStatistics): real {
    if s.total == 0 then 0.0 else s.successful as real / s.total as real
  }

  /** The averages of the hours with data, numbered from `lo` up to but not including `hi`. */
  function HourlyAverages(index: Index, lo: int, hi: int): map<Hour, int> {
    map h | h in index && Name(lo) <= h < Name(hi) && index[h].total != 0 :: Average(index[h])
  }

  lemma HourInterval(h: Hour, k: int)
    ensures h < Name(k + 1) <==> h < Name(k) || h == Name(k)
  {
  }

  lemma OneMoreAverage(index: Index, lo: int, hi: int)
    requires lo <= hi
    ensures HourlyAverages(index, lo, hi + 1) ==
            var before := HourlyAverages(index, lo, hi);
            if Lookup(index, hi).total != 0 then before[Name(hi) := Average(Lookup(index, hi))] else before
  {
    var before := HourlyAverages(index, lo, hi);
    var expected := if Lookup(index, hi).total != 0 then before[Name(hi) := Average(Lookup(index, hi))] else before;
    forall h: Hour
      ensures h in HourlyAverages(index, lo, hi + 1) <==> h in expected
    {
      HourInterval(h, hi);
    }
    assert HourlyAverages(index, lo, hi + 1).Keys == expected.Keys;
  }

  ghost predicate AverageOf(averages: map<Hour, int>, s: HourlyStatistics, hour: Hour) {
    if s.total == 0 then hour !in averages else hour in averages && averages[hour] == Average(s)
  }

  /** The averages are those of the hours with results, from hour number `lo` up to but not including `hi`. */
  ghost predicate AveragesOf(averages: map<Hour, int>, history: seq<Sample>, lo: int, hi: int) {
    (forall h :: h in averages ==> Name(lo) <= h < Name(hi)) &&
    forall k :: lo <= k < hi ==> AverageOf(averages, Tally(history, k, k + 1), Name(k))
  }

  /** Hourly averages are exact as far back as clean-up keeps the hour in which the query starts. */
  lemma HourlyAveragesAreExact(inserts: seq<Insert>, now: int, from: int, hi: int)
    requires MonotoneClock(inserts, now) && HourOf(from) >= CutOff(now)
    ensures AveragesOf(HourlyAverages(IndexAfter(inserts), Number(from), hi), History(inserts), Number(from), hi)
  {
    var index, lo := IndexAfter(inserts), Number(from);
    KeptHoursAgree(inserts, now, from);
    forall k | lo <= k < hi
      ensures AverageOf(HourlyAverages(index, lo, hi), Tally(History(inserts), k, k + 1), Name(k))
    {
      assert AgreeAt(index, History(inserts), k);
    }
  }

  /** The entry of an hour with that many results, which took so many milliseconds together. */
  ghost predicate EntryOf(averages: map<Hour, int>, hour: Hour, results: nat, milliseconds: int) {
    if results == 0 then hour !in averages else hour in averages && averages[hour] == milliseconds / results
  }

  ghost predicate AverageOfResults(averages: map<Hour, int>, inserts: seq<Insert>, hour: Hour) {
    var start := hour * 1_000_000_000;
    EntryOf(averages, hour, |ResultsIn(inserts, start, start + 3_600_000_000_000)|,
            MillisecondsIn(inserts, start, start + 3_600_000_000_000))
  }

  /**
   Every hour from time `lo` up to but not including `hi` has an entry exactly when it
   has results, and that is their milliseconds over their number.
   */
  ghost predicate AveragesOfResults(averages: map<Hour, int>, inserts: seq<Insert>, lo: int, hi: int) {
    (forall h :: h in averages ==> lo <= h * 1_000_000_000 < hi) &&
    forall h: Hour :: lo <= h * 1_000_000_000 < hi ==> AverageOfResults(averages, inserts, h)
  }

  lemma EntryOfTally(averages: map<Hour, int>, s: HourlyStatistics, hour: Hour)
    requires AverageOf(averages, s, hour)
    ensures EntryOf(averages, hour, s.total, s.responseTime)
  {
  }

  lemma TallyOfHour(inserts: seq<Insert>, k: int, start: int)
    requires start == Name(k) * 1_000_000_000
    ensures var s := Tally(History(inserts), k, k + 1);
            s.total == |ResultsIn(inserts, start, start + 3_600_000_000_000)| &&
            s.responseTime == MillisecondsIn(inserts, start, start + 3_600_000_000_000)
  {
    TallyCounts(inserts, k, k + 1);
    assert start == k * 3_600_000_000_000 && start + 3_600_000_000_000 == (k + 1) * 3_600_000_000_000;
  }

  lemma AverageCounts(averages: map<Hour, int>, inserts: seq<Insert>, k: int)
    requires AverageOf(averages, Tally(History(inserts), k, k + 1), Name(k))
    ensures AverageOfResults(averages, inserts, Name(k))
  {
    TallyOfHour(inserts, k, Name(k) * 1_000_000_000);
    EntryOfTally(averages, Tally(History(inserts), k, k + 1), Name(k));
  }

  lemma HourIsBetween(h: Hour, lo: int, hi: int)
    ensures lo * 3_600_000_000_000 <= h * 1_000_000_000 < hi * 3_600_000_000_000 <==> Name(lo) <= h < Name(hi)
    ensures h == Name(h / 3600)
  {
  }

  lemma AveragesCount(averages: map<Hour, int>, inserts: seq<Insert>, lo: int, hi: int)
    requires AveragesOf(averages, History(inserts), lo, hi)
    ensures AveragesOfResults(averages, inserts, lo * 3_600_000_000_000, hi * 3_600_000_000_000)
  {
    forall h: Hour
      ensures lo * 3_600_000_000_000 <= h * 1_000_000_000 < hi * 3_600_000_000_000 <==> Name(lo) <= h < Name(hi)
    {
      HourIsBetween(h, lo, hi);
    }
    forall h: Hour | Name(lo) <= h < Name(hi)
      ensures AverageOfResults(averages, inserts, h)
    {
      HourIsBetween(h, lo, hi);
      assert AverageOf(averages, Tally(History(inserts), h / 3600, h / 3600 + 1), Name(h / 3600));
      AverageCounts(averages, inserts, h / 3600);
    }
  }

  /** All hourly averages among the `n` hours walked lie between `low` and `high`. */
  ghost predicate AveragesWithin(index: Index, k: int, n: nat, low: int, high: int) {
    forall h :: k <= h < k + n && Lookup(index, h).total != 0 ==> low <= Average(Lookup(index, h)) <= high
  }

  ghost predicate WithinBounds(s: HourlyStatistics, low: int, high: int) {
    low * s.total <= s.responseTime &&
    if s.total == 0 then s.responseTime == 0 else s.responseTime < (high + 1) * s.total
  }

  lemma TimesGrows(x: int, y: int, b: int)
    requires x <= y && b > 0
    ensures x * b <= y * b
  {
  }

  /** A bound on a truncated quotient is a bound on the dividend. */
  lemma QuotientBounds(a: int, b: int, low: int)
    requires b > 0
    ensures low <= a / b <==> low * b <= a
  {
    var q := a / b;
    assert q * b <= a < q * b + b;
    if low <= q {
      TimesGrows(low, q, b);
    } else {
      TimesGrows(q + 1, low, b);
      assert (q + 1) * b == q * b + b;
    }
  }

  lemma AverageWithinBounds(s: HourlyStatistics, low: int, high: int)
    requires s.total != 0
    ensures low <= Average(s) <= high <==> WithinBounds(s, low, high)
  {
    QuotientBounds(s.responseTime, s.total, low);
    QuotientBounds(s.responseTime, s.total, high + 1);
  }

  lemma BoundsAddUp(a: HourlyStatistics, b: HourlyStatistics, low: int, high: int)
    requires WithinBounds(a, low, high) && WithinBounds(b, low, high)
    ensures WithinBounds(Plus(a, b), low, high)
  {
    assert low * (a.total + b.total) == low * a.total + low * b.total;
    assert (high + 1) * (a.total + b.total) == (high + 1) * a.total + (high + 1) * b.total;
  }

  lemma {:induction false} SumWithinBounds(index: Index, k: int, n: nat, low: int, high: int)
    requires AveragesWithin(index, k, n, low, high)
    ensures WithinBounds(WalkSum(index, k, n), low, high)
  {
    if n == 0 {
    } else {
      SumWithinBounds(index, k, n - 1, low, high);
      var s := Lookup(index, k + n - 1);
      if s.total != 0 {
        AverageWithinBounds(s, low, high);
      }
      BoundsAddUp(WalkSum(index, k, n - 1), s, low, high);
    }
  }

  /** The overall average lies between the smallest and the largest hourly average, truncation included. */
  lemma OverallAverageIsBetween(index: Index, k: int, n: nat, low: int, high: int)
    requires AveragesWithin(index, k, n, low, high)
    requires WalkSum(index, k, n).total != 0
    ensures low <= Average(WalkSum(index, k, n)) <= high
  {
    SumWithinBounds(index, k, n, low, high);
    AverageWithinBounds(WalkSum(index, k, n), low, high);
  }

  // ---------------------------------------------------------------------------
  // The object the store updates in place

  class Uptime {
    var hourlyStatistics: Index

    constructor ()
      ensures hourlyStatistics == map[]
    {
      hourlyStatistics := map[];
    }

    /** Forgets the hours before the cut-off, in whatever order the map is walked. */
    method CleanUp(cutoff: int)
      modifies this
      ensures hourlyStatistics == Kept(old(hourlyStatistics), cutoff)
    {
      ghost var full := hourlyStatistics;
      var todo := hourlyStatistics.Keys;
      while todo != {}
        invariant todo <= hourlyStatistics.Keys <= full.Keys
        invariant forall h :: h in hourlyStatistics ==> hourlyStatistics[h] == full[h]
        invariant forall h :: h in full && h !in todo ==> (h in hourlyStatistics <==> h >= cutoff)
        decreases todo
      {
        var hour :| hour in todo;
        if cutoff > hour {
          hourlyStatistics := hourlyStatistics - {hour};
        }
        todo := todo - {hour};
      }
    }

    /** Adds a result to its hour; with too many hours, forgets those before the cut-off of the given clock. */
    method ProcessUptimeAfterResult(result: Result, now: int)
      modifies this
      ensures hourlyStatistics == AfterResult(old(hourlyStatistics), result, now)
    {
      var hour := HourOf(result.timestamp);
      if hour !in hourlyStatistics {
        hourlyStatistics := hourlyStatistics[hour := HourlyStatistics(0, 0, 0)];
      }
      if result.success {
        var s := hourlyStatistics[hour];
        hourlyStatistics := hourlyStatistics[hour := s.(successful := s.successful + 1)];
      }
      var s := hourlyStatistics[hour];
      hourlyStatistics := hourlyStatistics[hour := s.(total := s.total + 1)];
      s := hourlyStatistics[hour];
      hourlyStatistics := hourlyStatistics[hour := s.(responseTime := s.responseTime + result.duration / MILLISECOND)];
      HourOfIsNamed(result.timestamp);
      assert hourlyStatistics == Inserted(old(hourlyStatistics), SampleOf(result));
      if |hourlyStatistics| > CLEAN_UP_THRESHOLD {
        CleanUp(CutOff(now));
      }
    }

    /** The part of all executions in the hours walked that succeeded. */
    method GetUptime(from: int, to: int) returns (r: real)
      requires from <= to
      ensures r == UptimeOf(WalkSum(hourlyStatistics, Number(from), HoursWalked(from, to)))
    {
      var successful, total, current := 0, 0, from;
      ghost var i: nat := 0;
      while current <= to
        invariant current == from + i * HOUR && i <= HoursWalked(from, to)
        invariant successful == WalkSum(hourlyStatistics, Number(from), i).successful
        invariant total == WalkSum(hourlyStatistics, Number(from), i).total
      {
        var hour := HourOf(current);
        WalkStep(from, i);
        NotYetWalked(from, to, i);
        if hour in hourlyStatistics && hourlyStatistics[hour].total != 0 {
          successful := successful + hourlyStatistics[hour].successful;
          total := total + hourlyStatistics[hour].total;
        }
        current, i := current + HOUR, i + 1;
      }
      AllWalked(from, to, i);
      r := if total == 0 then 0.0 else successful as real / total as real;
    }

    /** The average response time, in milliseconds, over the hours walked. */
    method GetAverageResponseTime(from: int, to: int) returns (r: int)
      requires from <= to
      ensures var s := WalkSum(hourlyStatistics, Number(from), HoursWalked(from, to));
              r == if s.total == 0 then 0 else Average(s)
    {
      var responseTime, total, current := 0, 0, from;
      ghost var i: nat := 0;
      while current <= to
        invariant current == from + i * HOUR && i <= HoursWalked(from, to)
        invariant responseTime == WalkSum(hourlyStatistics, Number(from), i).responseTime
        invariant total == WalkSum(hourlyStatistics, Number(from), i).total
      {
        var hour := HourOf(current);
        WalkStep(from, i);
        NotYetWalked(from, to, i);
        if hour in hourlyStatistics && hourlyStatistics[hour].total != 0 {
          total := total + hourlyStatistics[hour].total;
          responseTime := responseTime + hourlyStatistics[hour].responseTime;
        }
        current, i := current + HOUR, i + 1;
      }
      AllWalked(from, to, i);
      ghost var s := WalkSum(hourlyStatistics, Number(from), i);
      assert total == s.total && responseTime == s.responseTime;
      r := if total == 0 then 0 else responseTime / total;
    }

    /** The average response time of each hour walked that has data. */
    method GetHourlyAverageResponseTimes(from: int, to: int) returns (averages: map<Hour, int>)
      requires from <= to
      ensures averages == HourlyAverages(hourlyStatistics, Number(from), WalkEnd(from, to))
    {
      averages := map[];
      var current := from;
      ghost var i: nat, k := 0, Number(from);
      assert HourlyAverages(hourlyStatistics, k, k).Keys == averages.Keys;
      while current <= to
        invariant current == from + i * HOUR && i <= HoursWalked(from, to)
        invariant averages == HourlyAverages(hourlyStatistics, k, k + i)
      {
        var hour := HourOf(current);
        WalkStep(from, i);
        NotYetWalked(from, to, i);
        OneMoreAverage(hourlyStatistics, k, k + i);
        if hour in hourlyStatistics && hourlyStatistics[hour].total != 0 {
          averages := averages[hour := Average(hourlyStatistics[hour])];
        }
        current, i := current + HOUR, i + 1;
      }
      AllWalked(from, to, i);
      WalkCoversTheRange(from, to);
    }
  }
}
