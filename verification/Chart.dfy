/**
 The response-time history served to the charts: the hours with data in the period
 asked for, padded with zeroes back to the start of the period, sorted, next to their
 averages.
 */
module Chart {
  import opened Durations
  import opened Prelude
  import opened Store
  import opened Uptime

  datatype Period = Days30 | Days7 | Hours24 | Unsupported

  datatype Response = BadPeriod | BadKey | UnknownEndpoint | Answer(timestamps: seq<int>, values: seq<int>)

  function DurationOf(p: Period): int {
    match p
    case Days30 => 30 * DAY
    case Days7 => 7 * DAY
    case _ => DAY
  }

  /** The start of the period, at an hour. */
  function PeriodStart(now: int, p: Period): int {
    Truncate(now) - DurationOf(p)
  }

  ghost predicate Increasing(s: seq<int>) {
    forall i, j :: 0 <= i < j < |s| ==> s[i] < s[j]
  }

  ghost predicate Sorted(s: seq<int>) {
    forall i, j :: 0 <= i <= j < |s| ==> s[i] <= s[j]
  }

  lemma SplicedContents(a: seq<int>, x: int, b: seq<int>)
    ensures multiset(a + [x] + b) == multiset(a + b) + multiset{x}
  {
  }

  lemma SortedConcat(a: seq<int>, b: seq<int>)
    requires Sorted(a) && Sorted(b)
    requires a != [] && b != [] ==> a[|a| - 1] <= b[0]
    ensures Sorted(a + b)
  {
  }

  lemma Spliced(s: seq<int>, k: nat, x: int)
    requires Sorted(s) && k <= |s|
    requires k > 0 ==> s[k - 1] <= x
    requires k < |s| ==> x <= s[k]
    ensures Sorted(s[..k] + [x] + s[k..])
  {
    SortedConcat(s[..k], [x]);
    SortedConcat(s[..k] + [x], s[k..]);
  }

  method InsertSorted(s: seq<int>, x: int) returns (r: seq<int>)
    requires Sorted(s)
    ensures Sorted(r) && multiset(r) == multiset(s) + multiset{x}
  {
    var k := |s|;
    while k > 0 && s[k - 1] > x
      invariant 0 <= k <= |s|
      invariant k < |s| ==> x < s[k]
    {
      k := k - 1;
    }
    r := s[..k] + [x] + s[k..];
    Spliced(s, k, x);
    SplicedContents(s[..k], x, s[k..]);
    assert s == s[..k] + s[k..];
  }

  /** `sort.Ints`. */
  method SortInts(s: seq<int>) returns (r: seq<int>)
    ensures Sorted(r) && multiset(r) == multiset(s)
  {
    r := [];
    for i := 0 to |s|
      invariant Sorted(r) && multiset(r) == multiset(s[..i])
    {
      r := InsertSorted(r, s[i]);
      assert s[..i + 1] == s[..i] + [s[i]];
    }
    assert s[..|s|] == s;
  }

  /** The hours a history shows: those with data, and all before the first of them back to `from`. */
  ghost predicate Wanted(averages: map<Hour, int>, from: Hour, t: int) {
    t % 3600 == 0 && (t in averages || (t >= from && forall h :: h in averages ==> t < h))
  }

  /** The average of an hour, 0 without data. */
  function ValueAt(averages: map<Hour, int>, t: int): int {
    if t % 3600 == 0 && t in averages then averages[t as Hour] else 0
  }

  ghost predicate Distinct(s: seq<int>) {
    forall i, j :: 0 <= i < j < |s| ==> s[i] != s[j]
  }

  ghost predicate Earliest(averages: map<Hour, int>, first: Hour) {
    first in averages && forall h :: h in averages ==> first <= h
  }

  /**
   Collects the hours with data, in whatever order the map is walked, and the earliest
   of them; 0 stands for none yet.
   */
  method CollectHours(averages: map<Hour, int>) returns (timestamps: seq<int>, earliest: Hour)
    requires averages != map[]
    requires forall h :: h in averages ==> h > 0
    ensures Distinct(timestamps) && forall t :: t in timestamps <==> t % 3600 == 0 && t in averages
    ensures Earliest(averages, earliest)
  {
    timestamps, earliest := [], 0;
    var todo := averages.Keys;
    while todo != {}
      invariant todo <= averages.Keys && Distinct(timestamps)
      invariant forall t :: t in timestamps <==> t % 3600 == 0 && t in averages && t !in todo
      invariant if todo == averages.Keys then earliest == 0
                else earliest in averages && forall h :: h in averages && h !in todo ==> earliest <= h
      decreases todo
    {
      var hour :| hour in todo;
      timestamps := timestamps + [hour];
      if earliest == 0 || hour < earliest {
        earliest := hour;
      }
      todo := todo - {hour};
    }
  }

  /** Pads back to `from`: one zero hour at a time, landing exactly on it because all hours are aligned. */
  method PadBack(averages: map<Hour, int>, hours: seq<int>, first: Hour, from: Hour) returns (timestamps: seq<int>)
    requires Earliest(averages, first) && from <= first
    requires Distinct(hours) && forall t :: t in hours <==> t % 3600 == 0 && t in averages
    ensures Distinct(timestamps) && forall t :: t in timestamps <==> Wanted(averages, from, t)
  {
    timestamps := hours;
    var earliest: Hour := first;
    while earliest > from
      invariant from <= earliest <= first && Distinct(timestamps)
      invariant forall t :: t in timestamps <==> t % 3600 == 0 && (t in averages || earliest <= t < first)
      decreases earliest - from
    {
      earliest := earliest - 3600;
      assert earliest !in averages && earliest !in timestamps;
      timestamps := timestamps + [earliest];
    }
  }

  lemma {:induction false} DistinctCounts(s: seq<int>, x: int)
    requires Distinct(s)
    ensures multiset(s)[x] <= 1
  {
    if s == [] {
    } else {
      var n := |s| - 1;
      DistinctCounts(s[..n], x);
      assert s == s[..n] + [s[n]];
      if s[n] == x {
        assert x !in s[..n];
      }
    }
  }

  lemma SortedDistinctIncreases(s: seq<int>, r: seq<int>)
    requires Distinct(s) && Sorted(r) && multiset(r) == multiset(s)
    ensures Increasing(r)
  {
    forall i, j | 0 <= i < j < |r|
      ensures r[i] < r[j]
    {
      if r[i] == r[j] {
        assert r == r[..i] + [r[i]] + r[i + 1..j] + [r[j]] + r[j + 1..];
        assert multiset(r)[r[i]] >= 2;
        DistinctCounts(s, r[i]);
      }
    }
  }

  /** Every wanted hour once, in order, starting at `from`, next to its average. */
  ghost predicate IsPadded(timestamps: seq<int>, values: seq<int>, averages: map<Hour, int>, from: Hour) {
    Increasing(timestamps) && timestamps != [] && timestamps[0] == from &&
    (forall t :: t in timestamps <==> Wanted(averages, from, t)) &&
    |values| == |timestamps| && forall i :: 0 <= i < |values| ==> values[i] == ValueAt(averages, timestamps[i])
  }

  /** The timestamps in seconds and the averages, for at least one hour with data. */
  method PadAndSort(averages: map<Hour, int>, from: Hour) returns (timestamps: seq<int>, values: seq<int>)
    requires averages != map[] && from > 0
    requires forall h :: h in averages ==> h >= from
    ensures IsPadded(timestamps, values, averages, from)
  {
    var hours, first := CollectHours(averages);
    var all := PadBack(averages, hours, first, from);
    timestamps := SortInts(all);
    SortedDistinctIncreases(all, timestamps);
    forall t
      ensures t in timestamps <==> t in all
    {
      assert t in timestamps <==> t in multiset(timestamps);
      assert t in all <==> t in multiset(all);
    }
    assert Wanted(averages, from, from);
    assert from in timestamps && Wanted(averages, from, timestamps[0]);
    values := [];
    for i := 0 to |timestamps|
      invariant |values| == i
      invariant forall k :: 0 <= k < i ==> values[k] == ValueAt(averages, timestamps[k])
    {
      values := values + [ValueAt(averages, timestamps[i])];
    }
  }

  /** A period starts at the full hour at which, or during the hour after which, it is exactly its days ago. */
  lemma PeriodStartsDaysAgo(now: int)
    ensures var h, d := 3_600_000_000_000, 86_400_000_000_000;
            PeriodStart(now, Days30) % h == 0 &&
              PeriodStart(now, Days30) <= now - 30 * d < PeriodStart(now, Days30) + h &&
            PeriodStart(now, Days7) % h == 0 && PeriodStart(now, Days7) <= now - 7 * d < PeriodStart(now, Days7) + h &&
            PeriodStart(now, Hours24) % h == 0 && PeriodStart(now, Hours24) <= now - d < PeriodStart(now, Hours24) + h
  {
    assert Truncate(now) == Number(now) * HOUR;
  }

  lemma PeriodStartsAtAnHour(now: int, period: Period)
    ensures var from := PeriodStart(now, period);
            from % HOUR == 0 && HourOf(from) == Name(Number(from)) && HourOf(from) * SECOND == from && from <= now
  {
    assert Truncate(now) == Number(now) * HOUR;
  }

  /** A clean-up at `later` keeps the first hour of a period exactly when it comes soon enough after its start. */
  lemma PeriodIsKept(now: int, period: Period, later: int)
    ensures HourOf(PeriodStart(now, period)) >= CutOff(later) <==>
            later < PeriodStart(now, period) + RETENTION + HOUR + SECOND
  {
    PeriodStartsAtAnHour(now, period);
  }

  /** For the longest period that means: before the first second of the next hour is over. */
  lemma LongestPeriodIsKept(now: int, later: int)
    ensures HourOf(PeriodStart(now, Days30)) >= CutOff(later) <==> later < Truncate(now) + HOUR + SECOND
  {
    PeriodIsKept(now, Days30, later);
  }

  /** Asked for just before an hour, and cleaned up a second into it, the longest period loses its first hour. */
  lemma PeriodCanBeLost(hour: int)
    ensures var now, later := hour * HOUR - 1, hour * HOUR + SECOND;
            HourOf(PeriodStart(now, Days30)) < CutOff(later)
  {
    var now := hour * HOUR - 1;
    assert now / HOUR == hour - 1;
    assert Truncate(now) == (hour - 1) * HOUR;
    LongestPeriodIsKept(now, hour * HOUR + SECOND);
  }

  /** Any insert at that moment that cleans up takes the first hour of the period out of the index. */
  lemma FirstHourIsTaken(hour: int, inserts: seq<Insert>, x: Insert)
    requires x.now == hour * HOUR + SECOND
    requires |Inserted(IndexAfter(inserts), SampleOf(x.result))| > CLEAN_UP_THRESHOLD
    ensures HourOf(PeriodStart(hour * HOUR - 1, Days30)) !in IndexAfter(inserts + [x])
  {
    PeriodCanBeLost(hour);
    assert (inserts + [x])[..|inserts|] == inserts;
  }

  function AtHour(hour: int): Insert {
    Insert(Result(hour * HOUR, true, 0), hour * HOUR)
  }

  /** One result in each of the `n` hours from hour number `first` on, inserted as it is stamped. */
  function OneEachHour(first: int, n: nat): seq<Insert> {
    seq(n, k requires 0 <= k < n => AtHour(first + k))
  }

  ghost predicate HoldsHoursBefore(index: Index, hour: int, n: nat) {
    |index| == n && forall h :: h in index ==> h < Name(hour)
  }

  /** A sample of a new hour makes the index larger by one. */
  lemma NewHourCounts(index: Index, x: Sample, n: nat)
    requires HoldsHoursBefore(index, x.hour, n)
    ensures HoldsHoursBefore(Inserted(index, x), x.hour + 1, n + 1)
  {
    assert Name(x.hour) !in index;
  }

  lemma IndexOfLonger(inserts: seq<Insert>, x: Insert, n: nat)
    requires HoldsHoursBefore(IndexAfter(inserts), SampleOf(x.result).hour, n) && n < CLEAN_UP_THRESHOLD
    ensures HoldsHoursBefore(IndexAfter(inserts + [x]), SampleOf(x.result).hour + 1, n + 1)
  {
    NewHourCounts(IndexAfter(inserts), SampleOf(x.result), n);
    assert (inserts + [x])[..|inserts|] == inserts;
  }

  ghost predicate EachHourFrom(inserts: seq<Insert>, first: int) {
    forall k :: 0 <= k < |inserts| ==> SampleOf(inserts[k].result).hour == first + k
  }

  lemma {:induction false} IndexOfEachHour(inserts: seq<Insert>, first: int)
    requires |inserts| <= CLEAN_UP_THRESHOLD && EachHourFrom(inserts, first)
    ensures HoldsHoursBefore(IndexAfter(inserts), first + |inserts|, |inserts|)
  {
    if inserts == [] {
    } else {
      var n := |inserts| - 1;
      IndexOfEachHour(inserts[..n], first);
      IndexOfLonger(inserts[..n], inserts[n], n);
      assert inserts == inserts[..n] + [inserts[n]];
    }
  }

  lemma HourStamped(hour: int)
    ensures SampleOf(AtHour(hour).result) == Sample(hour, true, 0)
  {
  }

  lemma OneEachHourIsStamped(first: int, n: nat)
    ensures EachHourFrom(OneEachHour(first, n), first)
  {
    forall k | 0 <= k < n
      ensures SampleOf(OneEachHour(first, n)[k].result).hour == first + k
    {
      HourStamped(first + k);
    }
  }

  lemma {:induction false} TallyOfSome(history: seq<Sample>, i: nat, lo: int, hi: int)
    requires i < |history| && lo <= history[i].hour < hi
    ensures Tally(history, lo, hi).total > 0
  {
    var n := |history| - 1;
    assert Tally(history, lo, hi) == PlusWithin(Tally(history[..n], lo, hi), history[n], lo, hi);
    if i < n {
      TallyOfSome(history[..n], i, lo, hi);
    }
  }

  /** A result of an hour that is inserted a second into it. */
  function LateInHour(hour: int): Insert {
    AtHour(hour).(now := hour * HOUR + SECOND)
  }

  /** One result in each of 768 hours, and one a second into the next. */
  function UntilLost(hour: int): seq<Insert> {
    OneEachHour(hour - 768, 768) + [LateInHour(hour)]
  }

  lemma FirstHourNumber(hour: int)
    ensures Number(PeriodStart(hour * HOUR - 1, Days30)) == hour - 721
    ensures HourOf(PeriodStart(hour * HOUR - 1, Days30)) == Name(hour - 721)
  {
    assert (hour * HOUR - 1) / HOUR == hour - 1;
    assert Truncate(hour * HOUR - 1) == (hour - 1) * HOUR;
    assert PeriodStart(hour * HOUR - 1, Days30) == (hour - 721) * HOUR;
    HourOfIsNamed(PeriodStart(hour * HOUR - 1, Days30));
  }

  lemma FirstHourHadResult(hour: int)
    ensures Tally(History(UntilLost(hour)), hour - 721, hour - 720).total > 0
  {
    var inserts := UntilLost(hour);
    assert inserts[47] == OneEachHour(hour - 768, 768)[47] == AtHour(hour - 721);
    HourStamped(hour - 721);
    assert History(inserts)[47] == SampleOf(AtHour(hour - 721).result);
    TallyOfSome(History(inserts), 47, hour - 721, hour - 720);
  }

  lemma AverageIsMissing(index: Index, inserts: seq<Insert>, from: int, to: int)
    requires from < to && Name(from) !in index && Tally(History(inserts), from, from + 1).total > 0
    ensures !AveragesOfResults(HourlyAverages(index, from, to), inserts, from * 3_600_000_000_000,
            to * 3_600_000_000_000)
  {
    TallyCounts(inserts, from, from + 1);
    assert (from + 1) * 3_600_000_000_000 == from * 3_600_000_000_000 + 3_600_000_000_000;
    assert Name(from) * 1_000_000_000 == from * 3_600_000_000_000;
    assert !AverageOfResults(HourlyAverages(index, from, to), inserts, Name(from));
  }

  lemma UntilLostIsOrderly(hour: int)
    ensures MonotoneClock(UntilLost(hour), hour * HOUR + SECOND) && StampedByThen(UntilLost(hour))
  {
    var inserts := UntilLost(hour);
    assert forall k :: 0 <= k < 768 ==> inserts[k] == AtHour(hour - 768 + k);
  }

  lemma GoneAfter(inserts: seq<Insert>, x: Insert, hour: int)
    requires HoldsHoursBefore(IndexAfter(inserts), hour, 768)
    requires SampleOf(x.result).hour == hour && x.now == hour * HOUR + SECOND
    ensures HourOf(PeriodStart(hour * HOUR - 1, Days30)) !in IndexAfter(inserts + [x])
  {
    NewHourCounts(IndexAfter(inserts), SampleOf(x.result), 768);
    FirstHourIsTaken(hour, inserts, x);
  }

  lemma FirstHourIsGone(hour: int)
    ensures Name(hour - 721) !in IndexAfter(UntilLost(hour))
  {
    OneEachHourIsStamped(hour - 768, 768);
    IndexOfEachHour(OneEachHour(hour - 768, 768), hour - 768);
    HourStamped(hour);
    FirstHourNumber(hour);
    GoneAfter(OneEachHour(hour - 768, 768), LateInHour(hour), hour);
  }

  /**
   So there is a history, of one result in each of 769 hours, after which the averages
   of the period that was asked for just before the last hour are not those of the
   history: its first hour has a result, and no average.
   */
  lemma PeriodIsLost(hour: int)
    ensures var from, to := Number(PeriodStart(hour * HOUR - 1, Days30)), hour + 1;
            var inserts := UntilLost(hour);
            MonotoneClock(inserts, hour * HOUR + SECOND) && StampedByThen(inserts) &&
            var averages := HourlyAverages(IndexAfter(inserts), from, to);
            !AveragesOfResults(averages, inserts, from * 3_600_000_000_000, to * 3_600_000_000_000)
  {
    FirstHourNumber(hour);
    FirstHourHadResult(hour);
    FirstHourIsGone(hour);
    AverageIsMissing(IndexAfter(UntilLost(hour)), UntilLost(hour), hour - 721, hour + 1);
    UntilLostIsOrderly(hour);
  }

  function InMilliseconds(timestamps: seq<int>): seq<int> {
    seq(|timestamps|, i requires 0 <= i < |timestamps| => timestamps[i] * 1000)
  }

  ghost predicate IsHistory(r: Response, averages: map<Hour, int>, from: Hour)
    requires r.Answer?
  {
    if averages == map[] then r == Answer([], [])
    else
      exists timestamps ::
        IsPadded(timestamps, r.values, averages, from) && r.timestamps == InMilliseconds(timestamps)
  }

  lemma ShownInMilliseconds(timestamps: seq<int>, t: int)
    ensures 1000 * t in InMilliseconds(timestamps) <==> t in timestamps
  {
    var r := InMilliseconds(timestamps);
    if t in timestamps {
      var i :| 0 <= i < |timestamps| && timestamps[i] == t;
      assert r[i] == 1000 * t;
    }
    if 1000 * t in r {
      var i :| 0 <= i < |r| && r[i] == 1000 * t;
      assert timestamps[i] == t;
    }
  }

  lemma MillisecondsIncrease(timestamps: seq<int>)
    requires Increasing(timestamps)
    ensures Increasing(InMilliseconds(timestamps))
  {
  }

  predicate AnswersAt(averages: map<Hour, int>, t: int, value: int) {
    t % 3600 == 0 && if t in averages then value == averages[t as Hour] else value == 0
  }

  lemma ValueOfWanted(averages: map<Hour, int>, from: Hour, t: int)
    requires Wanted(averages, from, t)
    ensures 1000 * t % 3_600_000 == 0 && AnswersAt(averages, 1000 * t / 1000, ValueAt(averages, t))
  {
  }

  /** The hours that are shown: those with an average, and those from the start up to the first of them. */
  ghost predicate ShowsTheHours(timestamps: seq<int>, averages: map<Hour, int>, from: Hour) {
    forall h: Hour :: 1000 * h in timestamps <==>
      h in averages || (from <= h && forall other :: other in averages ==> h < other)
  }

  /** Every time that is shown is an hour, and next to it is its average, or 0. */
  ghost predicate ShowsTheAverages(timestamps: seq<int>, values: seq<int>, averages: map<Hour, int>) {
    |values| == |timestamps| &&
    forall i :: 0 <= i < |timestamps| ==>
      timestamps[i] % 3_600_000 == 0 && AnswersAt(averages, timestamps[i] / 1000, values[i])
  }

  lemma ShownAt(timestamps: seq<int>, values: seq<int>, averages: map<Hour, int>, from: Hour, i: nat)
    requires IsPadded(timestamps, values, averages, from) && i < |timestamps|
    ensures var t := InMilliseconds(timestamps)[i];
            t % 3_600_000 == 0 && AnswersAt(averages, t / 1000, values[i])
  {
    assert timestamps[i] in timestamps;
    ValueOfWanted(averages, from, timestamps[i]);
  }

  /** What an answer says, in its own terms: its times increase strictly, with the right hours and averages. */
  lemma HistorySays(r: Response, averages: map<Hour, int>, from: Hour)
    requires r.Answer? && IsHistory(r, averages, from) && averages != map[]
    ensures Increasing(r.timestamps) && ShowsTheHours(r.timestamps, averages, from)
    ensures ShowsTheAverages(r.timestamps, r.values, averages)
  {
    var timestamps :| IsPadded(timestamps, r.values, averages, from) && r.timestamps == InMilliseconds(timestamps);
    MillisecondsIncrease(timestamps);
    forall h: Hour
      ensures 1000 * h in r.timestamps <==>
              h in averages || (from <= h && forall other :: other in averages ==> h < other)
    {
      ShownInMilliseconds(timestamps, h);
      assert h in timestamps <==> Wanted(averages, from, h);
    }
    forall i | 0 <= i < |r.timestamps|
      ensures r.timestamps[i] % 3_600_000 == 0 && AnswersAt(averages, r.timestamps[i] / 1000, r.values[i])
    {
      ShownAt(timestamps, r.values, averages, from, i);
    }
  }

  /** What the answer is made of, once there are hours with data. */
  method ShowHistory(averages: map<Hour, int>, from: Hour) returns (r: Response)
    requires from > 0 && forall h :: h in averages ==> from <= h
    ensures r.Answer? && IsHistory(r, averages, from)
  {
    if averages.Keys == {} {
      return Answer([], []);
    }
    var timestamps, values := PadAndSort(averages, from);
    r := Answer(InMilliseconds(timestamps), values);
    assert IsPadded(timestamps, r.values, averages, from) && r.timestamps == InMilliseconds(timestamps);
  }

  /**
   The whole answer: milliseconds timestamps that increase strictly, start exactly at
   the start of the period, show every hour of the period with data once with its
   average, and every hour before the first of those once with 0.  The averages are
   those of all results ever inserted, as long as the store's clock, when it answers,
   has not passed the moment from which on clean-up may take the first hour.
   `decoded` is the key of the request, unless its encoding is invalid.
   */
  method ResponseTimeHistory(
      store: Store, decoded: Option<string>, period: Period, now: int, later: int, ghost clock: int)
    returns (r: Response)
    requires store.Valid() && now <= later && PeriodStart(now, period) > 0
    ensures r == BadPeriod <==> period == Unsupported
    ensures r == BadKey <==> period != Unsupported && decoded.None?
    ensures r == UnknownEndpoint <==>
            period != Unsupported && decoded.Some? && decoded.value !in store.endpointCache
    ensures r.Answer? ==>
              var key := decoded.value;
              var from, to := PeriodStart(now, period), Number(later) + 1;
              var averages := HourlyAverages(IndexAfter(store.InsertsOf(key)), Number(from), to);
              IsHistory(r, averages, HourOf(from)) &&
              (MonotoneClock(store.InsertsOf(key), clock) && clock < from + RETENTION + HOUR + SECOND ==>
                 AveragesOfResults(averages, store.InsertsOf(key), from, LastHourEnd(from, later)))
  {
    if period == Unsupported {
      return BadPeriod;
    }
    if decoded.None? {
      return BadKey;
    }
    var key, from := decoded.value, PeriodStart(now, period);
    PeriodStartsAtAnHour(now, period);
    PeriodIsKept(now, period, clock);
    var found := store.GetHourlyAverageResponseTimeByKey(key, from, later, clock);
    if found.EndpointNotFound? {
      return UnknownEndpoint;
    }
    r := ShowHistory(found.value, HourOf(from));
  }
}
