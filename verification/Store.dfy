/**
 The in-memory store: per endpoint a bounded window of results, a bounded window of
 events and the uptime index, updated in place; pages handed out share the arrays
 with the live windows.
 */
module Store {
  import opened Prelude
  import opened Slices
  import opened Uptime
  import opened Window

  datatype PagingParams = PagingParams(eventsPage: int, eventsPageSize: int, resultsPage: int, resultsPageSize: int)

  /** What a shallow copy hands out; its uptime is always empty. */
  datatype StatusCopy = StatusCopy(results: Slice<Result>, events: Slice<Event>)

  /** What a status holds at some time. */
  datatype Shot = Shot(window: Window, index: Index)

  function NextShot(s: Shot, x: Insert, maxResults: nat, maxEvents: nat): Shot {
    Shot(Add(s.window, x.result, maxResults, maxEvents), AfterResult(s.index, x.result, x.now))
  }

  /** What a status held at the start, and after each insert. */
  ghost predicate Traced(trace: seq<Shot>, inserts: seq<Insert>, start: int, maxResults: nat, maxEvents: nat) {
    |trace| == |inserts| + 1 && trace[0] == Shot(Window([], [Event(Start, start)]), map[]) &&
    forall k :: 0 <= k < |inserts| ==> trace[k + 1] == NextShot(trace[k], inserts[k], maxResults, maxEvents)
  }

  function Results(inserts: seq<Insert>): seq<Result> {
    seq(|inserts|, i requires 0 <= i < |inserts| => inserts[i].result)
  }

  lemma TraceGrows(
      trace: seq<Shot>, inserts: seq<Insert>, start: int, maxResults: nat, maxEvents: nat, x: Insert)
    requires Traced(trace, inserts, start, maxResults, maxEvents)
    ensures var longer := trace + [NextShot(trace[|inserts|], x, maxResults, maxEvents)];
            Traced(longer, inserts + [x], start, maxResults, maxEvents)
  {
    var longer := trace + [NextShot(trace[|inserts|], x, maxResults, maxEvents)];
    forall k | 0 <= k < |inserts + [x]|
      ensures longer[k + 1] == NextShot(longer[k], (inserts + [x])[k], maxResults, maxEvents)
    {
      if k < |inserts| {
        assert longer[k] == trace[k] && longer[k + 1] == trace[k + 1];
      }
    }
  }

  /** The last shot is what the whole history of inserts leads to. */
  lemma {:induction false} TraceEndsWithHistory(
      trace: seq<Shot>, inserts: seq<Insert>, start: int, maxResults: nat, maxEvents: nat)
    requires Traced(trace, inserts, start, maxResults, maxEvents)
    ensures trace[|inserts|] == Shot(WindowAfter(start, Results(inserts), maxResults, maxEvents), IndexAfter(inserts))
  {
    if inserts == [] {
    } else {
      var n := |inserts| - 1;
      TraceEndsWithHistory(trace[..n + 1], inserts[..n], start, maxResults, maxEvents);
      assert Results(inserts)[..n] == Results(inserts[..n]);
      assert trace[n] == trace[..n + 1][n];
    }
  }

  class Status {
    var results: Slice<Result>
    var events: Slice<Event>
    const uptime: Uptime

    // what happened to this endpoint, and what it showed from time to time, for the specification
    ghost const start: int
    ghost const maxResults: nat
    ghost const maxEvents: nat
    ghost var inserts: seq<Insert>
    ghost var trace: seq<Shot>
    ghost var repr: set<object>

    ghost function Windows(): Window
      requires results.Fits() && events.Fits()
      reads this, results.a, events.a
    {
      Window(results.View(), events.View())
    }

    ghost predicate Valid()
      reads this, repr
    {
      this in repr && results.a in repr && events.a in repr && uptime in repr &&
      results.Fits() && events.Fits() && results.a as object != events.a &&
      Traced(trace, inserts, start, maxResults, maxEvents) &&
      Windows() == trace[|inserts|].window && uptime.hourlyStatistics == trace[|inserts|].index
    }

    /** A new endpoint, with its start event; `spare` is the room the runtime leaves for more events. */
    constructor (now: int, spare: nat, ghost maxResults: nat, ghost maxEvents: nat)
      ensures Valid() && fresh(repr) && inserts == []
      ensures start == now && this.maxResults == maxResults && this.maxEvents == maxEvents
    {
      var noResults := new Result[0];
      var noEvents := new Event[0];
      var first := Append(Slice(noEvents, 0, 0), Event(Start, now), spare);
      results := Slice(noResults, 0, 0);
      events := first;
      uptime := new Uptime();
      start, inserts, trace := now, [], [Shot(Window([], [Event(Start, now)]), map[])];
      this.maxResults, this.maxEvents := maxResults, maxEvents;
      repr := {this, noResults, first.a, uptime};
    }

    /** The windows and the index are those that the whole history of inserts leads to. */
    lemma TellsHistory()
      requires Valid()
      ensures Windows() == WindowAfter(start, Results(inserts), maxResults, maxEvents)
      ensures uptime.hourlyStatistics == IndexAfter(inserts)
    {
      TraceEndsWithHistory(trace, inserts, start, maxResults, maxEvents);
    }

    /** The part of `AddResult` that records a change of health. */
    method AddEvent(result: Result, maximumNumberOfEvents: nat, spare: nat)
      requires results.Fits() && events.Fits() && results.a as object != events.a
      modifies this`events, events.a
      ensures results.Fits() && events.Fits() && Extended(old(events), events)
      ensures Windows() == old(Windows()).(events := EventsAfter(old(Windows()), result, maximumNumberOfEvents))
    {
      ghost var w := Windows();
      if results.len > 0 {
        var last := results.a[results.off + results.len - 1];
        assert last == w.results[|w.results| - 1];
        if last.success != result.success {
          events := AppendTrimmed(events, EventOf(result), spare, maximumNumberOfEvents);
        }
      } else {
        events := Append(events, EventOf(result), spare);
      }
      assert events.View() == EventsAfter(w, result, maximumNumberOfEvents);
      assert results.View() == w.results;
    }

    /** The part of `AddResult` that is about the two windows. */
    method AddToWindows(result: Result, maximumNumberOfResults: nat, maximumNumberOfEvents: nat, spare: (nat, nat))
      requires results.Fits() && events.Fits() && results.a as object != events.a
      modifies this`results, this`events, results.a, events.a
      ensures results.Fits() && events.Fits() && results.a as object != events.a
      ensures Windows() == Add(old(Windows()), result, maximumNumberOfResults, maximumNumberOfEvents)
      ensures Extended(old(results), results) && Extended(old(events), events)
    {
      AddEvent(result, maximumNumberOfEvents, spare.0);
      ghost var shown := events.View();
      results := AppendTrimmed(results, result, spare.1, maximumNumberOfResults);
      assert events.View() == shown;
    }

    /** `AddResult`; the clock is read once, for the clean-up of the uptime index. */
    method AddResult(
        result: Result, maximumNumberOfResults: nat, maximumNumberOfEvents: nat, now: int, spare: (nat, nat))
      requires Valid() && maxResults == maximumNumberOfResults && maxEvents == maximumNumberOfEvents
      modifies this, results.a, events.a, uptime
      ensures Valid() && inserts == old(inserts) + [Insert(result, now)] && fresh(repr - old(repr))
      ensures Windows() == Add(old(Windows()), result, maximumNumberOfResults, maximumNumberOfEvents)
      ensures Extended(old(results), results) && Extended(old(events), events)
    {
      AddToWindows(result, maximumNumberOfResults, maximumNumberOfEvents, spare);
      uptime.ProcessUptimeAfterResult(result, now);
      TraceGrows(trace, inserts, start, maxResults, maxEvents, Insert(result, now));
      trace := trace + [NextShot(trace[|inserts|], Insert(result, now), maxResults, maxEvents)];
      inserts, repr := inserts + [Insert(result, now)], repr + {results.a, events.a};
    }
  }

  // ---------------------------------------------------------------------------
  // Copies handed out

  /** What a shallow copy shows of the windows. */
  function Shown(w: Window, params: Option<PagingParams>): Window {
    if params.None? || params.value == PagingParams(0, 0, 0, 0) then w
    else Window(Page(w.results, params.value.resultsPage, params.value.resultsPageSize),
                Page(w.events, params.value.eventsPage, params.value.eventsPageSize))
  }

  /** Without numbers a copy shows everything; otherwise each window is cut by its own page and size. */
  lemma ShownByParams(w: Window, params: Option<PagingParams>)
    ensures params == None ==> Shown(w, params) == w
    ensures params == Some(PagingParams(0, 0, 0, 0)) ==> Shown(w, params) == w
    ensures params.Some? && params.value != PagingParams(0, 0, 0, 0) ==>
              Shown(w, params).results == Page(w.results, params.value.resultsPage, params.value.resultsPageSize) &&
              Shown(w, params).events == Page(w.events, params.value.eventsPage, params.value.eventsPageSize)
  {
  }

  method PageOf<X(0)>(s: Slice<X>, page: int, pageSize: int) returns (r: Slice<X>)
    requires s.Fits()
    ensures r.Fits() && r.View() == Page(s.View(), page, pageSize)
    ensures fresh(r.a) || IsPartOf(r, s)
  {
    PageIsWithin(s.len, page, pageSize);
    var (start, end) := GetStartAndEndIndex(s.len, page, pageSize);
    PageBetween(s.View(), page, pageSize, start, end);
    if start < 0 || end < 0 {
      var empty := new X[0];
      r := Slice(empty, 0, 0);
    } else {
      r := s.Sub(start, end);
      SubView(s, start, end);
    }
  }

  /** Copies the status; the slices of the copy are views of the live arrays. */
  method ShallowCopyEndpointStatus(ss: Status, params: Option<PagingParams>) returns (copy: StatusCopy)
    requires ss.Valid()
    ensures copy.results.Fits() && copy.events.Fits()
    ensures Window(copy.results.View(), copy.events.View()) == Shown(ss.Windows(), params)
    ensures fresh(copy.results.a) || IsPartOf(copy.results, ss.results)
    ensures fresh(copy.events.a) || IsPartOf(copy.events, ss.events)
  {
    if params.None? || params.value == PagingParams(0, 0, 0, 0) {
      return StatusCopy(ss.results, ss.events);
    }
    var results := PageOf(ss.results, params.value.resultsPage, params.value.resultsPageSize);
    var events := PageOf(ss.events, params.value.eventsPage, params.value.eventsPageSize);
    copy := StatusCopy(results, events);
  }

  /** What is done to an endpoint's status over time. */
  datatype Op = AddOne(result: Result, now: int, spare: (nat, nat)) | Copy(params: Option<PagingParams>)

  function WindowAfterOp(w: Window, op: Op, maxResults: nat, maxEvents: nat): Window {
    if op.AddOne? then Add(w, op.result, maxResults, maxEvents) else w
  }

  function ShownBy(w: Window, op: Op): seq<Window> {
    if op.Copy? then [Shown(w, op.params)] else []
  }

  /** What each copy showed when it was handed out. */
  function ShownOverTime(w: Window, ops: seq<Op>, maxResults: nat, maxEvents: nat): seq<Window>
    decreases ops
  {
    if ops == [] then []
    else ShownBy(w, ops[0]) +
         ShownOverTime(WindowAfterOp(w, ops[0], maxResults, maxEvents), ops[1..], maxResults, maxEvents)
  }

  /** The copy is out of reach of later additions to the status. */
  ghost predicate OutOfReach(copy: StatusCopy, ss: Status)
    reads ss
  {
    copy.results.a as object != ss.events.a && copy.events.a as object != ss.results.a &&
    Protected(copy.results, ss.results) && Protected(copy.events, ss.events)
  }

  ghost predicate Shows(copy: StatusCopy, w: Window)
    reads copy.results.a, copy.events.a
  {
    copy.results.Fits() && copy.events.Fits() && Window(copy.results.View(), copy.events.View()) == w
  }

  /** All copies show what they should, out of reach of the status. */
  ghost predicate CopiesShow(copies: seq<StatusCopy>, shown: seq<Window>, ss: Status)
    reads ss, set c | c in copies :: c.results.a, set c | c in copies :: c.events.a
  {
    |copies| == |shown| && forall i :: 0 <= i < |copies| ==> OutOfReach(copies[i], ss) && Shows(copies[i], shown[i])
  }

  /** Adding a result leaves earlier copies as they are, and out of reach. */
  method AddBeside(
      ss: Status, op: Op, maxResults: nat, maxEvents: nat, ghost copies: seq<StatusCopy>,
      ghost shown: seq<Window>)
    requires op.AddOne? && ss.Valid() && ss.maxResults == maxResults && ss.maxEvents == maxEvents
    requires CopiesShow(copies, shown, ss)
    modifies ss, ss.results.a, ss.events.a, ss.uptime
    ensures ss.Valid() && Extended(old(ss.results), ss.results) && Extended(old(ss.events), ss.events)
    ensures ss.Windows() == Add(old(ss.Windows()), op.result, maxResults, maxEvents)
    ensures CopiesShow(copies, shown, ss)
  {
    ss.AddResult(op.result, maxResults, maxEvents, op.now, op.spare);
    forall i | 0 <= i < |copies|
      ensures OutOfReach(copies[i], ss) && Shows(copies[i], shown[i])
    {
      assert copies[i].results.View() == old(copies[i].results.View());
      assert copies[i].events.View() == old(copies[i].events.View());
    }
  }

  /** One operation changes neither what an earlier copy shows nor that it is out of reach. */
  method Perform(ss: Status, op: Op, maxResults: nat, maxEvents: nat, copies: seq<StatusCopy>, ghost shown: seq<Window>)
    returns (copies2: seq<StatusCopy>)
    requires ss.Valid() && ss.maxResults == maxResults && ss.maxEvents == maxEvents
    requires CopiesShow(copies, shown, ss)
    modifies ss, ss.results.a, ss.events.a, ss.uptime
    ensures ss.Valid() && Extended(old(ss.results), ss.results) && Extended(old(ss.events), ss.events)
    ensures ss.Windows() == WindowAfterOp(old(ss.Windows()), op, maxResults, maxEvents)
    ensures CopiesShow(copies2, shown + ShownBy(old(ss.Windows()), op), ss)
  {
    copies2 := copies;
    if op.AddOne? {
      AddBeside(ss, op, maxResults, maxEvents, copies, shown);
    } else {
      var copy := ShallowCopyEndpointStatus(ss, op.params);
      copies2 := copies2 + [copy];
    }
  }

  lemma ShownOverTimeUnrolls(before: seq<Window>, w: Window, ops: seq<Op>, i: nat, maxResults: nat, maxEvents: nat)
    requires i < |ops|
    ensures before + ShownOverTime(w, ops[i..], maxResults, maxEvents) ==
            (before + ShownBy(w, ops[i])) +
              ShownOverTime(WindowAfterOp(w, ops[i], maxResults, maxEvents), ops[i + 1..], maxResults, maxEvents)
  {
    assert ops[i..][0] == ops[i] && ops[i..][1..] == ops[i + 1..];
  }

  /**
   Snapshot stability: whatever is added later, and however the arrays grow, every
   copy still shows what it showed when it was handed out.
   */
  method CopiesStayAsTheyWere(ss: Status, ops: seq<Op>, maxResults: nat, maxEvents: nat)
    returns (copies: seq<StatusCopy>)
    requires ss.Valid() && ss.maxResults == maxResults && ss.maxEvents == maxEvents
    modifies ss, ss.results.a, ss.events.a, ss.uptime
    ensures var shown := ShownOverTime(old(ss.Windows()), ops, maxResults, maxEvents);
            |copies| == |shown| && forall i :: 0 <= i < |copies| ==> Shows(copies[i], shown[i])
  {
    copies := [];
    ghost var shown := [];
    for i := 0 to |ops|
      invariant ss.Valid()
      invariant ss.results.a == old(ss.results.a) || fresh(ss.results.a)
      invariant ss.events.a == old(ss.events.a) || fresh(ss.events.a)
      invariant CopiesShow(copies, shown, ss)
      invariant shown + ShownOverTime(ss.Windows(), ops[i..], maxResults, maxEvents) ==
                ShownOverTime(old(ss.Windows()), ops, maxResults, maxEvents)
    {
      ghost var w := ss.Windows();
      ShownOverTimeUnrolls(shown, w, ops, i, maxResults, maxEvents);
      copies := Perform(ss, ops[i], maxResults, maxEvents, copies, shown);
      shown := shown + ShownBy(w, ops[i]);
    }
  }

  // ---------------------------------------------------------------------------
  // Suites keep a window of results only

  class SuiteStatus<R(0)> {
    var results: Slice<R>
    ghost const maxResults: nat
    ghost var inserted: seq<R>

    /** The newest results ever inserted, as many as the store keeps. */
    ghost predicate Valid()
      reads this, results.a
    {
      results.Fits() && results.View() == Suffix(inserted, maxResults)
    }

    constructor (ghost maxResults: nat)
      ensures Valid() && inserted == [] && this.maxResults == maxResults && fresh(results.a)
    {
      var none := new R[0];
      results := Slice(none, 0, 0);
      this.maxResults, inserted := maxResults, [];
    }

    method InsertSuiteResult(result: R, maximumNumberOfResults: nat, spare: nat)
      requires Valid() && maxResults == maximumNumberOfResults
      modifies this, results.a
      ensures Valid() && inserted == old(inserted) + [result] && Extended(old(results), results)
    {
      results := AppendTrimmed(results, result, spare, maximumNumberOfResults);
      SuffixOfLonger(inserted, result, maxResults);
      inserted := inserted + [result];
    }
  }

  datatype SuitePagingParams = SuitePagingParams(page: int, pageSize: int)

  function SuiteShown<R>(results: seq<R>, params: Option<SuitePagingParams>): seq<R> {
    if params.None? || params.value == SuitePagingParams(0, 0) then results
    else Page(results, params.value.page, params.value.pageSize)
  }

  lemma SuiteShownByParams<R>(results: seq<R>, params: Option<SuitePagingParams>)
    ensures params == None || params == Some(SuitePagingParams(0, 0)) ==> SuiteShown(results, params) == results
    ensures params.Some? && params.value != SuitePagingParams(0, 0) ==>
              SuiteShown(results, params) == Page(results, params.value.page, params.value.pageSize)
  {
  }

  method ShallowCopySuiteStatus<R(0)>(ss: SuiteStatus<R>, params: Option<SuitePagingParams>) returns (copy: Slice<R>)
    requires ss.Valid()
    ensures copy.Fits() && copy.View() == SuiteShown(Suffix(ss.inserted, ss.maxResults), params)
    ensures fresh(copy.a) || IsPartOf(copy, ss.results)
  {
    if params.None? || params.value == SuitePagingParams(0, 0) {
      return ss.results;
    }
    copy := PageOf(ss.results, params.value.page, params.value.pageSize);
  }

  /** The copies of a suite's results are out of reach, and show what they showed. */
  ghost predicate SuiteCopiesShow<R(0)>(ss: SuiteStatus<R>, copies: seq<Slice<R>>, shown: seq<seq<R>>)
    reads ss, set c | c in copies :: c.a
  {
    |copies| == |shown| &&
    forall i :: 0 <= i < |copies| ==> Protected(copies[i], ss.results) && copies[i].View() == shown[i]
  }

  /** A later result of the suite, however the array grows, changes nothing any earlier copy shows. */
  method InsertBesideSuiteCopies<R(0)>(
      ss: SuiteStatus<R>, result: R, maximumNumberOfResults: nat, spare: nat,
      ghost copies: seq<Slice<R>>, ghost shown: seq<seq<R>>)
    requires ss.Valid() && ss.maxResults == maximumNumberOfResults && SuiteCopiesShow(ss, copies, shown)
    modifies ss, ss.results.a
    ensures ss.Valid() && ss.inserted == old(ss.inserted) + [result] && SuiteCopiesShow(ss, copies, shown)
  {
    ss.InsertSuiteResult(result, maximumNumberOfResults, spare);
    forall i | 0 <= i < |copies|
      ensures Protected(copies[i], ss.results) && copies[i].View() == shown[i]
    {
      assert copies[i] in copies && copies[i].View() == old(copies[i].View());
    }
  }

  // ---------------------------------------------------------------------------
  // What a query of one endpoint gives

  /** What a query adds up are the results themselves, as far back as clean-up keeps the first hour. */
  lemma QueryCounts(ss: Status, now: int, from: int, to: int)
    requires ss.Valid() && MonotoneClock(ss.inserts, now) && HourOf(from) >= CutOff(now) && from <= to
    ensures var s := WalkSum(IndexAfter(ss.inserts), Number(from), HoursWalked(from, to));
            s.total == |ResultsIn(ss.inserts, HourStart(from), LastHourEnd(from, to))| &&
            s.successful == |SuccessesIn(ss.inserts, HourStart(from), LastHourEnd(from, to))| &&
            s.responseTime == MillisecondsIn(ss.inserts, HourStart(from), LastHourEnd(from, to))
  {
    RangeQueryIsExact(ss.inserts, now, from, to);
    TallyCounts(ss.inserts, Number(from), WalkEnd(from, to));
    SpanOfQuery(from, to);
  }

  lemma AveragesAreExact(ss: Status, now: int, from: int, to: int)
    requires ss.Valid() && MonotoneClock(ss.inserts, now) && HourOf(from) >= CutOff(now)
    ensures var averages := HourlyAverages(IndexAfter(ss.inserts), Number(from), WalkEnd(from, to));
            AveragesOfResults(averages, ss.inserts, HourStart(from), LastHourEnd(from, to))
  {
    var averages := HourlyAverages(IndexAfter(ss.inserts), Number(from), WalkEnd(from, to));
    HourlyAveragesAreExact(ss.inserts, now, from, WalkEnd(from, to));
    AveragesCount(averages, ss.inserts, Number(from), WalkEnd(from, to));
    SpanOfQuery(from, to);
  }

  lemma ValuesOfUpdate(m: map<string, Status>, k: string, v: Status)
    ensures k !in m ==> m[k := v].Values == m.Values + {v}
    ensures k in m && m[k] == v ==> m[k := v] == m
  {
    if k !in m {
      forall s: Status
        ensures s in m[k := v].Values <==> s in m.Values + {v}
      {
        if s in m.Values {
          var j :| j in m && m[j] == s;
          assert m[k := v][j] == s;
        }
        assert m[k := v][k] == v;
      }
    }
  }

  // ---------------------------------------------------------------------------
  // Many endpoints side by side

  ghost function FootprintOf(statuses: set<Status>): set<object>
    reads statuses
  {
    set s, o | s in statuses && o in s.repr :: o
  }

  /** Every status is valid, and no two share anything. */
  ghost predicate Family(statuses: set<Status>)
    reads statuses, FootprintOf(statuses)
  {
    (forall s :: s in statuses ==> s.Valid()) &&
    forall s, t :: s in statuses && t in statuses && s != t ==> s.repr !! t.repr
  }

  lemma FamilyGrows(statuses: set<Status>, status: Status)
    requires Family(statuses) && status.Valid() && forall s :: s in statuses ==> s.repr !! status.repr
    ensures Family(statuses + {status})
  {
  }

  /** All copies are out of reach of later additions to any of the statuses. */
  ghost predicate AllOutOfReach(copies: seq<StatusCopy>, statuses: set<Status>)
    reads statuses
  {
    (forall c :: c in copies ==> c.results.Fits() && c.events.Fits()) &&
    forall c, s :: c in copies && s in statuses ==> OutOfReach(c, s)
  }

  ghost predicate AllShow(copies: seq<StatusCopy>, shown: seq<Window>)
    reads set c | c in copies :: c.results.a, set c | c in copies :: c.events.a
  {
    |copies| == |shown| && forall i :: 0 <= i < |copies| ==> Shows(copies[i], shown[i])
  }

  /** A copy of one status of many is out of reach of later additions to any of them. */
  method CopyAmong(ghost statuses: set<Status>, status: Status, params: Option<PagingParams>) returns (copy: StatusCopy)
    requires status in statuses && Family(statuses)
    ensures Shows(copy, Shown(status.Windows(), params)) && AllOutOfReach([copy], statuses)
  {
    assert status.Valid();
    assert forall s :: s in statuses ==> s.Valid() && s.results.a in s.repr && s.events.a in s.repr;
    copy := ShallowCopyEndpointStatus(status, params);
    forall s | s in statuses
      ensures OutOfReach(copy, s)
    {
      assert s != status ==> s.repr !! status.repr;
    }
  }

  /** A new status shares nothing with those there are, nor with any copy. */
  method StatusBeside(
      ghost statuses: set<Status>, ghost copies: seq<StatusCopy>, now: int, spare: nat, maxResults: nat, maxEvents: nat)
    returns (status: Status)
    requires Family(statuses) && AllOutOfReach(copies, statuses)
    ensures Family(statuses + {status}) && AllOutOfReach(copies, statuses + {status})
    ensures status !in statuses && status in status.repr && fresh(status.repr)
    ensures status.start == now && status.inserts == []
    ensures status.maxResults == maxResults && status.maxEvents == maxEvents
  {
    status := new Status(now, spare, maxResults, maxEvents);
    FamilyGrows(statuses, status);
    forall c | c in copies
      ensures OutOfReach(c, status)
    {
      assert fresh(status.results.a) && fresh(status.events.a);
    }
  }

  /** Adds a result to one status of many; the others keep all they have. */
  method AddAmong(
      ghost statuses: set<Status>, status: Status, result: Result,
      maximumNumberOfResults: nat, maximumNumberOfEvents: nat, now: int, spare: (nat, nat))
    requires status in statuses && Family(statuses)
    requires status.maxResults == maximumNumberOfResults && status.maxEvents == maximumNumberOfEvents
    modifies status, status.results.a, status.events.a, status.uptime
    ensures Family(statuses)
    ensures status.inserts == old(status.inserts) + [Insert(result, now)] && fresh(status.repr - old(status.repr))
    ensures Extended(old(status.results), status.results) && Extended(old(status.events), status.events)
  {
    ghost var mine: set<object> := {status, status.results.a, status.events.a, status.uptime};
    assert forall s :: s in statuses && s != status ==> s in s.repr && s.repr !! mine;
    status.AddResult(result, maximumNumberOfResults, maximumNumberOfEvents, now, spare);
    forall s | s in statuses && s != status
      ensures s.repr == old(s.repr) && s.repr !! status.repr
      ensures s.Valid() == old(s.Valid())
    {
      assert s !in mine && old(s.repr) !! mine;
    }
  }

  /** Adds a result to one status of many; copies handed out of any of them go on showing what they showed. */
  method AddBesideCopies(
      ghost statuses: set<Status>, status: Status, result: Result,
      maximumNumberOfResults: nat, maximumNumberOfEvents: nat, now: int, spare: (nat, nat),
      ghost copies: seq<StatusCopy>, ghost shown: seq<Window>)
    requires status in statuses && Family(statuses) && AllOutOfReach(copies, statuses) && AllShow(copies, shown)
    requires status.maxResults == maximumNumberOfResults && status.maxEvents == maximumNumberOfEvents
    modifies status, status.results.a, status.events.a, status.uptime
    ensures Family(statuses) && AllOutOfReach(copies, statuses) && AllShow(copies, shown)
    ensures status.inserts == old(status.inserts) + [Insert(result, now)] && fresh(status.repr - old(status.repr))
    ensures Extended(old(status.results), status.results) && Extended(old(status.events), status.events)
  {
    AddAmong(statuses, status, result, maximumNumberOfResults, maximumNumberOfEvents, now, spare);
    forall i | 0 <= i < |copies|
      ensures Shows(copies[i], shown[i])
    {
      assert old(OutOfReach(copies[i], status));
      assert copies[i].results.View() == old(copies[i].results.View());
      assert copies[i].events.View() == old(copies[i].events.View());
    }
    forall c, s | c in copies && s in statuses
      ensures OutOfReach(c, s)
    {
      assert old(OutOfReach(c, s));
    }
  }

  // ---------------------------------------------------------------------------
  // The store

  lemma FirstOfNone(inserts: seq<Insert>, x: Insert)
    requires inserts == []
    ensures inserts + [x] == [x]
  {
  }

  datatype QueryResult<+V> = Found(value: V) | InvalidTimeRange | EndpointNotFound

  class Store {
    var endpointCache: map<string, Status>
    const maximumNumberOfResults: nat
    const maximumNumberOfEvents: nat

    /** Kept to the maxima of this store. */
    ghost predicate Mine(status: Status)
      reads status
    {
      this !in status.repr &&
      status.maxResults == maximumNumberOfResults && status.maxEvents == maximumNumberOfEvents
    }

    /** Every status is valid and kept to the store's maxima; no two keys share a status, or parts of one. */
    ghost predicate Valid()
      reads this, endpointCache.Values, FootprintOf(endpointCache.Values)
    {
      Family(endpointCache.Values) &&
      (forall k :: k in endpointCache ==> Mine(endpointCache[k])) &&
      forall j, k :: j in endpointCache && k in endpointCache && j != k ==> endpointCache[j] != endpointCache[k]
    }

    constructor (maximumNumberOfResults: nat, maximumNumberOfEvents: nat)
      ensures Valid() && endpointCache == map[]
      ensures this.maximumNumberOfResults == maximumNumberOfResults &&
              this.maximumNumberOfEvents == maximumNumberOfEvents
    {
      endpointCache := map[];
      this.maximumNumberOfResults, this.maximumNumberOfEvents := maximumNumberOfResults, maximumNumberOfEvents;
    }

    /** Every result ever inserted under a key. */
    ghost function InsertsOf(key: string): seq<Insert>
      reads this, endpointCache.Values
    {
      if key in endpointCache then endpointCache[key].inserts else []
    }

    /** What an insert under a key may change in the status it finds. */
    ghost function TouchedBy(key: string): set<object>
      reads this, endpointCache.Values
    {
      if key !in endpointCache then {}
      else
        var status := endpointCache[key];
        {status, status.results.a, status.events.a, status.uptime}
    }

    lemma ValidWithOneMore(known: map<string, Status>, key: string)
      requires key !in known && key in endpointCache && endpointCache == known[key := endpointCache[key]]
      requires Family(known.Values + {endpointCache[key]}) && endpointCache[key] !in known.Values
      requires Mine(endpointCache[key]) && forall k :: k in known ==> Mine(known[k])
      requires forall j, k :: j in known && k in known && j != k ==> known[j] != known[k]
      ensures Valid()
    {
      ValuesOfUpdate(known, key, endpointCache[key]);
    }

    method Attach(key: string, status: Status)
      requires Valid() && key !in endpointCache && Mine(status)
      requires Family(endpointCache.Values + {status}) && status !in endpointCache.Values
      modifies this`endpointCache
      ensures Valid() && endpointCache == old(endpointCache)[key := status]
      ensures endpointCache.Values == old(endpointCache).Values + {status}
    {
      ghost var known := endpointCache;
      endpointCache := endpointCache[key := status];
      ValuesOfUpdate(known, key, status);
      ValidWithOneMore(known, key);
    }

    /** Gives a key that is not known yet a status that has seen nothing but its start. */
    method AddStatus(key: string, now: int, spare: nat, ghost copies: seq<StatusCopy>)
      requires Valid() && key !in endpointCache && AllOutOfReach(copies, endpointCache.Values)
      modifies this`endpointCache
      ensures Valid() && key in endpointCache && endpointCache == old(endpointCache)[key := endpointCache[key]]
      ensures endpointCache.Values == old(endpointCache).Values + {endpointCache[key]}
      ensures AllOutOfReach(copies, old(endpointCache).Values + {endpointCache[key]})
      ensures fresh(endpointCache[key].repr)
      ensures endpointCache[key].start == now && endpointCache[key].inserts == []
    {
      var status := StatusBeside(
        endpointCache.Values, copies, now, spare, maximumNumberOfResults, maximumNumberOfEvents);
      assert this !in status.repr;
      ghost var statuses := endpointCache.Values + {status};
      ghost var safe := AllOutOfReach(copies, statuses);
      Attach(key, status);
      assert AllOutOfReach(copies, statuses) == safe;
    }

    /** Records a result under a key that is known; copies of any key go on showing what they showed. */
    method InsertKnown(
        key: string, result: Result, now: int, spare: (nat, nat),
        ghost copies: seq<StatusCopy>, ghost shown: seq<Window>)
      requires Valid() && key in endpointCache
      requires AllOutOfReach(copies, endpointCache.Values) && AllShow(copies, shown)
      modifies TouchedBy(key)
      ensures Valid() && AllOutOfReach(copies, endpointCache.Values) && AllShow(copies, shown)
      ensures endpointCache[key].inserts == old(endpointCache[key].inserts) + [Insert(result, now)]
      ensures fresh(endpointCache[key].repr - old(endpointCache[key].repr))
      ensures Extended(old(endpointCache[key].results), endpointCache[key].results)
      ensures Extended(old(endpointCache[key].events), endpointCache[key].events)
    {
      var status := endpointCache[key];
      assert status.Valid();
      AddBesideCopies(endpointCache.Values, status, result, maximumNumberOfResults, maximumNumberOfEvents, now,
                      spare, copies, shown);
    }

    /** Records a result under a key that is not known yet. */
    method InsertNew(
        key: string, result: Result, now: int, spare: (nat, nat, nat),
        ghost copies: seq<StatusCopy>, ghost shown: seq<Window>)
      requires Valid() && key !in endpointCache
      requires AllOutOfReach(copies, endpointCache.Values) && AllShow(copies, shown)
      modifies this`endpointCache
      ensures Valid() && AllOutOfReach(copies, endpointCache.Values) && AllShow(copies, shown)
      ensures key in endpointCache && endpointCache == old(endpointCache)[key := endpointCache[key]]
      ensures endpointCache[key].inserts == [] + [Insert(result, now)] && endpointCache[key].start == now
      ensures fresh(endpointCache[key].repr)
    {
      AddStatus(key, now, spare.2, copies);
      ghost var known, touched := endpointCache, TouchedBy(key);
      assert fresh(touched) by {
        assert endpointCache[key].Valid();
      }
      InsertKnown(key, result, now, (spare.0, spare.1), copies, shown);
      assert endpointCache == old(endpointCache)[key := endpointCache[key]] by {
        assert endpointCache == known;
      }
    }

    /**
     Records a result under its key.  Whatever copies the store handed out before, of
     this key or others, they go on showing what they showed, and stay out of reach.
     */
    method InsertBesideCopies(
        key: string, result: Result, now: int, spare: (nat, nat, nat),
        ghost copies: seq<StatusCopy>, ghost shown: seq<Window>)
      requires Valid() && AllOutOfReach(copies, endpointCache.Values) && AllShow(copies, shown)
      modifies this`endpointCache, TouchedBy(key)
      ensures Valid() && AllOutOfReach(copies, endpointCache.Values) && AllShow(copies, shown)
      ensures key in endpointCache
      ensures key in old(endpointCache) ==>
                endpointCache == old(endpointCache) &&
                endpointCache[key].inserts == old(endpointCache[key].inserts) + [Insert(result, now)] &&
                fresh(endpointCache[key].repr - old(endpointCache[key].repr)) &&
                Extended(old(endpointCache[key].results), endpointCache[key].results) &&
                Extended(old(endpointCache[key].events), endpointCache[key].events)
      ensures key !in old(endpointCache) ==>
                endpointCache == old(endpointCache)[key := endpointCache[key]] &&
                endpointCache[key].inserts == [Insert(result, now)] && endpointCache[key].start == now &&
                fresh(endpointCache[key].repr)
    {
      if key in endpointCache {
        InsertKnown(key, result, now, (spare.0, spare.1), copies, shown);
      } else {
        InsertNew(key, result, now, spare, copies, shown);
        FirstOfNone([], Insert(result, now));
      }
    }

    /**
     Records a result under its key.  The other keys keep their statuses and all that
     belongs to them, and no view of the arrays in use sees a change.
     */
    method InsertEndpointResult(key: string, result: Result, now: int, spare: (nat, nat, nat))
      requires Valid()
      modifies this`endpointCache, TouchedBy(key)
      ensures Valid() && key in endpointCache
      ensures key in old(endpointCache) ==>
                endpointCache == old(endpointCache) &&
                InsertsOf(key) == old(InsertsOf(key)) + [Insert(result, now)] &&
                Extended(old(endpointCache[key].results), endpointCache[key].results) &&
                Extended(old(endpointCache[key].events), endpointCache[key].events)
      ensures key !in old(endpointCache) ==>
                endpointCache == old(endpointCache)[key := endpointCache[key]] &&
                InsertsOf(key) == [Insert(result, now)] && endpointCache[key].start == now
      ensures forall other :: other in old(endpointCache) && other != key ==> InsertsOf(other) == old(InsertsOf(other))
    {
      assert forall other :: other in endpointCache && other != key ==> endpointCache[other] !in TouchedBy(key);
      InsertBesideCopies(key, result, now, spare, [], []);
    }

    /** The uptime of an endpoint; exact on the raw history as far back as clean-up keeps the first hour. */
    method GetUptimeByKey(key: string, from: int, to: int, ghost now: int) returns (r: QueryResult<real>)
      requires Valid()
      ensures from > to ==> r == InvalidTimeRange
      ensures from <= to && key !in endpointCache ==> r == EndpointNotFound
      ensures from <= to && key in endpointCache ==> r.Found?
      ensures r.Found? ==>
                r.value == UptimeOf(WalkSum(IndexAfter(InsertsOf(key)), Number(from), HoursWalked(from, to)))
      ensures r.Found? && MonotoneClock(InsertsOf(key), now) && HourOf(from) >= CutOff(now) ==>
                var total := |ResultsIn(InsertsOf(key), HourStart(from), LastHourEnd(from, to))|;
                var successful := |SuccessesIn(InsertsOf(key), HourStart(from), LastHourEnd(from, to))|;
                r.value == if total == 0 then 0.0 else successful as real / total as real
    {
      if from > to {
        return InvalidTimeRange;
      }
      if key !in endpointCache {
        return EndpointNotFound;
      }
      endpointCache[key].TellsHistory();
      var uptime := endpointCache[key].uptime.GetUptime(from, to);
      if MonotoneClock(InsertsOf(key), now) && HourOf(from) >= CutOff(now) {
        QueryCounts(endpointCache[key], now, from, to);
      }
      r := Found(uptime);
    }

    /** The average response time of an endpoint, exact in the same sense. */
    method GetAverageResponseTimeByKey(key: string, from: int, to: int, ghost now: int) returns (r: QueryResult<int>)
      requires Valid()
      ensures from > to ==> r == InvalidTimeRange
      ensures from <= to && key !in endpointCache ==> r == EndpointNotFound
      ensures from <= to && key in endpointCache ==> r.Found?
      ensures r.Found? ==>
                var s := WalkSum(IndexAfter(InsertsOf(key)), Number(from), HoursWalked(from, to));
                r.value == if s.total == 0 then 0 else Average(s)
      ensures r.Found? && MonotoneClock(InsertsOf(key), now) && HourOf(from) >= CutOff(now) ==>
                var total := |ResultsIn(InsertsOf(key), HourStart(from), LastHourEnd(from, to))|;
                var milliseconds := MillisecondsIn(InsertsOf(key), HourStart(from), LastHourEnd(from, to));
                r.value == if total == 0 then 0 else milliseconds / total
    {
      if from > to {
        return InvalidTimeRange;
      }
      if key !in endpointCache {
        return EndpointNotFound;
      }
      endpointCache[key].TellsHistory();
      var average := endpointCache[key].uptime.GetAverageResponseTime(from, to);
      if MonotoneClock(InsertsOf(key), now) && HourOf(from) >= CutOff(now) {
        QueryCounts(endpointCache[key], now, from, to);
      }
      r := Found(average);
    }

    /** The average response time of each hour with results, exact as far back as clean-up keeps the first hour. */
    method GetHourlyAverageResponseTimeByKey(key: string, from: int, to: int, ghost now: int)
      returns (r: QueryResult<map<Hour, int>>)
      requires Valid()
      ensures from > to ==> r == InvalidTimeRange
      ensures from <= to && key !in endpointCache ==> r == EndpointNotFound
      ensures from <= to && key in endpointCache ==> r.Found?
      ensures r.Found? ==> r.value == HourlyAverages(IndexAfter(InsertsOf(key)), Number(from), WalkEnd(from, to))
      ensures r.Found? && MonotoneClock(InsertsOf(key), now) && HourOf(from) >= CutOff(now) ==>
                AveragesOfResults(r.value, InsertsOf(key), HourStart(from), LastHourEnd(from, to))
    {
      if from > to {
        return InvalidTimeRange;
      }
      if key !in endpointCache {
        return EndpointNotFound;
      }
      endpointCache[key].TellsHistory();
      var averages := endpointCache[key].uptime.GetHourlyAverageResponseTimes(from, to);
      if MonotoneClock(InsertsOf(key), now) && HourOf(from) >= CutOff(now) {
        AveragesAreExact(endpointCache[key], now, from, to);
      }
      r := Found(averages);
    }

    /** One page of an endpoint's results and events. */
    method GetEndpointStatusByKey(key: string, params: Option<PagingParams>) returns (r: Option<StatusCopy>)
      requires Valid()
      ensures r.Some? <==> key in endpointCache
      ensures r.Some? ==>
                var status := endpointCache[key];
                var history := Results(status.inserts);
                var w := WindowAfter(status.start, history, maximumNumberOfResults, maximumNumberOfEvents);
                Shows(r.value, Shown(w, params))
      ensures r.Some? ==> AllOutOfReach([r.value], endpointCache.Values)
    {
      if key !in endpointCache {
        return None;
      }
      var status := endpointCache[key];
      status.TellsHistory();
      var copy := CopyAmong(endpointCache.Values, status, params);
      r := Some(copy);
    }
  }

  // ---------------------------------------------------------------------------
  // What a store shows over time

  /** What happened under a key: its start, and all inserts since. */
  datatype Account = Account(start: int, inserts: seq<Insert>)

  ghost function AccountOf(status: Status): Account
    reads status
  {
    Account(status.start, status.inserts)
  }

  /** The accounts are those of the store's keys. */
  ghost predicate Keeps(store: Store, accounts: map<string, Account>)
    reads store, store.endpointCache.Values
  {
    (forall k :: k in accounts <==> k in store.endpointCache) &&
    forall k :: k in store.endpointCache ==> accounts[k] == AccountOf(store.endpointCache[k])
  }

  /** What is asked of a store. */
  datatype Request =
    | InsertOne(key: string, result: Result, now: int, spare: (nat, nat, nat))
    | Read(key: string, params: Option<PagingParams>)

  /** The account of a key after an insert; a new key's begins at that time. */
  function WithInsert(accounts: map<string, Account>, key: string, x: Insert): Account {
    if key in accounts then Account(accounts[key].start, accounts[key].inserts + [x]) else Account(x.now, [x])
  }

  function AccountsAfter(accounts: map<string, Account>, request: Request): map<string, Account> {
    match request
    case InsertOne(key, result, now, _) => accounts[key := WithInsert(accounts, key, Insert(result, now))]
    case Read(_, _) => accounts
  }

  /** What a request hands out, by the accounts alone. */
  function HandedOut(accounts: map<string, Account>, request: Request, maxResults: nat, maxEvents: nat): seq<Window> {
    if request.Read? && request.key in accounts then
      var account := accounts[request.key];
      [Shown(WindowAfter(account.start, Results(account.inserts), maxResults, maxEvents), request.params)]
    else []
  }

  /** The accounts are those of the known keys, but for one insert under one of them. */
  ghost predicate Differs(known: map<string, Status>, after: map<string, Account>, key: string, x: Insert)
    requires key in known
    reads known.Values
  {
    (forall k :: k in after <==> k in known) &&
    (forall k :: k in known && k != key ==> known[k] != known[key] && after[k] == AccountOf(known[k])) &&
    after[key] == Account(known[key].start, known[key].inserts + [x])
  }

  method InsertKnownForAccounts(
      store: Store, key: string, result: Result, now: int, spare: (nat, nat),
      ghost copies: seq<StatusCopy>, ghost shown: seq<Window>, ghost accounts: map<string, Account>)
    requires store.Valid() && Keeps(store, accounts) && key in store.endpointCache
    requires AllOutOfReach(copies, store.endpointCache.Values) && AllShow(copies, shown)
    modifies store.TouchedBy(key)
    ensures Keeps(store, accounts[key := WithInsert(accounts, key, Insert(result, now))])
    ensures AllOutOfReach(copies, store.endpointCache.Values) && AllShow(copies, shown)
    ensures store.Valid()
  {
    ghost var known, after := store.endpointCache, accounts[key := WithInsert(accounts, key, Insert(result, now))];
    assert Differs(known, after, key, Insert(result, now)) by {
      assert forall k :: k in known && k != key ==> known[k] != known[key] && after[k] == AccountOf(known[k]);
    }
    store.InsertKnown(key, result, now, spare, copies, shown);
    assert Keeps(store, after) by {
      forall k | k in known
        ensures after[k] == AccountOf(known[k])
      {
        if k != key {
          assert AccountOf(known[k]) == old(AccountOf(known[k]));
        }
      }
    }
  }

  method InsertNewForAccounts(
      store: Store, key: string, result: Result, now: int, spare: (nat, nat, nat),
      ghost copies: seq<StatusCopy>, ghost shown: seq<Window>, ghost accounts: map<string, Account>)
    requires store.Valid() && Keeps(store, accounts) && key !in store.endpointCache
    requires AllOutOfReach(copies, store.endpointCache.Values) && AllShow(copies, shown)
    modifies store`endpointCache
    ensures Keeps(store, accounts[key := WithInsert(accounts, key, Insert(result, now))])
    ensures store.Valid() && AllOutOfReach(copies, store.endpointCache.Values) && AllShow(copies, shown)
  {
    ghost var known, after := store.endpointCache, accounts[key := WithInsert(accounts, key, Insert(result, now))];
    assert forall k :: k in after <==> k in known || k == key;
    assert forall k :: k in known ==> after[k] == AccountOf(known[k]);
    assert after[key] == Account(now, [Insert(result, now)]);
    FirstOfNone([], Insert(result, now));
    store.InsertNew(key, result, now, spare, copies, shown);
    assert Keeps(store, after) by {
      forall k | k in known
        ensures after[k] == AccountOf(known[k])
      {
        assert AccountOf(known[k]) == old(AccountOf(known[k]));
      }
    }
  }

  method ReadForAccounts(
      store: Store, key: string, params: Option<PagingParams>,
      copies: seq<StatusCopy>, ghost shown: seq<Window>, ghost accounts: map<string, Account>)
    returns (copies2: seq<StatusCopy>)
    requires store.Valid() && Keeps(store, accounts)
    requires AllOutOfReach(copies, store.endpointCache.Values) && AllShow(copies, shown)
    ensures AllOutOfReach(copies2, store.endpointCache.Values)
    ensures var more := HandedOut(accounts, Read(key, params), store.maximumNumberOfResults,
            store.maximumNumberOfEvents);
            AllShow(copies2, shown + more)
  {
    var found := store.GetEndpointStatusByKey(key, params);
    if found.None? {
      assert shown + [] == shown;
      return copies;
    }
    copies2 := copies + [found.value];
  }

  /**
   One request to a store, in terms of the accounts alone: what it hands out, and what
   the accounts are then.  Every copy handed out before goes on showing what it showed.
   */
  method Serve(
      store: Store, request: Request,
      copies: seq<StatusCopy>, ghost shown: seq<Window>, ghost accounts: map<string, Account>)
    returns (copies2: seq<StatusCopy>)
    requires store.Valid() && Keeps(store, accounts)
    requires AllOutOfReach(copies, store.endpointCache.Values) && AllShow(copies, shown)
    modifies store`endpointCache, store.TouchedBy(request.key)
    ensures store.Valid() && Keeps(store, AccountsAfter(accounts, request))
    ensures AllOutOfReach(copies2, store.endpointCache.Values)
    ensures var more := HandedOut(accounts, request, store.maximumNumberOfResults, store.maximumNumberOfEvents);
            AllShow(copies2, shown + more)
  {
    match request
    case Read(key, params) =>
      copies2 := ReadForAccounts(store, key, params, copies, shown, accounts);
    case InsertOne(key, result, now, spare) =>
      copies2 := copies;
      assert shown + [] == shown;
      if key in store.endpointCache {
        InsertKnownForAccounts(store, key, result, now, (spare.0, spare.1), copies, shown, accounts);
      } else {
        InsertNewForAccounts(store, key, result, now, spare, copies, shown, accounts);
      }
  }
}
