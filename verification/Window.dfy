/**
 The bounded windows of results and events of one endpoint, as plain sequences:
 what one more result does to them, what they are in terms of everything that ever
 happened, and how they are cut into pages.
 */
module Window {
  import opened Prelude
  import opened Uptime

  datatype EventType = Start | Healthy | Unhealthy

  datatype Event = Event(kind: EventType, timestamp: int)

  function EventOf(r: Result): Event {
    Event(if r.success then Healthy else Unhealthy, r.timestamp)
  }

  datatype Window = Window(results: seq<Result>, events: seq<Event>)

  /** The events once a result is added: the first result and every change of health are recorded. */
  function EventsAfter(w: Window, r: Result, maxEvents: nat): seq<Event> {
    if w.results == [] then w.events + [EventOf(r)]
    else if w.results[|w.results| - 1].success != r.success then Suffix(w.events + [EventOf(r)], maxEvents)
    else w.events
  }

  /** What `AddResult` does to the two windows. */
  function Add(w: Window, r: Result, maxResults: nat, maxEvents: nat): Window {
    Window(Suffix(w.results + [r], maxResults), EventsAfter(w, r, maxEvents))
  }

  /** The windows of an endpoint that started at `start` and then saw `history`. */
  function WindowAfter(start: int, history: seq<Result>, maxResults: nat, maxEvents: nat): Window {
    if history == [] then Window([], [Event(Start, start)])
    else
      var n := |history| - 1;
      Add(WindowAfter(start, history[..n], maxResults, maxEvents), history[n], maxResults, maxEvents)
  }

  /** The full change log: the start, then one event per change of health. */
  function ChangeLog(start: int, history: seq<Result>): seq<Event> {
    if history == [] then [Event(Start, start)]
    else
      var n := |history| - 1;
      ChangeLog(start, history[..n]) +
      if n == 0 || history[n - 1].success != history[n].success then [EventOf(history[n])] else []
  }

  lemma SuffixOfLonger<X>(s: seq<X>, x: X, n: nat)
    ensures Suffix(Suffix(s, n) + [x], n) == Suffix(s + [x], n)
  {
  }

  /** The result window is the newest part of the history. */
  lemma {:induction false} ResultsAreNewest(start: int, history: seq<Result>, maxResults: nat, maxEvents: nat)
    ensures WindowAfter(start, history, maxResults, maxEvents).results == Suffix(history, maxResults)
  {
    if history == [] {
    } else {
      var n := |history| - 1;
      ResultsAreNewest(start, history[..n], maxResults, maxEvents);
      SuffixOfLonger(history[..n], history[n], maxResults);
      assert history == history[..n] + [history[n]];
    }
  }

  /** The change log, as far as it is kept: trimming happens only on a change, not on the very first result. */
  function KeptEvents(log: seq<Event>, maxEvents: nat): seq<Event> {
    if |log| <= 2 then log else Suffix(log, maxEvents)
  }

  lemma OneMoreEvent(log: seq<Event>, results: seq<Result>, r: Result, maxEvents: nat)
    requires maxEvents >= 1 && |log| >= 1 && (results == [] <==> |log| == 1)
    ensures var changed := results == [] || results[|results| - 1].success != r.success;
            EventsAfter(Window(results, KeptEvents(log, maxEvents)), r, maxEvents) ==
              KeptEvents(log + if changed then [EventOf(r)] else [], maxEvents)
  {
    SuffixOfLonger(log, EventOf(r), maxEvents);
    assert log + [] == log;
  }

  lemma LastOfSuffix<X>(s: seq<X>, n: nat)
    requires n >= 1
    ensures Suffix(s, n) == [] <==> s == []
    ensures s != [] ==> Suffix(s, n)[|Suffix(s, n)| - 1] == s[|s| - 1]
  {
  }

  /** The events, for any positive maximum, in terms of the full change log. */
  lemma {:induction false} EventsAreNewestOrUntrimmed(
      start: int, history: seq<Result>, maxResults: nat, maxEvents: nat)
    requires maxResults >= 1 && maxEvents >= 1
    ensures var log := ChangeLog(start, history);
            |log| >= 1 && (history == [] <==> |log| == 1) &&
            WindowAfter(start, history, maxResults, maxEvents).events == KeptEvents(log, maxEvents)
  {
    if history == [] {
    } else {
      var n := |history| - 1;
      var p := history[..n];
      EventsAreNewestOrUntrimmed(start, p, maxResults, maxEvents);
      ResultsAreNewest(start, p, maxResults, maxEvents);
      OneMoreEvent(ChangeLog(start, p), Suffix(p, maxResults), history[n], maxEvents);
      LastOfSuffix(p, maxResults);
    }
  }

  /**
   The event list is the newest part of the full change log exactly when it may hold
   two events or health has changed at least once since the first result.
   */
  lemma EventsAreNewest(start: int, history: seq<Result>, maxResults: nat, maxEvents: nat)
    requires maxResults >= 1 && maxEvents >= 1 && history != []
    ensures var log := ChangeLog(start, history);
            WindowAfter(start, history, maxResults, maxEvents).events == Suffix(log, maxEvents) <==>
            maxEvents >= 2 || |log| >= 3
  {
    EventsAreNewestOrUntrimmed(start, history, maxResults, maxEvents);
  }

  /** In the change log neighbours differ, it starts with the start, and it ends with the newest result's health. */
  lemma {:induction false} ChangeLogAlternates(start: int, history: seq<Result>)
    ensures var log := ChangeLog(start, history);
            log != [] && log[0] == Event(Start, start) &&
            (forall i :: 0 < i < |log| ==> log[i].kind != log[i - 1].kind && log[i].kind != Start) &&
            (history == [] ==> |log| == 1) &&
            (history != [] ==> log[|log| - 1].kind == if history[|history| - 1].success then Healthy else Unhealthy)
  {
    if history == [] {
    } else {
      ChangeLogAlternates(start, history[..|history| - 1]);
    }
  }

  ghost predicate Alternates(events: seq<Event>) {
    forall i :: 0 < i < |events| ==> events[i].kind != events[i - 1].kind
  }

  lemma KeptEventsAlternate(log: seq<Event>, maxEvents: nat)
    requires maxEvents >= 1 && log != [] && Alternates(log)
    ensures var kept := KeptEvents(log, maxEvents);
            kept != [] && Alternates(kept) && kept[|kept| - 1] == log[|log| - 1]
  {
    var kept := KeptEvents(log, maxEvents);
    var cut := |log| - |kept|;
    assert kept == log[cut..];
    forall i | 0 < i < |kept|
      ensures kept[i].kind != kept[i - 1].kind
    {
      assert kept[i] == log[cut + i] && kept[i - 1] == log[cut + i - 1];
    }
  }

  /** The same for the events an endpoint actually keeps, whatever the maxima. */
  lemma EventsAlternate(start: int, history: seq<Result>, maxResults: nat, maxEvents: nat)
    requires maxResults >= 1 && maxEvents >= 1 && history != []
    ensures var events := WindowAfter(start, history, maxResults, maxEvents).events;
            events != [] && Alternates(events) &&
            events[|events| - 1].kind == if history[|history| - 1].success then Healthy else Unhealthy
  {
    EventsAreNewestOrUntrimmed(start, history, maxResults, maxEvents);
    ChangeLogAlternates(start, history);
    KeptEventsAlternate(ChangeLog(start, history), maxEvents);
  }

  /** Result number `k` changed the health, or is the first. */
  predicate Changes(history: seq<Result>, k: nat) {
    k < |history| && (k == 0 || history[k].success != history[k - 1].success)
  }

  /** `at` lists the results that changed the health, in order. */
  ghost predicate AllChanges(history: seq<Result>, at: seq<nat>) {
    (forall i :: 0 <= i < |at| ==> Changes(history, at[i])) &&
    (forall i, j :: 0 <= i < j < |at| ==> at[i] < at[j]) &&
    forall k: nat :: Changes(history, k) ==> k in at
  }

  /** The event tells the time of the result, and its health. */
  predicate Tells(e: Event, r: Result) {
    e.timestamp == r.timestamp && (e.kind == Healthy <==> r.success) && (e.kind == Unhealthy <==> !r.success)
  }

  lemma ChangesOnceMore(history: seq<Result>, at: seq<nat>)
    requires history != [] && AllChanges(history[..|history| - 1], at) && Changes(history, |history| - 1)
    ensures AllChanges(history, at + [|history| - 1])
  {
    var n: nat, p, more := |history| - 1, history[..|history| - 1], at + [|history| - 1];
    assert forall k: nat :: k < n ==> (Changes(history, k) <==> Changes(p, k));
    forall i | 0 <= i < |more|
      ensures Changes(history, more[i])
    {
      if i < |at| {
        assert Changes(p, at[i]);
      }
    }
    forall k: nat | Changes(history, k)
      ensures k in more
    {
      if k < n {
        assert k in at;
      } else {
        assert more[|at|] == n;
      }
    }
  }

  /**
   The change log in terms of the results alone: the start, and then one event for each
   result that changed the health, with that result's time and health.
   */
  lemma {:induction false} ChangeLogTells(start: int, history: seq<Result>) returns (at: seq<nat>)
    ensures AllChanges(history, at)
    ensures var log := ChangeLog(start, history);
            |log| == |at| + 1 && log[0] == Event(Start, start) &&
            forall i :: 0 <= i < |at| ==> Tells(log[i + 1], history[at[i]])
  {
    if history == [] {
      at := [];
    } else {
      var n := |history| - 1;
      var p := history[..n];
      at := ChangeLogTells(start, p);
      assert forall k: nat :: k < n ==> (Changes(history, k) <==> Changes(p, k));
      if Changes(history, n) {
        ChangesOnceMore(history, at);
        at := at + [n];
      } else {
        assert ChangeLog(start, history) == ChangeLog(start, p) + [];
      }
    }
  }

  // ---------------------------------------------------------------------------
  // Pages, counted backwards from the newest element

  /** Start and end of a page; a negative number stands for no page. */
  function GetStartAndEndIndex(n: nat, page: int, pageSize: int): (int, int) {
    if page < 1 || pageSize < 0 then (-1, -1)
    else
      var start := n - page * pageSize;
      var end := n - (page - 1) * pageSize;
      (if start > n then -1 else if start < 0 then 0 else start, if end > n then n else end)
  }

  /** A page lies within the list. */
  lemma PageIsWithin(n: nat, page: int, pageSize: int)
    ensures var (start, end) := GetStartAndEndIndex(n, page, pageSize);
            start >= 0 && end >= 0 ==> start <= end <= n
  {
    if page >= 1 && pageSize >= 0 {
      assert page * pageSize == (page - 1) * pageSize + pageSize;
      assert (page - 1) * pageSize >= 0;
    }
  }

  function Page<X>(s: seq<X>, page: int, pageSize: int): seq<X> {
    PageIsWithin(|s|, page, pageSize);
    var (start, end) := GetStartAndEndIndex(|s|, page, pageSize);
    if start < 0 || end < 0 then [] else s[start..end]
  }

  lemma PageBetween<X>(s: seq<X>, page: int, pageSize: int, start: int, end: int)
    requires (start, end) == GetStartAndEndIndex(|s|, page, pageSize)
    ensures start < 0 || end < 0 ==> Page(s, page, pageSize) == []
    ensures start >= 0 && end >= 0 ==> start <= end <= |s| && Page(s, page, pageSize) == s[start..end]
  {
    PageIsWithin(|s|, page, pageSize);
  }

  /** What a page holds: nothing for a number below 1 or a negative size, and otherwise a part counted from the end. */
  lemma PageHolds<X>(s: seq<X>, page: int, pageSize: int)
    ensures page < 1 || pageSize < 0 ==> Page(s, page, pageSize) == []
    ensures page >= 1 && pageSize >= 0 ==>
              var older, newer := |s| - page * pageSize, |s| - (page - 1) * pageSize;
              Page(s, page, pageSize) == if newer < 0 then [] else s[if older < 0 then 0 else older..newer]
  {
    PageIsWithin(|s|, page, pageSize);
    if page >= 1 && pageSize >= 0 {
      assert page * pageSize == (page - 1) * pageSize + pageSize;
      assert (page - 1) * pageSize >= 0;
    }
  }

  /** Pages `last`, ..., 2, 1, one after the other. */
  function Pages<X>(s: seq<X>, last: nat, pageSize: int): seq<X> {
    if last == 0 then [] else Page(s, last, pageSize) + Pages(s, last - 1, pageSize)
  }

  /** A page holds what lies behind the `newer` elements of the pages before it. */
  lemma PageFillsUp<X>(s: seq<X>, page: nat, pageSize: nat, newer: nat)
    requires page >= 1 && newer == (page - 1) * pageSize && newer + pageSize == page * pageSize
    ensures Page(s, page, pageSize) + Suffix(s, newer) == Suffix(s, newer + pageSize)
  {
    var (start, end) := GetStartAndEndIndex(|s|, page, pageSize);
    PageBetween(s, page, pageSize, start, end);
    if end >= 0 {
      assert s[start..] == s[start..end] + s[end..];
    }
  }

  lemma {:induction false} PagesAreSuffix<X>(s: seq<X>, last: nat, pageSize: nat)
    ensures Pages(s, last, pageSize) == Suffix(s, last * pageSize)
  {
    if last == 0 {
    } else {
      PagesAreSuffix(s, last - 1, pageSize);
      assert last * pageSize == (last - 1) * pageSize + pageSize;
      PageFillsUp(s, last, pageSize, (last - 1) * pageSize);
    }
  }

  /**
   Concatenating the pages from a last one down to the first rebuilds the list exactly
   when they reach its beginning.
   */
  lemma PagesRebuildTheList<X>(s: seq<X>, last: nat, pageSize: nat)
    ensures Pages(s, last, pageSize) == s <==> last * pageSize >= |s|
  {
    PagesAreSuffix(s, last, pageSize);
  }
}
