/**
 What the alert state machine does over a whole history of results: when an alert
 ends up triggered, how thresholds compare, what was sent and how far apart.
 */
module AlertingHistory {
  import opened Prelude
  import opened Alerting

  // ---------------------------------------------------------------------------
  // When an alert is triggered

  /** The `n` results ending with result `k` are all `ok`, and so is result `k` itself. */
  ghost predicate Block(h: History, k: nat, n: int, ok: bool) {
    k < |h| && h[k].success == ok && n <= k + 1 &&
    forall m :: k - n < m <= k ==> 0 <= m && h[m].success == ok
  }

  /** The number of `ok` results at the end of the history. */
  function RunLength(h: History, ok: bool): nat {
    if h == [] || h[|h| - 1].success != ok then 0 else 1 + RunLength(h[..|h| - 1], ok)
  }

  lemma {:induction false} CountersAreRunLengths(configs: seq<AlertConfig>, h: History)
    ensures Run(configs, h).failures == RunLength(h, false)
    ensures Run(configs, h).successes == RunLength(h, true)
  {
    if h == [] {
    } else {
      CountersAreRunLengths(configs, h[..|h| - 1]);
    }
  }

  lemma {:induction false} BlockIsRunLength(h: History, n: int, ok: bool)
    requires h != []
    ensures Block(h, |h| - 1, n, ok) <==> h[|h| - 1].success == ok && n <= RunLength(h, ok)
  {
    var p := h[..|h| - 1];
    if h[|h| - 1].success == ok && p != [] {
      BlockIsRunLength(p, n - 1, ok);
      if n > 1 {
        assert Block(h, |h| - 1, n, ok) <==> Block(p, |p| - 1, n - 1, ok) by {
          if Block(h, |h| - 1, n, ok) {
            assert h[|h| - 2].success == ok;
          }
        }
      }
    }
  }

  lemma {:induction false} BlockOfPrefix(h: History, n: nat, k: nat, size: int, ok: bool)
    requires k < n <= |h|
    ensures Block(h, k, size, ok) <==> Block(h[..n], k, size, ok)
  {
  }

  /** A long enough block of failures, followed by no long enough block of successes. */
  ghost predicate Unrecovered(c: AlertConfig, h: History, k: nat) {
    Block(h, k, c.failureThreshold, false) &&
    forall j :: k < j < |h| ==> !Block(h, j, c.successThreshold, true)
  }

  /** Alert `i` was sent for a failure that had lasted long enough, and no recovery followed. */
  ghost predicate RaisedAt(c: AlertConfig, i: nat, h: History, k: nat) {
    Unrecovered(c, h, k) && h[k].inputs(i).outcome == Delivered
  }

  /** Being raised somewhere in a history, in terms of its last result and the results before. */
  lemma {:induction false} RaisedExtends(c: AlertConfig, i: nat, h: History)
    requires h != []
    ensures var last := |h| - 1;
            (exists k: nat :: RaisedAt(c, i, h, k)) <==>
              (Block(h, last, c.failureThreshold, false) && h[last].inputs(i).outcome == Delivered) ||
              (!Block(h, last, c.successThreshold, true) && exists k: nat :: RaisedAt(c, i, h[..last], k))
  {
    var last := |h| - 1;
    var p := h[..last];
    forall k: nat | k < last
      ensures RaisedAt(c, i, h, k) <==> RaisedAt(c, i, p, k) && !Block(h, last, c.successThreshold, true)
    {
      forall j: nat | j < last
        ensures Block(h, j, c.successThreshold, true) <==> Block(p, j, c.successThreshold, true)
        ensures Block(h, j, c.failureThreshold, false) <==> Block(p, j, c.failureThreshold, false)
      {
        BlockOfPrefix(h, last, j, c.successThreshold, true);
        BlockOfPrefix(h, last, j, c.failureThreshold, false);
      }
    }
    assert RaisedAt(c, i, h, last) <==>
           Block(h, last, c.failureThreshold, false) && h[last].inputs(i).outcome == Delivered;
    if k: nat :| RaisedAt(c, i, h, k) {
      assert k <= last;
    }
    if !Block(h, last, c.successThreshold, true) {
      if k: nat :| RaisedAt(c, i, p, k) {
        assert RaisedAt(c, i, h, k);
      }
    }
  }

  /** How the last step changes the flag, in terms of blocks of results. */
  lemma {:induction false} RaisedByLastStep(configs: seq<AlertConfig>, i: nat, h: History)
    requires i < |configs| && h != []
    ensures var c := configs[i];
            var last := |h| - 1;
            Run(configs, h).alerts[i].triggered <==>
              if Block(h, last, c.failureThreshold, false) && c.IsEnabled() && h[last].inputs(i).outcome == Delivered
              then true
              else
                Run(configs, h[..last]).alerts[i].triggered &&
                !(c.IsEnabled() && Block(h, last, c.successThreshold, true))
  {
    var c := configs[i];
    CountersAreRunLengths(configs, h);
    CountersAreRunLengths(configs, h[..|h| - 1]);
    BlockIsRunLength(h, c.failureThreshold, false);
    BlockIsRunLength(h, c.successThreshold, true);
  }

  /**
   Over every history from a fresh endpoint and every pattern of failed sends: an
   alert is triggered at the end exactly when it is enabled and some block of
   failures reached the failure threshold while its send went through, with no
   block of successes reaching the success threshold since.
   */
  lemma {:induction false} TriggeredExactlyWhenRaised(configs: seq<AlertConfig>, i: nat, h: History)
    requires i < |configs|
    ensures Run(configs, h).alerts[i].triggered <==>
            configs[i].enabled != Some(false) && exists k: nat :: RaisedAt(configs[i], i, h, k)
  {
    if h == [] {
    } else {
      TriggeredExactlyWhenRaised(configs, i, h[..|h| - 1]);
      RaisedByLastStep(configs, i, h);
      RaisedExtends(configs[i], i, h);
    }
  }

  /** With a provider that never fails only the results matter. */
  lemma {:induction false} TriggeredWithReliableProvider(configs: seq<AlertConfig>, i: nat, h: History)
    requires i < |configs|
    requires forall k :: 0 <= k < |h| ==> h[k].inputs(i).outcome == Delivered
    ensures var c := configs[i];
            Run(configs, h).alerts[i].triggered <==>
              c.enabled != Some(false) && exists k: nat :: Unrecovered(c, h, k)
  {
    TriggeredExactlyWhenRaised(configs, i, h);
    var c := configs[i];
    if k: nat :| Unrecovered(c, h, k) {
      assert RaisedAt(c, i, h, k);
    }
  }

  /**
   Two runs over the same results: an alert that waits for fewer failures and for
   more successes is triggered whenever the other one is, as long as its sends go
   through whenever the other's do.
   */
  lemma {:induction false} ThresholdsAreMonotone(
    eager: seq<AlertConfig>, i: nat, h: History, lazy: seq<AlertConfig>, j: nat, g: History, n: nat)
    requires i < |eager| && j < |lazy| && |h| == |g| && n <= |h|
    requires eager[i].enabled != Some(false)
    requires eager[i].failureThreshold <= lazy[j].failureThreshold
    requires eager[i].successThreshold >= lazy[j].successThreshold
    requires forall k :: 0 <= k < |h| ==> h[k].success == g[k].success
    requires forall k :: 0 <= k < |h| && g[k].inputs(j).outcome == Delivered ==> h[k].inputs(i).outcome == Delivered
    ensures Run(lazy, g[..n]).alerts[j].triggered ==> Run(eager, h[..n]).alerts[i].triggered
  {
    TriggeredExactlyWhenRaised(eager, i, h[..n]);
    TriggeredExactlyWhenRaised(lazy, j, g[..n]);
    if Run(lazy, g[..n]).alerts[j].triggered {
      var k: nat :| RaisedAt(lazy[j], j, g[..n], k);
      assert h[..n][k] == h[k] && g[..n][k] == g[k];
      forall m | k < m < n
        ensures !Block(h[..n], m, eager[i].successThreshold, true)
      {
        assert !Block(g[..n], m, lazy[j].successThreshold, true);
      }
      assert RaisedAt(eager[i], i, h[..n], k);
    }
  }

  // ---------------------------------------------------------------------------
  // What was sent

  /** The part of a log that concerns alert `i`. */
  function About(log: seq<Effect>, i: nat): seq<Effect> {
    if log == [] then []
    else About(log[..|log| - 1], i) + if log[|log| - 1].alert == i then [log[|log| - 1]] else []
  }

  lemma {:induction false} AboutConcat(a: seq<Effect>, b: seq<Effect>, i: nat)
    ensures About(a + b, i) == About(a, i) + About(b, i)
  {
    if b == [] {
      assert a + b == a;
    } else {
      var n := |b| - 1;
      AboutConcat(a, b[..n], i);
      assert (a + b)[..|a + b| - 1] == a + b[..n];
    }
  }

  predicate AllAbout(log: seq<Effect>, i: nat) {
    forall k :: 0 <= k < |log| ==> log[k].alert == i
  }

  lemma {:induction false} AboutOneAlert(log: seq<Effect>, owner: nat, i: nat)
    requires AllAbout(log, owner)
    ensures About(log, i) == if i == owner then log else []
  {
    if log == [] {
    } else {
      var n := |log| - 1;
      AboutOneAlert(log[..n], owner, i);
      assert log == log[..n] + [log[n]];
    }
  }

  function Joined(parts: seq<seq<Effect>>): seq<Effect> {
    if parts == [] then [] else Joined(parts[..|parts| - 1]) + parts[|parts| - 1]
  }

  /** Of logs about one alert each, joined in the order of the alerts, the part about an alert is its own log. */
  lemma {:induction false} AboutJoined(parts: seq<seq<Effect>>, i: nat)
    requires forall k :: 0 <= k < |parts| ==> AllAbout(parts[k], k)
    ensures About(Joined(parts), i) == if i < |parts| then parts[i] else []
  {
    if parts == [] {
    } else {
      var n := |parts| - 1;
      AboutJoined(parts[..n], i);
      AboutConcat(Joined(parts[..n]), parts[n], i);
      AboutOneAlert(parts[n], n, i);
    }
  }

  function PartsOf(e: EndpointState, t: Tick, n: nat): seq<seq<Effect>>
    requires n <= |e.alerts|
  {
    seq(n, i requires 0 <= i < n => EffectsOf(e, t, i))
  }

  lemma {:induction false} LogIsJoined(e: EndpointState, t: Tick, n: nat)
    requires n <= |e.alerts|
    ensures LogUpTo(e, t, n) == Joined(PartsOf(e, t, n))
  {
    if n == 0 {
    } else {
      LogIsJoined(e, t, n - 1);
      assert PartsOf(e, t, n)[..n - 1] == PartsOf(e, t, n - 1);
    }
  }

  lemma {:induction false} EffectsHaveOwner(e: EndpointState, t: Tick, i: nat)
    requires i < |e.alerts|
    ensures AllAbout(EffectsOf(e, t, i), i)
  {
  }

  /** In the log of a step, the part about an alert is what the step does for it. */
  lemma {:induction false} AboutStepLog(e: EndpointState, t: Tick, i: nat)
    requires i < |e.alerts|
    ensures About(StepLog(e, t), i) == EffectsOf(e, t, i)
  {
    var n := |e.alerts|;
    LogIsJoined(e, t, n);
    forall k | 0 <= k < n
      ensures AllAbout(PartsOf(e, t, n)[k], k)
    {
      EffectsHaveOwner(e, t, k);
    }
    AboutJoined(PartsOf(e, t, n), i);
  }

  /** How many initial notifications went out. */
  function InitialSends(log: seq<Effect>): nat {
    if log == [] then 0
    else InitialSends(log[..|log| - 1]) +
         var x := log[|log| - 1];
         if x.Notified? && x.kind == Initial && x.delivered then 1 else 0
  }

  /** How many times the alert was resolved. */
  function Resolutions(log: seq<Effect>): nat {
    if log == [] then 0 else Resolutions(log[..|log| - 1]) + if log[|log| - 1].Forgotten? then 1 else 0
  }

  /** Whether a store that obeys the log holds the alert as triggered at the end. */
  function Remembered(log: seq<Effect>): bool {
    if log == [] then false
    else match log[|log| - 1]
      case Persisted(_) => true
      case Forgotten(_) => false
      case _ => Remembered(log[..|log| - 1])
  }

  lemma {:induction false} SummariesOfConcat(a: seq<Effect>, b: seq<Effect>)
    requires |b| <= 2
    ensures InitialSends(a + b) == InitialSends(a) + InitialSends(b)
    ensures Resolutions(a + b) == Resolutions(a) + Resolutions(b)
    ensures Remembered(a + b) ==
            if (exists x :: x in b && (x.Persisted? || x.Forgotten?)) then Remembered(b) else Remembered(a)
  {
    if b == [] {
      assert a + b == a;
    } else {
      var n := |b| - 1;
      SummariesOfConcat(a, b[..n]);
      assert (a + b)[..|a + b| - 1] == a + b[..n];
      assert b == b[..n] + [b[n]];
    }
  }

  lemma {:induction false} SummariesOfSingle(x: Effect)
    ensures InitialSends([x]) == if x.Notified? && x.kind == Initial && x.delivered then 1 else 0
    ensures Resolutions([x]) == if x.Forgotten? then 1 else 0
    ensures Remembered([x]) == x.Persisted?
  {
    assert [x][..0] == [];
  }

  lemma {:induction false} SummariesOfPair(x: Effect, y: Effect)
    ensures InitialSends([x, y]) == InitialSends([x]) + InitialSends([y])
    ensures Resolutions([x, y]) == Resolutions([x]) + Resolutions([y])
    ensures Remembered([x, y]) == if y.Persisted? || y.Forgotten? then y.Persisted? else x.Persisted?
  {
    SummariesOfSingle(x);
    SummariesOfSingle(y);
    assert [x, y][..1] == [x];
  }

  lemma {:induction false} EffectsSummary(e: EndpointState, t: Tick, i: nat)
    requires i < |e.alerts|
    ensures var x := EffectsOf(e, t, i);
            var was := e.alerts[i].triggered;
            var now := Step(e, t).alerts[i].triggered;
            |x| <= 2 &&
            InitialSends(x) == (if !was && now then 1 else 0) &&
            Resolutions(x) == (if was && !now then 1 else 0) &&
            ((exists y :: y in x && (y.Persisted? || y.Forgotten?)) ==> Remembered(x) == now) &&
            (was != now ==> exists y :: y in x && (y.Persisted? || y.Forgotten?))
  {
    var x := EffectsOf(e, t, i);
    if |x| == 1 {
      SummariesOfSingle(x[0]);
      assert x == [x[0]] && x[0] in x;
    } else if |x| == 2 {
      SummariesOfPair(x[0], x[1]);
      assert x == [x[0], x[1]] && x[0] in x && x[1] in x;
    }
  }

  /** What one more step adds to the part of the log about an alert. */
  lemma {:induction false} AboutOneMore(configs: seq<AlertConfig>, i: nat, h: History)
    requires i < |configs| && h != []
    ensures var p, t := h[..|h| - 1], h[|h| - 1];
            About(FullLog(configs, h), i) == About(FullLog(configs, p), i) + EffectsOf(Run(configs, p), t, i)
  {
    var p, t := h[..|h| - 1], h[|h| - 1];
    AboutConcat(FullLog(configs, p), StepLog(Run(configs, p), t), i);
    AboutStepLog(Run(configs, p), t, i);
  }

  /** A log that balances before a step balances after it. */
  lemma {:induction false} BalanceAfter(log: seq<Effect>, e: EndpointState, t: Tick, i: nat)
    requires i < |e.alerts|
    requires InitialSends(log) - Resolutions(log) == (if e.alerts[i].triggered then 1 else 0)
    requires Remembered(log) == e.alerts[i].triggered
    ensures var longer, triggered := log + EffectsOf(e, t, i), Step(e, t).alerts[i].triggered;
            InitialSends(longer) - Resolutions(longer) == (if triggered then 1 else 0) &&
              Remembered(longer) == triggered
  {
    EffectsSummary(e, t, i);
    SummariesOfConcat(log, EffectsOf(e, t, i));
  }

  /**
   Accounting for one alert over a whole history: successful initial sends minus
   resolutions is 1 while the alert is triggered and 0 otherwise, and a store that
   obeys the persist and forget calls remembers exactly the triggered alerts.
   */
  lemma {:induction false} NotificationsBalance(configs: seq<AlertConfig>, i: nat, h: History)
    requires i < |configs|
    ensures var log := About(FullLog(configs, h), i);
            var triggered := Run(configs, h).alerts[i].triggered;
            InitialSends(log) - Resolutions(log) == (if triggered then 1 else 0) &&
            Remembered(log) == triggered
  {
    if h == [] {
    } else {
      var p, t := h[..|h| - 1], h[|h| - 1];
      var e := Run(configs, p);
      NotificationsBalance(configs, i, p);
      AboutOneMore(configs, i, h);
      BalanceAfter(About(FullLog(configs, p), i), e, t, i);
    }
  }

  lemma {:induction false} InLog(e: EndpointState, t: Tick, n: nat, x: Effect)
    requires n <= |e.alerts| && x in LogUpTo(e, t, n)
    ensures x.alert < n && x in EffectsOf(e, t, x.alert)
  {
    if x !in EffectsOf(e, t, n - 1) {
      InLog(e, t, n - 1, x);
    }
  }

  /** Reminders go out only while the alert is triggered, initial notifications only while it is not. */
  lemma {:induction false} KindOfNotification(configs: seq<AlertConfig>, h: History, k: nat, x: Effect)
    requires k < |h| && x in LogOf(configs, h, k)
    ensures x.alert < |configs|
    ensures x.Notified? ==>
              !h[k].success && configs[x.alert].enabled != Some(false) &&
              (x.kind == Reminder <==> Run(configs, h[..k]).alerts[x.alert].triggered)
    ensures x.Notified? && x.kind == Reminder ==> configs[x.alert].minimumReminderInterval > 0
    ensures x.ResolutionSent? ==>
              h[k].success && Run(configs, h[..k]).alerts[x.alert].triggered &&
              configs[x.alert].sendOnResolved == Some(true)
  {
    InLog(Run(configs, h[..k]), h[k], |configs|, x);
  }

  // ---------------------------------------------------------------------------
  // How far apart notifications are

  /** All clock readings of the history, for `n` alerts, in the order the code takes them. */
  ghost predicate MonotoneClock(h: History, n: nat) {
    && (forall k, i :: 0 <= k < |h| && 0 <= i < n ==> h[k].inputs(i).checkedAt <= h[k].inputs(i).sentAt)
    && (forall k, i, j :: 0 <= k < |h| && 0 <= i < j < n ==> h[k].inputs(i).sentAt <= h[k].inputs(j).checkedAt)
    && (forall k, l, i, j :: 0 <= k < l < |h| && 0 <= i < n && 0 <= j < n ==>
      h[k].inputs(i).sentAt <= h[l].inputs(j).checkedAt)
  }

  lemma {:induction false} ClockOfPrefix(h: History, n: nat, alerts: nat)
    requires MonotoneClock(h, alerts) && n <= |h|
    ensures MonotoneClock(h[..n], alerts)
  {
  }

  /** A delivered notification carries the reading taken when it was sent. */
  lemma {:induction false} SentDuring(configs: seq<AlertConfig>, h: History, k: nat, x: Effect)
    requires k < |h| && x in LogOf(configs, h, k) && x.Notified? && x.delivered
    ensures x.alert < |configs| && !h[k].success && x.at == h[k].inputs(x.alert).sentAt
    ensures Sends(Run(configs, h[..k]), h[k].inputs, x.alert)
  {
    InLog(Run(configs, h[..k]), h[k], |configs|, x);
  }

  lemma {:induction false} LastReminderGrows(e: EndpointState, inputs: nat -> AlertInput, n: nat, bound: int)
    requires n <= |e.alerts|
    requires e.lastReminderSent.Some? && bound <= e.lastReminderSent.value
    requires forall j :: 0 <= j < n ==> bound <= inputs(j).checkedAt <= inputs(j).sentAt
    ensures var r := LastReminderUpTo(e, inputs, n); r.Some? && bound <= r.value
  {
    if n == 0 {
    } else {
      LastReminderGrows(e, inputs, n - 1, bound);
    }
  }

  lemma {:induction false} LastReminderCovers(e: EndpointState, inputs: nat -> AlertInput, n: nat, i: nat)
    requires i < n <= |e.alerts| && Sends(e, inputs, i)
    requires forall j :: 0 <= j < n ==> inputs(j).checkedAt <= inputs(j).sentAt
    requires forall j, k :: 0 <= j < k < n ==> inputs(j).sentAt <= inputs(k).checkedAt
    ensures var r := LastReminderUpTo(e, inputs, n); r.Some? && inputs(i).sentAt <= r.value
  {
    if i < n - 1 {
      LastReminderCovers(e, inputs, n - 1, i);
    }
  }

  /** A delivered notification made during step `k` left its mark in the shared reminder time. */
  lemma {:induction false} LastReminderIsNewest(configs: seq<AlertConfig>, h: History, k: nat, x: Effect)
    requires MonotoneClock(h, |configs|)
    requires k < |h| && x in LogOf(configs, h, k) && x.Notified? && x.delivered
    ensures var r := Run(configs, h).lastReminderSent; r.Some? && x.at <= r.value
  {
    var last := |h| - 1;
    var p := h[..last];
    if k < last {
      assert p[..k] == h[..k] && p[k] == h[k];
      ClockOfPrefix(h, last, |configs|);
      LastReminderIsNewest(configs, p, k, x);
      SentDuring(configs, h, k, x);
      if !h[last].success {
        LastReminderGrows(Run(configs, p), h[last].inputs, |configs|, x.at);
      }
    } else {
      SentDuring(configs, h, k, x);
      LastReminderCovers(Run(configs, p), h[last].inputs, |configs|, x.alert);
    }
  }

  /** A reminder is sent no earlier than its check, which found the interval elapsed. */
  lemma {:induction false} ReminderIsDue(e: EndpointState, t: Tick, y: Effect)
    requires y in StepLog(e, t) && y.Notified? && y.kind == Reminder
    ensures y.alert < |e.alerts| && !t.success && y.at == t.inputs(y.alert).sentAt
    ensures e.lastReminderSent.Some? ==>
              t.inputs(y.alert).checkedAt - e.lastReminderSent.value >= e.alerts[y.alert].config.minimumReminderInterval
  {
    InLog(e, t, |e.alerts|, y);
  }

  /**
   Reminder spacing under a monotone clock, whatever the order of the alerts list:
   a reminder attempted for some alert comes at least that alert's interval after
   every notification delivered for any alert of the endpoint in an earlier step.
   */
  lemma {:induction false} RemindersAreSpaced(
      configs: seq<AlertConfig>, h: History, k: nat, x: Effect, l: nat, y: Effect)
    requires MonotoneClock(h, |configs|)
    requires k < l < |h|
    requires x in LogOf(configs, h, k) && x.Notified? && x.delivered
    requires y in LogOf(configs, h, l) && y.Notified? && y.kind == Reminder
    ensures y.alert < |configs| && y.at - x.at >= configs[y.alert].minimumReminderInterval
  {
    var p := h[..l];
    assert p[..k] == h[..k] && p[k] == h[k];
    ClockOfPrefix(h, l, |configs|);
    LastReminderIsNewest(configs, p, k, x);
    SentDuring(configs, h, k, x);
    ReminderIsDue(Run(configs, p), h[l], y);
  }

  /** One step sends at most one notification per alert. */
  lemma {:induction false} OneNotificationPerStep(configs: seq<AlertConfig>, h: History, k: nat, i: nat)
    requires k < |h| && i < |configs|
    ensures var mine := About(LogOf(configs, h, k), i);
            forall a, b :: 0 <= a < b < |mine| ==> !(mine[a].Notified? && mine[b].Notified?)
  {
    AboutStepLog(Run(configs, h[..k]), h[k], i);
  }

  // ---------------------------------------------------------------------------
  // When exactly a reminder is attempted

  /** The time of the last delivered notification in a log. */
  function LastDelivered(log: seq<Effect>): Option<int> {
    if log == [] then None
    else
      var x := log[|log| - 1];
      if x.Notified? && x.delivered then Some(x.at) else LastDelivered(log[..|log| - 1])
  }

  function OrElse(a: Option<int>, b: Option<int>): Option<int> {
    if a.Some? then a else b
  }

  lemma {:induction false} LastDeliveredOfConcat(a: seq<Effect>, b: seq<Effect>)
    ensures LastDelivered(a + b) == OrElse(LastDelivered(b), LastDelivered(a))
  {
    if b == [] {
      assert a + b == a;
    } else {
      var n := |b| - 1;
      assert (a + b)[..|a + b| - 1] == a + b[..n];
      LastDeliveredOfConcat(a, b[..n]);
    }
  }

  lemma {:induction false} LastDeliveredOfSingle(x: Effect)
    ensures LastDelivered([x]) == if x.Notified? && x.delivered then Some(x.at) else None
  {
    assert [x][..0] == [];
  }

  lemma {:induction false} LastDeliveredOfOne(e: EndpointState, t: Tick, i: nat)
    requires i < |e.alerts|
    ensures LastDelivered(EffectsOf(e, t, i)) ==
            if !t.success && Sends(e, t.inputs, i) then Some(t.inputs(i).sentAt) else None
  {
    var x := EffectsOf(e, t, i);
    if |x| == 2 {
      assert x == [x[0]] + [x[1]];
      LastDeliveredOfConcat([x[0]], [x[1]]);
      LastDeliveredOfSingle(x[0]);
      LastDeliveredOfSingle(x[1]);
    } else if |x| == 1 {
      assert x == [x[0]];
      LastDeliveredOfSingle(x[0]);
    }
  }

  /** The last delivered notification of some logs, one after the other, or else `r`. */
  function LastOf(parts: seq<seq<Effect>>, r: Option<int>): Option<int> {
    if parts == [] then r else OrElse(LastDelivered(parts[|parts| - 1]), LastOf(parts[..|parts| - 1], r))
  }

  lemma {:induction false} LastDeliveredOfJoined(parts: seq<seq<Effect>>, r: Option<int>)
    ensures OrElse(LastDelivered(Joined(parts)), r) == LastOf(parts, r)
  {
    if parts == [] {
    } else {
      var n := |parts| - 1;
      LastDeliveredOfJoined(parts[..n], r);
      LastDeliveredOfConcat(Joined(parts[..n]), parts[n]);
    }
  }

  lemma {:induction false} LastOfParts(e: EndpointState, t: Tick, n: nat)
    requires n <= |e.alerts|
    ensures LastOf(PartsOf(e, t, n), e.lastReminderSent) ==
            if t.success then e.lastReminderSent else LastReminderUpTo(e, t.inputs, n)
  {
    if n == 0 {
    } else {
      LastOfParts(e, t, n - 1);
      LastDeliveredOfOne(e, t, n - 1);
      assert PartsOf(e, t, n)[..n - 1] == PartsOf(e, t, n - 1);
    }
  }

  lemma {:induction false} LastDeliveredInStep(e: EndpointState, t: Tick)
    ensures OrElse(LastDelivered(StepLog(e, t)), e.lastReminderSent) == Step(e, t).lastReminderSent
  {
    LogIsJoined(e, t, |e.alerts|);
    LastDeliveredOfJoined(PartsOf(e, t, |e.alerts|), e.lastReminderSent);
    LastOfParts(e, t, |e.alerts|);
  }

  /** The shared reminder time is that of the last notification delivered, whichever alert it was for. */
  lemma {:induction false} LastReminderIsLastDelivered(configs: seq<AlertConfig>, h: History)
    ensures Run(configs, h).lastReminderSent == LastDelivered(FullLog(configs, h))
  {
    if h == [] {
    } else {
      var p, t := h[..|h| - 1], h[|h| - 1];
      LastReminderIsLastDelivered(configs, p);
      LastDeliveredOfConcat(FullLog(configs, p), StepLog(Run(configs, p), t));
      LastDeliveredInStep(Run(configs, p), t);
    }
  }

  lemma {:induction false} ReminderTimeIsSet(e: EndpointState, inputs: nat -> AlertInput, n: nat, i: nat)
    requires n <= |e.alerts|
    requires e.lastReminderSent.Some? || (i < n && Sends(e, inputs, i))
    ensures LastReminderUpTo(e, inputs, n).Some?
  {
    if n == 0 {
    } else if e.lastReminderSent.Some? || i < n - 1 {
      ReminderTimeIsSet(e, inputs, n - 1, i);
    }
  }

  /** Only a delivered notification triggers an alert. */
  lemma {:induction false} TriggeredWasNotified(configs: seq<AlertConfig>, h: History, i: nat)
    requires i < |configs| && Run(configs, h).alerts[i].triggered
    ensures Run(configs, h).lastReminderSent.Some?
  {
    if h == [] {
    } else {
      var p, t := h[..|h| - 1], h[|h| - 1];
      var e := Run(configs, p);
      if e.alerts[i].triggered {
        TriggeredWasNotified(configs, p, i);
      }
      if !t.success {
        ReminderTimeIsSet(e, t.inputs, |configs|, i);
      }
    }
  }

  /** Whether step `k` attempts to remind of alert `i`. */
  ghost predicate Reminds(configs: seq<AlertConfig>, h: History, k: nat, i: nat)
    requires k < |h|
  {
    exists x :: x in LogOf(configs, h, k) && x.alert == i && x.Notified? && x.kind == Reminder
  }

  lemma {:induction false} BlockAtStep(configs: seq<AlertConfig>, h: History, k: nat, n: int, ok: bool)
    requires k < |h|
    ensures var e := Run(configs, h[..k]);
            Block(h, k, n, ok) <==> h[k].success == ok && n <= (if ok then e.successes else e.failures) + 1
  {
    var p := h[..k + 1];
    assert p[..k] == h[..k];
    BlockOfPrefix(h, k + 1, k, n, ok);
    BlockIsRunLength(p, n, ok);
    CountersAreRunLengths(configs, h[..k]);
  }

  lemma {:induction false} EffectsAreLogged(e: EndpointState, t: Tick, n: nat, i: nat, x: Effect)
    requires i < n <= |e.alerts| && x in EffectsOf(e, t, i)
    ensures x in LogUpTo(e, t, n)
  {
    if i == n - 1 {
    } else {
      EffectsAreLogged(e, t, n - 1, i, x);
    }
  }

  /** The same in terms of the state before the step. */
  lemma {:induction false} RemindedInStep(e: EndpointState, t: Tick, i: nat)
    requires i < |e.alerts|
    ensures (exists x :: x in StepLog(e, t) && x.alert == i && x.Notified? && x.kind == Reminder) <==>
            !t.success && t.inputs(i).outcome != NotConfigured &&
            Attempt(e.alerts[i], e.failures + 1, e.lastReminderSent, t.inputs(i).checkedAt) == Some(Reminder)
  {
    if x :| x in StepLog(e, t) && x.alert == i && x.Notified? && x.kind == Reminder {
      InLog(e, t, |e.alerts|, x);
    }
    if !t.success && t.inputs(i).outcome != NotConfigured &&
       Attempt(e.alerts[i], e.failures + 1, e.lastReminderSent, t.inputs(i).checkedAt) == Some(Reminder) {
      var x := EffectsOf(e, t, i)[0];
      EffectsAreLogged(e, t, |e.alerts|, i, x);
    }
  }

  /**
   A reminder is attempted exactly on a failing step, for an enabled and triggered
   alert with reminders whose provider is configured, when the failures have again
   reached its threshold and its interval has passed since the last notification
   delivered for any alert of the endpoint.
   */
  lemma {:induction false} RemindedExactly(configs: seq<AlertConfig>, h: History, k: nat, i: nat)
    requires k < |h| && i < |configs|
    ensures var c := configs[i];
            var last := LastDelivered(FullLog(configs, h[..k]));
            Reminds(configs, h, k, i) <==>
              Block(h, k, c.failureThreshold, false) && c.enabled != Some(false) && c.minimumReminderInterval > 0 &&
              Run(configs, h[..k]).alerts[i].triggered && h[k].inputs(i).outcome != NotConfigured &&
              last.Some? && h[k].inputs(i).checkedAt - last.value >= c.minimumReminderInterval
  {
    var e := Run(configs, h[..k]);
    if e.alerts[i].triggered {
      TriggeredWasNotified(configs, h[..k], i);
    }
    LastReminderIsLastDelivered(configs, h[..k]);
    BlockAtStep(configs, h, k, configs[i].failureThreshold, false);
    RemindedInStep(e, h[k], i);
  }

  // ---------------------------------------------------------------------------
  // Everything that is sent, persisted and forgotten, in terms of the results

  lemma {:induction false} AboutMembers(log: seq<Effect>, i: nat, x: Effect)
    ensures x in About(log, i) <==> x in log && x.alert == i
  {
    if log == [] {
    } else {
      var n := |log| - 1;
      AboutMembers(log[..n], i, x);
      assert log == log[..n] + [log[n]];
    }
  }

  /** The alert was raised and has not been resolved since. */
  ghost predicate Standing(c: AlertConfig, i: nat, h: History) {
    c.enabled != Some(false) && exists k: nat :: RaisedAt(c, i, h, k)
  }

  /** The interval of reminders has passed since the last notification delivered for any alert. */
  ghost predicate ReminderIsDueAt(configs: seq<AlertConfig>, h: History, k: nat, i: nat)
    requires k < |h| && i < |configs|
  {
    var last := LastDelivered(FullLog(configs, h[..k]));
    configs[i].minimumReminderInterval > 0 && last.Some? &&
    h[k].inputs(i).checkedAt - last.value >= configs[i].minimumReminderInterval
  }

  /** What a successful step asks for an alert, in order. */
  ghost predicate AskedOnSuccess(
      log: seq<Effect>, i: nat, c: AlertConfig, enough: bool, outcome: Outcome, raised: bool) {
    if !raised then log == []
    else if !enough then log == [Persisted(i)]
    else if c.sendOnResolved != Some(true) then log == [Forgotten(i)]
    else match outcome
      case NotConfigured => log == [Forgotten(i)]
      case Failed => log == [Forgotten(i), ResolutionSent(i, false)]
      case Delivered => log == [Forgotten(i), ResolutionSent(i, true)]
  }

  /** What a failing step asks for an alert, in order, where something is due. */
  ghost predicate AskedOnFailure(log: seq<Effect>, i: nat, kind: Kind, input: AlertInput) {
    match input.outcome
    case NotConfigured => log == []
    case Failed => log == [Notified(i, kind, input.sentAt, false)]
    case Delivered => log == [Notified(i, kind, input.sentAt, true), Persisted(i)]
  }

  lemma {:induction false} EffectsOnSuccess(e: EndpointState, t: Tick, i: nat)
    requires i < |e.alerts| && t.success
    ensures var s := e.alerts[i];
            AskedOnSuccess(EffectsOf(e, t, i), i, s.config, s.config.successThreshold <= e.successes + 1,
                           t.inputs(i).outcome, s.config.enabled != Some(false) && s.triggered)
  {
  }

  lemma {:induction false} EffectsOnFailure(e: EndpointState, t: Tick, i: nat)
    requires i < |e.alerts| && !t.success
    ensures var attempt := Attempt(e.alerts[i], e.failures + 1, e.lastReminderSent, t.inputs(i).checkedAt);
            if attempt.None? then EffectsOf(e, t, i) == []
            else AskedOnFailure(EffectsOf(e, t, i), i, attempt.value, t.inputs(i))
  {
  }

  /**
   A successful step asks, for an alert that is raised: below its success threshold to
   persist it again, and from there on to forget it and, if configured so, to send the
   resolution.  For any other alert it asks nothing.
   */
  lemma {:induction false} AskedBySuccess(configs: seq<AlertConfig>, h: History, k: nat, i: nat)
    requires k < |h| && i < |configs| && h[k].success
    ensures AskedOnSuccess(About(LogOf(configs, h, k), i), i, configs[i],
                           Block(h, k, configs[i].successThreshold, true), h[k].inputs(i).outcome,
                           Standing(configs[i], i, h[..k]))
  {
    var e := Run(configs, h[..k]);
    AboutStepLog(e, h[k], i);
    EffectsOnSuccess(e, h[k], i);
    BlockAtStep(configs, h, k, configs[i].successThreshold, true);
    TriggeredExactlyWhenRaised(configs, i, h[..k]);
  }

  /**
   A failing step that completes the block of failures of an enabled alert sends the
   initial notification, unless it is raised already; and then a reminder once that is
   due.  Nothing else is sent.
   */
  lemma {:induction false} AskedByFailure(configs: seq<AlertConfig>, h: History, k: nat, i: nat)
    requires k < |h| && i < |configs| && !h[k].success
    ensures var log, raised := About(LogOf(configs, h, k), i), Standing(configs[i], i, h[..k]);
            if configs[i].enabled == Some(false) || !Block(h, k, configs[i].failureThreshold, false) then log == []
            else if !raised then AskedOnFailure(log, i, Initial, h[k].inputs(i))
            else if ReminderIsDueAt(configs, h, k, i) then AskedOnFailure(log, i, Reminder, h[k].inputs(i))
            else log == []
  {
    var e := Run(configs, h[..k]);
    AboutStepLog(e, h[k], i);
    EffectsOnFailure(e, h[k], i);
    BlockAtStep(configs, h, k, configs[i].failureThreshold, false);
    TriggeredExactlyWhenRaised(configs, i, h[..k]);
    LastReminderIsLastDelivered(configs, h[..k]);
    if e.alerts[i].triggered {
      TriggeredWasNotified(configs, h[..k], i);
    }
  }

  predicate EndsAs(outcome: Outcome, delivered: bool) {
    outcome == if delivered then Delivered else Failed
  }

  /**
   A resolution is sent exactly by the step that completes the block of successes of a
   raised alert which asks for it; it is delivered exactly if the provider takes it.
   */
  lemma {:induction false} ResolutionSentExactly(configs: seq<AlertConfig>, h: History, k: nat, i: nat, delivered: bool)
    requires k < |h| && i < |configs|
    ensures ResolutionSent(i, delivered) in LogOf(configs, h, k) <==>
            Block(h, k, configs[i].successThreshold, true) && Standing(configs[i], i, h[..k]) &&
            configs[i].sendOnResolved == Some(true) && EndsAs(h[k].inputs(i).outcome, delivered)
  {
    AboutMembers(LogOf(configs, h, k), i, ResolutionSent(i, delivered));
    if h[k].success {
      AskedBySuccess(configs, h, k, i);
    } else {
      AskedByFailure(configs, h, k, i);
    }
  }

  /** An alert is forgotten exactly by the step that completes its block of successes. */
  lemma {:induction false} ForgottenExactly(configs: seq<AlertConfig>, h: History, k: nat, i: nat)
    requires k < |h| && i < |configs|
    ensures Forgotten(i) in LogOf(configs, h, k) <==>
            Block(h, k, configs[i].successThreshold, true) && Standing(configs[i], i, h[..k])
  {
    AboutMembers(LogOf(configs, h, k), i, Forgotten(i));
    if h[k].success {
      AskedBySuccess(configs, h, k, i);
    } else {
      AskedByFailure(configs, h, k, i);
    }
  }

  /**
   Initial notifications go out, delivered or not, exactly in the steps that complete
   or prolong the block of failures of an enabled alert that is not raised.
   */
  lemma {:induction false} InitialSentExactly(
      configs: seq<AlertConfig>, h: History, k: nat, i: nat, at: int, delivered: bool)
    requires k < |h| && i < |configs|
    ensures Notified(i, Initial, at, delivered) in LogOf(configs, h, k) <==>
            Block(h, k, configs[i].failureThreshold, false) && configs[i].enabled != Some(false) &&
            !Standing(configs[i], i, h[..k]) && at == h[k].inputs(i).sentAt &&
            EndsAs(h[k].inputs(i).outcome, delivered)
  {
    AboutMembers(LogOf(configs, h, k), i, Notified(i, Initial, at, delivered));
    if h[k].success {
      AskedBySuccess(configs, h, k, i);
    } else {
      AskedByFailure(configs, h, k, i);
    }
  }

  /** Reminders go out, delivered or not, exactly for raised alerts that keep failing, once they are due. */
  lemma {:induction false} ReminderSentExactly(
      configs: seq<AlertConfig>, h: History, k: nat, i: nat, at: int, delivered: bool)
    requires k < |h| && i < |configs|
    ensures Notified(i, Reminder, at, delivered) in LogOf(configs, h, k) <==>
            Block(h, k, configs[i].failureThreshold, false) && Standing(configs[i], i, h[..k]) &&
            ReminderIsDueAt(configs, h, k, i) && at == h[k].inputs(i).sentAt &&
            EndsAs(h[k].inputs(i).outcome, delivered)
  {
    AboutMembers(LogOf(configs, h, k), i, Notified(i, Reminder, at, delivered));
    if h[k].success {
      AskedBySuccess(configs, h, k, i);
    } else {
      AskedByFailure(configs, h, k, i);
    }
  }

  /** An alert is persisted exactly with each delivered notification, and by each success that is not yet enough. */
  lemma {:induction false} PersistedExactly(configs: seq<AlertConfig>, h: History, k: nat, i: nat)
    requires k < |h| && i < |configs|
    ensures Persisted(i) in LogOf(configs, h, k) <==>
            if h[k].success
            then Standing(configs[i], i, h[..k]) && !Block(h, k, configs[i].successThreshold, true)
            else
              Notified(i, Initial, h[k].inputs(i).sentAt, true) in LogOf(configs, h, k) ||
              Notified(i, Reminder, h[k].inputs(i).sentAt, true) in LogOf(configs, h, k)
  {
    AboutMembers(LogOf(configs, h, k), i, Persisted(i));
    if h[k].success {
      AskedBySuccess(configs, h, k, i);
    } else {
      AboutMembers(LogOf(configs, h, k), i, Notified(i, Initial, h[k].inputs(i).sentAt, true));
      AboutMembers(LogOf(configs, h, k), i, Notified(i, Reminder, h[k].inputs(i).sentAt, true));
      AskedByFailure(configs, h, k, i);
    }
  }

  ghost predicate InListOrder(log: seq<Effect>) {
    forall a, b :: 0 <= a <= b < |log| ==> log[a].alert <= log[b].alert
  }

  lemma {:induction false} LogUpToIsInOrder(e: EndpointState, t: Tick, n: nat)
    requires n <= |e.alerts|
    ensures InListOrder(LogUpTo(e, t, n)) && forall a :: 0 <= a < |LogUpTo(e, t, n)| ==> LogUpTo(e, t, n)[a].alert < n
  {
    if n == 0 {
    } else {
      LogUpToIsInOrder(e, t, n - 1);
      EffectsHaveOwner(e, t, n - 1);
    }
  }

  /** A step asks for the alerts in the order of the list, and for no others. */
  lemma {:induction false} AskedInListOrder(configs: seq<AlertConfig>, h: History, k: nat)
    requires k < |h|
    ensures InListOrder(LogOf(configs, h, k)) && forall x :: x in LogOf(configs, h, k) ==> x.alert < |configs|
  {
    LogUpToIsInOrder(Run(configs, h[..k]), h[k], |configs|);
  }

  // ---------------------------------------------------------------------------
  // One alert's reminders can keep another's from ever being due

  /** Every result is a failure, and every send of alert `i` goes through. */
  ghost predicate FailsThroughout(h: History, i: nat) {
    forall k :: 0 <= k < |h| ==> !h[k].success && h[k].inputs(i).outcome == Delivered
  }

  function Gap(was: Tick, i: nat, t: Tick, j: nat): int {
    t.inputs(j).checkedAt - was.inputs(i).sentAt
  }

  /** From every send of one step to every check of the next it takes at least `low`, and less than `high`. */
  ghost predicate PacedBetween(was: Tick, t: Tick, n: nat, low: int, high: int) {
    forall i: nat, j: nat :: i < n && j < n ==> low <= Gap(was, i, t, j) < high
  }

  ghost predicate PacedAt(h: History, k: nat, n: nat, low: int, high: int)
    requires 0 < k < |h|
  {
    PacedBetween(h[k - 1], h[k], n, low, high)
  }

  ghost predicate Paced(h: History, n: nat, low: int, high: int) {
    forall k: nat :: 0 < k < |h| ==> PacedAt(h, k, n, low, high)
  }

  predicate IsSentAt(r: Option<int>, t: Tick, i: nat) {
    r == Some(t.inputs(i).sentAt)
  }

  /** The time is that of the send of one of the first `n` alerts. */
  ghost predicate IsSend(r: Option<int>, t: Tick, n: nat) {
    exists i: nat :: i < n && IsSentAt(r, t, i)
  }

  /** Some alert was the last to be sent. */
  lemma {:induction false} LastSendIsOneOfThem(e: EndpointState, t: Tick, n: nat, i: nat)
    requires i < n <= |e.alerts| && Sends(e, t.inputs, i)
    ensures IsSend(LastReminderUpTo(e, t.inputs, n), t, n)
  {
    if Sends(e, t.inputs, n - 1) {
      assert IsSentAt(LastReminderUpTo(e, t.inputs, n), t, n - 1);
    } else {
      LastSendIsOneOfThem(e, t, n - 1, i);
      var j: nat :| j < n - 1 && IsSentAt(LastReminderUpTo(e, t.inputs, n - 1), t, j);
      assert IsSentAt(LastReminderUpTo(e, t.inputs, n), t, j);
    }
  }

  /** The alert is due at its pace, once it has been sent. */
  lemma {:induction false} DueAgain(e: EndpointState, was: Tick, t: Tick, short: nat, low: int)
    requires short < |e.alerts| && e.alerts[short].config.IsEnabled() && e.alerts[short].config.failureThreshold <= 1
    requires e.failures >= 0 && 0 < low == e.alerts[short].config.minimumReminderInterval
    requires e.alerts[short].triggered ==> IsSend(e.lastReminderSent, was, |e.alerts|)
    requires forall i: nat :: i < |e.alerts| ==> low <= Gap(was, i, t, short)
    ensures Attempt(e.alerts[short], e.failures + 1, e.lastReminderSent, t.inputs(short).checkedAt) ==
            Some(if e.alerts[short].triggered then Reminder else Initial)
  {
    if e.alerts[short].triggered {
      var j: nat :| j < |e.alerts| && IsSentAt(e.lastReminderSent, was, j);
      assert low <= Gap(was, j, t, short);
    }
  }

  lemma {:induction false} FewerSteps(configs: seq<AlertConfig>, h: History, n: nat, short: nat, high: int)
    requires short < |configs| && n <= |h|
    requires FailsThroughout(h, short) && Paced(h, |configs|, configs[short].minimumReminderInterval, high)
    ensures FailsThroughout(h[..n], short) && Paced(h[..n], |configs|, configs[short].minimumReminderInterval, high)
  {
    forall k: nat | 0 < k < n
      ensures PacedAt(h[..n], k, |configs|, configs[short].minimumReminderInterval, high)
    {
      assert PacedAt(h, k, |configs|, configs[short].minimumReminderInterval, high);
    }
  }

  /** The state of an endpoint that fails at a pace at which alert `short` is always due again. */
  lemma {:induction false} PacedState(configs: seq<AlertConfig>, h: History, short: nat, high: int)
    requires short < |configs| && configs[short].enabled != Some(false) && configs[short].failureThreshold <= 1
    requires configs[short].minimumReminderInterval > 0
    requires FailsThroughout(h, short) && Paced(h, |configs|, configs[short].minimumReminderInterval, high)
    ensures Run(configs, h).failures == |h| && Run(configs, h).alerts[short].triggered == (h != [])
    ensures h != [] ==> IsSend(Run(configs, h).lastReminderSent, h[|h| - 1], |configs|)
  {
    if h == [] {
    } else {
      var n := |h| - 1;
      var e := Run(configs, h[..n]);
      FewerSteps(configs, h, n, short, high);
      PacedState(configs, h[..n], short, high);
      if n > 0 {
        assert PacedAt(h, n, |configs|, configs[short].minimumReminderInterval, high);
        DueAgain(e, h[n - 1], h[n], short, configs[short].minimumReminderInterval);
      }
      assert Sends(e, h[n].inputs, short);
      LastSendIsOneOfThem(e, h[n], |configs|, short);
    }
  }

  /** An alert is not due again while its interval has not passed. */
  lemma {:induction false} NotYetDue(e: EndpointState, was: Tick, t: Tick, long: nat)
    requires long < |e.alerts| && IsSend(e.lastReminderSent, was, |e.alerts|)
    requires forall i: nat :: i < |e.alerts| ==>
               Gap(was, i, t, long) < e.alerts[long].config.minimumReminderInterval
    ensures Attempt(e.alerts[long], e.failures + 1, e.lastReminderSent, t.inputs(long).checkedAt) != Some(Reminder)
  {
    var j: nat :| j < |e.alerts| && IsSentAt(e.lastReminderSent, was, j);
    assert Gap(was, j, t, long) < e.alerts[long].config.minimumReminderInterval;
  }

  /**
   Whatever the alerts of an endpoint, and however long it keeps failing: if from each
   send to the next check it takes at least the interval of one alert, and less than
   that of another, the first is reminded of in every step but the initial one, and
   the second in none.
   */
  lemma {:induction false} ShortIntervalStarvesLong(
      configs: seq<AlertConfig>, h: History, short: nat, long: nat, k: nat)
    requires short < |configs| && configs[short].enabled != Some(false) && configs[short].failureThreshold <= 1
    requires configs[short].minimumReminderInterval > 0 && long < |configs|
    requires FailsThroughout(h, short)
    requires Paced(h, |configs|, configs[short].minimumReminderInterval, configs[long].minimumReminderInterval)
    requires k < |h|
    ensures !Reminds(configs, h, k, long) && (k > 0 ==> Reminds(configs, h, k, short))
  {
    var p, high := h[..k], configs[long].minimumReminderInterval;
    var e := Run(configs, p);
    FewerSteps(configs, h, k, short, high);
    PacedState(configs, p, short, high);
    RemindedInStep(e, h[k], short);
    RemindedInStep(e, h[k], long);
    if k == 0 {
      assert p == [] && !e.alerts[long].triggered;
    } else {
      assert PacedAt(h, k, |configs|, configs[short].minimumReminderInterval, high);
      DueAgain(e, h[k - 1], h[k], short, configs[short].minimumReminderInterval);
      NotYetDue(e, h[k - 1], h[k], long);
    }
  }
}
