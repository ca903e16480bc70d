/**
 The alert state machine of one endpoint: two run-length counters, a `triggered`
 flag per alert, and a shared time of the last notification.

 Sending is an oracle.  Each call of `HandleAlerting` is given, for every position
 in the alerts list, the two clock readings the code takes while it handles that
 alert and what became of the send.  What the code asks of the outside world (the
 sends, and the two calls that persist or forget a triggered alert) is returned as
 a log of effects.
 */
module Alerting {
  import opened Durations
  import opened Prelude

  /** What happens when the alert at some position is sent during a step. */
  datatype Outcome = NotConfigured | Failed | Delivered

  /** `checkedAt` is the reading behind `time.Since`, `sentAt` the one stored as the last reminder time. */
  datatype AlertInput = AlertInput(checkedAt: int, sentAt: int, outcome: Outcome)

  datatype Kind = Initial | Reminder

  datatype Effect =
    | Notified(alert: nat, kind: Kind, at: int, delivered: bool)
    | ResolutionSent(alert: nat, delivered: bool)
    | Persisted(alert: nat)
    | Forgotten(alert: nat)

  datatype AlertConfig = AlertConfig(
    enabled: Option<bool>,
    failureThreshold: int,
    successThreshold: int,
    minimumReminderInterval: int,
    sendOnResolved: Option<bool>)
  {
    /** An alert is enabled unless its configuration says otherwise. */
    predicate IsEnabled(): (r: bool)
      ensures r <==> enabled != Some(false)
    {
      enabled.None? || enabled.value
    }

    /** Resolutions are sent only where the configuration says so. */
    predicate IsSendingOnResolved(): (r: bool)
      ensures r <==> sendOnResolved == Some(true)
    {
      sendOnResolved.Some? && sendOnResolved.value
    }
  }

  datatype AlertState = AlertState(config: AlertConfig, triggered: bool)

  datatype EndpointState = EndpointState(
    failures: int,
    successes: int,
    lastReminderSent: Option<int>,
    alerts: seq<AlertState>)

  /** One evaluation result, together with the oracle's answers for that step. */
  datatype Tick = Tick(success: bool, inputs: nat -> AlertInput)

  // ---------------------------------------------------------------------------
  // Specification of one step

  /** Whether an alert has to be sent on a failing step, and as what. */
  function Attempt(s: AlertState, failures: int, snapshot: Option<int>, checkedAt: int): Option<Kind> {
    if !s.config.IsEnabled() || s.config.failureThreshold > failures then None
    else if !s.triggered then Some(Initial)
    else if s.config.minimumReminderInterval > 0 &&
            (snapshot.None? || checkedAt - snapshot.value >= s.config.minimumReminderInterval)
    then Some(Reminder)
    else None
  }

  predicate Sends(e: EndpointState, inputs: nat -> AlertInput, i: nat)
    requires i < |e.alerts|
  {
    inputs(i).outcome == Delivered &&
    Attempt(e.alerts[i], e.failures + 1, e.lastReminderSent, inputs(i).checkedAt).Some?
  }

  function TriggerEffects(e: EndpointState, inputs: nat -> AlertInput, i: nat): seq<Effect>
    requires i < |e.alerts|
  {
    var attempt := Attempt(e.alerts[i], e.failures + 1, e.lastReminderSent, inputs(i).checkedAt);
    if attempt.None? then []
    else match inputs(i).outcome
      case NotConfigured => []
      case Failed => [Notified(i, attempt.value, inputs(i).sentAt, false)]
      case Delivered => [Notified(i, attempt.value, inputs(i).sentAt, true), Persisted(i)]
  }

  predicate Resolves(e: EndpointState, i: nat)
    requires i < |e.alerts|
  {
    var s := e.alerts[i];
    s.config.IsEnabled() && s.triggered && s.config.successThreshold <= e.successes + 1
  }

  function ResolveEffects(e: EndpointState, inputs: nat -> AlertInput, i: nat): seq<Effect>
    requires i < |e.alerts|
  {
    var s := e.alerts[i];
    if Resolves(e, i) then
      [Forgotten(i)] +
      if s.config.IsSendingOnResolved() && inputs(i).outcome != NotConfigured
      then [ResolutionSent(i, inputs(i).outcome == Delivered)] else []
    else if s.config.IsEnabled() && s.triggered then [Persisted(i)]
    else []
  }

  function EffectsOf(e: EndpointState, t: Tick, i: nat): seq<Effect>
    requires i < |e.alerts|
  {
    if t.success then ResolveEffects(e, t.inputs, i) else TriggerEffects(e, t.inputs, i)
  }

  /** The effects of the first `n` alerts, in list order. */
  function LogUpTo(e: EndpointState, t: Tick, n: nat): seq<Effect>
    requires n <= |e.alerts|
  {
    if n == 0 then [] else LogUpTo(e, t, n - 1) + EffectsOf(e, t, n - 1)
  }

  function StepLog(e: EndpointState, t: Tick): seq<Effect> {
    LogUpTo(e, t, |e.alerts|)
  }

  /** The last reminder time once the first `n` alerts of a failing step are handled. */
  function LastReminderUpTo(e: EndpointState, inputs: nat -> AlertInput, n: nat): Option<int>
    requires n <= |e.alerts|
  {
    if n == 0 then e.lastReminderSent
    else if Sends(e, inputs, n - 1) then Some(inputs(n - 1).sentAt)
    else LastReminderUpTo(e, inputs, n - 1)
  }

  function AlertAfter(e: EndpointState, t: Tick, i: nat): AlertState
    requires i < |e.alerts|
  {
    var s := e.alerts[i];
    if t.success then s.(triggered := s.triggered && !Resolves(e, i))
    else s.(triggered := s.triggered || Sends(e, t.inputs, i))
  }

  function Step(e: EndpointState, t: Tick): EndpointState {
    EndpointState(
      if t.success then 0 else e.failures + 1,
      if t.success then e.successes + 1 else 0,
      if t.success then e.lastReminderSent else LastReminderUpTo(e, t.inputs, |e.alerts|),
      seq(|e.alerts|, i requires 0 <= i < |e.alerts| => AlertAfter(e, t, i)))
  }

  // ---------------------------------------------------------------------------
  // Specification of a whole history, from a fresh endpoint

  type History = seq<Tick>

  function Fresh(configs: seq<AlertConfig>): EndpointState {
    EndpointState(0, 0, None, seq(|configs|, i requires 0 <= i < |configs| => AlertState(configs[i], false)))
  }

  function Run(configs: seq<AlertConfig>, h: History): (e: EndpointState)
    ensures |e.alerts| == |configs|
    ensures forall i :: 0 <= i < |configs| ==> e.alerts[i].config == configs[i]
  {
    if h == [] then Fresh(configs) else Step(Run(configs, h[..|h| - 1]), h[|h| - 1])
  }

  /** The effects of step `k` of the history. */
  function LogOf(configs: seq<AlertConfig>, h: History, k: nat): seq<Effect>
    requires k < |h|
  {
    StepLog(Run(configs, h[..k]), h[k])
  }

  /** Everything the watchdog asked of the outside world, in order. */
  function FullLog(configs: seq<AlertConfig>, h: History): seq<Effect> {
    if h == [] then [] else FullLog(configs, h[..|h| - 1]) + LogOf(configs, h, |h| - 1)
  }

  lemma OneMoreResult(configs: seq<AlertConfig>, h: History, t: Tick)
    ensures Run(configs, h + [t]) == Step(Run(configs, h), t)
    ensures FullLog(configs, h + [t]) == FullLog(configs, h) + StepLog(Run(configs, h), t)
  {
    assert (h + [t])[..|h|] == h;
  }

  // ---------------------------------------------------------------------------
  // The objects the watchdog updates in place

  const FIVE_MINUTES := 5 * MINUTE

  class Alert {
    var enabled: Option<bool>
    var failureThreshold: int
    var successThreshold: int
    var minimumReminderInterval: int
    var sendOnResolved: Option<bool>
    var descriptionIsPrintable: bool
    var triggered: bool

    function Config(): AlertConfig
      reads this
    {
      AlertConfig(enabled, failureThreshold, successThreshold, minimumReminderInterval, sendOnResolved)
    }

    function State(): AlertState
      reads this
    {
      AlertState(Config(), triggered)
    }

    constructor (config: AlertConfig, descriptionIsPrintable: bool)
      ensures State() == AlertState(config, false)
      ensures this.descriptionIsPrintable == descriptionIsPrintable
    {
      enabled, failureThreshold, successThreshold := config.enabled, config.failureThreshold, config.successThreshold;
      minimumReminderInterval, sendOnResolved := config.minimumReminderInterval, config.sendOnResolved;
      this.descriptionIsPrintable := descriptionIsPrintable;
      triggered := false;
    }

    /** Fills in missing thresholds.  An accepted alert has positive thresholds and reminders off or rare. */
    method ValidateAndSetDefaults() returns (ok: bool)
      modifies this
      ensures failureThreshold == (if old(failureThreshold) <= 0 then 3 else old(failureThreshold))
      ensures successThreshold == (if old(successThreshold) <= 0 then 2 else old(successThreshold))
      ensures failureThreshold >= 1 && successThreshold >= 1
      ensures ok <==>
              (minimumReminderInterval == 0 || minimumReminderInterval >= 300_000_000_000) && descriptionIsPrintable
      ensures State() == old(State()).(config := old(Config()).(
                failureThreshold := failureThreshold, successThreshold := successThreshold))
      ensures descriptionIsPrintable == old(descriptionIsPrintable)
    {
      if failureThreshold <= 0 {
        failureThreshold := 3;
      }
      if successThreshold <= 0 {
        successThreshold := 2;
      }
      if minimumReminderInterval != 0 && minimumReminderInterval < FIVE_MINUTES {
        return false;
      }
      if !descriptionIsPrintable {
        return false;
      }
      return true;
    }
  }

  /** The first `n` alerts are as they will be after the step, the others as before it. */
  ghost predicate HandledUpTo(alerts: seq<Alert>, before: EndpointState, result: Tick, n: nat)
    reads alerts
  {
    |alerts| == |before.alerts| &&
    forall k :: 0 <= k < |alerts| ==>
      alerts[k].State() == if k < n then AlertAfter(before, result, k) else before.alerts[k]
  }

  class Endpoint {
    var alerts: seq<Alert>
    var numberOfFailuresInARow: int
    var numberOfSuccessesInARow: int
    var lastReminderSent: Option<int>

    // the results handled so far, and what the alerts are configured to do, for the specification
    ghost const configs: seq<AlertConfig>
    ghost var handled: History

    /** No alert object is listed twice. */
    ghost predicate Distinct()
      reads this
    {
      forall i, j :: 0 <= i < j < |alerts| ==> alerts[i] != alerts[j]
    }

    ghost function State(): EndpointState
      reads this, alerts
    {
      EndpointState(numberOfFailuresInARow, numberOfSuccessesInARow, lastReminderSent,
                    seq(|alerts|, i requires 0 <= i < |alerts| reads this, alerts => alerts[i].State()))
    }

    /** The objects are in the state that the whole history handled so far leads to. */
    ghost predicate Valid()
      reads this, alerts
    {
      Distinct() && State() == Run(configs, handled)
    }

    constructor (alerts: seq<Alert>)
      requires forall i, j :: 0 <= i < j < |alerts| ==> alerts[i] != alerts[j]
      requires forall i :: 0 <= i < |alerts| ==> !alerts[i].triggered
      ensures Valid() && fresh(this) && this.alerts == alerts && handled == []
      ensures configs == seq(|alerts|, i requires 0 <= i < |alerts| reads alerts => alerts[i].Config())
    {
      this.alerts := alerts;
      numberOfFailuresInARow, numberOfSuccessesInARow, lastReminderSent := 0, 0, None;
      configs, handled := seq(|alerts|, i requires 0 <= i < |alerts| reads alerts => alerts[i].Config()), [];
    }

    /** Once all alerts are handled, they are as the step leaves them. */
    lemma AllHandled(before: EndpointState, result: Tick)
      requires HandledUpTo(alerts, before, result, |alerts|)
      ensures State().alerts == Step(before, result).alerts
    {
    }

    /** One turn of the loop: sends what is due for alert `i`, going by the reminder time before the loop. */
    method HandleAlertToTrigger(result: Tick, i: nat, a: Alert, snapshot: Option<int>, ghost before: EndpointState)
      returns (effects: seq<Effect>)
      requires i < |before.alerts| && a.State() == before.alerts[i]
      requires numberOfFailuresInARow == before.failures + 1 && snapshot == before.lastReminderSent
      requires !result.success
      modifies this`lastReminderSent, a`triggered
      ensures effects == EffectsOf(before, result, i)
      ensures a.State() == AlertAfter(before, result, i)
      ensures lastReminderSent ==
              if Sends(before, result.inputs, i) then Some(result.inputs(i).sentAt) else old(lastReminderSent)
    {
      var input := result.inputs(i);
      if !a.Config().IsEnabled() || a.failureThreshold > numberOfFailuresInARow {
        return [];
      }
      var sendInitialAlert := !a.triggered;
      var sendReminder := a.triggered && a.minimumReminderInterval > 0 &&
        (snapshot.None? || input.checkedAt - snapshot.value >= a.minimumReminderInterval);
      if !sendInitialAlert && !sendReminder {
        return [];
      }
      var kind := if sendInitialAlert then Initial else Reminder;
      match input.outcome {
        case NotConfigured =>
          effects := [];
        case Failed =>
          effects := [Notified(i, kind, input.sentAt, false)];
        case Delivered =>
          if sendInitialAlert {
            a.triggered := true;
          }
          lastReminderSent := Some(input.sentAt);
          effects := [Notified(i, kind, input.sentAt, true), Persisted(i)];
      }
    }

    /** The alert whose turn it is, among the others. */
    method HandleNextToTrigger(result: Tick, i: nat, snapshot: Option<int>, ghost before: EndpointState)
      returns (effects: seq<Effect>)
      requires Distinct() && !result.success && i < |alerts| && HandledUpTo(alerts, before, result, i)
      requires numberOfFailuresInARow == before.failures + 1 && snapshot == before.lastReminderSent
      modifies this`lastReminderSent, alerts`triggered
      ensures HandledUpTo(alerts, before, result, i + 1) && effects == EffectsOf(before, result, i)
      ensures lastReminderSent ==
              if Sends(before, result.inputs, i) then Some(result.inputs(i).sentAt) else old(lastReminderSent)
    {
      effects := HandleAlertToTrigger(result, i, alerts[i], snapshot, before);
      assert forall k :: 0 <= k < |alerts| && k != i ==> alerts[k] != alerts[i];
    }

    /** The loop over the alerts of a failing step. */
    method TriggerInTurn(result: Tick, snapshot: Option<int>, ghost before: EndpointState) returns (log: seq<Effect>)
      requires Distinct() && !result.success && HandledUpTo(alerts, before, result, 0)
      requires numberOfFailuresInARow == before.failures + 1
      requires snapshot == lastReminderSent == before.lastReminderSent
      modifies this`lastReminderSent, alerts`triggered
      ensures log == LogUpTo(before, result, |alerts|) && HandledUpTo(alerts, before, result, |alerts|)
      ensures lastReminderSent == LastReminderUpTo(before, result.inputs, |alerts|)
    {
      log := [];
      for i := 0 to |alerts|
        invariant lastReminderSent == LastReminderUpTo(before, result.inputs, i)
        invariant log == LogUpTo(before, result, i)
        invariant HandledUpTo(alerts, before, result, i)
      {
        var effects := HandleNextToTrigger(result, i, snapshot, before);
        log := log + effects;
        assert log == LogUpTo(before, result, i + 1);
      }
    }

    method HandleAlertsToTrigger(result: Tick) returns (log: seq<Effect>)
      requires Distinct() && !result.success
      modifies this`numberOfFailuresInARow, this`numberOfSuccessesInARow, this`lastReminderSent, alerts`triggered
      ensures alerts == old(alerts)
      ensures State() == Step(old(State()), result)
      ensures log == StepLog(old(State()), result)
    {
      ghost var before := State();
      numberOfSuccessesInARow := 0;
      numberOfFailuresInARow := numberOfFailuresInARow + 1;
      var snapshot := lastReminderSent;
      log := TriggerInTurn(result, snapshot, before);
      AllHandled(before, result);
    }

    /** One turn of the loop: resolves alert `i` once there are enough successes, whether or not the send works. */
    method HandleAlertToResolve(result: Tick, i: nat, a: Alert, ghost before: EndpointState)
      returns (effects: seq<Effect>)
      requires i < |before.alerts| && a.State() == before.alerts[i]
      requires numberOfSuccessesInARow == before.successes + 1
      requires result.success
      modifies a`triggered
      ensures effects == EffectsOf(before, result, i)
      ensures a.State() == AlertAfter(before, result, i)
    {
      effects := [];
      var isStillBelowSuccessThreshold := a.successThreshold > numberOfSuccessesInARow;
      if isStillBelowSuccessThreshold && a.Config().IsEnabled() && a.triggered {
        effects := effects + [Persisted(i)];
      }
      if !a.Config().IsEnabled() || !a.triggered || isStillBelowSuccessThreshold {
        return;
      }
      a.triggered := false;
      effects := effects + [Forgotten(i)];
      if !a.Config().IsSendingOnResolved() {
        return;
      }
      if result.inputs(i).outcome != NotConfigured {
        effects := effects + [ResolutionSent(i, result.inputs(i).outcome == Delivered)];
      }
    }

    /** The alert whose turn it is, among the others. */
    method HandleNextToResolve(result: Tick, i: nat, ghost before: EndpointState)
      returns (effects: seq<Effect>)
      requires Distinct() && result.success && i < |alerts| && HandledUpTo(alerts, before, result, i)
      requires numberOfSuccessesInARow == before.successes + 1
      modifies alerts`triggered
      ensures HandledUpTo(alerts, before, result, i + 1) && effects == EffectsOf(before, result, i)
    {
      effects := HandleAlertToResolve(result, i, alerts[i], before);
      assert forall k :: 0 <= k < |alerts| && k != i ==> alerts[k] != alerts[i];
    }

    /** The loop over the alerts of a successful step. */
    method ResolveInTurn(result: Tick, ghost before: EndpointState) returns (log: seq<Effect>)
      requires Distinct() && result.success && HandledUpTo(alerts, before, result, 0)
      requires numberOfSuccessesInARow == before.successes + 1
      modifies alerts`triggered
      ensures log == LogUpTo(before, result, |alerts|) && HandledUpTo(alerts, before, result, |alerts|)
    {
      log := [];
      for i := 0 to |alerts|
        invariant log == LogUpTo(before, result, i)
        invariant HandledUpTo(alerts, before, result, i)
      {
        var effects := HandleNextToResolve(result, i, before);
        log := log + effects;
        assert log == LogUpTo(before, result, i + 1);
      }
    }

    method HandleAlertsToResolve(result: Tick) returns (log: seq<Effect>)
      requires Distinct() && result.success
      modifies this`numberOfFailuresInARow, this`numberOfSuccessesInARow, alerts`triggered
      ensures alerts == old(alerts)
      ensures State() == Step(old(State()), result)
      ensures log == StepLog(old(State()), result)
    {
      ghost var before := State();
      numberOfSuccessesInARow := numberOfSuccessesInARow + 1;
      log := ResolveInTurn(result, before);
      numberOfFailuresInARow := 0;
      AllHandled(before, result);
    }

    /** Handles one more result of the history. */
    method HandleResult(result: Tick) returns (log: seq<Effect>)
      requires Valid()
      modifies this`numberOfFailuresInARow, this`numberOfSuccessesInARow, this`lastReminderSent, this`handled
      modifies alerts`triggered
      ensures Valid() && alerts == old(alerts) && handled == old(handled) + [result]
      ensures FullLog(configs, handled) == FullLog(configs, old(handled)) + log
      ensures State() == Step(old(State()), result) && log == StepLog(old(State()), result)
    {
      OneMoreResult(configs, handled, result);
      if result.success {
        log := HandleAlertsToResolve(result);
      } else {
        log := HandleAlertsToTrigger(result);
      }
      handled := handled + [result];
    }

    /** Handles one more result; nothing happens, and nothing is counted, without configuration. */
    method HandleAlerting(result: Tick, alertingConfigured: bool) returns (log: seq<Effect>)
      requires Valid()
      modifies this`numberOfFailuresInARow, this`numberOfSuccessesInARow, this`lastReminderSent, this`handled
      modifies alerts`triggered
      ensures Valid() && alerts == old(alerts)
      ensures handled == old(handled) + if alertingConfigured then [result] else []
      ensures FullLog(configs, handled) == FullLog(configs, old(handled)) + log
      ensures !alertingConfigured ==> State() == old(State()) && log == []
      ensures alertingConfigured ==> State() == Step(old(State()), result) && log == StepLog(old(State()), result)
    {
      if !alertingConfigured {
        assert handled + [] == handled && FullLog(configs, handled) + [] == FullLog(configs, handled);
        return [];
      }
      log := HandleResult(result);
    }
  }
}
