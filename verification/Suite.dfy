/**
 Suites: endpoints executed one after the other with a shared context, skipping rules,
 a timeout for the whole, values stored between endpoints, and the pairing of results
 with endpoints that alerting relies on.

 What an endpoint's evaluation gives, and whether the timeout has expired when it is
 looked at, are oracles.
 */
module Suite {
  import opened Prelude
  import opened ContextTree
  import opened G = Gontext

  datatype EndpointSpec = EndpointSpec(name: string, alwaysRun: bool, store: Option<map<string, string>>)

  /** The outcome of evaluating one endpoint; `resolved` says what a placeholder gives, if anything. */
  datatype Evaluation = Evaluation(success: bool, resolved: string -> Option<Scalar>)

  datatype EndpointResult = EndpointResult(name: string, success: bool, storeFailed: bool)

  // ---------------------------------------------------------------------------
  // Who runs

  /** Whether an endpoint executed before number `i` has failed. */
  function HasFailed(endpoints: seq<EndpointSpec>, evaluations: nat -> Evaluation, i: nat): bool
    requires i <= |endpoints|
    decreases i, 0
  {
    i > 0 && (HasFailed(endpoints, evaluations, i - 1) ||
              (Runs(endpoints, evaluations, i - 1) && !evaluations(i - 1).success))
  }

  function Runs(endpoints: seq<EndpointSpec>, evaluations: nat -> Evaluation, i: nat): bool
    requires i < |endpoints|
    decreases i, 1
  {
    endpoints[i].alwaysRun || !HasFailed(endpoints, evaluations, i)
  }

  lemma {:induction false} FailedExactly(endpoints: seq<EndpointSpec>, evaluations: nat -> Evaluation, i: nat)
    requires i <= |endpoints|
    ensures HasFailed(endpoints, evaluations, i) <==>
            exists j: nat :: j < i && Runs(endpoints, evaluations, j) && !evaluations(j).success
  {
    if i == 0 {
    } else {
      FailedExactly(endpoints, evaluations, i - 1);
    }
  }

  /** An endpoint runs exactly when it always runs or every executed endpoint before it succeeded. */
  lemma RunsExactly(endpoints: seq<EndpointSpec>, evaluations: nat -> Evaluation, i: nat)
    requires i < |endpoints|
    ensures Runs(endpoints, evaluations, i) <==>
            endpoints[i].alwaysRun ||
            forall j: nat :: j < i && Runs(endpoints, evaluations, j) ==> evaluations(j).success
  {
    FailedExactly(endpoints, evaluations, i);
  }

  /** Some value the endpoint has to store could not be resolved. */
  predicate StoreFails(spec: EndpointSpec, e: Evaluation) {
    spec.store.Some? && exists k :: k in spec.store.value && e.resolved(spec.store.value[k]).None?
  }

  /** The results of the executed endpoints among the first `n`, in order. */
  function ResultsUpTo(endpoints: seq<EndpointSpec>, evaluations: nat -> Evaluation, n: nat): seq<EndpointResult>
    requires n <= |endpoints|
  {
    if n == 0 then []
    else
      var before := ResultsUpTo(endpoints, evaluations, n - 1);
      if Runs(endpoints, evaluations, n - 1)
      then
        var storeFailed := StoreFails(endpoints[n - 1], evaluations(n - 1));
        before + [EndpointResult(endpoints[n - 1].name, evaluations(n - 1).success, storeFailed)]
      else before
  }

  /** The endpoints before number `n` that run. */
  ghost function RunBefore(endpoints: seq<EndpointSpec>, evaluations: nat -> Evaluation, n: nat): set<nat>
    requires n <= |endpoints|
  {
    set i: nat | i < n && Runs(endpoints, evaluations, i)
  }

  lemma {:induction false} OneResultEach(endpoints: seq<EndpointSpec>, evaluations: nat -> Evaluation, n: nat)
    requires n <= |endpoints|
    ensures |ResultsUpTo(endpoints, evaluations, n)| == |RunBefore(endpoints, evaluations, n)|
  {
    if n == 0 {
    } else {
      var m: nat := n - 1;
      OneResultEach(endpoints, evaluations, m);
      var before := RunBefore(endpoints, evaluations, m);
      assert RunBefore(endpoints, evaluations, n) == if Runs(endpoints, evaluations, m) then before + {m} else before;
    }
  }

  /** The results of a longer part of the run extend those of a shorter part. */
  lemma {:induction false} ResultsGrow(endpoints: seq<EndpointSpec>, evaluations: nat -> Evaluation, m: nat, n: nat)
    requires m <= n <= |endpoints|
    ensures ResultsUpTo(endpoints, evaluations, m) <= ResultsUpTo(endpoints, evaluations, n)
    ensures (forall j: nat :: m <= j < n ==> !Runs(endpoints, evaluations, j)) ==>
              ResultsUpTo(endpoints, evaluations, m) == ResultsUpTo(endpoints, evaluations, n)
  {
    if m < n {
      ResultsGrow(endpoints, evaluations, m, n - 1);
    }
  }

  /** The result of an endpoint that runs comes right after those of the endpoints before it. */
  lemma ResultFor(endpoints: seq<EndpointSpec>, evaluations: nat -> Evaluation, n: nat, i: nat)
    requires i < n <= |endpoints| && Runs(endpoints, evaluations, i)
    ensures var results, k := ResultsUpTo(endpoints, evaluations, n), |ResultsUpTo(endpoints, evaluations, i)|;
            k < |results| && results[k].name == endpoints[i].name && results[k].success == evaluations(i).success &&
            results[k].storeFailed == StoreFails(endpoints[i], evaluations(i))
  {
    ResultsGrow(endpoints, evaluations, i + 1, n);
  }

  /**
   There is one result for each endpoint that runs, in order.  It has the name of its
   endpoint, succeeded exactly when the evaluation did, and failed to store exactly
   when some placeholder in the mapping of the endpoint resolved to nothing.
   */
  lemma ResultsExactly(endpoints: seq<EndpointSpec>, evaluations: nat -> Evaluation, n: nat, i: nat)
    requires i < n <= |endpoints|
    ensures var results := ResultsUpTo(endpoints, evaluations, n);
            |results| == |RunBefore(endpoints, evaluations, n)| &&
            (Runs(endpoints, evaluations, i) ==>
               var k := |RunBefore(endpoints, evaluations, i)|;
               k < |results| && results[k].name == endpoints[i].name &&
               results[k].success == evaluations(i).success &&
               (results[k].storeFailed <==>
                endpoints[i].store.Some? &&
                exists key :: key in endpoints[i].store.value &&
                              evaluations(i).resolved(endpoints[i].store.value[key]) == None))
  {
    OneResultEach(endpoints, evaluations, n);
    OneResultEach(endpoints, evaluations, i);
    if Runs(endpoints, evaluations, i) {
      ResultFor(endpoints, evaluations, n, i);
    }
  }

  /** Whether the timeout was noticed before one of the first `n` endpoints. */
  predicate TimedOut(endpoints: seq<EndpointSpec>, evaluations: nat -> Evaluation, expired: nat -> bool, n: nat)
    requires n <= |endpoints|
  {
    n > 0 &&
    (TimedOut(endpoints, evaluations, expired, n - 1) || (Runs(endpoints, evaluations, n - 1) && expired(n - 1)))
  }

  lemma {:induction false} TimedOutExactly(
      endpoints: seq<EndpointSpec>, evaluations: nat -> Evaluation, expired: nat -> bool, n: nat)
    requires n <= |endpoints|
    ensures TimedOut(endpoints, evaluations, expired, n) <==>
            exists i: nat :: i < n && Runs(endpoints, evaluations, i) && expired(i)
  {
    if n == 0 {
    } else {
      TimedOutExactly(endpoints, evaluations, expired, n - 1);
    }
  }

  // ---------------------------------------------------------------------------
  // The result object

  class Result {
    var success: bool
    var endpointResults: seq<EndpointResult>
    var errors: seq<string>

    constructor ()
      ensures success && endpointResults == [] && errors == []
    {
      success, endpointResults, errors := true, [], [];
    }

    method AddError(error: string)
      modifies this`errors
      ensures errors == old(errors) + [error]
    {
      errors := errors + [error];
    }

    method CalculateSuccess()
      modifies this`success
      ensures success <==> (forall r :: r in endpointResults ==> r.success) && errors == []
    {
      success := true;
      for i := 0 to |endpointResults|
        invariant success
        invariant forall k :: 0 <= k < i ==> endpointResults[k].success
      {
        if !endpointResults[i].success {
          success := false;
          break;
        }
      }
      if |errors| > 0 {
        success := false;
      }
    }
  }

  lemma {:induction false} AllSucceededExactly(endpoints: seq<EndpointSpec>, evaluations: nat -> Evaluation, n: nat)
    requires n <= |endpoints|
    ensures (forall r :: r in ResultsUpTo(endpoints, evaluations, n) ==> r.success) <==>
            !HasFailed(endpoints, evaluations, n)
  {
    if n == 0 {
    } else {
      AllSucceededExactly(endpoints, evaluations, n - 1);
      if Runs(endpoints, evaluations, n - 1) {
        var before := ResultsUpTo(endpoints, evaluations, n - 1);
        var all := ResultsUpTo(endpoints, evaluations, n);
        assert all[|before|] in all;
        assert forall r :: r in before ==> r in all;
      }
    }
  }

  // ---------------------------------------------------------------------------
  // Storing values in the context

  /** The writes that the resolved values of some of the context keys make. */
  ghost function WritesAt(store: map<string, string>, keys: set<string>, e: Evaluation): set<Write> {
    set k | k in keys && k in store && e.resolved(store[k]).Some? :: Write(Split(k, '.'), e.resolved(store[k]).value)
  }

  ghost function WritesOf(store: map<string, string>, e: Evaluation): set<Write> {
    WritesAt(store, store.Keys, e)
  }

  datatype Stored = StoredValue(x: Scalar) | ExtractionError

  function StoredFor(x: Option<Scalar>): Stored {
    if x.Some? then StoredValue(x.value) else ExtractionError
  }

  lemma OrdersPlusOne(order: seq<Write>, s: set<Write>, w: Write)
    requires Orders(order, s) && w !in s
    ensures Orders(order + [w], s + {w})
  {
    forall i | 0 <= i < |order|
      ensures order[i] in s
    {
      assert order[i] in order;
    }
  }

  /** Different keys make different writes, so one more key makes one more write, or none. */
  lemma OneMoreKey(store: map<string, string>, keys: set<string>, k: string, e: Evaluation, order: seq<Write>)
    requires Orders(order, WritesAt(store, keys, e)) && k in store && k !in keys
    ensures var x := e.resolved(store[k]);
            Orders(order + if x.Some? then [Write(Split(k, '.'), x.value)] else [], WritesAt(store, keys + {k}, e))
  {
    var x := e.resolved(store[k]);
    if x.None? {
      assert WritesAt(store, keys + {k}, e) == WritesAt(store, keys, e);
      assert order + [] == order;
    } else {
      var w := Write(Split(k, '.'), x.value);
      forall j | j in keys && j in store
        ensures Split(j, '.') != Split(k, '.')
      {
        JoinSplit(j, '.');
        JoinSplit(k, '.');
      }
      assert w !in WritesAt(store, keys, e);
      assert WritesAt(store, keys + {k}, e) == WritesAt(store, keys, e) + {w};
      OrdersPlusOne(order, WritesAt(store, keys, e), w);
    }
  }

  lemma SetAllOneMore(t: Tree, order: seq<Write>, w: Write)
    ensures SetAll(t, order + [w]) == Set(SetAll(t, order), w.path, Leaf(w.value))
  {
    SetAllConcat(t, order, [w]);
    assert [w][1..] == [];
    assert SetAll(Set(SetAll(t, order), w.path, Leaf(w.value)), []) == Set(SetAll(t, order), w.path, Leaf(w.value));
  }

  /** No key of the mapping is a dotted prefix of another. */
  ghost predicate NoDottedPrefix(store: map<string, string>) {
    forall j, k :: j in store && k in store ==> !(j + "." <= k)
  }

  lemma WritesAreIncomparable(store: map<string, string>, e: Evaluation)
    requires NoDottedPrefix(store)
    ensures PairwiseIncomparable(WritesOf(store, e))
  {
    forall u, w | u in WritesOf(store, e) && w in WritesOf(store, e) && u != w
      ensures Incomparable(u.path, w.path)
    {
      var j :| j in store && u.path == Split(j, '.') && e.resolved(store[j]) == Some(u.value);
      var k :| k in store && w.path == Split(k, '.') && e.resolved(store[k]) == Some(w.value);
      assert j != k;
      PrefixOfPieces(j, k, '.');
      PrefixOfPieces(k, j, '.');
    }
  }

  /** What an endpoint stored is read back under the same keys, and nothing else has changed. */
  lemma StoredIsRead(t: Tree, store: map<string, string>, e: Evaluation, order: seq<Write>)
    requires NoDottedPrefix(store) && Orders(order, WritesOf(store, e))
    ensures forall k :: k in store && e.resolved(store[k]).Some? ==>
              Get(SetAll(t, order), Split(k, '.')) == Some(Leaf(e.resolved(store[k]).value))
    ensures forall q: Path :: (forall k :: k in store ==> Incomparable(Split(k, '.'), q)) ==>
              Get(SetAll(t, order), q) == Get(t, q)
  {
    WritesAreIncomparable(store, e);
    forall k | k in store && e.resolved(store[k]).Some?
      ensures Get(SetAll(t, order), Split(k, '.')) == Some(Leaf(e.resolved(store[k]).value))
    {
      GetAfterAll(t, order, WritesOf(store, e), Write(Split(k, '.'), e.resolved(store[k]).value));
    }
    forall q: Path | forall k :: k in store ==> Incomparable(Split(k, '.'), q)
      ensures Get(SetAll(t, order), q) == Get(t, q)
    {
      forall i | 0 <= i < |order|
        ensures Incomparable(order[i].path, q)
      {
        assert order[i] in order;
        var k :| k in store && order[i].path == Split(k, '.');
      }
      GetAfterOthers(t, order, q);
    }
  }

  /** Whatever a key and a dotted extension of it resolve to, some orders disagree. */
  lemma StoreOrdersDisagree(t: Tree, store: map<string, string>, j: string, k: string, e: Evaluation)
    requires j in store && k in store && j + "." <= k
    requires e.resolved(store[j]).Some? && e.resolved(store[k]).Some?
    ensures !AllOrdersAgree(t, WritesOf(store, e))
  {
    var u, w := Write(Split(j, '.'), e.resolved(store[j]).value), Write(Split(k, '.'), e.resolved(store[k]).value);
    PrefixOfPieces(j, k, '.');
    PrefixOfPieces(k, j, '.');
    SomeOrdersDisagree(t, WritesOf(store, e), u, w);
  }

  /**
   The context after storing the values of an endpoint is the same for all orders of
   its mapping, whatever its placeholders resolve to, exactly when no key of the
   mapping is a dotted prefix of another.
   */
  lemma StoreOrderIsIrrelevantExactly(t: Tree, store: map<string, string>)
    ensures (forall e: Evaluation :: AllOrdersAgree(t, WritesOf(store, e))) <==> NoDottedPrefix(store)
  {
    if NoDottedPrefix(store) {
      forall e: Evaluation
        ensures AllOrdersAgree(t, WritesOf(store, e))
      {
        WritesAreIncomparable(store, e);
        AllOrdersOfIncomparableAgree(t, WritesOf(store, e));
      }
    } else {
      var j, k :| j in store && k in store && j + "." <= k;
      StoreOrdersDisagree(t, store, j, k, Evaluation(true, _ => Some(Text(""))));
    }
  }

  /** Writes every value that resolves, in whatever order the map is walked. */
  method StoreResultValues(ctx: Gontext, mappings: map<string, string>, e: Evaluation)
    returns (stored: map<string, Stored>, failed: bool, ghost order: seq<Write>)
    requires ctx.Valid()
    modifies ctx`shape, Refs(ctx.shape)
    ensures ctx.Valid() && fresh(Refs(ctx.shape) - old(Refs(ctx.shape)))
    ensures Orders(order, WritesOf(mappings, e)) && ctx.Tree() == SetAll(old(ctx.Tree()), order)
    ensures failed <==> exists k :: k in mappings && e.resolved(mappings[k]).None?
    ensures stored.Keys == mappings.Keys && forall k :: k in stored ==> stored[k] == StoredFor(e.resolved(mappings[k]))
  {
    stored, failed, order := map[], false, [];
    ghost var done: set<string> := {};
    var todo := mappings.Keys;
    while todo != {}
      invariant todo !! done && todo + done == mappings.Keys
      invariant ctx.Valid() && fresh(Refs(ctx.shape) - old(Refs(ctx.shape)))
      invariant Orders(order, WritesAt(mappings, done, e)) && ctx.Tree() == SetAll(old(ctx.Tree()), order)
      invariant failed <==> exists k :: k in done && e.resolved(mappings[k]).None?
      invariant stored.Keys == done && forall k :: k in stored ==> stored[k] == StoredFor(e.resolved(mappings[k]))
      decreases todo
    {
      var k :| k in todo;
      var value := e.resolved(mappings[k]);
      OneMoreKey(mappings, done, k, e, order);
      if value.None? {
        failed := true;
        assert order + [] == order;
      } else {
        ghost var w := Write(Split(k, '.'), value.value);
        SetAllOneMore(old(ctx.Tree()), order, w);
        ctx.Set(k, Atomic(value.value), Atom(value.value));
        order := order + [w];
      }
      stored := stored[k := StoredFor(value)];
      done := done + {k};
      todo := todo - {k};
    }
  }

  // ---------------------------------------------------------------------------
  // A whole run

  /** What an endpoint writes to the context when it is its turn. */
  ghost function WritesInTurn(endpoints: seq<EndpointSpec>, evaluations: nat -> Evaluation, i: nat): set<Write>
    requires i < |endpoints|
  {
    if Runs(endpoints, evaluations, i) && endpoints[i].store.Some?
    then WritesOf(endpoints[i].store.value, evaluations(i))
    else {}
  }

  /** For each endpoint an order of its writes. */
  ghost predicate OrdersOfRun(endpoints: seq<EndpointSpec>, evaluations: nat -> Evaluation, orders: seq<seq<Write>>) {
    |orders| <= |endpoints| && forall i :: 0 <= i < |orders| ==>
      Orders(orders[i], WritesInTurn(endpoints, evaluations, i))
  }

  /** The context once the writes of one endpoint after the other are done. */
  ghost function ContextAfter(t: Tree, orders: seq<seq<Write>>): Tree {
    if orders == [] then t else SetAll(ContextAfter(t, orders[..|orders| - 1]), orders[|orders| - 1])
  }

  /** Evaluating an endpoint may read the context: what comes out is a function of the endpoint and the context then. */
  type Evaluator = (nat, Tree) -> Evaluation

  /** Evaluation number `k` is that of the evaluator, in the context that the endpoints before it left. */
  ghost predicate EvaluatedAt(
      t: Tree, f: Evaluator, evaluations: nat -> Evaluation, orders: seq<seq<Write>>, k: nat)
    requires k < |orders|
  {
    evaluations(k) == f(k, ContextAfter(t, orders[..k]))
  }

  ghost predicate EvaluatedInTurn(t: Tree, f: Evaluator, evaluations: nat -> Evaluation, orders: seq<seq<Write>>) {
    forall k: nat :: k < |orders| ==> EvaluatedAt(t, f, evaluations, orders, k)
  }

  ghost predicate SameUpTo(first: nat -> Evaluation, second: nat -> Evaluation, n: nat) {
    forall k: nat :: k < n ==> first(k) == second(k)
  }

  /** Who runs depends on earlier evaluations only. */
  lemma {:induction false} RunsAgree(
      endpoints: seq<EndpointSpec>, first: nat -> Evaluation, second: nat -> Evaluation, n: nat)
    requires n <= |endpoints| && SameUpTo(first, second, n)
    ensures HasFailed(endpoints, first, n) == HasFailed(endpoints, second, n)
    ensures n < |endpoints| ==> Runs(endpoints, first, n) == Runs(endpoints, second, n)
    ensures ResultsUpTo(endpoints, first, n) == ResultsUpTo(endpoints, second, n)
  {
    if n == 0 {
    } else {
      RunsAgree(endpoints, first, second, n - 1);
    }
  }

  lemma OneMoreSame(first: nat -> Evaluation, second: nat -> Evaluation, n: nat)
    requires SameUpTo(first, second, n) && first(n) == second(n)
    ensures SameUpTo(first, second, n + 1)
  {
  }

  /** Where two runs agree on what was evaluated and written so far, they agree on the next turn. */
  lemma NextTurnAgrees(
      t: Tree, endpoints: seq<EndpointSpec>, f: Evaluator,
      first: nat -> Evaluation, a: seq<seq<Write>>, second: nat -> Evaluation, b: seq<seq<Write>>, n: nat)
    requires n < |a| && n < |b| && n < |endpoints|
    requires Orders(a[n], WritesInTurn(endpoints, first, n)) && Orders(b[n], WritesInTurn(endpoints, second, n))
    requires EvaluatedAt(t, f, first, a, n) && EvaluatedAt(t, f, second, b, n)
    requires PairwiseIncomparable(WritesInTurn(endpoints, first, n))
    requires ContextAfter(t, a[..n]) == ContextAfter(t, b[..n]) && SameUpTo(first, second, n)
    ensures SameUpTo(first, second, n + 1)
    ensures SetAll(ContextAfter(t, a[..n]), a[n]) == SetAll(ContextAfter(t, b[..n]), b[n])
  {
    OneMoreSame(first, second, n);
    RunsAgree(endpoints, first, second, n);
    assert WritesInTurn(endpoints, first, n) == WritesInTurn(endpoints, second, n);
    OrderIsIrrelevant(ContextAfter(t, a[..n]), a[n], b[n], WritesInTurn(endpoints, first, n));
  }

  lemma ContextOneTurnLater(t: Tree, orders: seq<seq<Write>>, n: nat)
    requires n < |orders|
    ensures ContextAfter(t, orders[..n + 1]) == SetAll(ContextAfter(t, orders[..n]), orders[n])
  {
    assert orders[..n + 1][..n] == orders[..n];
  }

  lemma {:induction false} ContextsAgreeUpTo(
      t: Tree, endpoints: seq<EndpointSpec>, f: Evaluator,
      first: nat -> Evaluation, a: seq<seq<Write>>, second: nat -> Evaluation, b: seq<seq<Write>>, n: nat)
    requires OrdersOfRun(endpoints, first, a) && EvaluatedInTurn(t, f, first, a)
    requires OrdersOfRun(endpoints, second, b) && EvaluatedInTurn(t, f, second, b)
    requires n <= |a| == |b|
    requires forall i :: 0 <= i < |a| ==> PairwiseIncomparable(WritesInTurn(endpoints, first, i))
    ensures ContextAfter(t, a[..n]) == ContextAfter(t, b[..n]) && SameUpTo(first, second, n)
  {
    if n == 0 {
    } else {
      ContextsAgreeUpTo(t, endpoints, f, first, a, second, b, n - 1);
      NextTurnAgrees(t, endpoints, f, first, a, second, b, n - 1);
      ContextOneTurnLater(t, a, n - 1);
      ContextOneTurnLater(t, b, n - 1);
    }
  }

  /**
   Two runs of the same evaluator, with maps walked in any orders: as long as no
   endpoint of the first run writes to a path and to a prefix of it, the runs evaluate
   alike and lead to the same context.
   */
  lemma ContextIsDetermined(
      t: Tree, endpoints: seq<EndpointSpec>, f: Evaluator,
      first: nat -> Evaluation, a: seq<seq<Write>>, second: nat -> Evaluation, b: seq<seq<Write>>)
    requires OrdersOfRun(endpoints, first, a) && EvaluatedInTurn(t, f, first, a)
    requires OrdersOfRun(endpoints, second, b) && EvaluatedInTurn(t, f, second, b)
    requires |a| == |b|
    requires forall i :: 0 <= i < |a| ==> PairwiseIncomparable(WritesInTurn(endpoints, first, i))
    ensures ContextAfter(t, a) == ContextAfter(t, b) && SameUpTo(first, second, |a|)
  {
    ContextsAgreeUpTo(t, endpoints, f, first, a, second, b, |a|);
    assert a[..|a|] == a && b[..|b|] == b;
  }

  lemma {:induction false} TimeoutsAgree(
      endpoints: seq<EndpointSpec>, first: nat -> Evaluation, second: nat -> Evaluation, expired: nat -> bool, n: nat)
    requires n <= |endpoints| && SameUpTo(first, second, n)
    ensures TimedOut(endpoints, first, expired, n) == TimedOut(endpoints, second, expired, n)
  {
    if n == 0 {
    } else {
      TimeoutsAgree(endpoints, first, second, expired, n - 1);
      RunsAgree(endpoints, first, second, n - 1);
    }
  }

  /**
   For a configuration in which no endpoint stores under a key and a dotted extension
   of it, everything about a run is determined: who runs, all results, the timeout and
   the final context.
   */
  lemma RunIsDetermined(
      t: Tree, endpoints: seq<EndpointSpec>, f: Evaluator, expired: nat -> bool,
      first: nat -> Evaluation, a: seq<seq<Write>>, second: nat -> Evaluation, b: seq<seq<Write>>)
    requires OrdersOfRun(endpoints, first, a) && EvaluatedInTurn(t, f, first, a) && |a| == |endpoints|
    requires OrdersOfRun(endpoints, second, b) && EvaluatedInTurn(t, f, second, b) && |b| == |endpoints|
    requires forall i :: 0 <= i < |endpoints| && endpoints[i].store.Some? ==> NoDottedPrefix(endpoints[i].store.value)
    ensures ResultsUpTo(endpoints, first, |endpoints|) == ResultsUpTo(endpoints, second, |endpoints|)
    ensures TimedOut(endpoints, first, expired, |endpoints|) == TimedOut(endpoints, second, expired, |endpoints|)
    ensures ContextAfter(t, a) == ContextAfter(t, b)
  {
    forall i | 0 <= i < |endpoints|
      ensures PairwiseIncomparable(WritesInTurn(endpoints, first, i))
    {
      if endpoints[i].store.Some? {
        WritesAreIncomparable(endpoints[i].store.value, first(i));
      }
    }
    ContextIsDetermined(t, endpoints, f, first, a, second, b);
    RunsAgree(endpoints, first, second, |endpoints|);
    TimeoutsAgree(endpoints, first, second, expired, |endpoints|);
  }

  /** The tree a run starts from. */
  ghost function InitialTree(initial: MapObject?, shape: Shape): Tree {
    if initial == null then Node(map[]) else Erase(shape)
  }

  /** How far a run has come: what was evaluated and written, the results, and the two flags of the loop. */
  datatype Progress = Progress(
    evaluations: nat -> Evaluation,
    orders: seq<seq<Write>>,
    results: seq<EndpointResult>,
    failed: bool,
    timedOut: bool)

  /** The first `n` endpoints have had their turn. */
  ghost predicate RanUpTo(
      t: Tree, endpoints: seq<EndpointSpec>, f: Evaluator, expired: nat -> bool, p: Progress, n: nat)
  {
    n <= |endpoints| && |p.orders| == n &&
    OrdersOfRun(endpoints, p.evaluations, p.orders) && EvaluatedInTurn(t, f, p.evaluations, p.orders) &&
    p.results == ResultsUpTo(endpoints, p.evaluations, n) &&
    p.failed == HasFailed(endpoints, p.evaluations, n) &&
    p.timedOut == TimedOut(endpoints, p.evaluations, expired, n)
  }

  function Given(evaluations: nat -> Evaluation, n: nat, e: Evaluation): nat -> Evaluation {
    (k: nat) => if k == n then e else evaluations(k)
  }

  function AfterSkipping(p: Progress, n: nat, e: Evaluation): Progress {
    p.(evaluations := Given(p.evaluations, n, e), orders := p.orders + [[]])
  }

  function AfterRunning(
      p: Progress, n: nat, spec: EndpointSpec, e: Evaluation, order: seq<Write>, expired: bool): Progress {
    Progress(
      Given(p.evaluations, n, e),
      p.orders + [order],
      p.results + [EndpointResult(spec.name, e.success, StoreFails(spec, e))],
      p.failed || !e.success,
      p.timedOut || expired)
  }

  /** One more evaluation, in the context of its turn, and the writes that it makes. */
  lemma OneMoreTurn(
      t: Tree, endpoints: seq<EndpointSpec>, f: Evaluator, expired: nat -> bool, p: Progress, n: nat, order: seq<Write>)
    requires RanUpTo(t, endpoints, f, expired, p, n) && n < |endpoints|
    requires var e := f(n, ContextAfter(t, p.orders));
             Orders(order, WritesInTurn(endpoints, Given(p.evaluations, n, e), n))
    ensures var g, orders := Given(p.evaluations, n, f(n, ContextAfter(t, p.orders))), p.orders + [order];
            OrdersOfRun(endpoints, g, orders) && EvaluatedInTurn(t, f, g, orders) &&
            ContextAfter(t, orders) == SetAll(ContextAfter(t, p.orders), order)
  {
    var g, orders := Given(p.evaluations, n, f(n, ContextAfter(t, p.orders))), p.orders + [order];
    assert orders[..n] == p.orders;
    forall k: nat | k < n
      ensures Orders(orders[k], WritesInTurn(endpoints, g, k))
      ensures EvaluatedAt(t, f, g, orders, k)
    {
      RunsAgree(endpoints, p.evaluations, g, k);
      assert orders[k] == p.orders[k] && orders[..k] == p.orders[..k];
      assert EvaluatedAt(t, f, p.evaluations, p.orders, k);
    }
    assert EvaluatedAt(t, f, g, orders, n);
  }

  /** What was computed about the turns so far does not change with one more evaluation. */
  lemma EarlierTurnsStand(
      endpoints: seq<EndpointSpec>, expired: nat -> bool, evaluations: nat -> Evaluation, n: nat, e: Evaluation)
    requires n <= |endpoints|
    ensures var g := Given(evaluations, n, e);
            HasFailed(endpoints, g, n) == HasFailed(endpoints, evaluations, n) &&
            (n < |endpoints| ==> Runs(endpoints, g, n) == Runs(endpoints, evaluations, n)) &&
            ResultsUpTo(endpoints, g, n) == ResultsUpTo(endpoints, evaluations, n) &&
            TimedOut(endpoints, g, expired, n) == TimedOut(endpoints, evaluations, expired, n)
  {
    RunsAgree(endpoints, evaluations, Given(evaluations, n, e), n);
    TimeoutsAgree(endpoints, evaluations, Given(evaluations, n, e), expired, n);
  }

  lemma TurnSkipped(t: Tree, endpoints: seq<EndpointSpec>, f: Evaluator, expired: nat -> bool, p: Progress, n: nat)
    requires RanUpTo(t, endpoints, f, expired, p, n) && n < |endpoints|
    requires p.failed && !endpoints[n].alwaysRun
    ensures var q := AfterSkipping(p, n, f(n, ContextAfter(t, p.orders)));
            RanUpTo(t, endpoints, f, expired, q, n + 1) && ContextAfter(t, q.orders) == ContextAfter(t, p.orders)
  {
    EarlierTurnsStand(endpoints, expired, p.evaluations, n, f(n, ContextAfter(t, p.orders)));
    OneMoreTurn(t, endpoints, f, expired, p, n, []);
  }

  lemma TurnTaken(
      t: Tree, endpoints: seq<EndpointSpec>, f: Evaluator, expired: nat -> bool, p: Progress, n: nat, order: seq<Write>)
    requires RanUpTo(t, endpoints, f, expired, p, n) && n < |endpoints|
    requires !p.failed || endpoints[n].alwaysRun
    requires var store, e := endpoints[n].store, f(n, ContextAfter(t, p.orders));
             Orders(order, if store.Some? then WritesOf(store.value, e) else {})
    ensures var e := f(n, ContextAfter(t, p.orders));
            var q := AfterRunning(p, n, endpoints[n], e, order, expired(n));
            RanUpTo(t, endpoints, f, expired, q, n + 1) &&
            ContextAfter(t, q.orders) == SetAll(ContextAfter(t, p.orders), order)
  {
    EarlierTurnsStand(endpoints, expired, p.evaluations, n, f(n, ContextAfter(t, p.orders)));
    OneMoreTurn(t, endpoints, f, expired, p, n, order);
  }

  /**
   The evaluation of endpoint number `i`, which may read the whole context: its result,
   with its values stored even when it failed.
   */
  method EvaluateEndpoint(ctx: Gontext, i: nat, ep: EndpointSpec, f: Evaluator)
    returns (r: EndpointResult, ghost order: seq<Write>)
    requires ctx.Valid()
    modifies ctx`shape, Refs(ctx.shape)
    ensures ctx.Valid() && fresh(Refs(ctx.shape) - old(Refs(ctx.shape)))
    ensures var e := f(i, old(ctx.Tree()));
            r == EndpointResult(ep.name, e.success, StoreFails(ep, e)) &&
            Orders(order, if ep.store.Some? then WritesOf(ep.store.value, e) else {})
    ensures ctx.Tree() == SetAll(old(ctx.Tree()), order)
  {
    var e := f(i, ReadTree(MapRef(ctx.values), ctx.shape));
    var storeFailed := false;
    order := [];
    if ep.store.Some? {
      var stored;
      stored, storeFailed, order := StoreResultValues(ctx, ep.store.value, e);
    }
    r := EndpointResult(ep.name, e.success, storeFailed);
  }

  /** The turn of an endpoint that is not skipped. */
  method TakeTurn(ctx: Gontext, result: Result, i: nat, ep: EndpointSpec, f: Evaluator, noteTimeout: bool)
    returns (success: bool, ghost order: seq<Write>)
    requires ctx.Valid() && result !in Refs(ctx.shape)
    modifies result, ctx`shape, Refs(ctx.shape)
    ensures ctx.Valid() && fresh(Refs(ctx.shape) - old(Refs(ctx.shape))) && result !in Refs(ctx.shape)
    ensures var e := f(i, old(ctx.Tree()));
            success == e.success &&
            result.endpointResults ==
              old(result.endpointResults) + [EndpointResult(ep.name, e.success, StoreFails(ep, e))] &&
            Orders(order, if ep.store.Some? then WritesOf(ep.store.value, e) else {})
    ensures |result.errors| == old(|result.errors|) + if noteTimeout then 1 else 0
    ensures result.success == (old(result.success) && success && !noteTimeout)
    ensures ctx.Tree() == SetAll(old(ctx.Tree()), order)
  {
    if noteTimeout {
      result.AddError("suite execution timed out");
      result.success := false;
    }
    var epResult;
    epResult, order := EvaluateEndpoint(ctx, i, ep, f);
    result.endpointResults := result.endpointResults + [epResult];
    if !epResult.success {
      result.success := false;
    }
    success := epResult.success;
  }

  /** What the loop has left in the objects, next to what it has come to. */
  ghost predicate Recorded(ctx: Gontext, result: Result, t: Tree, p: Progress)
    reads ctx, result, Refs(ctx.shape)
  {
    ctx.Valid() && result !in Refs(ctx.shape) &&
    ctx.Tree() == ContextAfter(t, p.orders) && result.endpointResults == p.results &&
    |result.errors| == if p.timedOut then 1 else 0
  }

  /** One turn of the loop over the endpoints. */
  method NextTurn(
      ctx: Gontext, result: Result, endpoints: seq<EndpointSpec>, f: Evaluator, expired: nat -> bool, i: nat,
      suiteHasFailed: bool, timeoutNoticed: bool, ghost t: Tree, ghost p: Progress)
    returns (failed: bool, noticed: bool, ghost q: Progress)
    requires i < |endpoints| && RanUpTo(t, endpoints, f, expired, p, i) && Recorded(ctx, result, t, p)
    requires suiteHasFailed == p.failed && timeoutNoticed == p.timedOut
    modifies result, ctx`shape, Refs(ctx.shape)
    ensures RanUpTo(t, endpoints, f, expired, q, i + 1) && Recorded(ctx, result, t, q)
    ensures failed == q.failed && noticed == q.timedOut
    ensures fresh(Refs(ctx.shape) - old(Refs(ctx.shape)))
  {
    var ep := endpoints[i];
    ghost var e := f(i, ctx.Tree());
    if suiteHasFailed && !ep.alwaysRun {
      TurnSkipped(t, endpoints, f, expired, p, i);
      q := AfterSkipping(p, i, e);
      return suiteHasFailed, timeoutNoticed, q;
    }
    var noteTimeout := expired(i) && !timeoutNoticed;
    var success, order := TakeTurn(ctx, result, i, ep, f, noteTimeout);
    TurnTaken(t, endpoints, f, expired, p, i, order);
    q := AfterRunning(p, i, ep, e, order, expired(i));
    failed, noticed := suiteHasFailed || !success, timeoutNoticed || noteTimeout;
  }

  /** The loop over the endpoints. */
  method TakeTurns(ctx: Gontext, result: Result, endpoints: seq<EndpointSpec>, f: Evaluator, expired: nat -> bool)
    returns (ghost p: Progress)
    requires ctx.Valid() && result !in Refs(ctx.shape) && result.endpointResults == [] && result.errors == []
    modifies result, ctx`shape, Refs(ctx.shape)
    ensures RanUpTo(old(ctx.Tree()), endpoints, f, expired, p, |endpoints|)
    ensures Recorded(ctx, result, old(ctx.Tree()), p) && fresh(Refs(ctx.shape) - old(Refs(ctx.shape)))
  {
    ghost var t := ctx.Tree();
    var timeoutNoticed, suiteHasFailed := false, false;
    p := Progress(_ => Evaluation(true, _ => None), [], [], false, false);
    for i := 0 to |endpoints|
      invariant RanUpTo(t, endpoints, f, expired, p, i) && Recorded(ctx, result, t, p)
      invariant suiteHasFailed == p.failed && timeoutNoticed == p.timedOut
      invariant fresh(Refs(ctx.shape) - old(Refs(ctx.shape)))
    {
      suiteHasFailed, timeoutNoticed, p :=
        NextTurn(ctx, result, endpoints, f, expired, i, suiteHasFailed, timeoutNoticed, t, p);
    }
  }

  /** The end of a run: a copy of the context, and the outcome. */
  method Conclude(ctx: Gontext, result: Result) returns (context: MapObject, ghost contextShape: Shape)
    requires ctx.Valid() && result !in Refs(ctx.shape)
    modifies result`success
    ensures result.success <==> (forall r :: r in result.endpointResults ==> r.success) && result.errors == []
    ensures Matches(MapRef(context), contextShape) && Unshared(contextShape) && fresh(Refs(contextShape))
    ensures Erase(contextShape) == ctx.Tree()
  {
    context, contextShape := ctx.GetAll();
    result.CalculateSuccess();
  }

  /** What a run of the evaluator, from an initial tree, may come to. */
  ghost predicate RunOf(
      t: Tree, endpoints: seq<EndpointSpec>, f: Evaluator, evaluations: nat -> Evaluation, orders: seq<seq<Write>>)
  {
    |orders| == |endpoints| && OrdersOfRun(endpoints, evaluations, orders) && EvaluatedInTurn(t, f, evaluations, orders)
  }

  /** What a run leaves behind. */
  ghost predicate Outcome(
      result: Result, endpoints: seq<EndpointSpec>, evaluations: nat -> Evaluation, expired: nat -> bool)
    reads result
  {
    var n := |endpoints|;
    result.endpointResults == ResultsUpTo(endpoints, evaluations, n) &&
    (result.success <==> !HasFailed(endpoints, evaluations, n) && !TimedOut(endpoints, evaluations, expired, n)) &&
    |result.errors| == if TimedOut(endpoints, evaluations, expired, n) then 1 else 0
  }

  /** All turns, from a new context and a new result. */
  method RunAll(
      endpoints: seq<EndpointSpec>, initialContext: MapObject?, ghost shape: Shape, f: Evaluator, expired: nat -> bool)
    returns (ctx: Gontext, result: Result, ghost p: Progress)
    requires initialContext != null ==> Matches(MapRef(initialContext), shape)
    ensures fresh(ctx) && fresh(result) && fresh(Refs(ctx.shape))
    ensures RanUpTo(InitialTree(initialContext, shape), endpoints, f, expired, p, |endpoints|)
    ensures Recorded(ctx, result, InitialTree(initialContext, shape), p)
  {
    ctx := new Gontext(initialContext, shape);
    result := new Result();
    p := TakeTurns(ctx, result, endpoints, f, expired);
  }

  /**
   Executes a suite, evaluating each endpoint in the context that those before it left.
   Without a `modifies` clause, nothing that existed before is changed, the initial
   context least of all.
   */
  method Execute(
      endpoints: seq<EndpointSpec>, initialContext: MapObject?, ghost shape: Shape, f: Evaluator, expired: nat -> bool)
    returns (
      result: Result, context: MapObject, ghost contextShape: Shape,
      ghost evaluations: nat -> Evaluation, ghost orders: seq<seq<Write>>)
    requires initialContext != null ==> Matches(MapRef(initialContext), shape)
    ensures RunOf(InitialTree(initialContext, shape), endpoints, f, evaluations, orders)
    ensures fresh(result) && Outcome(result, endpoints, evaluations, expired)
    ensures Matches(MapRef(context), contextShape) && Unshared(contextShape) && fresh(Refs(contextShape))
    ensures Erase(contextShape) == ContextAfter(InitialTree(initialContext, shape), orders)
    ensures initialContext != null ==> Matches(MapRef(initialContext), shape)
  {
    var ctx;
    ghost var p;
    ctx, result, p := RunAll(endpoints, initialContext, shape, f, expired);
    context, contextShape := Conclude(ctx, result);
    evaluations, orders := p.evaluations, p.orders;
    AllSucceededExactly(endpoints, evaluations, |endpoints|);
  }

  // ---------------------------------------------------------------------------
  // Isolation of contexts

  ghost function AsWrites(writes: seq<(string, Scalar)>): seq<Write> {
    seq(|writes|, i requires 0 <= i < |writes| => Write(Split(writes[i].0, '.'), writes[i].1))
  }

  lemma WritesInTwoParts(t: Tree, writes: seq<(string, Scalar)>, n: nat)
    requires n <= |writes|
    ensures SetAll(SetAll(t, AsWrites(writes[..n])), AsWrites(writes[n..])) == SetAll(t, AsWrites(writes))
  {
    SetAllConcat(t, AsWrites(writes[..n]), AsWrites(writes[n..]));
    assert AsWrites(writes) == AsWrites(writes[..n]) + AsWrites(writes[n..]);
  }

  method SetMany(ctx: Gontext, writes: seq<(string, Scalar)>)
    requires ctx.Valid()
    modifies ctx`shape, Refs(ctx.shape)
    ensures ctx.Valid() && fresh(Refs(ctx.shape) - old(Refs(ctx.shape)))
    ensures ctx.Tree() == SetAll(old(ctx.Tree()), AsWrites(writes))
  {
    for i := 0 to |writes|
      invariant ctx.Valid() && fresh(Refs(ctx.shape) - old(Refs(ctx.shape)))
      invariant ctx.Tree() == SetAll(old(ctx.Tree()), AsWrites(writes[..i]))
    {
      SetAllOneMore(old(ctx.Tree()), AsWrites(writes[..i]), Write(Split(writes[i].0, '.'), writes[i].1));
      assert AsWrites(writes[..i + 1]) == AsWrites(writes[..i]) + [Write(Split(writes[i].0, '.'), writes[i].1)];
      ctx.Set(writes[i].0, Atomic(writes[i].1), Atom(writes[i].1));
    }
    assert writes[..|writes|] == writes;
  }

  /** Writes leave alone what shares nothing with the context. */
  method SetManyBeside(
      ctx: Gontext, writes: seq<(string, Scalar)>, other: MapObject, ghost shape: Shape)
    requires ctx.Valid() && Matches(MapRef(other), shape) && Refs(shape) !! Refs(ctx.shape) && ctx !in Refs(shape)
    modifies ctx`shape, Refs(ctx.shape)
    ensures ctx.Valid() && fresh(Refs(ctx.shape) - old(Refs(ctx.shape)))
    ensures ctx.Tree() == SetAll(old(ctx.Tree()), AsWrites(writes))
    ensures Matches(MapRef(other), shape) == old(Matches(MapRef(other), shape))
  {
    SetMany(ctx, writes);
  }

  /** A copy of a context, and the writes after it. */
  method CopyAndWrite(ctx: Gontext, writes: seq<(string, Scalar)>) returns (copy: MapObject, ghost copyShape: Shape)
    requires ctx.Valid()
    modifies ctx`shape, Refs(ctx.shape)
    ensures ctx.Valid() && ctx.Tree() == SetAll(old(ctx.Tree()), AsWrites(writes))
    ensures Matches(MapRef(copy), copyShape) && Erase(copyShape) == old(ctx.Tree())
  {
    copy, copyShape := ctx.GetAll();
    SetManyBeside(ctx, writes, copy, copyShape);
  }

  /**
   After a context is made from initial values, no sequence of writes changes those
   values or a copy taken on the way: the copy shows the first `n` writes for good.
   */
  method WritesStayInside(initial: MapObject, ghost shape: Shape, writes: seq<(string, Scalar)>, n: nat)
    returns (ctx: Gontext, copy: MapObject, ghost copyShape: Shape)
    requires Matches(MapRef(initial), shape) && n <= |writes|
    ensures Matches(MapRef(initial), shape)
    ensures ctx.Valid() && ctx.Tree() == SetAll(Erase(shape), AsWrites(writes))
    ensures Matches(MapRef(copy), copyShape) && Erase(copyShape) == SetAll(Erase(shape), AsWrites(writes[..n]))
  {
    ctx := new Gontext(initial, shape);
    SetMany(ctx, writes[..n]);
    copy, copyShape := CopyAndWrite(ctx, writes[n..]);
    WritesInTwoParts(Erase(shape), writes, n);
  }

  /** No endpoint stores under a key and a dotted extension of it. */
  ghost predicate Unambiguous(endpoints: seq<EndpointSpec>) {
    forall i :: 0 <= i < |endpoints| && endpoints[i].store.Some? ==> NoDottedPrefix(endpoints[i].store.value)
  }

  /**
   Two runs of a suite with the same evaluator, one after the other, both start from
   the same tree.  So unless some endpoint stores ambiguously, they have the same
   results, outcome and final context.
   */
  method EveryRunStartsAlike(
      endpoints: seq<EndpointSpec>, initialContext: MapObject, ghost shape: Shape, f: Evaluator, expired: nat -> bool)
    returns (r1: Result, c1: MapObject, ghost s1: Shape, r2: Result, c2: MapObject, ghost s2: Shape)
    requires Matches(MapRef(initialContext), shape)
    ensures Matches(MapRef(c1), s1) && Matches(MapRef(c2), s2)
    ensures exists g, a ::
              RunOf(Erase(shape), endpoints, f, g, a) && Outcome(r1, endpoints, g, expired) &&
              Erase(s1) == ContextAfter(Erase(shape), a)
    ensures exists g, a ::
              RunOf(Erase(shape), endpoints, f, g, a) && Outcome(r2, endpoints, g, expired) &&
              Erase(s2) == ContextAfter(Erase(shape), a)
    ensures Unambiguous(endpoints) ==>
              r1.endpointResults == r2.endpointResults && r1.success == r2.success &&
              |r1.errors| == |r2.errors| && Erase(s1) == Erase(s2)
  {
    ghost var g1, a, g2, b;
    r1, c1, s1, g1, a := Execute(endpoints, initialContext, shape, f, expired);
    r2, c2, s2, g2, b := Execute(endpoints, initialContext, shape, f, expired);
    if Unambiguous(endpoints) {
      RunIsDetermined(Erase(shape), endpoints, f, expired, g1, a, g2, b);
      AllSucceededExactly(endpoints, g1, |endpoints|);
      AllSucceededExactly(endpoints, g2, |endpoints|);
    }
  }

  // ---------------------------------------------------------------------------
  // Pairing results with endpoints for alerting

  function Pairs(endpoints: seq<EndpointSpec>, results: seq<EndpointResult>): seq<(EndpointSpec, EndpointResult)> {
    if endpoints == [] || results == [] then []
    else [(endpoints[0], results[0])] + Pairs(endpoints[1..], results[1..])
  }

  lemma {:induction false} PairsAt(endpoints: seq<EndpointSpec>, results: seq<EndpointResult>)
    ensures var pairs := Pairs(endpoints, results);
            |pairs| == (if |results| < |endpoints| then |results| else |endpoints|) &&
            forall i :: 0 <= i < |pairs| ==> pairs[i] == (endpoints[i], results[i])
  {
    if endpoints == [] || results == [] {
    } else {
      PairsAt(endpoints[1..], results[1..]);
    }
  }

  /** `executeSuite` takes result number `i` for endpoint number `i`, as long as there are results. */
  method PairForAlerting(endpoints: seq<EndpointSpec>, results: seq<EndpointResult>)
    returns (pairs: seq<(EndpointSpec, EndpointResult)>)
    ensures pairs == Pairs(endpoints, results)
  {
    PairsAt(endpoints, results);
    pairs := [];
    for i := 0 to |endpoints|
      invariant |pairs| == if |results| < i then |results| else i
      invariant forall k :: 0 <= k < |pairs| ==> pairs[k] == (endpoints[k], results[k])
    {
      if i < |results| {
        pairs := pairs + [(endpoints[i], results[i])];
      }
    }
  }

  ghost predicate DistinctNames(endpoints: seq<EndpointSpec>) {
    forall i, j :: 0 <= i < j < |endpoints| ==> endpoints[i].name != endpoints[j].name
  }

  /** Every pair handed to alerting is an endpoint with its own result. */
  ghost predicate PairedRight(endpoints: seq<EndpointSpec>, evaluations: nat -> Evaluation) {
    forall p :: p in Pairs(endpoints, ResultsUpTo(endpoints, evaluations, |endpoints|)) ==> p.1.name == p.0.name
  }

  lemma {:induction false} AtMostOneResultEach(endpoints: seq<EndpointSpec>, evaluations: nat -> Evaluation, n: nat)
    requires n <= |endpoints|
    ensures |ResultsUpTo(endpoints, evaluations, n)| <= n
  {
    if n == 0 {
    } else {
      AtMostOneResultEach(endpoints, evaluations, n - 1);
    }
  }

  lemma PairedRightByPosition(endpoints: seq<EndpointSpec>, evaluations: nat -> Evaluation)
    ensures var results := ResultsUpTo(endpoints, evaluations, |endpoints|);
            |results| <= |endpoints| &&
            (PairedRight(endpoints, evaluations) <==>
             forall i :: 0 <= i < |results| ==> results[i].name == endpoints[i].name)
  {
    var results := ResultsUpTo(endpoints, evaluations, |endpoints|);
    var pairs := Pairs(endpoints, results);
    AtMostOneResultEach(endpoints, evaluations, |endpoints|);
    PairsAt(endpoints, results);
    assert forall i :: 0 <= i < |pairs| ==> pairs[i] in pairs;
  }

  ghost predicate SkippedBeforeExecuted(endpoints: seq<EndpointSpec>, evaluations: nat -> Evaluation) {
    exists i: nat, j: nat :: i < j < |endpoints| && !Runs(endpoints, evaluations, i) && Runs(endpoints, evaluations, j)
  }

  /** Up to the first skipped endpoint the results are those of the endpoints in order. */
  lemma {:induction false} ResultsWithoutSkips(endpoints: seq<EndpointSpec>, evaluations: nat -> Evaluation, n: nat)
    requires n <= |endpoints| && forall i: nat :: i < n ==> Runs(endpoints, evaluations, i)
    ensures var results := ResultsUpTo(endpoints, evaluations, n);
            |results| == n && forall i :: 0 <= i < n ==> results[i].name == endpoints[i].name
  {
    if n == 0 {
    } else {
      ResultsWithoutSkips(endpoints, evaluations, n - 1);
    }
  }

  /** The first endpoint from `from` on that is skipped, or executed, as asked. */
  lemma FirstFrom(endpoints: seq<EndpointSpec>, evaluations: nat -> Evaluation, from: nat, executed: bool)
    returns (m: nat)
    requires from <= |endpoints|
    ensures from <= m <= |endpoints| && forall i: nat :: from <= i < m ==> Runs(endpoints, evaluations, i) != executed
    ensures m < |endpoints| ==> Runs(endpoints, evaluations, m) == executed
  {
    m := from;
    while m < |endpoints| && Runs(endpoints, evaluations, m) != executed
      invariant from <= m <= |endpoints| && forall i: nat :: from <= i < m ==>
                Runs(endpoints, evaluations, i) != executed
    {
      m := m + 1;
    }
  }

  /** With a first skipped endpoint `m`, and `j` the first executed after it, `j`'s result is paired with `m`. */
  lemma PairedWrong(endpoints: seq<EndpointSpec>, evaluations: nat -> Evaluation, m: nat, j: nat)
    requires DistinctNames(endpoints) && m < j < |endpoints|
    requires forall i: nat :: i < m ==> Runs(endpoints, evaluations, i)
    requires forall i: nat :: m <= i < j ==> !Runs(endpoints, evaluations, i)
    requires Runs(endpoints, evaluations, j)
    ensures !PairedRight(endpoints, evaluations)
  {
    PairedRightByPosition(endpoints, evaluations);
    ResultsWithoutSkips(endpoints, evaluations, m);
    ResultsGrow(endpoints, evaluations, m, j);
    ResultFor(endpoints, evaluations, |endpoints|, j);
  }

  /** With nothing executed after the first skipped endpoint, every result is paired with its endpoint. */
  lemma PairedInOrder(endpoints: seq<EndpointSpec>, evaluations: nat -> Evaluation, m: nat)
    requires m <= |endpoints|
    requires forall i: nat :: i < m ==> Runs(endpoints, evaluations, i)
    requires forall i: nat :: m <= i < |endpoints| ==> !Runs(endpoints, evaluations, i)
    ensures PairedRight(endpoints, evaluations) && !SkippedBeforeExecuted(endpoints, evaluations)
  {
    PairedRightByPosition(endpoints, evaluations);
    ResultsWithoutSkips(endpoints, evaluations, m);
    ResultsGrow(endpoints, evaluations, m, |endpoints|);
  }

  /** In one run: pairing by position is right exactly when no skipped endpoint precedes an executed one. */
  lemma PairedRightExactly(endpoints: seq<EndpointSpec>, evaluations: nat -> Evaluation)
    requires DistinctNames(endpoints)
    ensures PairedRight(endpoints, evaluations) <==> !SkippedBeforeExecuted(endpoints, evaluations)
  {
    var m := FirstFrom(endpoints, evaluations, 0, false);
    var j := FirstFrom(endpoints, evaluations, m, true);
    if j < |endpoints| {
      PairedWrong(endpoints, evaluations, m, j);
      assert !Runs(endpoints, evaluations, m) && Runs(endpoints, evaluations, j);
    } else {
      PairedInOrder(endpoints, evaluations, m);
    }
  }

  lemma {:induction false} FailureLasts(endpoints: seq<EndpointSpec>, evaluations: nat -> Evaluation, i: nat, j: nat)
    requires i <= j <= |endpoints| && HasFailed(endpoints, evaluations, i)
    ensures HasFailed(endpoints, evaluations, j)
  {
    if i < j {
      FailureLasts(endpoints, evaluations, i, j - 1);
    }
  }

  /** What a configuration must look like for a run to skip one endpoint and execute a later one. */
  lemma SkippedThenExecuted(endpoints: seq<EndpointSpec>, evaluations: nat -> Evaluation, i: nat, j: nat)
    requires i < j < |endpoints| && !Runs(endpoints, evaluations, i) && Runs(endpoints, evaluations, j)
    ensures i >= 1 && !endpoints[i].alwaysRun && endpoints[j].alwaysRun
  {
    FailureLasts(endpoints, evaluations, i, j);
  }

  lemma {:induction false} FirstFails(endpoints: seq<EndpointSpec>, evaluations: nat -> Evaluation, i: nat)
    requires 1 <= i <= |endpoints| && !evaluations(0).success
    ensures HasFailed(endpoints, evaluations, i)
  {
    if i > 1 {
      FirstFails(endpoints, evaluations, i - 1);
    } else {
      assert Runs(endpoints, evaluations, 0);
    }
  }

  /**
   For a configuration: pairing by position is right in every possible run exactly
   when no endpoint that always runs comes after one, other than the first, that does not.
   */
  lemma PairingIsSafeExactly(endpoints: seq<EndpointSpec>)
    requires DistinctNames(endpoints)
    ensures (forall evaluations: nat -> Evaluation :: PairedRight(endpoints, evaluations)) <==>
            !exists i, j :: 1 <= i < j < |endpoints| && !endpoints[i].alwaysRun && endpoints[j].alwaysRun
  {
    if i, j :| 1 <= i < j < |endpoints| && !endpoints[i].alwaysRun && endpoints[j].alwaysRun {
      var allFail: nat -> Evaluation := _ => Evaluation(false, _ => None);
      FirstFails(endpoints, allFail, i);
      assert !Runs(endpoints, allFail, i) && Runs(endpoints, allFail, j);
      PairedRightExactly(endpoints, allFail);
    } else {
      forall evaluations: nat -> Evaluation
        ensures PairedRight(endpoints, evaluations)
      {
        PairedRightExactly(endpoints, evaluations);
        if i: nat, j: nat :|
          i < j < |endpoints| && !Runs(endpoints, evaluations, i) && Runs(endpoints, evaluations, j) {
          SkippedThenExecuted(endpoints, evaluations, i, j);
        }
      }
    }
  }
}
