/**
 * The mobile-bridge hook: whether the host mobile shell's message channel can
 * be used, and the dispatch of one event either through that channel or
 * through a caller-supplied fallback.
 *
 * The React hook, the `window` global and `console.error` are replaced by an
 * explicit environment and an ordered trace of effects; `await fallback()` is
 * one atomic call whose outcome the fallback script decides.
 */
module MobileBridge {
  import opened Js
  import opened Wire

  const PostMessage: string := "postMessage"
  const BridgeFailureMessage: string := "Failed to send bridge message:"
  const FallbackFailureMessage: string := "Fallback execution failed:"

  /**
   * What one call reads from its surroundings: the device classification and
   * the current value of `window.DerivAppChannel` (`Undefined` when absent).
   */
  datatype Env = Env(isDesktop: bool, channel: Value)

  /**
   * The optional fallback. A supplied one is described by the outcome of its
   * k-th invocation (k counted from 0 within one dispatch).
   */
  datatype Fallback = Absent | Supplied(outcomeOfCall: nat -> Outcome)

  /** What was thrown: by `postMessage`, by calling a truthy non-function `postMessage`, or by the fallback. */
  datatype Fault = PostThrew | PostNotCallable | FallbackThrew

  /** The observable effects of a dispatch, in order. */
  datatype Effect =
    | Posted(wire: string, outcome: Outcome)
    | FallbackRan(outcome: Outcome)
    | Logged(message: string, cause: Fault)

  /** How a block of the async function ends: `return value`, or an exception escaping it. */
  datatype Completion = Normal(value: bool) | Abrupt(fault: Fault)

  datatype Run = Run(completion: Completion, trace: seq<Effect>)

  /** A handler call that did its job: a post or a fallback call that returned. */
  predicate Delivered(e: Effect) {
    match e
    case Posted(_, outcome) => outcome == Returns
    case FallbackRan(outcome) => outcome == Returns
    case Logged(_, _) => false
  }

  predicate AnyDelivered(t: seq<Effect>) {
    exists i | 0 <= i < |t| :: Delivered(t[i])
  }

  /** A delivery, if there is one, is the last effect of the trace. */
  predicate DeliveredOnlyLast(t: seq<Effect>) {
    forall i | 0 <= i < |t| && Delivered(t[i]) :: i == |t| - 1
  }

  /** Every post in the trace carries `wire`. */
  predicate PostsCarry(t: seq<Effect>, wire: string) {
    forall i | 0 <= i < |t| && t[i].Posted? :: t[i].wire == wire
  }

  function PostCount(t: seq<Effect>): nat {
    if |t| == 0 then 0 else (if t[0].Posted? then 1 else 0) + PostCount(t[1..])
  }

  function FallbackCount(t: seq<Effect>): nat {
    if |t| == 0 then 0 else (if t[0].FallbackRan? then 1 else 0) + FallbackCount(t[1..])
  }

  function BridgeFailureLogs(t: seq<Effect>): nat {
    if |t| == 0 then 0
    else (if t[0].Logged? && t[0].message == BridgeFailureMessage then 1 else 0) + BridgeFailureLogs(t[1..])
  }

  lemma {:induction false} CountsAppend(a: seq<Effect>, b: seq<Effect>)
    ensures PostCount(a + b) == PostCount(a) + PostCount(b)
    ensures FallbackCount(a + b) == FallbackCount(a) + FallbackCount(b)
    ensures BridgeFailureLogs(a + b) == BridgeFailureLogs(a) + BridgeFailureLogs(b)
  {
    if |a| > 0 {
      assert (a + b)[1..] == a[1..] + b;
      CountsAppend(a[1..], b);
    } else {
      assert a + b == b;
    }
  }

  /** Appending a trace to one without a delivery keeps where (and whether) delivery happened. */
  lemma DeliveryAppend(a: seq<Effect>, b: seq<Effect>)
    requires !AnyDelivered(a)
    ensures AnyDelivered(a + b) <==> AnyDelivered(b)
    ensures DeliveredOnlyLast(b) ==> DeliveredOnlyLast(a + b)
  {
    if AnyDelivered(a + b) {
      var i :| 0 <= i < |a + b| && Delivered((a + b)[i]);
      if i >= |a| {
        assert Delivered(b[i - |a|]);
      }
    }
    if AnyDelivered(b) {
      var j :| 0 <= j < |b| && Delivered(b[j]);
      assert Delivered((a + b)[|a| + j]);
    }
    if DeliveredOnlyLast(b) {
      forall i | 0 <= i < |a + b| && Delivered((a + b)[i])
        ensures i == |a + b| - 1
      {
        if i >= |a| {
          assert Delivered(b[i - |a|]);
        }
      }
    }
  }

  /**
   * `isBridgeAvailable`: not on a desktop surface, and `window.DerivAppChannel`
   * is an object (or function) whose `postMessage` member is truthy. Like the source, it
   * tests truthiness and not callability.
   */
  function IsBridgeAvailable(env: Env): (available: bool)
    ensures env.isDesktop ==> !available
    ensures available <==>
      && !env.isDesktop
      && (env.channel.Object? || env.channel.Function?)
      && PostMessage in MembersOf(env.channel)
      && Truthy(MembersOf(env.channel)[PostMessage])
  {
    !env.isDesktop && Truthy(OptionalMember(env.channel, PostMessage))
  }

  /** Hands the event's wire form to the channel's `postMessage`; the try block reports success if the call returns. */
  function CallPost(post: Value, event: BridgeEvent): (r: Run)
    ensures PostCount(r.trace) == |r.trace| <= 1
    ensures FallbackCount(r.trace) == 0 && BridgeFailureLogs(r.trace) == 0
    ensures PostsCarry(r.trace, Serialize(event))
    ensures r.completion.Normal? ==> r.completion.value && AnyDelivered(r.trace) && DeliveredOnlyLast(r.trace)
    ensures r.completion.Abrupt? ==> !AnyDelivered(r.trace) && r.completion.fault != FallbackThrew
  {
    match post
    case Function(outcome, _) =>
      var r := Run(if outcome == Returns then Normal(true) else Abrupt(PostThrew), [Posted(Serialize(event), outcome)]);
      assert outcome == Returns ==> Delivered(r.trace[0]);
      r
    case _ =>
      // calling a value that is not a function throws a TypeError before anything reaches the host
      Run(Abrupt(PostNotCallable), [])
  }

  /** The k-th fallback call of this dispatch, awaited; success if it returns. */
  function CallFallback(outcomeOfCall: nat -> Outcome, k: nat): (r: Run)
    ensures FallbackCount(r.trace) == |r.trace| == 1
    ensures PostCount(r.trace) == 0 && BridgeFailureLogs(r.trace) == 0
    ensures r.completion.Normal? ==> r.completion.value && AnyDelivered(r.trace) && DeliveredOnlyLast(r.trace)
    ensures r.completion.Abrupt? ==> !AnyDelivered(r.trace) && r.completion.fault == FallbackThrew
  {
    var outcome := outcomeOfCall(k);
    var r := Run(if outcome == Returns then Normal(true) else Abrupt(FallbackThrew), [FallbackRan(outcome)]);
    assert outcome == Returns ==> Delivered(r.trace[0]);
    r
  }

  /**
   * A fallback call guarded by its own handler: success if it returns; if it
   * throws, the fallback failure is logged and the result is false.
   */
  function GuardedFallback(outcomeOfCall: nat -> Outcome, k: nat): (r: Run)
    ensures r.completion.Normal?
    ensures r.completion.value <==> AnyDelivered(r.trace)
    ensures DeliveredOnlyLast(r.trace)
    ensures FallbackCount(r.trace) == 1 && PostCount(r.trace) == 0 && BridgeFailureLogs(r.trace) == 0
    ensures r.completion.value <==> outcomeOfCall(k) == Returns
  {
    var c := CallFallback(outcomeOfCall, k);
    if c.completion.Normal? then c
    else
      var log := [Logged(FallbackFailureMessage, FallbackThrew)];
      CountsAppend(c.trace, log);
      DeliveryAppend(c.trace, log);
      Run(Normal(false), c.trace + log)
  }

  /** The outer `try` block of `sendBridgeEvent`. */
  function TryBlock(env: Env, event: BridgeEvent, fallback: Fallback): (r: Run)
    ensures PostCount(r.trace) <= 1 && FallbackCount(r.trace) <= 1 && BridgeFailureLogs(r.trace) == 0
    ensures PostCount(r.trace) > 0 ==> IsBridgeAvailable(env)
    ensures PostsCarry(r.trace, Serialize(event))
    ensures fallback.Absent? ==> FallbackCount(r.trace) == 0
    ensures r.completion.Normal? ==> (r.completion.value <==> AnyDelivered(r.trace)) && DeliveredOnlyLast(r.trace)
    ensures r.completion.Abrupt? ==> !AnyDelivered(r.trace)
  {
    if IsBridgeAvailable(env) then
      CallPost(OptionalMember(env.channel, PostMessage), event)
    else if fallback.Supplied? then
      CallFallback(fallback.outcomeOfCall, 0)
    else
      Run(Normal(false), [])
  }

  /** The outer `catch` block: log the bridge failure, then try the fallback (the k-th call) if there is one. */
  function CatchBlock(fault: Fault, fallback: Fallback, k: nat): (r: Run)
    ensures r.completion.Normal?
    ensures r.completion.value <==> AnyDelivered(r.trace)
    ensures DeliveredOnlyLast(r.trace)
    ensures PostCount(r.trace) == 0 && BridgeFailureLogs(r.trace) == 1
    ensures FallbackCount(r.trace) == (if fallback.Supplied? then 1 else 0)
    ensures forall i | 0 <= i < |r.trace| && r.trace[i].Logged? && r.trace[i].message == BridgeFailureMessage ::
              r.trace[i].cause == fault
  {
    var log := [Logged(BridgeFailureMessage, fault)];
    assert !AnyDelivered(log);
    if fallback.Supplied? then
      var g := GuardedFallback(fallback.outcomeOfCall, k);
      CountsAppend(log, g.trace);
      DeliveryAppend(log, g.trace);
      Run(g.completion, log + g.trace)
    else
      Run(Normal(false), log)
  }

  /**
   * `sendBridgeEvent(event, fallback)` as written: any exception out of the
   * `try` block, including one thrown by the fallback on the unavailable
   * path, lands in the `catch` block.
   */
  function SendBridgeEvent(env: Env, event: BridgeEvent, fallback: Fallback): (r: Run)
    // never raises to its caller
    ensures r.completion.Normal?
    // true exactly when some handler call did its job, and that call ends the dispatch
    ensures r.completion.value <==> AnyDelivered(r.trace)
    ensures DeliveredOnlyLast(r.trace)
    // the channel is used at most once, only when available, and only with the event's wire form
    ensures PostCount(r.trace) <= 1
    ensures PostCount(r.trace) > 0 ==> IsBridgeAvailable(env)
    ensures PostsCarry(r.trace, Serialize(event))
    // the fallback runs at most twice, and only when supplied; the bridge failure is logged at most once
    ensures FallbackCount(r.trace) <= 2
    ensures fallback.Absent? ==> FallbackCount(r.trace) == 0
    ensures BridgeFailureLogs(r.trace) <= 1
  {
    var t := TryBlock(env, event, fallback);
    match t.completion
    case Normal(_) => t
    case Abrupt(fault) =>
      var c := CatchBlock(fault, fallback, FallbackCount(t.trace));
      CountsAppend(t.trace, c.trace);
      DeliveryAppend(t.trace, c.trace);
      PostsCarryAppend(t.trace, c.trace, Serialize(event));
      Run(c.completion, t.trace + c.trace)
  }

  lemma PostsCarryAppend(a: seq<Effect>, b: seq<Effect>, wire: string)
    requires PostsCarry(a, wire) && PostCount(b) == 0
    ensures PostsCarry(a + b, wire)
  {
    forall i | 0 <= i < |a + b| && (a + b)[i].Posted?
      ensures (a + b)[i].wire == wire
    {
      if i >= |a| {
        NoPostsMeansNonePosted(b, i - |a|);
      }
    }
  }

  lemma {:induction false} NoPostsMeansNonePosted(t: seq<Effect>, i: nat)
    requires PostCount(t) == 0 && i < |t|
    ensures !t[i].Posted?
  {
    if i > 0 {
      NoPostsMeansNonePosted(t[1..], i - 1);
    }
  }

  /** Available channel whose `postMessage` returns: one post of the wire form, result true, no fallback. */
  lemma ChannelPath(env: Env, event: BridgeEvent, fallback: Fallback)
    requires IsBridgeAvailable(env)
    requires OptionalMember(env.channel, PostMessage).Function?
    requires OptionalMember(env.channel, PostMessage).onCall == Returns
    ensures SendBridgeEvent(env, event, fallback) == Run(Normal(true), [Posted(Serialize(event), Returns)])
  {
  }

  /** Unavailable channel and a fallback that completes: it runs once, result true, nothing posted. */
  lemma FallbackPath(env: Env, event: BridgeEvent, fallback: Fallback)
    requires !IsBridgeAvailable(env)
    requires fallback.Supplied? && fallback.outcomeOfCall(0) == Returns
    ensures SendBridgeEvent(env, event, fallback) == Run(Normal(true), [FallbackRan(Returns)])
  {
  }

  /** Unavailable channel and no fallback: result false with no effect at all. */
  lemma NoOpPath(env: Env, event: BridgeEvent)
    requires !IsBridgeAvailable(env)
    ensures SendBridgeEvent(env, event, Absent) == Run(Normal(false), [])
  {
  }

  /**
   * `postMessage` throws and a fallback is supplied: one bridge-failure log,
   * then one fallback call whose outcome decides the result; a failing
   * fallback is logged as such.
   */
  lemma PostThrowsWithFallback(env: Env, event: BridgeEvent, fallback: Fallback)
    requires IsBridgeAvailable(env)
    requires OptionalMember(env.channel, PostMessage).Function?
    requires OptionalMember(env.channel, PostMessage).onCall == Throws
    requires fallback.Supplied?
    ensures var o := fallback.outcomeOfCall(0);
      SendBridgeEvent(env, event, fallback) ==
      Run(Normal(o == Returns),
          [Posted(Serialize(event), Throws), Logged(BridgeFailureMessage, PostThrew), FallbackRan(o)]
          + (if o == Throws then [Logged(FallbackFailureMessage, FallbackThrew)] else []))
  {
  }

  /** `postMessage` throws and there is no fallback: result false after one bridge-failure log. */
  lemma PostThrowsNoFallback(env: Env, event: BridgeEvent)
    requires IsBridgeAvailable(env)
    requires OptionalMember(env.channel, PostMessage).Function?
    requires OptionalMember(env.channel, PostMessage).onCall == Throws
    ensures SendBridgeEvent(env, event, Absent) ==
      Run(Normal(false), [Posted(Serialize(event), Throws), Logged(BridgeFailureMessage, PostThrew)])
  {
  }

  /**
   * A truthy `postMessage` that is not a function passes the availability
   * test, but calling it throws: nothing is posted and the failure is handled
   * like a throwing `postMessage`.
   */
  lemma NonFunctionPostPath(env: Env, event: BridgeEvent, fallback: Fallback)
    requires IsBridgeAvailable(env)
    requires !OptionalMember(env.channel, PostMessage).Function?
    ensures var r := SendBridgeEvent(env, event, fallback);
      && PostCount(r.trace) == 0
      && |r.trace| > 0 && r.trace[0] == Logged(BridgeFailureMessage, PostNotCallable)
      && r.completion.value == (fallback.Supplied? && fallback.outcomeOfCall(0) == Returns)
  {
    var c := CatchBlock(PostNotCallable, fallback, 0);
    assert [] + c.trace == c.trace;
  }

  /**
   * A fallback that throws on the unavailable path is caught by the outer
   * `catch`, logged as a bridge failure, and invoked a second time.
   */
  lemma FallbackRunsTwice(env: Env, event: BridgeEvent, fallback: Fallback)
    requires !IsBridgeAvailable(env)
    requires fallback.Supplied? && fallback.outcomeOfCall(0) == Throws
    ensures var o := fallback.outcomeOfCall(1);
      SendBridgeEvent(env, event, fallback) ==
      Run(Normal(o == Returns),
          [FallbackRan(Throws), Logged(BridgeFailureMessage, FallbackThrew), FallbackRan(o)]
          + (if o == Throws then [Logged(FallbackFailureMessage, FallbackThrew)] else []))
    ensures FallbackCount(SendBridgeEvent(env, event, fallback).trace) == 2
  {
  }

  /**
   * The dispatch the outer handler is written for: its log message ("Failed to
   * send bridge message:") and its comment ("Execute fallback on error") name
   * bridge failures only. Here only a channel failure reaches that handler; a
   * fallback reached because the channel is unavailable runs once, and its
   * failure is logged as a fallback failure.
   */
  function SendBridgeEventIntended(env: Env, event: BridgeEvent, fallback: Fallback): (r: Run)
    ensures r.completion.Normal?
    ensures r.completion.value <==> AnyDelivered(r.trace)
    ensures DeliveredOnlyLast(r.trace)
    ensures PostCount(r.trace) <= 1
    ensures PostsCarry(r.trace, Serialize(event))
    // the fallback runs at most once, and only when supplied
    ensures FallbackCount(r.trace) <= 1
    ensures fallback.Absent? ==> FallbackCount(r.trace) == 0
    // a bridge failure is reported only when the channel was actually tried
    ensures BridgeFailureLogs(r.trace) <= 1
    ensures BridgeFailureLogs(r.trace) > 0 ==> IsBridgeAvailable(env)
  {
    if IsBridgeAvailable(env) then
      var t := CallPost(OptionalMember(env.channel, PostMessage), event);
      if t.completion.Normal? then t
      else
        var c := CatchBlock(t.completion.fault, fallback, 0);
        CountsAppend(t.trace, c.trace);
        DeliveryAppend(t.trace, c.trace);
        PostsCarryAppend(t.trace, c.trace, Serialize(event));
        Run(c.completion, t.trace + c.trace)
    else if fallback.Supplied? then
      GuardedFallback(fallback.outcomeOfCall, 0)
    else
      Run(Normal(false), [])
  }

  /** The code as written and the intended dispatch differ only when a fallback throws on the unavailable path. */
  lemma AsWrittenMatchesIntended(env: Env, event: BridgeEvent, fallback: Fallback)
    ensures SendBridgeEvent(env, event, fallback) == SendBridgeEventIntended(env, event, fallback)
        <==> !(!IsBridgeAvailable(env) && fallback.Supplied? && fallback.outcomeOfCall(0) == Throws)
  {
    if !IsBridgeAvailable(env) && fallback.Supplied? && fallback.outcomeOfCall(0) == Throws {
      FallbackRunsTwice(env, event, fallback);
      assert FallbackCount(SendBridgeEventIntended(env, event, fallback).trace) <= 1;
    }
  }

  /** A concrete input that shows the double call: a phone with no channel and a fallback that throws once. */
  lemma DoubleFallbackWitness()
    ensures var fallback := Supplied(k => if k == 0 then Throws else Returns);
      var env := Env(false, Undefined);
      && FallbackCount(SendBridgeEvent(env, TradingBack, fallback).trace) == 2
      && SendBridgeEvent(env, TradingBack, fallback).completion == Normal(true)
      && SendBridgeEventIntended(env, TradingBack, fallback) ==
         Run(Normal(false), [FallbackRan(Throws), Logged(FallbackFailureMessage, FallbackThrew)])
  {
    var fallback := Supplied(k => if k == 0 then Throws else Returns);
    FallbackRunsTwice(Env(false, Undefined), TradingBack, fallback);
  }
}
