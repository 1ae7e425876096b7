/** The NATS event bus: which handlers a delivery runs, when it is acknowledged, and how often a
    message is redelivered until it is. */
module EventBus {
  /** A handler, as what its calls answer: does its k-th call, counted from 0, fail? */
  type Handler = nat -> bool

  // ---- one delivery ----

  /** Runs the handlers from the i-th on until one fails: the calls made so far, and whether the
      message is acknowledged. */
  function DeliverFrom(hs: seq<Handler>, calls: seq<nat>, i: nat): (seq<nat>, bool)
    requires i <= |hs| == |calls|
    decreases |hs| - i
  {
    if i == |hs| then (calls, true)
    else if hs[i](calls[i]) then (calls[i := calls[i] + 1], false)
    else DeliverFrom(hs, calls[i := calls[i] + 1], i + 1)
  }

  function Deliver(hs: seq<Handler>, calls: seq<nat>): (seq<nat>, bool)
    requires |hs| == |calls|
  {
    DeliverFrom(hs, calls, 0)
  }

  /** The first handler from i on whose next call fails, or their number. */
  function FirstFailing(hs: seq<Handler>, calls: seq<nat>, i: nat): (n: nat)
    requires i <= |hs| == |calls|
    ensures i <= n <= |hs|
    ensures n < |hs| ==> hs[n](calls[n])
    ensures forall k :: i <= k < n ==> !hs[k](calls[k])
    decreases |hs| - i
  {
    if i == |hs| || hs[i](calls[i]) then i else FirstFailing(hs, calls, i + 1)
  }

  /** Every handler from i up to and including n has been called once more. */
  predicate CalledOnce(calls: seq<nat>, after: seq<nat>, i: nat, n: nat) {
    && |after| == |calls|
    && forall k :: 0 <= k < |calls| ==> after[k] == calls[k] + (if i <= k <= n then 1 else 0)
  }

  lemma {:induction false} SameFirstFailing(hs: seq<Handler>, calls: seq<nat>, more: seq<nat>, i: nat)
    requires i <= |hs| == |calls| == |more|
    requires forall k :: i <= k < |hs| ==> calls[k] == more[k]
    ensures FirstFailing(hs, calls, i) == FirstFailing(hs, more, i)
    decreases |hs| - i
  {
    if i < |hs| && !hs[i](calls[i]) { SameFirstFailing(hs, calls, more, i + 1); }
  }

  /** A delivery runs the handlers in order up to the first that fails; it is acknowledged exactly
      when none does. */
  lemma {:induction false} DeliveryStopsAtFirstFailure(hs: seq<Handler>, calls: seq<nat>, i: nat)
    requires i <= |hs| == |calls|
    ensures var (after, acked) := DeliverFrom(hs, calls, i); var n := FirstFailing(hs, calls, i);
      CalledOnce(calls, after, i, n) && (acked <==> n == |hs|)
    decreases |hs| - i
  {
    if i < |hs| && !hs[i](calls[i]) {
      var next := calls[i := calls[i] + 1];
      DeliveryStopsAtFirstFailure(hs, next, i + 1);
      SameFirstFailing(hs, calls, next, i + 1);
    }
  }

  // ---- redelivery ----

  /** Handlers that fail their first f[i] calls and then succeed. */
  function FailingFirst(f: seq<nat>): (hs: seq<Handler>)
    ensures |hs| == |f| && forall i, k: nat :: 0 <= i < |f| ==> hs[i](k) == (k < f[i])
  {
    seq(|f|, i requires 0 <= i < |f| => (k: nat) => k < f[i])
  }

  function Left(f: seq<nat>, calls: seq<nat>, i: nat): nat
    requires i < |f| == |calls|
  {
    if calls[i] < f[i] then f[i] - calls[i] else 0
  }

  /** The failures the handlers from i on still have in them. */
  function LeftFrom(f: seq<nat>, calls: seq<nat>, i: nat): nat
    requires i <= |f| == |calls|
    decreases |f| - i
  {
    if i == |f| then 0 else Left(f, calls, i) + LeftFrom(f, calls, i + 1)
  }

  /** A delivery that calls handlers 0 to n, where n is the first with a failure left, uses up one
      failure of n and leaves everyone else's as they are. */
  lemma {:induction false} NakUsesOneFailure(f: seq<nat>, calls: seq<nat>, after: seq<nat>, n: nat, i: nat)
    requires n < |f| == |calls| && CalledOnce(calls, after, 0, n) && i <= |f|
    requires calls[n] < f[n] && forall k :: 0 <= k < n ==> calls[k] >= f[k]
    ensures LeftFrom(f, after, i) == LeftFrom(f, calls, i) - (if i <= n then 1 else 0)
    ensures i <= n ==> LeftFrom(f, calls, i) > 0
    decreases |f| - i
  {
    if i < |f| {
      NakUsesOneFailure(f, calls, after, n, i + 1);
      assert after[i] == calls[i] + (if i <= n then 1 else 0);
    }
  }

  lemma DeliverOutcome(f: seq<nat>, calls: seq<nat>)
    requires |f| == |calls|
    ensures var (after, acked) := Deliver(FailingFirst(f), calls); var n := FirstFailing(FailingFirst(f), calls, 0);
      && CalledOnce(calls, after, 0, n) && (acked <==> n == |f|)
      && (n < |f| ==> calls[n] < f[n]) && (forall k :: 0 <= k < n ==> calls[k] >= f[k])
      && (!acked ==> LeftFrom(f, after, 0) < LeftFrom(f, calls, 0))
  {
    var hs := FailingFirst(f);
    var (after, acked) := Deliver(hs, calls);
    var n := FirstFailing(hs, calls, 0);
    DeliveryStopsAtFirstFailure(hs, calls, 0);
    if n < |f| { NakUsesOneFailure(f, calls, after, n, 0); }
  }

  /** The broker redelivers until the message is acknowledged: how many deliveries that takes, and
      how often each handler has then been called. */
  ghost function Redeliver(f: seq<nat>, calls: seq<nat>): (nat, seq<nat>)
    requires |f| == |calls|
    decreases LeftFrom(f, calls, 0)
  {
    var (after, acked) := Deliver(FailingFirst(f), calls);
    DeliverOutcome(f, calls);
    if acked then (1, after)
    else
      var (deliveries, final) := Redeliver(f, after);
      (1 + deliveries, final)
  }

  lemma {:induction false} NothingLeft(f: seq<nat>, calls: seq<nat>, i: nat)
    requires i <= |f| == |calls| && forall k :: 0 <= k < |f| ==> calls[k] >= f[k]
    ensures LeftFrom(f, calls, i) == 0
    decreases |f| - i
  {
    if i < |f| { NothingLeft(f, calls, i + 1); }
  }

  lemma {:induction false} RedeliveryFrom(f: seq<nat>, calls: seq<nat>)
    requires |f| == |calls|
    ensures var (deliveries, final) := Redeliver(f, calls);
      && deliveries == 1 + LeftFrom(f, calls, 0)
      && |final| == |f|
      && forall i :: 0 <= i < |f| ==> final[i] == calls[i] + 1 + LeftFrom(f, calls, i)
    decreases LeftFrom(f, calls, 0)
  {
    var hs := FailingFirst(f);
    var (after, acked) := Deliver(hs, calls);
    var n := FirstFailing(hs, calls, 0);
    DeliverOutcome(f, calls);
    if acked {
      forall i | 0 <= i <= |f| ensures LeftFrom(f, calls, i) == 0 {
        NothingLeft(f, calls, i);
      }
    } else {
      RedeliveryFrom(f, after);
      NakUsesOneFailure(f, calls, after, n, 0);
      forall i | 0 <= i < |f|
        ensures Redeliver(f, calls).1[i] == calls[i] + 1 + LeftFrom(f, calls, i)
      {
        NakUsesOneFailure(f, calls, after, n, i);
      }
    }
  }

  function SumFrom(f: seq<nat>, i: nat): nat
    requires i <= |f|
    decreases |f| - i
  {
    if i == |f| then 0 else f[i] + SumFrom(f, i + 1)
  }

  lemma {:induction false} AllLeftAtFirst(f: seq<nat>, i: nat)
    requires i <= |f|
    ensures LeftFrom(f, seq(|f|, _ => 0), i) == SumFrom(f, i)
    decreases |f| - i
  {
    if i < |f| { AllLeftAtFirst(f, i + 1); }
  }

  /** Redelivery count.  With handlers that fail their first f[i] calls, a message is acknowledged
      after exactly one delivery more than there are failures in all, and handler i has then run once
      more than the failures of itself and the handlers after it. */
  lemma RedeliveryCount(f: seq<nat>)
    ensures var (deliveries, final) := Redeliver(f, seq(|f|, _ => 0));
      && deliveries == 1 + SumFrom(f, 0)
      && |final| == |f|
      && forall i :: 0 <= i < |f| ==> final[i] == 1 + SumFrom(f, i)
  {
    RedeliveryFrom(f, seq(|f|, _ => 0));
    forall i | 0 <= i <= |f| ensures LeftFrom(f, seq(|f|, _ => 0), i) == SumFrom(f, i) {
      AllLeftAtFirst(f, i);
    }
  }

  // ---- the bus ----

  /** What the callback did with one message. */
  datatype Delivery = Delivery(calls: seq<nat>, acks: nat, naks: nat)

  /** The handler lists by event type, and the event types subscribed at the broker. */
  datatype Bus = Bus(handlers: map<string, seq<Handler>>, subscriptions: seq<string>)

  function HandlersIn(handlers: map<string, seq<Handler>>, eventType: string): seq<Handler> {
    if eventType in handlers then handlers[eventType] else []
  }

  /** accepted is the broker's answer if it is asked; the error of a refusal is dropped. */
  function SubscribeStep(b: Bus, eventType: string, handler: Handler, accepted: bool): Bus {
    var known := HandlersIn(b.handlers, eventType);
    Bus(b.handlers[eventType := known + [handler]],
        if |known| == 0 && accepted then b.subscriptions + [eventType] else b.subscriptions)
  }

  class NATSEventBus {
    var handlers: map<string, seq<Handler>>
    var subscriptions: seq<string>    // event types subscribed at the broker

    constructor ()
      ensures handlers == map[] && subscriptions == []
    {
      handlers, subscriptions := map[], [];
    }

    function Snapshot(): Bus
      reads this
    {
      Bus(handlers, subscriptions)
    }

    function HandlersOf(eventType: string): seq<Handler>
      reads this
    {
      HandlersIn(handlers, eventType)
    }

    /** The whole method runs under the write lock, so a callback started by the new subscription
        waits until the handler is in the list. */
    method Subscribe(eventType: string, handler: Handler, accepted: bool)
      modifies this
      ensures Snapshot() == SubscribeStep(old(Snapshot()), eventType, handler, accepted)
    {
      if |HandlersOf(eventType)| == 0 {
        StartSubscription(eventType, accepted);
      }
      handlers := handlers[eventType := HandlersOf(eventType) + [handler]];
    }

    method StartSubscription(eventType: string, accepted: bool)
      modifies this`subscriptions
      ensures subscriptions == if accepted then old(subscriptions) + [eventType] else old(subscriptions)
    {
      if accepted {
        subscriptions := subscriptions + [eventType];
      }
    }

    /** The subscription callback.  calls[i] is how often handler i has been called before. */
    method Callback(eventType: string, registered: bool, decodes: bool, calls: seq<nat>) returns (d: Delivery)
      requires |calls| == |HandlersOf(eventType)|
      ensures d.acks + d.naks == 1
      ensures !(registered && decodes) ==> d == Delivery(calls, 1, 0)
      ensures registered && decodes ==> (d.calls, d.acks == 1) == Deliver(HandlersOf(eventType), calls)
    {
      if !registered { return Delivery(calls, 1, 0); }
      if !decodes { return Delivery(calls, 1, 0); }
      var snapshot := HandlersOf(eventType);
      var made := calls;
      for i := 0 to |snapshot|
        invariant |made| == |snapshot|
        invariant Deliver(snapshot, calls) == DeliverFrom(snapshot, made, i)
      {
        var failed := snapshot[i](made[i]);
        made := made[i := made[i] + 1];
        if failed { return Delivery(made, 0, 1); }
      }
      d := Delivery(made, 1, 0);
    }
  }

  /** One call of Subscribe, with what the broker answers if it is asked. */
  datatype Subscription = Subscription(eventType: string, handler: Handler, accepted: bool)

  function SubscribeAll(run: seq<Subscription>): Bus {
    if run == [] then Bus(map[], [])
    else
      var s := run[|run| - 1];
      SubscribeStep(SubscribeAll(run[..|run| - 1]), s.eventType, s.handler, s.accepted)
  }

  /** The subscriptions asked for one event type, in order. */
  function AskedFor(run: seq<Subscription>, t: string): seq<Subscription> {
    if run == [] then []
    else AskedFor(run[..|run| - 1], t) + if run[|run| - 1].eventType == t then [run[|run| - 1]] else []
  }

  function HandlersGiven(asked: seq<Subscription>): (hs: seq<Handler>)
    ensures |hs| == |asked|
  {
    seq(|asked|, i requires 0 <= i < |asked| => asked[i].handler)
  }

  /** After any run of Subscribe calls an event type has the handlers given for it, in order.  It has
      one broker subscription if the broker accepted the first one asked for, so no message comes twice;
      otherwise it has none, and no later call asks again. */
  lemma {:induction false} OneSubscriptionPerType(run: seq<Subscription>, t: string)
    ensures var b, asked := SubscribeAll(run), AskedFor(run, t);
      && HandlersIn(b.handlers, t) == HandlersGiven(asked)
      && multiset(b.subscriptions)[t] == if asked != [] && asked[0].accepted then 1 else 0
  {
    if run != [] {
      var before, s := run[..|run| - 1], run[|run| - 1];
      OneSubscriptionPerType(before, t);
      HandlersGivenAppend(AskedFor(before, t), s);
      var subscriptions := SubscribeAll(before).subscriptions;
      assert multiset(subscriptions + [s.eventType]) == multiset(subscriptions) + multiset{s.eventType};
    } else {
      assert HandlersGiven([]) == [];
    }
  }

  lemma HandlersGivenAppend(asked: seq<Subscription>, s: Subscription)
    ensures HandlersGiven(asked + [s]) == HandlersGiven(asked) + [s.handler]
    ensures (asked + [s])[0] == if asked == [] then s else asked[0]
  {
  }
}
