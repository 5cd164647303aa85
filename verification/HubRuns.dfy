/** What holds in every reachable state of the hub, under every interleaving of its handlers. */
module HubRuns {
  import opened RealtimeHub
  import opened HubAdmission
  import opened HubIndex
  import opened HubAccounting
  import opened HubDelivery

  ghost predicate Invariant(limits: Limits, h: Hub)
  {
    && Owned(h) && WithinCapacity(limits, h) && Accounted(limits, h) && Deduplicated(h) && Counted(limits, h)
    && (!h.closed ==> Indexed(h))
  }

  lemma ClosedStaysClosed(limits: Limits, h: Hub, e: Event)
    requires Legal(h, e)
    ensures Step(limits, h, e).closed <==> h.closed || e.Finish?
  {
    hide HasCapacity, WithoutSubscriber, Fresh, Window, Advance, Targets, CounterOf;
  }

  lemma InvariantStep(limits: Limits, h: Hub, e: Event)
    requires Invariant(limits, h) && Legal(h, e)
    ensures Invariant(limits, Step(limits, h, e))
  {
    hide Step, Owned, WithinCapacity, Accounted, Deduplicated, Counted, Indexed, Legal;
    OwnedStep(limits, h, e);
    CapacityStep(limits, h, e);
    AccountsStep(limits, h, e);
    DeduplicatedStep(limits, h, e);
    CountedStep(limits, h, e);
    ClosedStaysClosed(limits, h, e);
    if !h.closed && !e.Finish? {
      IndexStep(limits, h, e);
    }
  }

  /** From a fresh hub: capacity, byte and message counts, duplicate window, counters and, until closed, the index. */
  lemma {:induction false} InvariantOfRun(limits: Limits, h: Hub, events: seq<Event>)
    requires Runs(limits, h, events) && Invariant(limits, h)
    ensures Invariant(limits, After(limits, h, events))
    decreases |events|
  {
    hide Step, Invariant;
    if events != [] {
      InvariantStep(limits, h, events[0]);
      InvariantOfRun(limits, Step(limits, h, events[0]), events[1..]);
    }
  }

  lemma ReachableInvariant(limits: Limits, events: seq<Event>)
    requires Runs(limits, EMPTY, events)
    ensures Invariant(limits, After(limits, EMPTY, events))
  {
    StartsWithinCapacity(limits);
    StartsIndexed();
    StartsAccounted(limits);
    InvariantOfRun(limits, EMPTY, events);
  }

  // ----- what the interleaving allows -----

  lemma TwoMoreEvents(limits: Limits, h: Hub, a: Event, b: Event, events: seq<Event>)
    requires Legal(h, a) && Legal(Step(limits, h, a), b)
    requires Runs(limits, Step(limits, Step(limits, h, a), b), events)
    ensures Runs(limits, h, [a, b] + events)
    ensures After(limits, h, [a, b] + events) == After(limits, Step(limits, Step(limits, h, a), b), events)
  {
    hide Step;
    var rest := [b] + events;
    assert ([a, b] + events)[1..] == rest && rest[1..] == events;
    assert Runs(limits, Step(limits, h, a), rest);
  }

  /** A hub with one registered socket. */
  function OneSocket(): Hub
  {
    EMPTY.(connections := {0}, states := map[0 := ConnectionState("account", "address", {}, 0, 0)])
  }

  lemma OneSocketIsReachable(limits: Limits)
    requires limits.maxConnections >= 1 && limits.maxConnectionsPerAddress >= 1 && limits.maxConnectionsPerAccount >= 1
    ensures var admitted := Step(limits, EMPTY, Admit(0, "account", "address"));
            Legal(admitted, Connect(0, 0)) && Step(limits, admitted, Connect(0, 0)) == OneSocket()
  {
    assert ConnectedFrom(EMPTY, "address") == {} && PendingFrom(EMPTY, "address") == {};
    assert ConnectedOf(EMPTY, "account") == {} && PendingOf(EMPTY, "account") == {};
    assert AdmitStep(limits, EMPTY, 0, "account", "address").pending - {0} == map[];
  }

  /**
   `maxSubscriptions` is checked before the awaits of a subscribe handler, so it is no cap
   under interleaving: with a limit of one, two handlers that both passed the check leave
   two subscriptions.
   */
  lemma SubscriptionLimitIsNotACap(limits: Limits, first: Space, second: Space)
    requires limits.maxConnections >= 1 && limits.maxConnectionsPerAddress >= 1 && limits.maxConnectionsPerAccount >= 1
    requires limits.maxSubscriptions == 1 && first != second
    ensures exists events :: Runs(limits, EMPTY, events) &&
              var h := After(limits, EMPTY, events); 0 in h.states && |h.states[0].subscriptions| > limits.maxSubscriptions
  {
    hide Step, Runs, After;
    var h2 := BothBegan(limits, first, second);
    var h4 := BothSubscribed(limits, first, second);
    OneSocketIsReachable(limits);
    assert Runs(limits, h4, []) && After(limits, h4, []) == h4 by { NoEvents(limits, h4); }
    TwoMoreEvents(limits, h2, Subscribe(0, first), Subscribe(0, second), []);
    TwoMoreEvents(limits, OneSocket(), BeginSubscribe(0, first), BeginSubscribe(0, second),
                  [Subscribe(0, first), Subscribe(0, second)] + []);
    TwoMoreEvents(limits, EMPTY, Admit(0, "account", "address"), Connect(0, 0),
                  [BeginSubscribe(0, first), BeginSubscribe(0, second)] + ([Subscribe(0, first), Subscribe(0, second)] + []));
  }

  lemma NoEvents(limits: Limits, h: Hub)
    ensures Runs(limits, h, []) && After(limits, h, []) == h
  {
  }

  lemma BothBegan(limits: Limits, first: Space, second: Space) returns (h: Hub)
    requires limits.maxSubscriptions == 1 && first != second
    ensures var h1 := Step(limits, OneSocket(), BeginSubscribe(0, first));
            Legal(h1, BeginSubscribe(0, second)) && h == Step(limits, h1, BeginSubscribe(0, second))
    ensures h == OneSocket().(subscribing := multiset{Handler(0, first), Handler(0, second)})
  {
    var h1 := Step(limits, OneSocket(), BeginSubscribe(0, first));
    assert h1 == OneSocket().(subscribing := multiset{Handler(0, first)});
    h := Step(limits, h1, BeginSubscribe(0, second));
  }

  lemma BothSubscribed(limits: Limits, first: Space, second: Space) returns (h: Hub)
    requires limits.maxSubscriptions == 1 && first != second
    ensures var h2 := OneSocket().(subscribing := multiset{Handler(0, first), Handler(0, second)});
            && Legal(h2, Subscribe(0, first)) && Legal(Step(limits, h2, Subscribe(0, first)), Subscribe(0, second))
            && h == Step(limits, Step(limits, h2, Subscribe(0, first)), Subscribe(0, second))
            && 0 in h.states && |h.states[0].subscriptions| == 2
  {
    var h2 := OneSocket().(subscribing := multiset{Handler(0, first), Handler(0, second)});
    var h3 := Step(limits, h2, Subscribe(0, first));
    h := Step(limits, h3, Subscribe(0, second));
    assert h.states[0].subscriptions == {first, second};
  }

  /** Nor are indexed sockets always registered: a handler can resume after its socket was cleaned up. */
  lemma IndexedSocketMayBeUnregistered(limits: Limits, space: Space)
    requires limits.maxConnections >= 1 && limits.maxConnectionsPerAddress >= 1 && limits.maxConnectionsPerAccount >= 1
    requires limits.maxSubscriptions >= 1
    ensures exists events :: Runs(limits, EMPTY, events) &&
              var h := After(limits, EMPTY, events); 0 in SubscribersOf(h, space) && 0 !in h.connections
  {
    hide Step, Runs, After;
    var h2, h3 := LateSubscribe(limits, space);
    OneSocketIsReachable(limits);
    NoEvents(limits, h3);
    OneMoreEvent(limits, h2, Subscribe(0, space));
    TwoMoreEvents(limits, OneSocket(), BeginSubscribe(0, space), Cleanup(0), [Subscribe(0, space)]);
    TwoMoreEvents(limits, EMPTY, Admit(0, "account", "address"), Connect(0, 0),
                  [BeginSubscribe(0, space), Cleanup(0)] + [Subscribe(0, space)]);
  }

  lemma OneMoreEvent(limits: Limits, h: Hub, e: Event)
    requires Legal(h, e)
    ensures Runs(limits, h, [e]) && After(limits, h, [e]) == Step(limits, h, e)
  {
    assert [e][1..] == [];
    NoEvents(limits, Step(limits, h, e));
  }

  lemma LateSubscribe(limits: Limits, space: Space) returns (h2: Hub, h3: Hub)
    requires limits.maxSubscriptions >= 1
    ensures var h1 := Step(limits, OneSocket(), BeginSubscribe(0, space));
            Legal(h1, Cleanup(0)) && h2 == Step(limits, h1, Cleanup(0))
    ensures Legal(h2, Subscribe(0, space)) && h3 == Step(limits, h2, Subscribe(0, space))
    ensures 0 in SubscribersOf(h3, space) && 0 !in h3.connections
  {
    var h1 := Step(limits, OneSocket(), BeginSubscribe(0, space));
    h2 := Step(limits, h1, Cleanup(0));
    assert Handler(0, space) in h2.subscribing;
    h3 := Step(limits, h2, Subscribe(0, space));
  }
}
