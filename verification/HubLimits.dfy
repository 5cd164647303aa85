/**
 Exactly when two expectations hold that the interleaving can break: the subscription limit as a
 cap, and every indexed socket being registered. Where both hold, the index fits the counter table.
 */
module HubLimits {
  import opened Sets
  import opened Sums
  import opened RealtimeHub
  import opened HubAdmission
  import opened HubIndex
  import opened HubDelivery
  import opened HubRuns
  import opened RealtimeCursor

  // ----- the subscription limit -----

  function SubscriptionsOf(h: Hub, k: Socket): set<Space>
  {
    if k in h.states then h.states[k].subscriptions else {}
  }

  function Waiting(handlers: multiset<Handler>, k: Socket): set<Space>
  {
    set handler | handler in handlers && handler.socket == k :: handler.space
  }

  /** The spaces a socket has, or will have once its subscribe handlers resume. */
  function Claims(h: Hub, k: Socket): set<Space>
  {
    SubscriptionsOf(h, k) + Waiting(h.subscribing, k)
  }

  lemma OneMoreWaits(handlers: multiset<Handler>, socket: Socket, space: Space, k: Socket)
    ensures Waiting(handlers + multiset{Handler(socket, space)}, k)
            == if k == socket then Waiting(handlers, k) + {space} else Waiting(handlers, k)
  {
    assert Handler(socket, space) in handlers + multiset{Handler(socket, space)};
  }

  /** The check of a subscribe message lets the handler go on. */
  predicate Passes(limits: Limits, h: Hub, e: Event)
    requires e.BeginSubscribe? && e.socket in h.states
  {
    !h.draining && (e.space in SubscriptionsOf(h, e.socket) || |SubscriptionsOf(h, e.socket)| < limits.maxSubscriptions)
  }

  /** A check that counted the waiting handlers as well would pass. */
  ghost predicate Guarded(limits: Limits, h: Hub, e: Event)
    requires Legal(h, e)
  {
    e.BeginSubscribe? && Passes(limits, h, e) ==> |Claims(h, e.socket) + {e.space}| <= limits.maxSubscriptions
  }

  ghost predicate WithinClaims(limits: Limits, h: Hub)
  {
    forall k :: |Claims(h, k)| <= limits.maxSubscriptions
  }

  ghost predicate WithinLimit(limits: Limits, h: Hub)
  {
    forall k :: |SubscriptionsOf(h, k)| <= limits.maxSubscriptions
  }

  /** Only handlers that began earlier go on. */
  predicate OnlyResumes(events: seq<Event>)
  {
    forall i :: 0 <= i < |events| ==> events[i].Subscribe?
  }

  /** However the waiting handlers resume, no socket exceeds the limit. */
  ghost predicate LimitHolds(limits: Limits, h: Hub)
  {
    forall events :: Runs(limits, h, events) && OnlyResumes(events) ==> WithinLimit(limits, After(limits, h, events))
  }

  lemma SubscribeClaims(h: Hub, socket: Socket, space: Space, k: Socket)
    requires socket in h.states && Handler(socket, space) in h.subscribing
    ensures Claims(SubscribeStep(Done(h, socket, space), socket, space), k) <= Claims(h, k)
  {
    hide SubscribersOf;
  }

  lemma RemovalClaims(h: Hub, socket: Socket, space: Space, k: Socket)
    requires socket in h.states
    ensures Claims(UnsubscribeStep(h, socket, space), k) <= Claims(h, k)
    ensures Claims(CleanupStep(h, socket), k) <= Claims(h, k)
  {
    hide WithoutSubscriber;
  }

  lemma BeginClaims(limits: Limits, h: Hub, e: Event, k: Socket)
    requires e.BeginSubscribe? && e.socket in h.states
    ensures Claims(BeginStep(limits, h, e.socket, e.space), k)
            == if k == e.socket && Passes(limits, h, e) then Claims(h, k) + {e.space} else Claims(h, k)
  {
    hide Waiting;
    OneMoreWaits(h.subscribing, e.socket, e.space, k);
  }

  lemma ConnectClaims(h: Hub, request: Request, socket: Socket, k: Socket)
    requires socket !in h.states
    ensures Claims(ConnectStep(h, request, socket), k) <= Claims(h, k)
  {
  }

  lemma TrafficClaims(limits: Limits, h: Hub, e: Event, k: Socket)
    requires Owned(h) && Legal(h, e) && IsTraffic(e)
    ensures Claims(Step(limits, h, e), k) == Claims(h, k)
  {
    TrafficKeepsSockets(limits, h, e);
    TrafficKeepsHandlers(limits, h, e);
  }

  lemma TrafficKeepsHandlers(limits: Limits, h: Hub, e: Event)
    requires Legal(h, e) && IsTraffic(e)
    ensures Step(limits, h, e).subscribing == h.subscribing
  {
    hide Fresh, Advance, Targets, Window, CounterOf, Accepts;
  }

  /** A step adds at most the space of a handler that begins. */
  lemma StepClaims(limits: Limits, h: Hub, e: Event, k: Socket)
    requires Owned(h) && Legal(h, e)
    ensures Claims(Step(limits, h, e), k)
            <= if e.BeginSubscribe? && k == e.socket && Passes(limits, h, e) then Claims(h, k) + {e.space} else Claims(h, k)
  {
    hide Claims, DeliverStep, SendStep, SettleStep, RememberStep, AdmitStep, ConnectStep, SubscribeStep, UnsubscribeStep, CleanupStep, BeginStep, Done;
    if IsTraffic(e) {
      TrafficClaims(limits, h, e, k);
    } else if e.Connect? {
      ConnectClaims(h, e.request, e.socket, k);
    } else if e.BeginSubscribe? {
      BeginClaims(limits, h, e, k);
    } else if e.Subscribe? {
      SubscribeClaims(h, e.socket, e.space, k);
    } else if e.Unsubscribe? {
      RemovalClaims(h, e.socket, e.space, k);
    } else if e.Cleanup? {
      RemovalClaims(h, e.socket, "", k);
    } else {
      QuietClaims(limits, h, e, k);
    }
  }

  lemma QuietClaims(limits: Limits, h: Hub, e: Event, k: Socket)
    requires Legal(h, e) && (e.Admit? || e.Expire? || e.AbandonSubscribe? || e.Drain? || e.Finish?)
    ensures Claims(Step(limits, h, e), k) <= Claims(h, k)
  {
    hide HasCapacity;
  }

  /** Where every handler that begins is counted, the claims stay within the limit. */
  lemma GuardedStep(limits: Limits, h: Hub, e: Event)
    requires Owned(h) && Legal(h, e) && WithinClaims(limits, h) && Guarded(limits, h, e)
    ensures WithinClaims(limits, Step(limits, h, e))
  {
    hide Step, Claims, Owned;
    forall k ensures |Claims(Step(limits, h, e), k)| <= limits.maxSubscriptions {
      StepClaims(limits, h, e, k);
      if e.BeginSubscribe? && k == e.socket && Passes(limits, h, e) {
        Smaller(Claims(Step(limits, h, e), k), Claims(h, k) + {e.space});
      } else {
        Smaller(Claims(Step(limits, h, e), k), Claims(h, k));
      }
    }
  }

  /** A begin that does not fit leaves claims beyond the limit. */
  lemma UnguardedStep(limits: Limits, h: Hub, e: Event)
    requires Legal(h, e) && !Guarded(limits, h, e)
    ensures e.BeginSubscribe? && |Claims(Step(limits, h, e), e.socket)| > limits.maxSubscriptions
  {
    BeginClaims(limits, h, e, e.socket);
  }

  // ----- handlers resuming -----

  /** Resuming the handlers of one socket one after the other turns its claims into subscriptions. */
  lemma {:induction false} ClaimsCanResume(limits: Limits, h: Hub, k: Socket) returns (events: seq<Event>)
    requires k in h.states
    ensures Runs(limits, h, events) && OnlyResumes(events)
    ensures SubscriptionsOf(After(limits, h, events), k) == Claims(h, k)
    decreases |h.subscribing|
  {
    hide Step;
    if space: Space :| Handler(k, space) in h.subscribing {
      var e := Event.Subscribe(k, space);
      var h' := Step(limits, h, e);
      ResumedClaims(limits, h, k, space);
      var rest := ClaimsCanResume(limits, h', k);
      events := [e] + rest;
      assert events[1..] == rest;
    } else {
      events := [];
      assert forall handler :: handler in h.subscribing && handler.socket == k ==> handler == Handler(k, handler.space);
      assert Waiting(h.subscribing, k) == {};
    }
  }

  lemma ResumedClaims(limits: Limits, h: Hub, k: Socket, space: Space)
    requires k in h.states && Handler(k, space) in h.subscribing
    ensures var h' := Step(limits, h, Event.Subscribe(k, space));
            k in h'.states && |h'.subscribing| < |h.subscribing| && Claims(h', k) == Claims(h, k)
  {
    hide SubscribersOf;
    var h' := SubscribeStep(Done(h, k, space), k, space);
    assert h'.subscribing == h.subscribing - multiset{Handler(k, space)};
    assert h.subscribing == h'.subscribing + multiset{Handler(k, space)};
    forall s | s in Claims(h, k) ensures s in Claims(h', k) {
      if s !in SubscriptionsOf(h, k) && s != space {
        assert Handler(k, s) in h'.subscribing;
      }
    }
    SubscribeClaims(h, k, space, k);
  }

  lemma {:induction false} ResumesKeepClaims(limits: Limits, h: Hub, events: seq<Event>)
    requires Owned(h) && WithinClaims(limits, h) && Runs(limits, h, events) && OnlyResumes(events)
    ensures WithinClaims(limits, After(limits, h, events))
    decreases |events|
  {
    hide Step, WithinClaims, Owned;
    if events != [] {
      GuardedStep(limits, h, events[0]);
      OwnedStep(limits, h, events[0]);
      ResumesKeepClaims(limits, Step(limits, h, events[0]), events[1..]);
    }
  }

  lemma ClaimsCoverSubscriptions(limits: Limits, h: Hub)
    requires WithinClaims(limits, h)
    ensures WithinLimit(limits, h)
  {
    forall k ensures |SubscriptionsOf(h, k)| <= limits.maxSubscriptions {
      Smaller(SubscriptionsOf(h, k), Claims(h, k));
    }
  }

  /** Handlers exist only for sockets with a state. */
  ghost predicate HandlersHaveSockets(h: Hub)
  {
    forall handler :: handler in h.subscribing ==> handler.socket in h.states
  }

  lemma HandlersStep(limits: Limits, h: Hub, e: Event)
    requires Owned(h) && HandlersHaveSockets(h) && Legal(h, e)
    ensures HandlersHaveSockets(Step(limits, h, e))
  {
    hide Step;
    StatesStay(limits, h, e);
    if IsTraffic(e) { TrafficKeepsHandlers(limits, h, e); } else { NewHandlers(limits, h, e); }
  }

  lemma StatesStay(limits: Limits, h: Hub, e: Event)
    requires Owned(h) && Legal(h, e)
    ensures h.states.Keys <= Step(limits, h, e).states.Keys
  {
    if e.Admit? || e.Connect? {
      hide HasCapacity;
    } else {
      hide Step;
      NewcomersNeedConnect(limits, h, e);
    }
  }

  lemma NewHandlers(limits: Limits, h: Hub, e: Event)
    requires Legal(h, e) && !IsTraffic(e)
    ensures forall handler :: handler in Step(limits, h, e).subscribing ==>
              handler in h.subscribing || (e.BeginSubscribe? && handler.socket == e.socket)
  {
    hide HasCapacity, WithoutSubscriber, SubscribersOf, DeliverStep, SendStep, SettleStep, RememberStep;
  }

  /** The limit holds for all waiting handlers exactly when no socket claims more. */
  lemma ClaimsDecide(limits: Limits, h: Hub)
    requires Owned(h) && HandlersHaveSockets(h)
    ensures LimitHolds(limits, h) <==> WithinClaims(limits, h)
  {
    hide Owned, Runs, After, WithinLimit;
    if WithinClaims(limits, h) {
      forall events | Runs(limits, h, events) && OnlyResumes(events) ensures WithinLimit(limits, After(limits, h, events)) {
        ResumesKeepClaims(limits, h, events);
        ClaimsCoverSubscriptions(limits, After(limits, h, events));
      }
    } else {
      var k :| |Claims(h, k)| > limits.maxSubscriptions;
      assert k in h.states by { ClaimantsHaveStates(h, k); }
      var events := ClaimsCanResume(limits, h, k);
      assert !WithinLimit(limits, After(limits, h, events)) by { ExceedsLimit(limits, After(limits, h, events), k); }
    }
  }

  lemma ClaimantsHaveStates(h: Hub, k: Socket)
    requires HandlersHaveSockets(h) && |Claims(h, k)| > 0
    ensures k in h.states
  {
    assert k !in h.states ==> Claims(h, k) == {};
  }

  lemma ExceedsLimit(limits: Limits, h: Hub, k: Socket)
    requires |SubscriptionsOf(h, k)| > limits.maxSubscriptions
    ensures !WithinLimit(limits, h)
  {
  }

  // ----- whole runs -----

  /** Every subscribe message of the run is checked against the claims. */
  ghost predicate AllGuarded(limits: Limits, h: Hub, events: seq<Event>)
    requires Runs(limits, h, events)
    decreases |events|
  {
    events != [] ==> Guarded(limits, h, events[0]) && AllGuarded(limits, Step(limits, h, events[0]), events[1..])
  }

  /** In every state of the run the limit holds, however the handlers waiting there resume. */
  ghost predicate LimitAlwaysHolds(limits: Limits, h: Hub, events: seq<Event>)
    requires Runs(limits, h, events)
    decreases |events|
  {
    LimitHolds(limits, h) && (events != [] ==> LimitAlwaysHolds(limits, Step(limits, h, events[0]), events[1..]))
  }

  lemma {:induction false} LimitFrom(limits: Limits, h: Hub, events: seq<Event>)
    requires Owned(h) && HandlersHaveSockets(h) && WithinClaims(limits, h) && Runs(limits, h, events)
    ensures LimitAlwaysHolds(limits, h, events) <==> AllGuarded(limits, h, events)
    decreases |events|
  {
    hide Owned, HandlersHaveSockets, Step, LimitHolds, Guarded, WithinClaims;
    ClaimsDecide(limits, h);
    if events != [] {
      var e, h' := events[0], Step(limits, h, events[0]);
      OwnedStep(limits, h, e);
      HandlersStep(limits, h, e);
      ClaimsDecide(limits, h');
      if Guarded(limits, h, e) {
        GuardedStep(limits, h, e);
        LimitFrom(limits, h', events[1..]);
      } else {
        UnguardedStep(limits, h, e);
        assert !WithinClaims(limits, h') by { BeyondClaims(limits, h', e.socket); }
      }
    }
  }

  lemma BeyondClaims(limits: Limits, h: Hub, k: Socket)
    requires |Claims(h, k)| > limits.maxSubscriptions
    ensures !WithinClaims(limits, h)
  {
  }

  /**
   `maxSubscriptions` is a cap in a run and whatever its handlers still do exactly when each
   subscribe message that passed would also have passed with the waiting handlers counted.
   */
  lemma SubscriptionLimitIsExact(limits: Limits, events: seq<Event>)
    requires Runs(limits, EMPTY, events)
    ensures LimitAlwaysHolds(limits, EMPTY, events) <==> AllGuarded(limits, EMPTY, events)
  {
    assert forall k :: Claims(EMPTY, k) == {};
    LimitFrom(limits, EMPTY, events);
  }

  // ----- registered sockets -----

  ghost predicate IndexedAreRegistered(h: Hub)
  {
    forall space :: SubscribersOf(h, space) <= h.connections
  }

  /** A subscribe handler that resumes after its socket was cleaned up. */
  predicate IsLate(h: Hub, e: Event) { e.Subscribe? && e.socket !in h.connections }

  lemma TrafficKeepsRegistered(limits: Limits, h: Hub, e: Event)
    requires Owned(h) && Legal(h, e) && IsTraffic(e) && IndexedAreRegistered(h)
    ensures IndexedAreRegistered(Step(limits, h, e))
  {
    hide Step;
    TrafficKeepsSockets(limits, h, e);
    assert forall space :: SubscribersOf(Step(limits, h, e), space) == SubscribersOf(h, space);
  }

  lemma SubscribeRegisters(h: Hub, socket: Socket, space: Space)
    requires Indexed(h) && socket in h.states && IndexedAreRegistered(h)
    ensures IndexedAreRegistered(SubscribeStep(Done(h, socket, space), socket, space)) <==> socket in h.connections
  {
    hide Indexed;
    var h' := SubscribeStep(Done(h, socket, space), socket, space);
    assert space in h.states[socket].subscriptions ==> socket in SubscribersOf(h, space) by { IndexMirrors(h, socket, space); }
    assert socket in SubscribersOf(h', space);
    forall other ensures SubscribersOf(h', other) <= SubscribersOf(h, other) + {socket} {
    }
  }

  lemma IndexMirrors(h: Hub, k: Socket, space: Space)
    requires Indexed(h)
    ensures k in SubscribersOf(h, space) <==> k in h.states && space in h.states[k].subscriptions
  {
    assert Mirrors(h, k, space);
  }

  lemma RemovalRegisters(h: Hub, socket: Socket, space: Space)
    requires Indexed(h) && socket in h.states && IndexedAreRegistered(h)
    ensures IndexedAreRegistered(UnsubscribeStep(h, socket, space)) && IndexedAreRegistered(CleanupStep(h, socket))
  {
    hide Indexed;
    forall other ensures SubscribersOf(UnsubscribeStep(h, socket, space), other) <= SubscribersOf(h, other) {
    }
    forall other ensures SubscribersOf(CleanupStep(h, socket), other) <= CleanupStep(h, socket).connections {
      IndexMirrors(h, socket, other);
    }
  }

  lemma ConnectRegisters(h: Hub, request: Request, socket: Socket)
    requires IndexedAreRegistered(h)
    ensures IndexedAreRegistered(ConnectStep(h, request, socket))
  {
    assert forall space :: SubscribersOf(ConnectStep(h, request, socket), space) == SubscribersOf(h, space);
  }

  lemma IndexingRegisters(limits: Limits, h: Hub, e: Event)
    requires Indexed(h) && IndexedAreRegistered(h) && Legal(h, e) && IsIndexing(e)
    ensures IndexedAreRegistered(Step(limits, h, e)) <==> !IsLate(h, e)
  {
    hide AdmitStep, BeginStep, DeliverStep, SendStep, SettleStep, RememberStep;
    hide ConnectStep, SubscribeStep, UnsubscribeStep, CleanupStep, Indexed, IndexedAreRegistered;
    match e {
      case Connect(request, socket) => ConnectRegisters(h, request, socket);
      case Subscribe(socket, space) => SubscribeRegisters(h, socket, space);
      case Unsubscribe(socket, space) => RemovalRegisters(h, socket, space);
      case Cleanup(socket) => RemovalRegisters(h, socket, "");
    }
  }

  /** One event keeps indexed sockets registered exactly when it is no late handler. */
  lemma RegisteredStep(limits: Limits, h: Hub, e: Event)
    requires Owned(h) && Indexed(h) && IndexedAreRegistered(h) && Legal(h, e) && !e.Finish?
    ensures IndexedAreRegistered(Step(limits, h, e)) <==> !IsLate(h, e)
  {
    hide Step, Indexed, Owned, Legal;
    if IsTraffic(e) {
      TrafficKeepsRegistered(limits, h, e);
    } else if IsIndexing(e) {
      IndexingRegisters(limits, h, e);
    } else {
      assert IsWaiting(e);
      WaitingKeepsSubscriptions(limits, h, e);
      assert forall space :: SubscribersOf(Step(limits, h, e), space) == SubscribersOf(h, space);
    }
  }

  ghost predicate NoneIsLate(limits: Limits, h: Hub, events: seq<Event>)
    requires Runs(limits, h, events)
    decreases |events|
  {
    events != [] ==> !IsLate(h, events[0]) && NoneIsLate(limits, Step(limits, h, events[0]), events[1..])
  }

  ghost predicate AlwaysRegistered(limits: Limits, h: Hub, events: seq<Event>)
    requires Runs(limits, h, events)
    decreases |events|
  {
    IndexedAreRegistered(h) && (events != [] ==> AlwaysRegistered(limits, Step(limits, h, events[0]), events[1..]))
  }

  lemma {:induction false} RegisteredFrom(limits: Limits, h: Hub, events: seq<Event>)
    requires Owned(h) && Indexed(h) && IndexedAreRegistered(h) && Runs(limits, h, events)
    requires forall i :: 0 <= i < |events| ==> !events[i].Finish?
    ensures AlwaysRegistered(limits, h, events) <==> NoneIsLate(limits, h, events)
    decreases |events|
  {
    hide Owned, Indexed, Step, IndexedAreRegistered;
    if events != [] {
      var e := events[0];
      RegisteredStep(limits, h, e);
      if !IsLate(h, e) {
        OwnedStep(limits, h, e);
        IndexStep(limits, h, e);
        RegisteredFrom(limits, Step(limits, h, e), events[1..]);
      }
    }
  }

  /** Before `close`, every indexed socket is registered throughout a run exactly when no subscribe handler resumes after `cleanup`. */
  lemma RegistrationIsExact(limits: Limits, events: seq<Event>)
    requires Runs(limits, EMPTY, events) && forall i :: 0 <= i < |events| ==> !events[i].Finish?
    ensures AlwaysRegistered(limits, EMPTY, events) <==> NoneIsLate(limits, EMPTY, events)
  {
    StartsIndexed();
    StartsWithinCapacity(limits);
    RegisteredFrom(limits, EMPTY, events);
  }

  // ----- the index fits the counter table -----

  /** Spaces that are spread over some sockets with at most `each` of them at every socket. */
  lemma {:induction false} SpreadOver(h: Hub, sockets: set<Socket>, spaces: set<Space>, each: nat)
    requires forall space :: space in spaces ==> exists k :: k in sockets && space in SubscriptionsOf(h, k)
    requires forall k :: k in sockets ==> |SubscriptionsOf(h, k)| <= each
    ensures |spaces| <= |sockets| * each
    decreases |sockets|
  {
    hide SubscriptionsOf;
    if sockets == {} {
      assert forall space :: space !in spaces;
      assert spaces == {};
    } else {
      var k :| k in sockets;
      var rest, others := sockets - {k}, spaces - SubscriptionsOf(h, k);
      SpreadOver(h, rest, others, each);
      Smaller(spaces, others + SubscriptionsOf(h, k));
      assert |others + SubscriptionsOf(h, k)| <= |others| + |SubscriptionsOf(h, k)|;
      assert |sockets| * each == |rest| * each + each by { OneMore(|rest|, each); }
    }
  }

  /** What a run keeps in which every message is guarded and no handler is late. */
  ghost predicate IsDisciplined(limits: Limits, h: Hub)
  {
    Owned(h) && Indexed(h) && IndexedAreRegistered(h) && WithinClaims(limits, h) && WithinCapacity(limits, h)
  }

  lemma DisciplinedStep(limits: Limits, h: Hub, e: Event)
    requires IsDisciplined(limits, h) && Legal(h, e) && Guarded(limits, h, e) && !IsLate(h, e) && !e.Finish?
    ensures IsDisciplined(limits, Step(limits, h, e))
  {
    hide Owned, Indexed, IndexedAreRegistered, WithinClaims, WithinCapacity, Guarded, IsLate, Step;
    OwnedStep(limits, h, e);
    IndexStep(limits, h, e);
    RegisteredStep(limits, h, e);
    GuardedStep(limits, h, e);
    CapacityStep(limits, h, e);
  }

  lemma {:induction false} DisciplinedRun(limits: Limits, h: Hub, events: seq<Event>)
    requires IsDisciplined(limits, h) && Runs(limits, h, events)
    requires AllGuarded(limits, h, events) && NoneIsLate(limits, h, events)
    requires forall i :: 0 <= i < |events| ==> !events[i].Finish?
    ensures IsDisciplined(limits, After(limits, h, events))
    decreases |events|
  {
    hide IsDisciplined, Step, Guarded, IsLate;
    if events != [] {
      DisciplinedStep(limits, h, events[0]);
      DisciplinedRun(limits, Step(limits, h, events[0]), events[1..]);
    }
  }

  /** Every indexed space lies within the subscriptions of a registered socket. */
  lemma IndexFits(limits: Limits, h: Hub)
    requires IsDisciplined(limits, h) && limits.maxConnections * limits.maxSubscriptions <= 100_000
    ensures |h.subscribersBySpace| <= MaxSequenceStates(limits)
  {
    hide Indexed, Claims, SubscriptionsOf, WithinClaims;
    ClaimsCoverSubscriptions(limits, h);
    forall space | space in h.subscribersBySpace.Keys
      ensures exists k :: k in h.connections && space in SubscriptionsOf(h, k)
    {
      var k := SomeSubscriber(h, space);
      assert k in h.connections && space in SubscriptionsOf(h, k);
    }
    SpreadOver(h, h.connections, h.subscribersBySpace.Keys, limits.maxSubscriptions);
    assert |h.connections| * limits.maxSubscriptions <= limits.maxConnections * limits.maxSubscriptions by {
      MoreTimes(|h.connections|, limits.maxConnections, limits.maxSubscriptions);
    }
    assert |h.subscribersBySpace.Keys| == |h.subscribersBySpace|;
  }

  lemma MoreTimes(a: nat, b: nat, each: nat)
    requires a <= b
    ensures a * each <= b * each
  {
  }

  lemma SomeSubscriber(h: Hub, space: Space) returns (k: Socket)
    requires Indexed(h) && IndexedAreRegistered(h) && space in h.subscribersBySpace
    ensures k in h.connections && space in SubscriptionsOf(h, k)
  {
    assert h.subscribersBySpace[space] != {};
    k :| k in h.subscribersBySpace[space];
    assert k in SubscribersOf(h, space);
    IndexMirrors(h, k, space);
  }

  /** The space has a subscriber throughout. */
  ghost predicate StaysSubscribed(limits: Limits, h: Hub, events: seq<Event>, space: Space)
    requires Runs(limits, h, events)
    decreases |events|
  {
    && space in h.subscribersBySpace
    && (events != [] ==> StaysSubscribed(limits, Step(limits, h, events[0]), events[1..], space))
  }

  lemma {:induction false} SubscribedIsWatched(limits: Limits, h: Hub, events: seq<Event>, space: Space)
    requires IsDisciplined(limits, h) && limits.maxConnections * limits.maxSubscriptions <= 100_000
    requires Runs(limits, h, events) && AllGuarded(limits, h, events) && NoneIsLate(limits, h, events)
    requires StaysSubscribed(limits, h, events, space)
    ensures Watched(limits, h, events, space)
    decreases |events|
  {
    hide IsDisciplined, Step, Guarded, IsLate, MaxSequenceStates;
    IndexFits(limits, h);
    if events != [] {
      var e, h' := events[0], Step(limits, h, events[0]);
      assert StaysSubscribed(limits, h', events[1..], space);
      assert !e.Finish? by { FinishUnsubscribes(limits, h, e); }
      DisciplinedStep(limits, h, e);
      SubscribedIsWatched(limits, h', events[1..], space);
    }
  }

  lemma FinishUnsubscribes(limits: Limits, h: Hub, e: Event)
    requires Legal(h, e)
    ensures e.Finish? ==> Step(limits, h, e).subscribersBySpace == map[]
  {
  }

  lemma StartsDisciplined(limits: Limits)
    ensures IsDisciplined(limits, EMPTY)
  {
    StartsIndexed();
    StartsWithinCapacity(limits);
    assert forall k :: Claims(EMPTY, k) == {};
  }

  /**
   End to end without a bound on the index: under limits whose product fits the counter table, while
   no message slips past the subscription limit and no handler is late, a client of a space that
   stays subscribed is told of a gap exactly where it missed an event.
   */
  lemma GapsAreDetectedWithinLimits(limits: Limits, before: seq<Event>, events: seq<Event>, space: Space, indices: seq<nat>, k: nat)
    requires limits.maxConnections * limits.maxSubscriptions <= 100_000
    requires Runs(limits, EMPTY, before) && AllGuarded(limits, EMPTY, before) && NoneIsLate(limits, EMPTY, before)
    requires forall i :: 0 <= i < |before| ==> !before[i].Finish?
    requires var h := After(limits, EMPTY, before);
             && Runs(limits, h, events) && AllGuarded(limits, h, events) && NoneIsLate(limits, h, events)
             && StaysSubscribed(limits, h, events, space)
             && (forall i :: 0 <= i < |indices| ==> indices[i] < |Sent(limits, h, events, space)|)
             && Increasing(indices) && DistinctIds(Received(Sent(limits, h, events, space), indices)) && k < |indices|
    ensures var h := After(limits, EMPTY, before);
            var v := Verdicts(FRESH, Received(Sent(limits, h, events, space), indices))[k];
            v.accepted && (v.gap <==> k > 0 && indices[k] != indices[k - 1] + 1)
  {
    hide IsDisciplined, Step, Guarded, IsLate, Runs, After, AllGuarded, NoneIsLate, StaysSubscribed, Watched, Sent, Increasing, DistinctIds, Received, Verdicts;
    var h := After(limits, EMPTY, before);
    StartsDisciplined(limits);
    DisciplinedRun(limits, EMPTY, before);
    SubscribedIsWatched(limits, h, events, space);
    ReachableInvariant(limits, before);
    GapsAreDetected(limits, h, events, space, indices, k);
  }
}
