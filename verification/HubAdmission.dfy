/** Capacity: registered and pending sockets never exceed the limits, despite the awaits before each admission. */
module HubAdmission {
  import opened RealtimeHub
  import opened Sets

  /** Every registered socket has its state, and every outstanding send was numbered. */
  ghost predicate Owned(h: Hub)
  {
    && h.connections <= h.states.Keys
    && forall id :: id in h.unsettled ==> id.socket in h.states && id.serial < h.states[id.socket].serial
  }

  lemma EnqueueKeepsOwned(h: Hub, sockets: set<Socket>, bytes: nat)
    requires Owned(h) && sockets <= h.states.Keys
    ensures Owned(Enqueue(h, sockets, bytes)) && SameSockets(h, Enqueue(h, sockets, bytes))
  {
  }

  /** The same sockets with the same identities and subscriptions, the same index. */
  ghost predicate SameSockets(h: Hub, h': Hub)
  {
    && h'.connections == h.connections && h'.pending == h.pending && h'.states.Keys == h.states.Keys
    && h'.subscribersBySpace == h.subscribersBySpace && h'.subscriptionCount == h.subscriptionCount
    && h'.draining == h.draining && h'.closed == h.closed
    && forall k :: k in h.states ==>
         && h'.states[k].address == h.states[k].address && h'.states[k].actorId == h.states[k].actorId
         && h'.states[k].subscriptions == h.states[k].subscriptions
  }

  /** Traffic: what neither admits, registers, subscribes nor removes a socket. */
  predicate IsTraffic(e: Event) { e.Send? || e.Settle? || e.Remember? || e.Deliver? }

  lemma NumberedKeepsSockets(limits: Limits, h: Hub, e: Event)
    requires Owned(h) && e.Deliver?
    ensures Owned(Numbered(limits, h, e)) && SameSockets(h, Numbered(limits, h, e))
    ensures Targets(limits, h, e) <= Numbered(limits, h, e).states.Keys
  {
    hide Advance, Window;
  }

  lemma SettleKeepsSockets(h: Hub, id: SendId)
    requires Owned(h)
    ensures Owned(SettleStep(h, id)) && SameSockets(h, SettleStep(h, id))
  {
  }

  lemma TrafficKeepsSockets(limits: Limits, h: Hub, e: Event)
    requires Owned(h) && Legal(h, e) && IsTraffic(e)
    ensures Owned(Step(limits, h, e)) && SameSockets(h, Step(limits, h, e))
  {
    hide Enqueue, Window, SettleStep, DeliverStep, AdmitStep, ConnectStep, BeginStep, SubscribeStep, UnsubscribeStep, CleanupStep, Accepts;
    match e {
      case Send(socket, bytes, _) => EnqueueKeepsOwned(h, {socket}, bytes);
      case Settle(id) => SettleKeepsSockets(h, id);
      case Remember(_) =>
      case Deliver(_, _, _, _) => DeliverKeepsSockets(limits, h, e);
    }
  }

  lemma DeliverKeepsSockets(limits: Limits, h: Hub, e: Event)
    requires Owned(h) && e.Deliver?
    ensures Owned(DeliverStep(limits, h, e)) && SameSockets(h, DeliverStep(limits, h, e))
  {
    hide Enqueue, Numbered, Targets;
    if e.eventId !in h.seenEvents {
      NumberedKeepsSockets(limits, h, e);
      EnqueueKeepsOwned(Numbered(limits, h, e), Targets(limits, h, e), e.bytes);
    }
  }

  lemma OwnedStep(limits: Limits, h: Hub, e: Event)
    requires Owned(h) && Legal(h, e)
    ensures Owned(Step(limits, h, e))
  {
    hide Step, Owned, SameTraffic;
    if IsTraffic(e) {
      TrafficKeepsSockets(limits, h, e);
    } else if IsControl(e) {
      ControlIsNoTraffic(limits, h, e);
      SameTrafficKeepsOwned(h, Step(limits, h, e));
    } else {
      ArrivalKeepsOwned(limits, h, e);
    }
  }

  lemma SameTrafficKeepsOwned(h: Hub, h': Hub)
    requires Owned(h) && SameTraffic(h, h')
    ensures Owned(h')
  {
  }

  lemma ArrivalKeepsOwned(limits: Limits, h: Hub, e: Event)
    requires Owned(h) && Legal(h, e) && (e.Admit? || e.Connect? || e.Cleanup?)
    ensures Owned(Step(limits, h, e))
  {
    hide WithoutSubscriber, HasCapacity;
  }

  lemma OneMoreAtMost<T>(a: set<T>, b: set<T>, x: T)
    requires a <= b + {x}
    ensures |a| <= |b| + 1
  {
    Smaller(a, b + {x});
    if x in b { assert b + {x} == b; }
  }

  ghost predicate WithinCapacity(limits: Limits, h: Hub)
  {
    && |h.connections| + |h.pending| <= limits.maxConnections
    && (forall address :: |ConnectedFrom(h, address)| + |PendingFrom(h, address)| <= limits.maxConnectionsPerAddress)
    && (forall actorId :: |ConnectedOf(h, actorId)| + |PendingOf(h, actorId)| <= limits.maxConnectionsPerAccount)
  }

  /** Events that admit nobody: fewer sockets, the same identities. */
  ghost predicate NoNewcomer(h: Hub, h': Hub)
  {
    && h'.connections <= h.connections && h.connections <= h.states.Keys <= h'.states.Keys
    && (forall k :: k in h.states ==> h'.states[k].address == h.states[k].address && h'.states[k].actorId == h.states[k].actorId)
    && h'.pending.Keys <= h.pending.Keys
    && (forall r :: r in h'.pending ==> h'.pending[r] == h.pending[r])
  }

  lemma NoNewcomerKeepsCapacity(limits: Limits, h: Hub, h': Hub)
    requires WithinCapacity(limits, h) && NoNewcomer(h, h')
    ensures WithinCapacity(limits, h')
  {
    Smaller(h'.connections, h.connections);
    Smaller(h'.pending.Keys, h.pending.Keys);
    forall address ensures |ConnectedFrom(h', address)| + |PendingFrom(h', address)| <= limits.maxConnectionsPerAddress {
      Smaller(ConnectedFrom(h', address), ConnectedFrom(h, address));
      Smaller(PendingFrom(h', address), PendingFrom(h, address));
    }
    forall actorId ensures |ConnectedOf(h', actorId)| + |PendingOf(h', actorId)| <= limits.maxConnectionsPerAccount {
      Smaller(ConnectedOf(h', actorId), ConnectedOf(h, actorId));
      Smaller(PendingOf(h', actorId), PendingOf(h, actorId));
    }
  }

  /** One more reservation counts once, for its own address and its own account. */
  lemma AdmitsOne(h: Hub, request: Request, actorId: string, address: string, otherActor: string, otherAddress: string)
    ensures var h' := h.(pending := h.pending[request := Pending(actorId, address)]);
            && |h'.pending| <= |h.pending| + 1
            && ConnectedFrom(h', otherAddress) == ConnectedFrom(h, otherAddress)
            && ConnectedOf(h', otherActor) == ConnectedOf(h, otherActor)
            && |PendingFrom(h', otherAddress)| <= |PendingFrom(h, otherAddress)| + (if otherAddress == address then 1 else 0)
            && |PendingOf(h', otherActor)| <= |PendingOf(h, otherActor)| + (if otherActor == actorId then 1 else 0)
  {
    var h' := h.(pending := h.pending[request := Pending(actorId, address)]);
    OneMoreAtMost(h'.pending.Keys, h.pending.Keys, request);
    OneMoreAtMost(PendingFrom(h', otherAddress), PendingFrom(h, otherAddress), request);
    OneMoreAtMost(PendingOf(h', otherActor), PendingOf(h, otherActor), request);
    if otherAddress != address { Smaller(PendingFrom(h', otherAddress), PendingFrom(h, otherAddress)); }
    if otherActor != actorId { Smaller(PendingOf(h', otherActor), PendingOf(h, otherActor)); }
  }

  lemma AdmitKeepsCapacity(limits: Limits, h: Hub, e: Event)
    requires WithinCapacity(limits, h) && e.Admit?
    ensures WithinCapacity(limits, Step(limits, h, e))
  {
    hide ConnectedFrom, ConnectedOf, PendingFrom, PendingOf;
    var h' := Step(limits, h, e);
    if h' != h {
      forall address ensures |ConnectedFrom(h', address)| + |PendingFrom(h', address)| <= limits.maxConnectionsPerAddress {
        AdmitsOne(h, e.request, e.actorId, e.address, e.actorId, address);
      }
      forall actorId ensures |ConnectedOf(h', actorId)| + |PendingOf(h', actorId)| <= limits.maxConnectionsPerAccount {
        AdmitsOne(h, e.request, e.actorId, e.address, actorId, e.address);
      }
      AdmitsOne(h, e.request, e.actorId, e.address, e.actorId, e.address);
    }
  }

  lemma MovesWhen<S, T>(moves: bool, a: set<S>, a': set<S>, x: S, b: set<T>, b': set<T>, y: T)
    requires x !in a && a' == a + (if moves then {x} else {})
    requires (y in b <==> moves) && b' == b - {y}
    ensures |a'| + |b'| == |a| + |b|
  {
    if !moves {
      assert a' == a && b' == b;
    }
  }

  lemma ConnectRegisters(h: Hub, request: Request, socket: Socket, address: string, actorId: string)
    requires Owned(h) && socket !in h.states && request in h.pending
    ensures var h', p := ConnectStep(h, request, socket), h.pending[request];
            && ConnectedFrom(h', address) == ConnectedFrom(h, address) + (if address == p.address then {socket} else {})
            && ConnectedOf(h', actorId) == ConnectedOf(h, actorId) + (if actorId == p.actorId then {socket} else {})
            && socket !in ConnectedFrom(h, address) && socket !in ConnectedOf(h, actorId)
  {
    var h' := ConnectStep(h, request, socket);
    forall k ensures k in ConnectedFrom(h', address) <==>
                     k in ConnectedFrom(h, address) + (if address == h.pending[request].address then {socket} else {}) {
      assert k in h.connections ==> k in h.states && h'.states[k] == h.states[k];
    }
    forall k ensures k in ConnectedOf(h', actorId) <==>
                     k in ConnectedOf(h, actorId) + (if actorId == h.pending[request].actorId then {socket} else {}) {
      assert k in h.connections ==> k in h.states && h'.states[k] == h.states[k];
    }
  }

  lemma ConnectLeavesPending(h: Hub, request: Request, socket: Socket, address: string, actorId: string)
    requires request in h.pending
    ensures var h' := ConnectStep(h, request, socket);
            && PendingFrom(h', address) == PendingFrom(h, address) - {request}
            && PendingOf(h', actorId) == PendingOf(h, actorId) - {request}
            && (request in PendingFrom(h, address) <==> address == h.pending[request].address)
            && (request in PendingOf(h, actorId) <==> actorId == h.pending[request].actorId)
  {
  }

  /** A pending entry becomes a registered socket of the same address and account. */
  lemma ConnectMoves(h: Hub, request: Request, socket: Socket, address: string, actorId: string)
    requires Owned(h) && socket !in h.states && request in h.pending
    ensures var h' := ConnectStep(h, request, socket);
            && |ConnectedFrom(h', address)| + |PendingFrom(h', address)| == |ConnectedFrom(h, address)| + |PendingFrom(h, address)|
            && |ConnectedOf(h', actorId)| + |PendingOf(h', actorId)| == |ConnectedOf(h, actorId)| + |PendingOf(h, actorId)|
  {
    hide ConnectStep, ConnectedFrom, PendingFrom, ConnectedOf, PendingOf, Owned;
    ConnectRegisters(h, request, socket, address, actorId);
    ConnectLeavesPending(h, request, socket, address, actorId);
    var h', p := ConnectStep(h, request, socket), h.pending[request];
    MovesWhen(address == p.address, ConnectedFrom(h, address), ConnectedFrom(h', address), socket,
              PendingFrom(h, address), PendingFrom(h', address), request);
    MovesWhen(actorId == p.actorId, ConnectedOf(h, actorId), ConnectedOf(h', actorId), socket,
              PendingOf(h, actorId), PendingOf(h', actorId), request);
  }

  lemma ConnectKeepsTotal(h: Hub, request: Request, socket: Socket)
    requires Owned(h) && socket !in h.states
    ensures var h' := ConnectStep(h, request, socket);
            |h'.connections| + |h'.pending| == |h.connections| + |h.pending|
  {
    if request in h.pending {
      assert (h.pending - {request}).Keys == h.pending.Keys - {request};
    }
  }

  lemma ConnectKeepsCapacity(limits: Limits, h: Hub, e: Event)
    requires WithinCapacity(limits, h) && Owned(h) && e.Connect? && Legal(h, e)
    ensures WithinCapacity(limits, ConnectStep(h, e.request, e.socket))
  {
    hide ConnectedFrom, PendingFrom, ConnectedOf, PendingOf;
    var h' := ConnectStep(h, e.request, e.socket);
    ConnectKeepsTotal(h, e.request, e.socket);
    if e.request in h.pending {
      forall address ensures |ConnectedFrom(h', address)| + |PendingFrom(h', address)| <= limits.maxConnectionsPerAddress {
        ConnectMoves(h, e.request, e.socket, address, "");
      }
      forall actorId ensures |ConnectedOf(h', actorId)| + |PendingOf(h', actorId)| <= limits.maxConnectionsPerAccount {
        ConnectMoves(h, e.request, e.socket, "", actorId);
      }
    }
  }

  lemma CapacityStep(limits: Limits, h: Hub, e: Event)
    requires WithinCapacity(limits, h) && Owned(h) && Legal(h, e)
    ensures WithinCapacity(limits, Step(limits, h, e))
  {
    if e.Admit? {
      AdmitKeepsCapacity(limits, h, e);
    } else if e.Connect? {
      ConnectKeepsCapacity(limits, h, e);
    } else {
      NewcomersNeedConnect(limits, h, e);
      NoNewcomerKeepsCapacity(limits, h, Step(limits, h, e));
    }
  }

  /** The same sockets and bytes, at most fewer of them registered. */
  ghost predicate SameTraffic(h: Hub, h': Hub)
  {
    && h'.connections <= h.connections && h'.states.Keys == h.states.Keys
    && h'.unsettled == h.unsettled && h'.queuedMessages == h.queuedMessages
    && h'.queuedBytes == h.queuedBytes && h'.outboundQueueBytes == h.outboundQueueBytes
    && forall k :: k in h.states ==>
         && h'.states[k].address == h.states[k].address && h'.states[k].actorId == h.states[k].actorId
         && h'.states[k].outboundBytes == h.states[k].outboundBytes && h'.states[k].serial == h.states[k].serial
  }

  lemma SubscriptionIsNoTraffic(h: Hub, socket: Socket, space: Space)
    requires socket in h.states
    ensures SameTraffic(h, SubscribeStep(Done(h, socket, space), socket, space))
    ensures SubscribeStep(Done(h, socket, space), socket, space).pending == h.pending
  {
    hide SubscribersOf;
  }

  lemma UnsubscriptionIsNoTraffic(h: Hub, socket: Socket, space: Space)
    requires socket in h.states
    ensures SameTraffic(h, UnsubscribeStep(h, socket, space)) && UnsubscribeStep(h, socket, space).pending == h.pending
  {
    hide WithoutSubscriber;
  }

  predicate IsControl(e: Event) { !IsTraffic(e) && !e.Admit? && !e.Connect? && !e.Cleanup? }

  lemma ControlIsNoTraffic(limits: Limits, h: Hub, e: Event)
    requires Legal(h, e) && IsControl(e)
    ensures var h' := Step(limits, h, e);
            SameTraffic(h, h') && h'.pending.Keys <= h.pending.Keys && forall r :: r in h'.pending ==> h'.pending[r] == h.pending[r]
  {
    hide DeliverStep, SendStep, SettleStep, RememberStep, AdmitStep, ConnectStep, CleanupStep;
    hide SubscribeStep, UnsubscribeStep, BeginStep, Done, SameTraffic;
    match e {
      case Subscribe(socket, space) => SubscriptionIsNoTraffic(h, socket, space);
      case Unsubscribe(socket, space) => UnsubscriptionIsNoTraffic(h, socket, space);
      case _ => WaitingIsNoTraffic(limits, h, e);
    }
  }

  lemma WaitingIsNoTraffic(limits: Limits, h: Hub, e: Event)
    requires Legal(h, e) && (e.Expire? || e.BeginSubscribe? || e.AbandonSubscribe? || e.Drain? || e.Finish?)
    ensures var h' := Step(limits, h, e);
            SameTraffic(h, h') && h'.pending.Keys <= h.pending.Keys && forall r :: r in h'.pending ==> h'.pending[r] == h.pending[r]
  {
    hide Step, SameTraffic, Legal;
    WaitingChanges(limits, h, e);
    var h' := Step(limits, h, e);
    MembersOnly(h, h'.pending, h'.connections, h'.subscribing, h'.subscribersBySpace, h'.subscriptionCount, h'.draining, h'.closed);
  }

  lemma WaitingChanges(limits: Limits, h: Hub, e: Event)
    requires Legal(h, e) && (e.Expire? || e.BeginSubscribe? || e.AbandonSubscribe? || e.Drain? || e.Finish?)
    ensures var h' := Step(limits, h, e);
            && h' == h.(pending := h'.pending, connections := h'.connections, subscribing := h'.subscribing,
                        subscribersBySpace := h'.subscribersBySpace, subscriptionCount := h'.subscriptionCount,
                        draining := h'.draining, closed := h'.closed)
            && h'.connections <= h.connections
            && h'.pending.Keys <= h.pending.Keys && forall r :: r in h'.pending ==> h'.pending[r] == h.pending[r]
  {
    hide DeliverStep, SendStep, SettleStep, RememberStep, AdmitStep, ConnectStep, CleanupStep, SubscribeStep, UnsubscribeStep;
  }

  /** Membership alone is no traffic. */
  lemma MembersOnly(h: Hub, pending: map<Request, Pending>, connections: set<Socket>, subscribing: multiset<Handler>,
                    subscribersBySpace: map<Space, set<Socket>>, subscriptionCount: nat, draining: bool, closed: bool)
    requires connections <= h.connections
    ensures SameTraffic(h, h.(pending := pending, connections := connections, subscribing := subscribing,
                              subscribersBySpace := subscribersBySpace, subscriptionCount := subscriptionCount,
                              draining := draining, closed := closed))
  {
  }

  lemma NewcomersNeedConnect(limits: Limits, h: Hub, e: Event)
    requires Owned(h) && Legal(h, e) && !e.Admit? && !e.Connect?
    ensures NoNewcomer(h, Step(limits, h, e))
  {
    hide CleanupStep, AdmitStep, ConnectStep, BeginStep, SubscribeStep, UnsubscribeStep, SendStep, SettleStep, RememberStep, DeliverStep;
    if IsTraffic(e) {
      hide Step;
      TrafficKeepsSockets(limits, h, e);
    } else if e.Cleanup? {
      CleanupAdmitsNobody(h, e.socket);
    } else {
      hide Step;
      ControlIsNoTraffic(limits, h, e);
    }
  }

  lemma CleanupAdmitsNobody(h: Hub, socket: Socket)
    requires Owned(h) && socket in h.states
    ensures NoNewcomer(h, CleanupStep(h, socket))
  {
    hide WithoutSubscriber;
  }

  lemma StartsWithinCapacity(limits: Limits)
    ensures Owned(EMPTY) && WithinCapacity(limits, EMPTY)
  {
    forall address ensures |ConnectedFrom(EMPTY, address)| + |PendingFrom(EMPTY, address)| == 0 {
      assert ConnectedFrom(EMPTY, address) == {} && PendingFrom(EMPTY, address) == {};
    }
    forall actorId ensures |ConnectedOf(EMPTY, actorId)| + |PendingOf(EMPTY, actorId)| == 0 {
      assert ConnectedOf(EMPTY, actorId) == {} && PendingOf(EMPTY, actorId) == {};
    }
  }
}
