/** The hub's closures as methods over its maps and counters, each proved to be one event of the model. */
module WebsocketHub {
  import opened RealtimeHub
  import HubEvents

  /** One more accepting socket. */
  lemma EnqueueOneMore(h: Hub, sockets: set<Socket>, k: Socket, bytes: nat)
    requires sockets <= h.states.Keys && k in h.states && k !in sockets
    ensures Enqueue(Enqueue(h, sockets, bytes), {k}, bytes) == Enqueue(h, sockets + {k}, bytes)
  {
    hide Fresh;
    var first := Enqueue(h, sockets, bytes);
    assert |sockets + {k}| == |sockets| + 1;
    assert (|sockets| + 1) * bytes == |sockets| * bytes + bytes;
    assert 1 * bytes == bytes;
    StatesOneMore(h, sockets, k, bytes);
    UnsettledOneMore(h, first, sockets, k, bytes);
  }

  lemma StatesOneMore(h: Hub, sockets: set<Socket>, k: Socket, bytes: nat)
    requires sockets <= h.states.Keys && k in h.states && k !in sockets
    ensures Enqueue(Enqueue(h, sockets, bytes), {k}, bytes).states == Enqueue(h, sockets + {k}, bytes).states
  {
    hide Fresh;
  }

  lemma UnsettledOneMore(h: Hub, first: Hub, sockets: set<Socket>, k: Socket, bytes: nat)
    requires sockets <= h.states.Keys && k in h.states && k !in sockets
    requires k in first.states && first.states[k] == h.states[k]
    requires first.unsettled == h.unsettled + map id | id in Fresh(h, sockets) :: bytes
    ensures first.unsettled + (map id | id in Fresh(first, {k}) :: bytes)
            == h.unsettled + map id | id in Fresh(h, sockets + {k}) :: bytes
  {
    var id := SendId(k, h.states[k].serial);
    assert Fresh(first, {k}) == {id};
    assert Fresh(h, sockets + {k}) == Fresh(h, sockets) + {id};
    EntriesOfBoth(h.unsettled, Fresh(h, sockets), Fresh(first, {k}), bytes);
  }

  lemma EntriesOfBoth(unsettled: map<SendId, nat>, ids: set<SendId>, more: set<SendId>, bytes: nat)
    ensures unsettled + (map id | id in ids :: bytes) + (map id | id in more :: bytes)
            == unsettled + map id | id in ids + more :: bytes
  {
  }

  /** One message counted against its socket and the hub. */
  function Queued(h: Hub, socket: Socket, bytes: nat): Hub
    requires socket in h.states
  {
    var st := h.states[socket];
    h.(states := h.states[socket := st.(outboundBytes := st.outboundBytes + bytes)],
       outboundQueueBytes := h.outboundQueueBytes + bytes,
       queuedMessages := h.queuedMessages + 1, queuedBytes := h.queuedBytes + bytes)
  }

  /** One message given back. */
  function Released(h: Hub, socket: Socket, bytes: nat): Hub
    requires socket in h.states
  {
    var st := h.states[socket];
    var released := Min(bytes, st.outboundBytes);
    h.(states := h.states[socket := st.(outboundBytes := st.outboundBytes - released)],
       outboundQueueBytes := Minus(h.outboundQueueBytes, released),
       queuedMessages := Minus(h.queuedMessages, 1), queuedBytes := Minus(h.queuedBytes, bytes))
  }

  /** One message whose callback is due. */
  function Tracked(h: Hub, socket: Socket, bytes: nat): Hub
    requires socket in h.states
  {
    var st := h.states[socket];
    h.(states := h.states[socket := st.(serial := st.serial + 1)], unsettled := h.unsettled[SendId(socket, st.serial) := bytes])
  }

  lemma QueuedThenReleased(h: Hub, socket: Socket, bytes: nat)
    requires socket in h.states
    ensures socket in Queued(h, socket, bytes).states && Released(Queued(h, socket, bytes), socket, bytes) == h
  {
    assert Released(Queued(h, socket, bytes), socket, bytes).states == h.states;
  }

  lemma TrackedIsEnqueued(h: Hub, socket: Socket, bytes: nat)
    requires socket in h.states
    ensures socket in Queued(h, socket, bytes).states && Tracked(Queued(h, socket, bytes), socket, bytes) == Enqueue(h, {socket}, bytes)
  {
    HubEvents.OneMessage(h, socket, bytes);
    var st := h.states[socket];
    assert Tracked(Queued(h, socket, bytes), socket, bytes).states
           == h.states[socket := st.(outboundBytes := st.outboundBytes + bytes, serial := st.serial + 1)];
  }

  lemma AdvanceReads(limits: Limits, h: Hub, h': Hub, space: Space)
    requires h'.sequences == h.sequences && h'.subscribersBySpace == h.subscribersBySpace
    ensures Advance(limits, h', space) == Advance(limits, h, space)
  {
  }

  lemma EnqueueNobody(h: Hub, bytes: nat)
    ensures Enqueue(h, {}, bytes) == h
  {
    assert Fresh(h, {}) == {};
    assert (map k | k in h.states :: h.states[k]) == h.states;
    assert (map id | id in Fresh(h, {}) :: bytes) == map[];
    assert h.unsettled + map[] == h.unsettled;
  }

  /** A socket some of whose subscriptions were removed. */
  function Removed(h: Hub, socket: Socket, spaces: set<Space>): Hub
    requires socket in h.states
  {
    var st := h.states[socket];
    h.(states := h.states[socket := st.(subscriptions := st.subscriptions - spaces)],
       subscribersBySpace := WithoutSubscriber(h.subscribersBySpace, socket, spaces),
       subscriptionCount := Minus(h.subscriptionCount, |spaces|))
  }

  /** Taking back the bytes as well completes a clean-up. */
  lemma AllRemoved(h: Hub, socket: Socket)
    requires socket in h.states
    ensures var st := h.states[socket]; var r := Removed(h, socket, st.subscriptions);
            && socket in r.states && r.states[socket].outboundBytes == st.outboundBytes
            && r.outboundQueueBytes == h.outboundQueueBytes
            && r.states[socket := r.states[socket].(outboundBytes := 0)]
               == h.states[socket := st.(subscriptions := {}, outboundBytes := 0)]
  {
    var st := h.states[socket];
    assert st.subscriptions - st.subscriptions == {};
  }

  lemma NothingRemoved(h: Hub, socket: Socket)
    requires socket in h.states
    ensures Removed(h, socket, {}) == h
  {
    var st := h.states[socket];
    assert st.subscriptions - {} == st.subscriptions;
    assert h.states[socket := st] == h.states;
    assert WithoutSubscriber(h.subscribersBySpace, socket, {}) == h.subscribersBySpace;
  }

  lemma OneMoreRemoved(h: Hub, socket: Socket, spaces: set<Space>, space: Space)
    requires socket in h.states && space in h.states[socket].subscriptions && space !in spaces
    ensures socket in Removed(h, socket, spaces).states
    ensures UnsubscribeStep(Removed(h, socket, spaces), socket, space) == Removed(h, socket, spaces + {space})
  {
    WithoutOneMore(h.subscribersBySpace, socket, spaces, space);
    var st := h.states[socket];
    assert st.subscriptions - spaces - {space} == st.subscriptions - (spaces + {space});
    assert h.states[socket := st.(subscriptions := st.subscriptions - spaces)]
                   [socket := st.(subscriptions := st.subscriptions - (spaces + {space}))]
           == h.states[socket := st.(subscriptions := st.subscriptions - (spaces + {space}))];
    assert |spaces + {space}| == |spaces| + 1;
  }

  lemma WithoutOneMore(index: map<Space, set<Socket>>, k: Socket, spaces: set<Space>, space: Space)
    requires space !in spaces
    ensures WithoutSubscriber(WithoutSubscriber(index, k, spaces), k, {space}) == WithoutSubscriber(index, k, spaces + {space})
  {
  }

  lemma NumberedKeeps(limits: Limits, h: Hub, e: Event)
    requires e.Deliver?
    ensures var n := Numbered(limits, h, e);
            n.states == h.states && n.connections == h.connections && n.subscribersBySpace == h.subscribersBySpace
  {
  }

  lemma TargetsAreSubscribers(limits: Limits, h: Hub, e: Event)
    requires e.Deliver?
    ensures Targets(limits, h, e) <= SubscribersOf(h, e.space)
  {
  }

  lemma TargetsAre(limits: Limits, h: Hub, e: Event, k: Socket)
    requires e.Deliver? && k in SubscribersOf(h, e.space)
    ensures k in Targets(limits, h, e) <==>
              k in h.connections && k in h.states && k in e.answers && Accepts(limits, h.states[k], e.bytes, e.answers[k])
  {
  }

  lemma {:induction false} DropFirstOutsideAt(sequences: seq<Counter>, subscribed: set<Space>, i: nat)
    requires i < |sequences| && sequences[i].space !in subscribed
    requires forall j :: 0 <= j < i ==> sequences[j].space in subscribed
    ensures DropFirstOutside(sequences, subscribed) == sequences[..i] + sequences[i + 1..]
  {
    if i > 0 {
      var rest := sequences[1..];
      assert forall j :: 0 <= j < i - 1 ==> rest[j] == sequences[j + 1];
      DropFirstOutsideAt(rest, subscribed, i - 1);
      assert sequences[..i] == [sequences[0]] + rest[..i - 1];
    }
  }

  class WebsocketHub {
    const limits: Limits
    var draining: bool
    var closed: bool
    var pending: map<Request, Pending>
    var connections: set<Socket>
    var states: map<Socket, ConnectionState>
    var subscribersBySpace: map<Space, set<Socket>>
    var subscriptionCount: nat
    var sequences: seq<Counter>
    var seenEvents: seq<EventId>
    var outboundQueueBytes: nat
    var queuedMessages: nat
    var queuedBytes: nat
    var unsettled: map<SendId, nat>
    ghost var subscribing: multiset<Handler>
    ghost var accepted: seq<EventId>
    ghost var deliveries: seq<Delivery>

    ghost function State(): Hub
      reads this
    {
      Hub(draining, closed, pending, connections, states, subscribing, subscribersBySpace, subscriptionCount, sequences,
          seenEvents, outboundQueueBytes, queuedMessages, queuedBytes, unsettled, accepted, deliveries)
    }

    constructor (limits: Limits)
      ensures this.limits == limits && State() == EMPTY
    {
      this.limits := limits;
      draining, closed, pending, connections, states := false, false, map[], {}, map[];
      subscribersBySpace, subscriptionCount, sequences, seenEvents := map[], 0, [], [];
      outboundQueueBytes, queuedMessages, queuedBytes, unsettled := 0, 0, 0, map[];
      subscribing, accepted, deliveries := multiset{}, [], [];
    }

    /** The last stretch of `verify`, after its awaits. */
    method Admit(request: Request, actorId: string, address: string) returns (admitted: bool)
      modifies this
      ensures State() == AdmitStep(limits, old(State()), request, actorId, address)
      ensures admitted <==> !old(draining) && HasCapacity(limits, old(State()), actorId, address)
    {
      hide HasCapacity;
      if draining { return false; }
      admitted := CheckCapacity(actorId, address);
      if admitted { pending := pending[request := Pending(actorId, address)]; }
    }

    /** The second capacity check of `verify`. */
    method CheckCapacity(actorId: string, address: string) returns (free: bool)
      ensures free <==> HasCapacity(limits, State(), actorId, address)
    {
      var fromAddress := set k | k in connections && k in states && states[k].address == address;
      var waitingAddress := set r | r in pending && pending[r].address == address;
      var ofActor := set k | k in connections && k in states && states[k].actorId == actorId;
      var waitingActor := set r | r in pending && pending[r].actorId == actorId;
      assert fromAddress == ConnectedFrom(State(), address) && waitingAddress == PendingFrom(State(), address);
      assert ofActor == ConnectedOf(State(), actorId) && waitingActor == PendingOf(State(), actorId);
      free := !(|connections| + |pending| >= limits.maxConnections
                || |fromAddress| + |waitingAddress| >= limits.maxConnectionsPerAddress
                || |ofActor| + |waitingActor| >= limits.maxConnectionsPerAccount);
    }

    method Expire(request: Request)
      modifies this
      ensures State() == Step(limits, old(State()), Event.Expire(request))
    {
      hide AdmitStep, ConnectStep, BeginStep, Done, SubscribeStep, UnsubscribeStep, CleanupStep, SendStep, SettleStep, RememberStep, DeliverStep;
      pending := pending - {request};
    }

    method Connect(request: Request, socket: Socket) returns (registered: bool)
      requires socket !in states
      modifies this
      ensures State() == ConnectStep(old(State()), request, socket)
      ensures registered <==> request in old(pending)
    {
      if request !in pending { return false; }
      var authenticated := pending[request];
      pending := pending - {request};
      states := states[socket := ConnectionState(authenticated.actorId, authenticated.address, {}, 0, 0)];
      connections := connections + {socket};
      registered := true;
    }

    /** The limit check of a subscribe message. */
    method BeginSubscribe(socket: Socket, space: Space) returns (passed: bool)
      requires socket in states
      modifies this
      ensures State() == BeginStep(limits, old(State()), socket, space)
    {
      if draining { return false; }
      if space !in states[socket].subscriptions && |states[socket].subscriptions| >= limits.maxSubscriptions { return false; }
      subscribing := subscribing + multiset{Handler(socket, space)};
      passed := true;
    }

    /** Resumes after the awaits of a subscribe message. */
    method AddSubscription(socket: Socket, space: Space) returns (added: bool)
      requires socket in states && Handler(socket, space) in subscribing
      modifies this
      ensures State() == SubscribeStep(Done(old(State()), socket, space), socket, space)
      ensures added <==> space !in old(states)[socket].subscriptions
    {
      subscribing := subscribing - multiset{Handler(socket, space)};
      added := Index(socket, space);
    }

    /** Puts the space into the socket's set and the socket into the index. */
    method Index(socket: Socket, space: Space) returns (added: bool)
      requires socket in states
      modifies this
      ensures State() == SubscribeStep(old(State()), socket, space)
      ensures added <==> space !in old(states)[socket].subscriptions
    {
      var st := states[socket];
      if space in st.subscriptions { return false; }
      states := states[socket := st.(subscriptions := st.subscriptions + {space})];
      var subscribers := if space in subscribersBySpace then subscribersBySpace[space] else {};
      subscribersBySpace := subscribersBySpace[space := subscribers + {socket}];
      subscriptionCount := subscriptionCount + 1;
      added := true;
    }

    method RemoveSubscription(socket: Socket, space: Space) returns (removed: bool)
      requires socket in states
      modifies this
      ensures State() == UnsubscribeStep(old(State()), socket, space)
      ensures removed <==> space in old(states)[socket].subscriptions
    {
      var st := states[socket];
      if space !in st.subscriptions { return false; }
      states := states[socket := st.(subscriptions := st.subscriptions - {space})];
      if space in subscribersBySpace {
        var subscribers := subscribersBySpace[space] - {socket};
        subscribersBySpace := if subscribers == {} then subscribersBySpace - {space} else subscribersBySpace[space := subscribers];
      }
      assert subscribersBySpace == WithoutSubscriber(old(subscribersBySpace), socket, {space});
      subscriptionCount := Minus(subscriptionCount, 1);
      removed := true;
    }

    /** Removes the socket's subscriptions, then its bytes. */
    method Cleanup(socket: Socket)
      requires socket in states
      modifies this
      ensures State() == CleanupStep(old(State()), socket)
    {
      if socket !in connections { return; }
      connections := connections - {socket};
      ghost var before := State();
      RemoveAllSubscriptions(socket);
      AllRemoved(before, socket);
      outboundQueueBytes := Minus(outboundQueueBytes, states[socket].outboundBytes);
      states := states[socket := states[socket].(outboundBytes := 0)];
    }

    /** Removes the socket's subscriptions one by one. */
    method RemoveAllSubscriptions(socket: Socket)
      requires socket in states
      modifies this
      ensures State() == Removed(old(State()), socket, old(states)[socket].subscriptions)
    {
      ghost var before := State();
      var subscriptions := states[socket].subscriptions;
      var remaining := subscriptions;
      NothingRemoved(before, socket);
      while remaining != {}
        invariant remaining <= subscriptions
        invariant State() == Removed(before, socket, subscriptions - remaining)
      {
        hide Removed, UnsubscribeStep;
        var space :| space in remaining;
        OneMoreRemoved(before, socket, subscriptions - remaining, space);
        var _ := RemoveSubscription(socket, space);
        assert subscriptions - (remaining - {space}) == subscriptions - remaining + {space};
        remaining := remaining - {space};
      }
      assert subscriptions - remaining == subscriptions;
    }

    /** Gives back the bytes of one message, clamped as the counters are. */
    method Release(socket: Socket, bytes: nat)
      requires socket in states
      modifies this
      ensures State() == Released(old(State()), socket, bytes)
    {
      var st := states[socket];
      var released := Min(bytes, st.outboundBytes);
      states := states[socket := st.(outboundBytes := st.outboundBytes - released)];
      outboundQueueBytes := Minus(outboundQueueBytes, released);
      queuedMessages := Minus(queuedMessages, 1);
      queuedBytes := Minus(queuedBytes, bytes);
    }

    /** Queues one message; a `send` that throws is settled on the spot. */
    method SendSerialized(socket: Socket, bytes: nat, readiness: Readiness) returns (sent: bool)
      requires socket in states
      modifies this
      ensures State() == SendStep(limits, old(State()), socket, bytes, readiness)
      ensures sent <==> Accepts(limits, old(states)[socket], bytes, readiness)
      ensures sent <==> readiness.Ready? && readiness.buffered + old(states)[socket].outboundBytes + bytes <= limits.maxBufferedBytes
    {
      hide Enqueue, Fresh, Released, Queued;
      ghost var h := State();
      if readiness.NotOpen? { return false; }
      if readiness.buffered + states[socket].outboundBytes + bytes > limits.maxBufferedBytes { return false; }
      Queue(socket, bytes);
      if readiness.Throws? {
        Release(socket, bytes);
        QueuedThenReleased(h, socket, bytes);
        return false;
      }
      Track(socket, bytes);
      TrackedIsEnqueued(h, socket, bytes);
      sent := true;
    }

    /** Counts one message against the socket and the hub. */
    method Queue(socket: Socket, bytes: nat)
      requires socket in states
      modifies this
      ensures State() == Queued(old(State()), socket, bytes) && socket in states
    {
      states := states[socket := states[socket].(outboundBytes := states[socket].outboundBytes + bytes)];
      outboundQueueBytes := outboundQueueBytes + bytes;
      queuedMessages := queuedMessages + 1;
      queuedBytes := queuedBytes + bytes;
    }

    /** Hands the message to the socket together with a callback of its own. */
    method Track(socket: Socket, bytes: nat)
      requires socket in states
      modifies this
      ensures State() == Tracked(old(State()), socket, bytes)
    {
      unsettled := unsettled[SendId(socket, states[socket].serial) := bytes];
      states := states[socket := states[socket].(serial := states[socket].serial + 1)];
    }

    /** A send callback; only its first call counts. */
    method Settle(id: SendId)
      modifies this
      ensures State() == SettleStep(old(State()), id)
    {
      if id !in unsettled || id.socket !in states { return; }
      Release(id.socket, unsettled[id]);
      unsettled := unsettled - {id};
    }

    method Remember(eventId: EventId) returns (isNew: bool)
      modifies this
      ensures State() == RememberStep(old(State()), eventId)
      ensures isNew <==> eventId !in old(seenEvents)
    {
      if eventId in seenEvents { return false; }
      seenEvents := seenEvents + [eventId];
      if |seenEvents| > SEEN_EVENTS { seenEvents := seenEvents[1..]; }
      accepted := accepted + [eventId];
      isNew := true;
    }

    /** Moves a space's counter to the end, one up, and evicts one space when the table is full. */
    method NextSequence(space: Space) returns (sequence: nat)
      modifies this`sequences
      ensures sequence == CounterOf(old(sequences), space) + 1
      ensures sequences == Advance(limits, old(State()), space)
    {
      hide CounterOf, DropSpace, Evict;
      sequence := CounterOf(sequences, space) + 1;
      sequences := DropSpace(sequences, space);
      sequences := sequences + [Counter(space, sequence)];
      if |sequences| > MaxSequenceStates(limits) {
        EvictSequence();
      }
    }

    /** The search for a space without subscribers, whose counter goes; the oldest one when all have some. */
    method EvictSequence()
      requires sequences != []
      modifies this`sequences
      ensures sequences == Evict(old(sequences), subscribersBySpace.Keys)
    {
      var candidate := 0;
      while candidate < |sequences| && sequences[candidate].space in subscribersBySpace
        invariant 0 <= candidate <= |sequences|
        invariant forall j :: 0 <= j < candidate ==> sequences[j].space in subscribersBySpace.Keys
      {
        candidate := candidate + 1;
      }
      if candidate < |sequences| {
        DropFirstOutsideAt(sequences, subscribersBySpace.Keys, candidate);
        sequences := sequences[..candidate] + sequences[candidate + 1..];
      } else {
        sequences := sequences[1..];
      }
    }

    /** Accepts, numbers and sends one event to the space's registered subscribers, in any order. */
    method Deliver(space: Space, eventId: EventId, bytes: nat, answers: map<Socket, Readiness>) returns (delivered: bool)
      modifies this
      ensures State() == DeliverStep(limits, old(State()), Event.Deliver(space, eventId, bytes, answers))
      ensures delivered <==> eventId !in old(seenEvents)
                             && Targets(limits, old(State()), Event.Deliver(space, eventId, bytes, answers)) != {}
    {
      hide Advance, Window, CounterOf, Enqueue, Fresh, Targets, Accepts;
      var e := Event.Deliver(space, eventId, bytes, answers);
      ghost var h := State();
      ghost var targets := Targets(limits, h, e);
      var isNew := Remember(eventId);
      if !isNew { return false; }
      AdvanceReads(limits, h, State(), space);
      var sequence := NextSequence(space);
      deliveries := deliveries + [Delivery(space, eventId, |h.accepted|, sequence, targets)];
      delivered := SendAll(h, e);
    }

    /** The sends of a delivery that took its number. */
    method SendAll(ghost h: Hub, e: Event) returns (delivered: bool)
      requires e.Deliver? && State() == Numbered(limits, h, e)
      modifies this
      ensures State() == Enqueue(Numbered(limits, h, e), Targets(limits, h, e), e.bytes)
      ensures delivered <==> Targets(limits, h, e) != {}
    {
      hide Advance, Window, CounterOf, Enqueue, Fresh, Targets, Accepts, Numbered;
      ghost var targets, numbered := Targets(limits, h, e), Numbered(limits, h, e);
      assert numbered.states == h.states && numbered.connections == h.connections
             && numbered.subscribersBySpace == h.subscribersBySpace by { NumberedKeeps(limits, h, e); }
      EnqueueNobody(numbered, e.bytes);
      var remaining := if e.space in subscribersBySpace then subscribersBySpace[e.space] else {};
      ghost var done: set<Socket> := {};
      delivered := false;
      while remaining != {}
        invariant remaining <= SubscribersOf(h, e.space) && done <= targets && done <= numbered.states.Keys
        invariant forall k :: k in SubscribersOf(h, e.space) && k !in remaining ==> (k in done <==> k in targets)
        invariant done !! remaining
        invariant State() == Enqueue(numbered, done, e.bytes)
        invariant forall k :: k in remaining && k in h.states ==> k in states && states[k] == h.states[k]
        invariant states.Keys == h.states.Keys && connections == h.connections
        invariant delivered <==> done != {}
      {
        var socket :| socket in remaining;
        TargetsAre(limits, h, e, socket);
        remaining := remaining - {socket};
        if socket in connections && socket in states && socket in e.answers {
          var sent := SendOne(numbered, done, socket, e.bytes, e.answers[socket]);
          if sent {
            delivered := true;
            done := done + {socket};
          }
        }
      }
      forall k | k in targets ensures k in done {
        TargetsAreSubscribers(limits, h, e);
      }
      assert done == targets;
    }

    /** One send of a delivery under way. */
    method SendOne(ghost numbered: Hub, ghost done: set<Socket>, socket: Socket, bytes: nat, readiness: Readiness)
      returns (sent: bool)
      requires done <= numbered.states.Keys && socket in numbered.states && socket !in done
      requires State() == Enqueue(numbered, done, bytes)
      modifies this
      ensures sent <==> Accepts(limits, numbered.states[socket], bytes, readiness)
      ensures State() == Enqueue(numbered, if sent then done + {socket} else done, bytes)
      ensures forall k :: k in old(states) && k != socket ==> k in states && states[k] == old(states)[k]
      ensures states.Keys == old(states.Keys) && connections == old(connections)
    {
      EnqueueOneMore(numbered, done, socket, bytes);
      sent := SendSerialized(socket, bytes, readiness);
    }

    /** The first stretch of `close`. */
    method Drain()
      modifies this
      ensures State() == Step(limits, old(State()), Event.Drain)
    {
      hide AdmitStep, ConnectStep, BeginStep, Done, SubscribeStep, UnsubscribeStep, CleanupStep, SendStep, SettleStep, RememberStep, DeliverStep;
      draining := true;
      pending := map[];
    }

    /** The last stretch of `close`. */
    method Finish()
      modifies this
      ensures State() == Step(limits, old(State()), Event.Finish)
    {
      HubEvents.FinishIs(limits, State());
      hide Step;
      closed, connections, subscribersBySpace, subscriptionCount := true, {}, map[], 0;
    }
  }
}
