/** What single events promise to a caller, and what draining means for every later run. */
module HubEvents {
  import opened RealtimeHub
  import opened HubAdmission
  import opened HubAccounting
  import opened Sums

  /** The bound of the counter table: the product of the two limits, between 1 and 100,000. */
  lemma TableBound(limits: Limits)
    ensures var product, bound := limits.maxConnections * limits.maxSubscriptions, MaxSequenceStates(limits);
            && (product == 0 ==> bound == 1) && (1 <= product <= 100_000 ==> bound == product)
            && (product > 100_000 ==> bound == 100_000)
  {
  }

  // ----- admission -----

  /** A request waits from then on exactly when the hub is not draining and no limit is reached. */
  lemma AdmissionIsExact(limits: Limits, h: Hub, request: Request, actorId: string, address: string)
    ensures var h' := Step(limits, h, Admit(request, actorId, address));
            var fits := && |h.connections| + |h.pending| < limits.maxConnections
                        && |ConnectedFrom(h, address)| + |PendingFrom(h, address)| < limits.maxConnectionsPerAddress
                        && |ConnectedOf(h, actorId)| + |PendingOf(h, actorId)| < limits.maxConnectionsPerAccount;
            h' == if !h.draining && fits then h.(pending := h.pending[request := Pending(actorId, address)]) else h
  {
  }

  /** An expired or used reservation connects nobody. */
  lemma ReservationsAreUsedOnce(limits: Limits, h: Hub, request: Request, socket: Socket, other: Socket)
    requires socket !in h.states && other !in h.states && other != socket
    ensures var expired := Step(limits, h, Expire(request)); Step(limits, expired, Connect(request, other)) == expired
    ensures var used := Step(limits, h, Connect(request, socket)); Step(limits, used, Connect(request, other)) == used
    ensures Step(limits, h, Expire(request)) == h.(pending := h.pending - {request})
  {
  }

  /** A handler passes when the hub is not draining and the space is already there or fits. */
  lemma BeginIsExact(limits: Limits, h: Hub, socket: Socket, space: Space)
    requires socket in h.states
    ensures var subscriptions := h.states[socket].subscriptions;
            Step(limits, h, BeginSubscribe(socket, space)) ==
              if !h.draining && (space in subscriptions || |subscriptions| + 1 <= limits.maxSubscriptions)
              then h.(subscribing := h.subscribing + multiset{Handler(socket, space)}) else h
  {
  }

  // ----- sends -----

  lemma OneMessage(h: Hub, socket: Socket, bytes: nat)
    requires socket in h.states
    ensures var st := h.states[socket];
            Enqueue(h, {socket}, bytes) == h.(
              states := h.states[socket := st.(outboundBytes := st.outboundBytes + bytes, serial := st.serial + 1)],
              outboundQueueBytes := h.outboundQueueBytes + bytes, queuedMessages := h.queuedMessages + 1,
              queuedBytes := h.queuedBytes + bytes, unsettled := h.unsettled[SendId(socket, st.serial) := bytes])
  {
    assert Fresh(h, {socket}) == {SendId(socket, h.states[socket].serial)};
    assert Enqueue(h, {socket}, bytes).states
           == h.states[socket := h.states[socket].(outboundBytes := h.states[socket].outboundBytes + bytes, serial := h.states[socket].serial + 1)];
    assert 1 * bytes == bytes;
  }

  /** A message is queued once, with a callback of its own, exactly for an open socket with room in its buffers. */
  lemma SendIsExact(limits: Limits, h: Hub, socket: Socket, bytes: nat, r: Readiness)
    requires socket in h.states
    ensures var st := h.states[socket];
            Step(limits, h, Send(socket, bytes, r)) ==
              if r.Ready? && r.buffered + st.outboundBytes + bytes <= limits.maxBufferedBytes
              then h.(states := h.states[socket := st.(outboundBytes := st.outboundBytes + bytes, serial := st.serial + 1)],
                      outboundQueueBytes := h.outboundQueueBytes + bytes, queuedMessages := h.queuedMessages + 1,
                      queuedBytes := h.queuedBytes + bytes, unsettled := h.unsettled[SendId(socket, st.serial) := bytes])
              else h
  {
    hide Enqueue;
    OneMessage(h, socket, bytes);
  }

  /** A callback gives back its message once; what `cleanup` took back already is not taken twice. */
  lemma SettleIsExact(limits: Limits, h: Hub, id: SendId)
    requires Accounted(limits, h) && Owned(h)
    ensures var h' := Step(limits, h, Settle(id));
            && (id !in h.unsettled ==> h' == h)
            && (id in h.unsettled ==>
                  && h'.unsettled == h.unsettled - {id} && Step(limits, h', Settle(id)) == h'
                  && h'.queuedMessages + 1 == h.queuedMessages && h'.queuedBytes + h.unsettled[id] == h.queuedBytes
                  && h'.outboundQueueBytes + h.states[id.socket].outboundBytes == h.outboundQueueBytes + h'.states[id.socket].outboundBytes
                  && (id.socket in h.connections ==>
                        h'.states[id.socket].outboundBytes + h.unsettled[id] == h.states[id.socket].outboundBytes))
  {
    hide Accounted, SocketIsExact, Total;
    if id in h.unsettled { SettleReleases(limits, h, id); }
  }

  // ----- draining and closing -----

  /** Nobody waits and nobody joins. */
  lemma DrainedStep(limits: Limits, h: Hub, e: Event)
    requires Legal(h, e) && h.draining && h.pending == map[] && Owned(h)
    ensures var h' := Step(limits, h, e); h'.draining && h'.pending == map[] && h'.connections <= h.connections && Owned(h')
  {
    hide HasCapacity, SameTraffic, SameSockets;
    OwnedStep(limits, h, e);
    if !e.Admit? && !e.Connect? {
      hide Step;
      NewcomersNeedConnect(limits, h, e);
      DrainingStays(limits, h, e);
    }
  }

  lemma DrainingStays(limits: Limits, h: Hub, e: Event)
    requires Legal(h, e) && h.draining
    ensures Step(limits, h, e).draining
  {
    hide HasCapacity, WithoutSubscriber, Fresh, Window, Advance, Targets, CounterOf, Accepts;
  }

  /** From a drain on, no reservation is made and no socket is registered, whatever happens. */
  lemma {:induction false} NobodyJoinsAfterDrain(limits: Limits, h: Hub, events: seq<Event>)
    requires Owned(h) && h.draining && h.pending == map[] && Runs(limits, h, events)
    ensures var h' := After(limits, h, events); h'.draining && h'.pending == map[] && h'.connections <= h.connections
    decreases |events|
  {
    hide Step, Owned, Legal;
    if events != [] {
      DrainedStep(limits, h, events[0]);
      NobodyJoinsAfterDrain(limits, Step(limits, h, events[0]), events[1..]);
    }
  }

  /** `close` drains first; once it finished, no socket is registered ever again. */
  lemma ClosedIsEmpty(limits: Limits, h: Hub, between: seq<Event>, events: seq<Event>)
    requires Owned(h)
    requires Runs(limits, Step(limits, h, Drain), between)
    requires var drained := After(limits, Step(limits, h, Drain), between); Runs(limits, Step(limits, drained, Finish), events)
    ensures var drained := After(limits, Step(limits, h, Drain), between);
            && drained.connections <= h.connections
            && Step(limits, drained, Finish).closed && Step(limits, drained, Finish).subscribersBySpace == map[]
            && Step(limits, drained, Finish).subscriptionCount == 0
            && After(limits, Step(limits, drained, Finish), events).connections == {}
  {
    hide After, Runs, Owned;
    var start := Step(limits, h, Drain);
    OwnedStep(limits, h, Drain);
    assert start.draining && start.pending == map[] && start.connections == h.connections;
    NobodyJoinsAfterDrain(limits, start, between);
    var drained := After(limits, start, between);
    OwnedRun(limits, start, between);
    OwnedStep(limits, drained, Finish);
    NobodyJoinsAfterDrain(limits, Step(limits, drained, Finish), events);
  }

  lemma {:induction false} OwnedRun(limits: Limits, h: Hub, events: seq<Event>)
    requires Owned(h) && Runs(limits, h, events)
    ensures Owned(After(limits, h, events))
    decreases |events|
  {
    hide Owned, Step;
    if events != [] {
      OwnedStep(limits, h, events[0]);
      OwnedRun(limits, Step(limits, h, events[0]), events[1..]);
    }
  }

  lemma FinishIs(limits: Limits, h: Hub)
    ensures Step(limits, h, Finish) == h.(closed := true, connections := {}, subscribersBySpace := map[], subscriptionCount := 0)
  {
    hide AdmitStep, ConnectStep, BeginStep, Done, SubscribeStep, UnsubscribeStep, CleanupStep, SendStep, SettleStep, RememberStep, DeliverStep;
  }
}
