/** The byte and message counters are exact in every reachable state, late callbacks included. */
module HubAccounting {
  import opened Sums
  import opened RealtimeHub
  import opened HubAdmission

  ghost function Outbound(h: Hub): map<Socket, nat>
  {
    map k | k in h.states :: h.states[k].outboundBytes
  }

  /** The sends of one socket whose callbacks have not fired. */
  ghost function UnsettledOf(unsettled: map<SendId, nat>, k: Socket): map<SendId, nat>
  {
    map id | id in unsettled && id.socket == k :: unsettled[id]
  }

  /** The queue totals equal what is outstanding. */
  ghost predicate QueueIsExact(h: Hub)
  {
    h.queuedMessages == |h.unsettled| && h.queuedBytes == Total(h.unsettled)
  }

  /** The hub-wide byte count is the sum over all state objects. */
  ghost predicate BytesAreExact(h: Hub)
  {
    h.outboundQueueBytes == Total(Outbound(h))
  }

  /**
   One socket's bytes never exceed its outstanding sends nor the bound, and equal the
   outstanding sends as long as the socket is registered.
   */
  ghost predicate SocketIsExact(limits: Limits, h: Hub, k: Socket)
  {
    k in h.states ==>
      && h.states[k].outboundBytes <= Total(UnsettledOf(h.unsettled, k))
      && h.states[k].outboundBytes <= limits.maxBufferedBytes
      && (k in h.connections ==> h.states[k].outboundBytes == Total(UnsettledOf(h.unsettled, k)))
  }

  ghost predicate Accounted(limits: Limits, h: Hub)
  {
    QueueIsExact(h) && BytesAreExact(h) && forall k :: SocketIsExact(limits, h, k)
  }

  lemma BytesCoverSocket(h: Hub, k: Socket)
    requires BytesAreExact(h) && k in h.states
    ensures h.outboundQueueBytes >= h.states[k].outboundBytes
  {
    TotalRemove(Outbound(h), k);
  }

  lemma BytesAfter(h: Hub, h': Hub, socket: Socket)
    requires socket in h.states && h'.states.Keys == h.states.Keys
    requires forall k :: k in h.states && k != socket ==> h'.states[k].outboundBytes == h.states[k].outboundBytes
    ensures Total(Outbound(h')) == Total(Outbound(h)) - h.states[socket].outboundBytes + h'.states[socket].outboundBytes
  {
    TotalUpdate(Outbound(h), socket, h'.states[socket].outboundBytes);
    assert Outbound(h)[socket := h'.states[socket].outboundBytes] == Outbound(h');
  }

  // ----- sends -----

  /** The send numbers handed out are new, one to each socket. */
  lemma {:induction false} FreshSize(h: Hub, sockets: set<Socket>)
    requires sockets <= h.states.Keys
    ensures |Fresh(h, sockets)| == |sockets|
    decreases |sockets|
  {
    if sockets == {} {
      assert Fresh(h, sockets) == {};
    } else {
      var k :| k in sockets;
      FreshSize(h, sockets - {k});
      assert Fresh(h, sockets) == Fresh(h, sockets - {k}) + {SendId(k, h.states[k].serial)};
    }
  }

  lemma FreshIsNew(h: Hub, sockets: set<Socket>)
    requires Owned(h) && sockets <= h.states.Keys
    ensures Fresh(h, sockets) !! h.unsettled.Keys
  {
  }

  /** New sends of one size, one per number. */
  lemma NewSends(unsettled: map<SendId, nat>, ids: set<SendId>, bytes: nat)
    requires ids !! unsettled.Keys
    ensures var all := unsettled + map id | id in ids :: bytes;
            |all| == |unsettled| + |ids| && Total(all) == Total(unsettled) + |ids| * bytes
  {
    var extra := map id | id in ids :: bytes;
    assert extra.Keys == ids;
    TotalConstant(extra, bytes);
    TotalExtend(unsettled, extra);
    assert (unsettled + extra).Keys == unsettled.Keys + ids;
  }

  lemma EnqueueQueue(h: Hub, sockets: set<Socket>, bytes: nat)
    requires QueueIsExact(h) && Owned(h) && sockets <= h.states.Keys
    ensures QueueIsExact(Enqueue(h, sockets, bytes))
  {
    hide Owned, Fresh;
    FreshIsNew(h, sockets);
    FreshSize(h, sockets);
    NewSends(h.unsettled, Fresh(h, sockets), bytes);
  }

  lemma EnqueueBytes(h: Hub, sockets: set<Socket>, bytes: nat)
    requires BytesAreExact(h) && sockets <= h.states.Keys
    ensures BytesAreExact(Enqueue(h, sockets, bytes))
  {
    TotalRaise(Outbound(h), Outbound(Enqueue(h, sockets, bytes)), sockets, bytes);
  }

  lemma EnqueueSocket(limits: Limits, h: Hub, sockets: set<Socket>, bytes: nat, k: Socket)
    requires SocketIsExact(limits, h, k) && Owned(h) && sockets <= h.states.Keys
    requires k in sockets ==> h.states[k].outboundBytes + bytes <= limits.maxBufferedBytes
    ensures SocketIsExact(limits, Enqueue(h, sockets, bytes), k)
  {
    if k in h.states {
      var h' := Enqueue(h, sockets, bytes);
      var before := UnsettledOf(h.unsettled, k);
      var id := SendId(k, h.states[k].serial);
      if k in sockets {
        assert UnsettledOf(h'.unsettled, k) == before[id := bytes];
        TotalUpdate(before, id, bytes);
      } else {
        assert UnsettledOf(h'.unsettled, k) == before;
      }
    }
  }

  lemma EnqueueKeepsAccounts(limits: Limits, h: Hub, sockets: set<Socket>, bytes: nat)
    requires Accounted(limits, h) && Owned(h) && sockets <= h.states.Keys
    requires forall k :: k in sockets ==> h.states[k].outboundBytes + bytes <= limits.maxBufferedBytes
    ensures Accounted(limits, Enqueue(h, sockets, bytes))
  {
    hide Enqueue, QueueIsExact, BytesAreExact, SocketIsExact;
    EnqueueQueue(h, sockets, bytes);
    EnqueueBytes(h, sockets, bytes);
    forall k ensures SocketIsExact(limits, Enqueue(h, sockets, bytes), k) {
      EnqueueSocket(limits, h, sockets, bytes, k);
    }
  }

  // ----- callbacks -----

  /** A callback releases exactly what its send had added, unless `cleanup` already did; no clamp acts. */
  lemma SettleReleases(limits: Limits, h: Hub, id: SendId)
    requires Accounted(limits, h) && Owned(h) && id in h.unsettled
    ensures var st := h.states[id.socket];
            var released := Min(h.unsettled[id], st.outboundBytes);
            && released <= h.outboundQueueBytes && h.queuedMessages >= 1 && h.unsettled[id] <= h.queuedBytes
            && (id.socket in h.connections ==> released == h.unsettled[id])
  {
    assert SocketIsExact(limits, h, id.socket);
    BytesCoverSocket(h, id.socket);
    TotalRemove(h.unsettled, id);
    TotalRemove(UnsettledOf(h.unsettled, id.socket), id);
    RemoveShrinks(h.unsettled, id);
  }

  lemma SettleSocket(limits: Limits, h: Hub, id: SendId, k: Socket)
    requires SocketIsExact(limits, h, k) && Owned(h) && id in h.unsettled
    ensures SocketIsExact(limits, SettleStep(h, id), k)
  {
    var before := UnsettledOf(h.unsettled, k);
    if id.socket == k {
      TotalRemove(before, id);
      assert UnsettledOf(h.unsettled - {id}, k) == before - {id};
    } else {
      assert UnsettledOf(h.unsettled - {id}, k) == before;
    }
  }

  lemma SettleKeepsAccounts(limits: Limits, h: Hub, id: SendId)
    requires Accounted(limits, h) && Owned(h)
    ensures Accounted(limits, SettleStep(h, id))
  {
    if id in h.unsettled {
      var h' := SettleStep(h, id);
      SettleReleases(limits, h, id);
      TotalRemove(h.unsettled, id);
      RemoveShrinks(h.unsettled, id);
      BytesAfter(h, h', id.socket);
      forall k ensures SocketIsExact(limits, h', k) {
        assert SocketIsExact(limits, h, k);
        SettleSocket(limits, h, id, k);
      }
    }
  }

  // ----- closing -----

  /** `cleanup` takes the socket's bytes out of the total and leaves its callbacks outstanding. */
  lemma CleanupKeepsAccounts(limits: Limits, h: Hub, socket: Socket)
    requires Accounted(limits, h) && Owned(h) && socket in h.states
    ensures Accounted(limits, CleanupStep(h, socket))
  {
    var h' := CleanupStep(h, socket);
    if h' != h {
      BytesCoverSocket(h, socket);
      BytesAfter(h, h', socket);
      forall k ensures SocketIsExact(limits, h', k) {
        assert SocketIsExact(limits, h, k);
      }
    }
  }

  lemma ConnectSocket(limits: Limits, h: Hub, request: Request, socket: Socket, k: Socket)
    requires SocketIsExact(limits, h, k) && Owned(h) && socket !in h.states && request in h.pending
    ensures SocketIsExact(limits, ConnectStep(h, request, socket), k)
  {
    if k == socket {
      assert UnsettledOf(h.unsettled, k) == map[];
    }
  }

  lemma ConnectKeepsAccounts(limits: Limits, h: Hub, request: Request, socket: Socket)
    requires Accounted(limits, h) && Owned(h) && socket !in h.states
    ensures Accounted(limits, ConnectStep(h, request, socket))
  {
    hide SocketIsExact, Total;
    var h' := ConnectStep(h, request, socket);
    if h' != h {
      TotalUpdate(Outbound(h), socket, 0);
      assert Outbound(h)[socket := 0] == Outbound(h');
      forall k ensures SocketIsExact(limits, h', k) {
        ConnectSocket(limits, h, request, socket, k);
      }
    }
  }

  /** Events that touch neither bytes nor outstanding sends. */
  lemma QuietKeepsAccounts(limits: Limits, h: Hub, h': Hub)
    requires Accounted(limits, h) && h'.states.Keys == h.states.Keys && h'.connections <= h.connections
    requires forall k :: k in h.states ==> h'.states[k].outboundBytes == h.states[k].outboundBytes
    requires h'.unsettled == h.unsettled && h'.queuedMessages == h.queuedMessages
    requires h'.queuedBytes == h.queuedBytes && h'.outboundQueueBytes == h.outboundQueueBytes
    ensures Accounted(limits, h')
  {
    assert Outbound(h') == Outbound(h);
    forall k ensures SocketIsExact(limits, h', k) {
      assert SocketIsExact(limits, h, k);
    }
  }

  lemma DeliverKeepsAccounts(limits: Limits, h: Hub, e: Event)
    requires Accounted(limits, h) && Owned(h) && e.Deliver?
    ensures Accounted(limits, DeliverStep(limits, h, e))
  {
    hide Accounted, Owned, Enqueue, Advance, Window, CounterOf;
    var numbered := Numbered(limits, h, e);
    QuietKeepsAccounts(limits, h, numbered);
    NumberedKeepsSockets(limits, h, e);
    EnqueueKeepsAccounts(limits, numbered, Targets(limits, h, e), e.bytes);
  }

  lemma TrafficKeepsAccounts(limits: Limits, h: Hub, e: Event)
    requires Accounted(limits, h) && Owned(h) && Legal(h, e) && IsTraffic(e)
    ensures Accounted(limits, Step(limits, h, e))
  {
    hide Accounted, Owned, Enqueue, Window, AdmitStep, ConnectStep, BeginStep, Done, SubscribeStep, UnsubscribeStep;
    hide CleanupStep, SettleStep, DeliverStep;
    match e {
      case Send(socket, bytes, readiness) =>
        if Accepts(limits, h.states[socket], bytes, readiness) {
          EnqueueKeepsAccounts(limits, h, {socket}, bytes);
        }
      case Settle(id) => SettleKeepsAccounts(limits, h, id);
      case Remember(_) => QuietKeepsAccounts(limits, h, Step(limits, h, e));
      case Deliver(_, _, _, _) => DeliverKeepsAccounts(limits, h, e);
    }
  }

  lemma ArrivalKeepsAccounts(limits: Limits, h: Hub, e: Event)
    requires Accounted(limits, h) && Owned(h) && Legal(h, e) && (e.Admit? || e.Connect? || e.Cleanup?)
    ensures Accounted(limits, Step(limits, h, e))
  {
    hide Accounted, Owned, HasCapacity, ConnectStep, BeginStep, Done, SubscribeStep, UnsubscribeStep, CleanupStep;
    hide SendStep, SettleStep, RememberStep, DeliverStep;
    match e {
      case Admit(_, _, _) => QuietKeepsAccounts(limits, h, Step(limits, h, e));
      case Connect(request, socket) => ConnectKeepsAccounts(limits, h, request, socket);
      case Cleanup(socket) => CleanupKeepsAccounts(limits, h, socket);
    }
  }

  lemma AccountsStep(limits: Limits, h: Hub, e: Event)
    requires Accounted(limits, h) && Owned(h) && Legal(h, e)
    ensures Accounted(limits, Step(limits, h, e))
  {
    hide Accounted, Owned, Step, Legal;
    if IsTraffic(e) {
      TrafficKeepsAccounts(limits, h, e);
    } else if IsControl(e) {
      ControlIsNoTraffic(limits, h, e);
      QuietKeepsAccounts(limits, h, Step(limits, h, e));
    } else {
      ArrivalKeepsAccounts(limits, h, e);
    }
  }

  lemma StartsAccounted(limits: Limits)
    ensures Accounted(limits, EMPTY)
  {
    assert Outbound(EMPTY) == map[];
  }
}
