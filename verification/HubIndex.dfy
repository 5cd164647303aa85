/** The inverted subscription index mirrors the sockets' own sets until the hub is closed. */
module HubIndex {
  import opened Sets
  import opened Sums
  import opened RealtimeHub
  import opened HubAdmission

  ghost function SubscriptionSizes(h: Hub): map<Socket, nat>
  {
    map k | k in h.states :: |h.states[k].subscriptions|
  }

  /** The index and the socket's own set agree on one socket and one space. */
  ghost predicate Mirrors(h: Hub, k: Socket, space: Space)
  {
    k in SubscribersOf(h, space) <==> k in h.states && space in h.states[k].subscriptions
  }

  ghost predicate Indexed(h: Hub)
  {
    && (forall k, space :: Mirrors(h, k, space))
    && (forall space :: space in h.subscribersBySpace ==> h.subscribersBySpace[space] != {})
    && h.subscriptionCount == Total(SubscriptionSizes(h))
  }

  /** The clamp of the counter never acts: the socket's own set is part of the sum. */
  lemma CountCoversSocket(h: Hub, socket: Socket)
    requires Indexed(h) && socket in h.states
    ensures h.subscriptionCount >= |h.states[socket].subscriptions|
  {
    TotalRemove(SubscriptionSizes(h), socket);
  }

  lemma SizesAfter(h: Hub, h': Hub, socket: Socket)
    requires socket in h.states && h'.states.Keys == h.states.Keys
    requires forall k :: k in h.states && k != socket ==> h'.states[k].subscriptions == h.states[k].subscriptions
    ensures Total(SubscriptionSizes(h')) ==
            Total(SubscriptionSizes(h)) - |h.states[socket].subscriptions| + |h'.states[socket].subscriptions|
  {
    TotalUpdate(SubscriptionSizes(h), socket, |h'.states[socket].subscriptions|);
    assert SubscriptionSizes(h)[socket := |h'.states[socket].subscriptions|] == SubscriptionSizes(h');
  }

  lemma SameIndex(h: Hub, h': Hub)
    requires Indexed(h) && SameSockets(h, h')
    ensures Indexed(h')
  {
    assert SubscriptionSizes(h') == SubscriptionSizes(h);
    forall k, space ensures Mirrors(h', k, space) {
      assert Mirrors(h, k, space);
    }
  }

  lemma SubscribeKeepsIndex(h: Hub, socket: Socket, space: Space)
    requires Indexed(h) && socket in h.states
    ensures Indexed(SubscribeStep(h, socket, space))
  {
    var h' := SubscribeStep(h, socket, space);
    if space !in h.states[socket].subscriptions {
      hide SubscribeStep, Mirrors, SubscribersOf, Total;
      SubscribeIs(h, socket, space);
      SizesAfter(h, h', socket);
      forall k, other ensures Mirrors(h', k, other) {
        assert Mirrors(h, k, other);
        SubscribeMirrors(h, h', socket, space, k, other);
      }
      assert forall other :: other in h'.subscribersBySpace ==> h'.subscribersBySpace[other] != {};
    }
  }

  lemma SubscribeMirrors(h: Hub, h': Hub, socket: Socket, space: Space, k: Socket, other: Space)
    requires Mirrors(h, k, other) && socket in h.states && h'.states.Keys == h.states.Keys
    requires k in h.states && k != socket ==> h'.states[k] == h.states[k]
    requires h'.states[socket].subscriptions == h.states[socket].subscriptions + {space}
    requires h'.subscribersBySpace == h.subscribersBySpace[space := SubscribersOf(h, space) + {socket}]
    ensures Mirrors(h', k, other)
  {
  }

  /** What a new subscription changes. */
  lemma SubscribeIs(h: Hub, socket: Socket, space: Space)
    requires socket in h.states && space !in h.states[socket].subscriptions
    ensures var h' := SubscribeStep(h, socket, space);
            && h'.states.Keys == h.states.Keys
            && (forall k :: k in h.states && k != socket ==> h'.states[k] == h.states[k])
            && h'.states[socket].subscriptions == h.states[socket].subscriptions + {space}
            && |h'.states[socket].subscriptions| == |h.states[socket].subscriptions| + 1
            && h'.subscribersBySpace == h.subscribersBySpace[space := SubscribersOf(h, space) + {socket}]
            && h'.subscriptionCount == h.subscriptionCount + 1
  {
  }

  lemma RemovalKeepsIndex(h: Hub, h': Hub, socket: Socket, spaces: set<Space>)
    requires Indexed(h) && socket in h.states && spaces <= h.states[socket].subscriptions
    requires h'.states.Keys == h.states.Keys
    requires forall k :: k in h.states && k != socket ==> h'.states[k].subscriptions == h.states[k].subscriptions
    requires h'.states[socket].subscriptions == h.states[socket].subscriptions - spaces
    requires h'.subscribersBySpace == WithoutSubscriber(h.subscribersBySpace, socket, spaces)
    requires h'.subscriptionCount == Minus(h.subscriptionCount, |spaces|)
    ensures Indexed(h')
  {
    CountCoversSocket(h, socket);
    Smaller(spaces, h.states[socket].subscriptions);
    SizesAfter(h, h', socket);
    assert |h.states[socket].subscriptions - spaces| == |h.states[socket].subscriptions| - |spaces|;
    forall k, space ensures Mirrors(h', k, space) {
      assert Mirrors(h, k, space);
      RemovalOf(h, h', socket, spaces, space);
    }
    assert forall space :: space in h'.subscribersBySpace ==> h'.subscribersBySpace[space] != {};
  }

  lemma RemovalOf(h: Hub, h': Hub, socket: Socket, spaces: set<Space>, space: Space)
    requires h'.subscribersBySpace == WithoutSubscriber(h.subscribersBySpace, socket, spaces)
    ensures SubscribersOf(h', space) == SubscribersOf(h, space) - (if space in spaces then {socket} else {})
  {
  }

  lemma UnsubscribeKeepsIndex(h: Hub, socket: Socket, space: Space)
    requires Indexed(h) && socket in h.states
    ensures Indexed(UnsubscribeStep(h, socket, space))
  {
    if space in h.states[socket].subscriptions {
      RemovalKeepsIndex(h, UnsubscribeStep(h, socket, space), socket, {space});
    }
  }

  lemma CleanupKeepsIndex(h: Hub, socket: Socket)
    requires Indexed(h) && socket in h.states
    ensures Indexed(CleanupStep(h, socket))
  {
    if socket in h.connections {
      RemovalKeepsIndex(h, CleanupStep(h, socket), socket, h.states[socket].subscriptions);
    }
  }

  lemma ConnectKeepsIndex(h: Hub, request: Request, socket: Socket)
    requires Indexed(h) && socket !in h.states
    ensures Indexed(ConnectStep(h, request, socket))
  {
    var h' := ConnectStep(h, request, socket);
    if h' != h {
      TotalUpdate(SubscriptionSizes(h), socket, 0);
      assert SubscriptionSizes(h)[socket := 0] == SubscriptionSizes(h');
      forall k, space ensures Mirrors(h', k, space) {
        assert Mirrors(h, k, space);
      }
    }
  }

  /** Requests, handlers and draining are no part of the index. */
  lemma WaitingIsUnindexed(h: Hub, pending: map<Request, Pending>, subscribing: multiset<Handler>, draining: bool)
    requires Indexed(h)
    ensures Indexed(h.(pending := pending, subscribing := subscribing, draining := draining))
  {
    var h' := h.(pending := pending, subscribing := subscribing, draining := draining);
    assert SubscriptionSizes(h') == SubscriptionSizes(h);
    forall k, space ensures Mirrors(h', k, space) {
      assert Mirrors(h, k, space);
    }
  }

  /** Events that index or unindex a socket. */
  predicate IsIndexing(e: Event) { e.Connect? || e.Subscribe? || e.Unsubscribe? || e.Cleanup? }

  lemma IndexingKeepsIndex(limits: Limits, h: Hub, e: Event)
    requires Indexed(h) && Legal(h, e) && IsIndexing(e)
    ensures Indexed(Step(limits, h, e))
  {
    hide AdmitStep, BeginStep, DeliverStep, SendStep, SettleStep, RememberStep;
    hide ConnectStep, SubscribeStep, UnsubscribeStep, CleanupStep, Indexed;
    match e {
      case Connect(request, socket) => ConnectKeepsIndex(h, request, socket);
      case Subscribe(socket, space) =>
        WaitingIsUnindexed(h, h.pending, Done(h, socket, space).subscribing, h.draining);
        SubscribeKeepsIndex(Done(h, socket, space), socket, space);
      case Unsubscribe(socket, space) => UnsubscribeKeepsIndex(h, socket, space);
      case Cleanup(socket) => CleanupKeepsIndex(h, socket);
    }
  }

  /** Events around a subscription that touch none. */
  predicate IsWaiting(e: Event) { e.Admit? || e.Expire? || e.BeginSubscribe? || e.AbandonSubscribe? || e.Drain? }

  lemma WaitingKeepsSubscriptions(limits: Limits, h: Hub, e: Event)
    requires Legal(h, e) && IsWaiting(e)
    ensures var h' := Step(limits, h, e);
            h' == h.(pending := h'.pending, subscribing := h'.subscribing, draining := h'.draining)
  {
    hide HasCapacity, DeliverStep, SendStep, SettleStep, RememberStep, ConnectStep, SubscribeStep, UnsubscribeStep, CleanupStep;
  }

  /** In every reachable state before `close`, whatever the interleaving. */
  lemma IndexStep(limits: Limits, h: Hub, e: Event)
    requires Indexed(h) && Owned(h) && Legal(h, e) && !e.Finish?
    ensures Indexed(Step(limits, h, e))
  {
    hide Step, Indexed, Legal, Owned;
    if IsTraffic(e) {
      TrafficKeepsSockets(limits, h, e);
      SameIndex(h, Step(limits, h, e));
    } else if IsIndexing(e) {
      IndexingKeepsIndex(limits, h, e);
    } else {
      assert IsWaiting(e);
      WaitingKeepsSubscriptions(limits, h, e);
      var h' := Step(limits, h, e);
      WaitingIsUnindexed(h, h'.pending, h'.subscribing, h'.draining);
    }
  }

  /** `deliver` reaches exactly the registered sockets whose own set holds the space and that take the message. */
  lemma TargetsAreSubscribed(limits: Limits, h: Hub, e: Event)
    requires Indexed(h) && Owned(h) && e.Deliver?
    ensures forall k :: k in Targets(limits, h, e) <==>
              k in h.connections && e.space in h.states[k].subscriptions
              && k in e.answers && e.answers[k].Ready?
              && e.answers[k].buffered + h.states[k].outboundBytes + e.bytes <= limits.maxBufferedBytes
  {
    forall k: Socket
      ensures k in SubscribersOf(h, e.space) <==> k in h.states && e.space in h.states[k].subscriptions
    {
      assert Mirrors(h, k, e.space);
    }
  }

  lemma StartsIndexed()
    ensures Indexed(EMPTY)
  {
    assert SubscriptionSizes(EMPTY) == map[];
  }
}
