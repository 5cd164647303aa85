/**
 The state of the realtime hub and what each span between two awaits does to it.
 Any interleaving of handlers is a sequence of such events.
 */
module RealtimeHub {
  const SEEN_EVENTS: nat := 10_000

  type Socket = nat
  type Request = nat
  type Space = string
  type EventId = string

  datatype Limits = Limits(
    maxConnections: nat, maxConnectionsPerAccount: nat, maxConnectionsPerAddress: nat,
    maxSubscriptions: nat, maxBufferedBytes: nat)

  function MaxSequenceStates(limits: Limits): (n: nat)
    ensures n >= 1
  {
    var product := limits.maxConnections * limits.maxSubscriptions;
    var atLeastOne := if product < 1 then 1 else product;
    if atLeastOne > 100_000 then 100_000 else atLeastOne
  }

  datatype Pending = Pending(actorId: string, address: string)

  /** The state object of one socket; handlers keep it after the socket left `connections`. */
  datatype ConnectionState = ConnectionState(
    actorId: string, address: string, subscriptions: set<Space>, outboundBytes: nat, serial: nat)

  /** A send whose callback has not fired yet. */
  datatype SendId = SendId(socket: Socket, serial: nat)

  /** A subscribe handler between its limit check and the end of its awaits. */
  datatype Handler = Handler(socket: Socket, space: Space)

  datatype Counter = Counter(space: Space, sequence: nat)

  /** One run of `deliver` past the duplicate check: its place among the accepted ids, its number, its receivers. */
  datatype Delivery = Delivery(space: Space, eventId: EventId, index: nat, sequence: nat, targets: set<Socket>)

  datatype Hub = Hub(
    draining: bool,
    closed: bool,
    pending: map<Request, Pending>,
    connections: set<Socket>,
    states: map<Socket, ConnectionState>,
    subscribing: multiset<Handler>,
    subscribersBySpace: map<Space, set<Socket>>,
    subscriptionCount: nat,
    sequences: seq<Counter>,
    seenEvents: seq<EventId>,
    outboundQueueBytes: nat,
    queuedMessages: nat,
    queuedBytes: nat,
    unsettled: map<SendId, nat>,
    accepted: seq<EventId>,
    deliveries: seq<Delivery>)

  const EMPTY := Hub(false, false, map[], {}, map[], multiset{}, map[], 0, [], [], 0, 0, 0, map[], [], [])

  /** How a socket answers a send: whether it is open, what it has buffered, whether `send` throws. */
  datatype Readiness = NotOpen | Ready(buffered: nat) | Throws(buffered: nat)

  datatype Event =
    | Admit(request: Request, actorId: string, address: string)
    | Expire(request: Request)
    | Connect(request: Request, socket: Socket)
    | BeginSubscribe(socket: Socket, space: Space)
    | AbandonSubscribe(socket: Socket, space: Space)
    | Subscribe(socket: Socket, space: Space)
    | Unsubscribe(socket: Socket, space: Space)
    | Cleanup(socket: Socket)
    | Send(socket: Socket, bytes: nat, readiness: Readiness)
    | Settle(id: SendId)
    | Remember(eventId: EventId)
    | Deliver(space: Space, eventId: EventId, bytes: nat, answers: map<Socket, Readiness>)
    | Drain
    | Finish

  /**
   A socket object emits `connection` once, handlers exist only for sockets that did, and
   a subscribe handler resumes only after it began.
   */
  predicate Legal(h: Hub, e: Event)
  {
    match e
    case Connect(_, socket) => socket !in h.states
    case BeginSubscribe(socket, _) => socket in h.states
    case Subscribe(socket, space) => socket in h.states && Handler(socket, space) in h.subscribing
    case Unsubscribe(socket, _) => socket in h.states
    case Cleanup(socket) => socket in h.states
    case Send(socket, _, _) => socket in h.states
    case _ => true
  }

  // ----- admission -----

  function PendingFrom(h: Hub, address: string): set<Request>
  {
    set r | r in h.pending && h.pending[r].address == address
  }

  function ConnectedFrom(h: Hub, address: string): set<Socket>
  {
    set k | k in h.connections && k in h.states && h.states[k].address == address
  }

  function PendingOf(h: Hub, actorId: string): set<Request>
  {
    set r | r in h.pending && h.pending[r].actorId == actorId
  }

  function ConnectedOf(h: Hub, actorId: string): set<Socket>
  {
    set k | k in h.connections && k in h.states && h.states[k].actorId == actorId
  }

  predicate HasCapacity(limits: Limits, h: Hub, actorId: string, address: string)
  {
    && |h.connections| + |h.pending| < limits.maxConnections
    && |ConnectedFrom(h, address)| + |PendingFrom(h, address)| < limits.maxConnectionsPerAddress
    && |ConnectedOf(h, actorId)| + |PendingOf(h, actorId)| < limits.maxConnectionsPerAccount
  }

  // ----- subscriptions -----

  function SubscribersOf(h: Hub, space: Space): set<Socket>
  {
    if space in h.subscribersBySpace then h.subscribersBySpace[space] else {}
  }

  /** The index without one socket in some spaces; a space that empties disappears. */
  function WithoutSubscriber(index: map<Space, set<Socket>>, socket: Socket, spaces: set<Space>): map<Space, set<Socket>>
  {
    map space | space in index && !(space in spaces && index[space] - {socket} == {}) ::
      if space in spaces then index[space] - {socket} else index[space]
  }

  // ----- sends -----

  predicate Accepts(limits: Limits, st: ConnectionState, bytes: nat, r: Readiness)
  {
    r.Ready? && r.buffered + st.outboundBytes + bytes <= limits.maxBufferedBytes
  }

  /** The sends that are queued; a send that throws is settled at once and leaves no trace. */
  function Enqueue(h: Hub, sockets: set<Socket>, bytes: nat): Hub
    requires sockets <= h.states.Keys
  {
    h.(states := map k | k in h.states ::
         if k in sockets then h.states[k].(outboundBytes := h.states[k].outboundBytes + bytes, serial := h.states[k].serial + 1)
         else h.states[k],
       outboundQueueBytes := h.outboundQueueBytes + |sockets| * bytes,
       queuedMessages := h.queuedMessages + |sockets|,
       queuedBytes := h.queuedBytes + |sockets| * bytes,
       unsettled := h.unsettled + map k | k in Fresh(h, sockets) :: bytes)
  }

  function Fresh(h: Hub, sockets: set<Socket>): set<SendId>
    requires sockets <= h.states.Keys
  {
    set k | k in sockets :: SendId(k, h.states[k].serial)
  }

  function Min(a: nat, b: nat): nat { if a <= b then a else b }

  /** `Math.max(0, a - b)`. */
  function Minus(a: nat, b: nat): nat { if a >= b then a - b else 0 }

  // ----- duplicates and sequences -----

  /** An insertion-ordered set that drops its oldest member when it grows past the bound. */
  function Window(seen: seq<EventId>, eventId: EventId): seq<EventId>
  {
    var longer := seen + [eventId];
    if |longer| > SEEN_EVENTS then longer[1..] else longer
  }

  function CounterOf(sequences: seq<Counter>, space: Space): nat
  {
    if sequences == [] then 0
    else if sequences[0].space == space then sequences[0].sequence
    else CounterOf(sequences[1..], space)
  }

  function DropSpace(sequences: seq<Counter>, space: Space): seq<Counter>
  {
    if sequences == [] then []
    else if sequences[0].space == space then sequences[1..]
    else [sequences[0]] + DropSpace(sequences[1..], space)
  }

  /** The first space without subscribers goes, or the oldest when all have some. */
  function Evict(sequences: seq<Counter>, subscribed: set<Space>): seq<Counter>
  {
    if exists i :: 0 <= i < |sequences| && sequences[i].space !in subscribed
    then DropFirstOutside(sequences, subscribed)
    else if sequences == [] then [] else sequences[1..]
  }

  function DropFirstOutside(sequences: seq<Counter>, subscribed: set<Space>): seq<Counter>
  {
    if sequences == [] then []
    else if sequences[0].space !in subscribed then sequences[1..]
    else [sequences[0]] + DropFirstOutside(sequences[1..], subscribed)
  }

  function Advance(limits: Limits, h: Hub, space: Space): seq<Counter>
  {
    var moved := DropSpace(h.sequences, space) + [Counter(space, CounterOf(h.sequences, space) + 1)];
    if |moved| > MaxSequenceStates(limits) then Evict(moved, h.subscribersBySpace.Keys) else moved
  }

  /** The registered sockets of a space that take the message now. */
  function Targets(limits: Limits, h: Hub, e: Event): set<Socket>
    requires e.Deliver?
  {
    set k | k in SubscribersOf(h, e.space) && k in h.connections && k in h.states && k in e.answers
            && Accepts(limits, h.states[k], e.bytes, e.answers[k])
  }

  // ----- the events -----

  function AdmitStep(limits: Limits, h: Hub, request: Request, actorId: string, address: string): Hub
  {
    if !h.draining && HasCapacity(limits, h, actorId, address)
    then h.(pending := h.pending[request := Pending(actorId, address)]) else h
  }

  function ConnectStep(h: Hub, request: Request, socket: Socket): Hub
  {
    if request !in h.pending then h
    else
      var p := h.pending[request];
      h.(pending := h.pending - {request}, connections := h.connections + {socket},
         states := h.states[socket := ConnectionState(p.actorId, p.address, {}, 0, 0)])
  }

  /** The limit check, before the handler's awaits. */
  function BeginStep(limits: Limits, h: Hub, socket: Socket, space: Space): Hub
    requires socket in h.states
  {
    var st := h.states[socket];
    if h.draining || (space !in st.subscriptions && |st.subscriptions| >= limits.maxSubscriptions) then h
    else h.(subscribing := h.subscribing + multiset{Handler(socket, space)})
  }

  /** The handler is over. */
  function Done(h: Hub, socket: Socket, space: Space): Hub
  {
    h.(subscribing := h.subscribing - multiset{Handler(socket, space)})
  }

  function SubscribeStep(h: Hub, socket: Socket, space: Space): Hub
    requires socket in h.states
  {
    var st := h.states[socket];
    if space in st.subscriptions then h
    else h.(states := h.states[socket := st.(subscriptions := st.subscriptions + {space})],
            subscribersBySpace := h.subscribersBySpace[space := SubscribersOf(h, space) + {socket}],
            subscriptionCount := h.subscriptionCount + 1)
  }

  function UnsubscribeStep(h: Hub, socket: Socket, space: Space): Hub
    requires socket in h.states
  {
    var st := h.states[socket];
    if space !in st.subscriptions then h
    else h.(states := h.states[socket := st.(subscriptions := st.subscriptions - {space})],
            subscribersBySpace := WithoutSubscriber(h.subscribersBySpace, socket, {space}),
            subscriptionCount := Minus(h.subscriptionCount, 1))
  }

  function CleanupStep(h: Hub, socket: Socket): Hub
    requires socket in h.states
  {
    var st := h.states[socket];
    if socket !in h.connections then h
    else h.(connections := h.connections - {socket},
            states := h.states[socket := st.(subscriptions := {}, outboundBytes := 0)],
            subscribersBySpace := WithoutSubscriber(h.subscribersBySpace, socket, st.subscriptions),
            subscriptionCount := Minus(h.subscriptionCount, |st.subscriptions|),
            outboundQueueBytes := Minus(h.outboundQueueBytes, st.outboundBytes))
  }

  function SendStep(limits: Limits, h: Hub, socket: Socket, bytes: nat, readiness: Readiness): Hub
    requires socket in h.states
  {
    if Accepts(limits, h.states[socket], bytes, readiness) then Enqueue(h, {socket}, bytes) else h
  }

  function SettleStep(h: Hub, id: SendId): Hub
  {
    if id !in h.unsettled || id.socket !in h.states then h
    else
      var bytes, st := h.unsettled[id], h.states[id.socket];
      var released := Min(bytes, st.outboundBytes);
      h.(states := h.states[id.socket := st.(outboundBytes := st.outboundBytes - released)],
         outboundQueueBytes := Minus(h.outboundQueueBytes, released),
         queuedMessages := Minus(h.queuedMessages, 1),
         queuedBytes := Minus(h.queuedBytes, bytes),
         unsettled := h.unsettled - {id})
  }

  function RememberStep(h: Hub, eventId: EventId): Hub
  {
    if eventId in h.seenEvents then h
    else h.(seenEvents := Window(h.seenEvents, eventId), accepted := h.accepted + [eventId])
  }

  /** A delivery past the duplicate check takes its number and its log entry. */
  function Numbered(limits: Limits, h: Hub, e: Event): Hub
    requires e.Deliver?
  {
    RememberStep(h, e.eventId).(
      sequences := Advance(limits, h, e.space),
      deliveries := h.deliveries +
        [Delivery(e.space, e.eventId, |h.accepted|, CounterOf(h.sequences, e.space) + 1, Targets(limits, h, e))])
  }

  function DeliverStep(limits: Limits, h: Hub, e: Event): Hub
    requires e.Deliver?
  {
    if e.eventId in h.seenEvents then h
    else Enqueue(Numbered(limits, h, e), Targets(limits, h, e), e.bytes)
  }

  function Step(limits: Limits, h: Hub, e: Event): Hub
    requires Legal(h, e)
  {
    match e
    case Admit(request, actorId, address) => AdmitStep(limits, h, request, actorId, address)
    case Expire(request) => h.(pending := h.pending - {request})
    case Connect(request, socket) => ConnectStep(h, request, socket)
    case BeginSubscribe(socket, space) => BeginStep(limits, h, socket, space)
    case AbandonSubscribe(socket, space) => Done(h, socket, space)
    case Subscribe(socket, space) => SubscribeStep(Done(h, socket, space), socket, space)
    case Unsubscribe(socket, space) => UnsubscribeStep(h, socket, space)
    case Cleanup(socket) => CleanupStep(h, socket)
    case Send(socket, bytes, readiness) => SendStep(limits, h, socket, bytes, readiness)
    case Settle(id) => SettleStep(h, id)
    case Remember(eventId) => RememberStep(h, eventId)
    case Deliver(_, _, _, _) => DeliverStep(limits, h, e)
    case Drain => h.(draining := true, pending := map[])
    case Finish => h.(closed := true, connections := {}, subscribersBySpace := map[], subscriptionCount := 0)
  }

  /** A run from a fresh hub: any legal sequence of events. */
  ghost predicate Runs(limits: Limits, h: Hub, events: seq<Event>)
    decreases |events|
  {
    events == [] || (Legal(h, events[0]) && Runs(limits, Step(limits, h, events[0]), events[1..]))
  }

  function After(limits: Limits, h: Hub, events: seq<Event>): Hub
    requires Runs(limits, h, events)
    decreases |events|
  {
    if events == [] then h else After(limits, Step(limits, h, events[0]), events[1..])
  }
}
