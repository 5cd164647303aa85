/**
 Deliveries over whole runs: each event id at most once within a window of accepted ids,
 consecutive numbers for a space that stays subscribed, and exact gap reports at the client.
 */
module HubDelivery {
  import opened RealtimeHub
  import opened RealtimeCursor

  // ----- the duplicate window -----

  /** Equal ids are more than a whole window apart. */
  ghost predicate Spaced(accepted: seq<EventId>)
  {
    forall i, j :: 0 <= i < j < |accepted| && accepted[i] == accepted[j] ==> j - i > SEEN_EVENTS
  }

  ghost predicate Logged(h: Hub)
  {
    && (forall i :: 0 <= i < |h.deliveries| ==>
          h.deliveries[i].index < |h.accepted| && h.accepted[h.deliveries[i].index] == h.deliveries[i].eventId)
    && (forall i, j :: 0 <= i < j < |h.deliveries| ==> h.deliveries[i].index < h.deliveries[j].index)
  }

  ghost predicate Deduplicated(h: Hub)
  {
    h.seenEvents == Last(h.accepted, SEEN_EVENTS) && Spaced(h.accepted) && Logged(h)
  }

  /** Accepting an id that the window does not hold keeps equal ids apart. */
  lemma AcceptKeepsWindow(h: Hub, eventId: EventId)
    requires Deduplicated(h) && eventId !in h.seenEvents
    ensures Window(h.seenEvents, eventId) == Last(h.accepted + [eventId], SEEN_EVENTS)
    ensures Spaced(h.accepted + [eventId])
  {
    var n := |h.accepted|;
    forall i | 0 <= i < n ensures n - i <= SEEN_EVENTS ==> h.accepted[i] in h.seenEvents {
      if n - i <= SEEN_EVENTS {
        assert h.seenEvents[i - (n - |h.seenEvents|)] == h.accepted[i];
      }
    }
  }

  /** An id is refused exactly while it is among the last 10,000 accepted ones. */
  lemma RefusedExactly(h: Hub, eventId: EventId)
    requires Deduplicated(h)
    ensures eventId in h.seenEvents <==> exists i :: 0 <= i < |h.accepted| && |h.accepted| - i <= 10_000 && h.accepted[i] == eventId
  {
    hide Spaced, Logged;
    var cut := |h.accepted| - |h.seenEvents|;
    assert forall i :: 0 <= i < |h.seenEvents| ==> h.seenEvents[i] == h.accepted[cut + i];
    if i: int :| 0 <= i < |h.accepted| && |h.accepted| - i <= 10_000 && h.accepted[i] == eventId {
      assert h.seenEvents[i - cut] == eventId;
    }
  }

  /** Events that accept no id leave the log alone. */
  lemma OthersAcceptNothing(limits: Limits, h: Hub, e: Event)
    requires Legal(h, e) && !e.Remember? && !e.Deliver?
    ensures var h' := Step(limits, h, e);
            h'.seenEvents == h.seenEvents && h'.accepted == h.accepted && h'.deliveries == h.deliveries
            && h'.sequences == h.sequences
  {
    hide HasCapacity, WithoutSubscriber, SubscribersOf, Fresh, Accepts, DeliverStep, RememberStep;
  }

  lemma DeduplicatedStep(limits: Limits, h: Hub, e: Event)
    requires Deduplicated(h) && Legal(h, e)
    ensures Deduplicated(Step(limits, h, e))
  {
    hide Window, Advance, Targets, CounterOf, Spaced, HasCapacity, Fresh, WithoutSubscriber;
    if e.Remember? {
      if e.eventId !in h.seenEvents { AcceptKeepsWindow(h, e.eventId); }
    } else if e.Deliver? {
      if e.eventId !in h.seenEvents { AcceptKeepsWindow(h, e.eventId); }
    } else {
      OthersAcceptNothing(limits, h, e);
    }
  }

  /**
   Two deliveries of one event id: each of the 10,000 ids accepted right after the first
   one is another id.
   */
  lemma DeliveredAtMostOncePerWindow(h: Hub, i: nat, j: nat, m: nat)
    requires Deduplicated(h) && i < j < |h.deliveries|
    requires h.deliveries[i].eventId == h.deliveries[j].eventId
    requires h.deliveries[i].index < m <= h.deliveries[i].index + 10_000
    ensures m < h.deliveries[j].index && h.accepted[m] != h.deliveries[i].eventId
  {
    var a, b := h.deliveries[i].index, h.deliveries[j].index;
    assert h.accepted[a] == h.accepted[b] && b - a > SEEN_EVENTS;
    assert h.accepted[a] == h.accepted[m] ==> m - a > SEEN_EVENTS;
  }

  // ----- counters -----

  ghost predicate DistinctSpaces(sequences: seq<Counter>)
  {
    forall i, j :: 0 <= i < j < |sequences| ==> sequences[i].space != sequences[j].space
  }

  ghost predicate Counted(limits: Limits, h: Hub)
  {
    DistinctSpaces(h.sequences) && |h.sequences| <= MaxSequenceStates(limits)
  }

  predicate HasSpace(sequences: seq<Counter>, space: Space)
  {
    exists i :: 0 <= i < |sequences| && sequences[i].space == space
  }

  lemma {:induction false} DropSpaceCounts(sequences: seq<Counter>, space: Space, other: Space)
    requires DistinctSpaces(sequences)
    ensures var d := DropSpace(sequences, space);
            && DistinctSpaces(d) && !HasSpace(d, space) && |d| <= |sequences|
            && (other != space ==> CounterOf(d, other) == CounterOf(sequences, other))
  {
    if sequences != [] && sequences[0].space != space {
      var rest := sequences[1..];
      DropSpaceCounts(rest, space, other);
      var d := DropSpace(rest, space);
      forall i | 0 <= i < |d| ensures d[i].space != sequences[0].space {
        DropSpaceSelects(rest, space, i);
      }
    }
  }

  lemma {:induction false} DropSpaceSelects(sequences: seq<Counter>, space: Space, i: nat)
    requires i < |DropSpace(sequences, space)|
    ensures DropSpace(sequences, space)[i] in sequences
  {
    if sequences[0].space != space && i > 0 {
      DropSpaceSelects(sequences[1..], space, i - 1);
    }
  }

  lemma {:induction false} AppendCounts(sequences: seq<Counter>, c: Counter, other: Space)
    requires !HasSpace(sequences, c.space)
    ensures CounterOf(sequences + [c], other) == if other == c.space then c.sequence else CounterOf(sequences, other)
  {
    if sequences == [] {
      assert sequences + [c] == [c];
    } else {
      var rest := sequences[1..];
      assert (sequences + [c])[1..] == rest + [c];
      assert forall i :: 0 <= i < |rest| ==> rest[i] == sequences[i + 1];
      AppendCounts(rest, c, other);
      assert sequences[0].space != c.space;
    }
  }

  /** Eviction cuts out one entry. */
  lemma {:induction false} DropsOne(sequences: seq<Counter>, subscribed: set<Space>) returns (i: nat)
    requires exists k :: 0 <= k < |sequences| && sequences[k].space !in subscribed
    ensures i < |sequences| && sequences[i].space !in subscribed
    ensures DropFirstOutside(sequences, subscribed) == sequences[..i] + sequences[i + 1..]
  {
    i := 0;
    if sequences[0].space in subscribed {
      var rest := sequences[1..];
      var k :| 0 <= k < |sequences| && sequences[k].space !in subscribed;
      assert rest[k - 1] == sequences[k];
      var j := DropsOne(rest, subscribed);
      i := j + 1;
      assert sequences[..i] == [sequences[0]] + rest[..j];
    }
  }

  lemma {:induction false} CounterWithout(sequences: seq<Counter>, i: nat, space: Space)
    requires i < |sequences| && sequences[i].space != space
    ensures CounterOf(sequences[..i] + sequences[i + 1..], space) == CounterOf(sequences, space)
  {
    var without := sequences[..i] + sequences[i + 1..];
    if i == 0 {
      assert without == sequences[1..];
    } else {
      var rest := sequences[1..];
      CounterWithout(rest, i - 1, space);
      assert without[1..] == rest[..i - 1] + rest[i..];
    }
  }

  /** Evicting a space without subscribers leaves the counters of subscribed ones. */
  lemma DropOutsideCounts(sequences: seq<Counter>, subscribed: set<Space>, space: Space)
    requires DistinctSpaces(sequences) && exists i :: 0 <= i < |sequences| && sequences[i].space !in subscribed
    ensures var d := DropFirstOutside(sequences, subscribed);
            && |d| == |sequences| - 1 && DistinctSpaces(d)
            && (space in subscribed ==> CounterOf(d, space) == CounterOf(sequences, space))
  {
    hide CounterOf, DropFirstOutside;
    var i := DropsOne(sequences, subscribed);
    if space in subscribed {
      CounterWithout(sequences, i, space);
    }
  }

  /** Distinct spaces that are all subscribed are no more than the subscribed ones. */
  lemma {:induction false} Pigeonhole(sequences: seq<Counter>, subscribed: set<Space>)
    requires DistinctSpaces(sequences)
    requires forall i :: 0 <= i < |sequences| ==> sequences[i].space in subscribed
    ensures |sequences| <= |subscribed|
    decreases |sequences|
  {
    if sequences != [] {
      Pigeonhole(sequences[1..], subscribed - {sequences[0].space});
    }
  }

  lemma MovedCounts(h: Hub, space: Space, other: Space)
    requires DistinctSpaces(h.sequences)
    ensures var moved := DropSpace(h.sequences, space) + [Counter(space, CounterOf(h.sequences, space) + 1)];
            && DistinctSpaces(moved) && |moved| <= |h.sequences| + 1
            && CounterOf(moved, other) == CounterOf(h.sequences, other) + (if other == space then 1 else 0)
  {
    var d := DropSpace(h.sequences, space);
    DropSpaceCounts(h.sequences, space, other);
    AppendCounts(d, Counter(space, CounterOf(h.sequences, space) + 1), other);
  }

  /** The table stays bounded, and a subscribed space keeps its counter while the index fits the table. */
  lemma AdvanceCounts(limits: Limits, h: Hub, space: Space, other: Space)
    requires Counted(limits, h)
    ensures var s := Advance(limits, h, space);
            && DistinctSpaces(s) && |s| <= MaxSequenceStates(limits)
            && (other in h.subscribersBySpace && |h.subscribersBySpace| <= MaxSequenceStates(limits) ==>
                  CounterOf(s, other) == CounterOf(h.sequences, other) + (if other == space then 1 else 0))
  {
    hide CounterOf, DropSpace, DropFirstOutside;
    var moved := DropSpace(h.sequences, space) + [Counter(space, CounterOf(h.sequences, space) + 1)];
    MovedCounts(h, space, other);
    if |moved| > MaxSequenceStates(limits) {
      if exists i :: 0 <= i < |moved| && moved[i].space !in h.subscribersBySpace.Keys {
        DropOutsideCounts(moved, h.subscribersBySpace.Keys, other);
      } else {
        Pigeonhole(moved, h.subscribersBySpace.Keys);
        assert |h.subscribersBySpace.Keys| == |h.subscribersBySpace|;
      }
    }
  }

  lemma CountedStep(limits: Limits, h: Hub, e: Event)
    requires Counted(limits, h) && Legal(h, e)
    ensures Counted(limits, Step(limits, h, e))
  {
    hide Advance, Window, Targets, CounterOf, DistinctSpaces, HasCapacity, Fresh, WithoutSubscriber;
    if e.Deliver? {
      AdvanceCounts(limits, h, e.space, e.space);
    } else {
      OthersKeepCounters(limits, h, e);
    }
  }

  lemma OthersKeepCounters(limits: Limits, h: Hub, e: Event)
    requires Legal(h, e) && !e.Deliver?
    ensures Step(limits, h, e).sequences == h.sequences
  {
    if e.Remember? {
    } else {
      OthersAcceptNothing(limits, h, e);
    }
  }

  // ----- numbers over runs -----

  /** The delivery to a space that one event makes, if any. */
  ghost predicate Delivers(h: Hub, e: Event, space: Space)
  {
    e.Deliver? && e.space == space && e.eventId !in h.seenEvents
  }

  /** What a run sends to one space, in order. */
  ghost function Sent(limits: Limits, h: Hub, events: seq<Event>, space: Space): seq<Message>
    requires Runs(limits, h, events)
    decreases |events|
  {
    if events == [] then []
    else
      (if Delivers(h, events[0], space) then [Message(events[0].eventId, CounterOf(h.sequences, space) + 1)] else [])
      + Sent(limits, Step(limits, h, events[0]), events[1..], space)
  }

  /** The space keeps a subscriber, and the index never outgrows the counter table. */
  ghost predicate Watched(limits: Limits, h: Hub, events: seq<Event>, space: Space)
    requires Runs(limits, h, events)
    decreases |events|
  {
    && space in h.subscribersBySpace && |h.subscribersBySpace| <= MaxSequenceStates(limits)
    && (events != [] ==> Watched(limits, Step(limits, h, events[0]), events[1..], space))
  }

  lemma StepCounts(limits: Limits, h: Hub, e: Event, space: Space)
    requires Counted(limits, h) && Legal(h, e)
    requires space in h.subscribersBySpace && |h.subscribersBySpace| <= MaxSequenceStates(limits)
    ensures CounterOf(Step(limits, h, e).sequences, space) ==
            CounterOf(h.sequences, space) + (if Delivers(h, e, space) then 1 else 0)
  {
    hide Advance, Window, Targets, CounterOf, DistinctSpaces, HasCapacity, Fresh, WithoutSubscriber;
    if e.Deliver? {
      AdvanceCounts(limits, h, e.space, space);
    } else {
      OthersKeepCounters(limits, h, e);
    }
  }

  /** The entry that `deliver` logs carries the number that is sent. */
  lemma SentIsLogged(limits: Limits, h: Hub, e: Event, space: Space)
    requires Legal(h, e) && Delivers(h, e, space)
    ensures var d := Step(limits, h, e).deliveries;
            && |d| == |h.deliveries| + 1
            && d[|h.deliveries|] == Delivery(space, e.eventId, |h.accepted|, CounterOf(h.sequences, space) + 1, Targets(limits, h, e))
  {
    hide Advance, Window, Targets, CounterOf, Fresh;
  }

  /** The messages of one space in a delivery log. */
  function LoggedFor(deliveries: seq<Delivery>, space: Space): seq<Message>
  {
    if deliveries == [] then []
    else
      var n := |deliveries| - 1;
      LoggedFor(deliveries[..n], space)
      + if deliveries[n].space == space then [Message(deliveries[n].eventId, deliveries[n].sequence)] else []
  }

  lemma StepLogs(limits: Limits, h: Hub, e: Event, space: Space)
    requires Legal(h, e)
    ensures LoggedFor(Step(limits, h, e).deliveries, space) == LoggedFor(h.deliveries, space)
              + if Delivers(h, e, space) then [Message(e.eventId, CounterOf(h.sequences, space) + 1)] else []
  {
    hide Step, CounterOf;
    if e.Deliver? && e.eventId !in h.seenEvents {
      SentIsLogged(limits, h, e, e.space);
      LogGrows(limits, h, e);
    } else {
      NothingIsLogged(limits, h, e);
    }
  }

  lemma LogGrows(limits: Limits, h: Hub, e: Event)
    requires Legal(h, e) && e.Deliver? && e.eventId !in h.seenEvents
    ensures var d := Step(limits, h, e).deliveries; |d| == |h.deliveries| + 1 && d[..|h.deliveries|] == h.deliveries
  {
    hide Advance, Window, Targets, CounterOf, Fresh;
  }

  lemma NothingIsLogged(limits: Limits, h: Hub, e: Event)
    requires Legal(h, e) && !(e.Deliver? && e.eventId !in h.seenEvents)
    ensures Step(limits, h, e).deliveries == h.deliveries
  {
    hide HasCapacity, WithoutSubscriber, Fresh, Window, Advance, Targets, CounterOf;
  }

  /** What a run sends to a space is what its log gains for the space, in order and number by number. */
  lemma {:induction false} SentAreLogged(limits: Limits, h: Hub, events: seq<Event>, space: Space)
    requires Runs(limits, h, events)
    ensures LoggedFor(After(limits, h, events).deliveries, space)
            == LoggedFor(h.deliveries, space) + Sent(limits, h, events, space)
    decreases |events|
  {
    hide Step, CounterOf, Delivers, LoggedFor;
    if events != [] {
      StepLogs(limits, h, events[0], space);
      SentAreLogged(limits, Step(limits, h, events[0]), events[1..], space);
    }
  }

  /** A space that stays subscribed gets consecutive numbers. */
  lemma {:induction false} NumbersAreConsecutive(limits: Limits, h: Hub, events: seq<Event>, space: Space, i: nat)
    requires Runs(limits, h, events) && Counted(limits, h) && Watched(limits, h, events, space)
    requires i < |Sent(limits, h, events, space)|
    ensures Sent(limits, h, events, space)[i].sequence == CounterOf(h.sequences, space) + 1 + i
    decreases |events|
  {
    hide Step, CounterOf, Delivers;
    var e := events[0];
    StepCounts(limits, h, e, space);
    CountedStep(limits, h, e);
    if Delivers(h, e, space) {
      if i > 0 {
        NumbersAreConsecutive(limits, Step(limits, h, e), events[1..], space, i - 1);
      }
    } else {
      NumbersAreConsecutive(limits, Step(limits, h, e), events[1..], space, i);
    }
  }

  /**
   End to end: while a space stays subscribed, a fresh client that gets any in-order
   selection of distinct events of that space is told of a gap exactly where it missed one.
   */
  lemma GapsAreDetected(limits: Limits, h: Hub, events: seq<Event>, space: Space, indices: seq<nat>, k: nat)
    requires Runs(limits, h, events) && Counted(limits, h) && Watched(limits, h, events, space)
    requires forall i :: 0 <= i < |indices| ==> indices[i] < |Sent(limits, h, events, space)|
    requires Increasing(indices) && DistinctIds(Received(Sent(limits, h, events, space), indices)) && k < |indices|
    ensures var v := Verdicts(FRESH, Received(Sent(limits, h, events, space), indices))[k];
            v.accepted && (v.gap <==> k > 0 && indices[k] != indices[k - 1] + 1)
  {
    var sent := Sent(limits, h, events, space);
    forall i: nat | i < |sent| ensures sent[i].sequence == CounterOf(h.sequences, space) + 1 + i {
      NumbersAreConsecutive(limits, h, events, space, i);
    }
    GapsAreExact(sent, CounterOf(h.sequences, space), indices, k);
  }
}
