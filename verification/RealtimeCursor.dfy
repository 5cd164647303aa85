/** The client's end of the sequence protocol: duplicates are refused, gaps are reported. */
module RealtimeCursor {

  const MAXIMUM_SEEN_EVENT_IDS: nat := 2_048

  /** The last `n` elements. */
  function Last<T>(s: seq<T>, n: nat): seq<T>
  {
    if |s| <= n then s else s[|s| - n..]
  }

  datatype CursorState = CursorState(sequence: nat, seen: seq<string>)

  datatype Verdict = Verdict(accepted: bool, gap: bool)

  const FRESH := CursorState(0, [])

  function AfterDelivery(c: CursorState, eventId: string, sequence: nat): CursorState
  {
    if eventId in c.seen then c
    else CursorState(if sequence > c.sequence then sequence else c.sequence, Last(c.seen + [eventId], MAXIMUM_SEEN_EVENT_IDS))
  }

  function Judge(c: CursorState, eventId: string, sequence: nat): Verdict
  {
    if eventId in c.seen then Verdict(false, false)
    else Verdict(true, c.sequence > 0 && sequence != c.sequence + 1)
  }

  class Cursor {
    var sequence: nat
    var seenEventIds: seq<string>

    ghost function State(): CursorState
      reads this
    {
      CursorState(sequence, seenEventIds)
    }

    constructor ()
      ensures State() == FRESH
    {
      sequence, seenEventIds := 0, [];
    }

    method AcceptDelivery(eventId: string, number: nat) returns (accepted: bool, gap: bool)
      modifies this
      ensures Verdict(accepted, gap) == Judge(old(State()), eventId, number)
      ensures State() == AfterDelivery(old(State()), eventId, number)
      ensures accepted <==> eventId !in old(seenEventIds)
      ensures !accepted ==> !gap && State() == old(State())
    {
      if eventId in seenEventIds { return false, false; }
      gap := sequence > 0 && number != sequence + 1;
      if number > sequence { sequence := number; }
      seenEventIds := seenEventIds + [eventId];
      ghost var all, reached := seenEventIds, sequence;
      while |seenEventIds| > MAXIMUM_SEEN_EVENT_IDS
        invariant sequence == reached
        invariant |seenEventIds| <= |all| && seenEventIds == all[|all| - |seenEventIds|..]
        invariant |all| > MAXIMUM_SEEN_EVENT_IDS ==> |seenEventIds| >= MAXIMUM_SEEN_EVENT_IDS
        invariant |all| <= MAXIMUM_SEEN_EVENT_IDS ==> seenEventIds == all
      {
        seenEventIds := seenEventIds[1..];
      }
      accepted := true;
    }
  }

  datatype Message = Message(eventId: string, sequence: nat)

  /** The verdicts on a list of messages, in order. */
  function Verdicts(c: CursorState, messages: seq<Message>): (v: seq<Verdict>)
    ensures |v| == |messages|
    decreases |messages|
  {
    if messages == [] then []
    else [Judge(c, messages[0].eventId, messages[0].sequence)]
         + Verdicts(AfterDelivery(c, messages[0].eventId, messages[0].sequence), messages[1..])
  }

  ghost predicate Increasing(indices: seq<nat>)
  {
    forall i, j :: 0 <= i < j < |indices| ==> indices[i] < indices[j]
  }

  /** The messages at some of the places of a sent list. */
  function Received(sent: seq<Message>, indices: seq<nat>): (r: seq<Message>)
    requires forall i :: 0 <= i < |indices| ==> indices[i] < |sent|
    ensures |r| == |indices|
  {
    seq(|indices|, i requires 0 <= i < |indices| => sent[indices[i]])
  }

  ghost predicate DistinctIds(messages: seq<Message>)
  {
    forall i, j :: 0 <= i < j < |messages| ==> messages[i].eventId != messages[j].eventId
  }

  ghost predicate Unseen(c: CursorState, messages: seq<Message>)
  {
    forall i :: 0 <= i < |messages| ==> messages[i].eventId !in c.seen
  }

  lemma OthersStayUnseen(c: CursorState, messages: seq<Message>)
    requires |messages| > 0 && DistinctIds(messages) && Unseen(c, messages)
    ensures Unseen(AfterDelivery(c, messages[0].eventId, messages[0].sequence), messages[1..])
  {
  }

  /** From a cursor that stands at some place of the sent list. */
  lemma {:induction false} GapsFrom(c: CursorState, sent: seq<Message>, base: nat, indices: seq<nat>, k: nat, at: nat)
    requires forall i :: 0 <= i < |sent| ==> sent[i].sequence == base + 1 + i
    requires forall i :: 0 <= i < |indices| ==> indices[i] < |sent|
    requires Increasing(indices) && DistinctIds(Received(sent, indices))
    requires Unseen(c, Received(sent, indices))
    requires |indices| > 0 ==> indices[0] > at
    requires c.sequence == base + 1 + at && k < |indices|
    ensures var v := Verdicts(c, Received(sent, indices))[k];
            v.accepted && (v.gap <==> indices[k] != (if k == 0 then at else indices[k - 1]) + 1)
    decreases |indices|
  {
    var r := Received(sent, indices);
    if k > 0 {
      var c' := AfterDelivery(c, r[0].eventId, r[0].sequence);
      assert Received(sent, indices[1..]) == r[1..];
      OthersStayUnseen(c, r);
      GapsFrom(c', sent, base, indices[1..], k - 1, indices[0]);
    }
  }

  /**
   A fresh client that receives any in-order selection of consecutively numbered, distinct
   events accepts all of them, and is told of a gap exactly where it missed one since its
   previous delivery.
   */
  lemma GapsAreExact(sent: seq<Message>, base: nat, indices: seq<nat>, k: nat)
    requires forall i :: 0 <= i < |sent| ==> sent[i].sequence == base + 1 + i
    requires forall i :: 0 <= i < |indices| ==> indices[i] < |sent|
    requires Increasing(indices) && DistinctIds(Received(sent, indices)) && k < |indices|
    ensures var v := Verdicts(FRESH, Received(sent, indices))[k];
            v.accepted && (v.gap <==> k > 0 && indices[k] != indices[k - 1] + 1)
  {
    var r := Received(sent, indices);
    if k > 0 {
      var c := AfterDelivery(FRESH, r[0].eventId, r[0].sequence);
      OthersStayUnseen(FRESH, r);
      assert Received(sent, indices[1..]) == r[1..];
      GapsFrom(c, sent, base, indices[1..], k - 1, indices[0]);
    }
  }

  // ----- lists with repeated events -----

  /** The cursor after a list of messages. */
  function CursorAfter(c: CursorState, messages: seq<Message>): CursorState
    decreases |messages|
  {
    if messages == [] then c else CursorAfter(AfterDelivery(c, messages[0].eventId, messages[0].sequence), messages[1..])
  }

  /** The messages whose verdict says so, in order. */
  function Accepted(messages: seq<Message>, verdicts: seq<Verdict>): seq<Message>
    requires |verdicts| == |messages|
    decreases |messages|
  {
    if messages == [] then []
    else (if verdicts[0].accepted then [messages[0]] else []) + Accepted(messages[1..], verdicts[1..])
  }

  /** One of the last 2,048 accepted messages has the id. */
  predicate IsRecent(accepted: seq<Message>, eventId: string)
  {
    exists i :: 0 <= i < |accepted| && |accepted| - i <= 2_048 && accepted[i].eventId == eventId
  }

  /** The highest accepted number, 0 without any. */
  ghost predicate IsHighest(accepted: seq<Message>, sequence: nat)
  {
    && (forall i :: 0 <= i < |accepted| ==> accepted[i].sequence <= sequence)
    && (sequence > 0 ==> exists i :: 0 <= i < |accepted| && accepted[i].sequence == sequence)
  }

  /** What a cursor remembers of the messages it accepted. */
  ghost predicate Remembers(c: CursorState, accepted: seq<Message>)
  {
    && IsHighest(accepted, c.sequence)
    && |c.seen| == (if |accepted| <= 2_048 then |accepted| else 2_048)
    && forall i :: 0 <= i < |c.seen| ==> c.seen[i] == accepted[|accepted| - |c.seen| + i].eventId
  }

  lemma SeenAreRecent(c: CursorState, accepted: seq<Message>, eventId: string)
    requires Remembers(c, accepted)
    ensures eventId in c.seen <==> IsRecent(accepted, eventId)
  {
    var cut := |accepted| - |c.seen|;
    if IsRecent(accepted, eventId) {
      var i :| 0 <= i < |accepted| && |accepted| - i <= 2_048 && accepted[i].eventId == eventId;
      assert c.seen[i - cut] == eventId;
    }
  }

  /** An accepted message is remembered, a refused one is not. */
  lemma DeliveryIsRemembered(c: CursorState, accepted: seq<Message>, m: Message)
    requires Remembers(c, accepted)
    ensures var c' := AfterDelivery(c, m.eventId, m.sequence);
            if IsRecent(accepted, m.eventId) then c' == c else Remembers(c', accepted + [m])
  {
    SeenAreRecent(c, accepted, m.eventId);
    if !IsRecent(accepted, m.eventId) {
      var c' := AfterDelivery(c, m.eventId, m.sequence);
      HighestGrows(accepted, c.sequence, m);
      var all := c.seen + [m.eventId];
      var cut := |all| - |c'.seen|;
      assert forall i :: 0 <= i < |c'.seen| ==> c'.seen[i] == all[cut + i];
    }
  }

  lemma HighestGrows(accepted: seq<Message>, sequence: nat, m: Message)
    requires IsHighest(accepted, sequence)
    ensures IsHighest(accepted + [m], if m.sequence > sequence then m.sequence else sequence)
  {
    var more := accepted + [m];
    assert more[|accepted|] == m;
    if sequence > 0 {
      var i :| 0 <= i < |accepted| && accepted[i].sequence == sequence;
      assert more[i].sequence == sequence;
    }
  }

  /** From a cursor with a history: the verdict on the message at one place. */
  lemma {:induction false} VerdictFrom(c: CursorState, before: seq<Message>, messages: seq<Message>, k: nat)
    requires Remembers(c, before) && k < |messages|
    ensures var v := Verdicts(c, messages);
            var accepted := before + Accepted(messages[..k], v[..k]);
            var at := CursorAfter(c, messages[..k]);
            && Remembers(at, accepted)
            && (v[k].accepted <==> !IsRecent(accepted, messages[k].eventId))
            && (v[k].gap <==> v[k].accepted && at.sequence > 0 && messages[k].sequence != at.sequence + 1)
    decreases k
  {
    hide Remembers, IsRecent;
    var v := Verdicts(c, messages);
    if k == 0 {
      assert messages[..0] == [] && v[..0] == [] && before + [] == before;
      SeenAreRecent(c, before, messages[0].eventId);
    } else {
      var m, rest := messages[0], messages[1..];
      SeenAreRecent(c, before, m.eventId);
      DeliveryIsRemembered(c, before, m);
      var first := if v[0].accepted then [m] else [];
      assert before + [] == before;
      VerdictFrom(AfterDelivery(c, m.eventId, m.sequence), before + first, rest, k - 1);
      assert messages[..k][1..] == rest[..k - 1] && v[..k][1..] == v[1..][..k - 1];
      var later := Accepted(rest[..k - 1], v[1..][..k - 1]);
      assert before + (first + later) == before + first + later;
    }
  }

  /**
   Over any list, with repeats in any order: a fresh client refuses an event exactly while its id is
   among the last 2,048 accepted ones, and reports a gap exactly when an accepted number does not
   follow the highest one accepted so far.
   */
  lemma VerdictsAreExact(messages: seq<Message>, k: nat)
    requires k < |messages|
    ensures var v := Verdicts(FRESH, messages);
            var accepted := Accepted(messages[..k], v[..k]);
            && (v[k].accepted <==> !IsRecent(accepted, messages[k].eventId))
            && exists highest: nat :: IsHighest(accepted, highest)
                 && (v[k].gap <==> v[k].accepted && highest > 0 && messages[k].sequence != highest + 1)
  {
    hide IsRecent, IsHighest;
    assert Remembers(FRESH, []) by { FreshRemembersNothing(); }
    VerdictFrom(FRESH, [], messages, k);
    var v := Verdicts(FRESH, messages);
    assert [] + Accepted(messages[..k], v[..k]) == Accepted(messages[..k], v[..k]);
    assert IsHighest(Accepted(messages[..k], v[..k]), CursorAfter(FRESH, messages[..k]).sequence);
  }

  lemma FreshRemembersNothing()
    ensures Remembers(FRESH, [])
  {
  }

  /** Every id that came is that of an accepted message, as long as none was forgotten. */
  lemma {:induction false} AllAreAccepted(messages: seq<Message>, k: nat)
    requires k <= |messages| && k <= 2_048
    ensures var accepted := Accepted(messages[..k], Verdicts(FRESH, messages)[..k]);
            |accepted| <= k && forall j :: 0 <= j < k ==> IsRecent(accepted, messages[j].eventId)
    decreases k
  {
    if k > 0 {
      var v, n := Verdicts(FRESH, messages), k - 1;
      AllAreAccepted(messages, n);
      VerdictsAreExact(messages, n);
      AcceptedOneMore(messages, v, n);
      hide Accepted, Verdicts, IsRecent;
      var before := Accepted(messages[..n], v[..n]);
      var more := if v[n].accepted then [messages[n]] else [];
      forall j | 0 <= j < k ensures IsRecent(before + more, messages[j].eventId) {
        RecentStays(before, more, messages[j].eventId);
      }
    }
  }

  /** Nothing is forgotten up to 2,048 accepted messages. */
  lemma RecentStays(before: seq<Message>, more: seq<Message>, eventId: string)
    requires |before| + |more| <= 2_048
    ensures IsRecent(before, eventId) || IsRecent(more, eventId) ==> IsRecent(before + more, eventId)
    ensures more != [] ==> IsRecent(before + more, more[0].eventId)
  {
    var all := before + more;
    if IsRecent(before, eventId) {
      var i :| 0 <= i < |before| && |before| - i <= 2_048 && before[i].eventId == eventId;
      assert all[i] == before[i];
    }
    if IsRecent(more, eventId) {
      var i :| 0 <= i < |more| && |more| - i <= 2_048 && more[i].eventId == eventId;
      assert all[|before| + i] == more[i];
    }
    if more != [] { assert all[|before|] == more[0]; }
  }

  lemma {:induction false} AcceptedCame(messages: seq<Message>, v: seq<Verdict>)
    requires |v| == |messages|
    ensures forall m :: m in Accepted(messages, v) ==> m in messages
    decreases |messages|
  {
    if messages != [] {
      AcceptedCame(messages[1..], v[1..]);
      assert messages == [messages[0]] + messages[1..];
    }
  }

  lemma {:induction false} AcceptedOneMore(messages: seq<Message>, v: seq<Verdict>, n: nat)
    requires |v| == |messages| && n < |messages|
    ensures Accepted(messages[..n + 1], v[..n + 1])
            == Accepted(messages[..n], v[..n]) + if v[n].accepted then [messages[n]] else []
    decreases n
  {
    hide Accepted;
    var now, marks := messages[..n + 1], v[..n + 1];
    assert now[1..] == messages[1..][..n] && marks[1..] == v[1..][..n];
    if n == 0 {
      AcceptedUnfolds(now, marks);
      AcceptedNothing(messages[..0], v[..0]);
      AcceptedNothing(now[1..], marks[1..]);
    } else {
      AcceptedOneMore(messages[1..], v[1..], n - 1);
      AcceptedUnfolds(now, marks);
      AcceptedUnfolds(messages[..n], v[..n]);
      assert messages[..n][1..] == messages[1..][..n - 1] && v[..n][1..] == v[1..][..n - 1];
    }
  }

  lemma AcceptedNothing(messages: seq<Message>, v: seq<Verdict>)
    requires |v| == |messages| == 0
    ensures Accepted(messages, v) == []
  {
  }

  lemma AcceptedUnfolds(messages: seq<Message>, v: seq<Verdict>)
    requires |v| == |messages| > 0
    ensures Accepted(messages, v) == (if v[0].accepted then [messages[0]] else []) + Accepted(messages[1..], v[1..])
  {
  }

  /** Among up to 2,048 messages an event is accepted exactly the first time it comes. */
  lemma DuplicatesAreRefused(messages: seq<Message>, k: nat)
    requires |messages| <= 2_048 && k < |messages|
    ensures Verdicts(FRESH, messages)[k].accepted <==> forall j :: 0 <= j < k ==> messages[j].eventId != messages[k].eventId
  {
    var accepted := Accepted(messages[..k], Verdicts(FRESH, messages)[..k]);
    VerdictsAreExact(messages, k);
    AllAreAccepted(messages, k);
    AcceptedCame(messages[..k], Verdicts(FRESH, messages)[..k]);
    if IsRecent(accepted, messages[k].eventId) {
      var i :| 0 <= i < |accepted| && |accepted| - i <= 2_048 && accepted[i].eventId == messages[k].eventId;
      assert accepted[i] in messages[..k];
      var j :| 0 <= j < k && messages[..k][j] == accepted[i];
      assert messages[j].eventId == messages[k].eventId;
    }
  }
}
