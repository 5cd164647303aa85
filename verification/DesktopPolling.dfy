/**
 The client's polls over whole runs: every poll may stop at any item, listings change between
 polls, and the stored checkpoint still only moves forward.
 */
module DesktopPolling {
  import opened Wrappers
  import opened Text
  import opened DesktopNotifications
  import Sorting

  datatype Preference = Preference(enabled: bool, privacyMode: bool, checkpoint: Checkpoint)

  datatype Permission = Granted | Denied | Prompt | Unavailable

  datatype NativeStatus = NativeStatus(supported: bool, permission: Permission)

  datatype Outcome = Accepted | Duplicate | PermissionRequired | RateLimited | DeliveryFailed

  /** What happens at one item; a missing answer is a process that ended there. */
  datatype Answer = Aborted | Throws | Delivered(outcome: Outcome, saved: bool)

  datatype Status = Disabled | Complete | Interrupted | Rejected

  datatype Poll = Poll(preference: Preference, recorded: seq<Position>, status: Status, accepted: nat)

  /** The loop over the offered items: what is stored, and the places whose handling was stored. */
  function Consume(p: Preference, items: seq<Offer>, answers: seq<Answer>): Poll
    decreases |items|
  {
    if items == [] then Poll(p, [], Complete, 0)
    else if answers == [] || answers[0].Throws? then Poll(p, [], Rejected, 0)
    else if answers[0].Aborted? then Poll(p, [], Interrupted, 0)
    else
      match answers[0].outcome
      case PermissionRequired =>
        if answers[0].saved then Poll(p.(enabled := false), [], Interrupted, 0) else Poll(p, [], Rejected, 0)
      case RateLimited => Poll(p, [], Interrupted, 0)
      case DeliveryFailed => Poll(p, [], Interrupted, 0)
      case _ =>
        if !answers[0].saved then Poll(p, [], Rejected, 0)
        else
          var rest := Consume(p.(checkpoint := Some(items[0].at)), items[1..], answers[1..]);
          rest.(recorded := [items[0].at] + rest.recorded, accepted := rest.accepted + if answers[0].outcome.Accepted? then 1 else 0)
  }

  /** A finished loop takes over the page's checkpoint. */
  function Finish(poll: Poll, page: Page, finalSaved: bool): Poll
  {
    if !poll.status.Complete? || poll.preference.checkpoint == page.checkpoint then poll
    else if !finalSaved then poll.(status := Rejected)
    else poll.(preference := poll.preference.(checkpoint := page.checkpoint))
  }

  /** Everything outside the client that decides how one poll goes. */
  datatype World = World(
    native: Option<NativeStatus>, listing: Listing, reachable: bool, now: string, wants: Record -> bool,
    answers: seq<Answer>, statusSaved: bool, finalSaved: bool)

  predicate MayDeliver(s: NativeStatus) { s.supported && s.permission.Granted? }

  predicate IsRefused(s: NativeStatus) { !s.supported || s.permission.Denied? }

  function PageFor(p: Preference, w: World): Page
  {
    Query(w.listing, p.checkpoint, false, w.now, w.wants)
  }

  function PollOnce(p: Preference, w: World): Poll
  {
    if !p.enabled then Poll(p, [], Disabled, 0)
    else if w.native.None? then Poll(p, [], Rejected, 0)
    else if IsRefused(w.native.value) then
      if w.statusSaved then Poll(p.(enabled := false), [], Interrupted, 0) else Poll(p, [], Rejected, 0)
    else if !MayDeliver(w.native.value) then Poll(p, [], Interrupted, 0)
    else if !w.reachable then Poll(p, [], Rejected, 0)
    else Finish(Consume(p, PageFor(p, w).items, w.answers), PageFor(p, w), w.finalSaved)
  }

  predicate IsHandled(a: Answer)
  {
    a.Delivered? && (a.outcome.Accepted? || a.outcome.Duplicate?)
  }

  /** The cases of the loop at one item. */
  lemma ConsumeUnfolds(p: Preference, items: seq<Offer>, answers: seq<Answer>, i: nat)
    requires i <= |items| && i <= |answers|
    ensures var poll := Consume(p, items[i..], answers[i..]);
            if i == |items| then poll == Poll(p, [], Complete, 0)
            else if i == |answers| || answers[i].Throws? then poll == Poll(p, [], Rejected, 0)
            else if answers[i].Aborted? then poll == Poll(p, [], Interrupted, 0)
            else if IsHandled(answers[i]) then
              if !answers[i].saved then poll == Poll(p, [], Rejected, 0)
              else
                var rest := Consume(p.(checkpoint := Some(items[i].at)), items[i + 1..], answers[i + 1..]);
                && poll.preference == rest.preference && poll.recorded == [items[i].at] + rest.recorded
                && poll.status == rest.status
                && poll.accepted == rest.accepted + if answers[i].outcome.Accepted? then 1 else 0
            else if answers[i].outcome.PermissionRequired? then
              poll == if answers[i].saved then Poll(p.(enabled := false), [], Interrupted, 0) else Poll(p, [], Rejected, 0)
            else poll == Poll(p, [], Interrupted, 0)
  {
    if i < |items| { assert items[i..][1..] == items[i + 1..]; }
    if i < |answers| { assert answers[i..][1..] == answers[i + 1..]; }
  }

  class DesktopClient {
    /** The entry in the browser's storage. */
    var stored: Preference
    /** The places whose acceptance reached the storage, oldest first. */
    ghost var recorded: seq<Position>

    constructor (stored: Preference)
      ensures this.stored == stored && recorded == []
    {
      this.stored := stored;
      recorded := [];
    }

    method Poll(w: World) returns (status: Status, accepted: nat)
      modifies this
      ensures var poll := PollOnce(old(stored), w);
              && stored == poll.preference && recorded == old(recorded) + poll.recorded
              && status == poll.status && accepted == poll.accepted
    {
      hide Query, IsRefused, MayDeliver;
      accepted := 0;
      var preference := stored;
      if !preference.enabled { return Disabled, 0; }
      if w.native.None? { return Rejected, 0; }
      if IsRefused(w.native.value) {
        if !w.statusSaved { return Rejected, 0; }
        stored := preference.(enabled := false);
        return Interrupted, 0;
      }
      if !MayDeliver(w.native.value) { return Interrupted, 0; }
      if !w.reachable { return Rejected, 0; }
      var page := QueryDeliveries(w.listing, preference.checkpoint, false, w.now, w.wants);
      status, accepted := HandleItems(page.items, w.answers);
      if !status.Complete? || stored.checkpoint == page.checkpoint { return; }
      if !w.finalSaved { return Rejected, accepted; }
      stored := stored.(checkpoint := page.checkpoint);
    }

    /** The loop over the items; the storage follows each acceptance. */
    method HandleItems(items: seq<Offer>, answers: seq<Answer>) returns (status: Status, accepted: nat)
      modifies this
      ensures var poll := Consume(old(stored), items, answers);
              && stored == poll.preference && recorded == old(recorded) + poll.recorded
              && status == poll.status && accepted == poll.accepted
    {
      hide Consume;
      accepted := 0;
      ghost var added: seq<Position> := [];
      ghost var whole := Consume(stored, items, answers);
      var i := 0;
      assert items[0..] == items && answers[0..] == answers;
      while i < |items|
        invariant 0 <= i <= |items| && i <= |answers|
        invariant recorded == old(recorded) + added
        invariant var rest := Consume(stored, items[i..], answers[i..]);
                  && whole.preference == rest.preference && whole.recorded == added + rest.recorded
                  && whole.status == rest.status && whole.accepted == accepted + rest.accepted
      {
        ConsumeUnfolds(stored, items, answers, i);
        if i == |answers| || answers[i].Throws? { return Rejected, accepted; }
        if answers[i].Aborted? { return Interrupted, accepted; }
        var outcome := answers[i].outcome;
        if !outcome.Accepted? && !outcome.Duplicate? {
          if outcome.PermissionRequired? {
            if !answers[i].saved { return Rejected, accepted; }
            stored := stored.(enabled := false);
          }
          return Interrupted, accepted;
        }
        if !answers[i].saved { return Rejected, accepted; }
        if outcome.Accepted? { accepted := accepted + 1; }
        stored := stored.(checkpoint := Some(items[i].at));
        recorded := recorded + [items[i].at];
        added := added + [items[i].at];
        i := i + 1;
      }
      ConsumeUnfolds(stored, items, answers, i);
      status := Complete;
    }

    /** Switching notifications on takes the server's present as the checkpoint. */
    method Initialize(listing: Listing, now: string, wants: Record -> bool)
      modifies this
      ensures stored == old(stored).(enabled := true, checkpoint := Some(Position(now, MAXIMUM_ID)))
      ensures recorded == old(recorded)
    {
      var page := QueryDeliveries(listing, None, true, now, wants);
      stored := stored.(enabled := true, checkpoint := page.checkpoint);
    }
  }

  // ----- one poll -----

  /** What was recorded ascends and the checkpoint is not before any of it. */
  ghost predicate Progressed(c: Checkpoint, recorded: seq<Position>)
  {
    Ascending(recorded) && forall i :: 0 <= i < |recorded| ==> AtMost(Some(recorded[i]), c)
  }

  /** The loop records a prefix of the items and stops at the last of them. */
  lemma {:induction false} ConsumeRecordsAPrefix(p: Preference, items: seq<Offer>, answers: seq<Answer>)
    ensures var poll := Consume(p, items, answers);
            && |poll.recorded| <= |items| && poll.recorded == OfferPlaces(items)[..|poll.recorded|]
            && poll.preference.checkpoint == (if poll.recorded == [] then p.checkpoint else Some(poll.recorded[|poll.recorded| - 1]))
            && (poll.status.Complete? ==> poll.recorded == OfferPlaces(items))
    decreases |items|
  {
    if items != [] && answers != [] && answers[0].Delivered? && answers[0].saved
       && (answers[0].outcome.Accepted? || answers[0].outcome.Duplicate?) {
      ConsumeRecordsAPrefix(p.(checkpoint := Some(items[0].at)), items[1..], answers[1..]);
      assert OfferPlaces(items) == [items[0].at] + OfferPlaces(items[1..]);
    }
  }

  /** However a poll ends, it moves the checkpoint forward over exactly what it recorded. */
  lemma PollMovesForward(p: Preference, w: World)
    requires DistinctRecords(w.listing.items)
    ensures var poll := PollOnce(p, w);
            && AtMost(p.checkpoint, poll.preference.checkpoint) && Progressed(poll.preference.checkpoint, poll.recorded)
            && forall i :: 0 <= i < |poll.recorded| ==> After(poll.recorded[i], p.checkpoint)
  {
    hide Query, Consume, Precedes, Wanted;
    var page := PageFor(p, w);
    var loop := Consume(p, page.items, w.answers);
    PageIs(w.listing, p.checkpoint, w.now, w.wants);
    ConsumeRecordsAPrefix(p, page.items, w.answers);
    forall i | 0 <= i < |loop.recorded|
      ensures After(loop.recorded[i], p.checkpoint) && AtMost(Some(loop.recorded[i]), loop.preference.checkpoint)
              && AtMost(Some(loop.recorded[i]), page.checkpoint)
    {
      assert page.items[i] in page.items && loop.recorded[i] == OfferPlaces(page.items)[i];
    }
    assert AtMost(p.checkpoint, loop.preference.checkpoint);
  }

  /**
   A poll that completes without overflow has handled every record that is newer than the
   checkpoint and that the server does not filter, and the checkpoint covers the whole listing.
   */
  lemma CompletePollOffersAll(p: Preference, w: World)
    requires DistinctRecords(w.listing.items)
    requires PollOnce(p, w).status.Complete? && !PageFor(p, w).overflow
    ensures !w.listing.more
    ensures forall r :: r in w.listing.items && After(At(r), p.checkpoint) && Wanted(r, w.now, w.wants) ==>
              At(r) in PollOnce(p, w).recorded
    ensures forall r :: r in w.listing.items ==> AtMost(Some(At(r)), PollOnce(p, w).preference.checkpoint)
  {
    hide Query, Consume, Precedes, Wanted;
    var page := PageFor(p, w);
    PageIs(w.listing, p.checkpoint, w.now, w.wants);
    ConsumeRecordsAPrefix(p, page.items, w.answers);
    forall r | r in w.listing.items && After(At(r), p.checkpoint) && Wanted(r, w.now, w.wants)
      ensures At(r) in OfferPlaces(page.items)
    {
      var i :| 0 <= i < |page.items| && page.items[i] == OfferOf(r);
      assert OfferPlaces(page.items)[i] == At(r);
    }
  }

  /** The poll gets as far as a page. */
  predicate GetsPage(p: Preference, w: World)
  {
    p.enabled && w.native.Some? && MayDeliver(w.native.value) && w.reachable
  }

  /**
   However a poll without overflow ends, its checkpoint covers a wanted newer record exactly when
   the record's place was recorded.
   */
  lemma CoveredIsRecorded(p: Preference, w: World, r: Record)
    requires DistinctRecords(w.listing.items) && (GetsPage(p, w) ==> !PageFor(p, w).overflow)
    requires r in w.listing.items && After(At(r), p.checkpoint) && Wanted(r, w.now, w.wants)
    ensures AtMost(Some(At(r)), PollOnce(p, w).preference.checkpoint) <==> At(r) in PollOnce(p, w).recorded
  {
    hide Query, Consume, Precedes, Wanted;
    PollMovesForward(p, w);
    if p.checkpoint.Some? { PrecedesIsTotal(p.checkpoint.value, At(r)); }
    if GetsPage(p, w) {
      var page := PageFor(p, w);
      PageIs(w.listing, p.checkpoint, w.now, w.wants);
      ConsumeRecordsAPrefix(p, page.items, w.answers);
      var i :| 0 <= i < |page.items| && page.items[i] == OfferOf(r);
      PrefixCovers(page.items, Consume(p, page.items, w.answers).recorded, i);
    }
  }

  /** The last element of a prefix of ascending offers covers exactly the offers of the prefix. */
  lemma PrefixCovers(items: seq<Offer>, recorded: seq<Position>, i: nat)
    requires Ascending(OfferPlaces(items)) && |recorded| <= |items| && recorded == OfferPlaces(items)[..|recorded|] && i < |items|
    ensures i < |recorded| ==> items[i].at in recorded
    ensures i >= |recorded| > 0 ==> !AtMost(Some(items[i].at), Some(recorded[|recorded| - 1]))
  {
    hide Precedes;
    var places := OfferPlaces(items);
    assert places[i] == items[i].at;
    if i < |recorded| {
      assert recorded[i] == places[i];
    } else if |recorded| > 0 {
      assert Precedes(places[|recorded| - 1], places[i]);
      PrecedesIsTotal(places[|recorded| - 1], places[i]);
    }
  }

  // ----- how a poll ends -----

  predicate IsSaved(a: Answer) { IsHandled(a) && a.saved }

  /** The answers that were acceptances and no duplicates. */
  function Acceptances(answers: seq<Answer>): nat
  {
    if answers == [] then 0
    else (if answers[0].Delivered? && answers[0].outcome == Accepted then 1 else 0) + Acceptances(answers[1..])
  }

  /** The loop stops at the first item that was not handled and saved; what happened there decides. */
  lemma {:induction false} LoopEnds(p: Preference, items: seq<Offer>, answers: seq<Answer>)
    ensures var poll := Consume(p, items, answers); var k := |poll.recorded|;
            && k <= |items| && k <= |answers| && (forall i :: 0 <= i < k ==> IsSaved(answers[i]))
            && poll.accepted == Acceptances(answers[..k])
            && poll.preference.privacyMode == p.privacyMode
            && (poll.status == Complete <==> k == |items|)
            && (k < |items| ==>
                  if k == |answers| then poll.status == Rejected && poll.preference.enabled == p.enabled
                  else
                    && !IsSaved(answers[k])
                    && (poll.status == Rejected <==>
                          answers[k].Throws? || (answers[k].Delivered? && !answers[k].saved
                                                 && answers[k].outcome in {Accepted, Duplicate, PermissionRequired}))
                    && (poll.status == Rejected || poll.status == Interrupted)
                    && poll.preference.enabled == (p.enabled && !(answers[k].Delivered? && answers[k].outcome == PermissionRequired && answers[k].saved)))
            && (k == |items| ==> poll.preference.enabled == p.enabled)
    decreases |items|
  {
    var poll := Consume(p, items, answers);
    if items != [] && answers != [] && IsSaved(answers[0]) {
      var rest := Consume(p.(checkpoint := Some(items[0].at)), items[1..], answers[1..]);
      LoopEnds(p.(checkpoint := Some(items[0].at)), items[1..], answers[1..]);
      var k := |poll.recorded|;
      assert answers[..k][1..] == answers[1..][..k - 1];
      forall i | 0 <= i < k ensures IsSaved(answers[i]) { if i > 0 { assert answers[i] == answers[1..][i - 1]; } }
    }
  }

  /**
   A poll that reaches a page ends as its loop, unless the page's checkpoint could not be saved.
   Before that it changes at most whether notifications are on: a refusing system turns them off.
   */
  lemma PollEnds(p: Preference, w: World)
    ensures var poll := PollOnce(p, w);
            && poll.preference.privacyMode == p.privacyMode
            && (poll.status == Disabled <==> !p.enabled)
            && (!GetsPage(p, w) ==> poll.recorded == [] && poll.accepted == 0 && poll.preference.checkpoint == p.checkpoint)
            && (p.enabled && !GetsPage(p, w) ==>
                  var refused := w.native.Some? && (!w.native.value.supported || w.native.value.permission == Denied);
                  && (poll.preference.enabled <==> !(refused && w.statusSaved))
                  && poll.status == (if w.native.None? || (refused && !w.statusSaved) then Rejected
                                     else if refused || w.native.value.permission != Granted then Interrupted else Rejected))
            && (GetsPage(p, w) ==>
                  var page := PageFor(p, w);
                  var loop := Consume(p, page.items, w.answers);
                  && poll.recorded == loop.recorded && poll.accepted == loop.accepted && poll.preference.enabled == loop.preference.enabled
                  && var unsaved := loop.status == Complete && loop.preference.checkpoint != page.checkpoint && !w.finalSaved;
                  && poll.status == (if unsaved then Rejected else loop.status)
                  && poll.preference.checkpoint == if loop.status == Complete && !unsaved then page.checkpoint else loop.preference.checkpoint)
  {
    hide Query;
    if GetsPage(p, w) { LoopEnds(p, PageFor(p, w).items, w.answers); }
  }

  /** Polls are sent only when notifications are on, supported and granted, and the server answers. */
  lemma PagesAreGot(p: Preference, w: World)
    ensures GetsPage(p, w) <==>
              p.enabled && w.native.Some? && w.native.value.supported && w.native.value.permission == Granted && w.reachable
  {
  }

  // ----- runs -----

  datatype Event = PollEvent(world: World) | InitializeEvent(now: string) | Toggle(enabled: bool, privacyMode: bool)

  datatype Desk = Desk(stored: Preference, recorded: seq<Position>)

  function Step(d: Desk, e: Event): Desk
  {
    match e
    case PollEvent(w) => var poll := PollOnce(d.stored, w); Desk(poll.preference, d.recorded + poll.recorded)
    case InitializeEvent(now) => d.(stored := d.stored.(enabled := true, checkpoint := Some(Position(now, MAXIMUM_ID))))
    case Toggle(enabled, privacyMode) => d.(stored := d.stored.(enabled := enabled, privacyMode := privacyMode))
  }

  /** The settings that the other two events leave. */
  lemma SettingsAre(d: Desk, e: Event)
    requires !e.PollEvent?
    ensures Step(d, e).recorded == d.recorded
    ensures e.InitializeEvent? ==>
              Step(d, e).stored == Preference(true, d.stored.privacyMode, Some(Position(e.now, "ffffffff-ffff-ffff-ffff-ffffffffffff")))
    ensures e.Toggle? ==> Step(d, e).stored == Preference(e.enabled, e.privacyMode, d.stored.checkpoint)
  {
  }

  /** The records of a listing have their own ids. */
  ghost predicate Legal(e: Event)
  {
    e.PollEvent? ==> DistinctRecords(e.world.listing.items)
  }

  ghost predicate Runs(d: Desk, events: seq<Event>)
    decreases |events|
  {
    events == [] || (Legal(events[0]) && Runs(Step(d, events[0]), events[1..]))
  }

  function AfterRun(d: Desk, events: seq<Event>): Desk
    decreases |events|
  {
    if events == [] then d else AfterRun(Step(d, events[0]), events[1..])
  }

  lemma AppendProgress(before: Checkpoint, recorded: seq<Position>, after: Checkpoint, more: seq<Position>)
    requires Progressed(before, recorded) && Progressed(after, more) && AtMost(before, after)
    requires forall i :: 0 <= i < |more| ==> After(more[i], before)
    ensures Progressed(after, recorded + more)
  {
    hide Precedes;
    forall i | 0 <= i < |recorded| ensures AtMost(Some(recorded[i]), after) {
      AtMostIsTransitive(Some(recorded[i]), before, after);
    }
    forall i, j | 0 <= i < |recorded| && 0 <= j < |more| ensures Precedes(recorded[i], more[j]) {
      assert AtMost(Some(recorded[i]), before) && After(more[j], before);
      if recorded[i] != before.value { PrecedesIsTransitive(recorded[i], before.value, more[j]); }
    }
  }

  /** Switching on takes a checkpoint that lies before a position. */
  predicate AnswersBefore(e: Event, c: Checkpoint)
  {
    e.InitializeEvent? && !AtMost(c, Some(Position(e.now, MAXIMUM_ID)))
  }

  function LastOf(recorded: seq<Position>): Checkpoint
  {
    if recorded == [] then None else Some(recorded[|recorded| - 1])
  }

  lemma PollProgresses(d: Desk, w: World)
    requires DistinctRecords(w.listing.items) && Progressed(d.stored.checkpoint, d.recorded)
    ensures var d' := Step(d, PollEvent(w)); Progressed(d'.stored.checkpoint, d'.recorded)
  {
    hide Precedes, PollOnce;
    var poll := PollOnce(d.stored, w);
    PollMovesForward(d.stored, w);
    AppendProgress(d.stored.checkpoint, d.recorded, poll.preference.checkpoint, poll.recorded);
  }

  /** A step keeps the handled positions covered exactly when no answer lies before the last of them. */
  lemma StepProgresses(d: Desk, e: Event)
    requires Legal(e) && Progressed(d.stored.checkpoint, d.recorded)
    ensures var d' := Step(d, e);
            d.recorded <= d'.recorded && (Progressed(d'.stored.checkpoint, d'.recorded) <==> !AnswersBefore(e, LastOf(d.recorded)))
  {
    hide Precedes, PollOnce, AtMost;
    if e.PollEvent? {
      PollProgresses(d, e.world);
    } else if e.InitializeEvent? {
      AscendingCovered(d.recorded, Some(Position(e.now, MAXIMUM_ID)));
    }
  }

  /** A checkpoint covers an ascending list exactly when it covers the last element. */
  lemma AscendingCovered(recorded: seq<Position>, c: Checkpoint)
    requires Ascending(recorded)
    ensures Progressed(c, recorded) <==> AtMost(LastOf(recorded), c)
  {
    hide Precedes;
    if recorded != [] && AtMost(LastOf(recorded), c) {
      var n := |recorded| - 1;
      forall i | 0 <= i < n ensures AtMost(Some(recorded[i]), c) {
        AtMostIsTransitive(Some(recorded[i]), Some(recorded[n]), c);
      }
    }
  }

  // ----- the checkpoint -----

  ghost predicate NeverMovesBack(d: Desk, events: seq<Event>)
    decreases |events|
  {
    events != [] ==>
      AtMost(d.stored.checkpoint, Step(d, events[0]).stored.checkpoint) && NeverMovesBack(Step(d, events[0]), events[1..])
  }

  /** No answer to switching on lies before the checkpoint stored then. */
  ghost predicate AnswersKeepUp(d: Desk, events: seq<Event>)
    decreases |events|
  {
    events != [] ==> !AnswersBefore(events[0], d.stored.checkpoint) && AnswersKeepUp(Step(d, events[0]), events[1..])
  }

  lemma StepMovesBack(d: Desk, e: Event)
    requires Legal(e)
    ensures AtMost(d.stored.checkpoint, Step(d, e).stored.checkpoint) <==> !AnswersBefore(e, d.stored.checkpoint)
  {
    hide Precedes, PollOnce;
    if e.PollEvent? { PollMovesForward(d.stored, e.world); }
  }

  /**
   Over any run of polls cut off anywhere the checkpoint never moves back, exactly when switching
   notifications on never answers with an earlier position.
   */
  lemma {:induction false} CheckpointIsExact(d: Desk, events: seq<Event>)
    requires Runs(d, events)
    ensures NeverMovesBack(d, events) <==> AnswersKeepUp(d, events)
    decreases |events|
  {
    hide Step, AtMost, AnswersBefore;
    if events != [] {
      StepMovesBack(d, events[0]);
      CheckpointIsExact(Step(d, events[0]), events[1..]);
    }
  }

  /** An identifier in the form of `desktopNotificationMaximumId`, in lower case. */
  predicate IsUuid(id: string)
  {
    |id| == 36 && forall i :: 0 <= i < 36 ==>
      if i == 8 || i == 13 || i == 18 || i == 23 then id[i] == '-' else '0' <= id[i] <= '9' || 'a' <= id[i] <= 'f'
  }

  lemma {:induction false} PointwiseBefore(a: string, b: string)
    requires |a| == |b| && forall i :: 0 <= i < |a| ==> a[i] <= b[i]
    ensures a == b || Before(a, b)
  {
    if a != "" {
      PointwiseBefore(a[1..], b[1..]);
      assert a == [a[0]] + a[1..] && b == [b[0]] + b[1..];
    }
  }

  /** For the positions of records, an earlier position is an earlier clock. */
  lemma EarlierIsEarlierClock(c: Position, now: string)
    requires IsUuid(c.id)
    ensures AnswersBefore(InitializeEvent(now), Some(c)) <==> Before(now, c.updatedAt)
  {
    PointwiseBefore(c.id, MAXIMUM_ID);
    Text.BeforeIsTotal(now, c.updatedAt);
  }

  // ----- clocks -----

  predicate CheckpointIsUuid(c: Checkpoint) { c.Some? ==> IsUuid(c.value.id) }

  /** Everything stored or handled carries the id of a record. */
  ghost predicate HasUuids(d: Desk)
  {
    CheckpointIsUuid(d.stored.checkpoint) && forall p :: p in d.recorded ==> IsUuid(p.id)
  }

  /** The listings of a run hold records with such ids. */
  ghost predicate ListsUuids(events: seq<Event>)
  {
    forall i :: 0 <= i < |events| && events[i].PollEvent? ==> forall r :: r in events[i].world.listing.items ==> IsUuid(r.id)
  }

  lemma PageHasUuids(listing: Listing, c: Checkpoint, now: string, wants: Record -> bool)
    requires DistinctRecords(listing.items) && CheckpointIsUuid(c) && forall r :: r in listing.items ==> IsUuid(r.id)
    ensures var page := Query(listing, c, false, now, wants);
            CheckpointIsUuid(page.checkpoint) && forall o :: o in page.items ==> IsUuid(o.at.id)
  {
    hide IsUuid, Precedes, Wanted, Offers, Sort, Newer, After;
    PageIs(listing, c, now, wants);
    SortAscends(listing.items);
  }

  lemma PollKeepsUuids(d: Desk, w: World)
    requires DistinctRecords(w.listing.items) && HasUuids(d) && forall r :: r in w.listing.items ==> IsUuid(r.id)
    ensures HasUuids(Step(d, PollEvent(w)))
  {
    hide Query, Consume, IsUuid;
    var page := PageFor(d.stored, w);
    PageHasUuids(w.listing, d.stored.checkpoint, w.now, w.wants);
    ConsumeRecordsAPrefix(d.stored, page.items, w.answers);
    var recorded := Consume(d.stored, page.items, w.answers).recorded;
    forall p | p in recorded ensures IsUuid(p.id) {
      var i :| 0 <= i < |recorded| && recorded[i] == p;
      assert p == page.items[i].at;
    }
  }

  lemma StepKeepsUuids(d: Desk, e: Event)
    requires Legal(e) && HasUuids(d) && (e.PollEvent? ==> forall r :: r in e.world.listing.items ==> IsUuid(r.id))
    ensures HasUuids(Step(d, e))
  {
    hide PollOnce;
    if e.PollEvent? { PollKeepsUuids(d, e.world); }
  }

  /** Notifications are switched on while the server's clock lies before a stored instant. */
  predicate ClockIsBehind(e: Event, c: Checkpoint)
  {
    e.InitializeEvent? && c.Some? && Before(e.now, c.value.updatedAt)
  }

  lemma BehindIsBefore(e: Event, c: Checkpoint)
    requires CheckpointIsUuid(c)
    ensures AnswersBefore(e, c) <==> ClockIsBehind(e, c)
  {
    hide IsUuid, Precedes;
    if e.InitializeEvent? && c.Some? { EarlierIsEarlierClock(c.value, e.now); }
  }

  ghost predicate ClocksKeepUp(d: Desk, events: seq<Event>)
    decreases |events|
  {
    events != [] ==> !ClockIsBehind(events[0], d.stored.checkpoint) && ClocksKeepUp(Step(d, events[0]), events[1..])
  }

  /** Over any run the checkpoint never moves back exactly when no clock lies behind the instant stored when switching on. */
  lemma {:induction false} CheckpointFollowsClocks(d: Desk, events: seq<Event>)
    requires Runs(d, events) && HasUuids(d) && ListsUuids(events)
    ensures NeverMovesBack(d, events) <==> ClocksKeepUp(d, events)
    decreases |events|
  {
    hide Step, AtMost, AnswersBefore, ClockIsBehind, HasUuids, IsUuid;
    if events != [] {
      StepMovesBack(d, events[0]);
      assert CheckpointIsUuid(d.stored.checkpoint) by { StoredIsUuid(d); }
      BehindIsBefore(events[0], d.stored.checkpoint);
      StepKeepsUuids(d, events[0]);
      CheckpointFollowsClocks(Step(d, events[0]), events[1..]);
    }
  }

  lemma StoredIsUuid(d: Desk)
    requires HasUuids(d)
    ensures CheckpointIsUuid(d.stored.checkpoint) && CheckpointIsUuid(LastOf(d.recorded))
  {
  }

  // ----- handled records -----

  function EveryRecord(): Record -> bool { r => true }

  /** Some query with this checkpoint offers a record at the position. */
  ghost predicate CanBeOffered(c: Checkpoint, p: Position)
  {
    exists listing: Listing, now: string, o: Offer ::
      DistinctRecords(listing.items) && o.at == p && o in Query(listing, c, false, now, EveryRecord()).items
  }

  lemma SortsOne(r: Record)
    ensures Sort([r]) == [r]
  {
    assert [r][..0] == [];
    assert Sorting.Sort(Order(), [r]) == Sorting.Insert(Order(), Sorting.Sort(Order(), []), r);
  }

  lemma OffersOne(r: Record, now: string, wants: Record -> bool)
    requires Wanted(r, now, wants)
    ensures Offers([r], now, wants) == [OfferOf(r)]
  {
    hide Wanted;
    var none: seq<Record> := [];
    assert [r][..0] == none && Offers(none, now, wants) == [];
  }

  lemma OfferedAlone(c: Checkpoint, r: Record, more: bool, now: string, wants: Record -> bool)
    requires After(At(r), c) && Wanted(r, now, wants)
    ensures Query(Listing([r], more), c, false, now, wants) == Page([OfferOf(r)], Some(At(r)), more)
  {
    hide Precedes, Wanted, Sort, Newer, Offers;
    SortsOne(r);
    AllNewer([r], c);
    OffersOne(r, now, wants);
  }

  /** A position can be offered exactly while the checkpoint lies before it. */
  lemma OfferedExactly(c: Checkpoint, p: Position)
    ensures CanBeOffered(c, p) <==> !AtMost(Some(p), c)
  {
    hide Precedes, Query;
    if c.Some? { PrecedesIsTotal(c.value, p); }
    if CanBeOffered(c, p) {
      var listing: Listing, now: string, o: Offer :|
        DistinctRecords(listing.items) && o.at == p && o in Query(listing, c, false, now, EveryRecord()).items;
      PageIs(listing, c, now, EveryRecord());
    }
    if !AtMost(Some(p), c) {
      var r := Record(p.id, p.updatedAt, "mention", 1, false, false, "0");
      OfferedAlone(c, r, false, "", EveryRecord());
      assert OfferOf(r) in Query(Listing([r], false), c, false, "", EveryRecord()).items;
    }
  }

  /** In every state of the run no handled position can be offered. */
  ghost predicate HandledStayAway(d: Desk, events: seq<Event>)
    decreases |events|
  {
    && (forall p :: p in d.recorded ==> !CanBeOffered(d.stored.checkpoint, p))
    && (events != [] ==> HandledStayAway(Step(d, events[0]), events[1..]))
  }

  /** No answer to switching on lies before the last handled position. */
  ghost predicate AnswersCoverHandled(d: Desk, events: seq<Event>)
    decreases |events|
  {
    events != [] ==> !AnswersBefore(events[0], LastOf(d.recorded)) && AnswersCoverHandled(Step(d, events[0]), events[1..])
  }

  lemma ProgressedIsUnofferable(d: Desk)
    requires Ascending(d.recorded)
    ensures Progressed(d.stored.checkpoint, d.recorded) <==> forall p :: p in d.recorded ==> !CanBeOffered(d.stored.checkpoint, p)
  {
    hide Ascending, AtMost, CanBeOffered;
    forall p ensures CanBeOffered(d.stored.checkpoint, p) <==> !AtMost(Some(p), d.stored.checkpoint) {
      OfferedExactly(d.stored.checkpoint, p);
    }
  }

  /** Only a poll adds handled positions, and it keeps them ascending. */
  lemma RecordedAscend(d: Desk, e: Event)
    requires Legal(e) && Progressed(d.stored.checkpoint, d.recorded)
    ensures Ascending(Step(d, e).recorded)
  {
    hide Precedes, PollOnce;
    if e.PollEvent? { PollProgresses(d, e.world); }
  }

  lemma {:induction false} HandledFrom(d: Desk, events: seq<Event>)
    requires Runs(d, events) && Progressed(d.stored.checkpoint, d.recorded)
    ensures HandledStayAway(d, events) <==> AnswersCoverHandled(d, events)
    decreases |events|
  {
    hide Step, CanBeOffered, AnswersBefore;
    ProgressedIsUnofferable(d);
    if events != [] {
      var d' := Step(d, events[0]);
      StepProgresses(d, events[0]);
      RecordedAscend(d, events[0]);
      ProgressedIsUnofferable(d');
      if Progressed(d'.stored.checkpoint, d'.recorded) { HandledFrom(d', events[1..]); }
    }
  }

  /**
   Over any run, handled notifications are never offered again at unchanged positions, exactly
   when switching notifications on never answers before the last handled position.
   */
  lemma HandledIsExact(start: Preference, events: seq<Event>)
    requires Runs(Desk(start, []), events)
    ensures HandledStayAway(Desk(start, []), events) <==> AnswersCoverHandled(Desk(start, []), events)
  {
    HandledFrom(Desk(start, []), events);
  }

  /** While the answers cover what was handled, the checkpoint covers it and handled positions ascend strictly. */
  lemma {:induction false} RunProgresses(d: Desk, events: seq<Event>)
    requires Runs(d, events) && Progressed(d.stored.checkpoint, d.recorded) && AnswersCoverHandled(d, events)
    ensures var d' := AfterRun(d, events); Progressed(d'.stored.checkpoint, d'.recorded) && d.recorded <= d'.recorded
    decreases |events|
  {
    hide Precedes, Step, Progressed, AnswersBefore;
    if events != [] {
      StepProgresses(d, events[0]);
      RunProgresses(Step(d, events[0]), events[1..]);
    }
  }

  /** No page of any listing, clock and filter offers a position that such a run handled. */
  lemma RecordedIsNotOfferedAgain(start: Preference, events: seq<Event>, w: World, o: Offer)
    requires Runs(Desk(start, []), events) && DistinctRecords(w.listing.items)
    requires AnswersCoverHandled(Desk(start, []), events)
    requires o in PageFor(AfterRun(Desk(start, []), events).stored, w).items
    ensures o.at !in AfterRun(Desk(start, []), events).recorded
  {
    hide Query, Precedes, Wanted;
    var d := AfterRun(Desk(start, []), events);
    RunProgresses(Desk(start, []), events);
    PageIs(w.listing, d.stored.checkpoint, w.now, w.wants);
    if o.at in d.recorded {
      var i :| 0 <= i < |d.recorded| && d.recorded[i] == o.at;
      PrecedesIsTotal(d.stored.checkpoint.value, o.at);
    }
  }

  /**
   The failing input: a record is handled, and then notifications are switched on with a server
   clock behind that record. The checkpoint moves back and the record can be offered again.
   */
  lemma ClockBehindMovesBack(r: Record, w: World, now: string, privacyMode: bool)
    requires w.native == Some(NativeStatus(true, Granted)) && w.reachable && w.listing == Listing([r], false)
    requires Wanted(r, w.now, w.wants) && w.answers == [Delivered(Accepted, true)]
    requires Before(now, r.updatedAt)
    ensures var start := Desk(Preference(true, privacyMode, None), []);
            var events := [PollEvent(w), InitializeEvent(now)];
            && Runs(start, events) && !NeverMovesBack(start, events)
            && AfterRun(start, events).recorded == [At(r)]
            && CanBeOffered(AfterRun(start, events).stored.checkpoint, At(r))
  {
    hide Precedes, Wanted, Query, NeverMovesBack, CanBeOffered;
    var p := Preference(true, privacyMode, None);
    var start := Desk(p, []);
    var events := [PollEvent(w), InitializeEvent(now)];
    OfferedAlone(None, r, false, w.now, w.wants);
    assert [OfferOf(r)][1..] == [] && w.answers[1..] == [];
    var polled := Step(start, events[0]);
    assert Consume(p, [OfferOf(r)], w.answers).recorded == [At(r)];
    assert polled == Desk(p.(checkpoint := Some(At(r))), [At(r)]);
    assert events[1..][0] == InitializeEvent(now) && events[1..][1..] == [];
    var after := Step(polled, InitializeEvent(now));
    assert AfterRun(polled, events[1..]) == AfterRun(after, []);
    assert !AtMost(Some(At(r)), after.stored.checkpoint) by { EarlierClock(At(r), now); }
    OfferedExactly(after.stored.checkpoint, At(r));
    assert Runs(after, []) && Runs(polled, events[1..]);
    assert !NeverMovesBack(polled, events[1..]) by { MovesBackAt(polled, events[1..]); }
    assert !NeverMovesBack(start, events) by { MovesBackLater(start, events); }
  }

  lemma EarlierClock(p: Position, now: string)
    requires Before(now, p.updatedAt)
    ensures !AtMost(Some(p), Some(Position(now, MAXIMUM_ID)))
  {
    Text.BeforeIsTotal(now, p.updatedAt);
  }

  lemma MovesBackAt(d: Desk, events: seq<Event>)
    requires events != [] && !AtMost(d.stored.checkpoint, Step(d, events[0]).stored.checkpoint)
    ensures !NeverMovesBack(d, events)
  {
  }

  lemma MovesBackLater(d: Desk, events: seq<Event>)
    requires events != [] && !NeverMovesBack(Step(d, events[0]), events[1..])
    ensures !NeverMovesBack(d, events)
  {
  }

  /** No clock lies behind the instant of the last handled position. */
  ghost predicate ClocksCoverHandled(d: Desk, events: seq<Event>)
    decreases |events|
  {
    events != [] ==> !ClockIsBehind(events[0], LastOf(d.recorded)) && ClocksCoverHandled(Step(d, events[0]), events[1..])
  }

  lemma {:induction false} CoverFollowsClocks(d: Desk, events: seq<Event>)
    requires Runs(d, events) && HasUuids(d) && ListsUuids(events)
    ensures AnswersCoverHandled(d, events) <==> ClocksCoverHandled(d, events)
    decreases |events|
  {
    hide Step, AnswersBefore, ClockIsBehind, HasUuids, IsUuid;
    if events != [] {
      StoredIsUuid(d);
      BehindIsBefore(events[0], LastOf(d.recorded));
      StepKeepsUuids(d, events[0]);
      CoverFollowsClocks(Step(d, events[0]), events[1..]);
    }
  }

  /**
   Over any run no handled notification can be offered again exactly when no clock lies behind the
   instant of the last handled one when notifications are switched on.
   */
  lemma HandledFollowsClocks(start: Preference, events: seq<Event>)
    requires Runs(Desk(start, []), events) && CheckpointIsUuid(start.checkpoint) && ListsUuids(events)
    ensures HandledStayAway(Desk(start, []), events) <==> ClocksCoverHandled(Desk(start, []), events)
  {
    HandledIsExact(start, events);
    CoverFollowsClocks(Desk(start, []), events);
  }

  // ----- nothing is skipped -----

  /** Until it is handled, every page of the run lists the record, wants it and has no overflow. */
  ghost predicate IsListedUntilHandled(d: Desk, events: seq<Event>, r: Record)
    decreases |events|
  {
    events != [] ==>
      && (events[0].PollEvent? && At(r) !in d.recorded && GetsPage(d.stored, events[0].world) ==>
            var w := events[0].world; r in w.listing.items && Wanted(r, w.now, w.wants) && !PageFor(d.stored, w).overflow)
      && IsListedUntilHandled(Step(d, events[0]), events[1..], r)
  }

  /** The present that switching on takes as the checkpoint covers the record. */
  predicate PassesOver(e: Event, r: Record)
  {
    e.InitializeEvent? && AtMost(Some(At(r)), Some(Position(e.now, MAXIMUM_ID)))
  }

  /**
   Over any run of polls cut off anywhere, a record that is listed until it is handled is covered
   by the checkpoint only once it was handled, or after switching on passed over it.
   */
  lemma {:induction false} NothingIsSkipped(d: Desk, events: seq<Event>, r: Record)
    requires Runs(d, events) && IsListedUntilHandled(d, events, r)
    requires !AtMost(Some(At(r)), d.stored.checkpoint) && At(r) !in d.recorded
    requires AtMost(Some(At(r)), AfterRun(d, events).stored.checkpoint)
    ensures At(r) in AfterRun(d, events).recorded || exists i :: 0 <= i < |events| && PassesOver(events[i], r)
    decreases |events|
  {
    hide Step, AtMost, Legal, Wanted;
    var d' := Step(d, events[0]);
    StepCovers(d, events[0], r);
    if At(r) in d'.recorded {
      RecordedStays(d', events[1..]);
    } else if !PassesOver(events[0], r) {
      NothingIsSkipped(d', events[1..], r);
      if i: int :| 0 <= i < |events[1..]| && PassesOver(events[1..][i], r) { assert PassesOver(events[i + 1], r); }
    }
  }

  lemma StepCovers(d: Desk, e: Event, r: Record)
    requires Legal(e) && !AtMost(Some(At(r)), d.stored.checkpoint) && At(r) !in d.recorded
    requires e.PollEvent? && GetsPage(d.stored, e.world) ==>
               r in e.world.listing.items && Wanted(r, e.world.now, e.world.wants) && !PageFor(d.stored, e.world).overflow
    ensures var d' := Step(d, e);
            AtMost(Some(At(r)), d'.stored.checkpoint) ==> At(r) in d'.recorded || PassesOver(e, r)
  {
    hide Precedes, Wanted, Query, Consume;
    if d.stored.checkpoint.Some? { PrecedesIsTotal(d.stored.checkpoint.value, At(r)); }
    if e.PollEvent? && GetsPage(d.stored, e.world) { CoveredIsRecorded(d.stored, e.world, r); }
  }

  lemma {:induction false} RecordedStays(d: Desk, events: seq<Event>)
    ensures d.recorded <= AfterRun(d, events).recorded
    decreases |events|
  {
    hide PollOnce;
    if events != [] { RecordedStays(Step(d, events[0]), events[1..]); }
  }

  // ----- what a failed save does -----

  lemma {:induction false} ConsumeReaches(p: Preference, items: seq<Offer>, answers: seq<Answer>, k: nat)
    requires k < |items| && k < |answers| && IsHandled(answers[k])
    requires forall i :: 0 <= i < k ==> IsHandled(answers[i]) && answers[i].saved
    ensures var n := |Consume(p, items, answers).recorded|; if answers[k].saved then n > k else n == k
    ensures !answers[k].saved ==> Consume(p, items, answers).status.Rejected?
    decreases k
  {
    if k > 0 {
      ConsumeReaches(p.(checkpoint := Some(items[0].at)), items[1..], answers[1..], k - 1);
    }
  }

  /** Where the first one is newer, all are. */
  lemma AllNewerThanFirst(records: seq<Record>, c: Checkpoint)
    requires Ascending(Places(records)) && records != [] && After(At(records[0]), c)
    ensures Newer(records, c) == records
  {
    hide Precedes, Newer;
    forall i | 0 < i < |records| ensures After(At(records[i]), c) {
      assert Places(records)[i] == At(records[i]) && Places(records)[0] == At(records[0]);
      if c.Some? { PrecedesIsTransitive(c.value, At(records[0]), At(records[i])); }
    }
    AllNewer(records, c);
  }

  /** Raising the checkpoint over an ascending list cuts off a prefix. */
  lemma {:induction false} NewerIsSuffix(records: seq<Record>, c: Checkpoint, c': Checkpoint) returns (k: nat)
    requires Ascending(Places(records)) && AtMost(c, c')
    ensures k <= |Newer(records, c)| && Newer(records, c') == Newer(records, c)[k..]
  {
    hide Precedes, Newer, After;
    NewerUnfolds(records, c);
    NewerUnfolds(records, c');
    if records == [] { return 0; }
    var first, rest := records[0], records[1..];
    assert Places(rest) == Places(records)[1..];
    k := NewerIsSuffix(rest, c, c');
    LaterIsRarer(first, c, c');
    if After(At(first), c') {
      AllNewerThanFirst(records, c);
      AllNewerThanFirst(records, c');
      k := 0;
    } else if After(At(first), c) {
      assert ([first] + Newer(rest, c))[k + 1..] == Newer(rest, c)[k..];
      k := k + 1;
    }
  }

  lemma NewerUnfolds(records: seq<Record>, c: Checkpoint)
    ensures records == [] ==> Newer(records, c) == []
    ensures records != [] && After(At(records[0]), c) ==> Newer(records, c) == [records[0]] + Newer(records[1..], c)
    ensures records != [] && !After(At(records[0]), c) ==> Newer(records, c) == Newer(records[1..], c)
  {
    if records != [] { assert [] + Newer(records[1..], c) == Newer(records[1..], c); }
  }

  lemma LaterIsRarer(r: Record, c: Checkpoint, c': Checkpoint)
    requires AtMost(c, c')
    ensures After(At(r), c') ==> After(At(r), c)
  {
    hide Precedes;
    if c.Some? && c != c' && After(At(r), c') { PrecedesIsTransitive(c.value, c'.value, At(r)); }
  }

  lemma {:induction false} AllNewer(records: seq<Record>, c: Checkpoint)
    requires forall i :: 0 <= i < |records| ==> After(At(records[i]), c)
    ensures Newer(records, c) == records
  {
    if records != [] { AllNewer(records[1..], c); }
  }

  /** A later query over the same listing still offers what lies behind its checkpoint. */
  lemma StillOffered(listing: Listing, c: Checkpoint, c': Checkpoint, now: string, wants: Record -> bool, o: Offer)
    requires DistinctRecords(listing.items) && AtMost(c, c') && After(o.at, c')
    requires o in Query(listing, c, false, now, wants).items
    ensures o in Query(listing, c', false, now, wants).items
  {
    hide Precedes, Wanted, Offers, Sort, Newer;
    var ordered := Sort(listing.items);
    SortAscends(listing.items);
    NewerIs(ordered, c);
    NewerIs(ordered, c');
    var before, after := Newer(ordered, c), Newer(ordered, c');
    var k := NewerIsSuffix(ordered, c, c');
    BoundedAscends(before);
    BoundedAscends(after);
    OffersAre(Bounded(before), now, wants);
    OffersAre(Bounded(after), now, wants);
    var r :| r in Bounded(before) && OfferOf(r) == o && Wanted(r, now, wants);
    assert r in before && r in after;
    SuffixBound(before, k, r);
  }

  lemma BoundedAscends(records: seq<Record>)
    requires Ascending(Places(records))
    ensures Ascending(Places(Bounded(records)))
  {
    hide Precedes;
    assert Places(Bounded(records)) == Bounded(Places(records));
  }

  lemma SamePlace(records: seq<Record>, i: nat, j: nat)
    requires Ascending(Places(records)) && i < |records| && j < |records| && records[i] == records[j]
    ensures i == j
  {
    hide Precedes;
    assert Places(records)[i] == Places(records)[j];
    PrecedesIsTotal(At(records[i]), At(records[i]));
  }

  lemma InBounded(records: seq<Record>, i: nat)
    requires i < |records| <= i + PAGE
    ensures records[i] in Bounded(records)
  {
    if |records| > PAGE { assert Bounded(records)[i - (|records| - PAGE)] == records[i]; }
  }

  lemma BoundedIndex(records: seq<Record>, r: Record) returns (i: nat)
    requires r in Bounded(records)
    ensures i < |records| <= i + PAGE && records[i] == r
  {
    var k :| 0 <= k < |Bounded(records)| && Bounded(records)[k] == r;
    i := k + (|records| - |Bounded(records)|);
  }

  lemma SuffixBound(records: seq<Record>, k: nat, r: Record)
    requires Ascending(Places(records)) && k <= |records| && r in Bounded(records) && r in records[k..]
    ensures r in Bounded(records[k..])
  {
    hide Ascending, Places, Bounded;
    var i := BoundedIndex(records, r);
    var j :| 0 <= j < |records[k..]| && records[k..][j] == r;
    SamePlace(records, i, k + j);
    InBounded(records[k..], j);
  }

  /**
   An item that the desktop handled is offered by the next query over the same listing exactly
   when its acceptance could not be stored.
   */
  lemma ReofferedExactly(p: Preference, w: World, k: nat)
    requires DistinctRecords(w.listing.items)
    requires p.enabled && w.native.Some? && MayDeliver(w.native.value) && w.reachable
    requires k < |PageFor(p, w).items| && k < |w.answers| && IsHandled(w.answers[k])
    requires forall i :: 0 <= i < k ==> IsHandled(w.answers[i]) && w.answers[i].saved
    ensures PageFor(p, w).items[k] in PageFor(PollOnce(p, w).preference, w).items <==> !w.answers[k].saved
  {
    hide Query, Consume, Precedes, Wanted;
    var page := PageFor(p, w);
    var loop, poll := Consume(p, page.items, w.answers), PollOnce(p, w);
    var o, c := page.items[k], poll.preference.checkpoint;
    PageIs(w.listing, p.checkpoint, w.now, w.wants);
    PageIs(w.listing, c, w.now, w.wants);
    ConsumeRecordsAPrefix(p, page.items, w.answers);
    ConsumeReaches(p, page.items, w.answers, k);
    PollMovesForward(p, w);
    assert o in page.items && OfferPlaces(page.items)[k] == o.at;
    if w.answers[k].saved {
      assert poll.recorded[k] == o.at;
      PrecedesIsTotal(c.value, o.at);
    } else {
      assert After(o.at, c) by {
        if k > 0 { assert c == Some(OfferPlaces(page.items)[k - 1]); }
      }
      StillOffered(w.listing, p.checkpoint, c, w.now, w.wants, o);
    }
  }
}
