/**
 The checkpoint protocol of desktop notifications: the server's page of newer records and the
 client's loop over it, which can be cut off at any item.
 */
module DesktopNotifications {
  import opened Sorting
  import opened Wrappers
  import opened Text

  const PAGE: nat := 20
  const MAXIMUM_ID := "ffffffff-ffff-ffff-ffff-ffffffffffff"

  /** What a checkpoint encodes; instants are ISO texts of one format. */
  datatype Position = Position(updatedAt: string, id: string)

  type Checkpoint = Option<Position>

  predicate Precedes(a: Position, b: Position)
  {
    Before(a.updatedAt, b.updatedAt) || (a.updatedAt == b.updatedAt && Before(a.id, b.id))
  }

  predicate After(p: Position, c: Checkpoint)
  {
    c.None? || Precedes(c.value, p)
  }

  /** The order on checkpoints; no checkpoint comes first. */
  predicate AtMost(a: Checkpoint, b: Checkpoint)
  {
    a.None? || (b.Some? && (a == b || Precedes(a.value, b.value)))
  }

  lemma PrecedesIsTotal(a: Position, b: Position)
    ensures a == b || Precedes(a, b) || Precedes(b, a)
    ensures !(Precedes(a, b) && Precedes(b, a)) && !Precedes(a, a)
  {
    Text.BeforeIsTotal(a.updatedAt, b.updatedAt);
    Text.BeforeIsTotal(a.id, b.id);
    Text.BeforeIsTotal(a.updatedAt, a.updatedAt);
    Text.BeforeIsTotal(a.id, a.id);
  }

  lemma PrecedesIsTransitive(a: Position, b: Position, c: Position)
    requires Precedes(a, b) && Precedes(b, c)
    ensures Precedes(a, c)
  {
    if Before(a.updatedAt, b.updatedAt) && Before(b.updatedAt, c.updatedAt) {
      Text.BeforeIsTransitive(a.updatedAt, b.updatedAt, c.updatedAt);
    } else if a.updatedAt == b.updatedAt == c.updatedAt {
      Text.BeforeIsTransitive(a.id, b.id, c.id);
    }
  }

  lemma AtMostIsTransitive(a: Checkpoint, b: Checkpoint, c: Checkpoint)
    requires AtMost(a, b) && AtMost(b, c)
    ensures AtMost(a, c)
  {
    if a.Some? && a != b && b != c { PrecedesIsTransitive(a.value, b.value, c.value); }
  }

  // ----- the server's page -----

  datatype Record = Record(id: string, updatedAt: string, kind: string, version: nat, read: bool, archived: bool, expiresAt: string)

  function At(r: Record): Position { Position(r.updatedAt, r.id) }

  /** The records of one listing and whether the store has more of them. */
  datatype Listing = Listing(items: seq<Record>, more: bool)

  datatype Offer = Offer(id: string, kind: string, version: nat, at: Position)

  datatype Page = Page(items: seq<Offer>, checkpoint: Checkpoint, overflow: bool)

  function Order(): (Record, Record) -> bool { (a, b) => Precedes(At(a), At(b)) }

  function Sort(records: seq<Record>): seq<Record> { Sorting.Sort(Order(), records) }

  function Newer(records: seq<Record>, checkpoint: Checkpoint): seq<Record>
  {
    if records == [] then []
    else (if After(At(records[0]), checkpoint) then [records[0]] else []) + Newer(records[1..], checkpoint)
  }

  /** `slice(-20)`. */
  function Bounded<T>(s: seq<T>): seq<T>
  {
    if |s| <= PAGE then s else s[|s| - PAGE..]
  }

  /** Read, archived, expired or unwanted records are not offered. */
  predicate Wanted(r: Record, now: string, wants: Record -> bool)
  {
    !r.read && !r.archived && Before(now, r.expiresAt) && wants(r)
  }

  function OfferOf(r: Record): Offer { Offer(r.id, r.kind, r.version, At(r)) }

  function Offers(records: seq<Record>, now: string, wants: Record -> bool): seq<Offer>
  {
    if records == [] then []
    else Offers(records[..|records| - 1], now, wants)
         + (if Wanted(records[|records| - 1], now, wants) then [OfferOf(records[|records| - 1])] else [])
  }

  function NextCheckpoint(ordered: seq<Record>, checkpoint: Checkpoint): Checkpoint
  {
    if ordered != [] && After(At(ordered[|ordered| - 1]), checkpoint) then Some(At(ordered[|ordered| - 1])) else checkpoint
  }

  function Query(listing: Listing, checkpoint: Checkpoint, initialize: bool, now: string, wants: Record -> bool): Page
  {
    var ordered := Sort(listing.items);
    var newer := Newer(ordered, checkpoint);
    Page(if initialize then [] else Offers(Bounded(newer), now, wants),
         if initialize then Some(Position(now, MAXIMUM_ID)) else NextCheckpoint(ordered, checkpoint),
         listing.more || |newer| > PAGE)
  }

  /** The handler's loop over the bounded records. */
  method QueryDeliveries(listing: Listing, checkpoint: Checkpoint, initialize: bool, now: string, wants: Record -> bool)
    returns (page: Page)
    ensures page == Query(listing, checkpoint, initialize, now, wants)
  {
    hide Sort, Newer, Bounded, NextCheckpoint, Precedes;
    var ordered := Sort(listing.items);
    var newer := Newer(ordered, checkpoint);
    var bounded := Bounded(newer);
    var items: seq<Offer> := [];
    if !initialize {
      for i := 0 to |bounded|
        invariant items == Offers(bounded[..i], now, wants)
      {
        var item := bounded[i];
        assert bounded[..i + 1][..i] == bounded[..i];
        if item.read || item.archived || !Before(now, item.expiresAt) { continue; }
        if !wants(item) { continue; }
        items := items + [OfferOf(item)];
      }
      assert bounded[..|bounded|] == bounded;
    }
    page := Page(items, if initialize then Some(Position(now, MAXIMUM_ID)) else NextCheckpoint(ordered, checkpoint),
                 listing.more || |newer| > PAGE);
  }

  // ----- what a page holds -----

  ghost predicate DistinctRecords(records: seq<Record>)
  {
    forall i, j :: 0 <= i < j < |records| ==> records[i].id != records[j].id
  }

  ghost predicate Ascending(positions: seq<Position>)
  {
    forall i, j :: 0 <= i < j < |positions| ==> Precedes(positions[i], positions[j])
  }

  function Places(records: seq<Record>): seq<Position>
  {
    seq(|records|, i requires 0 <= i < |records| => At(records[i]))
  }

  function OfferPlaces(offers: seq<Offer>): seq<Position>
  {
    seq(|offers|, i requires 0 <= i < |offers| => offers[i].at)
  }

  lemma PrependAscends(first: Position, rest: seq<Position>)
    requires Ascending(rest) && forall i :: 0 <= i < |rest| ==> Precedes(first, rest[i])
    ensures Ascending([first] + rest)
  {
    hide Precedes;
    var all := [first] + rest;
    assert forall i :: 0 < i < |all| ==> all[i] == rest[i - 1];
  }

  function DifferentIds(): (Record, Record) -> bool { (a: Record, b: Record) => a.id != b.id }

  lemma PositionsAreOrdered()
    ensures IsOrder(Order())
  {
    hide Precedes;
    forall a: Record, b: Record ensures Precedes(At(a), At(b)) ==> !Precedes(At(b), At(a)) {
      PrecedesIsTotal(At(a), At(b));
    }
    forall a: Record, b: Record, c: Record ensures Precedes(At(a), At(c)) ==> Precedes(At(a), At(b)) || Precedes(At(b), At(c)) {
      PrecedesIsTotal(At(a), At(b));
      if Precedes(At(a), At(c)) && Precedes(At(b), At(a)) { PrecedesIsTransitive(At(b), At(a), At(c)); }
    }
  }

  lemma SortAscends(records: seq<Record>)
    requires DistinctRecords(records)
    ensures Ascending(Places(Sort(records)))
    ensures forall x :: x in Sort(records) <==> x in records
  {
    hide Precedes;
    PositionsAreOrdered();
    SortSorts(Order(), records);
    SortKeepsApart(Order(), DifferentIds(), records);
    var sorted := Sort(records);
    forall i, j | 0 <= i < j < |sorted| ensures Precedes(Places(sorted)[i], Places(sorted)[j]) {
      PrecedesIsTotal(At(sorted[i]), At(sorted[j]));
    }
  }

  lemma {:induction false} NewerIs(records: seq<Record>, checkpoint: Checkpoint)
    requires Ascending(Places(records))
    ensures Ascending(Places(Newer(records, checkpoint)))
    ensures forall x :: x in Newer(records, checkpoint) <==> x in records && After(At(x), checkpoint)
  {
    hide Precedes, After;
    if records != [] {
      var first, rest := records[0], records[1..];
      assert records == [first] + rest && Places(rest) == Places(records)[1..];
      NewerIs(rest, checkpoint);
      var t := Newer(rest, checkpoint);
      forall i | 0 <= i < |t| ensures Precedes(At(first), Places(t)[i]) {
        assert t[i] in rest;
        var k :| 0 <= k < |rest| && rest[k] == t[i];
        assert Places(records)[k + 1] == At(t[i]) && Places(records)[0] == At(first);
      }
      PrependAscends(At(first), Places(t));
      assert Places([first] + t) == [At(first)] + Places(t);
      assert [] + t == t;
    }
  }

  lemma {:induction false} OffersAre(records: seq<Record>, now: string, wants: Record -> bool)
    requires Ascending(Places(records))
    ensures Ascending(OfferPlaces(Offers(records, now, wants)))
    ensures forall o :: o in Offers(records, now, wants) ==> exists r :: r in records && OfferOf(r) == o && Wanted(r, now, wants)
    ensures forall r :: r in records && Wanted(r, now, wants) ==> OfferOf(r) in Offers(records, now, wants)
  {
    hide Precedes, Wanted;
    if records != [] {
      var n := |records| - 1;
      var front, last := records[..n], records[n];
      assert records == front + [last] && Places(front) == Places(records)[..n];
      OffersAre(front, now, wants);
      var t := Offers(front, now, wants);
      forall i | 0 <= i < |t| ensures Precedes(t[i].at, At(last)) {
        assert t[i] in t;
        var r :| r in front && OfferOf(r) == t[i] && Wanted(r, now, wants);
        var k :| 0 <= k < |front| && front[k] == r;
        assert Places(records)[k] == At(r) && Places(records)[n] == At(last);
      }
      if Wanted(last, now, wants) {
        assert OfferPlaces(t + [OfferOf(last)]) == OfferPlaces(t) + [At(last)];
      } else {
        assert t + [] == t;
      }
    }
  }

  /** A page offers newer records in ascending order and its checkpoint covers the whole listing. */
  lemma PageIs(listing: Listing, checkpoint: Checkpoint, now: string, wants: Record -> bool)
    requires DistinctRecords(listing.items)
    ensures var page := Query(listing, checkpoint, false, now, wants);
            && Ascending(OfferPlaces(page.items)) && |page.items| <= PAGE
            && (forall o :: o in page.items ==>
                  After(o.at, checkpoint) && AtMost(Some(o.at), page.checkpoint)
                  && exists r :: r in listing.items && OfferOf(r) == o && Wanted(r, now, wants))
            && AtMost(checkpoint, page.checkpoint)
            && (forall r :: r in listing.items ==> AtMost(Some(At(r)), page.checkpoint))
            && (!page.overflow ==> !listing.more && forall r ::
                  r in listing.items && After(At(r), checkpoint) && Wanted(r, now, wants) ==> OfferOf(r) in page.items)
  {
    hide Precedes, Wanted, Offers, Sort, Newer;
    var ordered := Sort(listing.items);
    var newer := Newer(ordered, checkpoint);
    SortAscends(listing.items);
    NewerIs(ordered, checkpoint);
    var bounded := Bounded(newer);
    assert forall r :: r in bounded ==> r in newer;
    assert Places(bounded) == Bounded(Places(newer));
    OffersAre(bounded, now, wants);
    OffersCount(bounded, now, wants);
    CheckpointCovers(ordered, checkpoint);
  }

  lemma {:induction false} OffersCount(records: seq<Record>, now: string, wants: Record -> bool)
    ensures |Offers(records, now, wants)| <= |records|
  {
    if records != [] { OffersCount(records[..|records| - 1], now, wants); }
  }

  lemma CheckpointCovers(ordered: seq<Record>, checkpoint: Checkpoint)
    requires Ascending(Places(ordered))
    ensures AtMost(checkpoint, NextCheckpoint(ordered, checkpoint))
    ensures forall r :: r in ordered ==> AtMost(Some(At(r)), NextCheckpoint(ordered, checkpoint))
  {
    hide Precedes;
    var next := NextCheckpoint(ordered, checkpoint);
    forall r | r in ordered ensures AtMost(Some(At(r)), next) {
      var n := |ordered| - 1;
      var k :| 0 <= k < |ordered| && ordered[k] == r;
      assert Places(ordered)[k] == At(r) && Places(ordered)[n] == At(ordered[n]);
      assert AtMost(Some(At(r)), Some(At(ordered[n])));
      if next == checkpoint && checkpoint.Some? {
        PrecedesIsTotal(At(ordered[n]), checkpoint.value);
        AtMostIsTransitive(Some(At(r)), Some(At(ordered[n])), checkpoint);
      }
    }
  }

  // ----- the page in the terms of the listing -----

  /** The listed records behind a position. */
  function Behind(records: seq<Record>, c: Checkpoint): set<Record>
  {
    set r | r in records && (c.None? || Before(c.value.updatedAt, r.updatedAt)
                             || (c.value.updatedAt == r.updatedAt && Before(c.value.id, r.id)))
  }

  /** Unread, not archived, not expired, wanted, behind the checkpoint and among the last twenty listed. */
  predicate IsOffered(listing: Listing, c: Checkpoint, now: string, wants: Record -> bool, r: Record)
  {
    && r in Behind(listing.items, c) && !r.read && !r.archived && Before(now, r.expiresAt) && wants(r)
    && |Behind(listing.items, Some(Position(r.updatedAt, r.id)))| < 20
  }

  ghost predicate IsOfferFor(listing: Listing, c: Checkpoint, now: string, wants: Record -> bool, o: Offer)
  {
    exists r :: IsOffered(listing, c, now, wants, r) && o == Offer(r.id, r.kind, r.version, Position(r.updatedAt, r.id))
  }

  lemma LaterOnes(records: seq<Record>, k: nat)
    requires Ascending(Places(records)) && DistinctRecords(records) && k < |records|
    ensures |Behind(records, Some(At(records[k])))| == |records| - 1 - k
  {
    hide Precedes, Behind;
    var later := set i | k < i < |records| :: records[i];
    forall r ensures r in Behind(records, Some(At(records[k]))) <==> r in later {
      BehindIs(records, Some(At(records[k])), r);
      if r in records {
        var i :| 0 <= i < |records| && records[i] == r;
        IsLater(records, k, i);
        assert i > k ==> records[i] in later;
      }
    }
    CountLater(records, k);
    assert Behind(records, Some(At(records[k]))) == later;
  }

  lemma IsLater(records: seq<Record>, k: nat, i: nat)
    requires Ascending(Places(records)) && k < |records| && i < |records|
    ensures Precedes(At(records[k]), At(records[i])) <==> k < i
  {
    hide Precedes;
    var places := Places(records);
    assert places[k] == At(records[k]) && places[i] == At(records[i]);
    PrecedesIsTotal(places[k], places[i]);
  }

  lemma BehindIs(records: seq<Record>, c: Checkpoint, r: Record)
    ensures r in Behind(records, c) <==> r in records && After(At(r), c)
  {
  }

  lemma {:induction false} CountLater(records: seq<Record>, k: nat)
    requires DistinctRecords(records) && k < |records|
    ensures |set i | k < i < |records| :: records[i]| == |records| - 1 - k
    decreases |records| - k
  {
    var later := set i | k < i < |records| :: records[i];
    if k + 1 == |records| {
      assert later == {};
    } else {
      CountLater(records, k + 1);
      var rest := set i | k + 1 < i < |records| :: records[i];
      assert later == rest + {records[k + 1]};
      assert records[k + 1] !in rest;
    }
  }

  lemma BehindSame(records: seq<Record>, others: seq<Record>, c: Checkpoint)
    requires forall r :: r in records <==> r in others
    ensures Behind(records, c) == Behind(others, c)
  {
    hide Before;
  }

  /** Sorted records: those behind a checkpoint are the newer ones. */
  lemma NewerCount(ordered: seq<Record>, c: Checkpoint)
    requires Ascending(Places(ordered)) && DistinctRecords(ordered)
    ensures |Newer(ordered, c)| == |Behind(ordered, c)|
    decreases |ordered|
  {
    hide Precedes, Behind;
    if ordered == [] {
      forall r ensures r !in Behind(ordered, c) { BehindIs(ordered, c, r); }
      assert Behind(ordered, c) == {};
    } else {
      var first, rest := ordered[0], ordered[1..];
      assert Places(rest) == Places(ordered)[1..];
      NewerCount(rest, c);
      var more: set<Record> := if After(At(first), c) then {first} else {};
      forall r ensures r in Behind(ordered, c) <==> r in Behind(rest, c) + more {
        BehindIs(ordered, c, r);
        BehindIs(rest, c, r);
        assert ordered == [first] + rest;
      }
      assert Behind(ordered, c) == Behind(rest, c) + more;
      BehindIs(rest, c, first);
      assert first !in rest;
    }
  }

  /** The newer records end where the sorted list ends. */
  lemma {:induction false} NewerEnds(ordered: seq<Record>, c: Checkpoint)
    requires Ascending(Places(ordered))
    ensures |Newer(ordered, c)| <= |ordered| && Newer(ordered, c) == ordered[|ordered| - |Newer(ordered, c)|..]
  {
    hide Precedes, After;
    if ordered != [] {
      var first, rest := ordered[0], ordered[1..];
      assert Places(rest) == Places(ordered)[1..];
      NewerEnds(rest, c);
      var n := |Newer(rest, c)|;
      if After(At(first), c) {
        AllLaterAreNewer(ordered, c);
      } else {
        assert Newer(ordered, c) == [] + Newer(rest, c);
        assert ordered[|ordered| - n..] == rest[|rest| - n..];
      }
    }
  }

  lemma {:induction false} AllLaterAreNewer(ordered: seq<Record>, c: Checkpoint)
    requires Ascending(Places(ordered)) && ordered != [] && After(At(ordered[0]), c)
    ensures Newer(ordered, c) == ordered
  {
    hide Precedes;
    var first, rest := ordered[0], ordered[1..];
    assert Places(rest) == Places(ordered)[1..];
    if rest != [] {
      assert Places(ordered)[0] == At(first) && Places(ordered)[1] == At(rest[0]);
      if c.Some? { PrecedesIsTransitive(c.value, At(first), At(rest[0])); }
      AllLaterAreNewer(rest, c);
    }
  }

  /** Of the sorted records exactly the last twenty newer ones are looked at. */
  lemma BoundedAre(ordered: seq<Record>, c: Checkpoint, r: Record)
    requires Ascending(Places(ordered)) && DistinctRecords(ordered)
    ensures r in Bounded(Newer(ordered, c)) <==> r in Behind(ordered, c) && |Behind(ordered, Some(At(r)))| < 20
  {
    hide Precedes, Behind, Newer, Bounded;
    NewerEnds(ordered, c);
    NewerIs(ordered, c);
    BehindIs(ordered, c, r);
    var newer := Newer(ordered, c);
    var n := |ordered| - |newer|;
    if r in newer {
      var i :| 0 <= i < |newer| && newer[i] == r;
      assert ordered[n + i] == r;
      LaterOnes(ordered, n + i);
      assert DistinctRecords(newer) by { TailIsDistinct(ordered, n); }
      BoundedAt(newer, i);
    } else {
      BoundedFrom(newer, r);
    }
  }

  lemma TailIsDistinct(records: seq<Record>, n: nat)
    requires DistinctRecords(records) && n <= |records|
    ensures DistinctRecords(records[n..])
  {
  }

  lemma BoundedAt(records: seq<Record>, i: nat)
    requires DistinctRecords(records) && i < |records|
    ensures records[i] in Bounded(records) <==> |records| - 1 - i < 20
  {
    var b := Bounded(records);
    var cut := |records| - |b|;
    assert forall j :: 0 <= j < |b| ==> b[j] == records[cut + j];
    if i >= cut { assert b[i - cut] == records[i]; }
  }

  lemma BoundedFrom(records: seq<Record>, r: Record)
    ensures r in Bounded(records) ==> r in records
  {
  }

  lemma SortedStaysDistinct(listing: Listing)
    requires DistinctRecords(listing.items)
    ensures DistinctRecords(Sort(listing.items)) && Ascending(Places(Sort(listing.items)))
    ensures forall r :: r in Sort(listing.items) <==> r in listing.items
  {
    hide Precedes;
    SortAscends(listing.items);
    PositionsAreOrdered();
    SortKeepsApart(Order(), DifferentIds(), listing.items);
    var sorted := Sort(listing.items);
    forall i, j | 0 <= i < j < |sorted| ensures sorted[i].id != sorted[j].id {
      assert DifferentIds()(sorted[i], sorted[j]);
    }
  }

  /**
   A page, from the listing alone: it offers exactly the unread, current and wanted records behind
   the checkpoint with fewer than twenty listed records behind them; it overflows when more than
   twenty lie behind the checkpoint; its checkpoint is the last listed place or the old one.
   */
  lemma PageIsExact(listing: Listing, c: Checkpoint, now: string, wants: Record -> bool)
    requires DistinctRecords(listing.items)
    ensures var page := Query(listing, c, false, now, wants);
            && (forall o :: o in page.items <==> IsOfferFor(listing, c, now, wants, o))
            && (page.overflow <==> listing.more || |Behind(listing.items, c)| > 20)
            && (if Behind(listing.items, c) == {} then page.checkpoint == c
                else exists r :: r in listing.items && page.checkpoint == Some(Position(r.updatedAt, r.id))
                       && Behind(listing.items, page.checkpoint) == {})
  {
    hide Precedes, Behind, Wanted, Offers, Newer, Bounded, Sort, IsOfferFor, NextCheckpoint;
    var ordered := Sort(listing.items);
    SortedStaysDistinct(listing);
    NewerCount(ordered, c);
    BehindSame(ordered, listing.items, c);
    NewerIs(ordered, c);
    NewerEnds(ordered, c);
    OfferedAre(listing, c, now, wants);
    LastIs(listing, c);
  }

  lemma OfferedAre(listing: Listing, c: Checkpoint, now: string, wants: Record -> bool)
    requires DistinctRecords(listing.items)
    ensures var items := Offers(Bounded(Newer(Sort(listing.items), c)), now, wants);
            forall o :: o in items <==> IsOfferFor(listing, c, now, wants, o)
  {
    hide Precedes, Behind, Newer, Bounded, Sort, Offers;
    var ordered := Sort(listing.items);
    SortedStaysDistinct(listing);
    var bounded := Bounded(Newer(ordered, c));
    NewerIs(ordered, c);
    assert Ascending(Places(bounded)) by { BoundedAscends(Newer(ordered, c)); }
    OffersAre(bounded, now, wants);
    forall r ensures IsOffered(listing, c, now, wants, r) <==> r in bounded && Wanted(r, now, wants) {
      BoundedAre(ordered, c, r);
      BehindSame(ordered, listing.items, c);
      BehindSame(ordered, listing.items, Some(At(r)));
    }
    forall r: Record ensures OfferOf(r) == Offer(r.id, r.kind, r.version, Position(r.updatedAt, r.id)) {
    }
  }

  lemma BoundedAscends(records: seq<Record>)
    requires Ascending(Places(records))
    ensures Ascending(Places(Bounded(records)))
  {
    hide Precedes;
    assert Places(Bounded(records)) == Bounded(Places(records));
  }

  lemma LastIs(listing: Listing, c: Checkpoint)
    requires DistinctRecords(listing.items)
    ensures var next := NextCheckpoint(Sort(listing.items), c);
            if Behind(listing.items, c) == {} then next == c
            else exists r :: r in listing.items && next == Some(Position(r.updatedAt, r.id)) && Behind(listing.items, next) == {}
  {
    hide Precedes, Behind, Sort;
    var ordered := Sort(listing.items);
    SortedStaysDistinct(listing);
    var n := |ordered|;
    if n == 0 {
      forall r ensures r !in Behind(listing.items, c) { BehindIs(listing.items, c, r); }
      assert Behind(listing.items, c) == {};
    } else {
      var last := ordered[n - 1];
      BehindIs(listing.items, c, last);
      if After(At(last), c) {
        LaterOnes(ordered, n - 1);
        BehindSame(ordered, listing.items, Some(At(last)));
        assert last in listing.items && Behind(listing.items, Some(At(last))) == {};
      } else {
        forall r ensures r !in Behind(listing.items, c) {
          BehindIs(listing.items, c, r);
          if r in listing.items {
            var i :| 0 <= i < n && ordered[i] == r;
            IsLater(ordered, i, n - 1);
            if c.Some? && Precedes(c.value, At(r)) && i < n - 1 { PrecedesIsTransitive(c.value, At(r), At(last)); }
          }
        }
        assert Behind(listing.items, c) == {};
      }
    }
  }

  /** Switching on offers nothing and takes the server's present, past every id of that instant. */
  lemma InitialPage(listing: Listing, c: Checkpoint, now: string, wants: Record -> bool)
    requires DistinctRecords(listing.items)
    ensures var page := Query(listing, c, true, now, wants);
            && page.items == [] && page.checkpoint == Some(Position(now, "ffffffff-ffff-ffff-ffff-ffffffffffff"))
            && (page.overflow <==> listing.more || |Behind(listing.items, c)| > 20)
  {
    hide Precedes, Behind, Offers, Newer, Sort;
    SortedStaysDistinct(listing);
    NewerCount(Sort(listing.items), c);
    BehindSame(Sort(listing.items), listing.items, c);
  }
}
