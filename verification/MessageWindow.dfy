/**
 Ordered, bounded windows of messages. `localeCompare` appears as the sign of the difference of
 a real rank, which every countable total preorder has; where distinct ids must not compare
 equal, the rank is required to be injective.
 */
module MessageWindow {
  import opened Wrappers
  import opened Sets
  import opened Sorting

  datatype Message = Message(id: string, createdAt: string, body: Option<string>)

  datatype Retention = Oldest | Newest

  const MAXIMUM_SAFE_INTEGER := 0x1F_FFFF_FFFF_FFFF

  type Rank = string -> real

  ghost predicate Injective(rank: Rank)
  {
    forall s, t :: rank(s) == rank(t) ==> s == t
  }

  // ----- order -----

  function LocaleCompare(rank: Rank, left: string, right: string): int
  {
    if rank(left) < rank(right) then -1 else if rank(left) > rank(right) then 1 else 0
  }

  function CompareMessages(rank: Rank, left: Message, right: Message): int
  {
    var byTime := LocaleCompare(rank, left.createdAt, right.createdAt);
    if byTime != 0 then byTime else LocaleCompare(rank, left.id, right.id)
  }

  predicate Before(rank: Rank, left: Message, right: Message)
  {
    CompareMessages(rank, left, right) < 0
  }

  /** Earlier creation comes first, and the smaller id at equal times. */
  lemma BeforeIs(rank: Rank, left: Message, right: Message)
    ensures Before(rank, left, right) <==>
              rank(left.createdAt) < rank(right.createdAt)
              || (rank(left.createdAt) == rank(right.createdAt) && rank(left.id) < rank(right.id))
  {
  }

  ghost predicate DistinctIds(messages: seq<Message>)
  {
    forall i, j :: 0 <= i < j < |messages| ==> messages[i].id != messages[j].id
  }

  /** Strictly increasing and one message per id. */
  ghost predicate Ordered(rank: Rank, messages: seq<Message>)
  {
    DistinctIds(messages) && forall i, j :: 0 <= i < j < |messages| ==> Before(rank, messages[i], messages[j])
  }

  predicate HasId(messages: seq<Message>, id: string)
  {
    exists i :: 0 <= i < |messages| && messages[i].id == id
  }

  /** An ordered list is determined by its elements. */
  lemma {:induction false} OrderedIsUnique(rank: Rank, a: seq<Message>, b: seq<Message>)
    requires Ordered(rank, a) && Ordered(rank, b)
    requires forall x :: x in a <==> x in b
    ensures a == b
  {
    assert b != [] ==> b[0] in a;
    if a != [] {
      assert a[0] in b;
      assert a[0] == b[0];
      assert a[0] !in a[1..] && a[0] !in b[1..];
      assert a == [a[0]] + a[1..] && b == [b[0]] + b[1..];
      forall x ensures x in a[1..] <==> x in b[1..] {
        assert x in a <==> x == a[0] || x in a[1..];
        assert x in b <==> x == b[0] || x in b[1..];
      }
      OrderedIsUnique(rank, a[1..], b[1..]);
    }
  }

  // ----- the insertion-ordered map and the sort -----

  /** `Map.set`: an id that is present keeps its place. */
  function Put(byId: seq<Message>, message: Message): seq<Message>
  {
    if byId == [] then [message]
    else if byId[0].id == message.id then [message] + byId[1..]
    else [byId[0]] + Put(byId[1..], message)
  }

  function ById(messages: seq<Message>): seq<Message>
  {
    if messages == [] then [] else Put(ById(messages[..|messages| - 1]), messages[|messages| - 1])
  }

  function Order(rank: Rank): (Message, Message) -> bool { (left, right) => Before(rank, left, right) }

  function Insert(rank: Rank, messages: seq<Message>, message: Message): seq<Message>
  {
    Sorting.Insert(Order(rank), messages, message)
  }

  function Sort(rank: Rank, messages: seq<Message>): seq<Message> { Sorting.Sort(Order(rank), messages) }

  function Merged(rank: Rank, messages: seq<Message>): seq<Message>
  {
    Sort(rank, ById(messages))
  }

  /** No later message of the list has its id. */
  ghost predicate Latest(messages: seq<Message>, x: Message)
  {
    exists i :: 0 <= i < |messages| && messages[i] == x && !HasId(messages[i + 1..], x.id)
  }

  lemma {:induction false} PutReplaces(byId: seq<Message>, message: Message, x: Message)
    requires DistinctIds(byId)
    ensures var r := Put(byId, message);
            && DistinctIds(r) && (x in r <==> x == message || (x in byId && x.id != message.id))
            && (forall id :: HasId(r, id) <==> HasId(byId, id) || id == message.id)
  {
    var r := Put(byId, message);
    if byId == [] {
      assert r[0].id == message.id;
    } else {
      var rest := byId[1..];
      assert forall i :: 0 < i < |byId| ==> byId[i] == rest[i - 1];
      if byId[0].id == message.id {
        assert forall i :: 0 < i < |byId| ==> r[i] == byId[i];
        assert r[0].id == byId[0].id;
        assert byId == [byId[0]] + rest;
      } else {
        PutReplaces(rest, message, x);
        var t := Put(rest, message);
        assert r == [byId[0]] + t && byId == [byId[0]] + rest;
        assert forall id :: HasId(r, id) <==> byId[0].id == id || HasId(t, id) by { HasIdOfMore(byId[0], t); }
        assert forall id :: HasId(byId, id) <==> byId[0].id == id || HasId(rest, id) by { HasIdOfMore(byId[0], rest); }
        assert !HasId(t, byId[0].id);
      }
    }
  }

  lemma HasIdOfMore(first: Message, rest: seq<Message>)
    ensures forall id :: HasId([first] + rest, id) <==> first.id == id || HasId(rest, id)
  {
    var all := [first] + rest;
    forall id ensures HasId(all, id) <==> first.id == id || HasId(rest, id) {
      assert all[0] == first;
      if HasId(rest, id) {
        var i :| 0 <= i < |rest| && rest[i].id == id;
        assert all[i + 1].id == id;
      }
    }
  }

  lemma HasIdOfConcat(a: seq<Message>, b: seq<Message>, id: string)
    ensures HasId(a + b, id) <==> HasId(a, id) || HasId(b, id)
  {
    if HasId(a, id) {
      var i :| 0 <= i < |a| && a[i].id == id;
      assert (a + b)[i].id == id;
    }
    if HasId(b, id) {
      var i :| 0 <= i < |b| && b[i].id == id;
      assert (a + b)[|a| + i].id == id;
    }
  }

  /** The latest messages of a concatenation. */
  lemma LatestOfBack(a: seq<Message>, b: seq<Message>, x: Message)
    requires Latest(b, x)
    ensures Latest(a + b, x)
  {
    var i :| 0 <= i < |b| && b[i] == x && !HasId(b[i + 1..], x.id);
    assert (a + b)[|a| + i + 1..] == b[i + 1..];
    assert (a + b)[|a| + i] == x;
  }

  lemma LatestOfFront(a: seq<Message>, b: seq<Message>, x: Message)
    requires Latest(a, x) && !HasId(b, x.id)
    ensures Latest(a + b, x)
  {
    hide HasId;
    var i :| 0 <= i < |a| && a[i] == x && !HasId(a[i + 1..], x.id);
    assert (a + b)[i + 1..] == a[i + 1..] + b;
    HasIdOfConcat(a[i + 1..], b, x.id);
    assert (a + b)[i] == x;
  }

  lemma LatestComesFrom(a: seq<Message>, b: seq<Message>, x: Message)
    requires Latest(a + b, x)
    ensures Latest(b, x) || (Latest(a, x) && !HasId(b, x.id))
  {
    hide HasId;
    var i :| 0 <= i < |a + b| && (a + b)[i] == x && !HasId((a + b)[i + 1..], x.id);
    if i < |a| {
      assert (a + b)[i + 1..] == a[i + 1..] + b;
      HasIdOfConcat(a[i + 1..], b, x.id);
    } else {
      assert (a + b)[i + 1..] == b[i - |a| + 1..];
      assert b[i - |a|] == x;
    }
  }

  lemma LatestOfConcat(a: seq<Message>, b: seq<Message>, x: Message)
    ensures Latest(a + b, x) <==> Latest(b, x) || (Latest(a, x) && !HasId(b, x.id))
  {
    hide Latest, HasId;
    if Latest(a + b, x) { LatestComesFrom(a, b, x); }
    if Latest(b, x) { LatestOfBack(a, b, x); }
    if Latest(a, x) && !HasId(b, x.id) { LatestOfFront(a, b, x); }
  }

  lemma LatestOfOne(m: Message, x: Message)
    ensures Latest([m], x) <==> x == m
    ensures HasId([m], x.id) <==> x.id == m.id
  {
    assert [m][0] == m;
    if x == m { assert [m][1..] == []; }
  }

  /** In a list with one message per id every message is the latest. */
  lemma DistinctAreLatest(messages: seq<Message>, x: Message)
    requires DistinctIds(messages)
    ensures Latest(messages, x) <==> x in messages
  {
    if x in messages {
      var i :| 0 <= i < |messages| && messages[i] == x;
      var later := messages[i + 1..];
      assert forall j :: 0 <= j < |later| ==> later[j] == messages[i + 1 + j];
    }
  }

  lemma {:induction false} ByIdKeepsLatest(messages: seq<Message>, x: Message)
    ensures DistinctIds(ById(messages))
    ensures x in ById(messages) <==> Latest(messages, x)
  {
    if messages != [] {
      var n := |messages| - 1;
      ByIdKeepsLatest(messages[..n], x);
      PutReplaces(ById(messages[..n]), messages[n], x);
      LatestOfConcat(messages[..n], [messages[n]], x);
      LatestOfOne(messages[n], x);
      assert messages == messages[..n] + [messages[n]];
    }
  }

  lemma PrependOrders(rank: Rank, first: Message, rest: seq<Message>)
    requires Ordered(rank, rest)
    requires forall i :: 0 <= i < |rest| ==> Before(rank, first, rest[i]) && first.id != rest[i].id
    ensures Ordered(rank, [first] + rest)
  {
    hide Before;
    var all := [first] + rest;
    assert forall i :: 0 < i < |all| ==> all[i] == rest[i - 1];
  }

  lemma BeforeIsTotal(rank: Rank, x: Message, y: Message)
    requires Injective(rank) && x.id != y.id
    ensures Before(rank, x, y) <==> !Before(rank, y, x)
  {
  }

  lemma BeforeIsOrder(rank: Rank)
    ensures IsOrder(Order(rank))
  {
  }

  function DifferentIds(): (Message, Message) -> bool { (x: Message, y: Message) => x.id != y.id }

  /** A weakly sorted list with one message per id is strictly ordered. */
  lemma SortedIsOrdered(rank: Rank, messages: seq<Message>)
    requires Injective(rank) && IsSorted(Order(rank), messages) && Pairwise(DifferentIds(), messages)
    ensures Ordered(rank, messages)
  {
    hide Before, Injective;
    forall i, j | 0 <= i < j < |messages| ensures Before(rank, messages[i], messages[j]) && messages[i].id != messages[j].id {
      assert DifferentIds()(messages[i], messages[j]);
      BeforeIsTotal(rank, messages[i], messages[j]);
    }
  }

  lemma InsertOrders(rank: Rank, messages: seq<Message>, message: Message)
    requires Injective(rank) && Ordered(rank, messages) && !HasId(messages, message.id)
    ensures Ordered(rank, Insert(rank, messages, message))
    ensures forall x :: x in Insert(rank, messages, message) <==> x in messages || x == message
  {
    hide Injective;
    BeforeIsOrder(rank);
    InsertSorts(Order(rank), messages, message);
    InsertKeepsApart(Order(rank), DifferentIds(), messages, message);
    SortedIsOrdered(rank, Insert(rank, messages, message));
  }

  lemma SortOrders(rank: Rank, messages: seq<Message>)
    requires Injective(rank) && DistinctIds(messages)
    ensures Ordered(rank, Sort(rank, messages))
    ensures forall x :: x in Sort(rank, messages) <==> x in messages
  {
    hide Injective, Before;
    BeforeIsOrder(rank);
    SortSorts(Order(rank), messages);
    SortKeepsApart(Order(rank), DifferentIds(), messages);
    SortedIsOrdered(rank, Sort(rank, messages));
  }

  /** Merging gives the one ordered list of the latest message of each id. */
  lemma MergedIsOrderedLatest(rank: Rank, messages: seq<Message>)
    requires Injective(rank)
    ensures Ordered(rank, Merged(rank, messages))
    ensures forall x :: x in Merged(rank, messages) <==> Latest(messages, x)
  {
    forall x ensures DistinctIds(ById(messages)) && (x in ById(messages) <==> Latest(messages, x)) {
      ByIdKeepsLatest(messages, x);
    }
    assert DistinctIds(ById(messages)) by { ByIdKeepsLatest(messages, Message("", "", None)); }
    SortOrders(rank, ById(messages));
  }

  // ----- trimming -----

  predicate IsMaximum(maximum: int)
  {
    1 <= maximum <= MAXIMUM_SAFE_INTEGER
  }

  function Kept(messages: seq<Message>, retention: Retention, maximum: nat): seq<Message>
  {
    if |messages| <= maximum then messages
    else if retention.Newest? then messages[|messages| - maximum..]
    else messages[..maximum]
  }

  function TrimWindow(messages: seq<Message>, retention: Retention, maximum: int): Result<seq<Message>, string>
  {
    if !IsMaximum(maximum) then Failure("message window maximum must be a positive integer")
    else Success(Kept(messages, retention, maximum))
  }

  function Merge(rank: Rank, current: seq<Message>, incoming: seq<Message>, retention: Retention, maximum: int): Result<seq<Message>, string>
  {
    TrimWindow(Merged(rank, current + incoming), retention, maximum)
  }

  // ----- merging step by step -----

  /** Messages of one id carry one creation time. */
  ghost predicate FixedTimes(messages: seq<Message>)
  {
    forall x, y :: x in messages && y in messages && x.id == y.id ==> x.createdAt == y.createdAt
  }

  function Filter(messages: seq<Message>, keep: set<Message>): seq<Message>
  {
    if messages == [] then []
    else (if messages[0] in keep then [messages[0]] else []) + Filter(messages[1..], keep)
  }

  lemma {:induction false} FilterOrders(rank: Rank, messages: seq<Message>, keep: set<Message>)
    requires Ordered(rank, messages)
    ensures Ordered(rank, Filter(messages, keep))
    ensures forall x :: x in Filter(messages, keep) <==> x in messages && x in keep
  {
    hide Before;
    if messages != [] {
      var rest := messages[1..];
      FilterOrders(rank, rest, keep);
      assert messages == [messages[0]] + rest;
      assert forall x :: x in rest ==> Before(rank, messages[0], x) && x.id != messages[0].id;
      PrependOrders(rank, messages[0], Filter(rest, keep));
    }
  }

  lemma {:induction false} FilterOfConcat(a: seq<Message>, b: seq<Message>, keep: set<Message>)
    ensures Filter(a + b, keep) == Filter(a, keep) + Filter(b, keep)
  {
    if a == [] {
      assert a + b == b;
    } else {
      var head := if a[0] in keep then [a[0]] else [];
      assert (a + b)[1..] == a[1..] + b && (a + b)[0] == a[0];
      FilterOfConcat(a[1..], b, keep);
      assert Filter(a + b, keep) == head + Filter(a[1..] + b, keep);
      assert head + (Filter(a[1..], keep) + Filter(b, keep)) == (head + Filter(a[1..], keep)) + Filter(b, keep);
    }
  }

  lemma {:induction false} FilterKeepsAll(messages: seq<Message>, keep: set<Message>)
    requires forall x :: x in messages ==> x in keep
    ensures Filter(messages, keep) == messages
  {
    if messages != [] {
      assert messages[0] in messages;
      FilterKeepsAll(messages[1..], keep);
    }
  }

  lemma {:induction false} FilterShortens(messages: seq<Message>, keep: set<Message>)
    ensures |Filter(messages, keep)| <= |messages|
  {
    if messages != [] { FilterShortens(messages[1..], keep); }
  }

  /** Filtering out messages that are trimmed anyway leaves the window. */
  lemma KeptOfFilter(messages: seq<Message>, keep: set<Message>, retention: Retention, maximum: nat)
    requires forall x :: x in Kept(messages, retention, maximum) ==> x in keep
    ensures Kept(Filter(messages, keep), retention, maximum) == Kept(messages, retention, maximum)
  {
    hide Filter;
    if |messages| <= maximum {
      FilterKeepsAll(messages, keep);
    } else {
      var cut := if retention.Newest? then |messages| - maximum else maximum;
      var front, back := messages[..cut], messages[cut..];
      assert messages == front + back;
      FilterOfConcat(front, back, keep);
      FilterShortens(front, keep);
      FilterShortens(back, keep);
      if retention.Newest? { FilterKeepsAll(back, keep); } else { FilterKeepsAll(front, keep); }
    }
  }

  /** A shorter ordered list that still holds everything kept is trimmed to the same window. */
  lemma KeptOfSublist(rank: Rank, all: seq<Message>, some: seq<Message>, retention: Retention, maximum: nat)
    requires Ordered(rank, all) && Ordered(rank, some)
    requires forall x :: x in some ==> x in all
    requires forall x :: x in Kept(all, retention, maximum) ==> x in some
    ensures Kept(some, retention, maximum) == Kept(all, retention, maximum)
  {
    hide Filter, Kept, Ordered;
    var keep := set x | x in some;
    FilterOrders(rank, all, keep);
    OrderedIsUnique(rank, some, Filter(all, keep));
    KeptOfFilter(all, keep, retention, maximum);
  }

  function Ids(messages: seq<Message>): set<string>
  {
    set i | 0 <= i < |messages| :: messages[i].id
  }

  lemma {:induction false} IdsCount(messages: seq<Message>)
    ensures |Ids(messages)| <= |messages| && (DistinctIds(messages) ==> |Ids(messages)| == |messages|)
  {
    if messages != [] {
      var n := |messages| - 1;
      IdsCount(messages[..n]);
      assert Ids(messages) == Ids(messages[..n]) + {messages[n].id};
    }
  }

  lemma IdsWithin(a: seq<Message>, b: seq<Message>)
    requires DistinctIds(a) && forall y :: y in a ==> HasId(b, y.id)
    ensures |a| <= |b|
  {
    IdsCount(a);
    IdsCount(b);
    forall id | id in Ids(a) ensures id in Ids(b) {
      var i :| 0 <= i < |a| && a[i].id == id;
      assert a[i] in a;
      var j :| 0 <= j < |b| && b[j].id == id;
    }
    Smaller(Ids(a), Ids(b));
  }

  /** The messages that are retained in preference to the one at `i`. */
  function Beyond(messages: seq<Message>, i: nat, retention: Retention): seq<Message>
    requires i < |messages|
  {
    if retention.Newest? then messages[i + 1..] else messages[..i]
  }

  /** An id that lies beyond a message in one list lies beyond it in the other. */
  lemma StaysBeyond(rank: Rank, first: seq<Message>, i: nat, second: seq<Message>, p: nat, j: nat, retention: Retention)
    requires Ordered(rank, first) && Ordered(rank, second) && FixedTimes(first + second)
    requires i < |first| && p < |second| && first[i] == second[p]
    requires j < |first| && (if retention.Newest? then i < j else j < i) && HasId(second, first[j].id)
    ensures HasId(Beyond(second, p, retention), first[j].id)
  {
    hide FixedTimes;
    var q :| 0 <= q < |second| && second[q].id == first[j].id;
    assert second[q].createdAt == first[j].createdAt by {
      assert first[j] in first + second && second[q] in first + second;
      FixedTime(first + second, first[j], second[q]);
    }
    assert CompareMessages(rank, second[q], second[p]) == CompareMessages(rank, first[j], first[i]);
    if retention.Newest? {
      assert Before(rank, second[p], second[q]);
      assert Beyond(second, p, retention)[q - p - 1] == second[q];
    } else {
      assert Before(rank, second[q], second[p]);
      assert Beyond(second, p, retention)[q] == second[q];
    }
  }

  lemma FixedTime(messages: seq<Message>, x: Message, y: Message)
    requires FixedTimes(messages) && x in messages && y in messages && x.id == y.id
    ensures x.createdAt == y.createdAt
  {
  }

  /** How many messages are retained in preference to the message. */
  function Rivals(messages: seq<Message>, x: Message, retention: Retention): nat
  {
    var i := FindIndex(messages, x.id);
    if i < 0 then 0 else |Beyond(messages, i, retention)|
  }

  lemma PlaceOf(messages: seq<Message>, x: Message)
    requires DistinctIds(messages) && x in messages
    ensures 0 <= FindIndex(messages, x.id) < |messages| && messages[FindIndex(messages, x.id)] == x
  {
    var i :| 0 <= i < |messages| && messages[i] == x;
    assert messages[i].id == x.id;
  }

  /** In any list that has all those ids at the same times a message keeps its rivals. */
  lemma RivalsStay(rank: Rank, first: seq<Message>, second: seq<Message>, x: Message, retention: Retention)
    requires Ordered(rank, first) && Ordered(rank, second) && x in first && x in second
    requires forall y :: y in first ==> HasId(second, y.id)
    requires FixedTimes(first + second)
    ensures Rivals(first, x, retention) <= Rivals(second, x, retention)
  {
    hide HasId, FixedTimes, Before, FindIndex;
    PlaceOf(first, x);
    PlaceOf(second, x);
    var i, p := FindIndex(first, x.id), FindIndex(second, x.id);
    var beyond := Beyond(first, i, retention);
    forall y ensures y in beyond ==> HasId(Beyond(second, p, retention), y.id) {
      if y in beyond {
        var j :| 0 <= j < |first| && first[j] == y && (if retention.Newest? then i < j else j < i);
        assert first[j] in first;
        StaysBeyond(rank, first, i, second, p, j, retention);
      }
    }
    IdsWithin(beyond, Beyond(second, p, retention));
  }

  /** A message that is trimmed stays trimmed in any list that has all those ids at the same times. */
  lemma TrimmedStaysTrimmed(rank: Rank, first: seq<Message>, second: seq<Message>, x: Message, retention: Retention, maximum: nat)
    requires Ordered(rank, first) && Ordered(rank, second) && x in first && x in second
    requires x !in Kept(first, retention, maximum)
    requires forall y :: y in first ==> HasId(second, y.id)
    requires FixedTimes(first + second)
    ensures x !in Kept(second, retention, maximum)
  {
    hide Kept, HasId, FixedTimes, Ordered, Rivals;
    RivalsStay(rank, first, second, x, retention);
    KeptByRivals(rank, first, x, retention, maximum);
    KeptByRivals(rank, second, x, retention, maximum);
  }

  /** A message is kept exactly when it has fewer than `maximum` rivals. */
  lemma KeptByRivals(rank: Rank, messages: seq<Message>, x: Message, retention: Retention, maximum: nat)
    requires Ordered(rank, messages) && x in messages
    ensures x in Kept(messages, retention, maximum) <==> Rivals(messages, x, retention) < maximum
  {
    hide Kept, FindIndex, Before;
    PlaceOf(messages, x);
    OutsideKept(rank, messages, FindIndex(messages, x.id), retention, maximum);
  }

  /** A message is kept when fewer than `maximum` messages lie beyond it. */
  lemma OutsideKept(rank: Rank, messages: seq<Message>, i: nat, retention: Retention, maximum: nat)
    requires Ordered(rank, messages) && i < |messages|
    ensures messages[i] in Kept(messages, retention, maximum) <==>
              (if retention.Newest? then |messages| - i - 1 else i) < maximum
  {
    var kept := Kept(messages, retention, maximum);
    if |messages| > maximum {
      var start := if retention.Newest? then |messages| - maximum else 0;
      assert forall j :: 0 <= j < |kept| ==> kept[j] == messages[start + j];
      if start <= i < start + maximum { assert kept[i - start] == messages[i]; }
    }
  }

  /** Merging in two steps gives what merging at once gives. */
  ghost predicate IsIncremental(
    rank: Rank, current: seq<Message>, a: seq<Message>, b: seq<Message>, retention: Retention, maximum: int)
    requires IsMaximum(maximum)
  {
    Merge(rank, Merge(rank, current, a, retention, maximum).value, b, retention, maximum)
    == Merge(rank, current, a + b, retention, maximum)
  }

  /** A message of the first merge that the second batch leaves alone. */
  predicate IsUntouched(rank: Rank, merged: seq<Message>, b: seq<Message>, x: Message)
  {
    x in Merged(rank, merged) && !HasId(b, x.id)
  }

  /** Untouched messages that were trimmed have enough rivals in the whole as well. */
  ghost predicate RivalsSuffice(rank: Rank, merged: seq<Message>, b: seq<Message>, retention: Retention, maximum: int)
  {
    forall x :: IsUntouched(rank, merged, b, x) && Rivals(Merged(rank, merged), x, retention) >= maximum ==>
      Rivals(Merged(rank, merged + b), x, retention) >= maximum
  }

  /** What the second step knows is part of the whole. */
  lemma SomeOfAll(rank: Rank, merged: seq<Message>, b: seq<Message>, retention: Retention, maximum: nat, x: Message)
    requires Injective(rank)
    ensures Latest(Kept(Merged(rank, merged), retention, maximum) + b, x) <==>
              Latest(merged + b, x) && (IsUntouched(rank, merged, b, x) ==> x in Kept(Merged(rank, merged), retention, maximum))
  {
    hide Merged, Kept;
    var trimmed := Kept(Merged(rank, merged), retention, maximum);
    MergedIsOrderedLatest(rank, merged);
    KeptIsOrdered(rank, Merged(rank, merged), retention, maximum);
    LatestOfConcat(trimmed, b, x);
    LatestOfConcat(merged, b, x);
    DistinctAreLatest(trimmed, x);
    if Latest(b, x) { LatestHasId(b, x); }
  }

  lemma LatestHasId(messages: seq<Message>, x: Message)
    requires Latest(messages, x)
    ensures HasId(messages, x.id)
  {
  }

  /** For one maximum: merging is incremental exactly when the rivals of trimmed, untouched messages suffice. */
  lemma IncrementalExactly(
    rank: Rank, current: seq<Message>, a: seq<Message>, b: seq<Message>, retention: Retention, maximum: int)
    requires Injective(rank) && IsMaximum(maximum)
    ensures IsIncremental(rank, current, a, b, retention, maximum) <==> RivalsSuffice(rank, current + a, b, retention, maximum)
  {
    hide Merged, Kept, Rivals, IsUntouched, HasId;
    var first := Merged(rank, current + a);
    var trimmed := Kept(first, retention, maximum);
    var all, some := Merged(rank, current + a + b), Merged(rank, trimmed + b);
    assert current + (a + b) == current + a + b;
    MergedIsOrderedLatest(rank, current + a + b);
    MergedIsOrderedLatest(rank, trimmed + b);
    forall x ensures x in some <==> x in all && (IsUntouched(rank, current + a, b, x) ==> x in trimmed) {
      SomeOfAll(rank, current + a, b, retention, maximum, x);
    }
    forall x | IsUntouched(rank, current + a, b, x)
      ensures x in all && (x in trimmed <==> Rivals(first, x, retention) < maximum)
              && (x in Kept(all, retention, maximum) <==> Rivals(all, x, retention) < maximum)
    {
      UntouchedRivals(rank, current + a, b, x, retention, maximum);
    }
    KeptIsOrdered(rank, all, retention, maximum);
    KeptIsOrdered(rank, some, retention, maximum);
    if RivalsSuffice(rank, current + a, b, retention, maximum) {
      KeptOfSublist(rank, all, some, retention, maximum);
    } else {
      var x :| IsUntouched(rank, current + a, b, x) && Rivals(first, x, retention) >= maximum && Rivals(all, x, retention) < maximum;
      assert x in Kept(all, retention, maximum) && x !in Kept(some, retention, maximum);
    }
  }

  lemma UntouchedRivals(rank: Rank, merged: seq<Message>, b: seq<Message>, x: Message, retention: Retention, maximum: nat)
    requires Injective(rank) && IsUntouched(rank, merged, b, x)
    ensures x in Merged(rank, merged) && x in Merged(rank, merged + b)
    ensures x in Kept(Merged(rank, merged), retention, maximum) <==> Rivals(Merged(rank, merged), x, retention) < maximum
    ensures x in Kept(Merged(rank, merged + b), retention, maximum) <==> Rivals(Merged(rank, merged + b), x, retention) < maximum
  {
    hide Merged, Kept, Rivals;
    MergedIsOrderedLatest(rank, merged);
    MergedIsOrderedLatest(rank, merged + b);
    LatestOfConcat(merged, b, x);
    KeptByRivals(rank, Merged(rank, merged), x, retention, maximum);
    KeptByRivals(rank, Merged(rank, merged + b), x, retention, maximum);
  }

  /** No untouched message loses rivals to the second batch, as far as a maximum can tell. */
  ghost predicate RivalsRemain(rank: Rank, merged: seq<Message>, b: seq<Message>, retention: Retention)
  {
    forall x :: IsUntouched(rank, merged, b, x) ==>
      Rivals(Merged(rank, merged + b), x, retention) >= MAXIMUM_SAFE_INTEGER
      || Rivals(Merged(rank, merged), x, retention) <= Rivals(Merged(rank, merged + b), x, retention)
  }

  /** For every maximum at once: merging is incremental exactly when no untouched message loses rivals. */
  lemma IncrementalForEveryMaximum(rank: Rank, current: seq<Message>, a: seq<Message>, b: seq<Message>, retention: Retention)
    requires Injective(rank)
    ensures (forall maximum :: IsMaximum(maximum) ==> IsIncremental(rank, current, a, b, retention, maximum))
            <==> RivalsRemain(rank, current + a, b, retention)
  {
    hide Merged, Rivals, IsUntouched, IsIncremental;
    forall maximum | IsMaximum(maximum)
      ensures IsIncremental(rank, current, a, b, retention, maximum) <==> RivalsSuffice(rank, current + a, b, retention, maximum)
    {
      IncrementalExactly(rank, current, a, b, retention, maximum);
    }
    if !RivalsRemain(rank, current + a, b, retention) {
      var x :| IsUntouched(rank, current + a, b, x)
               && Rivals(Merged(rank, current + a + b), x, retention) < MAXIMUM_SAFE_INTEGER
               && Rivals(Merged(rank, current + a), x, retention) > Rivals(Merged(rank, current + a + b), x, retention);
      var maximum := Rivals(Merged(rank, current + a + b), x, retention) + 1;
      assert IsMaximum(maximum) && !RivalsSuffice(rank, current + a, b, retention, maximum);
    }
  }

  /** Trimming between two merges changes nothing when no message changes its time. */
  lemma MergingIsIncremental(
    rank: Rank, current: seq<Message>, a: seq<Message>, b: seq<Message>, retention: Retention, maximum: int)
    requires Injective(rank) && FixedTimes(current + a + b) && IsMaximum(maximum)
    ensures Merge(rank, Merge(rank, current, a, retention, maximum).value, b, retention, maximum)
            == Merge(rank, current, a + b, retention, maximum)
  {
    hide Merged, Rivals, FixedTimes, HasId;
    var first, all := Merged(rank, current + a), Merged(rank, current + a + b);
    MergedIsOrderedLatest(rank, current + a);
    MergedIsOrderedLatest(rank, current + a + b);
    MergedHasIds(rank, current + a, b);
    MergedComeFrom(rank, current + a, b);
    forall x | IsUntouched(rank, current + a, b, x) ensures Rivals(first, x, retention) <= Rivals(all, x, retention) {
      LatestOfConcat(current + a, b, x);
      RivalsStay(rank, first, all, x, retention);
    }
    IncrementalExactly(rank, current, a, b, retention, maximum);
  }

  lemma KeptIsOrdered(rank: Rank, messages: seq<Message>, retention: Retention, maximum: nat)
    requires Ordered(rank, messages)
    ensures Ordered(rank, Kept(messages, retention, maximum))
    ensures forall x :: x in Kept(messages, retention, maximum) ==> x in messages
  {
  }

  lemma {:induction false} LatestExists(messages: seq<Message>, id: string) returns (x: Message)
    requires HasId(messages, id)
    ensures Latest(messages, x) && x.id == id
  {
    var i :| 0 <= i < |messages| && messages[i].id == id;
    if HasId(messages[i + 1..], id) {
      x := LatestExists(messages[i + 1..], id);
      LatestOfConcat(messages[..i + 1], messages[i + 1..], x);
      assert messages == messages[..i + 1] + messages[i + 1..];
    } else {
      x := messages[i];
    }
  }

  lemma MergedHasIds(rank: Rank, a: seq<Message>, b: seq<Message>)
    requires Injective(rank)
    ensures forall y :: y in Merged(rank, a) ==> HasId(Merged(rank, a + b), y.id)
  {
    hide Merged;
    MergedIsOrderedLatest(rank, a);
    MergedIsOrderedLatest(rank, a + b);
    forall y | y in Merged(rank, a) ensures HasId(Merged(rank, a + b), y.id) {
      HasIdOfConcat(a, b, y.id);
      assert HasId(a, y.id);
      var x := LatestExists(a + b, y.id);
      assert x in Merged(rank, a + b);
    }
  }

  lemma MergedComeFrom(rank: Rank, a: seq<Message>, b: seq<Message>)
    requires Injective(rank) && FixedTimes(a + b)
    ensures FixedTimes(Merged(rank, a) + Merged(rank, a + b))
  {
    hide Merged;
    MergedIsOrderedLatest(rank, a);
    MergedIsOrderedLatest(rank, a + b);
    assert forall x :: x in Merged(rank, a) + Merged(rank, a + b) ==> x in a + b;
  }

  // ----- inserting one message -----

  function FindIndex(messages: seq<Message>, id: string): (i: int)
    ensures -1 <= i < |messages|
    ensures i >= 0 ==> messages[i].id == id && !HasId(messages[..i], id)
    ensures i < 0 ==> !HasId(messages, id)
  {
    if messages == [] then -1
    else if messages[0].id == id then 0
    else
      var i := FindIndex(messages[1..], id);
      assert messages == [messages[0]] + messages[1..];
      HasIdOfMore(messages[0], messages[1..]);
      if i < 0 then -1
      else
        assert messages[..i + 1] == [messages[0]] + messages[1..][..i];
        HasIdOfMore(messages[0], messages[1..][..i]);
        i + 1
  }

  /** The list without its first message of that id. */
  function Without(messages: seq<Message>, id: string): seq<Message>
  {
    var i := FindIndex(messages, id);
    if i < 0 then messages else messages[..i] + messages[i + 1..]
  }

  lemma WithoutDrops(rank: Rank, messages: seq<Message>, id: string)
    requires Ordered(rank, messages)
    ensures Ordered(rank, Without(messages, id)) && !HasId(Without(messages, id), id)
    ensures forall x :: x in Without(messages, id) <==> x in messages && x.id != id
  {
    var i := FindIndex(messages, id);
    if i >= 0 {
      var rest := Without(messages, id);
      assert forall k :: 0 <= k < |rest| ==> rest[k] == messages[if k < i then k else k + 1];
      forall x ensures x in rest <==> x in messages && x.id != id {
        if x in messages && x.id != id {
          var k :| 0 <= k < |messages| && messages[k] == x;
          assert rest[if k < i then k else k - 1] == x;
        }
      }
    } else {
      assert forall k :: 0 <= k < |messages| ==> messages[k].id != id;
    }
  }

  /** An ordered list with the message in place of whatever had its id is the merge with that message. */
  lemma ReplacedIsMerged(rank: Rank, current: seq<Message>, message: Message, r: seq<Message>)
    requires Injective(rank) && Ordered(rank, current) && Ordered(rank, r)
    requires forall x :: x in r <==> x == message || (x in current && x.id != message.id)
    ensures r == Merged(rank, current + [message])
  {
    hide Merged;
    MergedIsOrderedLatest(rank, current + [message]);
    forall x ensures x in r <==> x in Merged(rank, current + [message]) {
      LatestOfConcat(current, [message], x);
      LatestOfOne(message, x);
      DistinctAreLatest(current, x);
    }
    OrderedIsUnique(rank, r, Merged(rank, current + [message]));
  }

  /** A list in the order stays in it when a message with the same place is exchanged. */
  lemma ExchangeIsMerged(rank: Rank, current: seq<Message>, i: nat, message: Message)
    requires Injective(rank) && Ordered(rank, current) && i < |current|
    requires current[i].id == message.id && CompareMessages(rank, current[i], message) == 0
    ensures current[i := message] == Merged(rank, current + [message])
  {
    hide Merged;
    var r := current[i := message];
    forall x ensures x in r <==> x == message || (x in current && x.id != message.id) {
      if x in current && x.id != message.id {
        var k :| 0 <= k < |current| && current[k] == x;
        assert r[k] == x;
      }
      assert r[i] == message;
    }
    ReplacedIsMerged(rank, current, message, r);
  }

  /** The place found by the search is the place of the insertion sort. */
  lemma {:induction false} InsertsAt(rank: Rank, messages: seq<Message>, message: Message, low: nat)
    requires low <= |messages|
    requires forall k :: 0 <= k < low ==> !Before(rank, message, messages[k])
    requires forall k :: low <= k < |messages| ==> Before(rank, message, messages[k])
    ensures messages[..low] + [message] + messages[low..] == Insert(rank, messages, message)
  {
    if low > 0 {
      var rest := messages[1..];
      InsertsAt(rank, rest, message, low - 1);
      assert messages[..low] == [messages[0]] + rest[..low - 1];
      assert messages[low..] == rest[low - 1..];
    } else if messages != [] {
      assert messages[..0] + [message] + messages[0..] == [message] + messages;
    } else {
      assert messages[..0] + [message] + messages[0..] == [message];
    }
  }

  lemma InsertIsMerged(rank: Rank, current: seq<Message>, message: Message)
    requires Injective(rank) && Ordered(rank, current)
    ensures Insert(rank, Without(current, message.id), message) == Merged(rank, current + [message])
  {
    WithoutDrops(rank, current, message.id);
    InsertOrders(rank, Without(current, message.id), message);
    ReplacedIsMerged(rank, current, message, Insert(rank, Without(current, message.id), message));
  }

  /** The binary search: in an ordered list everything before the place is not later than the message. */
  method FindPlace(rank: Rank, messages: seq<Message>, message: Message) returns (low: nat)
    ensures low <= |messages|
    ensures Ordered(rank, messages) ==> forall k :: 0 <= k < low ==> !Before(rank, message, messages[k])
    ensures Ordered(rank, messages) ==> forall k :: low <= k < |messages| ==> Before(rank, message, messages[k])
  {
    var high := |messages|;
    low := 0;
    while low < high
      invariant 0 <= low <= high <= |messages|
      invariant Ordered(rank, messages) ==> forall k :: 0 <= k < low ==> !Before(rank, message, messages[k])
      invariant Ordered(rank, messages) ==> forall k :: high <= k < |messages| ==> Before(rank, message, messages[k])
    {
      var middle := (low + high) / 2;
      if CompareMessages(rank, messages[middle], message) <= 0 {
        low := middle + 1;
      } else {
        high := middle;
      }
    }
  }

  /** The list with a message put back in at some place. */
  predicate InsertedSomewhere(rest: seq<Message>, message: Message, r: seq<Message>)
  {
    exists p :: 0 <= p <= |rest| && r == rest[..p] + [message] + rest[p..]
  }

  lemma ExchangeIsInsertion(current: seq<Message>, message: Message)
    requires FindIndex(current, message.id) >= 0
    ensures InsertedSomewhere(Without(current, message.id), message, current[FindIndex(current, message.id) := message])
  {
    var i := FindIndex(current, message.id);
    var rest := Without(current, message.id);
    assert rest[..i] == current[..i] && rest[i..] == current[i + 1..];
    assert current[i := message] == rest[..i] + [message] + rest[i..];
  }

  /** The message takes its place in the list without its id; in an ordered list that is its place in the order. */
  method UpsertOrderedMessage(rank: Rank, current: seq<Message>, message: Message) returns (r: seq<Message>)
    ensures InsertedSomewhere(Without(current, message.id), message, r)
    ensures Injective(rank) && Ordered(rank, current) ==> r == Merged(rank, current + [message])
  {
    hide Merged, Before, CompareMessages, Insert, Ordered, Without, Injective;
    var existingIndex := FindIndex(current, message.id);
    if existingIndex >= 0 && CompareMessages(rank, current[existingIndex], message) == 0 {
      r := current[existingIndex := message];
      ExchangeIsInsertion(current, message);
      if Injective(rank) && Ordered(rank, current) { ExchangeIsMerged(rank, current, existingIndex, message); }
    } else {
      var withoutCurrent := Without(current, message.id);
      var low := FindPlace(rank, withoutCurrent, message);
      r := withoutCurrent[..low] + [message] + withoutCurrent[low..];
      if Injective(rank) && Ordered(rank, current) {
        WithoutDrops(rank, current, message.id);
        InsertsAt(rank, withoutCurrent, message, low);
        InsertIsMerged(rank, current, message);
      }
    }
  }

  method UpsertMessageWindow(rank: Rank, current: seq<Message>, message: Message, retention: Retention, maximum: int)
    returns (r: Result<seq<Message>, string>)
    ensures r.Failure? <==> !IsMaximum(maximum)
    ensures Injective(rank) && Ordered(rank, current) ==> r == Merge(rank, current, [message], retention, maximum)
  {
    var upserted := UpsertOrderedMessage(rank, current, message);
    r := TrimWindow(upserted, retention, maximum);
  }

  method MergeMessageWindow(rank: Rank, current: seq<Message>, incoming: seq<Message>, retention: Retention, maximum: int)
    returns (r: Result<seq<Message>, string>)
    ensures r == Merge(rank, current, incoming, retention, maximum)
  {
    var byId: seq<Message> := [];
    for i := 0 to |current|
      invariant byId == ById(current[..i])
    {
      assert current[..i + 1] == current[..i] + [current[i]];
      byId := Put(byId, current[i]);
    }
    assert current[..|current|] == current + incoming[..0];
    for i := 0 to |incoming|
      invariant byId == ById(current + incoming[..i])
    {
      assert current + incoming[..i + 1] == current + incoming[..i] + [incoming[i]];
      byId := Put(byId, incoming[i]);
    }
    assert incoming[..|incoming|] == incoming;
    r := TrimWindow(Sort(rank, byId), retention, maximum);
  }

  // ----- a realtime feed -----

  /** The window after messages arrived one by one. */
  function Feed(rank: Rank, current: seq<Message>, incoming: seq<Message>, retention: Retention, maximum: nat): seq<Message>
  {
    if incoming == [] then current
    else
      var before := Feed(rank, current, incoming[..|incoming| - 1], retention, maximum);
      var message := incoming[|incoming| - 1];
      Kept(Insert(rank, Without(before, message.id), message), retention, maximum)
  }

  /** Any number of realtime updates equals one merge. */
  lemma {:induction false} FeedIsOneMerge(
    rank: Rank, current: seq<Message>, incoming: seq<Message>, retention: Retention, maximum: int)
    requires Injective(rank) && IsMaximum(maximum) && Ordered(rank, current) && |current| <= maximum
    requires FixedTimes(current + incoming)
    ensures Merge(rank, current, incoming, retention, maximum) == Success(Feed(rank, current, incoming, retention, maximum))
    ensures Ordered(rank, Feed(rank, current, incoming, retention, maximum))
    decreases |incoming|
  {
    hide Merged;
    MergedIsOrderedLatest(rank, current + incoming);
    KeptIsOrdered(rank, Merged(rank, current + incoming), retention, maximum);
    if incoming == [] {
      forall x ensures x in current <==> x in Merged(rank, current + incoming) {
        assert current + incoming == current;
        DistinctAreLatest(current, x);
      }
      OrderedIsUnique(rank, current, Merged(rank, current + incoming));
    } else {
      var n := |incoming| - 1;
      assert incoming == incoming[..n] + [incoming[n]];
      assert current + incoming == current + incoming[..n] + [incoming[n]];
      FeedIsOneMerge(rank, current, incoming[..n], retention, maximum);
      MergingIsIncremental(rank, current, incoming[..n], [incoming[n]], retention, maximum);
      InsertIsMerged(rank, Feed(rank, current, incoming[..n], retention, maximum), incoming[n]);
    }
  }

  /** A message that moves back in time makes the trim between two merges visible. */
  lemma MovedTimesAreNotIncremental(rank: Rank)
    requires Injective(rank) && rank("1") < rank("2") < rank("3")
    ensures var c, a, b := [Message("a", "2", None)], [Message("b", "3", None)], [Message("b", "1", None)];
            && Merge(rank, Merge(rank, c, a, Newest, 1).value, b, Newest, 1) == Success(b)
            && Merge(rank, c, a + b, Newest, 1) == Success(c)
  {
    hide Merged;
    var c, a, b := Message("a", "2", None), Message("b", "3", None), Message("b", "1", None);
    assert [c] + ([a] + [b]) == [c, a] + [b];
    PairIsMerged(rank, c, a);
    ReplacedIsMerged(rank, [a], b, [b]);
    ReplacedIsMerged(rank, [c, a], b, [b, c]);
  }

  lemma PairIsMerged(rank: Rank, first: Message, second: Message)
    requires Injective(rank) && first.id != second.id && Before(rank, first, second)
    ensures Ordered(rank, [first, second]) && Merged(rank, [first] + [second]) == [first, second]
  {
    hide Merged;
    ReplacedIsMerged(rank, [first], second, [first, second]);
  }
}
