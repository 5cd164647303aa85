/**
 The fixed-window rate limiter: one call charges all of its keys or none, its table stays
 bounded, and over any run no key is admitted more than `2 * limit - 1` times in a window's length.
 */
module RateLimiter {
  import opened Wrappers
  import opened Sets

  type Key = string

  datatype Settings = Settings(limit: nat, windowMs: nat, maxBuckets: nat)

  predicate AreSettings(s: Settings) { s.limit >= 1 && s.windowMs >= 1 && s.maxBuckets >= 1 }

  datatype Bucket = Bucket(count: nat, startsAt: int)

  type Table = map<Key, Bucket>

  datatype Call = Call(keys: seq<Key>, now: int)

  datatype Outcome = Outcome(table: Table, admitted: bool)

  function Unique(keys: seq<Key>): set<Key> { set k | k in keys }

  predicate IsExpired(s: Settings, b: Bucket, now: int) { now - b.startsAt >= s.windowMs }

  function Unexpired(s: Settings, table: Table, now: int): Table
  {
    map k | k in table && !IsExpired(s, table[k], now) :: table[k]
  }

  predicate Overflows(s: Settings, table: Table, keys: set<Key>)
  {
    |table| + |keys - table.Keys| > s.maxBuckets
  }

  /** The table after a possible eviction of expired buckets. */
  function Cleared(s: Settings, table: Table, call: Call): Table
  {
    if Overflows(s, table, Unique(call.keys)) then Unexpired(s, table, call.now) else table
  }

  function Current(s: Settings, table: Table, key: Key, now: int): Bucket
  {
    if key in table && !IsExpired(s, table[key], now) then table[key] else Bucket(0, now)
  }

  predicate IsFull(s: Settings, table: Table, call: Call)
  {
    exists k :: k in Unique(call.keys) && Current(s, table, k, call.now).count >= s.limit
  }

  function Charged(s: Settings, table: Table, call: Call): Table
  {
    table + map k | k in Unique(call.keys) ::
      Bucket(Current(s, table, k, call.now).count + 1, Current(s, table, k, call.now).startsAt)
  }

  function Decide(s: Settings, table: Table, call: Call): Outcome
  {
    var cleared := Cleared(s, table, call);
    if Overflows(s, cleared, Unique(call.keys)) || IsFull(s, cleared, call) then Outcome(cleared, false)
    else Outcome(Charged(s, cleared, call), true)
  }

  class FixedWindowRateLimiter {
    const settings: Settings
    var buckets: Table

    constructor (settings: Settings)
      requires AreSettings(settings)
      ensures this.settings == settings && buckets == map[]
    {
      this.settings := settings;
      buckets := map[];
    }

    method Consume(keys: seq<Key>, now: int) returns (admitted: bool)
      modifies this
      ensures Outcome(buckets, admitted) == Decide(settings, old(buckets), Call(keys, now))
    {
      var call := Call(keys, now);
      var uniqueKeys := Unique(keys);
      if |buckets| + |uniqueKeys - buckets.Keys| > settings.maxBuckets {
        RemoveExpired(now);
        if |buckets| + |uniqueKeys - buckets.Keys| > settings.maxBuckets { return false; }
      }
      assert buckets == Cleared(settings, old(buckets), call);
      if exists k :: k in uniqueKeys && Current(settings, buckets, k, now).count >= settings.limit { return false; }
      Charge(call);
      admitted := true;
    }

    /** Deletes the expired buckets one by one. */
    method RemoveExpired(now: int)
      modifies this
      ensures buckets == Unexpired(settings, old(buckets), now)
    {
      var remaining := buckets.Keys;
      while remaining != {}
        invariant remaining <= old(buckets).Keys
        invariant forall k :: k in buckets <==> k in old(buckets) && (k in remaining || !IsExpired(settings, old(buckets)[k], now))
        invariant forall k :: k in buckets ==> buckets[k] == old(buckets)[k]
      {
        var key :| key in remaining;
        if IsExpired(settings, buckets[key], now) { buckets := buckets - {key}; }
        remaining := remaining - {key};
      }
      assert buckets == Unexpired(settings, old(buckets), now);
    }

    /** Raises the count of every key, in a fresh window where the old one is over. */
    method Charge(call: Call)
      modifies this
      ensures buckets == Charged(settings, old(buckets), call)
    {
      ghost var before := buckets;
      var remaining := Unique(call.keys);
      while remaining != {}
        invariant remaining <= Unique(call.keys)
        invariant buckets.Keys == before.Keys + (Unique(call.keys) - remaining)
        invariant forall k :: k in buckets && (k in remaining || k !in Unique(call.keys)) ==> k in before && buckets[k] == before[k]
        invariant forall k :: k in Unique(call.keys) && k !in remaining ==>
                    buckets[k] == Bucket(Current(settings, before, k, call.now).count + 1, Current(settings, before, k, call.now).startsAt)
      {
        var key :| key in remaining;
        var value := Current(settings, buckets, key, call.now);
        assert value == Current(settings, before, key, call.now);
        buckets := buckets[key := value.(count := value.count + 1)];
        remaining := remaining - {key};
      }
      assert buckets == Charged(settings, before, call);
    }
  }

  // ----- one decision, exactly -----

  /** The keys whose window is still open. */
  function Open(s: Settings, table: Table, now: int): set<Key>
  {
    set k | k in table && now < table[k].startsAt + s.windowMs
  }

  /** The table with the new keys fits, if need be without its expired ones. */
  predicate Fits(s: Settings, table: Table, call: Call)
  {
    var keys := set k | k in call.keys;
    |table.Keys + keys| <= s.maxBuckets || |Open(s, table, call.now) + keys| <= s.maxBuckets
  }

  /**
   A call is admitted exactly when the table has room and every key with an open window is below
   the limit. Its keys then gain one, others keep their buckets, and expired ones go only for room.
   */
  lemma DecisionIsExact(s: Settings, table: Table, call: Call)
    requires AreSettings(s)
    ensures var open, keys, o := Open(s, table, call.now), (set k | k in call.keys), Decide(s, table, call);
            && (o.admitted <==> Fits(s, table, call) && forall k :: k in open && k in call.keys ==> table[k].count < s.limit)
            && (forall k :: k in o.table <==>
                  (o.admitted && k in call.keys) || k in open || (k in table && |table.Keys + keys| <= s.maxBuckets))
            && (forall k :: k in o.table ==>
                  o.table[k] == if !(o.admitted && k in call.keys) then if k in table then table[k] else Bucket(0, 0)
                                else if k in open then Bucket(table[k].count + 1, table[k].startsAt)
                                else Bucket(1, call.now))
  {
    hide Decide, Fits;
    AdmissionIsExact(s, table, call);
    ClearedIs(s, table, call);
    TableIsExact(s, table, call);
  }

  lemma AdmissionIsExact(s: Settings, table: Table, call: Call)
    requires AreSettings(s)
    ensures Decide(s, table, call).admitted <==>
              Fits(s, table, call) && forall k :: k in Open(s, table, call.now) && k in call.keys ==> table[k].count < s.limit
  {
    hide IsFull, Charged, Open, Overflows, Unexpired;
    var keys := Unique(call.keys);
    var cleared := Cleared(s, table, call);
    OverflowIs(s, table, keys);
    OpenIsUnexpired(s, table, call.now);
    OverflowIs(s, Unexpired(s, table, call.now), keys);
    ClearedIs(s, table, call);
    FullIs(s, table, cleared, call);
    assert keys == set k | k in call.keys;
  }

  lemma OpenIsUnexpired(s: Settings, table: Table, now: int)
    ensures Unexpired(s, table, now).Keys == Open(s, table, now)
  {
  }

  lemma TableIsExact(s: Settings, table: Table, call: Call)
    requires AreSettings(s)
    ensures var cleared, o := Cleared(s, table, call), Decide(s, table, call);
            && o.table.Keys == cleared.Keys + (if o.admitted then set k | k in call.keys else {})
            && (forall k :: k in o.table ==>
                  o.table[k] == if !(o.admitted && k in call.keys) then if k in cleared then cleared[k] else Bucket(0, 0)
                                else if k in Open(s, table, call.now) then Bucket(table[k].count + 1, table[k].startsAt)
                                else Bucket(1, call.now))
  {
    hide IsFull, Overflows, Cleared, Open, Charged;
    ClearedIs(s, table, call);
    ChargedIs(s, Cleared(s, table, call), call);
  }

  lemma ChargedIs(s: Settings, table: Table, call: Call)
    ensures var charged := Charged(s, table, call);
            && charged.Keys == table.Keys + (set k | k in call.keys)
            && forall k :: k in charged ==>
                 charged[k] == if k !in call.keys then table[k]
                               else if k in Open(s, table, call.now) then Bucket(table[k].count + 1, table[k].startsAt)
                               else Bucket(1, call.now)
  {
    hide Current;
    forall k ensures Current(s, table, k, call.now) == if k in Open(s, table, call.now) then table[k] else Bucket(0, call.now) {
      CurrentIs(s, table, k, call.now);
    }
    assert Unique(call.keys) == set k | k in call.keys;
  }

  lemma CurrentIs(s: Settings, table: Table, k: Key, now: int)
    ensures Current(s, table, k, now) == if k in Open(s, table, now) then table[k] else Bucket(0, now)
  {
  }

  lemma OverflowIs(s: Settings, table: Table, keys: set<Key>)
    ensures Overflows(s, table, keys) <==> |table.Keys + keys| > s.maxBuckets
  {
    CountsNew(table, keys);
  }

  lemma CountsNew(table: Table, keys: set<Key>)
    ensures |table| + |keys - table.Keys| == |table.Keys + keys|
  {
    assert table.Keys + keys == table.Keys + (keys - table.Keys);
    assert |table.Keys| == |table|;
  }

  lemma ClearedIs(s: Settings, table: Table, call: Call)
    ensures var c := Cleared(s, table, call);
            && (forall k :: k in c ==> k in table && c[k] == table[k])
            && (forall k :: k in c <==> k in Open(s, table, call.now)
                                        || (k in table && |table.Keys + (set k | k in call.keys)| <= s.maxBuckets))
            && Open(s, c, call.now) == Open(s, table, call.now)
  {
    hide Overflows;
    OverflowIs(s, table, Unique(call.keys));
    assert Unique(call.keys) == set k | k in call.keys;
  }

  lemma FullIs(s: Settings, table: Table, cleared: Table, call: Call)
    requires AreSettings(s) && forall k :: k in cleared ==> k in table && cleared[k] == table[k]
    requires Open(s, cleared, call.now) == Open(s, table, call.now)
    ensures IsFull(s, cleared, call) <==> exists k :: k in Open(s, table, call.now) && k in call.keys && table[k].count >= s.limit
  {
    if k: Key :| k in Open(s, table, call.now) && k in call.keys && table[k].count >= s.limit {
      assert k in Unique(call.keys) && Current(s, cleared, k, call.now) == table[k];
    }
    if k: Key :| k in Unique(call.keys) && Current(s, cleared, k, call.now).count >= s.limit {
      assert k in Open(s, cleared, call.now);
    }
  }

  /** A table full of expired buckets takes new keys. */
  lemma ExpiredMakeRoom(s: Settings, table: Table, call: Call)
    requires AreSettings(s) && |set k | k in call.keys| <= s.maxBuckets
    requires forall k :: k in table ==> call.now >= table[k].startsAt + s.windowMs
    ensures Decide(s, table, call).admitted
  {
    hide Decide;
    DecisionIsExact(s, table, call);
    assert Open(s, table, call.now) + (set k | k in call.keys) == set k | k in call.keys;
  }

  predicate IsPositiveSafe(n: int) { 1 <= n <= 0x1F_FFFF_FFFF_FFFF }

  const BAD_LIMIT := "Rate limit must be a positive safe integer"
  const BAD_WINDOW := "Rate-limit window must be a positive safe integer"
  const BAD_CAPACITY := "Rate-limit bucket capacity must be a positive safe integer"

  /** The checks of the constructor, in order. */
  method CreateRateLimiter(limit: int, windowMs: int, maxBuckets: int) returns (r: Result<FixedWindowRateLimiter, string>)
    ensures !(1 <= limit < 0x20_0000_0000_0000) ==> r == Failure(BAD_LIMIT)
    ensures 1 <= limit < 0x20_0000_0000_0000 && !(1 <= windowMs < 0x20_0000_0000_0000) ==> r == Failure(BAD_WINDOW)
    ensures 1 <= limit < 0x20_0000_0000_0000 && 1 <= windowMs < 0x20_0000_0000_0000 && !(1 <= maxBuckets < 0x20_0000_0000_0000) ==>
              r == Failure(BAD_CAPACITY)
    ensures 1 <= limit < 0x20_0000_0000_0000 && 1 <= windowMs < 0x20_0000_0000_0000 && 1 <= maxBuckets < 0x20_0000_0000_0000 ==>
              r.Success? && fresh(r.value) && r.value.buckets == map[]
              && r.value.settings == Settings(limit, windowMs, maxBuckets) && AreSettings(r.value.settings)
  {
    if !IsPositiveSafe(limit) { return Failure(BAD_LIMIT); }
    if !IsPositiveSafe(windowMs) { return Failure(BAD_WINDOW); }
    if !IsPositiveSafe(maxBuckets) { return Failure(BAD_CAPACITY); }
    var limiter := new FixedWindowRateLimiter(Settings(limit, windowMs, maxBuckets));
    r := Success(limiter);
  }

  // ----- one call -----

  lemma ClearedIsSmaller(s: Settings, table: Table, call: Call)
    ensures |Cleared(s, table, call)| <= |table|
  {
    var cleared := Cleared(s, table, call);
    Smaller(cleared.Keys, table.Keys);
    assert |cleared| == |cleared.Keys| && |table| == |table.Keys|;
  }

  lemma ChargedSize(s: Settings, table: Table, call: Call)
    ensures |Charged(s, table, call)| == |table| + |Unique(call.keys) - table.Keys|
  {
    hide Unique, Current;
    var charged := Charged(s, table, call);
    assert charged.Keys == table.Keys + (Unique(call.keys) - table.Keys);
    assert |charged| == |charged.Keys| && |table| == |table.Keys|;
  }

  /** The table never outgrows its bound. */
  lemma TableIsBounded(s: Settings, table: Table, call: Call)
    requires |table| <= s.maxBuckets
    ensures |Decide(s, table, call).table| <= s.maxBuckets
  {
    hide Cleared, Charged, Unique, IsFull;
    ClearedIsSmaller(s, table, call);
    ChargedSize(s, Cleared(s, table, call), call);
  }

  /** A refused call changes no count; at most it forgets windows that are over. */
  lemma RefusalChargesNothing(s: Settings, table: Table, call: Call, key: Key)
    requires !Decide(s, table, call).admitted
    ensures var after := Decide(s, table, call).table;
            && (key in after ==> key in table && after[key] == table[key])
            && (key in table && key !in after ==> IsExpired(s, table[key], call.now))
            && Current(s, after, key, call.now) == Current(s, table, key, call.now)
  {
  }

  // ----- runs -----

  function TableAfter(s: Settings, calls: seq<Call>): Table
  {
    if calls == [] then map[] else Decide(s, TableAfter(s, calls[..|calls| - 1]), calls[|calls| - 1]).table
  }

  /** Whether the last call of a run is admitted and charges the key. */
  predicate Charges(s: Settings, calls: seq<Call>, key: Key)
    requires calls != []
  {
    var last := calls[|calls| - 1];
    key in last.keys && Decide(s, TableAfter(s, calls[..|calls| - 1]), last).admitted
  }

  /** How often a run charges the key at times from `from` up to but not including `until`. */
  function Count(s: Settings, calls: seq<Call>, key: Key, from: int, until: int): nat
  {
    if calls == [] then 0
    else
      Count(s, calls[..|calls| - 1], key, from, until)
      + if Charges(s, calls, key) && from <= calls[|calls| - 1].now < until then 1 else 0
  }

  predicate NonDecreasing(calls: seq<Call>)
  {
    forall i, j :: 0 <= i < j < |calls| ==> calls[i].now <= calls[j].now
  }

  /** The times a key was charged, one list per window. */
  type Window = w: seq<int> | w != [] witness [0]

  function Windows(s: Settings, calls: seq<Call>, key: Key): seq<Window>
  {
    if calls == [] then []
    else
      var n := |calls| - 1;
      var before, call := Windows(s, calls[..n], key), calls[n];
      if Charges(s, calls, key) then AddCharge(s, before, call.now) else before
  }

  function AddCharge(s: Settings, windows: seq<Window>, now: int): seq<Window>
  {
    if windows == [] || now - Start(windows) >= s.windowMs then windows + [[now]]
    else windows[|windows| - 1 := windows[|windows| - 1] + [now]]
  }

  /** When the last window began. */
  function Start(windows: seq<Window>): int
    requires windows != []
  {
    windows[|windows| - 1][0]
  }

  ghost predicate Spaced(s: Settings, windows: seq<Window>)
  {
    && (forall i :: 0 <= i < |windows| ==> |windows[i]| <= s.limit)
    && (forall i, k :: 0 <= i < |windows| && 0 <= k < |windows[i]| ==>
          windows[i][0] <= windows[i][k] < windows[i][0] + s.windowMs)
    && (forall i :: 0 <= i < |windows| - 1 ==> windows[i + 1][0] - windows[i][0] >= s.windowMs)
  }

  /** The bucket is the key's last window, unless that window was over when its bucket was evicted. */
  ghost predicate Reflects(s: Settings, table: Table, windows: seq<Window>, key: Key, clock: int)
  {
    if key in table then
      windows != [] && table[key] == Bucket(|windows[|windows| - 1]|, windows[|windows| - 1][0])
    else
      windows != [] ==> clock - windows[|windows| - 1][0] >= s.windowMs
  }

  lemma ReflectsAfterCleared(s: Settings, table: Table, windows: seq<Window>, key: Key, clock: int, call: Call)
    requires Reflects(s, table, windows, key, clock) && clock <= call.now
    ensures Reflects(s, Cleared(s, table, call), windows, key, call.now)
  {
  }

  /** A charge continues the last window while it lasts and opens one when it is over. */
  lemma ChargeKeepsWindows(s: Settings, table: Table, windows: seq<Window>, key: Key, now: int)
    requires AreSettings(s) && Spaced(s, windows) && Reflects(s, table, windows, key, now)
    requires windows != [] ==> Start(windows) <= now
    requires Current(s, table, key, now).count < s.limit
    ensures Spaced(s, AddCharge(s, windows, now))
    ensures var c := Current(s, table, key, now); var more := AddCharge(s, windows, now);
            more != [] && Bucket(c.count + 1, c.startsAt) == Bucket(|more[|more| - 1]|, Start(more)) && Start(more) <= now
  {
    var more := AddCharge(s, windows, now);
    if windows != [] && now - Start(windows) < s.windowMs {
      assert more[..|more| - 1] == windows[..|more| - 1];
    }
  }

  /** The bucket of one key after one call. */
  lemma DecideBucket(s: Settings, table: Table, call: Call, key: Key)
    ensures var cleared, after := Cleared(s, table, call), Decide(s, table, call);
            var c := Current(s, cleared, key, call.now);
            if after.admitted && key in call.keys
            then c.count < s.limit && key in after.table && after.table[key] == Bucket(c.count + 1, c.startsAt)
            else (key in after.table <==> key in cleared) && (key in cleared ==> after.table[key] == cleared[key])
  {
    hide Cleared, Overflows, Current;
  }

  lemma {:induction false} WindowsHold(s: Settings, calls: seq<Call>, key: Key, clock: int)
    requires AreSettings(s) && NonDecreasing(calls)
    requires calls != [] ==> calls[|calls| - 1].now <= clock
    ensures Spaced(s, Windows(s, calls, key)) && Reflects(s, TableAfter(s, calls), Windows(s, calls, key), key, clock)
    ensures Windows(s, calls, key) != [] ==> Start(Windows(s, calls, key)) <= clock
  {
    hide Decide, Cleared, Current, AddCharge, Spaced;
    if calls == [] {
      assert Spaced(s, []) by { NoWindows(s); }
    } else {
      var n := |calls| - 1;
      var call := calls[n];
      var table, before := TableAfter(s, calls[..n]), Windows(s, calls[..n], key);
      WindowsHold(s, calls[..n], key, call.now);
      ReflectsAfterCleared(s, table, before, key, call.now, call);
      DecideBucket(s, table, call, key);
      if Charges(s, calls, key) {
        ChargeKeepsWindows(s, Cleared(s, table, call), before, key, call.now);
      }
    }
  }

  lemma NoWindows(s: Settings)
    ensures Spaced(s, [])
  {
  }

  // ----- counting -----

  function CountIn(times: seq<int>, from: int, until: int): nat
  {
    if times == [] then 0
    else CountIn(times[..|times| - 1], from, until) + if from <= times[|times| - 1] < until then 1 else 0
  }

  function Total(windows: seq<Window>, from: int, until: int): nat
  {
    if windows == [] then 0 else Total(windows[..|windows| - 1], from, until) + CountIn(windows[|windows| - 1], from, until)
  }

  /** The windows hold exactly the charges of the run. */
  lemma {:induction false} WindowsCount(s: Settings, calls: seq<Call>, key: Key, from: int, until: int)
    ensures Count(s, calls, key, from, until) == Total(Windows(s, calls, key), from, until)
  {
    hide Decide, Charges;
    if calls != [] {
      var n := |calls| - 1;
      WindowsCount(s, calls[..n], key, from, until);
      if Charges(s, calls, key) { AddChargeCounts(s, Windows(s, calls[..n], key), calls[n].now, from, until); }
    }
  }

  lemma AddChargeCounts(s: Settings, windows: seq<Window>, now: int, from: int, until: int)
    ensures Total(AddCharge(s, windows, now), from, until) == Total(windows, from, until) + if from <= now < until then 1 else 0
  {
    var more := AddCharge(s, windows, now);
    var m := |more| - 1;
    if windows == [] || now - Start(windows) >= s.windowMs {
      assert more[..m] == windows && more[m] == [now];
      assert CountIn([now][..0], from, until) == 0;
    } else {
      assert more[..m] == windows[..m];
      assert more[m][..|more[m]| - 1] == windows[m];
    }
  }

  lemma {:induction false} CountInIsBounded(times: seq<int>, from: int, until: int)
    ensures CountIn(times, from, until) <= |times|
    ensures times != [] && !(from <= times[0] < until) ==> CountIn(times, from, until) <= |times| - 1
    ensures (forall k :: 0 <= k < |times| ==> !(from <= times[k] < until)) ==> CountIn(times, from, until) == 0
  {
    if times != [] {
      CountInIsBounded(times[..|times| - 1], from, until);
    }
  }

  ghost predicate StartsBefore(windows: seq<Window>, bound: int)
  {
    windows != [] ==> Start(windows) <= bound
  }

  lemma FrontIsSpaced(s: Settings, windows: seq<Window>)
    requires Spaced(s, windows) && windows != []
    ensures var front := windows[..|windows| - 1]; Spaced(s, front) && StartsBefore(front, Start(windows) - s.windowMs)
  {
  }

  lemma {:induction false} EarlierCountNothing(s: Settings, windows: seq<Window>, from: int, until: int)
    requires Spaced(s, windows) && StartsBefore(windows, from - s.windowMs)
    ensures Total(windows, from, until) == 0
  {
    hide Spaced;
    if windows != [] {
      FrontIsSpaced(s, windows);
      EarlierCountNothing(s, windows[..|windows| - 1], from, until);
      LastWindowCounts(s, windows, from, until);
    }
  }

  /** What the last window adds to a span. */
  lemma LastWindowCounts(s: Settings, windows: seq<Window>, from: int, until: int)
    requires Spaced(s, windows) && windows != []
    ensures var n := CountIn(windows[|windows| - 1], from, until); var start := Start(windows);
            && n <= s.limit && (start < from ==> n <= s.limit - 1)
            && (start <= from - s.windowMs || start >= until ==> n == 0)
  {
    var last := windows[|windows| - 1];
    CountInIsBounded(last, from, until);
  }

  /** Windows that began before the span add less than one limit. */
  lemma OneWindowCounts(s: Settings, windows: seq<Window>, from: int, until: int)
    requires AreSettings(s) && Spaced(s, windows) && StartsBefore(windows, from - 1)
    ensures Total(windows, from, until) <= s.limit - 1
  {
    hide Spaced;
    if windows != [] {
      FrontIsSpaced(s, windows);
      LastWindowCounts(s, windows, from, until);
      EarlierCountNothing(s, windows[..|windows| - 1], from, until);
    }
  }

  lemma {:induction false} SpanCounts(s: Settings, windows: seq<Window>, from: int, until: int)
    requires AreSettings(s) && Spaced(s, windows) && until - from <= s.windowMs
    ensures Total(windows, from, until) <= 2 * s.limit - 1
    decreases |windows|
  {
    hide Spaced;
    if windows != [] {
      var front, start := windows[..|windows| - 1], Start(windows);
      FrontIsSpaced(s, windows);
      LastWindowCounts(s, windows, from, until);
      if start >= until {
        SpanCounts(s, front, from, until);
      } else if start >= from {
        OneWindowCounts(s, front, from, until);
      } else {
        EarlierCountNothing(s, front, from, until);
      }
    }
  }

  /** Over any run with a clock that never runs back, a span of one window's length admits at most `2 * limit - 1`. */
  lemma RateIsBounded(s: Settings, calls: seq<Call>, key: Key, from: int, until: int)
    requires AreSettings(s) && NonDecreasing(calls) && until - from <= s.windowMs
    ensures Count(s, calls, key, from, until) <= 2 * s.limit - 1
  {
    WindowsHold(s, calls, key, if calls == [] then 0 else calls[|calls| - 1].now);
    WindowsCount(s, calls, key, from, until);
    SpanCounts(s, Windows(s, calls, key), from, until);
  }

  /** From the start of any of the key's windows until its end at most `limit` calls are admitted. */
  lemma WindowIsBounded(s: Settings, calls: seq<Call>, key: Key, i: nat)
    requires AreSettings(s) && NonDecreasing(calls) && i < |Windows(s, calls, key)|
    ensures var start := Windows(s, calls, key)[i][0]; Count(s, calls, key, start, start + s.windowMs) <= s.limit
  {
    hide Spaced, Windows, Count, Total, TableAfter, Reflects;
    var windows := Windows(s, calls, key);
    WindowsHold(s, calls, key, if calls == [] then 0 else calls[|calls| - 1].now);
    WindowsCount(s, calls, key, windows[i][0], windows[i][0] + s.windowMs);
    OneWindowOnly(s, windows, i);
  }

  lemma {:induction false} StartsAscend(s: Settings, windows: seq<Window>, i: nat, j: nat)
    requires Spaced(s, windows) && i < j < |windows|
    ensures windows[j][0] >= windows[i][0] + s.windowMs
  {
    if j > i + 1 { StartsAscend(s, windows, i, j - 1); }
  }

  lemma {:induction false} OneWindowOnly(s: Settings, windows: seq<Window>, i: nat)
    requires Spaced(s, windows) && i < |windows|
    ensures var start := windows[i][0]; Total(windows, start, start + s.windowMs) <= s.limit
    decreases |windows|
  {
    hide Spaced;
    var n, start := |windows| - 1, windows[i][0];
    FrontIsSpaced(s, windows);
    LastWindowCounts(s, windows, start, start + s.windowMs);
    if i < n {
      StartsAscend(s, windows, i, n);
      OneWindowOnly(s, windows[..n], i);
    } else {
      EarlierCountNothing(s, windows[..n], start, start + s.windowMs);
    }
  }

  /** A call of one key against a table that holds at most that key. */
  lemma SingleCharge(s: Settings, table: Table, key: Key, now: int)
    requires AreSettings(s) && table.Keys <= {key} && Current(s, table, key, now).count < s.limit
    ensures var c := Current(s, table, key, now);
            Decide(s, table, Call([key], now)) == Outcome(map[key := Bucket(c.count + 1, c.startsAt)], true)
  {
    hide Current, Overflows, Cleared, Charged;
    var call := Call([key], now);
    SingleFits(s, table, key, call);
    SingleCharged(s, table, key, now);
  }

  lemma SingleFits(s: Settings, table: Table, key: Key, call: Call)
    requires AreSettings(s) && table.Keys <= {key} && call.keys == [key]
    ensures Unique(call.keys) == {key} && !Overflows(s, table, {key}) && Cleared(s, table, call) == table
  {
    assert call.keys[0] == key;
    assert Unique(call.keys) == {key};
    assert |table| == |table.Keys|;
    assert table.Keys + ({key} - table.Keys) == {key};
    assert |table.Keys + ({key} - table.Keys)| == |table.Keys| + |{key} - table.Keys|;
  }

  lemma SingleCharged(s: Settings, table: Table, key: Key, now: int)
    requires table.Keys <= {key}
    ensures var c := Current(s, table, key, now);
            Charged(s, table, Call([key], now)) == map[key := Bucket(c.count + 1, c.startsAt)]
  {
    assert Unique([key]) == {key};
    assert Charged(s, table, Call([key], now)).Keys == {key};
  }

  lemma CountMore(s: Settings, calls: seq<Call>, call: Call, key: Key, from: int, until: int)
    ensures TableAfter(s, calls + [call]) == Decide(s, TableAfter(s, calls), call).table
    ensures Count(s, calls + [call], key, from, until) == Count(s, calls, key, from, until)
              + if key in call.keys && Decide(s, TableAfter(s, calls), call).admitted && from <= call.now < until then 1 else 0
  {
    assert (calls + [call])[..|calls|] == calls;
  }

  function Repeated(n: nat, key: Key, now: int): seq<Call>
  {
    seq(n, _ => Call([key], now))
  }

  /** As many calls as the window still admits are all charged. */
  lemma {:induction false} RepeatedCharge(s: Settings, calls: seq<Call>, key: Key, now: int, n: nat, from: int, until: int)
    requires AreSettings(s) && TableAfter(s, calls).Keys <= {key}
    requires Current(s, TableAfter(s, calls), key, now).count + n <= s.limit
    ensures var c, more := Current(s, TableAfter(s, calls), key, now), calls + Repeated(n, key, now);
            && TableAfter(s, more) == (if n == 0 then TableAfter(s, calls) else map[key := Bucket(c.count + n, c.startsAt)])
            && Count(s, more, key, from, until) == Count(s, calls, key, from, until) + if from <= now < until then n else 0
  {
    hide Decide, Count, TableAfter;
    if n == 0 {
      assert calls + Repeated(n, key, now) == calls;
    } else {
      var before := calls + Repeated(n - 1, key, now);
      RepeatedCharge(s, calls, key, now, n - 1, from, until);
      assert calls + Repeated(n, key, now) == before + [Call([key], now)];
      CountMore(s, before, Call([key], now), key, from, until);
      SingleCharge(s, TableAfter(s, before), key, now);
    }
  }

  /** One call, then the rest of its window's limit a moment later, then a full limit when the window is over. */
  function Burst(s: Settings, key: Key): seq<Call>
    requires AreSettings(s)
  {
    Repeated(1, key, 0) + Repeated(s.limit - 1, key, 1) + Repeated(s.limit, key, s.windowMs)
  }

  /** The bound is met for every limit and every window longer than one millisecond. */
  lemma BoundIsMet(s: Settings, key: Key)
    requires AreSettings(s) && s.windowMs >= 2
    ensures NonDecreasing(Burst(s, key)) && Count(s, Burst(s, key), key, 1, 1 + s.windowMs) == 2 * s.limit - 1
  {
    hide Decide, Count, TableAfter;
    var until := 1 + s.windowMs;
    var first := Repeated(1, key, 0);
    var second := first + Repeated(s.limit - 1, key, 1);
    assert [] + first == first;
    NothingYet(s, key, 1, until);
    RepeatedCharge(s, [], key, 0, 1, 1, until);
    RepeatedCharge(s, first, key, 1, s.limit - 1, 1, until);
    RepeatedCharge(s, second, key, s.windowMs, s.limit, 1, until);
  }

  lemma NothingYet(s: Settings, key: Key, from: int, until: int)
    ensures TableAfter(s, []) == map[] && Count(s, [], key, from, until) == 0
  {
  }

  /** The table of a run never outgrows its bound. */
  lemma {:induction false} RunIsBounded(s: Settings, calls: seq<Call>)
    ensures |TableAfter(s, calls)| <= s.maxBuckets
  {
    hide Decide;
    if calls != [] {
      RunIsBounded(s, calls[..|calls| - 1]);
      TableIsBounded(s, TableAfter(s, calls[..|calls| - 1]), calls[|calls| - 1]);
    }
  }
}
