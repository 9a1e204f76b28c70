/** The idempotency cache of the HTTP gateway: least recently used first out, one hour of life, on top of an
    insertion-ordered map. */
module IdempotencyCaches {
  import opened Wrappers
  import opened JsMaps

  const LIFETIME: int := 3_600_000

  datatype Entry = Entry(result: string, expiresAt: int)
  type Cache = JsMap<string, Entry>

  datatype Op =
    | Get(now: int, key: string)
    | Set(now: int, key: string, result: string)
    | Sweep(now: int)

  // ----- One operation ------------------------------------------------------------------------

  function Lookup(c: Cache, now: int, key: string): Option<Entry> {
    if key in c.table && now < c.table[key].expiresAt then Some(c.table[key]) else None
  }

  function Touched(c: Cache, now: int, key: string): Cache {
    match Lookup(c, now, key)
    case Some(e) => c.Delete(key).Set(key, e)
    case None => if key in c.table then c.Delete(key) else c
  }

  function Evicted(c: Cache, max: nat): Cache
    decreases |c.order|
  {
    if |c.order| > max && |c.Delete(c.order[0]).order| < |c.order|
    then Evicted(c.Delete(c.order[0]), max)
    else c
  }

  function Stored(c: Cache, max: nat, now: int, key: string, result: string): Cache {
    Evicted((if key in c.table then c.Delete(key) else c).Set(key, Entry(result, now + LIFETIME)), max)
  }

  function SweptKeys(c: Cache, keys: seq<string>, now: int): Cache {
    if keys == [] then c
    else
      var d := SweptKeys(c, keys[..|keys| - 1], now);
      var k := keys[|keys| - 1];
      if k in d.table && now >= d.table[k].expiresAt then d.Delete(k) else d
  }

  function Apply(c: Cache, max: nat, op: Op): Cache {
    match op
    case Get(now, key) => Touched(c, now, key)
    case Set(now, key, result) => Stored(c, max, now, key, result)
    case Sweep(now) => SweptKeys(c, c.order, now)
  }

  class IdempotencyCache {
    var cache: Cache
    const max: nat

    constructor (max: nat)
      requires max >= 1
      ensures cache == Empty() && this.max == max
    {
      this.max := max;
      cache := Empty();
    }

    method IdempotencyGet(now: int, key: string) returns (hit: Option<Entry>)
      modifies this
      ensures hit == Lookup(old(cache), now, key)
      ensures cache == Apply(old(cache), max, Get(now, key))
      ensures hit.Some? <==> key in old(cache).table && now < old(cache).table[key].expiresAt
      ensures hit.Some? ==> hit.value == old(cache).table[key] && cache.table == old(cache).table
                            && cache.order == Without(old(cache).order, key) + [key]
      ensures hit.None? ==> cache.table == old(cache).table - {key}
                            && (key in old(cache).table ==> cache.order == Without(old(cache).order, key))
    {
      if key !in cache.table || now >= cache.table[key].expiresAt {
        if key in cache.table {
          cache := cache.Delete(key);
        }
        return None;
      }
      var v := cache.table[key];
      cache := cache.Delete(key);
      cache := cache.Set(key, v);
      return Some(v);
    }

    method IdempotencySet(now: int, key: string, result: string)
      requires cache.Valid()
      modifies this
      ensures cache == Apply(old(cache), max, Set(now, key, result))
      ensures cache.Valid() && |cache.order| <= max
      ensures cache.order == Newest(Without(old(cache).order, key) + [key], max)
      ensures forall k :: k in cache.table ==>
                if k == key then cache.table[k] == Entry(result, now + 3_600_000)
                else k in old(cache).table && cache.table[k] == old(cache).table[k]
    {
      var expiresAt := now + LIFETIME;
      if key in cache.table {
        cache := cache.Delete(key);
      }
      cache := cache.Set(key, Entry(result, expiresAt));
      ghost var c := cache;
      while |cache.order| > max
        invariant cache.Valid()
        invariant Evicted(cache, max) == Evicted(c, max)
        decreases |cache.order|
      {
        var first := cache.order[0];
        WithoutDistinct(cache.order, first);
        cache := cache.Delete(first);
      }
      StoredIsNewest(old(cache), max, now, key, result);
    }

    method ExpirySweep(now: int)
      modifies this
      ensures cache == Apply(old(cache), max, Sweep(now))
      ensures old(cache).Valid() ==> cache.table == Unexpired(old(cache).table, now)
    {
      var keys := cache.order;
      var i := 0;
      while i < |keys|
        invariant 0 <= i <= |keys|
        invariant cache == SweptKeys(old(cache), keys[..i], now)
      {
        assert keys[..i + 1][..i] == keys[..i];
        if keys[i] in cache.table && now >= cache.table[keys[i]].expiresAt {
          cache := cache.Delete(keys[i]);
        }
        i := i + 1;
      }
      assert keys[..i] == keys;
      if old(cache).Valid() {
        SweepLeavesUnexpired(old(cache), now);
      }
    }
  }

  ghost function Unexpired(table: map<string, Entry>, now: int): map<string, Entry> {
    map k | k in table && now < table[k].expiresAt :: table[k]
  }

  lemma SweepLeavesUnexpired(c: Cache, now: int)
    requires c.Valid()
    ensures SweptKeys(c, c.order, now).table == Unexpired(c.table, now)
  {
    SweepDropsExpired(c, c.order, now);
  }

  /** A sweep of some keys drops those of them that have expired. */
  lemma {:induction false} SweepDropsExpired(c: Cache, keys: seq<string>, now: int)
    requires c.Valid()
    ensures SweptKeys(c, keys, now).Valid()
    ensures SweptKeys(c, keys, now).table ==
              map k | k in c.table && (k !in keys || now < c.table[k].expiresAt) :: c.table[k]
  {
    if keys != [] {
      SweepDropsExpired(c, keys[..|keys| - 1], now);
      assert keys == keys[..|keys| - 1] + [keys[|keys| - 1]];
    }
  }

  /** The last `max` keys. */
  function Newest(order: seq<string>, max: nat): seq<string> {
    if |order| <= max then order else order[|order| - max..]
  }

  ghost predicate IsPartOf(d: Cache, c: Cache) {
    forall k :: k in d.table ==> k in c.table && d.table[k] == c.table[k]
  }

  /** Evicting leaves the newest entries. */
  lemma {:induction false} EvictedIsNewest(c: Cache, max: nat)
    requires c.Valid()
    ensures Evicted(c, max).order == Newest(c.order, max) && IsPartOf(Evicted(c, max), c)
    decreases |c.order|
  {
    if |c.order| > max {
      var first := c.order[0];
      FirstDropped(c.order);
      EvictedIsNewest(c.Delete(first), max);
      NewestOfRest(c.order, max);
    }
  }

  lemma NewestOfRest(order: seq<string>, max: nat)
    requires |order| > max
    ensures Newest(order[1..], max) == Newest(order, max)
  {
  }

  lemma FirstDropped(order: seq<string>)
    requires Distinct(order) && order != []
    ensures Without(order, order[0]) == order[1..]
  {
    assert order[0] !in order[1..];
  }

  /** A set puts the key last with its hour, and leaves the newest. */
  lemma StoredIsNewest(c: Cache, max: nat, now: int, key: string, result: string)
    requires c.Valid()
    ensures var d := Stored(c, max, now, key, result);
            && d.order == Newest(Without(c.order, key) + [key], max)
            && forall k :: k in d.table ==>
                 if k == key then d.table[k] == Entry(result, now + 3_600_000)
                 else k in c.table && d.table[k] == c.table[k]
  {
    DeleteThenSet(c, key, Entry(result, now + LIFETIME));
    EvictedIsNewest((if key in c.table then c.Delete(key) else c).Set(key, Entry(result, now + LIFETIME)), max);
  }

  // ----- A whole history ----------------------------------------------------------------------

  datatype LastSet = LastSet(at: int, result: string)

  /** What a history of operations says about each key: its last `Set`, and when it was last used.
      A key is used by a set, and by a get that hits. */
  datatype History = History(now: int, count: nat, sets: map<string, LastSet>, uses: map<string, nat>)

  function Remember(h: History, c: Cache, op: Op): History {
    var used := op.Set? || (op.Get? && Lookup(c, op.now, op.key).Some?);
    History(op.now, h.count + 1,
            if op.Set? then h.sets[op.key := LastSet(op.now, op.result)] else h.sets,
            if used then h.uses[op.key := h.count] else h.uses)
  }

  datatype State = State(cache: Cache, history: History)

  function Run(start: int, max: nat, ops: seq<Op>): State {
    if ops == [] then State(Empty(), History(start, 0, map[], map[]))
    else
      var s := Run(start, max, ops[..|ops| - 1]);
      var op := ops[|ops| - 1];
      State(Apply(s.cache, max, op), Remember(s.history, s.cache, op))
  }

  /** The clock never goes back. */
  ghost predicate Monotone(start: int, ops: seq<Op>) {
    && (forall i :: 0 <= i < |ops| ==> start <= ops[i].now)
    && (forall i, j :: 0 <= i < j < |ops| ==> ops[i].now <= ops[j].now)
  }

  /** The distinct other keys set or hit since the last use of `k`. */
  function UsedSince(uses: map<string, nat>, k: string): set<string> {
    set x | x in uses && k in uses && uses[x] > uses[k]
  }

  /** The last value set for the key still has its hour. */
  predicate LiveAt(h: History, k: string, now: int) {
    k in h.sets && now < h.sets[k].at + LIFETIME
  }

  /** Strictly in the order of last use; so in particular without duplicates. */
  ghost predicate ByLastUse(order: seq<string>, uses: map<string, nat>) {
    && (forall k :: k in order ==> k in uses)
    && (forall i, j :: 0 <= i < j < |order| ==> uses[order[i]] < uses[order[j]])
  }

  ghost predicate HistoryInv(h: History) {
    && (forall k :: k in h.uses ==> h.uses[k] < h.count)
    && (forall k :: k in h.sets ==> k in h.uses)
  }

  /** Entries carry the last set value of their key. */
  ghost predicate Current(table: map<string, Entry>, sets: map<string, LastSet>) {
    forall k :: k in table ==> k in sets && table[k] == Entry(sets[k].result, sets[k].at + LIFETIME)
  }

  /** Present keys carry their last set value and stand in the order of their last use. */
  ghost predicate Faithful(c: Cache, h: History) {
    && c.Valid()
    && Current(c.table, h.sets)
    && ByLastUse(c.order, h.uses)
  }

  /** An unexpired key is absent only when at least `max` others were used since. */
  ghost predicate MissesAreEarned(max: nat, c: Cache, h: History) {
    forall k :: k !in c.table && LiveAt(h, k, h.now) ==> |UsedSince(h.uses, k)| >= max
  }

  ghost predicate Inv(max: nat, c: Cache, h: History) {
    HistoryInv(h) && Faithful(c, h) && |c.order| <= max && MissesAreEarned(max, c, h)
  }

  lemma SubsetCount<T>(a: set<T>, b: set<T>)
    requires a <= b
    ensures |a| <= |b|
  {
    assert b == a + (b - a);
  }

  lemma {:induction false} WithoutKeepsOrder(order: seq<string>, uses: map<string, nat>, x: string)
    requires ByLastUse(order, uses)
    ensures ByLastUse(Without(order, x), uses)
  {
    if order != [] {
      var rest := order[1..];
      assert ByLastUse(rest, uses) by {
        forall i, j | 0 <= i < j < |rest| ensures uses[rest[i]] < uses[rest[j]] {
          assert uses[order[i + 1]] < uses[order[j + 1]];
        }
      }
      WithoutKeepsOrder(rest, uses, x);
      forall k | k in Without(rest, x) ensures uses[order[0]] < uses[k] {
        var i :| 0 <= i < |rest| && rest[i] == k;
        assert uses[order[0]] < uses[order[i + 1]];
      }
    }
  }

  /** A used key goes last; the others keep their places. */
  lemma MovedToEnd(order: seq<string>, uses: map<string, nat>, key: string, count: nat)
    requires ByLastUse(order, uses) && forall k :: k in uses ==> uses[k] < count
    ensures ByLastUse(Without(order, key) + [key], uses[key := count])
  {
    WithoutKeepsOrder(order, uses, key);
    var rest := Without(order, key);
    var all := rest + [key];
    var uses' := uses[key := count];
    forall i, j | 0 <= i < j < |all| ensures uses'[all[i]] < uses'[all[j]] {
      assert all[i] == rest[i] && rest[i] in rest;
      if j < |rest| { assert all[j] == rest[j] && rest[j] in rest; }
    }
  }

  /** More uses only add to what was used since. */
  lemma UsedSinceGrows(uses: map<string, nat>, key: string, count: nat, k: string)
    requires k in uses && k != key && forall x :: x in uses ==> uses[x] < count
    ensures |UsedSince(uses, k)| <= |UsedSince(uses[key := count], k)|
  {
    SubsetCount(UsedSince(uses, k), UsedSince(uses[key := count], k));
  }

  lemma {:induction false} SweptKeysEffect(c: Cache, keys: seq<string>, now: int, uses: map<string, nat>)
    requires c.Valid() && ByLastUse(c.order, uses)
    ensures var d := SweptKeys(c, keys, now);
            && d.Valid() && ByLastUse(d.order, uses) && |d.order| <= |c.order|
            && (forall k :: k in d.table ==> k in c.table && d.table[k] == c.table[k])
            && (forall k :: k in c.table && k !in d.table ==> now >= c.table[k].expiresAt)
  {
    if keys != [] {
      var d := SweptKeys(c, keys[..|keys| - 1], now);
      SweptKeysEffect(c, keys[..|keys| - 1], now, uses);
      WithoutDistinct(d.order, keys[|keys| - 1]);
      WithoutKeepsOrder(d.order, uses, keys[|keys| - 1]);
    }
  }

  // ----- Every operation keeps the cache faithful ------------------------------------------------

  /** Operations that neither set nor hit anything, and drop only expired entries. */
  lemma QuietOpKeeps(max: nat, c: Cache, h: History, op: Op, d: Cache)
    requires Inv(max, c, h) && h.now <= op.now
    requires Remember(h, c, op) == h.(now := op.now, count := h.count + 1)
    requires d.Valid() && ByLastUse(d.order, h.uses) && |d.order| <= |c.order|
    requires forall k :: k in d.table ==> k in c.table && d.table[k] == c.table[k]
    requires forall k :: k in c.table && k !in d.table ==> op.now >= c.table[k].expiresAt
    ensures Inv(max, d, Remember(h, c, op))
  {
    forall k | k !in d.table && LiveAt(h, k, op.now) ensures |UsedSince(h.uses, k)| >= max {
      assert k !in c.table;
    }
  }

  lemma HitKeeps(max: nat, c: Cache, h: History, now: int, key: string)
    requires Inv(max, c, h) && h.now <= now && Lookup(c, now, key).Some?
    ensures Inv(max, Touched(c, now, key), Remember(h, c, Get(now, key)))
  {
    var d := Touched(c, now, key);
    var h' := Remember(h, c, Get(now, key));
    HitIsFaithful(c, h, now, key);
    forall k | k !in d.table && LiveAt(h', k, now) ensures |UsedSince(h'.uses, k)| >= max {
      UsedSinceGrows(h.uses, key, h.count, k);
    }
  }

  lemma HitIsFaithful(c: Cache, h: History, now: int, key: string)
    requires HistoryInv(h) && Faithful(c, h) && Lookup(c, now, key).Some?
    ensures var d := Touched(c, now, key);
            d.table == c.table && |d.order| == |c.order| && Faithful(d, Remember(h, c, Get(now, key)))
  {
    DeleteThenSet(c, key, c.table[key]);
    WithoutDistinct(c.order, key);
    MovedToEnd(c.order, h.uses, key, h.count);
  }

  /** The cache before eviction: the key set now is last, and at most one entry is too many. */
  function Inserted(c: Cache, now: int, key: string, result: string): Cache {
    (if key in c.table then c.Delete(key) else c).Set(key, Entry(result, now + LIFETIME))
  }

  lemma InsertedShape(c: Cache, now: int, key: string, result: string)
    requires c.Valid()
    ensures Inserted(c, now, key, result)
            == JsMap(Without(c.order, key) + [key], c.table[key := Entry(result, now + LIFETIME)])
    ensures Inserted(c, now, key, result).Valid()
    ensures |Inserted(c, now, key, result).order| <= |c.order| + 1
  {
    DeleteThenSet(c, key, Entry(result, now + LIFETIME));
  }

  lemma InsertedCurrent(table: map<string, Entry>, sets: map<string, LastSet>, now: int, key: string, result: string)
    requires Current(table, sets)
    ensures Current(table[key := Entry(result, now + LIFETIME)], sets[key := LastSet(now, result)])
  {
  }

  lemma InsertedFaithful(c: Cache, h: History, now: int, key: string, result: string)
    requires HistoryInv(h) && Faithful(c, h)
    ensures Faithful(Inserted(c, now, key, result), Remember(h, c, Set(now, key, result)))
  {
    InsertedShape(c, now, key, result);
    InsertedCurrent(c.table, h.sets, now, key, result);
    MovedToEnd(c.order, h.uses, key, h.count);
  }

  /** With at most one entry too many, eviction drops exactly the oldest. */
  lemma EvictsAtMostOne(c: Cache, max: nat)
    requires c.Valid() && |c.order| <= max + 1
    ensures Evicted(c, max) == if |c.order| > max then c.Delete(c.order[0]) else c
    ensures |c.order| > max ==> |c.Delete(c.order[0]).order| == max
  {
    if |c.order| > max {
      WithoutDistinct(c.order, c.order[0]);
      assert c.order[0] in c.order;
    }
  }

  /** Everything behind the oldest entry was used after it. */
  lemma EvictionIsEarned(d: Cache, uses: map<string, nat>)
    requires d.Valid() && d.order != [] && ByLastUse(d.order, uses)
    ensures |UsedSince(uses, d.order[0])| >= |d.order| - 1
  {
    var rest := d.order[1..];
    assert d.order[0] in d.order;
    DistinctCount(rest);
    forall x | x in Elements(rest) ensures x in UsedSince(uses, d.order[0]) {
      var i :| 0 <= i < |rest| && rest[i] == x;
      assert d.order[i + 1] == x && x in d.order;
    }
    SubsetCount(Elements(rest), UsedSince(uses, d.order[0]));
  }

  lemma SetStaysFaithful(max: nat, c: Cache, h: History, now: int, key: string, result: string)
    requires max >= 1 && Inv(max, c, h)
    ensures var d, e := Inserted(c, now, key, result), Stored(c, max, now, key, result);
            var h' := Remember(h, c, Set(now, key, result));
            && Faithful(e, h') && |e.order| <= max
            && forall k :: k in d.table && k !in e.table ==> |UsedSince(h'.uses, k)| >= max
  {
    var d := Inserted(c, now, key, result);
    var h' := Remember(h, c, Set(now, key, result));
    InsertedShape(c, now, key, result);
    InsertedFaithful(c, h, now, key, result);
    EvictsAtMostOne(d, max);
    if |d.order| > max {
      WithoutKeepsOrder(d.order, h'.uses, d.order[0]);
      EvictionIsEarned(d, h'.uses);
    }
  }

  lemma SetStaysEarned(max: nat, c: Cache, h: History, now: int, key: string, result: string, k: string)
    requires HistoryInv(h) && MissesAreEarned(max, c, h) && h.now <= now
    requires k !in c.table && k != key && LiveAt(Remember(h, c, Set(now, key, result)), k, now)
    ensures |UsedSince(Remember(h, c, Set(now, key, result)).uses, k)| >= max
  {
    UsedSinceGrows(h.uses, key, h.count, k);
  }

  lemma SetMissesAreEarned(max: nat, c: Cache, h: History, now: int, key: string, result: string)
    requires max >= 1 && Inv(max, c, h) && h.now <= now
    ensures MissesAreEarned(max, Stored(c, max, now, key, result), Remember(h, c, Set(now, key, result)))
  {
    var d, e := Inserted(c, now, key, result), Stored(c, max, now, key, result);
    var h' := Remember(h, c, Set(now, key, result));
    SetStaysFaithful(max, c, h, now, key, result);
    InsertedShape(c, now, key, result);
    forall k | k !in e.table && LiveAt(h', k, now) ensures |UsedSince(h'.uses, k)| >= max {
      if k !in d.table {
        SetStaysEarned(max, c, h, now, key, result, k);
      }
    }
  }

  lemma SetKeeps(max: nat, c: Cache, h: History, now: int, key: string, result: string)
    requires max >= 1 && Inv(max, c, h) && h.now <= now
    ensures Inv(max, Stored(c, max, now, key, result), Remember(h, c, Set(now, key, result)))
  {
    SetStaysFaithful(max, c, h, now, key, result);
    SetMissesAreEarned(max, c, h, now, key, result);
  }

  lemma {:induction false} HistoryKeepsInv(start: int, max: nat, ops: seq<Op>)
    requires max >= 1 && Monotone(start, ops)
    ensures Inv(max, Run(start, max, ops).cache, Run(start, max, ops).history)
    ensures Run(start, max, ops).history.now == if ops == [] then start else ops[|ops| - 1].now
  {
    if ops != [] {
      var n := |ops| - 1;
      HistoryKeepsInv(start, max, ops[..n]);
      var s := Run(start, max, ops[..n]);
      StepKeeps(max, s.cache, s.history, ops[n]);
    }
  }

  lemma StepKeeps(max: nat, c: Cache, h: History, op: Op)
    requires max >= 1 && Inv(max, c, h) && h.now <= op.now
    ensures Inv(max, Apply(c, max, op), Remember(h, c, op))
  {
    match op
    case Get(now, key) =>
      if Lookup(c, now, key).Some? {
        HitKeeps(max, c, h, now, key);
      } else {
        WithoutDistinct(c.order, key);
        WithoutKeepsOrder(c.order, h.uses, key);
        QuietOpKeeps(max, c, h, op, Touched(c, now, key));
      }
    case Set(now, key, result) => SetKeeps(max, c, h, now, key, result);
    case Sweep(now) =>
      SweptKeysEffect(c, c.order, now, h.uses);
      QuietOpKeeps(max, c, h, op, SweptKeys(c, c.order, now));
  }

  // ----- What callers may rely on ----------------------------------------------------------------

  /** A hit returns the value set last for that key, less than an hour after it was set;
      and the cache never holds more than `max` entries. */
  lemma HitsAreCurrent(start: int, max: nat, ops: seq<Op>, now: int, k: string)
    requires max >= 1 && Monotone(start, ops)
    ensures var s := Run(start, max, ops);
            && |s.cache.order| <= max
            && (Lookup(s.cache, now, k).Some? ==>
                  && LiveAt(s.history, k, now)
                  && Lookup(s.cache, now, k).value.result == s.history.sets[k].result)
  {
    HistoryKeepsInv(start, max, ops);
  }

  /** A key whose hour is not over can miss only if at least `max` distinct other keys were set or hit
      since it was last used itself. */
  lemma MissesNeedFullTurnover(start: int, max: nat, ops: seq<Op>, now: int, k: string)
    requires max >= 1 && Monotone(start, ops + [Get(now, k)])
    requires Lookup(Run(start, max, ops).cache, now, k).None?
    requires LiveAt(Run(start, max, ops).history, k, now)
    ensures var uses := Run(start, max, ops).history.uses;
            k in uses && |UsedSince(uses, k)| >= max && k !in UsedSince(uses, k)
  {
    var all := ops + [Get(now, k)];
    assert all[|ops|].now == now;
    assert forall i :: 0 <= i < |ops| ==> all[i] == ops[i];
    HistoryKeepsInv(start, max, ops);
  }
}
