/** The per-IP rate limiter of the HTTP gateway: fixed windows opened on demand, and a bucket map that is
    swept and, if still too large, thinned at random. */
module RateLimiters {
  import opened JsMaps

  const WINDOW: int := 60_000
  const LIMIT: nat := 120
  const MAX_BUCKETS: nat := 10_000

  datatype Bucket = Bucket(count: nat, resetAt: int)
  type Buckets = map<string, Bucket>

  /** `victims` are the keys that the random eviction of this call would drop. */
  datatype Op =
    | Request(now: int, ip: string, victims: seq<string>)
    | Sweep(now: int)

  function Live(b: Buckets, now: int): Buckets {
    map k | k in b && now < b[k].resetAt :: b[k]
  }

  function QuarterOf(n: nat): nat {
    (n + 3) / 4
  }

  /** A quarter, rounded up. */
  lemma QuarterIsRoundedUp(n: nat)
    ensures 4 * QuarterOf(n) >= n && (n > 0 ==> 4 * (QuarterOf(n) - 1) < n)
  {
  }

  ghost predicate ValidVictims(b: Buckets, now: int, victims: seq<string>) {
    && Distinct(victims)
    && |victims| == QuarterOf(|Live(b, now)|)
    && forall k :: k in victims ==> k in Live(b, now)
  }

  ghost predicate Thins(b: Buckets, now: int) {
    |b| > MAX_BUCKETS && |Live(b, now)| > MAX_BUCKETS
  }

  function Capped(b: Buckets, now: int, victims: seq<string>): Buckets {
    if |b| <= MAX_BUCKETS then b
    else if |Live(b, now)| <= MAX_BUCKETS then Live(b, now)
    else Live(b, now) - Elements(victims)
  }

  function Counted(b: Buckets, now: int, ip: string): Bucket {
    if ip !in b || now >= b[ip].resetAt then Bucket(1, now + WINDOW)
    else Bucket(b[ip].count + 1, b[ip].resetAt)
  }

  function Apply(b: Buckets, op: Op): Buckets {
    match op
    case Request(now, ip, victims) =>
      var c := Capped(b, now, victims);
      c[ip := Counted(c, now, ip)]
    case Sweep(now) => Live(b, now)
  }

  predicate Admits(b: Buckets, op: Op) {
    op.Request? && Counted(Capped(b, op.now, op.victims), op.now, op.ip).count <= LIMIT
  }

  ghost predicate Legal(b: Buckets, op: Op) {
    op.Request? && Thins(b, op.now) ==> ValidVictims(b, op.now, op.victims)
  }

  ghost predicate HasOpenBucket(b: Buckets, ip: string, now: int) {
    ip in b && now < b[ip].resetAt
  }

  class RateLimiter {
    var buckets: Buckets

    constructor ()
      ensures buckets == map[]
    {
      buckets := map[];
    }

    method DeleteExpired(now: int)
      modifies this
      ensures buckets == Apply(old(buckets), Sweep(now)) == Live(old(buckets), now)
      ensures forall k :: k in buckets <==> k in old(buckets) && now < old(buckets)[k].resetAt
      ensures forall k :: k in buckets ==> buckets[k] == old(buckets)[k]
    {
      var keys := buckets.Keys;
      while keys != {}
        invariant keys <= old(buckets).Keys
        invariant buckets ==
                    map k | k in old(buckets) && (k in keys || now < old(buckets)[k].resetAt) :: old(buckets)[k]
        decreases |keys|
      {
        var k :| k in keys;
        if now >= buckets[k].resetAt {
          buckets := buckets - {k};
        }
        keys := keys - {k};
      }
    }

    method DropAtRandom(victims: seq<string>)
      requires |victims| == QuarterOf(|buckets|)
      modifies this
      ensures buckets == old(buckets) - Elements(victims)
    {
      var b := buckets;
      for i := 0 to |victims|
        invariant b == buckets - Elements(victims[..i])
      {
        assert Elements(victims[..i + 1]) == Elements(victims[..i]) + {victims[i]};
        b := b - {victims[i]};
      }
      assert victims[..|victims|] == victims;
      buckets := b;
    }

    method RateLimit(now: int, ip: string, victims: seq<string>) returns (admitted: bool)
      requires Legal(buckets, Request(now, ip, victims))
      modifies this
      ensures buckets == Apply(old(buckets), Request(now, ip, victims))
      ensures admitted == Admits(old(buckets), Request(now, ip, victims))
      ensures !HasOpenBucket(old(buckets), ip, now) || (Thins(old(buckets), now) && ip in victims) ==>
                admitted && ip in buckets && buckets[ip] == Bucket(1, now + 60_000)
      ensures HasOpenBucket(old(buckets), ip, now) && !(Thins(old(buckets), now) && ip in victims) ==>
                && ip in buckets && buckets[ip] == old(buckets)[ip].(count := old(buckets)[ip].count + 1)
                && (admitted <==> old(buckets)[ip].count < 120)
      ensures forall k :: k in buckets && k != ip ==> k in old(buckets) && buckets[k] == old(buckets)[k]
      ensures |old(buckets)| > 10_000 ==> forall k :: k in buckets && k != ip ==>
                now < buckets[k].resetAt && !(Thins(old(buckets), now) && k in victims)
      ensures forall k :: k in old(buckets) && k !in buckets ==>
                |old(buckets)| > 10_000
                && (now >= old(buckets)[k].resetAt || (Thins(old(buckets), now) && k in victims))
    {
      if |buckets| > MAX_BUCKETS {
        DeleteExpired(now);
        if |buckets| > MAX_BUCKETS {
          DropAtRandom(victims);
        }
      }
      assert buckets == Capped(old(buckets), now, victims);
      var bucket := Bucket(0, now + WINDOW);
      if ip in buckets && now < buckets[ip].resetAt {
        bucket := buckets[ip];
      }
      bucket := bucket.(count := bucket.count + 1);
      buckets := buckets[ip := bucket];
      return bucket.count <= LIMIT;
    }
  }

  // ----- Whole histories ----------------------------------------------------------------------

  ghost predicate LegalRun(b: Buckets, ops: seq<Op>)
    decreases ops
  {
    ops == [] || (Legal(b, ops[0]) && LegalRun(Apply(b, ops[0]), ops[1..]))
  }

  /** How many requests of `ip` are let through. */
  function Admitted(b: Buckets, ops: seq<Op>, ip: string): nat
    decreases ops
  {
    if ops == [] then 0
    else (if ops[0].Request? && ops[0].ip == ip && Admits(b, ops[0]) then 1 else 0)
         + Admitted(Apply(b, ops[0]), ops[1..], ip)
  }

  /** How often the random eviction hits the bucket of `ip`. */
  ghost function Evictions(b: Buckets, ops: seq<Op>, ip: string): nat
    decreases ops
  {
    if ops == [] then 0
    else (if ops[0].Request? && Thins(b, ops[0].now) && ip in ops[0].victims then 1 else 0)
         + Evictions(Apply(b, ops[0]), ops[1..], ip)
  }

  function After(b: Buckets, ops: seq<Op>): Buckets
    decreases ops
  {
    if ops == [] then b else After(Apply(b, ops[0]), ops[1..])
  }

  function Left(count: nat): nat {
    if count < LIMIT then LIMIT - count else 0
  }

  /** How many requests of `ip` can still be admitted before `from + WINDOW`, without random evictions. */
  function Budget(b: Buckets, ip: string, from: int): nat {
    if ip !in b || b[ip].resetAt <= from then LIMIT
    else if b[ip].resetAt >= from + WINDOW then Left(b[ip].count)
    else Left(b[ip].count) + LIMIT
  }

  ghost predicate Within(ops: seq<Op>, from: int) {
    forall i :: 0 <= i < |ops| ==> from <= ops[i].now < from + WINDOW
  }

  lemma StepSpendsBudget(b: Buckets, op: Op, ip: string, from: int)
    requires from <= op.now < from + WINDOW
    ensures (if op.Request? && op.ip == ip && Admits(b, op) then 1 else 0) + Budget(Apply(b, op), ip, from)
            <= Budget(b, ip, from) + (if op.Request? && Thins(b, op.now) && ip in op.victims then LIMIT else 0)
  {
  }

  lemma {:induction false} AdmittedWithinBudget(b: Buckets, ops: seq<Op>, ip: string, from: int)
    requires Within(ops, from)
    ensures Admitted(b, ops, ip) <= Budget(b, ip, from) + LIMIT * Evictions(b, ops, ip)
    decreases ops
  {
    if ops != [] {
      StepSpendsBudget(b, ops[0], ip, from);
      AdmittedWithinBudget(Apply(b, ops[0]), ops[1..], ip, from);
    }
  }

  /** A bucket is opened by a request it counts. */
  ghost predicate Opened(b: Buckets) {
    forall k :: k in b ==> b[k].count >= 1
  }

  lemma {:induction false} BucketsAreOpened(b: Buckets, ops: seq<Op>)
    requires Opened(b)
    ensures Opened(After(b, ops))
    decreases ops
  {
    if ops != [] {
      BucketsAreOpened(Apply(b, ops[0]), ops[1..]);
    }
  }

  /** In any stretch of any run that is shorter than one window, fewer than two limits' worth of one address'
      requests get through, plus one limit for each time its bucket is evicted at random. */
  lemma FewerThanTwoLimitsPerWindow(before: seq<Op>, stretch: seq<Op>, ip: string, from: int)
    requires Within(stretch, from)
    ensures Admitted(After(map[], before), stretch, ip) <= 239 + 120 * Evictions(After(map[], before), stretch, ip)
  {
    BucketsAreOpened(map[], before);
    AdmittedWithinBudget(After(map[], before), stretch, ip, from);
  }

  function Requests(ops: seq<Op>, ip: string): nat {
    if ops == [] then 0 else (if ops[0].Request? && ops[0].ip == ip then 1 else 0) + Requests(ops[1..], ip)
  }

  /** What the bucket of `ip` has left, if it has one. */
  function Room(b: Buckets, ip: string): nat {
    if ip !in b then 120 else if b[ip].count < 120 then 120 - b[ip].count else 0
  }

  lemma StepLeavesRoom(b: Buckets, op: Op, ip: string)
    ensures op.Request? && op.ip == ip ==>
              (Room(b, ip) > 0 ==> Admits(b, op)) && Room(Apply(b, op), ip) + 1 >= Room(b, ip)
    ensures !(op.Request? && op.ip == ip) ==> Room(Apply(b, op), ip) >= Room(b, ip)
  {
  }

  /** Nobody is refused too early: in every run at least as many requests of an address pass as its bucket has room
      for, whatever is swept or evicted. */
  lemma {:induction false} RoomIsGranted(b: Buckets, ops: seq<Op>, ip: string)
    ensures Admitted(b, ops, ip) >= if Requests(ops, ip) < Room(b, ip) then Requests(ops, ip) else Room(b, ip)
    ensures Admitted(b, ops, ip) <= Requests(ops, ip)
    decreases ops
  {
    if ops != [] {
      StepLeavesRoom(b, ops[0], ip);
      RoomIsGranted(Apply(b, ops[0]), ops[1..], ip);
    }
  }

  /** So the first 120 requests of an address without a bucket all pass. */
  lemma FreshAddressPasses(b: Buckets, ops: seq<Op>, ip: string)
    requires ip !in b && Requests(ops, ip) <= 120
    ensures Admitted(b, ops, ip) == Requests(ops, ip)
  {
    RoomIsGranted(b, ops, ip);
  }

  // ----- The size of the map --------------------------------------------------------------------

  lemma LiveIsSmaller(b: Buckets, now: int)
    ensures |Live(b, now)| <= |b|
  {
    assert b.Keys == Live(b, now).Keys + (b.Keys - Live(b, now).Keys);
  }

  lemma DroppedSize(b: Buckets, victims: seq<string>)
    requires Distinct(victims) && forall k :: k in victims ==> k in b
    ensures |b - Elements(victims)| == |b| - |victims|
  {
    DistinctCount(victims);
    var gone := set k | k in victims;
    assert gone == Elements(victims);
    assert (b - gone).Keys == b.Keys - gone;
    assert b.Keys == (b.Keys - gone) + gone;
  }

  lemma {:induction false} MapStaysBounded(b: Buckets, ops: seq<Op>)
    requires |b| <= MAX_BUCKETS + 1 && LegalRun(b, ops)
    ensures |After(b, ops)| <= MAX_BUCKETS + 1
    decreases ops
  {
    if ops != [] {
      StepStaysBounded(b, ops[0]);
      MapStaysBounded(Apply(b, ops[0]), ops[1..]);
    }
  }

  lemma StepStaysBounded(b: Buckets, op: Op)
    requires |b| <= MAX_BUCKETS + 1 && Legal(b, op)
    ensures |Apply(b, op)| <= MAX_BUCKETS + 1
  {
    LiveIsSmaller(b, op.now);
    match op
    case Sweep(now) =>
    case Request(now, ip, victims) =>
      var c := Capped(b, now, victims);
      if Thins(b, now) {
        DroppedSize(Live(b, now), victims);
      }
      assert |c| <= MAX_BUCKETS;
      assert c[ip := Counted(c, now, ip)].Keys == c.Keys + {ip};
  }

  // ----- When the limit holds ------------------------------------------------------------------

  /** What a run of requests does when all of them are let through and no bucket of theirs is evicted. */
  ghost predicate Passes(b: Buckets, ops: seq<Op>, ip: string, n: nat, after: Buckets) {
    LegalRun(b, ops) && Admitted(b, ops, ip) == n && Evictions(b, ops, ip) == 0 && After(b, ops) == after
  }

  lemma {:induction false} PassesThen(b: Buckets, x: seq<Op>, m: nat, mid: Buckets,
                                      y: seq<Op>, n: nat, after: Buckets, ip: string)
    requires Passes(b, x, ip, m, mid) && Passes(mid, y, ip, n, after)
    ensures Passes(b, x + y, ip, m + n, after)
    decreases x
  {
    if x == [] {
      assert x + y == y;
    } else {
      var next := Apply(b, x[0]);
      assert (x + y)[1..] == x[1..] + y;
      PassesThen(next, x[1..], Admitted(next, x[1..], ip), mid, y, n, after, ip);
    }
  }

  lemma {:induction false} Pick(s: set<string>, n: nat) returns (picked: seq<string>)
    requires n <= |s|
    ensures |picked| == n && Distinct(picked) && forall x :: x in picked ==> x in s
  {
    picked := [];
    if n > 0 {
      var x := Member(s);
      var rest := Pick(s - {x}, n - 1);
      picked := [x] + rest;
    }
  }

  /** The random eviction may pass over any one address. */
  lemma VictimsElsewhere(b: Buckets, now: int, ip: string) returns (victims: seq<string>)
    requires Thins(b, now) && ip in Live(b, now)
    ensures ValidVictims(b, now, victims) && ip !in victims
  {
    var live := Live(b, now);
    assert |live| == |live.Keys| && |live.Keys - {ip}| == |live.Keys| - 1;
    victims := Pick(live.Keys - {ip}, QuarterOf(|live|));
  }

  ghost predicate AllAt(ops: seq<Op>, now: int) {
    forall i :: 0 <= i < |ops| ==> ops[i].now == now
  }

  /** One request into an open bucket with room, whatever the cap does to the others. */
  lemma OneMorePasses(b: Buckets, now: int, ip: string) returns (op: Op, after: Buckets)
    requires ip in b && now < b[ip].resetAt && b[ip].count < LIMIT
    ensures op.now == now && Passes(b, [op], ip, 1, after)
    ensures ip in after && after[ip] == Bucket(b[ip].count + 1, b[ip].resetAt)
  {
    var victims: seq<string> := [];
    if Thins(b, now) {
      victims := VictimsElsewhere(b, now, ip);
    }
    op := Request(now, ip, victims);
    after := Apply(b, op);
    assert [op][1..] == [] && After(after, []) == after;
  }

  /** One request into a bucket whose time is over opens it anew. */
  lemma OneReopens(b: Buckets, now: int, ip: string) returns (op: Op, after: Buckets)
    requires ip in b && now >= b[ip].resetAt
    ensures op.now == now && Passes(b, [op], ip, 1, after)
    ensures ip in after && after[ip] == Bucket(1, now + WINDOW)
  {
    var victims: seq<string> := [];
    if Thins(b, now) {
      assert |Live(b, now)| == |Live(b, now).Keys|;
      victims := Pick(Live(b, now).Keys, QuarterOf(|Live(b, now)|));
    }
    op := Request(now, ip, victims);
    after := Apply(b, op);
    assert [op][1..] == [] && After(after, []) == after;
  }

  /** As many requests as the bucket has room for are all let through. */
  lemma {:induction false} BurstPasses(b: Buckets, now: int, ip: string, n: nat) returns (ops: seq<Op>, after: Buckets)
    requires ip in b && now < b[ip].resetAt && b[ip].count + n <= LIMIT
    ensures AllAt(ops, now) && Passes(b, ops, ip, n, after)
    ensures ip in after && after[ip] == Bucket(b[ip].count + n, b[ip].resetAt)
    decreases n
  {
    ops, after := [], b;
    if n > 0 {
      var op, mid := OneMorePasses(b, now, ip);
      var rest;
      rest, after := BurstPasses(mid, now, ip, n - 1);
      PassesThen(b, [op], 1, mid, rest, n - 1, after, ip);
      ops := [op] + rest;
    }
  }

  /** When the window from `from` on starts, the address' bucket is open, will close inside it, and has room. */
  predicate HalfSpent(b: Buckets, ip: string, from: int) {
    ip in b && from < b[ip].resetAt < from + WINDOW && b[ip].count < LIMIT
  }

  /** The clock does not go back. */
  ghost predicate InTimeOrder(ops: seq<Op>) {
    forall i, j :: 0 <= i < j < |ops| ==> ops[i].now <= ops[j].now
  }

  ghost predicate RunWithin(b: Buckets, ops: seq<Op>, ip: string, from: int) {
    Within(ops, from) && InTimeOrder(ops) && LegalRun(b, ops) && Evictions(b, ops, ip) == 0
  }

  ghost predicate KeepsTheLimit(b: Buckets, ip: string, from: int) {
    forall ops :: RunWithin(b, ops, ip, from) ==> Admitted(b, ops, ip) <= LIMIT
  }

  /** A half-spent bucket lets more than a limit through: its room just before it closes, a whole limit after. */
  lemma HalfSpentExceeds(b: Buckets, ip: string, from: int) returns (ops: seq<Op>)
    requires HalfSpent(b, ip, from)
    ensures RunWithin(b, ops, ip, from)
    ensures forall i :: 0 <= i < |ops| ==> b[ip].resetAt - 1 <= ops[i].now <= b[ip].resetAt
    ensures Admitted(b, ops, ip) == LIMIT - b[ip].count + LIMIT
  {
    var close, room := b[ip].resetAt, LIMIT - b[ip].count;
    var x, b1 := BurstPasses(b, close - 1, ip, room);
    var op, b2 := OneReopens(b1, close, ip);
    var y, b3 := BurstPasses(b2, close, ip, LIMIT - 1);
    PassesThen(b, x, room, b1, [op], 1, b2, ip);
    PassesThen(b, x + [op], room + 1, b2, y, LIMIT - 1, b3, ip);
    ops := x + [op] + y;
    TwoMoments(x, op, y, close);
  }

  lemma TwoMoments(x: seq<Op>, op: Op, y: seq<Op>, close: int)
    requires AllAt(x, close - 1) && op.now == close && AllAt(y, close)
    ensures InTimeOrder(x + [op] + y)
    ensures forall i :: 0 <= i < |x + [op] + y| ==> close - 1 <= (x + [op] + y)[i].now <= close
  {
    var ops := x + [op] + y;
    assert forall i :: 0 <= i < |ops| ==> ops[i].now == if i < |x| then close - 1 else close;
  }

  /** No run exceeds the limit in a window from a state that is not half spent, evictions aside. */
  lemma LimitFromUnspent(b: Buckets, ops: seq<Op>, ip: string, from: int)
    requires Within(ops, from) && !HalfSpent(b, ip, from)
    ensures Admitted(b, ops, ip) <= LIMIT + LIMIT * Evictions(b, ops, ip)
  {
    AdmittedWithinBudget(b, ops, ip, from);
  }

  /** The documented limit holds for the window from `from` on, in every run in time order, exactly when the bucket
      is not half spent at its start. */
  lemma LimitHoldsIffNotHalfSpent(b: Buckets, ip: string, from: int)
    ensures KeepsTheLimit(b, ip, from) <==> !HalfSpent(b, ip, from)
  {
    if HalfSpent(b, ip, from) {
      var ops := HalfSpentExceeds(b, ip, from);
    } else {
      forall ops | RunWithin(b, ops, ip, from) ensures Admitted(b, ops, ip) <= LIMIT {
        LimitFromUnspent(b, ops, ip, from);
      }
    }
  }

  /** The bound is met: 119 requests just before a window closes, 120 just after, within one millisecond. */
  lemma TheBoundIsTight(ip: string) returns (before: seq<Op>, stretch: seq<Op>)
    ensures forall i :: 0 <= i < |stretch| ==> 59_999 <= stretch[i].now <= 60_000
    ensures InTimeOrder(before + stretch) && LegalRun(map[], before) && LegalRun(After(map[], before), stretch)
    ensures Evictions(After(map[], before), stretch, ip) == 0
    ensures Admitted(After(map[], before), stretch, ip) == 239
  {
    before := [Request(0, ip, [])];
    var empty: Buckets := map[];
    assert |empty| == 0 && before[1..] == [];
    assert After(empty, before) == After(Apply(empty, before[0]), []);
    assert After(empty, before) == map[ip := Bucket(1, 60_000)];
    stretch := HalfSpentExceeds(After(empty, before), ip, 59_999);
  }
}
