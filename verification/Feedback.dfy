/** Adaptive scores per provider, and the favourite that they may single out. */
module Feedback {
  import opened JsMaps
  import opened Sorting
  import opened Text
  import opened Wrappers

  const EMA_ALPHA := 0.15
  const LATENCY_BASELINE_MS := 2000.0

  datatype Usage = Usage(promptTokens: int, completionTokens: int)

  /** What is reported about one request. `now` stands for the clock. */
  datatype Outcome =
    | Success(latencyMs: real, usage: Option<Usage>, now: int)
    | Failure(error: string, now: int)

  datatype Metrics = Metrics(totalRequests: nat, successCount: nat, failureCount: nat,
                             latencyEma: real, successRateEma: real,
                             lastError: Option<string>, lastErrorAt: Option<int>, lastSuccessAt: Option<int>,
                             adaptiveScore: real, totalInputTokens: int, totalOutputTokens: int)

  function Fresh(): Metrics {
    Metrics(0, 0, 0, LATENCY_BASELINE_MS, 1.0, None, None, None, 0.5, 0, 0)
  }

  function Min(a: real, b: real): real {
    if a < b then a else b
  }

  function Max(a: real, b: real): real {
    if a < b then b else a
  }

  function Speed(latencyEma: real): real {
    Min(1.0, LATENCY_BASELINE_MS / Max(latencyEma, 100.0))
  }

  function Score(latencyEma: real, successRateEma: real): real {
    0.6 * successRateEma + 0.4 * Speed(latencyEma)
  }

  function Scored(m: Metrics): Metrics {
    m.(adaptiveScore := Score(m.latencyEma, m.successRateEma))
  }

  function Succeeded(m: Metrics, latencyMs: real, usage: Option<Usage>, now: int): Metrics {
    var tokens := if usage.Some? then usage.value else Usage(0, 0);
    Scored(m.(totalRequests := m.totalRequests + 1,
              successCount := m.successCount + 1,
              latencyEma := EMA_ALPHA * latencyMs + (1.0 - EMA_ALPHA) * m.latencyEma,
              successRateEma := EMA_ALPHA * 1.0 + (1.0 - EMA_ALPHA) * m.successRateEma,
              lastSuccessAt := Some(now),
              totalInputTokens := m.totalInputTokens + tokens.promptTokens,
              totalOutputTokens := m.totalOutputTokens + tokens.completionTokens))
  }

  function Failed(m: Metrics, error: string, now: int): Metrics {
    Scored(m.(totalRequests := m.totalRequests + 1,
              failureCount := m.failureCount + 1,
              successRateEma := EMA_ALPHA * 0.0 + (1.0 - EMA_ALPHA) * m.successRateEma,
              lastError := Some(error),
              lastErrorAt := Some(now)))
  }

  function After(m: Metrics, o: Outcome): Metrics {
    match o
    case Success(latencyMs, usage, now) => Succeeded(m, latencyMs, usage, now)
    case Failure(error, now) => Failed(m, error, now)
  }

  /** The record after these outcomes, one after the other. */
  function RunFrom(m: Metrics, os: seq<Outcome>): Metrics {
    if os == [] then m else After(RunFrom(m, AllButLast(os)), Last(os))
  }

  function Run(os: seq<Outcome>): Metrics {
    RunFrom(Fresh(), os)
  }

  lemma RunAppend(os: seq<Outcome>, o: Outcome)
    ensures Run(os + [o]) == After(Run(os), o)
  {
    assert AllButLast(os + [o]) == os;
  }

  lemma ScoreIsBounded(latencyEma: real, successRateEma: real)
    requires 0.0 < successRateEma <= 1.0
    ensures 0.0 < Score(latencyEma, successRateEma) <= 1.0
    ensures Score(latencyEma, successRateEma) == 1.0 <==> successRateEma == 1.0 && latencyEma <= LATENCY_BASELINE_MS
  {
    var d := Max(latencyEma, 100.0);
    var q := LATENCY_BASELINE_MS / d;
    assert q * d == LATENCY_BASELINE_MS;
    assert q > 0.0;
    if latencyEma <= LATENCY_BASELINE_MS {
      assert q >= 1.0;
    } else {
      assert q < 1.0;
    }
  }

  lemma QuotientFalls(x: real, p: real, q: real)
    requires 0.0 < x && 0.0 < p <= q
    ensures 0.0 < x / q <= x / p && (p < q ==> x / q < x / p)
  {
    assert (x / p) * p == x && (x / q) * q == x;
  }

  lemma SpeedFalls(fast: real, slow: real)
    requires fast <= slow
    ensures Speed(slow) <= Speed(fast)
    ensures LATENCY_BASELINE_MS < slow && fast < slow ==> Speed(slow) < Speed(fast)
  {
    QuotientFalls(LATENCY_BASELINE_MS, Max(fast, 100.0), Max(slow, 100.0));
    if LATENCY_BASELINE_MS < slow {
      QuotientFalls(LATENCY_BASELINE_MS, LATENCY_BASELINE_MS, slow);
    }
  }

  /** Slower never scores better, and strictly worse beyond the baseline; a point of success rate is worth 0.6. */
  lemma ScoreOrdersProviders(fast: real, slow: real, rate: real, rate': real)
    requires fast <= slow
    ensures Score(slow, rate) <= Score(fast, rate)
    ensures LATENCY_BASELINE_MS < slow && fast < slow ==> Score(slow, rate) < Score(fast, rate)
    ensures Score(fast, rate') - Score(fast, rate) == 0.6 * (rate' - rate)
  {
    SpeedFalls(fast, slow);
  }

  lemma SpeedIsBounded(latencyEma: real)
    ensures 0.0 < Speed(latencyEma) <= 1.0
  {
    var d := Max(latencyEma, 100.0);
    assert (LATENCY_BASELINE_MS / d) * d == LATENCY_BASELINE_MS;
  }

  /** Slow enough for any speed. */
  lemma AnySpeed(speed: real) returns (latencyEma: real)
    requires 0.0 < speed <= 1.0
    ensures Speed(latencyEma) == speed
  {
    latencyEma := LATENCY_BASELINE_MS / speed;
    assert latencyEma * speed == LATENCY_BASELINE_MS;
    QuotientFalls(LATENCY_BASELINE_MS, speed, 1.0);
    assert LATENCY_BASELINE_MS / latencyEma == speed;
  }

  /** Two thirds of success rate are what it takes to rank first whatever the latencies. */
  lemma RateOutweighsSpeed(rate: real, rate': real)
    ensures (forall fast, slow :: Score(slow, rate') > Score(fast, rate)) <==> rate' - rate >= 2.0 / 3.0
  {
    if rate' - rate >= 2.0 / 3.0 {
      forall fast, slow ensures Score(slow, rate') > Score(fast, rate) {
        SpeedIsBounded(fast);
        SpeedIsBounded(slow);
      }
    } else {
      var slow := AnySpeed(Min(1.0, 1.0 - 1.5 * (rate' - rate)));
      SpeedIsBounded(slow);
      assert Speed(LATENCY_BASELINE_MS) == 1.0;
      assert Score(slow, rate') <= Score(LATENCY_BASELINE_MS, rate);
    }
  }

  // ----- One provider's history ------------------------------------------------------------------------------

  function IsSuccess(): Outcome -> bool {
    (o: Outcome) => o.Success?
  }

  function IsFailure(): Outcome -> bool {
    (o: Outcome) => o.Failure?
  }

  function InputTokens(os: seq<Outcome>): int {
    if os == [] then 0
    else (if os[0].Success? && os[0].usage.Some? then os[0].usage.value.promptTokens else 0) + InputTokens(os[1..])
  }

  function OutputTokens(os: seq<Outcome>): int {
    if os == [] then 0
    else (if os[0].Success? && os[0].usage.Some? then os[0].usage.value.completionTokens else 0) + OutputTokens(os[1..])
  }

  function LastTime(os: seq<Outcome>): Option<int> {
    if os == [] then None else Some(Last(os).now)
  }

  /** The last error that was reported, if any. */
  function LastError(os: seq<Outcome>): Option<string> {
    if os == [] then None
    else if LastError(os[1..]).Some? then LastError(os[1..])
    else if os[0].Failure? then Some(os[0].error)
    else None
  }

  lemma {:induction false} LastErrorAppend(os: seq<Outcome>, o: Outcome)
    ensures LastError(os + [o]) == if o.Failure? then Some(o.error) else LastError(os)
  {
    if os == [] {
      assert [o][1..] == [];
    } else {
      assert (os + [o])[1..] == os[1..] + [o];
      LastErrorAppend(os[1..], o);
    }
  }

  lemma {:induction false} TokensAppend(os: seq<Outcome>, o: Outcome)
    ensures InputTokens(os + [o]) == InputTokens(os) + InputTokens([o])
    ensures OutputTokens(os + [o]) == OutputTokens(os) + OutputTokens([o])
  {
    if os != [] {
      assert (os + [o])[1..] == os[1..] + [o];
      TokensAppend(os[1..], o);
    }
  }

  /** Counts and tokens are those of the whole history; the last error and times are those of its last outcomes. */
  lemma {:induction false} RunTallies(os: seq<Outcome>)
    ensures Run(os).totalRequests == |os|
    ensures Run(os).successCount == |Only(os, IsSuccess())| && Run(os).failureCount == |Only(os, IsFailure())|
    ensures Run(os).totalInputTokens == InputTokens(os) && Run(os).totalOutputTokens == OutputTokens(os)
    ensures Run(os).lastSuccessAt == LastTime(Only(os, IsSuccess()))
    ensures Run(os).lastErrorAt == LastTime(Only(os, IsFailure())) && Run(os).lastError == LastError(os)
  {
    if os != [] {
      RunTallies(AllButLast(os));
      TokensAppend(AllButLast(os), Last(os));
      LastErrorAppend(AllButLast(os), Last(os));
      assert os == AllButLast(os) + [Last(os)];
    }
  }

  /** `x` after it has lost 15 percent `n` times. */
  function Faded(x: real, n: nat): real {
    if n == 0 then x else 0.85 * Faded(x, n - 1)
  }

  /** Each failure's 15 percent, faded once for every outcome that came later. */
  function FadedFailures(os: seq<Outcome>): real {
    if os == [] then 0.0
    else (if os[0].Failure? then Faded(0.15, |os| - 1) else 0.0) + FadedFailures(os[1..])
  }

  /** 15 percent of each latency, faded once for every success that came later. */
  function FadedLatencies(os: seq<Outcome>): real {
    if os == [] then 0.0
    else
      var later := |Only(os[1..], IsSuccess())|;
      (if os[0].Success? then Faded(0.15 * os[0].latencyMs, later) else 0.0) + FadedLatencies(os[1..])
  }

  lemma {:induction false} FadedFailuresAppend(os: seq<Outcome>, o: Outcome)
    ensures FadedFailures(os + [o]) == 0.85 * FadedFailures(os) + (if o.Failure? then 0.15 else 0.0)
  {
    if os == [] {
      assert [o][1..] == [];
    } else {
      assert (os + [o])[1..] == os[1..] + [o];
      FadedFailuresAppend(os[1..], o);
    }
  }

  lemma {:induction false} FadedLatenciesAppend(os: seq<Outcome>, o: Outcome)
    ensures FadedLatencies(os + [o]) ==
      if o.Success? then 0.85 * FadedLatencies(os) + 0.15 * o.latencyMs else FadedLatencies(os)
  {
    if os == [] {
      assert [o][1..] == [];
    } else {
      assert (os + [o])[1..] == os[1..] + [o];
      FadedLatenciesAppend(os[1..], o);
      OnlyAppend(os[1..], o, IsSuccess());
    }
  }

  /** The averages in closed form: what the success rate lacks are the faded failures, and the latency is the
      baseline and the latencies seen, each faded by the successes since. */
  lemma {:induction false} AveragesAreFadedSums(os: seq<Outcome>)
    ensures 1.0 - Run(os).successRateEma == FadedFailures(os)
    ensures Run(os).latencyEma == Faded(LATENCY_BASELINE_MS, |Only(os, IsSuccess())|) + FadedLatencies(os)
  {
    if os != [] {
      AveragesAreFadedSums(AllButLast(os));
      FadedFailuresAppend(AllButLast(os), Last(os));
      FadedLatenciesAppend(AllButLast(os), Last(os));
      assert os == AllButLast(os) + [Last(os)];
    }
  }

  /** The least of the baseline and the latencies seen. */
  function LeastLatency(os: seq<Outcome>): real {
    if os == [] then LATENCY_BASELINE_MS
    else if os[0].Success? then Min(os[0].latencyMs, LeastLatency(os[1..]))
    else LeastLatency(os[1..])
  }

  function GreatestLatency(os: seq<Outcome>): real {
    if os == [] then LATENCY_BASELINE_MS
    else if os[0].Success? then Max(os[0].latencyMs, GreatestLatency(os[1..]))
    else GreatestLatency(os[1..])
  }

  lemma {:induction false} ExtremesAppend(os: seq<Outcome>, o: Outcome)
    ensures LeastLatency(os + [o]) == if o.Success? then Min(LeastLatency(os), o.latencyMs) else LeastLatency(os)
    ensures GreatestLatency(os + [o]) ==
      if o.Success? then Max(GreatestLatency(os), o.latencyMs) else GreatestLatency(os)
  {
    if os == [] {
      assert [o][1..] == [];
    } else {
      assert (os + [o])[1..] == os[1..] + [o];
      ExtremesAppend(os[1..], o);
    }
  }

  /** After any history the latency average lies between the least and the greatest of the baseline and the
      latencies seen, and the success rate is positive and at most 1, which it is exactly without failures. */
  lemma {:induction false} AveragesStayInRange(os: seq<Outcome>)
    ensures LeastLatency(os) <= Run(os).latencyEma <= GreatestLatency(os)
    ensures 0.0 < Run(os).successRateEma <= 1.0
    ensures Run(os).successRateEma == 1.0 <==> Only(os, IsFailure()) == []
  {
    if os != [] {
      AveragesStayInRange(AllButLast(os));
      ExtremesAppend(AllButLast(os), Last(os));
      assert os == AllButLast(os) + [Last(os)];
    }
  }

  /** The score is that of the averages and lies in (0, 1]. */
  lemma ScoresStayInRange(os: seq<Outcome>)
    ensures 0.0 < Run(os).adaptiveScore <= 1.0
    ensures os != [] ==> Run(os).adaptiveScore == Score(Run(os).latencyEma, Run(os).successRateEma)
  {
    AveragesStayInRange(os);
    ScoreIsBounded(Run(os).latencyEma, Run(os).successRateEma);
  }

  lemma OnlyFailuresLowerTheRate(os: seq<Outcome>, o: Outcome)
    ensures Run(os + [o]).successRateEma < Run(os).successRateEma <==> o.Failure?
  {
    AveragesStayInRange(os);
    RunAppend(os, o);
  }

  /** A run of failures wears the success rate down by 15 percent each and leaves the latency alone. */
  lemma {:induction false} FailuresDecayTheRate(m: Metrics, failures: seq<Outcome>)
    requires forall o :: o in failures ==> o.Failure?
    ensures RunFrom(m, failures).successRateEma == Faded(m.successRateEma, |failures|)
    ensures RunFrom(m, failures).latencyEma == m.latencyEma
  {
    if failures != [] {
      FailuresDecayTheRate(m, AllButLast(failures));
      assert Last(failures) in failures;
    }
  }

  // ----- All providers ---------------------------------------------------------------------------------------

  datatype Report = Report(provider: string, outcome: Outcome)

  function Current(metrics: JsMap<string, Metrics>, p: string): Metrics {
    if p in metrics.table then metrics.table[p] else Fresh()
  }

  function Recorded(metrics: JsMap<string, Metrics>, r: Report): JsMap<string, Metrics> {
    metrics.Set(r.provider, After(Current(metrics, r.provider), r.outcome))
  }

  /** The store after these reports. */
  function Store(reports: seq<Report>): (metrics: JsMap<string, Metrics>)
    ensures metrics.Valid()
  {
    if reports == [] then Empty() else Recorded(Store(AllButLast(reports)), Last(reports))
  }

  function HistoryOf(reports: seq<Report>, p: string): seq<Outcome> {
    if reports == [] then []
    else
      var before := HistoryOf(AllButLast(reports), p);
      if Last(reports).provider == p then before + [Last(reports).outcome] else before
  }

  /** Every provider's record is that of its own history, whatever is reported about the others in between. */
  lemma {:induction false} RecordsAreIndependent(reports: seq<Report>, p: string)
    ensures Current(Store(reports), p) == Run(HistoryOf(reports, p))
    ensures p in Store(reports).table <==> HistoryOf(reports, p) != []
  {
    if reports != [] {
      RecordsAreIndependent(AllButLast(reports), p);
      RunAppend(HistoryOf(AllButLast(reports), p), Last(reports).outcome);
    }
  }

  // ----- The favourite ---------------------------------------------------------------------------------------

  function ScoreOf(table: map<string, Metrics>, p: string): real {
    if p in table then table[p].adaptiveScore else 0.0
  }

  function ByScore(table: map<string, Metrics>): Order<string> {
    (p, q) => ScoreOf(table, p) >= ScoreOf(table, q)
  }

  /** Descending scores; equal scores keep their order. */
  function Ranking(order: seq<string>, table: map<string, Metrics>): seq<string> {
    Sort(ByScore(table), order)
  }

  ghost predicate Descending(ranking: seq<string>, table: map<string, Metrics>) {
    forall i, j :: 0 <= i < j < |ranking| ==> ScoreOf(table, ranking[i]) >= ScoreOf(table, ranking[j])
  }

  function AtScore(order: seq<string>, table: map<string, Metrics>, score: real): seq<string> {
    Only(order, p => ScoreOf(table, p) == score)
  }

  /** The ranking is the map's providers, by descending score, equal scores in the order of the map. */
  lemma RankingIsSorted(order: seq<string>, table: map<string, Metrics>)
    ensures Descending(Ranking(order, table), table) && multiset(Ranking(order, table)) == multiset(order)
    ensures forall score :: AtScore(Ranking(order, table), table, score) == AtScore(order, table, score)
  {
    SortSorts(ByScore(table), order);
    SortMembers(ByScore(table), order);
    forall score ensures AtScore(Ranking(order, table), table, score) == AtScore(order, table, score) {
      SortKeepsOrder(ByScore(table), order, p => ScoreOf(table, p) == score);
    }
  }

  /** Ahead of every other provider by at least the margin, on at least five requests. */
  ghost predicate Leads(metrics: JsMap<string, Metrics>, p: string) {
    && p in metrics.table && metrics.table[p].totalRequests >= 5
    && forall q :: q in metrics.table && q != p ==>
         metrics.table[p].adaptiveScore - metrics.table[q].adaptiveScore >= 0.05
  }

  /** A provider that is tracked alone leads from its fifth request on, whatever its score. */
  lemma LoneProviderLeads(reports: seq<Report>, p: string)
    requires forall r :: r in reports ==> r.provider == p
    ensures Leads(Store(reports), p) <==> |reports| >= 5
  {
    LoneHistory(reports, p);
    RecordsAreIndependent(reports, p);
    RunTallies(HistoryOf(reports, p));
    forall q | q != p ensures q !in Store(reports).table {
      LoneHistory(reports, q);
      RecordsAreIndependent(reports, q);
    }
  }

  lemma {:induction false} LoneHistory(reports: seq<Report>, q: string)
    requires forall r, r' :: r in reports && r' in reports ==> r.provider == r'.provider
    ensures |HistoryOf(reports, q)| == if reports != [] && reports[0].provider == q then |reports| else 0
  {
    if reports != [] {
      assert Last(reports) in reports && reports[0] in reports;
      assert forall r :: r in AllButLast(reports) ==> r in reports;
      LoneHistory(AllButLast(reports), q);
    }
  }

  class FeedbackStore {
    var metrics: JsMap<string, Metrics>
    ghost var reports: seq<Report>

    ghost predicate Valid()
      reads this
    {
      metrics == Store(reports)
    }

    constructor ()
      ensures Valid() && reports == []
    {
      metrics := Empty();
      reports := [];
    }

    method RecordSuccess(provider: string, latencyMs: real, usage: Option<Usage>, now: int)
      requires Valid()
      modifies this
      ensures Valid() && reports == old(reports) + [Report(provider, Success(latencyMs, usage, now))]
    {
      metrics := metrics.Set(provider, Succeeded(Current(metrics, provider), latencyMs, usage, now));
      reports := reports + [Report(provider, Success(latencyMs, usage, now))];
    }

    method RecordFailure(provider: string, error: string, now: int)
      requires Valid()
      modifies this
      ensures Valid() && reports == old(reports) + [Report(provider, Failure(error, now))]
    {
      metrics := metrics.Set(provider, Failed(Current(metrics, provider), error, now));
      reports := reports + [Report(provider, Failure(error, now))];
    }

    /** The favourite, exactly when one provider leads. */
    method GetBestProvider() returns (best: Option<string>)
      requires Valid()
      ensures best.Some? <==> exists p :: Leads(metrics, p)
      ensures best.Some? ==> Leads(metrics, best.value)
    {
      var table := metrics.table;
      var ranking := Ranking(metrics.order, table);
      RankingIsSorted(metrics.order, table);
      RankingCoversMap(metrics, ranking);
      if |ranking| == 0 {
        return None;
      }
      if |ranking| >= 2 && table[ranking[0]].adaptiveScore - table[ranking[1]].adaptiveScore < 0.05 {
        return None;
      }
      if table[ranking[0]].totalRequests < 5 {
        return None;
      }
      FirstLeads(metrics, ranking);
      return Some(ranking[0]);
    }
  }

  lemma RankingCoversMap(metrics: JsMap<string, Metrics>, ranking: seq<string>)
    requires metrics.Valid() && multiset(ranking) == multiset(metrics.order)
    ensures forall p :: p in ranking <==> p in metrics.table
    ensures Distinct(ranking)
  {
    assert forall p :: p in ranking <==> p in multiset(ranking);
    assert forall p :: p in metrics.order <==> p in multiset(metrics.order);
    StaysDistinct(metrics.order, ranking);
  }

  lemma FirstLeads(metrics: JsMap<string, Metrics>, ranking: seq<string>)
    requires Distinct(ranking) && |ranking| > 0 && forall p :: p in ranking <==> p in metrics.table
    requires Descending(ranking, metrics.table) && metrics.table[ranking[0]].totalRequests >= 5
    requires |ranking| >= 2 ==>
               metrics.table[ranking[0]].adaptiveScore - metrics.table[ranking[1]].adaptiveScore >= 0.05
    ensures Leads(metrics, ranking[0])
  {
    forall q | q in metrics.table && q != ranking[0]
      ensures metrics.table[ranking[0]].adaptiveScore - metrics.table[q].adaptiveScore >= 0.05
    {
      var i :| 0 <= i < |ranking| && ranking[i] == q;
      assert i > 1 ==> ScoreOf(metrics.table, ranking[1]) >= ScoreOf(metrics.table, q);
    }
  }
}
