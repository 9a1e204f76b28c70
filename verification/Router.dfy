/** The kernel's routing: providers by priority, resolution of a model, and the cascade with retries. */
module Router {
  import opened JsMaps
  import opened Sorting
  import opened Text
  import opened Wrappers

  datatype ProviderConfig = ProviderConfig(name: string, models: seq<string>, priority: int)

  // ----- Loading ---------------------------------------------------------------------------------------------

  function ByPriority(): Order<ProviderConfig> {
    (a: ProviderConfig, b: ProviderConfig) => a.priority <= b.priority
  }

  function SortByPriority(ps: seq<ProviderConfig>): seq<ProviderConfig> {
    Sort(ByPriority(), ps)
  }

  ghost predicate Ascending(ps: seq<ProviderConfig>) {
    forall i, j :: 0 <= i < j < |ps| ==> ps[i].priority <= ps[j].priority
  }

  function OfPriority(ps: seq<ProviderConfig>, k: int): seq<ProviderConfig> {
    Only(ps, (p: ProviderConfig) => p.priority == k)
  }

  /** Ascending priority, nothing lost, and equal priorities in the order they were pushed. */
  lemma SortByPriorityIsStable(ps: seq<ProviderConfig>)
    ensures Ascending(SortByPriority(ps)) && multiset(SortByPriority(ps)) == multiset(ps)
    ensures forall k :: OfPriority(SortByPriority(ps), k) == OfPriority(ps, k)
  {
    SortSorts(ByPriority(), ps);
    SortMembers(ByPriority(), ps);
    forall k ensures OfPriority(SortByPriority(ps), k) == OfPriority(ps, k) {
      SortKeepsOrder(ByPriority(), ps, (p: ProviderConfig) => p.priority == k);
    }
  }

  predicate Lists(ps: seq<ProviderConfig>, i: int, model: string) {
    0 <= i < |ps| && model in ps[i].models
  }

  /** Each listed model with the least index of a provider that lists it. */
  ghost predicate IsModelMap(modelMap: map<string, nat>, ps: seq<ProviderConfig>) {
    && (forall m :: m in modelMap ==> Lists(ps, modelMap[m], m))
    && (forall m, i :: Lists(ps, i, m) ==> m in modelMap && modelMap[m] <= i)
  }

  /** Between two models of provider `i`. */
  ghost predicate MapSoFar(modelMap: map<string, nat>, ps: seq<ProviderConfig>, i: nat, j: nat) {
    && (forall m :: m in modelMap ==> modelMap[m] <= i && Lists(ps, modelMap[m], m))
    && (forall m, k :: k < i && Lists(ps, k, m) ==> m in modelMap && modelMap[m] <= k)
    && (i < |ps| ==> forall k :: 0 <= k < j && k < |ps[i].models| ==> Mapped(modelMap, ps[i].models[k], i))
  }

  ghost predicate Mapped(modelMap: map<string, nat>, m: string, i: int) {
    m in modelMap && modelMap[m] <= i
  }

  method BuildModelMap(ps: seq<ProviderConfig>) returns (modelMap: map<string, nat>)
    ensures IsModelMap(modelMap, ps)
  {
    modelMap := map[];
    for i := 0 to |ps|
      invariant MapSoFar(modelMap, ps, i, 0)
    {
      var p := ps[i];
      for j := 0 to |p.models|
        invariant MapSoFar(modelMap, ps, i, j)
      {
        var m := p.models[j];
        assert Lists(ps, i, m);
        if m !in modelMap {
          modelMap := modelMap[m := i];
        }
      }
      ProviderMapped(modelMap, ps, i);
    }
  }

  lemma ProviderMapped(modelMap: map<string, nat>, ps: seq<ProviderConfig>, i: nat)
    requires i < |ps| && MapSoFar(modelMap, ps, i, |ps[i].models|)
    ensures MapSoFar(modelMap, ps, i + 1, 0)
  {
    forall m, k | k < i + 1 && Lists(ps, k, m) ensures m in modelMap && modelMap[m] <= k {
      if k == i {
        var j :| 0 <= j < |ps[i].models| && ps[i].models[j] == m;
        assert Mapped(modelMap, ps[i].models[j], i);
      }
    }
  }

  datatype KernelConfig = KernelConfig(providers: seq<ProviderConfig>, modelMap: map<string, nat>) {
    ghost predicate Valid() {
      Ascending(providers) && IsModelMap(modelMap, providers)
    }
  }

  /** The providers found in the environment, in the order they are pushed. */
  method LoadConfig(found: seq<ProviderConfig>) returns (config: KernelConfig)
    ensures config.Valid() && config.providers == SortByPriority(found)
  {
    var providers := SortByPriority(found);
    SortByPriorityIsStable(found);
    var modelMap := BuildModelMap(providers);
    config := KernelConfig(providers, modelMap);
  }

  // ----- Resolution ------------------------------------------------------------------------------------------

  function Segment(model: string): string {
    Split(model, '/')[0]
  }

  predicate SharesSegment(p: ProviderConfig, segment: string) {
    exists m :: m in p.models && segment <= m
  }

  /** The first provider from `from` on, or their number. */
  function FirstSharing(ps: seq<ProviderConfig>, segment: string, from: nat): (i: nat)
    requires from <= |ps|
    ensures from <= i <= |ps| && (i < |ps| ==> segment != "" && SharesSegment(ps[i], segment))
    ensures segment != "" ==> forall k :: from <= k < i ==> !SharesSegment(ps[k], segment)
    ensures segment == "" ==> i == |ps|
    decreases |ps| - from
  {
    if from == |ps| || (segment != "" && SharesSegment(ps[from], segment)) then from
    else FirstSharing(ps, segment, from + 1)
  }

  function ResolveProvider(model: string, config: KernelConfig): Option<ProviderConfig> {
    if model in config.modelMap then
      if config.modelMap[model] < |config.providers| then Some(config.providers[config.modelMap[model]]) else None
    else
      var shared := FirstSharing(config.providers, Segment(model), 0);
      if shared < |config.providers| then Some(config.providers[shared])
      else if config.providers != [] then Some(config.providers[0])
      else None
  }

  /** The plain scan: best for the model is the first that lists it, else the first with a model that begins
      with the model's first segment, else the first. */
  ghost predicate IsChoice(model: string, ps: seq<ProviderConfig>, i: int) {
    && 0 <= i < |ps|
    && if exists k :: Lists(ps, k, model) then Lists(ps, i, model) && forall k :: k < i ==> !Lists(ps, k, model)
       else if Segment(model) != "" && exists k :: SharesAt(ps, k, Segment(model)) then
         SharesAt(ps, i, Segment(model)) && forall k :: k < i ==> !SharesAt(ps, k, Segment(model))
       else i == 0
  }

  ghost predicate SharesAt(ps: seq<ProviderConfig>, i: int, segment: string) {
    0 <= i < |ps| && SharesSegment(ps[i], segment)
  }

  /** The map and the prefix scan find the plain scan's choice; there is none only without providers. */
  lemma ResolutionIsTheScan(model: string, config: KernelConfig)
    requires config.Valid()
    ensures ResolveProvider(model, config).None? <==> config.providers == []
    ensures config.providers != [] ==>
              exists i :: IsChoice(model, config.providers, i)
                          && ResolveProvider(model, config) == Some(config.providers[i])
  {
    var ps := config.providers;
    if model in config.modelMap {
      assert Lists(ps, config.modelMap[model], model);
      assert IsChoice(model, ps, config.modelMap[model]);
    } else {
      var i := FirstSharing(ps, Segment(model), 0);
      assert forall k :: 0 <= k < |ps| && !SharesSegment(ps[k], Segment(model)) ==> !SharesAt(ps, k, Segment(model));
      if i < |ps| {
        assert SharesAt(ps, i, Segment(model));
        assert IsChoice(model, ps, i);
      } else {
        assert ps != [] ==> IsChoice(model, ps, 0);
      }
    }
  }

  /** The same without the index, for the text `vendor` in front of the model's first slash: the first provider that
      lists the model, else the first with a model that begins with the vendor, else the first of all. */
  ghost predicate IsBestFor(ps: seq<ProviderConfig>, model: string, vendor: string, i: int) {
    && 0 <= i < |ps|
    && if exists k :: 0 <= k < |ps| && model in ps[k].models then
         model in ps[i].models && forall k :: 0 <= k < i ==> model !in ps[k].models
       else if vendor != "" && exists k :: 0 <= k < |ps| && BeginsSome(ps[k].models, vendor) then
         BeginsSome(ps[i].models, vendor) && forall k :: 0 <= k < i ==> !BeginsSome(ps[k].models, vendor)
       else i == 0
  }

  ghost predicate BeginsSome(models: seq<string>, vendor: string) {
    exists j :: 0 <= j < |models| && vendor <= models[j]
  }

  lemma SharingBegins(p: ProviderConfig, vendor: string)
    ensures SharesSegment(p, vendor) <==> BeginsSome(p.models, vendor)
  {
    if m :| m in p.models && vendor <= m {
      var j :| 0 <= j < |p.models| && p.models[j] == m;
    }
    if j :| 0 <= j < |p.models| && vendor <= p.models[j] {
      assert p.models[j] in p.models;
    }
  }

  lemma ResolvesByVendor(model: string, vendor: string, config: KernelConfig)
    requires config.Valid() && config.providers != [] && IsHead(vendor, model, '/')
    ensures exists i :: IsBestFor(config.providers, model, vendor, i)
                        && ResolveProvider(model, config) == Some(config.providers[i])
  {
    var ps := config.providers;
    HeadIsFirstPart(vendor, model, '/');
    ResolutionIsTheScan(model, config);
    var i :| IsChoice(model, ps, i) && ResolveProvider(model, config) == Some(ps[i]);
    forall k | 0 <= k < |ps|
      ensures Lists(ps, k, model) <==> model in ps[k].models
      ensures SharesAt(ps, k, vendor) <==> BeginsSome(ps[k].models, vendor)
    {
      SharingBegins(ps[k], vendor);
    }
    assert IsBestFor(ps, model, vendor, i);
  }

  // ----- The cascade -----------------------------------------------------------------------------------------

  function Names(ps: seq<ProviderConfig>): seq<string> {
    seq(|ps|, i requires 0 <= i < |ps| => ps[i].name)
  }

  /** After the primary, each provider whose name is new. */
  function CascadeOf(primary: ProviderConfig, ps: seq<ProviderConfig>): (cascade: seq<ProviderConfig>)
    ensures cascade != []
  {
    if ps == [] then [primary]
    else
      var before := CascadeOf(primary, AllButLast(ps));
      if Last(ps).name in Names(before) then before else before + [Last(ps)]
  }

  method BuildCascade(primary: ProviderConfig, ps: seq<ProviderConfig>) returns (cascade: seq<ProviderConfig>)
    ensures cascade == CascadeOf(primary, ps)
  {
    cascade := [primary];
    for i := 0 to |ps|
      invariant cascade == CascadeOf(primary, ps[..i])
    {
      TakeOneMore(ps, i);
      if ps[i].name !in Names(cascade) {
        cascade := cascade + [ps[i]];
      }
    }
    TakeAll(ps);
  }

  /** Every name once, and the primary first. */
  lemma {:induction false} CascadeListsEachNameOnce(primary: ProviderConfig, ps: seq<ProviderConfig>)
    ensures CascadeOf(primary, ps)[0] == primary && Distinct(Names(CascadeOf(primary, ps)))
    ensures forall n :: n in Names(CascadeOf(primary, ps)) <==> n in Names(ps) || n == primary.name
  {
    if ps == [] {
      assert Names([primary]) == [primary.name];
    } else {
      CascadeListsEachNameOnce(primary, AllButLast(ps));
      var before := CascadeOf(primary, AllButLast(ps));
      assert Names(ps) == Names(AllButLast(ps)) + [Last(ps).name];
      assert Names(before + [Last(ps)]) == Names(before) + [Last(ps).name];
    }
  }

  /** Of several providers of one name the first is taken, unless the primary has the name. */
  lemma {:induction false} CascadeTakesFirst(primary: ProviderConfig, ps: seq<ProviderConfig>, i: nat)
    requires i < |ps| && ps[i].name != primary.name && forall k :: 0 <= k < i ==> ps[k].name != ps[i].name
    ensures ps[i] in CascadeOf(primary, ps)
  {
    var init := AllButLast(ps);
    if i < |init| {
      assert init[i] == ps[i];
      CascadeTakesFirst(primary, init, i);
    } else {
      CascadeListsEachNameOnce(primary, init);
      assert forall k :: 0 <= k < |init| ==> Names(init)[k] == ps[k].name;
    }
  }

  /** `a` is what is left of `b` after leaving some out. */
  predicate IsSubsequence(a: seq<ProviderConfig>, b: seq<ProviderConfig>) {
    if a == [] then true
    else if b == [] then false
    else if Last(a) == Last(b) then IsSubsequence(AllButLast(a), AllButLast(b)) || IsSubsequence(a, AllButLast(b))
    else IsSubsequence(a, AllButLast(b))
  }

  lemma SubsequenceSkips(a: seq<ProviderConfig>, b: seq<ProviderConfig>)
    requires b != [] && IsSubsequence(a, AllButLast(b))
    ensures IsSubsequence(a, b)
  {
  }

  lemma SubsequenceTakes(a: seq<ProviderConfig>, b: seq<ProviderConfig>)
    requires a != [] && b != [] && Last(a) == Last(b) && IsSubsequence(AllButLast(a), AllButLast(b))
    ensures IsSubsequence(a, b)
  {
  }

  /** Behind the primary the providers keep their order. */
  lemma {:induction false} CascadeKeepsOrder(primary: ProviderConfig, ps: seq<ProviderConfig>)
    ensures IsSubsequence(CascadeOf(primary, ps)[1..], ps)
  {
    if ps == [] {
    } else {
      CascadeKeepsOrder(primary, AllButLast(ps));
      CascadeStep(primary, ps);
      var tail, grown := CascadeOf(primary, AllButLast(ps))[1..], CascadeOf(primary, ps)[1..];
      if grown == tail {
        SubsequenceSkips(grown, ps);
      } else {
        SubsequenceTakes(grown, ps);
      }
    }
  }

  lemma CascadeStep(primary: ProviderConfig, ps: seq<ProviderConfig>)
    requires ps != []
    ensures var tail, grown := CascadeOf(primary, AllButLast(ps))[1..], CascadeOf(primary, ps)[1..];
            grown == tail || (grown != [] && AllButLast(grown) == tail && Last(grown) == Last(ps))
  {
    var before := CascadeOf(primary, AllButLast(ps));
    assert (before + [Last(ps)])[1..] == before[1..] + [Last(ps)];
    assert AllButLast(before[1..] + [Last(ps)]) == before[1..];
  }
}
