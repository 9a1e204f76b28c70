/** The service's provider index: exact models and prefix rules against the nested scan they replace, with the
    optional adaptive choice laid over it. */
module ProviderIndex {
  import opened JsMaps
  import opened Text
  import opened Wrappers

  datatype ProviderConfig = ProviderConfig(name: string, models: seq<string>)

  datatype PrefixRule = PrefixRule(prefix: string, provider: ProviderConfig)

  datatype RoutingTable = RoutingTable(
    modelExact: map<string, ProviderConfig>,
    prefixRules: seq<PrefixRule>,
    fallback: Option<ProviderConfig>,
    providersByName: map<string, ProviderConfig>,
    modelListFlat: seq<(string, string)>)

  function PrefixOf(model: string): string {
    Split(model, '/')[0] + "/"
  }

  predicate Shares(provider: ProviderConfig, model: string) {
    exists i :: 0 <= i < |provider.models| && PrefixOf(provider.models[i]) <= model
  }

  predicate CanServe(provider: ProviderConfig, model: string) {
    model in provider.models || Shares(provider, model)
  }

  // ----- The nested scan ---------------------------------------------------------------------------------------

  function FirstListing(ps: seq<ProviderConfig>, model: string): Option<ProviderConfig> {
    if ps == [] then None
    else
      var before := FirstListing(AllButLast(ps), model);
      if before.Some? then before else if model in Last(ps).models then Some(Last(ps)) else None
  }

  function FirstSharing(ps: seq<ProviderConfig>, model: string): Option<ProviderConfig> {
    if ps == [] then None
    else
      var before := FirstSharing(AllButLast(ps), model);
      if before.Some? then before else if Shares(Last(ps), model) then Some(Last(ps)) else None
  }

  function NestedScan(ps: seq<ProviderConfig>, model: string): Option<ProviderConfig> {
    if FirstListing(ps, model).Some? then FirstListing(ps, model)
    else if FirstSharing(ps, model).Some? then FirstSharing(ps, model)
    else if ps != [] then Some(ps[0])
    else None
  }

  // ----- The index -----------------------------------------------------------------------------------------------

  function RulesOf(p: ProviderConfig): seq<PrefixRule> {
    seq(|p.models|, i requires 0 <= i < |p.models| => PrefixRule(PrefixOf(p.models[i]), p))
  }

  function ListOf(p: ProviderConfig): seq<(string, string)> {
    seq(|p.models|, i requires 0 <= i < |p.models| => (p.models[i], p.name))
  }

  /** Provider by provider, and within one model by model. */
  function AllRules(ps: seq<ProviderConfig>): seq<PrefixRule> {
    if ps == [] then [] else AllRules(AllButLast(ps)) + RulesOf(Last(ps))
  }

  function ModelList(ps: seq<ProviderConfig>): seq<(string, string)> {
    if ps == [] then [] else ModelList(AllButLast(ps)) + ListOf(Last(ps))
  }

  ghost predicate IsExactIndex(exact: map<string, ProviderConfig>, ps: seq<ProviderConfig>) {
    forall m :: (if m in exact then Some(exact[m]) else None) == FirstListing(ps, m)
  }

  /** The last provider of a name is the one found by it. */
  function ByName(ps: seq<ProviderConfig>): map<string, ProviderConfig> {
    if ps == [] then map[] else ByName(AllButLast(ps))[Last(ps).name := Last(ps)]
  }

  /** One provider's models entered behind those of the providers before it. */
  method AddProvider(ghost before: seq<ProviderConfig>, p: ProviderConfig, exact: map<string, ProviderConfig>,
                     rules: seq<PrefixRule>, list: seq<(string, string)>)
    returns (exact': map<string, ProviderConfig>, rules': seq<PrefixRule>, list': seq<(string, string)>)
    requires IsExactIndex(exact, before)
    ensures IsExactIndex(exact', before + [p])
    ensures rules' == rules + RulesOf(p) && list' == list + ListOf(p)
  {
    exact', rules', list' := exact, rules, list;
    for j := 0 to |p.models|
      invariant rules' == rules + RulesOf(p)[..j] && list' == list + ListOf(p)[..j]
      invariant forall m :: m in exact' <==> m in exact || m in p.models[..j]
      invariant forall m :: m in exact' ==> exact'[m] == if m in exact then exact[m] else p
    {
      TakeOneMore(p.models, j);
      TakeOneMore(RulesOf(p), j);
      TakeOneMore(ListOf(p), j);
      var m := p.models[j];
      list' := list' + [(m, p.name)];
      if m !in exact' {
        exact' := exact'[m := p];
      }
      rules' := rules' + [PrefixRule(PrefixOf(m), p)];
    }
    TakeAll(p.models);
    TakeAll(RulesOf(p));
    TakeAll(ListOf(p));
    assert AllButLast(before + [p]) == before;
  }

  ghost predicate Indexed(exact: map<string, ProviderConfig>, rules: seq<PrefixRule>, list: seq<(string, string)>,
                          byName: map<string, ProviderConfig>, ps: seq<ProviderConfig>) {
    IsExactIndex(exact, ps) && rules == AllRules(ps) && list == ModelList(ps) && byName == ByName(ps)
  }

  method BuildRoutingTable(ps: seq<ProviderConfig>) returns (t: RoutingTable)
    ensures Indexed(t.modelExact, t.prefixRules, t.modelListFlat, t.providersByName, ps)
    ensures t.fallback == if ps != [] then Some(ps[0]) else None
  {
    var exact: map<string, ProviderConfig>, rules: seq<PrefixRule>, list: seq<(string, string)> := map[], [], [];
    var byName: map<string, ProviderConfig> := map[];
    for i := 0 to |ps|
      invariant Indexed(exact, rules, list, byName, ps[..i])
    {
      TakeOneMore(ps, i);
      exact, rules, list := AddProvider(ps[..i], ps[i], exact, rules, list);
      byName := byName[ps[i].name := ps[i]];
    }
    TakeAll(ps);
    t := RoutingTable(exact, rules, if ps != [] then Some(ps[0]) else None, byName, list);
  }

  // ----- Resolution --------------------------------------------------------------------------------------------

  /** The first rule whose prefix the model begins with. */
  function FirstRule(rules: seq<PrefixRule>, model: string): Option<ProviderConfig> {
    if rules == [] then None
    else
      var before := FirstRule(AllButLast(rules), model);
      if before.Some? then before else if Last(rules).prefix <= model then Some(Last(rules).provider) else None
  }

  lemma {:induction false} FirstRuleConcat(a: seq<PrefixRule>, b: seq<PrefixRule>, model: string)
    ensures FirstRule(a + b, model) == if FirstRule(a, model).Some? then FirstRule(a, model) else FirstRule(b, model)
  {
    if b == [] {
      assert a + b == a;
    } else {
      FirstRuleConcat(a, AllButLast(b), model);
      assert AllButLast(a + b) == a + AllButLast(b);
    }
  }

  lemma {:induction false} FirstRuleOfProvider(p: ProviderConfig, n: nat, model: string)
    requires n <= |p.models|
    ensures FirstRule(RulesOf(p)[..n], model)
         == if exists i :: 0 <= i < n && PrefixOf(p.models[i]) <= model then Some(p) else None
  {
    if n > 0 {
      FirstRuleOfProvider(p, n - 1, model);
      TakeOneMore(RulesOf(p), n - 1);
    }
  }

  /** The flat list of rules finds the provider that the nested loops find. */
  lemma {:induction false} RulesAreTheScan(ps: seq<ProviderConfig>, model: string)
    ensures FirstRule(AllRules(ps), model) == FirstSharing(ps, model)
  {
    if ps != [] {
      RulesAreTheScan(AllButLast(ps), model);
      FirstRuleConcat(AllRules(AllButLast(ps)), RulesOf(Last(ps)), model);
      FirstRuleOfProvider(Last(ps), |Last(ps).models|, model);
      TakeAll(RulesOf(Last(ps)));
    }
  }

  method ScanRules(rules: seq<PrefixRule>, model: string) returns (p: Option<ProviderConfig>)
    ensures p == FirstRule(rules, model)
  {
    for i := 0 to |rules|
      invariant FirstRule(rules[..i], model) == None
    {
      TakeOneMore(rules, i);
      if rules[i].prefix <= model {
        FirstRuleConcat(rules[..i + 1], rules[i + 1..], model);
        assert rules[..i + 1] + rules[i + 1..] == rules;
        return Some(rules[i].provider);
      }
    }
    TakeAll(rules);
    return None;
  }

  /** `best` is the adaptive favourite's name, consulted only when adaptive routing is on. */
  method ResolveProviderFor(model: string, ps: seq<ProviderConfig>, adaptive: bool, best: Option<string>)
    returns (p: Option<ProviderConfig>)
    ensures p == if Overlaid(ps, model, adaptive, best) then Some(ByName(ps)[best.value]) else NestedScan(ps, model)
    ensures p.None? <==> ps == []
    ensures p.Some? ==> p.value in ps
    ensures !adaptive && ps != [] ==> exists i :: IsBestFor(ps, model, i) && p == Some(ps[i])
    ensures adaptive && best != Some("") ==>
              forall i :: IsLastNamed(ps, best, i) && Offers(ps[i], model) ==> p == Some(ps[i])
    ensures adaptive && p != NestedScan(ps, model) ==>
              p.Some? && best == Some(p.value.name) && Offers(p.value, model)
    ensures (exists q :: q in ps && CanServe(q, model)) ==> p.Some? && CanServe(p.value, model)
  {
    var t := BuildRoutingTable(ps);
    RulesAreTheScan(ps, model);
    ScanServes(ps, model);
    ByNameFinds(ps);
    if ps != [] {
      var i := ScanIsBest(ps, model);
    }
    forall i | IsLastNamed(ps, best, i) && best != Some("") && Offers(ps[i], model)
      ensures Overlaid(ps, model, true, best) && ByName(ps)[best.value] == ps[i]
    {
      SharesVendor(ps[i], model);
    }
    p := if model in t.modelExact then Some(t.modelExact[model]) else None;
    if p.None? {
      p := ScanRules(t.prefixRules, model);
    }
    if p.None? {
      p := t.fallback;
    }
    if adaptive && p.Some? && best.Some? && best.value != "" && best.value in t.providersByName {
      var bp := t.providersByName[best.value];
      if CanServe(bp, model) {
        SharesVendor(bp, model);
        p := Some(bp);
      }
    }
  }

  /** The last provider that bears the favourite's name. */
  ghost predicate IsLastNamed(ps: seq<ProviderConfig>, best: Option<string>, i: int) {
    0 <= i < |ps| && best == Some(ps[i].name) && forall j :: i < j < |ps| ==> ps[j].name != ps[i].name
  }

  predicate Overlaid(ps: seq<ProviderConfig>, model: string, adaptive: bool, best: Option<string>) {
    adaptive && best.Some? && best.value != "" && best.value in ByName(ps) && CanServe(ByName(ps)[best.value], model)
  }

  lemma {:induction false} ListingServes(ps: seq<ProviderConfig>, model: string)
    ensures var p := FirstListing(ps, model); p.Some? ==> p.value in ps && model in p.value.models
    ensures FirstListing(ps, model).None? ==> forall q :: q in ps ==> model !in q.models
  {
    if ps != [] {
      ListingServes(AllButLast(ps), model);
      assert ps == AllButLast(ps) + [Last(ps)];
    }
  }

  lemma {:induction false} SharingServes(ps: seq<ProviderConfig>, model: string)
    ensures var p := FirstSharing(ps, model); p.Some? ==> p.value in ps && Shares(p.value, model)
    ensures FirstSharing(ps, model).None? ==> forall q :: q in ps ==> !Shares(q, model)
  {
    if ps != [] {
      SharingServes(AllButLast(ps), model);
      assert ps == AllButLast(ps) + [Last(ps)];
    }
  }

  /** The scan's choice can serve the model whenever any provider can. */
  lemma ScanServes(ps: seq<ProviderConfig>, model: string)
    ensures NestedScan(ps, model).None? <==> ps == []
    ensures NestedScan(ps, model).Some? ==> NestedScan(ps, model).value in ps
    ensures (exists q :: q in ps && CanServe(q, model)) ==>
              NestedScan(ps, model).Some? && CanServe(NestedScan(ps, model).value, model)
  {
    ListingServes(ps, model);
    SharingServes(ps, model);
  }

  // ----- The same in terms of vendors ------------------------------------------------------------------------------

  /** One of the models is of the vendor that the model begins with: the text in front of its first slash, followed by
      a slash. */
  ghost predicate OffersVendorOf(p: ProviderConfig, model: string) {
    exists j, vendor :: 0 <= j < |p.models| && IsHead(vendor, p.models[j], '/') && vendor + "/" <= model
  }

  ghost predicate Offers(p: ProviderConfig, model: string) {
    model in p.models || OffersVendorOf(p, model)
  }

  lemma SharesVendor(p: ProviderConfig, model: string)
    ensures Shares(p, model) <==> OffersVendorOf(p, model)
  {
    if j :| 0 <= j < |p.models| && PrefixOf(p.models[j]) <= model {
      FirstPartIsHead(p.models[j], '/');
      assert IsHead(Split(p.models[j], '/')[0], p.models[j], '/');
    }
    if j, vendor :| 0 <= j < |p.models| && IsHead(vendor, p.models[j], '/') && vendor + "/" <= model {
      HeadIsFirstPart(vendor, p.models[j], '/');
      assert PrefixOf(p.models[j]) <= model;
    }
  }

  /** The first provider that lists the model, else the first that offers its vendor, else the first of all. */
  ghost predicate IsBestFor(ps: seq<ProviderConfig>, model: string, i: int) {
    && 0 <= i < |ps|
    && if exists k :: 0 <= k < |ps| && model in ps[k].models then
         model in ps[i].models && forall k :: 0 <= k < i ==> model !in ps[k].models
       else if exists k :: 0 <= k < |ps| && OffersVendorOf(ps[k], model) then
         OffersVendorOf(ps[i], model) && forall k :: 0 <= k < i ==> !OffersVendorOf(ps[k], model)
       else i == 0
  }

  lemma {:induction false} FirstListingIsFirst(ps: seq<ProviderConfig>, model: string) returns (i: nat)
    ensures i <= |ps| && forall k :: 0 <= k < i ==> model !in ps[k].models
    ensures i < |ps| ==> model in ps[i].models && FirstListing(ps, model) == Some(ps[i])
    ensures i == |ps| ==> FirstListing(ps, model) == None
  {
    i := 0;
    if ps != [] {
      i := FirstListingIsFirst(AllButLast(ps), model);
      if i == |ps| - 1 && model !in Last(ps).models {
        i := |ps|;
      }
    }
  }

  lemma {:induction false} FirstSharingIsFirst(ps: seq<ProviderConfig>, model: string) returns (i: nat)
    ensures i <= |ps| && forall k :: 0 <= k < i ==> !OffersVendorOf(ps[k], model)
    ensures i < |ps| ==> OffersVendorOf(ps[i], model) && FirstSharing(ps, model) == Some(ps[i])
    ensures i == |ps| ==> FirstSharing(ps, model) == None
  {
    i := 0;
    if ps != [] {
      i := FirstSharingIsFirst(AllButLast(ps), model);
      SharesVendor(Last(ps), model);
      if i == |ps| - 1 && !OffersVendorOf(Last(ps), model) {
        i := |ps|;
      }
    }
  }

  /** The scan's choice, and so without the adaptive overlay the resolution's. */
  lemma ScanIsBest(ps: seq<ProviderConfig>, model: string) returns (i: nat)
    requires ps != []
    ensures i < |ps| && IsBestFor(ps, model, i) && NestedScan(ps, model) == Some(ps[i])
  {
    i := FirstListingIsFirst(ps, model);
    if i == |ps| {
      i := FirstSharingIsFirst(ps, model);
      if i == |ps| {
        i := 0;
      }
    }
  }

  /** Every name is found, and with it the last provider of that name. */
  lemma {:induction false} ByNameFinds(ps: seq<ProviderConfig>)
    ensures forall n :: n in ByName(ps) ==> ByName(ps)[n] in ps && ByName(ps)[n].name == n
    ensures forall i :: 0 <= i < |ps| ==> ps[i].name in ByName(ps)
    ensures forall i :: 0 <= i < |ps| && (forall j :: i < j < |ps| ==> ps[j].name != ps[i].name) ==>
              ByName(ps)[ps[i].name] == ps[i]
  {
    if ps != [] {
      ByNameFinds(AllButLast(ps));
      assert ps == AllButLast(ps) + [Last(ps)];
      var before := AllButLast(ps);
      forall i | 0 <= i < |ps| - 1 && forall j :: i < j < |ps| ==> ps[j].name != ps[i].name
        ensures ByName(ps)[ps[i].name] == ps[i]
      {
        assert before[i] == ps[i] && forall j :: i < j < |before| ==> before[j] == ps[j];
        assert ps[|ps| - 1].name != ps[i].name;
      }
    }
  }
}
