/** Cross-repo backlinks of the Living Architecture Graph: the candidate search over an inverted keyword
    index and label buckets, against the all-pairs scan it replaces. */
module Backlinks {
  import opened JsMaps

  const MIN_SCORE: nat := 3
  const MAX_BACKLINKS: nat := 6
  const STEP_CAP: nat := 500

  /** `key` is the text that `dedupeReferences` compares. */
  datatype Reference = Reference(key: string, text: string)

  /** A step as the pairwise phase sees it: its normalised label, its keywords in the order of the keyword
      `Set`, and the reference that other steps store for it. */
  datatype Step = Step(id: string, repoId: string, kind: string, labelKey: string, words: seq<string>, link: Reference)

  // ----- The all-pairs reference ------------------------------------------------------------

  function Shared(left: seq<string>, right: seq<string>): seq<string> {
    if left == [] then []
    else (if left[0] in right then [left[0]] else []) + Shared(left[1..], right)
  }

  function Score(left: Step, right: Step): nat {
    if left.repoId == right.repoId then 0
    else
      |Shared(left.words, right.words)|
      + (if left.labelKey == right.labelKey then 5 else 0)
      + (if left.kind == right.kind then 1 else 0)
  }

  predicate Qualifies(steps: seq<Step>, i: nat, j: nat) {
    i < j < |steps| && Score(steps[i], steps[j]) >= MIN_SCORE
  }

  ghost predicate Partners(steps: seq<Step>, i: nat, j: nat) {
    Qualifies(steps, i, j) || Qualifies(steps, j, i)
  }

  ghost predicate DistinctIds(steps: seq<Step>) {
    forall i, j :: 0 <= i < j < |steps| ==> steps[i].id != steps[j].id
  }

  function Pairwise(steps: seq<Step>): seq<Step> {
    if |steps| <= STEP_CAP then steps else steps[..STEP_CAP]
  }

  // ----- Lists of references ----------------------------------------------------------------

  function Keys(refs: seq<Reference>): seq<string> {
    seq(|refs|, i requires 0 <= i < |refs| => refs[i].key)
  }

  function Dedupe(refs: seq<Reference>): seq<Reference> {
    if refs == [] then []
    else
      var kept := Dedupe(refs[..|refs| - 1]);
      var last := refs[|refs| - 1];
      if last.key in Keys(kept) then kept else kept + [last]
  }

  /** What one push does to a stored list: refused when full, then deduplicated. */
  function Pushed(list: seq<Reference>, ref: Reference): seq<Reference> {
    Dedupe(if |list| < MAX_BACKLINKS then list + [ref] else list)
  }

  function PushAll(refs: seq<Reference>): seq<Reference> {
    if refs == [] then []
    else Pushed(PushAll(refs[..|refs| - 1]), refs[|refs| - 1])
  }

  function FirstSix(refs: seq<Reference>): seq<Reference> {
    if |refs| <= MAX_BACKLINKS then refs else refs[..MAX_BACKLINKS]
  }

  lemma {:induction false} DedupeDistinct(refs: seq<Reference>)
    ensures Distinct(Keys(Dedupe(refs)))
    ensures forall r :: r in Dedupe(refs) ==> r in refs
  {
    if refs != [] {
      var n := |refs| - 1;
      DedupeDistinct(refs[..n]);
      var kept := Dedupe(refs[..n]);
      if refs[n].key !in Keys(kept) {
        assert Keys(kept + [refs[n]]) == Keys(kept) + [refs[n].key];
        DistinctAppend(Keys(kept), refs[n].key);
      }
    }
  }

  ghost predicate KeyUsed(refs: seq<Reference>, n: nat, key: string)
    requires n <= |refs|
  {
    exists h :: 0 <= h < n && refs[h].key == key
  }

  /** Those of the first `n` references that no earlier one shares the key with, in order. */
  ghost function FirstsOfKeys(refs: seq<Reference>, n: nat): seq<Reference>
    requires n <= |refs|
  {
    if n == 0 then []
    else if KeyUsed(refs, n - 1, refs[n - 1].key) then FirstsOfKeys(refs, n - 1)
    else FirstsOfKeys(refs, n - 1) + [refs[n - 1]]
  }

  lemma KeysAppend(refs: seq<Reference>, ref: Reference)
    ensures Keys(refs + [ref]) == Keys(refs) + [ref.key]
  {
  }

  lemma {:induction false} FirstsHaveAllKeys(refs: seq<Reference>, n: nat, key: string)
    requires n <= |refs|
    ensures key in Keys(FirstsOfKeys(refs, n)) <==> KeyUsed(refs, n, key)
  {
    if n > 0 {
      FirstsHaveAllKeys(refs, n - 1, key);
      KeysAppend(FirstsOfKeys(refs, n - 1), refs[n - 1]);
      assert KeyUsed(refs, n, key) <==> KeyUsed(refs, n - 1, key) || refs[n - 1].key == key;
    }
  }

  lemma {:induction false} DedupeOfPrefix(refs: seq<Reference>, n: nat)
    requires n <= |refs|
    ensures Dedupe(refs[..n]) == FirstsOfKeys(refs, n)
  {
    if n > 0 {
      TakeOneMore(refs, n - 1);
      DedupeOfPrefix(refs, n - 1);
      FirstsHaveAllKeys(refs, n - 1, refs[n - 1].key);
    }
  }

  /** The first reference of each key is kept, in the order in which they came. */
  lemma DedupeKeepsFirst(refs: seq<Reference>)
    ensures Dedupe(refs) == FirstsOfKeys(refs, |refs|)
  {
    DedupeOfPrefix(refs, |refs|);
    TakeAll(refs);
  }

  lemma {:induction false} DedupeOfDistinct(refs: seq<Reference>)
    requires Distinct(Keys(refs))
    ensures Dedupe(refs) == refs
  {
    if refs != [] {
      var n := |refs| - 1;
      LastKeyIsNew(refs);
      DedupeOfDistinct(refs[..n]);
      assert refs == refs[..n] + [refs[n]];
    }
  }

  lemma LastKeyIsNew(refs: seq<Reference>)
    requires refs != [] && Distinct(Keys(refs))
    ensures Distinct(Keys(refs[..|refs| - 1])) && refs[|refs| - 1].key !in Keys(refs[..|refs| - 1])
  {
    var n := |refs| - 1;
    assert Keys(refs[..n]) == Keys(refs)[..n];
    assert refs[n].key == Keys(refs)[n];
  }

  /** What was deduplicated before need not be again. */
  lemma {:induction false} DedupeInParts(a: seq<Reference>, b: seq<Reference>)
    ensures Dedupe(Dedupe(a) + b) == Dedupe(a + b)
  {
    if b == [] {
      DedupeDistinct(a);
      DedupeOfDistinct(Dedupe(a));
      assert Dedupe(a) + b == Dedupe(a) && a + b == a;
    } else {
      var n := |b| - 1;
      DedupeInParts(a, b[..n]);
      assert (Dedupe(a) + b)[..|Dedupe(a) + b| - 1] == Dedupe(a) + b[..n];
      assert (a + b)[..|a + b| - 1] == a + b[..n];
    }
  }

  /** Pushing one at a time under the cap keeps the first six distinct references. */
  lemma {:induction false} PushAllKeepsFirstSix(refs: seq<Reference>)
    ensures PushAll(refs) == FirstSix(Dedupe(refs))
  {
    if refs != [] {
      var init := refs[..|refs| - 1];
      PushAllKeepsFirstSix(init);
      DedupeDistinct(init);
      var kept := Dedupe(init);
      var six := FirstSix(kept);
      assert forall i :: 0 <= i < |six| ==> Keys(six)[i] == Keys(kept)[i];
      DedupeOfDistinct(six);
      if |six| < MAX_BACKLINKS {
        assert (six + [refs[|init|]])[..|six|] == six;
      }
    }
  }

  // ----- What a log of linked pairs gives each step -------------------------------------------

  /** The partners of step `i` in the order in which they were linked. */
  ghost function PartnersIn(log: seq<(nat, nat)>, i: nat): seq<nat> {
    if log == [] then []
    else
      var n := |log| - 1;
      var before := PartnersIn(log[..n], i);
      if log[n].0 == i then before + [log[n].1]
      else if log[n].1 == i then before + [log[n].0]
      else before
  }

  ghost function Links(steps: seq<Step>, js: seq<nat>): seq<Reference>
    requires forall j :: j in js ==> j < |steps|
  {
    seq(|js|, k requires 0 <= k < |js| => assert js[k] in js; steps[js[k]].link)
  }

  lemma {:induction false} PartnersInMembers(log: seq<(nat, nat)>, i: nat)
    requires forall p :: p in log ==> p.0 < p.1
    ensures forall j :: j in PartnersIn(log, i) <==> (i, j) in log || (j, i) in log
  {
    if log != [] {
      var n := |log| - 1;
      assert forall p :: p in log <==> p in log[..n] || p == log[n];
      PartnersInMembers(log[..n], i);
    }
  }

  lemma {:induction false} PartnersInDistinct(log: seq<(nat, nat)>, i: nat)
    requires Distinct(log) && forall p :: p in log ==> p.0 < p.1
    ensures Distinct(PartnersIn(log, i))
  {
    if log != [] {
      var n := |log| - 1;
      assert forall p :: p in log[..n] ==> p in log;
      PartnersInDistinct(log[..n], i);
      PartnersInMembers(log[..n], i);
      assert log[n] in log && log[n] !in log[..n];
      if log[n].0 == i {
        assert (log[n].1, i) !in log;
      } else if log[n].1 == i {
        assert (i, log[n].0) !in log;
      }
    }
  }

  /** The log lists every qualifying pair once and nothing else, left steps in index order. */
  ghost predicate LogsAllPairs(steps: seq<Step>, log: seq<(nat, nat)>) {
    && Distinct(log)
    && (forall i: nat, j: nat :: (i, j) in log <==> Qualifies(steps, i, j))
    && (forall a, b :: 0 <= a < b < |log| ==> log[a].0 <= log[b].0)
  }

  ghost function PartnerSet(steps: seq<Step>, i: nat): set<nat> {
    set j: nat | j < |steps| && Partners(steps, i, j)
  }

  lemma PartnersAreAllPartners(steps: seq<Step>, log: seq<(nat, nat)>, i: nat)
    requires LogsAllPairs(steps, log)
    ensures Distinct(PartnersIn(log, i))
    ensures Elements(PartnersIn(log, i)) == PartnerSet(steps, i)
    ensures |PartnersIn(log, i)| == |PartnerSet(steps, i)|
  {
    var js := PartnersIn(log, i);
    PartnersInDistinct(log, i);
    PartnersInMembers(log, i);
    DistinctCount(js);
    assert Elements(js) == PartnerSet(steps, i);
  }

  function ListFor(backlinks: map<string, seq<Reference>>, id: string): seq<Reference> {
    if id in backlinks then backlinks[id] else []
  }

  ghost predicate DistinctLinks(steps: seq<Step>) {
    forall i, j :: 0 <= i < j < |steps| ==> steps[i].link.key != steps[j].link.key
  }

  /** A list holds min(6, number of qualifying partners) distinct references, each to a qualifying partner. */
  ghost predicate FilledFromPartners(steps: seq<Step>, list: seq<Reference>, i: nat) {
    && |list| == (if |PartnerSet(steps, i)| <= MAX_BACKLINKS then |PartnerSet(steps, i)| else MAX_BACKLINKS)
    && Distinct(Keys(list))
    && forall r :: r in list ==> exists j :: j in PartnerSet(steps, i) && r == steps[j].link
  }

  lemma LinksDistinct(steps: seq<Step>, js: seq<nat>)
    requires Distinct(js) && (forall j :: j in js ==> j < |steps|) && DistinctLinks(steps)
    ensures Distinct(Keys(Links(steps, js)))
  {
    forall a, b | 0 <= a < b < |js| ensures Keys(Links(steps, js))[a] != Keys(Links(steps, js))[b] {
      assert js[a] in js && js[b] in js;
      if js[a] < js[b] { assert steps[js[a]].link.key != steps[js[b]].link.key; }
      else { assert steps[js[b]].link.key != steps[js[a]].link.key; }
    }
  }

  /** What the cap keeps of distinct references. */
  lemma BacklinkCount(steps: seq<Step>, log: seq<(nat, nat)>, i: nat)
    requires LogsAllPairs(steps, log) && i < |steps| && DistinctLinks(steps)
    requires forall j :: j in PartnersIn(log, i) ==> j < |steps|
    ensures FilledFromPartners(steps, PushAll(Links(steps, PartnersIn(log, i))), i)
  {
    var js := PartnersIn(log, i);
    PartnersAreAllPartners(steps, log, i);
    var refs := Links(steps, js);
    LinksDistinct(steps, js);
    DedupeOfDistinct(refs);
    PushAllKeepsFirstSix(refs);
    var list := FirstSix(refs);
    assert forall k :: 0 <= k < |list| ==> Keys(list)[k] == Keys(refs)[k];
    forall r | r in list ensures exists j :: j in PartnerSet(steps, i) && r == steps[j].link {
      var k :| 0 <= k < |list| && list[k] == r;
      assert js[k] in js;
      assert js[k] in Elements(js);
    }
  }

  /** Partners before `i` are linked first and in index order, so under the cap the earliest steps win. */
  lemma {:induction false} EarlierPartnersFirst(log: seq<(nat, nat)>, i: nat, x: nat, y: nat)
    requires Distinct(log) && forall p :: p in log ==> p.0 < p.1
    requires forall a, b :: 0 <= a < b < |log| ==> log[a].0 <= log[b].0
    requires x < y < |PartnersIn(log, i)| && PartnersIn(log, i)[y] < i
    ensures PartnersIn(log, i)[x] < PartnersIn(log, i)[y]
  {
    var n := |log| - 1;
    var before := PartnersIn(log[..n], i);
    assert forall p :: p in log[..n] ==> p in log;
    assert log[n] in log;
    if y < |before| {
      EarlierPartnersFirst(log[..n], i, x, y);
    } else {
      assert log[n].1 == i && PartnersIn(log, i)[y] == log[n].0;
      PartnersInMembers(log[..n], i);
      forall a | 0 <= a < n ensures log[a].0 < i { assert log[a].0 <= log[n].0; }
      var j := before[x];
      assert j in before;
      var a :| 0 <= a < n && log[a] == (j, i);
      assert log[a].0 <= log[n].0;
      assert log[a] != log[n];
    }
  }

  // ----- A pair that can qualify shares a keyword or a label -----------------------------------

  lemma {:induction false} SharedMembers(left: seq<string>, right: seq<string>)
    ensures forall w :: w in Shared(left, right) <==> w in left && w in right
  {
    if left != [] {
      SharedMembers(left[1..], right);
    }
  }

  lemma QualifyingPairsAreCandidates(left: Step, right: Step)
    requires Score(left, right) >= MIN_SCORE
    ensures left.labelKey == right.labelKey || exists w :: w in left.words && w in right.words
  {
    SharedMembers(left.words, right.words);
    if left.labelKey != right.labelKey {
      assert Shared(left.words, right.words)[0] in Shared(left.words, right.words);
    }
  }

  /** The score does not depend on which of the two steps is called left. */
  lemma ScoreIsSymmetric(left: Step, right: Step)
    requires Distinct(left.words) && Distinct(right.words)
    ensures Score(left, right) == Score(right, left)
  {
    SharedMembers(left.words, right.words);
    SharedMembers(right.words, left.words);
    SharedDistinct(left.words, right.words);
    SharedDistinct(right.words, left.words);
    DistinctCount(Shared(left.words, right.words));
    DistinctCount(Shared(right.words, left.words));
    assert Elements(Shared(left.words, right.words)) == Elements(Shared(right.words, left.words));
  }

  lemma {:induction false} SharedDistinct(left: seq<string>, right: seq<string>)
    requires Distinct(left)
    ensures Distinct(Shared(left, right))
  {
    if left != [] {
      assert Distinct(left[1..]);
      SharedDistinct(left[1..], right);
      SharedMembers(left[1..], right);
      assert left[0] !in left[1..];
    }
  }

  // ----- What a score of three means ------------------------------------------------------------

  ghost function Common(left: Step, right: Step): set<string> {
    set w | w in left.words && w in right.words
  }

  /** Steps of two repositories with one label, or with three keywords in common, or with two and the same kind. */
  ghost predicate Similar(left: Step, right: Step) {
    && left.repoId != right.repoId
    && (|| left.labelKey == right.labelKey
        || |Common(left, right)| >= 3
        || (|Common(left, right)| == 2 && left.kind == right.kind))
  }

  /** The keywords of a step are the members of a set. */
  ghost predicate WordsAreSets(steps: seq<Step>) {
    forall i :: 0 <= i < |steps| ==> Distinct(steps[i].words)
  }

  lemma ScoreMeansSimilar(left: Step, right: Step)
    requires Distinct(left.words)
    ensures Score(left, right) >= MIN_SCORE <==> Similar(left, right)
  {
    SharedMembers(left.words, right.words);
    SharedDistinct(left.words, right.words);
    DistinctCount(Shared(left.words, right.words));
    assert Elements(Shared(left.words, right.words)) == Common(left, right);
  }

  /** The other steps that are similar to step `i`. */
  ghost function SimilarTo(steps: seq<Step>, i: nat): set<nat>
    requires i < |steps|
  {
    set j: nat | j < |steps| && j != i && Similar(steps[i], steps[j])
  }

  lemma SimilarIsSymmetric(left: Step, right: Step)
    ensures Similar(left, right) <==> Similar(right, left)
  {
    assert Common(left, right) == Common(right, left);
  }

  lemma PartnersAreSimilar(steps: seq<Step>, i: nat)
    requires WordsAreSets(steps) && i < |steps|
    ensures PartnerSet(steps, i) == SimilarTo(steps, i)
  {
    forall j: nat | j < |steps| ensures Partners(steps, i, j) <==> j != i && Similar(steps[i], steps[j]) {
      ScoreMeansSimilar(steps[i], steps[j]);
      ScoreMeansSimilar(steps[j], steps[i]);
      SimilarIsSymmetric(steps[i], steps[j]);
    }
  }

  /** Each of the first 500 steps has references to the others similar to it: to all of them, or to six. */
  ghost predicate LinksSimilar(steps: seq<Step>, backlinks: map<string, seq<Reference>>) {
    forall i: nat :: i < |steps| ==> FilledFromSimilar(steps, ListFor(backlinks, steps[i].id), i)
  }

  ghost predicate FilledFromSimilar(steps: seq<Step>, list: seq<Reference>, i: nat)
    requires i < |steps|
  {
    && |list| == (if |SimilarTo(steps, i)| <= 6 then |SimilarTo(steps, i)| else 6)
    && Distinct(Keys(list))
    && forall r :: r in list ==> exists j :: j in SimilarTo(steps, i) && r == steps[j].link
  }

  lemma FilledMeansSimilar(steps: seq<Step>, list: seq<Reference>, i: nat)
    requires WordsAreSets(steps) && i < |steps| && FilledFromPartners(steps, list, i)
    ensures FilledFromSimilar(steps, list, i)
  {
    PartnersAreSimilar(steps, i);
  }

  // ----- The search ---------------------------------------------------------------------------

  function Bucket(index: map<string, seq<string>>, key: string): seq<string> {
    if key in index then index[key] else []
  }

  /** Adding to a JavaScript `Set`. */
  function Add(ids: seq<string>, id: string): seq<string> {
    if id in ids then ids else ids + [id]
  }

  predicate HasWord(step: Step, w: string, id: string) {
    step.id == id && w in step.words
  }

  predicate HasLabel(step: Step, l: string, id: string) {
    step.id == id && l == step.labelKey
  }

  ghost predicate CarriesWord(steps: seq<Step>, n: nat, w: string, id: string)
    requires n <= |steps|
  {
    exists i :: 0 <= i < n && HasWord(steps[i], w, id)
  }

  ghost predicate CarriesLabel(steps: seq<Step>, n: nat, l: string, id: string)
    requires n <= |steps|
  {
    exists i :: 0 <= i < n && HasLabel(steps[i], l, id)
  }

  /** Both indexes list, for every keyword and label, the steps that carry it and nobody else. */
  ghost predicate IndexesHold(steps: seq<Step>, n: nat,
                              byWord: map<string, seq<string>>, byLabel: map<string, seq<string>>)
    requires n <= |steps|
  {
    && (forall w, id :: id in Bucket(byWord, w) <==> CarriesWord(steps, n, w, id))
    && (forall l, id :: id in Bucket(byLabel, l) <==> CarriesLabel(steps, n, l, id))
  }

  lemma CarriesMore(steps: seq<Step>, n: nat)
    requires n < |steps|
    ensures forall w, id ::
              CarriesWord(steps, n + 1, w, id) <==> CarriesWord(steps, n, w, id) || HasWord(steps[n], w, id)
    ensures forall l, id ::
              CarriesLabel(steps, n + 1, l, id) <==> CarriesLabel(steps, n, l, id) || HasLabel(steps[n], l, id)
  {
  }

  lemma LabelAdded(index: map<string, seq<string>>, step: Step)
    ensures var index' := index[step.labelKey := Bucket(index, step.labelKey) + [step.id]];
            forall l, id :: id in Bucket(index', l) <==> id in Bucket(index, l) || HasLabel(step, l, id)
  {
  }

  method IndexWords(step: Step, index: map<string, seq<string>>) returns (index': map<string, seq<string>>)
    ensures forall w, id :: id in Bucket(index', w) <==> id in Bucket(index, w) || HasWord(step, w, id)
  {
    index' := index;
    var k := 0;
    while k < |step.words|
      invariant 0 <= k <= |step.words|
      invariant forall w, id :: id in Bucket(index', w) <==>
                  id in Bucket(index, w) || (id == step.id && w in step.words[..k])
    {
      index' := index'[step.words[k] := Add(Bucket(index', step.words[k]), step.id)];
      k := k + 1;
    }
    TakeAll(step.words);
  }

  method IndexSteps(steps: seq<Step>) returns (byWord: map<string, seq<string>>, byLabel: map<string, seq<string>>)
    ensures IndexesHold(steps, |steps|, byWord, byLabel)
  {
    byWord, byLabel := map[], map[];
    var n := 0;
    while n < |steps|
      invariant 0 <= n <= |steps|
      invariant IndexesHold(steps, n, byWord, byLabel)
    {
      var step := steps[n];
      CarriesMore(steps, n);
      LabelAdded(byLabel, step);
      byLabel := byLabel[step.labelKey := Bucket(byLabel, step.labelKey) + [step.id]];
      byWord := IndexWords(step, byWord);
      n := n + 1;
    }
  }

  method AddAll(ids: seq<string>, more: seq<string>, self: string) returns (all: seq<string>)
    ensures Distinct(ids) ==> Distinct(all)
    ensures forall id :: id in all <==> id in ids || (id in more && id != self)
  {
    all := ids;
    var k := 0;
    while k < |more|
      invariant 0 <= k <= |more|
      invariant Distinct(ids) ==> Distinct(all)
      invariant forall id :: id in all <==> id in ids || (id in more[..k] && id != self)
    {
      if more[k] != self {
        all := Add(all, more[k]);
      }
      k := k + 1;
    }
    assert more[..k] == more;
  }

  /** The candidates of a step: everyone in its keyword buckets and its label bucket but itself. */
  method Candidates(step: Step, byWord: map<string, seq<string>>, byLabel: map<string, seq<string>>)
    returns (ids: seq<string>)
    ensures Distinct(ids)
    ensures forall id :: id in ids <==>
              id != step.id && (id in Bucket(byLabel, step.labelKey)
                                || exists w :: w in step.words && id in Bucket(byWord, w))
  {
    ids := [];
    var k := 0;
    while k < |step.words|
      invariant 0 <= k <= |step.words|
      invariant Distinct(ids)
      invariant forall id :: id in ids <==>
                  id != step.id && exists w :: w in step.words[..k] && id in Bucket(byWord, w)
    {
      ghost var before := ids;
      ids := AddAll(ids, Bucket(byWord, step.words[k]), step.id);
      assert forall w :: w in step.words[..k + 1] <==> w in step.words[..k] || w == step.words[k];
      k := k + 1;
    }
    assert step.words[..k] == step.words;
    ids := AddAll(ids, Bucket(byLabel, step.labelKey), step.id);
  }

  method IndexIds(steps: seq<Step>) returns (idToIndex: map<string, nat>)
    ensures forall id :: id in idToIndex ==> idToIndex[id] < |steps| && steps[idToIndex[id]].id == id
    ensures forall i :: 0 <= i < |steps| ==> steps[i].id in idToIndex
    ensures DistinctIds(steps) ==> forall i :: 0 <= i < |steps| ==> idToIndex[steps[i].id] == i
  {
    idToIndex := map[];
    var n := 0;
    while n < |steps|
      invariant 0 <= n <= |steps|
      invariant forall id :: id in idToIndex ==> idToIndex[id] < n && steps[idToIndex[id]].id == id
      invariant forall i :: 0 <= i < n ==> steps[i].id in idToIndex
    {
      idToIndex := idToIndex[steps[n].id := n];
      n := n + 1;
    }
  }

  /** What linking the pair (l, r) does to the stored lists. */
  function Store(steps: seq<Step>, backlinks: map<string, seq<Reference>>, l: nat, r: nat): map<string, seq<Reference>>
    requires l < |steps| && r < |steps|
  {
    var left, right := steps[l], steps[r];
    var leftList, rightList := ListFor(backlinks, left.id), ListFor(backlinks, right.id);
    backlinks[left.id := Pushed(leftList, right.link)][right.id := Pushed(rightList, left.link)]
  }

  ghost predicate StoredFor(steps: seq<Step>, log: seq<(nat, nat)>, backlinks: map<string, seq<Reference>>, i: nat)
    requires i < |steps|
  {
    && (forall j :: j in PartnersIn(log, i) ==> j < |steps|)
    && ListFor(backlinks, steps[i].id) == PushAll(Links(steps, PartnersIn(log, i)))
  }

  /** Every step's list is what pushing its linked partners one by one gives; no other id has a list. */
  ghost predicate Stored(steps: seq<Step>, log: seq<(nat, nat)>, backlinks: map<string, seq<Reference>>) {
    && (forall p :: p in log ==> p.0 < p.1 < |steps|)
    && (forall i: nat :: i < |steps| ==> StoredFor(steps, log, backlinks, i))
    && (forall id :: id in backlinks ==> exists i: nat :: i < |steps| && steps[i].id == id)
  }

  lemma PartnerAppended(steps: seq<Step>, log: seq<(nat, nat)>, pair: (nat, nat), i: nat, other: nat)
    requires pair == (i, other) || (pair == (other, i) && i != other)
    requires forall j :: j in PartnersIn(log, i) ==> j < |steps|
    requires other < |steps|
    ensures forall j :: j in PartnersIn(log + [pair], i) ==> j < |steps|
    ensures PushAll(Links(steps, PartnersIn(log + [pair], i)))
            == Pushed(PushAll(Links(steps, PartnersIn(log, i))), steps[other].link)
  {
    assert (log + [pair])[..|log|] == log;
    var js := PartnersIn(log, i);
    assert PartnersIn(log + [pair], i) == js + [other];
    var refs := Links(steps, js + [other]);
    assert refs[..|refs| - 1] == Links(steps, js);
    assert refs[|refs| - 1] == steps[other].link;
  }

  lemma StoreLists(steps: seq<Step>, backlinks: map<string, seq<Reference>>, l: nat, r: nat, i: nat)
    requires DistinctIds(steps) && l < r < |steps| && i < |steps|
    ensures ListFor(Store(steps, backlinks, l, r), steps[i].id) ==
            var list := ListFor(backlinks, steps[i].id);
            if i == l then Pushed(list, steps[r].link)
            else if i == r then Pushed(list, steps[l].link)
            else list
  {
    assert steps[l].id != steps[r].id;
    if i != l { assert steps[i].id != steps[l].id; }
    if i != r { assert steps[i].id != steps[r].id; }
  }

  lemma StoreKeepsFor(steps: seq<Step>, log: seq<(nat, nat)>, backlinks: map<string, seq<Reference>>,
                      l: nat, r: nat, i: nat)
    requires DistinctIds(steps) && l < r < |steps| && i < |steps| && StoredFor(steps, log, backlinks, i)
    ensures StoredFor(steps, log + [(l, r)], Store(steps, backlinks, l, r), i)
  {
    StoreLists(steps, backlinks, l, r, i);
    if i == l {
      PartnerAppended(steps, log, (l, r), i, r);
    } else if i == r {
      PartnerAppended(steps, log, (l, r), i, l);
    } else {
      assert (log + [(l, r)])[..|log|] == log;
    }
  }

  lemma StoreKeeps(steps: seq<Step>, log: seq<(nat, nat)>, backlinks: map<string, seq<Reference>>, l: nat, r: nat)
    requires DistinctIds(steps) && Stored(steps, log, backlinks) && l < r < |steps|
    ensures Stored(steps, log + [(l, r)], Store(steps, backlinks, l, r))
  {
    forall i: nat | i < |steps| ensures StoredFor(steps, log + [(l, r)], Store(steps, backlinks, l, r), i) {
      assert StoredFor(steps, log, backlinks, i);
      StoreKeepsFor(steps, log, backlinks, l, r, i);
    }
  }

  /** The candidates with an index above `left` that score high enough, in candidate order. */
  ghost function LinkedBy(steps: seq<Step>, left: nat, candidates: seq<string>, idToIndex: map<string, nat>)
    : seq<(nat, nat)>
    requires left < |steps|
  {
    if candidates == [] then []
    else
      var n := |candidates| - 1;
      var before := LinkedBy(steps, left, candidates[..n], idToIndex);
      if candidates[n] in idToIndex && Qualifies(steps, left, idToIndex[candidates[n]])
      then before + [(left, idToIndex[candidates[n]])]
      else before
  }

  ghost predicate IndexIsExact(steps: seq<Step>, idToIndex: map<string, nat>) {
    && (forall id :: id in idToIndex ==> idToIndex[id] < |steps| && steps[idToIndex[id]].id == id)
    && (forall i :: 0 <= i < |steps| ==> steps[i].id in idToIndex && idToIndex[steps[i].id] == i)
  }

  lemma {:induction false} LinkedByMembers(steps: seq<Step>, left: nat, candidates: seq<string>,
                                           idToIndex: map<string, nat>)
    requires left < |steps| && IndexIsExact(steps, idToIndex)
    ensures forall i: nat, j: nat :: (i, j) in LinkedBy(steps, left, candidates, idToIndex) <==>
              i == left && Qualifies(steps, left, j) && steps[j].id in candidates
  {
    if candidates != [] {
      var n := |candidates| - 1;
      LinkedByMembers(steps, left, candidates[..n], idToIndex);
      assert candidates == candidates[..n] + [candidates[n]];
    }
  }

  lemma {:induction false} LinkedByDistinct(steps: seq<Step>, left: nat, candidates: seq<string>,
                                            idToIndex: map<string, nat>)
    requires left < |steps| && IndexIsExact(steps, idToIndex) && Distinct(candidates)
    ensures Distinct(LinkedBy(steps, left, candidates, idToIndex))
  {
    if candidates != [] {
      var n := |candidates| - 1;
      LinkedByDistinct(steps, left, candidates[..n], idToIndex);
      LinkedByMembers(steps, left, candidates[..n], idToIndex);
      assert candidates[n] !in candidates[..n];
    }
  }

  /** The candidate loop of one left step. */
  method LinkStep(steps: seq<Step>, left: nat, candidates: seq<string>, idToIndex: map<string, nat>,
                  backlinks: map<string, seq<Reference>>, ghost log: seq<(nat, nat)>)
    returns (backlinks': map<string, seq<Reference>>)
    requires DistinctIds(steps) && left < |steps| && IndexIsExact(steps, idToIndex)
    requires Stored(steps, log, backlinks)
    ensures Stored(steps, log + LinkedBy(steps, left, candidates, idToIndex), backlinks')
  {
    backlinks' := backlinks;
    var n := 0;
    assert log + LinkedBy(steps, left, candidates[..0], idToIndex) == log;
    while n < |candidates|
      invariant 0 <= n <= |candidates|
      invariant Stored(steps, log + LinkedBy(steps, left, candidates[..n], idToIndex), backlinks')
    {
      var rightId := candidates[n];
      assert candidates[..n + 1][..n] == candidates[..n];
      if rightId in idToIndex && idToIndex[rightId] > left {
        var right := idToIndex[rightId];
        if Score(steps[left], steps[right]) >= MIN_SCORE {
          StoreKeeps(steps, log + LinkedBy(steps, left, candidates[..n], idToIndex), backlinks', left, right);
          assert (log + LinkedBy(steps, left, candidates[..n], idToIndex)) + [(left, right)]
              == log + LinkedBy(steps, left, candidates[..n + 1], idToIndex);
          backlinks' := Store(steps, backlinks', left, right);
        }
      }
      n := n + 1;
    }
    assert candidates[..n] == candidates;
  }

  /** All qualifying pairs whose left step is below `left`, and nothing else. */
  ghost predicate LogsPairsBelow(steps: seq<Step>, log: seq<(nat, nat)>, left: nat) {
    && Distinct(log)
    && (forall i: nat, j: nat :: (i, j) in log <==> i < left && Qualifies(steps, i, j))
    && (forall a, b :: 0 <= a < b < |log| ==> log[a].0 <= log[b].0)
  }

  lemma NoneIsMissed(steps: seq<Step>, left: nat, byWord: map<string, seq<string>>, byLabel: map<string, seq<string>>,
                     candidates: seq<string>)
    requires DistinctIds(steps) && left < |steps| && IndexesHold(steps, |steps|, byWord, byLabel)
    requires forall id :: id != steps[left].id && (id in Bucket(byLabel, steps[left].labelKey)
                                                   || exists w :: w in steps[left].words && id in Bucket(byWord, w))
                          ==> id in candidates
    ensures forall j: nat :: Qualifies(steps, left, j) ==> steps[j].id in candidates
  {
    forall j: nat | Qualifies(steps, left, j) ensures steps[j].id in candidates {
      QualifyingPairsAreCandidates(steps[left], steps[j]);
    }
  }

  lemma LogsOneMore(steps: seq<Step>, left: nat, candidates: seq<string>, idToIndex: map<string, nat>,
                    log: seq<(nat, nat)>)
    requires left < |steps| && IndexIsExact(steps, idToIndex) && Distinct(candidates)
    requires forall j: nat :: Qualifies(steps, left, j) ==> steps[j].id in candidates
    requires LogsPairsBelow(steps, log, left)
    ensures LogsPairsBelow(steps, log + LinkedBy(steps, left, candidates, idToIndex), left + 1)
  {
    LinkedByMembers(steps, left, candidates, idToIndex);
    LinkedByDistinct(steps, left, candidates, idToIndex);
  }

  /** The search of `buildBacklinks`. The log lists the linked pairs. */
  method BuildBacklinks(allSteps: seq<Step>)
    returns (backlinks: map<string, seq<Reference>>, ghost log: seq<(nat, nat)>)
    requires DistinctIds(Pairwise(allSteps))
    ensures LogsAllPairs(Pairwise(allSteps), log)
    ensures Stored(Pairwise(allSteps), log, backlinks)
    ensures DistinctLinks(Pairwise(allSteps)) ==>
              forall i: nat :: i < |Pairwise(allSteps)| ==>
                FilledFromPartners(Pairwise(allSteps), ListFor(backlinks, Pairwise(allSteps)[i].id), i)
    ensures WordsAreSets(allSteps) ==>
              forall i: nat, j: nat :: (i, j) in log <==>
                i < j < |allSteps| && j < 500 && Similar(allSteps[i], allSteps[j])
    ensures WordsAreSets(allSteps) && DistinctLinks(Pairwise(allSteps)) ==>
              LinksSimilar(if |allSteps| <= 500 then allSteps else allSteps[..500], backlinks)
  {
    var steps := Pairwise(allSteps);
    var byWord, byLabel := IndexSteps(steps);
    var idToIndex := IndexIds(steps);
    backlinks, log := map[], [];
    var left := 0;
    while left < |steps|
      invariant 0 <= left <= |steps|
      invariant Stored(steps, log, backlinks)
      invariant LogsPairsBelow(steps, log, left)
    {
      var candidates := Candidates(steps[left], byWord, byLabel);
      NoneIsMissed(steps, left, byWord, byLabel, candidates);
      LogsOneMore(steps, left, candidates, idToIndex, log);
      backlinks := LinkStep(steps, left, candidates, idToIndex, backlinks, log);
      log := log + LinkedBy(steps, left, candidates, idToIndex);
      left := left + 1;
    }
    assert LogsAllPairs(steps, log);
    if DistinctLinks(steps) {
      forall i: nat | i < |steps| ensures FilledFromPartners(steps, ListFor(backlinks, steps[i].id), i) {
        assert StoredFor(steps, log, backlinks, i);
        BacklinkCount(steps, log, i);
      }
    }
    if WordsAreSets(allSteps) {
      QualifyingAreSimilar(allSteps);
      if DistinctLinks(steps) {
        forall i: nat | i < |steps| ensures FilledFromSimilar(steps, ListFor(backlinks, steps[i].id), i) {
          FilledMeansSimilar(steps, ListFor(backlinks, steps[i].id), i);
        }
      }
    }
  }

  lemma QualifyingAreSimilar(allSteps: seq<Step>)
    requires WordsAreSets(allSteps)
    ensures forall i: nat, j: nat :: Qualifies(Pairwise(allSteps), i, j) <==>
              i < j < |allSteps| && j < 500 && Similar(allSteps[i], allSteps[j])
  {
    forall i: nat, j: nat | i < j < |allSteps| ensures Score(allSteps[i], allSteps[j]) >= MIN_SCORE
                                                 <==> Similar(allSteps[i], allSteps[j])
    {
      ScoreMeansSimilar(allSteps[i], allSteps[j]);
    }
  }
}
