/** The in-memory Living Architecture Graph: node and edge arrays, and the two indexes kept beside them. */
module ArchitectureGraph {
  import opened StableIds
  import opened Text
  import opened Wrappers
  import Backlinks

  /** Where a node comes from; each part is kept when an update does not give it. */
  datatype Origin = Origin(
    repoId: Option<string>, repoPath: Option<string>, sourcePath: Option<string>,
    startLine: Option<int>, endLine: Option<int>)

  datatype NodeInput = NodeInput(
    id: string, kind: string, title: string, description: string, tags: set<string>,
    origin: Origin, links: seq<Backlinks.Reference>, metadata: map<string, string>)

  /** Stored tags are trimmed, not empty and sorted, so they are a set. */
  datatype NodeValue = NodeValue(
    id: string, kind: string, title: string, description: string, version: nat, tags: set<string>,
    origin: Origin, links: seq<Backlinks.Reference>, metadata: map<string, string>)

  datatype EdgeInput = EdgeInput(from: string, to: string, relation: string, rationale: string)
  datatype Edge = Edge(id: string, ends: EdgeInput)

  // ----- The arrays alone, searched by linear scan ----------------------------------------------

  datatype GraphValue = GraphValue(nodes: seq<NodeValue>, edges: seq<Edge>)

  function Or<T>(given: Option<T>, kept: Option<T>): Option<T> {
    if given.Some? then given else kept
  }

  function Overlaid(given: Origin, kept: Origin): Origin {
    Origin(Or(given.repoId, kept.repoId), Or(given.repoPath, kept.repoPath), Or(given.sourcePath, kept.sourcePath),
           Or(given.startLine, kept.startLine), Or(given.endLine, kept.endLine))
  }

  function UniqueStrings(tags: set<string>): set<string> {
    set t | t in tags && Trim(t) != "" :: Trim(t)
  }

  function Merged(v: NodeValue, input: NodeInput): NodeValue {
    NodeValue(v.id, input.kind, input.title, input.description, v.version + 1, UniqueStrings(v.tags + input.tags),
              Overlaid(input.origin, v.origin), Backlinks.Dedupe(v.links + input.links), v.metadata + input.metadata)
  }

  function Fresh(input: NodeInput): NodeValue {
    NodeValue(input.id, input.kind, input.title, input.description, 1, UniqueStrings(input.tags), input.origin,
              Backlinks.Dedupe(input.links), input.metadata)
  }

  function KeyOf(e: EdgeInput): string {
    EdgeKey(e.from, e.to, e.relation, e.rationale)
  }

  /** Index of the first node with the id, or -1. */
  function FindNode(nodes: seq<NodeValue>, id: string): (i: int)
    ensures -1 <= i < |nodes|
    ensures i >= 0 ==> nodes[i].id == id
    ensures forall j :: 0 <= j < (if i < 0 then |nodes| else i) ==> nodes[j].id != id
  {
    if nodes == [] then -1
    else if nodes[0].id == id then 0
    else
      var i := FindNode(nodes[1..], id);
      if i < 0 then -1 else i + 1
  }

  function FindEdge(edges: seq<Edge>, key: string): (i: int)
    ensures -1 <= i < |edges|
    ensures i >= 0 ==> KeyOf(edges[i].ends) == key
    ensures forall j :: 0 <= j < (if i < 0 then |edges| else i) ==> KeyOf(edges[j].ends) != key
  {
    if edges == [] then -1
    else if KeyOf(edges[0].ends) == key then 0
    else
      var i := FindEdge(edges[1..], key);
      if i < 0 then -1 else i + 1
  }

  function Upsert(g: GraphValue, input: NodeInput): GraphValue {
    var i := FindNode(g.nodes, input.id);
    if i >= 0 then g.(nodes := g.nodes[i := Merged(g.nodes[i], input)])
    else g.(nodes := g.nodes + [Fresh(input)])
  }

  function NewEdge(input: EdgeInput, position: nat): Edge {
    Edge(StableId([input.from, input.relation, input.to, Decimal(position + 1)]), input)
  }

  function Link(g: GraphValue, input: EdgeInput): GraphValue {
    if FindEdge(g.edges, KeyOf(input)) >= 0 then g
    else g.(edges := g.edges + [NewEdge(input, |g.edges|)])
  }

  ghost predicate UniqueIds(nodes: seq<NodeValue>) {
    forall i, j :: 0 <= i < j < |nodes| ==> nodes[i].id != nodes[j].id
  }

  ghost predicate UniqueKeys(edges: seq<Edge>) {
    forall i, j :: 0 <= i < j < |edges| ==> KeyOf(edges[i].ends) != KeyOf(edges[j].ends)
  }

  // ----- The objects ------------------------------------------------------------------------------

  class Node {
    const id: string
    var kind: string
    var title: string
    var description: string
    var version: nat
    var tags: set<string>
    var origin: Origin
    var links: seq<Backlinks.Reference>
    var metadata: map<string, string>

    constructor (input: NodeInput)
      ensures Value() == Fresh(input)
    {
      id, kind, title, description, version := input.id, input.kind, input.title, input.description, 1;
      tags, origin, metadata := UniqueStrings(input.tags), input.origin, input.metadata;
      links := Backlinks.Dedupe(input.links);
    }

    function Value(): NodeValue
      reads this
    {
      NodeValue(id, kind, title, description, version, tags, origin, links, metadata)
    }

    method Merge(input: NodeInput)
      modifies this
      ensures Value() == Merged(old(Value()), input)
    {
      kind, title, description := input.kind, input.title, input.description;
      tags := UniqueStrings(tags + input.tags);
      version := version + 1;
      origin := Overlaid(input.origin, origin);
      links := Backlinks.Dedupe(links + input.links);
      metadata := metadata + input.metadata;
    }
  }

  function Values(nodes: seq<Node>): seq<NodeValue>
    reads nodes
  {
    seq(|nodes|, i requires 0 <= i < |nodes| reads nodes => nodes[i].Value())
  }

  // ----- Indexing a list ----------------------------------------------------------------------------

  /** What setting every value under its key in turn leaves. */
  function LastOf<V>(keys: seq<string>, values: seq<V>): map<string, V>
    requires |keys| == |values|
  {
    if keys == [] then map[] else LastOf(AllButLast(keys), AllButLast(values))[Last(keys) := Last(values)]
  }

  lemma LastOfMore<V>(keys: seq<string>, values: seq<V>, i: nat)
    requires i < |keys| == |values|
    ensures LastOf(keys[..i + 1], values[..i + 1]) == LastOf(keys[..i], values[..i])[keys[i] := values[i]]
  {
    assert AllButLast(keys[..i + 1]) == keys[..i] && AllButLast(values[..i + 1]) == values[..i];
  }

  lemma LastOfAll<V>(keys: seq<string>, values: seq<V>)
    requires |keys| == |values|
    ensures LastOf(keys[..|keys|], values[..|values|]) == LastOf(keys, values)
  {
    assert keys[..|keys|] == keys && values[..|values|] == values;
  }

  ghost predicate NotAfter(keys: seq<string>, j: nat)
    requires j < |keys|
  {
    forall i :: j < i < |keys| ==> keys[i] != keys[j]
  }

  /** The keys are those of the list, each with the last value that bears it. */
  lemma {:induction false} LastOfEach<V>(keys: seq<string>, values: seq<V>)
    requires |keys| == |values|
    ensures forall k :: k in LastOf(keys, values) <==> k in keys
    ensures forall j :: 0 <= j < |keys| && NotAfter(keys, j) ==> LastOf(keys, values)[keys[j]] == values[j]
    ensures forall k :: k in LastOf(keys, values) ==>
              exists j :: 0 <= j < |keys| && keys[j] == k && LastOf(keys, values)[k] == values[j]
  {
    if keys != [] {
      var n := |keys| - 1;
      var before := LastOf(keys[..n], values[..n]);
      LastOfEach(keys[..n], values[..n]);
      assert keys == keys[..n] + [keys[n]];
      forall j | 0 <= j < n && NotAfter(keys, j) ensures LastOf(keys, values)[keys[j]] == values[j] {
        assert NotAfter(keys[..n], j);
      }
      forall k | k in LastOf(keys, values)
        ensures exists j :: 0 <= j < |keys| && keys[j] == k && LastOf(keys, values)[k] == values[j]
      {
        if k != keys[n] {
          var j :| 0 <= j < n && keys[..n][j] == k && before[k] == values[..n][j];
          assert keys[j] == k;
        }
      }
    }
  }

  function NodeIds(nodes: seq<Node>): seq<string> {
    seq(|nodes|, i requires 0 <= i < |nodes| => nodes[i].id)
  }

  function EdgeKeys(edges: seq<Edge>): seq<string> {
    seq(|edges|, i requires 0 <= i < |edges| => KeyOf(edges[i].ends))
  }

  class Graph {
    var nodes: seq<Node>
    var edges: seq<Edge>
    // The indexes exist once `ensureGraphIndexes` has seen this graph.
    var indexed: bool
    var nodesById: map<string, Node>
    var edgeKeyToEdge: map<string, Edge>

    ghost predicate NodesIndexed()
      reads this
    {
      && (forall n :: n in nodes ==> n.id in nodesById && nodesById[n.id] == n)
      && (forall id :: id in nodesById ==> nodesById[id] in nodes && nodesById[id].id == id)
    }

    ghost predicate EdgesIndexed()
      reads this
    {
      && (forall e :: e in edges ==> KeyOf(e.ends) in edgeKeyToEdge && edgeKeyToEdge[KeyOf(e.ends)] == e)
      && (forall k :: k in edgeKeyToEdge ==> edgeKeyToEdge[k] in edges && KeyOf(edgeKeyToEdge[k].ends) == k)
    }

    ghost predicate Coherent()
      reads this
    {
      && (forall i, j :: 0 <= i < j < |nodes| ==> nodes[i].id != nodes[j].id)
      && UniqueKeys(edges)
      && (indexed ==> NodesIndexed() && EdgesIndexed())
    }

    function State(): GraphValue
      reads this, nodes
    {
      GraphValue(Values(nodes), edges)
    }

    constructor ()
      ensures Coherent() && State() == GraphValue([], [])
    {
      nodes, edges, indexed, nodesById, edgeKeyToEdge := [], [], false, map[], map[];
    }

    method IndexNodes()
      modifies this`nodesById
      ensures nodesById == LastOf(NodeIds(nodes), nodes)
    {
      nodesById := map[];
      for i := 0 to |nodes|
        invariant nodesById == LastOf(NodeIds(nodes)[..i], nodes[..i])
      {
        LastOfMore(NodeIds(nodes), nodes, i);
        nodesById := nodesById[nodes[i].id := nodes[i]];
      }
      LastOfAll(NodeIds(nodes), nodes);
    }

    method IndexEdges()
      modifies this`edgeKeyToEdge
      ensures edgeKeyToEdge == LastOf(EdgeKeys(edges), edges)
    {
      edgeKeyToEdge := map[];
      for i := 0 to |edges|
        invariant edgeKeyToEdge == LastOf(EdgeKeys(edges)[..i], edges[..i])
      {
        LastOfMore(EdgeKeys(edges), edges, i);
        edgeKeyToEdge := edgeKeyToEdge[KeyOf(edges[i].ends) := edges[i]];
      }
      LastOfAll(EdgeKeys(edges), edges);
    }

    /** Of several nodes with one id, or edges with one key, the last is indexed; without any the indexes are
        coherent with the arrays. */
    method RebuildIndexes()
      modifies this`indexed, this`nodesById, this`edgeKeyToEdge
      ensures indexed && nodesById == LastOf(NodeIds(nodes), nodes) && edgeKeyToEdge == LastOf(EdgeKeys(edges), edges)
      ensures old(Coherent()) ==> Coherent()
    {
      IndexNodes();
      IndexEdges();
      indexed := true;
      RebuiltIsCoherent();
    }

    method EnsureGraphIndexes()
      requires Coherent()
      modifies this`indexed, this`nodesById, this`edgeKeyToEdge
      ensures Coherent() && indexed && State() == old(State())
    {
      if !indexed {
        RebuildIndexes();
      }
    }

    lemma RebuiltIsCoherent()
      requires nodesById == LastOf(NodeIds(nodes), nodes) && edgeKeyToEdge == LastOf(EdgeKeys(edges), edges)
      ensures (forall i, j :: 0 <= i < j < |nodes| ==> nodes[i].id != nodes[j].id) && UniqueKeys(edges) ==> Coherent()
    {
      if (forall i, j :: 0 <= i < j < |nodes| ==> nodes[i].id != nodes[j].id) && UniqueKeys(edges) {
        NodesAreIndexed();
        EdgesAreIndexed();
      }
    }

    lemma NodesAreIndexed()
      requires nodesById == LastOf(NodeIds(nodes), nodes)
      requires forall i, j :: 0 <= i < j < |nodes| ==> nodes[i].id != nodes[j].id
      ensures NodesIndexed()
    {
      LastOfEach(NodeIds(nodes), nodes);
    }

    lemma EdgesAreIndexed()
      requires edgeKeyToEdge == LastOf(EdgeKeys(edges), edges) && UniqueKeys(edges)
      ensures EdgesIndexed()
    {
      LastOfEach(EdgeKeys(edges), edges);
    }

    /** The index and a scan of the array find the same node. */
    lemma IndexAgreesWithScan(id: string)
      requires Coherent() && indexed
      ensures id in nodesById <==> FindNode(Values(nodes), id) >= 0
      ensures id in nodesById ==> nodesById[id] == nodes[FindNode(Values(nodes), id)]
    {
      var i := FindNode(Values(nodes), id);
      if i >= 0 {
        assert nodes[i] in nodes;
      }
      if id in nodesById {
        var j :| 0 <= j < |nodes| && nodes[j] == nodesById[id];
        assert Values(nodes)[j].id == id;
      }
    }

    lemma EdgeIndexAgreesWithScan(key: string)
      requires Coherent() && indexed
      ensures key in edgeKeyToEdge <==> FindEdge(edges, key) >= 0
      ensures key in edgeKeyToEdge ==> edgeKeyToEdge[key] == edges[FindEdge(edges, key)]
    {
      var i := FindEdge(edges, key);
      if i >= 0 {
        assert edges[i] in edges;
      }
      if key in edgeKeyToEdge {
        var j :| 0 <= j < |edges| && edges[j] == edgeKeyToEdge[key];
        assert KeyOf(edges[j].ends) == key;
      }
    }

    method PushNode(input: NodeInput) returns (node: Node)
      requires Coherent() && indexed && input.id !in nodesById
      modifies this`nodes, this`nodesById
      ensures Coherent() && indexed
      ensures fresh(node) && node.id == input.id && nodes == old(nodes) + [node]
      ensures Values(nodes) == old(Values(nodes)) + [Fresh(input)]
    {
      node := new Node(input);
      assert node.id == input.id;
      forall n | n in nodes ensures n.id != input.id { assert n.id in nodesById; }
      nodes := nodes + [node];
      nodesById := nodesById[node.id := node];
    }

    method MergeNode(input: NodeInput) returns (node: Node)
      requires Coherent() && indexed && input.id in nodesById
      modifies nodes
      ensures Coherent() && node in nodes && node.id == input.id
      ensures State() == Upsert(old(State()), input)
    {
      IndexAgreesWithScan(input.id);
      ghost var before := Values(nodes);
      ghost var i := FindNode(before, input.id);
      node := nodesById[input.id];
      node.Merge(input);
      assert Values(nodes) == before[i := Merged(before[i], input)];
    }

    method UpsertIndexedNode(input: NodeInput) returns (node: Node)
      requires Coherent() && indexed
      modifies this`nodes, this`nodesById, nodes
      ensures Coherent() && State() == Upsert(old(State()), input)
      ensures node in nodes && node.id == input.id
      ensures old(nodes) <= nodes && (node in old(nodes) || fresh(node))
    {
      if input.id in nodesById {
        node := MergeNode(input);
      } else {
        IndexAgreesWithScan(input.id);
        node := PushNode(input);
      }
    }

    method UpsertNode(input: NodeInput) returns (node: Node)
      requires Coherent()
      modifies this, nodes
      ensures Coherent() && State() == Upsert(old(State()), input)
      ensures node in nodes && node.id == input.id
      ensures old(nodes) <= nodes && (node in old(nodes) || fresh(node))
    {
      EnsureGraphIndexes();
      node := UpsertIndexedNode(input);
    }

    method PushEdge(input: EdgeInput) returns (edge: Edge)
      requires Coherent() && indexed && KeyOf(input) !in edgeKeyToEdge
      modifies this`edges, this`edgeKeyToEdge
      ensures Coherent()
      ensures edge == NewEdge(input, |old(edges)|) && edges == old(edges) + [edge]
    {
      edge := NewEdge(input, |edges|);
      forall e | e in edges ensures KeyOf(e.ends) != KeyOf(input) { assert KeyOf(e.ends) in edgeKeyToEdge; }
      edges := edges + [edge];
      edgeKeyToEdge := edgeKeyToEdge[KeyOf(input) := edge];
    }

    method AddIndexedEdge(input: EdgeInput) returns (edge: Edge)
      requires Coherent() && indexed
      modifies this`edges, this`edgeKeyToEdge
      ensures Coherent()
      ensures GraphValue([], edges) == Link(GraphValue([], old(edges)), input)
      ensures edge in edges && KeyOf(edge.ends) == KeyOf(input)
    {
      var k := KeyOf(input);
      EdgeIndexAgreesWithScan(k);
      if k in edgeKeyToEdge {
        edge := edgeKeyToEdge[k];
      } else {
        edge := PushEdge(input);
      }
    }

    method AddEdge(input: EdgeInput) returns (edge: Edge)
      requires Coherent()
      modifies this
      ensures Coherent() && State() == Link(old(State()), input)
      ensures nodes == old(nodes) && edge in edges && KeyOf(edge.ends) == KeyOf(input)
    {
      EnsureGraphIndexes();
      edge := AddIndexedEdge(input);
    }
  }

  // ----- Any sequence of operations -----------------------------------------------------------------

  datatype Op = UpsertOp(node: NodeInput) | LinkOp(edge: EdgeInput)

  function Apply(g: GraphValue, op: Op): GraphValue {
    match op
    case UpsertOp(input) => Upsert(g, input)
    case LinkOp(input) => Link(g, input)
  }

  function Run(g: GraphValue, ops: seq<Op>): GraphValue {
    if ops == [] then g else Apply(Run(g, ops[..|ops| - 1]), ops[|ops| - 1])
  }

  function UpsertCount(ops: seq<Op>, id: string): nat {
    if ops == [] then 0
    else
      var n := |ops| - 1;
      UpsertCount(ops[..n], id) + (if ops[n].UpsertOp? && ops[n].node.id == id then 1 else 0)
  }

  function VersionOf(g: GraphValue, id: string): nat {
    var i := FindNode(g.nodes, id);
    if i < 0 then 0 else g.nodes[i].version
  }

  /** Node ids stay unique, and no two edges share a key. */
  lemma {:induction false} StaysUnique(g: GraphValue, ops: seq<Op>)
    requires UniqueIds(g.nodes) && UniqueKeys(g.edges)
    ensures UniqueIds(Run(g, ops).nodes) && UniqueKeys(Run(g, ops).edges)
  {
    if ops != [] {
      StaysUnique(g, ops[..|ops| - 1]);
    }
  }

  lemma FindNodeUnique(nodes: seq<NodeValue>, i: nat)
    requires UniqueIds(nodes) && i < |nodes|
    ensures FindNode(nodes, nodes[i].id) == i
  {
  }

  lemma UpsertMovesOneVersion(g: GraphValue, input: NodeInput, id: string)
    requires UniqueIds(g.nodes)
    ensures VersionOf(Upsert(g, input), id) == VersionOf(g, id) + (if input.id == id then 1 else 0)
  {
    var g' := Upsert(g, input);
    var i, j := FindNode(g.nodes, id), FindNode(g'.nodes, id);
    assert UniqueIds(g'.nodes);
    if i >= 0 {
      FindNodeUnique(g'.nodes, i);
    } else if input.id == id {
      FindNodeUnique(g'.nodes, |g.nodes|);
    }
  }

  /** A node's version counts the upserts of its id: one for the first, one for each later one. */
  lemma {:induction false} VersionCountsUpserts(g: GraphValue, ops: seq<Op>, id: string)
    requires UniqueIds(g.nodes) && UniqueKeys(g.edges)
    ensures VersionOf(Run(g, ops), id) == VersionOf(g, id) + UpsertCount(ops, id)
  {
    if ops != [] {
      var init, op := ops[..|ops| - 1], ops[|ops| - 1];
      StaysUnique(g, init);
      VersionCountsUpserts(g, init, id);
      if op.UpsertOp? {
        UpsertMovesOneVersion(Run(g, init), op.node, id);
      }
    }
  }

  /** The id is made of the ends and the place in the list, counted from 1. */
  ghost predicate HasPlace(e: Edge, k: nat) {
    e.id == StableId([e.ends.from, e.ends.relation, e.ends.to, Decimal(k + 1)])
  }

  /** `later` continues `edges`, each added edge with the id of its position. */
  ghost predicate Appended(edges: seq<Edge>, later: seq<Edge>) {
    && edges <= later
    && forall k :: |edges| <= k < |later| ==> HasPlace(later[k], k)
  }

  lemma LinkAppends(edges: seq<Edge>, g: GraphValue, input: EdgeInput)
    requires Appended(edges, g.edges)
    ensures Appended(edges, Link(g, input).edges)
  {
    NewEdgeHasPlace(input, |g.edges|);
    AppendedMore(edges, g.edges, NewEdge(input, |g.edges|));
  }

  lemma AppendedMore(edges: seq<Edge>, later: seq<Edge>, e: Edge)
    requires Appended(edges, later) && HasPlace(e, |later|)
    ensures Appended(edges, later + [e])
  {
    PlacesGoOn((x: Edge, k: nat) => HasPlace(x, k), |edges|, later, e);
  }

  lemma PlacesGoOn(place: (Edge, nat) -> bool, from: nat, later: seq<Edge>, e: Edge)
    requires forall k :: from <= k < |later| ==> place(later[k], k)
    requires place(e, |later|)
    ensures forall k :: from <= k < |later + [e]| ==> place((later + [e])[k], k)
  {
  }

  lemma NewEdgeHasPlace(input: EdgeInput, k: nat)
    ensures HasPlace(NewEdge(input, k), k)
  {
  }

  /** Edges are only ever appended, each with the id of its position. */
  lemma {:induction false} EdgesOnlyGrow(g: GraphValue, ops: seq<Op>)
    ensures Appended(g.edges, Run(g, ops).edges)
  {
    if ops != [] {
      var before, op := Run(g, ops[..|ops| - 1]), ops[|ops| - 1];
      EdgesOnlyGrow(g, ops[..|ops| - 1]);
      if op.LinkOp? {
        LinkAppends(g.edges, before, op.edge);
      }
    }
  }

  /** Ids of edges made by `addEdge` differ, however alike their ends are. */
  lemma AddedEdgeIdsDiffer(g: GraphValue, ops: seq<Op>, j: nat, k: nat)
    requires |g.edges| <= j < k < |Run(g, ops).edges|
    ensures Run(g, ops).edges[j].id != Run(g, ops).edges[k].id
  {
    EdgesOnlyGrow(g, ops);
    var a, b := Run(g, ops).edges[j].ends, Run(g, ops).edges[k].ends;
    StableIdEndsInNumber([a.from, a.relation, a.to, Decimal(j + 1)], j + 1);
    StableIdEndsInNumber([b.from, b.relation, b.to, Decimal(k + 1)], k + 1);
    if Decimal(j + 1) == Decimal(k + 1) {
      DecimalInjective(j + 1, k + 1);
    }
  }

  ghost predicate OnlyLinked(edges: seq<Edge>, ops: seq<Op>) {
    forall e :: e in edges ==> IsLinked(ops, e.ends)
  }

  ghost predicate IsLinked(ops: seq<Op>, ends: EdgeInput) {
    LinkOp(ends) in ops
  }

  ghost predicate AllLinked(edges: seq<Edge>, ops: seq<Op>) {
    forall ends :: IsLinked(ops, ends) ==> HasEnds(edges, ends)
  }

  ghost predicate HasEnds(edges: seq<Edge>, ends: EdgeInput) {
    exists i :: 0 <= i < |edges| && edges[i].ends == ends
  }

  /** No two different inputs have one key. */
  ghost predicate KeysApart(ops: seq<Op>) {
    forall x, y :: IsLinked(ops, x) && IsLinked(ops, y) && KeyOf(x) == KeyOf(y) ==> x == y
  }

  /** A link adds its input unless an edge of that key is there. */
  lemma LinkAddsIfNew(edges: seq<Edge>, nodes: seq<NodeValue>, input: EdgeInput)
    ensures var after := Link(GraphValue(nodes, edges), input).edges;
            && (HasEnds(after, input) || exists e :: e in edges && KeyOf(e.ends) == KeyOf(input) && e.ends != input)
            && (forall ends :: HasEnds(edges, ends) ==> HasEnds(after, ends))
            && (forall e :: e in after ==> e in edges || e.ends == input)
  {
    var i := FindEdge(edges, KeyOf(input));
    if i >= 0 {
      assert edges[i] in edges;
    } else {
      var after := edges + [NewEdge(input, |edges|)];
      assert after[|edges|].ends == input;
      forall ends | HasEnds(edges, ends) ensures HasEnds(after, ends) {
        var k :| 0 <= k < |edges| && edges[k].ends == ends;
        assert after[k].ends == ends;
      }
    }
  }

  lemma LinkedLonger(ops: seq<Op>)
    requires ops != []
    ensures forall ends :: IsLinked(ops[..|ops| - 1], ends) ==> IsLinked(ops, ends)
    ensures ops[|ops| - 1].LinkOp? ==>
              forall ends :: IsLinked(ops, ends) ==> IsLinked(ops[..|ops| - 1], ends) || ends == ops[|ops| - 1].edge
    ensures ops[|ops| - 1].UpsertOp? ==> forall ends :: IsLinked(ops, ends) ==> IsLinked(ops[..|ops| - 1], ends)
  {
    assert ops == ops[..|ops| - 1] + [ops[|ops| - 1]];
  }

  lemma {:induction false} EdgesAreLinked(ops: seq<Op>)
    ensures OnlyLinked(Run(GraphValue([], []), ops).edges, ops)
  {
    if ops != [] {
      EdgesAreLinked(ops[..|ops| - 1]);
      LinkedLonger(ops);
      var before, op := Run(GraphValue([], []), ops[..|ops| - 1]), ops[|ops| - 1];
      if op.LinkOp? {
        LinkAddsIfNew(before.edges, before.nodes, op.edge);
        assert IsLinked(ops, op.edge);
      }
    }
  }

  lemma {:induction false} LinkedAreEdges(ops: seq<Op>)
    requires KeysApart(ops)
    ensures AllLinked(Run(GraphValue([], []), ops).edges, ops)
  {
    if ops != [] {
      LinkedLonger(ops);
      LinkedAreEdges(ops[..|ops| - 1]);
      var before, op := Run(GraphValue([], []), ops[..|ops| - 1]), ops[|ops| - 1];
      if op.LinkOp? {
        EdgesAreLinked(ops[..|ops| - 1]);
        LinkAddsIfNew(before.edges, before.nodes, op.edge);
        assert IsLinked(ops, op.edge);
        forall e | e in before.edges ensures KeyOf(e.ends) == KeyOf(op.edge) ==> e.ends == op.edge {
          assert IsLinked(ops, e.ends);
        }
      }
    }
  }

  /** Started from the empty graph every edge is a linked one, none stands twice, and all linked ones are there
      exactly when no two different ones have one key. */
  lemma EdgesAreTheLinkedOnes(ops: seq<Op>)
    ensures var edges := Run(GraphValue([], []), ops).edges;
            && (forall i, j :: 0 <= i < j < |edges| ==> edges[i].ends != edges[j].ends)
            && OnlyLinked(edges, ops)
            && (AllLinked(edges, ops) <==> KeysApart(ops))
  {
    var edges := Run(GraphValue([], []), ops).edges;
    StaysUnique(GraphValue([], []), ops);
    EdgesAreLinked(ops);
    if KeysApart(ops) {
      LinkedAreEdges(ops);
    }
    if AllLinked(edges, ops) {
      forall x, y | IsLinked(ops, x) && IsLinked(ops, y) && KeyOf(x) == KeyOf(y) ensures x == y {
        assert HasEnds(edges, x) && HasEnds(edges, y);
      }
    }
  }

  /** Made by the service itself: ends of lower-case letters, digits and dashes, as `stableId` gives them, and a
      relation without NUL. */
  ghost predicate MadeHere(e: EdgeInput) {
    AllKept(e.from) && AllKept(e.to) && '\0' !in e.relation
  }

  /** So nothing the service makes is lost: only ids read back from a graph file can clash. */
  lemma MadeEdgesAreKeptApart(ops: seq<Op>)
    requires forall ends :: IsLinked(ops, ends) ==> MadeHere(ends)
    ensures KeysApart(ops)
  {
    forall x, y | IsLinked(ops, x) && IsLinked(ops, y) && KeyOf(x) == KeyOf(y) ensures x == y {
      EdgeKeyInjective(x.from, x.to, x.relation, x.rationale, y.from, y.to, y.relation, y.rationale);
    }
  }
}
