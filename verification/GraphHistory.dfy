/** What the Living Architecture Graph holds of a node after any operations, in terms of what it was given. */
module GraphHistory {
  import opened ArchitectureGraph
  import opened Text
  import opened Wrappers
  import Backlinks

  // ----- What a node owes to its inputs ----------------------------------------------------------------------------

  /** The last part that is given. */
  function LastGiven<T>(parts: seq<Option<T>>): Option<T> {
    if parts == [] then None
    else if Last(parts).Some? then Last(parts)
    else LastGiven(AllButLast(parts))
  }

  lemma {:induction false} LastGivenIsLast<T>(parts: seq<Option<T>>, i: nat)
    requires i < |parts| && parts[i].Some? && forall j :: i < j < |parts| ==> parts[j].None?
    ensures LastGiven(parts) == parts[i]
  {
    if i < |parts| - 1 {
      LastGivenIsLast(AllButLast(parts), i);
    }
  }

  /** One part of every input. */
  function Parts<T>(inputs: seq<NodeInput>, part: NodeInput -> Option<T>): seq<Option<T>> {
    seq(|inputs|, i requires 0 <= i < |inputs| => part(inputs[i]))
  }

  function Field(key: string): NodeInput -> Option<string> {
    (input: NodeInput) => if key in input.metadata then Some(input.metadata[key]) else None
  }

  function AllLinks(inputs: seq<NodeInput>): seq<Backlinks.Reference> {
    if inputs == [] then [] else AllLinks(AllButLast(inputs)) + Last(inputs).links
  }

  ghost predicate Tagged(inputs: seq<NodeInput>, tag: string) {
    exists i, raw :: 0 <= i < |inputs| && raw in inputs[i].tags && tag == Trim(raw) != ""
  }

  ghost predicate HasOrigin(o: Origin, inputs: seq<NodeInput>) {
    && o.repoId == LastGiven(Parts(inputs, RepoId()))
    && o.repoPath == LastGiven(Parts(inputs, RepoPath()))
    && o.sourcePath == LastGiven(Parts(inputs, SourcePath()))
    && o.startLine == LastGiven(Parts(inputs, StartLine()))
    && o.endLine == LastGiven(Parts(inputs, EndLine()))
  }

  function RepoId(): NodeInput -> Option<string> {
    (input: NodeInput) => input.origin.repoId
  }

  function RepoPath(): NodeInput -> Option<string> {
    (input: NodeInput) => input.origin.repoPath
  }

  function SourcePath(): NodeInput -> Option<string> {
    (input: NodeInput) => input.origin.sourcePath
  }

  function StartLine(): NodeInput -> Option<int> {
    (input: NodeInput) => input.origin.startLine
  }

  function EndLine(): NodeInput -> Option<int> {
    (input: NodeInput) => input.origin.endLine
  }

  ghost predicate HasFields(metadata: map<string, string>, inputs: seq<NodeInput>) {
    forall key :: (if key in metadata then Some(metadata[key]) else None) == LastGiven(Parts(inputs, Field(key)))
  }

  ghost predicate HasTags(tags: set<string>, inputs: seq<NodeInput>) {
    forall tag :: tag in tags <==> Tagged(inputs, tag)
  }

  /** Kind, title and description are the last input's; each part of the origin and each entry of the metadata is that
      of the last input that gives one; the tags are the trimmed, non-empty ones of all inputs; the links are the
      first ones of each key over all inputs. */
  ghost predicate IsMadeOf(v: NodeValue, inputs: seq<NodeInput>) {
    && inputs != []
    && v.kind == Last(inputs).kind && v.title == Last(inputs).title && v.description == Last(inputs).description
    && HasOrigin(v.origin, inputs) && HasFields(v.metadata, inputs) && HasTags(v.tags, inputs)
    && v.links == Backlinks.FirstsOfKeys(AllLinks(inputs), |AllLinks(inputs)|)
  }

  /** The same of a node whose tags and links may still have to be cleaned, as those of a loaded one. */
  ghost predicate HoldsParts(v: NodeValue, inputs: seq<NodeInput>) {
    && HasOrigin(v.origin, inputs) && HasFields(v.metadata, inputs) && HasTags(UniqueStrings(v.tags), inputs)
    && Backlinks.Dedupe(v.links) == Backlinks.Dedupe(AllLinks(inputs))
  }

  lemma PartsOfOne<T>(input: NodeInput, part: NodeInput -> Option<T>)
    ensures LastGiven(Parts([input], part)) == part(input)
  {
    assert Parts([input], part) == [part(input)];
  }

  lemma PartsOfMore<T>(inputs: seq<NodeInput>, input: NodeInput, part: NodeInput -> Option<T>)
    ensures LastGiven(Parts(inputs + [input], part)) == Or(part(input), LastGiven(Parts(inputs, part)))
  {
    assert AllButLast(Parts(inputs + [input], part)) == Parts(inputs, part);
  }

  lemma LinksOfMore(inputs: seq<NodeInput>, input: NodeInput)
    ensures AllLinks(inputs + [input]) == AllLinks(inputs) + input.links
  {
    assert AllButLast(inputs + [input]) == inputs;
  }

  lemma TaggedMore(inputs: seq<NodeInput>, input: NodeInput, tag: string)
    ensures Tagged(inputs + [input], tag)
       <==> Tagged(inputs, tag) || exists raw :: raw in input.tags && tag == Trim(raw) != ""
  {
    if i, raw :| 0 <= i < |inputs| && raw in inputs[i].tags && tag == Trim(raw) != "" {
      assert (inputs + [input])[i] == inputs[i];
    }
    if raw :| raw in input.tags && tag == Trim(raw) != "" {
      assert (inputs + [input])[|inputs|] == input;
    }
  }

  lemma OriginOfMore(o: Origin, inputs: seq<NodeInput>, input: NodeInput)
    requires HasOrigin(o, inputs)
    ensures HasOrigin(Overlaid(input.origin, o), inputs + [input])
  {
    PartsOfMore(inputs, input, RepoId());
    PartsOfMore(inputs, input, RepoPath());
    PartsOfMore(inputs, input, SourcePath());
    PartsOfMore(inputs, input, StartLine());
    PartsOfMore(inputs, input, EndLine());
  }

  lemma FieldsOfMore(metadata: map<string, string>, inputs: seq<NodeInput>, input: NodeInput)
    requires HasFields(metadata, inputs)
    ensures HasFields(metadata + input.metadata, inputs + [input])
  {
    forall key ensures (if key in metadata + input.metadata then Some((metadata + input.metadata)[key]) else None)
                    == LastGiven(Parts(inputs + [input], Field(key)))
    {
      PartsOfMore(inputs, input, Field(key));
    }
  }

  lemma TagsOfMore(tags: set<string>, inputs: seq<NodeInput>, input: NodeInput)
    requires HasTags(UniqueStrings(tags), inputs)
    ensures HasTags(UniqueStrings(tags + input.tags), inputs + [input])
  {
    forall tag ensures tag in UniqueStrings(tags + input.tags) <==> Tagged(inputs + [input], tag) {
      TaggedMore(inputs, input, tag);
    }
  }

  lemma LinksOfDeduped(links: seq<Backlinks.Reference>, inputs: seq<NodeInput>, input: NodeInput)
    requires Backlinks.Dedupe(links) == Backlinks.Dedupe(AllLinks(inputs))
    ensures Backlinks.Dedupe(links + input.links) == Backlinks.Dedupe(AllLinks(inputs + [input]))
  {
    Backlinks.DedupeInParts(links, input.links);
    Backlinks.DedupeInParts(AllLinks(inputs), input.links);
    LinksOfMore(inputs, input);
  }

  lemma MergedIsMadeOf(v: NodeValue, inputs: seq<NodeInput>, input: NodeInput)
    requires HoldsParts(v, inputs)
    ensures IsMadeOf(Merged(v, input), inputs + [input])
  {
    OriginOfMore(v.origin, inputs, input);
    FieldsOfMore(v.metadata, inputs, input);
    TagsOfMore(v.tags, inputs, input);
    LinksOfDeduped(v.links, inputs, input);
    Backlinks.DedupeKeepsFirst(AllLinks(inputs + [input]));
  }

  lemma FreshIsMadeOf(input: NodeInput)
    ensures IsMadeOf(Fresh(input), [input])
  {
    PartsOfOne(input, RepoId());
    PartsOfOne(input, RepoPath());
    PartsOfOne(input, SourcePath());
    PartsOfOne(input, StartLine());
    PartsOfOne(input, EndLine());
    forall key ensures (if key in input.metadata then Some(input.metadata[key]) else None)
                    == LastGiven(Parts([input], Field(key)))
    {
      PartsOfOne(input, Field(key));
    }
    OneInput(input);
    Backlinks.DedupeKeepsFirst(input.links);
  }

  lemma OneInput(input: NodeInput)
    ensures AllLinks([input]) == input.links && HasTags(UniqueStrings(input.tags), [input])
  {
    assert [] + [input] == [input];
    LinksOfMore([], input);
    assert [] + input.links == input.links;
    forall tag ensures tag in UniqueStrings(input.tags) <==> Tagged([input], tag) {
      TaggedMore([], input, tag);
    }
  }

  lemma MadeHoldsParts(v: NodeValue, inputs: seq<NodeInput>)
    requires IsMadeOf(v, inputs)
    ensures HoldsParts(v, inputs)
  {
    forall tag ensures tag in UniqueStrings(v.tags) <==> Tagged(inputs, tag) {
      if raw :| raw in v.tags && tag == Trim(raw) != "" {
        TaggedIsTrimmed(inputs, raw);
      }
      if Tagged(inputs, tag) {
        TaggedIsTrimmed(inputs, tag);
      }
    }
    Backlinks.DedupeKeepsFirst(AllLinks(inputs));
    Backlinks.DedupeInParts(AllLinks(inputs), []);
    assert Backlinks.Dedupe(AllLinks(inputs)) + [] == Backlinks.Dedupe(AllLinks(inputs));
    assert AllLinks(inputs) + [] == AllLinks(inputs);
  }

  lemma TaggedIsTrimmed(inputs: seq<NodeInput>, tag: string)
    requires Tagged(inputs, tag)
    ensures Trim(tag) == tag != ""
  {
    var i, raw :| 0 <= i < |inputs| && raw in inputs[i].tags && tag == Trim(raw) != "";
    TrimTwice(raw);
  }

  // ----- Over any operations ---------------------------------------------------------------------------------------

  function NodeOf(g: GraphValue, id: string): Option<NodeValue> {
    var i := FindNode(g.nodes, id);
    if i < 0 then None else Some(g.nodes[i])
  }

  /** A stored node as what would have made it. */
  function AsInput(v: NodeValue): NodeInput {
    NodeInput(v.id, v.kind, v.title, v.description, v.tags, v.origin, v.links, v.metadata)
  }

  /** What the operations give for the id, in order. */
  function Upserts(ops: seq<Op>, id: string): seq<NodeInput> {
    if ops == [] then []
    else
      var before := Upserts(AllButLast(ops), id);
      if Last(ops).UpsertOp? && Last(ops).node.id == id then before + [Last(ops).node] else before
  }

  lemma UpsertTouchesOne(g: GraphValue, input: NodeInput, id: string)
    requires UniqueIds(g.nodes)
    ensures NodeOf(Upsert(g, input), id) ==
      if input.id != id then NodeOf(g, id)
      else Some(if NodeOf(g, id).Some? then Merged(NodeOf(g, id).value, input) else Fresh(input))
  {
    var g' := Upsert(g, input);
    var i := FindNode(g.nodes, id);
    assert UniqueIds(g'.nodes);
    if i >= 0 {
      FindNodeUnique(g'.nodes, i);
    } else if input.id == id {
      FindNodeUnique(g'.nodes, |g.nodes|);
    }
  }

  lemma KnownHoldsParts(v: NodeValue)
    ensures HoldsParts(v, [AsInput(v)])
  {
    FreshIsMadeOf(AsInput(v));
    OneInput(AsInput(v));
  }

  /** What is known of a node that was stored as `first`, if at all, and then upserted with `inputs`. */
  ghost predicate IsUpserted(first: Option<NodeValue>, node: Option<NodeValue>, inputs: seq<NodeInput>) {
    if inputs == [] then node == first
    else node.Some? && IsMadeOf(node.value, (if first.Some? then [AsInput(first.value)] else []) + inputs)
  }

  lemma OneMoreUpsert(first: Option<NodeValue>, node: Option<NodeValue>, inputs: seq<NodeInput>, input: NodeInput)
    requires IsUpserted(first, node, inputs)
    ensures IsUpserted(first, Some(if node.Some? then Merged(node.value, input) else Fresh(input)), inputs + [input])
  {
    var known := if first.Some? then [AsInput(first.value)] else [];
    assert known + (inputs + [input]) == (known + inputs) + [input];
    if node.None? {
      assert known + inputs == [] && [] + [input] == [input];
      FreshIsMadeOf(input);
    } else {
      if inputs == [] {
        assert known + inputs == [AsInput(node.value)];
        KnownHoldsParts(node.value);
      } else {
        MadeHoldsParts(node.value, known + inputs);
      }
      MergedIsMadeOf(node.value, known + inputs, input);
    }
  }

  /** A node that was upserted is made of what was stored of it and of all its upserts, in order; any other node is as
      it was. */
  lemma {:induction false} NodeIsMadeOfItsUpserts(g: GraphValue, ops: seq<Op>, id: string)
    requires UniqueIds(g.nodes) && UniqueKeys(g.edges)
    ensures IsUpserted(NodeOf(g, id), NodeOf(Run(g, ops), id), Upserts(ops, id))
  {
    if ops != [] {
      var init, op := AllButLast(ops), Last(ops);
      NodeIsMadeOfItsUpserts(g, init, id);
      StaysUnique(g, init);
      if op.UpsertOp? {
        UpsertTouchesOne(Run(g, init), op.node, id);
        if op.node.id == id {
          OneMoreUpsert(NodeOf(g, id), NodeOf(Run(g, init), id), Upserts(init, id), op.node);
        }
      }
    }
  }
}
