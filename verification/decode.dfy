/** Resolving a freshly parsed graph: building the name index and finding
    the entry node. */
module Decoding {
  import opened Wrappers
  import opened Sorting
  import opened Cfg
  import opened Copying

  /** What the DOT reader hands over: the graph it built, whose nodes carry
      their DOT ids as names and the entry flags read from their labels, or a
      parse failure. The reader itself is not modelled. */
  datatype DotOutcome = Parsed(g: Graph) | Malformed

  /** The name of the node that becomes the entry when no node is flagged:
      the DOT id `"0"`, quote characters included. */
  const ZeroName: string := "\"0\""

  /** The graph the reader leaves: a sound name index and no entry yet (the
      entry flags are set from node labels after the nodes are added). */
  ghost predicate Unresolved(g: Graph) {
    Sound(g) && g.entry == None
  }

  ghost predicate Flag(g: Graph, i: NodeId)
    requires i in g.nodes
  {
    g.nodes[i].entry
  }

  /** No two nodes carry the entry flag. */
  ghost predicate AtMostOneFlag(g: Graph) {
    forall i, j :: i in g.nodes && j in g.nodes && Flag(g, i) && Flag(g, j) ==> i == j
  }

  ghost predicate SomeFlag(g: Graph) {
    exists i :: i in g.nodes && Flag(g, i)
  }

  /** The loop over the nodes: a flagged node becomes the entry, and a
      flagged node other than the entry already found is an error. */
  ghost function FindEntry(g: Graph, ids: seq<NodeId>): (r: Result<Graph>)
    requires forall k :: 0 <= k < |ids| ==> ids[k] in g.nodes
    ensures r.Err? ==> r.error == DuplicateEntry
    ensures r.Ok? ==> r.value == g.(entry := r.value.entry)
    decreases |ids|
  {
    if ids == [] then Ok(g)
    else
      var n := g.nodes[ids[0]];
      if n.entry then
        if g.entry.Some? && g.entry.value != ids[0] then Err(DuplicateEntry)
        else FindEntry(g.(entry := Some(ids[0])), ids[1..])
      else FindEntry(g, ids[1..])
  }

  /** Over a list of distinct nodes not holding the current entry, the loop
      fails exactly when two listed nodes are flagged, or one is and an entry
      was already found; otherwise the flagged node, if any, becomes the
      entry. */
  lemma {:induction false} FindEntrySpec(g: Graph, ids: seq<NodeId>)
    requires forall k :: 0 <= k < |ids| ==> ids[k] in g.nodes
    requires forall k, l :: 0 <= k < l < |ids| ==> ids[k] != ids[l]
    requires g.entry.Some? ==> forall k :: 0 <= k < |ids| ==> ids[k] != g.entry.value
    ensures FindEntry(g, ids).Ok? <==>
      && (forall k, l :: 0 <= k < l < |ids| && Flag(g, ids[k]) ==> !Flag(g, ids[l]))
      && (g.entry.Some? ==> forall k :: 0 <= k < |ids| ==> !Flag(g, ids[k]))
    ensures FindEntry(g, ids).Ok? ==>
      && (forall k :: 0 <= k < |ids| && Flag(g, ids[k]) ==> FindEntry(g, ids).value.entry == Some(ids[k]))
      && ((forall k :: 0 <= k < |ids| ==> !Flag(g, ids[k])) ==> FindEntry(g, ids).value.entry == g.entry)
    decreases |ids|
  {
    if ids != [] {
      var t := ids[1..];
      assert forall k :: 0 <= k < |t| ==> t[k] == ids[k + 1];
      var g' := if Flag(g, ids[0]) then g.(entry := Some(ids[0])) else g;
      assert forall k :: 0 <= k < |t| ==> Flag(g', t[k]) == Flag(g, t[k]);
      FindEntrySpec(g', t);
      assert FindEntry(g, ids) == (if Flag(g, ids[0]) && g.entry.Some? then Err(DuplicateEntry) else FindEntry(g', t));
    }
  }

  /** ParseBytes after the DOT reader: fails on a parse failure; otherwise
      builds the name index (failing on an empty or repeated name), takes the
      one flagged node as the entry (failing on two), and else falls back to
      the node named "0", flagging it (failing when there is none). */
  ghost function ParseBytes(p: DotOutcome): (r: Result<Graph>)
    requires p.Parsed? ==> Unresolved(p.g)
    ensures p.Malformed? ==> r == Err(MalformedDot)
    ensures p.Parsed? ==> (r.Ok? <==> Resolvable(p.g))
    ensures p.Parsed? && r.Err? && !NamesUnique(p.g) ==> r.error == InvalidNode || r.error == DuplicateNode
    ensures p.Parsed? && r.Err? && NamesUnique(p.g) ==> r.error == (if AtMostOneFlag(p.g) then NoEntryNode else DuplicateEntry)
    ensures p.Parsed? && r.Ok? ==> Resolved(p.g, r.value)
  {
    match p
    case Malformed => Err(MalformedDot)
    case Parsed(g0) =>
      var g1 :- InitNodes(g0);
      SameNodesResolve(g0, g1);
      ResolveEntry(g1)
  }

  /** The part of ParseBytes after the name index is built. */
  ghost function ResolveEntry(g1: Graph): (r: Result<Graph>)
    requires Sound(g1) && IndexComplete(g1) && g1.entry == None
    ensures r.Ok? <==> AtMostOneFlag(g1) && (SomeFlag(g1) || ZeroName in g1.names)
    ensures r.Err? ==> r.error == (if AtMostOneFlag(g1) then NoEntryNode else DuplicateEntry)
    ensures r.Ok? ==> Resolved(g1, r.value)
  {
    var ids := Elements(g1.nodes.Keys);
    ElementsDistinct(g1.nodes.Keys);
    assert forall k :: 0 <= k < |ids| ==> ids[k] in ids;
    FindEntrySpec(g1, ids);
    FlagsListed(g1, ids);
    var g2 :- FindEntry(g1, ids);
    FoundEntry(g1, ids, g2);
    FallBack(g1, g2)
  }

  /** The end of ParseBytes: keeps the entry found among the flags, or else
      makes the node named "0" the entry. */
  ghost function FallBack(g1: Graph, g2: Graph): (r: Result<Graph>)
    requires Sound(g1) && IndexComplete(g1) && g1.entry == None && AtMostOneFlag(g1)
    requires g2 == g1.(entry := g2.entry) && Valid(g2)
    requires g2.entry.Some? <==> SomeFlag(g1)
    requires g2.entry.Some? ==> g2.entry.value in g1.nodes && Flag(g1, g2.entry.value)
    ensures r.Ok? <==> SomeFlag(g1) || ZeroName in g1.names
    ensures r.Err? ==> r.error == NoEntryNode
    ensures r.Ok? ==> Resolved(g1, r.value)
  {
    if g2.entry.Some? then Ok(g2)
    else
      match NodeWithName(g2, ZeroName)
      case None => Err(NoEntryNode)
      case Some(z) =>
        var g3 := SetEntry(g2, z.id).value;
        ZeroEntry(g1, g2, z, g3);
        Ok(g3)
  }

  /** Building the index leaves what resolution looks at unchanged. */
  lemma SameNodesResolve(g0: Graph, g1: Graph)
    requires g1 == g0.(names := g1.names) && g1.names.Keys == NodeNames(g0)
    ensures AtMostOneFlag(g1) == AtMostOneFlag(g0) && SomeFlag(g1) == SomeFlag(g0)
    ensures (ZeroName in g1.names) == (ZeroName in NodeNames(g0))
    ensures forall r :: Resolved(g1, r) == Resolved(g0, r)
  {
  }

  /** The reader's graph can be resolved: unique non-empty names, at most one
      flagged node, and either a flagged node or a node named "0". */
  ghost predicate Resolvable(g: Graph) {
    NamesUnique(g) && AtMostOneFlag(g) && (SomeFlag(g) || ZeroName in NodeNames(g))
  }

  /** `r` is `g` resolved: the same id, nodes and edges, a complete index, and
      an entry: the flagged node, or else the node named "0", now flagged. */
  ghost predicate Resolved(g: Graph, r: Graph) {
    && Valid(r) && r.id == g.id && r.edges == g.edges && r.entry.Some?
    && r.nodes.Keys == g.nodes.Keys
    && (SomeFlag(g) ==> r.nodes == g.nodes && Flag(g, r.entry.value))
    && (!SomeFlag(g) ==>
          && r.nodes[r.entry.value].name == ZeroName
          && forall i :: i in g.nodes ==> r.nodes[i] == g.nodes[i].(entry := i == r.entry.value))
  }

  /** On a listing of all nodes, the loop's conditions are about the graph. */
  lemma FlagsListed(g: Graph, ids: seq<NodeId>)
    requires |ids| == |g.nodes| && forall x :: x in ids <==> x in g.nodes
    requires forall k :: 0 <= k < |ids| ==> ids[k] in g.nodes
    requires forall k, l :: 0 <= k < l < |ids| ==> ids[k] != ids[l]
    ensures (forall k, l :: 0 <= k < l < |ids| && Flag(g, ids[k]) ==> !Flag(g, ids[l])) <==> AtMostOneFlag(g)
    ensures (forall k :: 0 <= k < |ids| ==> !Flag(g, ids[k])) <==> !SomeFlag(g)
  {
    if forall k, l :: 0 <= k < l < |ids| && Flag(g, ids[k]) ==> !Flag(g, ids[l]) {
      forall i, j | i in g.nodes && j in g.nodes && Flag(g, i) && Flag(g, j)
        ensures i == j
      {
        assert i in ids && j in ids;
        var k :| 0 <= k < |ids| && ids[k] == i;
        var l :| 0 <= l < |ids| && ids[l] == j;
      }
    }
    if SomeFlag(g) {
      var i :| i in g.nodes && Flag(g, i);
      assert i in ids;
      var k :| 0 <= k < |ids| && ids[k] == i;
    }
  }

  lemma FoundEntry(g1: Graph, ids: seq<NodeId>, g2: Graph)
    requires Sound(g1) && IndexComplete(g1) && g1.entry == None
    requires forall k :: 0 <= k < |ids| ==> ids[k] in g1.nodes
    requires forall i :: i in g1.nodes ==> i in ids
    requires g2 == g1.(entry := g2.entry)
    requires forall k :: 0 <= k < |ids| && Flag(g1, ids[k]) ==> g2.entry == Some(ids[k])
    requires (forall k :: 0 <= k < |ids| ==> !Flag(g1, ids[k])) ==> g2.entry == None
    ensures AtMostOneFlag(g1) ==> Valid(g2)
    ensures g2.entry.Some? <==> SomeFlag(g1)
    ensures g2.entry.Some? ==> g2.entry.value in g1.nodes && Flag(g1, g2.entry.value)
  {
    if SomeFlag(g1) {
      var i :| i in g1.nodes && Flag(g1, i);
      assert i in ids;
      var k :| 0 <= k < |ids| && ids[k] == i;
      assert g2.entry == Some(i);
    } else {
      assert forall k :: 0 <= k < |ids| ==> !Flag(g1, ids[k]);
    }
    if AtMostOneFlag(g1) && g2.entry.Some? {
      var e := g2.entry.value;
      forall i | i in g2.nodes
        ensures g2.nodes[i].entry <==> g2.entry == Some(i)
      {
      }
    }
  }

  lemma ZeroEntry(g0: Graph, g2: Graph, z: Node, g3: Graph)
    requires Valid(g2) && g2.entry.None? && z.id in g2.nodes && g2.nodes[z.id] == z && z.name == ZeroName
    requires g2.nodes == g0.nodes && g2.edges == g0.edges && g2.id == g0.id
    requires SetEntry(g2, z.id) == Ok(g3)
    requires !SomeFlag(g0)
    ensures Resolved(g0, g3)
  {
  }

  /** Forgetting the entry of a valid graph with an entry and resolving it
      again gives the graph back: the entry flag written on its entry node is
      enough to find it. */
  lemma ParseBytesRoundTrip(g: Graph)
    requires Valid(g) && g.entry.Some?
    ensures Unresolved(g.(entry := None))
    ensures ParseBytes(Parsed(g.(entry := None))) == Ok(g)
  {
    var u := g.(entry := None);
    ValidTransplantable(g);
    EntryFlagged(g);
    var e := g.entry.value;
    assert e in u.nodes && Flag(u, e);
    assert AtMostOneFlag(u);
    var r := ParseBytes(Parsed(u));
    assert r.Ok?;
    var v := r.value;
    assert v.entry == g.entry;
    SameNodesSameIndex(v, g);
  }
}
