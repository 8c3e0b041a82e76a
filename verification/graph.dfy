/** The control flow graph: nodes addressed by internal id, at most one edge
    per ordered pair of nodes, an injective index from node name to node, and a
    single optional entry node. Every operation is a pure function from a graph
    to a new graph or a failure. */
module Cfg {
  import opened Wrappers
  import opened Sorting

  type NodeId = int

  /** DOT attributes of a node or edge. */
  type Attrs = map<string, string>

  datatype LoopType = LoopNone | PreTest | PostTest | Endless

  /** Structuring annotations, carried unchanged by every operation here; node
      references are graph-scoped ids and may dangle. */
  datatype Annotations = Annotations(
    nBackEdges: int,
    isLatch: bool,
    loopType: LoopType,
    loopHead: Option<NodeId>,
    latch: Option<NodeId>,
    loopFollow: Option<NodeId>,
    ifFollow: Option<NodeId>,
    switchHead: Option<NodeId>,
    switchFollow: Option<NodeId>)

  const NoAnnotations := Annotations(0, false, LoopNone, None, None, None, None, None, None)

  datatype Node = Node(
    id: NodeId,
    name: string,      // the DOT id
    entry: bool,
    pre: int,          // depth first search preorder number
    revPost: int,      // depth first search reverse postorder number
    attrs: Attrs,
    ann: Annotations)

  datatype Graph = Graph(
    id: string,
    nodes: map<NodeId, Node>,
    edges: map<(NodeId, NodeId), Attrs>,
    names: map<string, NodeId>,
    entry: Option<NodeId>)

  function NewGraph(): (g: Graph)
    ensures Valid(g) && g.nodes == map[] && g.edges == map[] && g.entry == None
  {
    Graph("", map[], map[], map[], None)
  }

  // ---------------------------------------------------------------------------
  // Invariants

  ghost predicate WellKeyed(g: Graph) {
    forall i :: i in g.nodes ==> g.nodes[i].id == i
  }

  /** Edge endpoints are nodes of the graph. */
  ghost predicate EdgesClosed(g: Graph) {
    forall e {:trigger e in g.edges} :: e in g.edges ==> e.0 in g.nodes && e.1 in g.nodes
  }

  /** Every indexed name leads to a node of that name. */
  ghost predicate IndexSound(g: Graph) {
    forall nm :: nm in g.names ==> g.names[nm] in g.nodes && g.nodes[g.names[nm]].name == nm
  }

  /** Every node has a non-empty name that leads back to it; with soundness
      this makes node names unique. */
  ghost predicate IndexComplete(g: Graph) {
    forall i :: i in g.nodes ==>
      g.nodes[i].name != "" && g.nodes[i].name in g.names && g.names[g.nodes[i].name] == i
  }

  /** The graph's entry is the one node that carries the entry flag. */
  ghost predicate EntryConsistent(g: Graph) {
    && (g.entry.Some? ==> g.entry.value in g.nodes)
    && forall i :: i in g.nodes ==> (g.nodes[i].entry <==> g.entry == Some(i))
  }

  lemma EntryFlagged(g: Graph)
    requires EntryConsistent(g) && g.entry.Some?
    ensures g.entry.value in g.nodes && g.nodes[g.entry.value].entry
  {
    var e := g.entry.value;
    assert g.entry == Some(e);
  }

  /** Nodes keyed by id, edges between nodes, a sound name index: what the
      parser leaves, before the entry is resolved. */
  ghost predicate Sound(g: Graph) {
    WellKeyed(g) && EdgesClosed(g) && IndexSound(g)
  }

  /** Everything but completeness of the name index: the state of a graph
      that may hold nodes not yet named. */
  ghost predicate Coherent(g: Graph) {
    WellKeyed(g) && EdgesClosed(g) && IndexSound(g) && EntryConsistent(g)
  }

  ghost predicate Valid(g: Graph) {
    Coherent(g) && IndexComplete(g)
  }

  /** Names of the nodes of the graph. */
  ghost function NodeNames(g: Graph): set<string> {
    set i | i in g.nodes :: g.nodes[i].name
  }

  lemma NameOfNode(g: Graph, i: NodeId)
    requires i in g.nodes
    ensures g.nodes[i].name in NodeNames(g)
  {
  }

  function Succs(g: Graph, u: NodeId): set<NodeId> {
    set e | e in g.edges && e.0 == u :: e.1
  }

  function Preds(g: Graph, v: NodeId): set<NodeId> {
    set e | e in g.edges && e.1 == v :: e.0
  }

  // ---------------------------------------------------------------------------
  // Nodes

  /** A non-negative strict upper bound of a finite set of ids. */
  ghost function Bound(s: set<NodeId>): (b: NodeId)
    ensures b >= 0 && forall x :: x in s ==> x < b
    decreases |s|
  {
    if s == {} then 0
    else
      var y := Pick(s);
      var b := Bound(s - {y});
      assert forall x :: x in s && x != y ==> x in s - {y};
      if b > y then b else y + 1
  }

  /** Some internal id not used by the graph; which one is not pinned down. */
  ghost function FreshId(g: Graph): (r: NodeId)
    ensures r !in g.nodes
  {
    Bound(g.nodes.Keys)
  }

  /** A new node with the given name, not yet part of the graph. */
  ghost function NewNodeWithName(g: Graph, name: string): (r: Result<Node>)
    ensures r.Err? <==> name == ""
    ensures r.Err? ==> r.error == InvalidNode
    ensures r.Ok? ==> r.value.name == name && r.value.id !in g.nodes
    ensures r.Ok? ==> !r.value.entry && r.value.attrs == map[] && r.value.ann == NoAnnotations
  {
    if |name| == 0 then Err(InvalidNode)
    else Ok(Node(FreshId(g), name, false, 0, 0, map[], NoAnnotations))
  }

  function NodeWithName(g: Graph, name: string): (r: Option<Node>)
    requires Valid(g)
    ensures r.Some? <==> name in NodeNames(g)
    ensures r.Some? ==> r.value.id in g.nodes && g.nodes[r.value.id] == r.value && r.value.name == name
  {
    assert name in NodeNames(g) ==> name in g.names;
    if name in g.names then
      NameOfNode(g, g.names[name]);
      Some(g.nodes[g.names[name]])
    else None
  }

  /** The node of the given name; its absence is an error. */
  function MustNodeWithName(g: Graph, name: string): (r: Result<Node>)
    requires Valid(g)
    ensures r.Err? <==> name !in NodeNames(g)
    ensures r.Err? ==> r.error == MissingNode
    ensures r.Ok? ==> r.value.id in g.nodes && g.nodes[r.value.id] == r.value && r.value.name == name
  {
    match NodeWithName(g, name)
    case Some(n) => Ok(n)
    case None => Err(MissingNode)
  }

  /** Marks a node of the graph as its entry; fails whenever an entry is
      already set, even if it is the same node. */
  function SetEntry(g: Graph, id: NodeId): (r: Result<Graph>)
    requires Valid(g) && id in g.nodes
    ensures r.Err? <==> g.entry.Some?
    ensures r.Err? ==> r.error == DuplicateEntry
    ensures r.Ok? ==> Valid(r.value) && r.value.entry == Some(id)
    ensures r.Ok? ==> r.value.nodes[id] == g.nodes[id].(entry := true)
    ensures r.Ok? ==> r.value.nodes.Keys == g.nodes.Keys && r.value.edges == g.edges && r.value.names == g.names && r.value.id == g.id
    ensures r.Ok? ==> forall i :: i in g.nodes && i != id ==> r.value.nodes[i] == g.nodes[i]
  {
    if g.entry.Some? then Err(DuplicateEntry)
    else Ok(g.(nodes := g.nodes[id := g.nodes[id].(entry := true)], entry := Some(id)))
  }

  /** `n` can join `g`: its id is free, it is not a second entry, and its
      name, if any, is not yet indexed. */
  ghost predicate Addable(g: Graph, n: Node) {
    n.id !in g.nodes && !(n.entry && g.entry.Some?) && !(n.name != "" && n.name in g.names)
  }

  /** Adds a node. Fails on an id already in use, on a second entry node and on
      a name owned by a different node; a node without a name is not indexed. */
  function AddNode(g: Graph, n: Node): (r: Result<Graph>)
    requires Coherent(g)
    ensures r.Ok? <==> Addable(g, n)
    ensures r.Err? ==> r.error == (if n.id in g.nodes then IdCollision
                                   else if n.entry && g.entry.Some? then DuplicateEntry
                                   else DuplicateNode)
    ensures r.Ok? ==> r.value.nodes == g.nodes[n.id := n] && r.value.edges == g.edges && r.value.id == g.id
    ensures r.Ok? ==> r.value.entry == (if n.entry then Some(n.id) else g.entry)
    ensures r.Ok? ==> r.value.names == (if n.name != "" then g.names[n.name := n.id] else g.names)
    ensures r.Ok? ==> Coherent(r.value)
    ensures r.Ok? && Valid(g) && n.name != "" ==> Valid(r.value)
  {
    if n.id in g.nodes then Err(IdCollision)
    else
      var g1 := g.(nodes := g.nodes[n.id := n]);
      if n.entry && g.entry.Some? && g.entry.value != n.id then Err(DuplicateEntry)
      else
        var g2 := if n.entry then g1.(entry := Some(n.id)) else g1;
        if |n.name| > 0 && n.name in g.names && g.names[n.name] != n.id then Err(DuplicateNode)
        else Ok(if |n.name| > 0 then g2.(names := g2.names[n.name := n.id]) else g2)
  }

  /** Edges of `g` that do not touch `id`. */
  function EdgesAvoiding(edges: map<(NodeId, NodeId), Attrs>, id: NodeId): map<(NodeId, NodeId), Attrs> {
    map e | e in edges && e.0 != id && e.1 != id :: edges[e]
  }

  /** Removes a node, every edge touching it and its name; clears the entry
      if it was the entry node. A node not in the graph leaves it unchanged. */
  function RemoveNode(g: Graph, id: NodeId): (r: Graph)
    requires Valid(g)
    ensures Valid(r)
    ensures r.id == g.id
    ensures r.nodes == g.nodes - {id}
    ensures forall e :: e in r.edges <==> e in g.edges && e.0 != id && e.1 != id
    ensures forall e :: e in r.edges ==> r.edges[e] == g.edges[e]
    ensures forall nm :: nm in r.names <==> nm in g.names && g.names[nm] != id
    ensures forall nm :: nm in r.names ==> r.names[nm] == g.names[nm]
    ensures r.entry == if g.entry == Some(id) then None else g.entry
    ensures id !in g.nodes ==> r == g
  {
    if id !in g.nodes then g
    else
      var n := g.nodes[id];
      Graph(g.id, g.nodes - {id}, EdgesAvoiding(g.edges, id), g.names - {n.name},
            if n.entry then None else g.entry)
  }

  /** Removal exactly as the package writes it: the name mapping is deleted
      and the entry cleared from the passed node's own fields, whether or not
      the node is in the graph. */
  function RemoveNodeAsWritten(g: Graph, n: Node): (r: Graph)
    requires Valid(g)
    requires n.id in g.nodes ==> g.nodes[n.id] == n
    ensures n.id in g.nodes ==> r == RemoveNode(g, n.id)
  {
    Graph(g.id, g.nodes - {n.id}, EdgesAvoiding(g.edges, n.id), g.names - {n.name},
          if n.entry then None else g.entry)
  }

  /** Removing a node that is not in the graph, but shares its name and entry
      flag with the entry node, unindexes that node and clears the entry. */
  lemma RemoveAbsentNodeBreaksIndex()
    ensures var g := Graph("", map[0 := Node(0, "a", true, 0, 0, map[], NoAnnotations)],
                           map[], map["a" := 0], Some(0));
            var stray := Node(1, "a", true, 0, 0, map[], NoAnnotations);
            && Valid(g)
            && RemoveNode(g, stray.id) == g
            && var r := RemoveNodeAsWritten(g, stray);
               0 in r.nodes && "a" !in r.names && r.entry == None && !Valid(r)
  {
    var g := Graph("", map[0 := Node(0, "a", true, 0, 0, map[], NoAnnotations)],
                   map[], map["a" := 0], Some(0));
    var stray := Node(1, "a", true, 0, 0, map[], NoAnnotations);
    var r := RemoveNodeAsWritten(g, stray);
    assert r.nodes[0].name == "a" && "a" !in r.names;
    assert !IndexComplete(r);
  }

  // ---------------------------------------------------------------------------
  // Edges

  /** The target of an edge is added apart from its source: it is neither in
      the graph nor the source itself. */
  ghost predicate NewTarget(g: Graph, from: Node, to: Node) {
    to.id !in g.nodes && to.id != from.id
  }

  /** Records an edge, first adding either endpoint that is not yet in the
      graph. An existing edge between the same nodes is replaced. */
  function SetEdge(g: Graph, from: Node, to: Node, attrs: Attrs): (r: Result<Graph>)
    requires Coherent(g)
    ensures r.Ok? <==>
      && (from.id !in g.nodes ==> Addable(g, from))
      && (NewTarget(g, from, to) ==>
            && Addable(g, to)
            && !(from.id !in g.nodes && from.entry && to.entry)
            && !(from.id !in g.nodes && to.name != "" && to.name == from.name))
    ensures r.Err? ==> r.error == DuplicateEntry || r.error == DuplicateNode
    ensures r.Ok? ==> from.id in r.value.nodes && to.id in r.value.nodes
    ensures r.Ok? && from.id !in g.nodes ==> r.value.nodes[from.id] == from
    ensures r.Ok? && NewTarget(g, from, to) ==> r.value.nodes[to.id] == to
    ensures r.Ok? ==> r.value.entry == if from.id !in g.nodes && from.entry then Some(from.id)
                                       else if NewTarget(g, from, to) && to.entry then Some(to.id)
                                       else g.entry
    ensures r.Ok? ==> forall nm :: nm in r.value.names <==>
      || nm in g.names
      || (from.id !in g.nodes && nm == from.name && nm != "")
      || (NewTarget(g, from, to) && nm == to.name && nm != "")
    ensures r.Ok? ==> r.value.edges == g.edges[(from.id, to.id) := attrs]
    ensures r.Ok? ==> r.value.nodes.Keys == g.nodes.Keys + {from.id, to.id} && r.value.id == g.id
    ensures r.Ok? ==> forall i :: i in g.nodes ==> r.value.nodes[i] == g.nodes[i]
    ensures r.Ok? && from.id in g.nodes && to.id in g.nodes ==> r.value == g.(edges := r.value.edges)
    ensures r.Ok? ==> Coherent(r.value)
    ensures r.Ok? && Valid(g) && from.name != "" && to.name != "" ==> Valid(r.value)
  {
    var g1 :- AddAbsent(g, from);
    var g2 :- AddAbsent(g1, to);
    Ok(g2.(edges := g2.edges[(from.id, to.id) := attrs]))
  }

  /** Adds an endpoint of a new edge unless a node with its id is already in
      the graph. */
  function AddAbsent(g: Graph, n: Node): (r: Result<Graph>)
    requires Coherent(g)
    ensures r.Ok? <==> n.id in g.nodes || Addable(g, n)
    ensures r.Err? ==> r.error == DuplicateEntry || r.error == DuplicateNode
    ensures r.Ok? ==> r.value.id == g.id && r.value.edges == g.edges && Coherent(r.value)
    ensures r.Ok? ==> r.value.nodes == if n.id in g.nodes then g.nodes else g.nodes[n.id := n]
    ensures r.Ok? ==> r.value.entry == if n.id !in g.nodes && n.entry then Some(n.id) else g.entry
    ensures r.Ok? ==> r.value.names == if n.id !in g.nodes && n.name != "" then g.names[n.name := n.id] else g.names
    ensures r.Ok? && Valid(g) && n.name != "" ==> Valid(r.value)
  {
    if n.id in g.nodes then Ok(g) else AddNode(g, n)
  }

  /** The node of the given name, created and added when absent. */
  ghost function NodeWithNameOrNew(g: Graph, name: string): (r: Result<(Graph, Node)>)
    requires Valid(g)
    ensures r.Err? <==> name == ""
    ensures r.Ok? ==> Valid(r.value.0) && r.value.1.name == name
    ensures r.Ok? ==> r.value.1.id in r.value.0.nodes && r.value.0.nodes[r.value.1.id] == r.value.1
    ensures r.Ok? && name in NodeNames(g) ==> r.value.0 == g
    ensures r.Ok? && name !in NodeNames(g) ==>
      r.value.1.id !in g.nodes && r.value.0.nodes == g.nodes[r.value.1.id := r.value.1]
      && r.value.0.edges == g.edges && r.value.0.entry == g.entry
  {
    match NodeWithName(g, name)
    case Some(n) => Ok((g, n))
    case None =>
      if |name| == 0 then Err(InvalidNode)
      else
        var n := NewNodeWithName(g, name).value;
        var g' := AddNode(g, n).value;
        Ok((g', n))
  }

  // ---------------------------------------------------------------------------
  // Branch targets

  /** Value of the "label" attribute, empty when absent. */
  function Label(a: Attrs): string {
    if "label" in a then a["label"] else ""
  }

  function EdgeLabel(g: Graph, u: NodeId, v: NodeId): string {
    if (u, v) in g.edges then Label(g.edges[(u, v)]) else ""
  }

  /** The two successors of a two-way branch in the order the graph lists
      them; which comes first is not pinned down. */
  ghost function SuccPair(g: Graph, u: NodeId): (p: (NodeId, NodeId))
    requires |Succs(g, u)| == 2
    ensures p.0 != p.1 && Succs(g, u) == {p.0, p.1}
  {
    var s := Succs(g, u);
    var a := Pick(s);
    assert |s - {a}| == 1;
    var b := Pick(s - {a});
    assert |s - {a} - {b}| == 0;
    assert forall x :: x in s && x != a && x != b ==> x in s - {a} - {b};
    (a, b)
  }

  /** The labels of the two out-edges are "true" and "false" in some order. */
  ghost predicate LabelsResolve(g: Graph, u: NodeId) {
    exists a, b :: a in Succs(g, u) && b in Succs(g, u)
                   && EdgeLabel(g, u, a) == "true" && EdgeLabel(g, u, b) == "false"
  }

  /** A branch target, with the flag the package reports as a warning when the
      edge labels do not tell the branches apart. */
  datatype Target = Target(node: NodeId, ambiguous: bool)

  ghost function TrueTarget(g: Graph, u: NodeId): (r: Result<Target>)
    ensures r.Err? <==> |Succs(g, u)| != 2
    ensures r.Err? ==> r.error == InvalidBranch
    ensures r.Ok? ==> r.value.node in Succs(g, u)
    ensures r.Ok? ==> (r.value.ambiguous <==> !LabelsResolve(g, u))
    ensures r.Ok? && !r.value.ambiguous ==> EdgeLabel(g, u, r.value.node) == "true"
  {
    if |Succs(g, u)| != 2 then Err(InvalidBranch)
    else
      var (s1, s2) := SuccPair(g, u);
      var l1, l2 := EdgeLabel(g, u, s1), EdgeLabel(g, u, s2);
      if l1 == "true" && l2 == "false" then Ok(Target(s1, false))
      else if l1 == "false" && l2 == "true" then Ok(Target(s2, false))
      else Ok(Target(s1, true))
  }

  ghost function FalseTarget(g: Graph, u: NodeId): (r: Result<Target>)
    ensures r.Err? <==> |Succs(g, u)| != 2
    ensures r.Err? ==> r.error == InvalidBranch
    ensures r.Ok? ==> r.value.node in Succs(g, u)
    ensures r.Ok? ==> (r.value.ambiguous <==> !LabelsResolve(g, u))
    ensures r.Ok? && !r.value.ambiguous ==> EdgeLabel(g, u, r.value.node) == "false"
  {
    if |Succs(g, u)| != 2 then Err(InvalidBranch)
    else
      var (s1, s2) := SuccPair(g, u);
      var l1, l2 := EdgeLabel(g, u, s1), EdgeLabel(g, u, s2);
      if l1 == "true" && l2 == "false" then Ok(Target(s2, false))
      else if l1 == "false" && l2 == "true" then Ok(Target(s1, false))
      else Ok(Target(s1, true))
  }

  /** Resolved labels give two distinct targets; otherwise both queries fall
      back to the same successor. */
  lemma BranchTargetsAgree(g: Graph, u: NodeId)
    requires |Succs(g, u)| == 2
    ensures TrueTarget(g, u).Ok? && FalseTarget(g, u).Ok?
    ensures LabelsResolve(g, u) ==> TrueTarget(g, u).value.node != FalseTarget(g, u).value.node
    ensures !LabelsResolve(g, u) ==> TrueTarget(g, u).value.node == FalseTarget(g, u).value.node
  {
  }

  /** Attributes of an edge created with the given label: none for the empty
      label, and a colour for "true" and "false". */
  function LabelAttrs(text: string): (a: Attrs)
    ensures Label(a) == text
    ensures text == "" ==> a == map[]
    ensures "color" in a <==> text == "true" || text == "false"
    ensures text == "true" ==> a["color"] == "darkgreen"
    ensures text == "false" ==> a["color"] == "red"
    ensures a.Keys <= {"label", "color"}
  {
    if |text| == 0 then map[]
    else if text == "true" then map["label" := text, "color" := "darkgreen"]
    else if text == "false" then map["label" := text, "color" := "red"]
    else map["label" := text]
  }

  function EdgeWithLabel(g: Graph, from: Node, to: Node, text: string): (r: Result<Graph>)
    requires Coherent(g)
    ensures from.id in g.nodes && to.id in g.nodes ==> r.Ok?
    ensures r.Ok? ==> r.value.edges == g.edges[(from.id, to.id) := LabelAttrs(text)]
    ensures r.Ok? ==> Coherent(r.value) && EdgeLabel(r.value, from.id, to.id) == text
  {
    SetEdge(g, from, to, LabelAttrs(text))
  }

  /** Recording an edge from `u` adds exactly its target to the successors. */
  lemma SuccsAfterInsert(g: Graph, u: NodeId, v: NodeId, a: Attrs)
    ensures Succs(g.(edges := g.edges[(u, v) := a]), u) == Succs(g, u) + {v}
  {
    var g' := g.(edges := g.edges[(u, v) := a]);
    forall w | w in Succs(g', u)
      ensures w in Succs(g, u) + {v}
    {
      if w != v {
        assert (u, w) in g.edges;
      }
    }
    forall w | w in Succs(g, u) + {v}
      ensures w in Succs(g', u)
    {
      assert (u, w) in g'.edges;
    }
  }

  /** A conditional branch built with "true" and "false" labels is resolved
      by the branch-target queries. */
  lemma CondBranchTargets(g: Graph, from: Node, t: Node, f: Node)
    requires Coherent(g) && from.id in g.nodes && t.id in g.nodes && f.id in g.nodes
    requires Succs(g, from.id) == {} && t.id != f.id
    ensures var r1 := EdgeWithLabel(g, from, t, "true");
            && r1.Ok?
            && var r2 := EdgeWithLabel(r1.value, from, f, "false");
               && r2.Ok?
               && TrueTarget(r2.value, from.id) == Ok(Target(t.id, false))
               && FalseTarget(r2.value, from.id) == Ok(Target(f.id, false))
  {
    var g1 := EdgeWithLabel(g, from, t, "true").value;
    var g2 := EdgeWithLabel(g1, from, f, "false").value;
    var u := from.id;
    SuccsAfterInsert(g, u, t.id, LabelAttrs("true"));
    SuccsAfterInsert(g1, u, f.id, LabelAttrs("false"));
    assert Succs(g2, u) == {t.id, f.id};
    assert EdgeLabel(g2, u, t.id) == "true";
    assert EdgeLabel(g2, u, f.id) == "false";
    LabelledTargets(g2, u, t.id, f.id);
  }

  /** Two successors labelled "true" and "false" are the branch targets. */
  lemma LabelledTargets(g: Graph, u: NodeId, t: NodeId, f: NodeId)
    requires Succs(g, u) == {t, f} && t != f
    requires EdgeLabel(g, u, t) == "true" && EdgeLabel(g, u, f) == "false"
    ensures TrueTarget(g, u) == Ok(Target(t, false))
    ensures FalseTarget(g, u) == Ok(Target(f, false))
  {
    assert |Succs(g, u)| == 2;
    assert LabelsResolve(g, u);
  }

  // ---------------------------------------------------------------------------
  // Name index

  /** The listed nodes can all be indexed: non-empty names, none owned by a
      different node already, none shared among them. */
  ghost predicate Indexable(g: Graph, ids: seq<NodeId>)
    requires forall k :: 0 <= k < |ids| ==> ids[k] in g.nodes
  {
    && (forall k :: 0 <= k < |ids| ==> g.nodes[ids[k]].name != "")
    && (forall k :: 0 <= k < |ids| && g.nodes[ids[k]].name in g.names ==> g.names[g.nodes[ids[k]].name] == ids[k])
    && (forall k, l :: 0 <= k < l < |ids| ==> g.nodes[ids[k]].name != g.nodes[ids[l]].name)
  }

  /** Indexes the listed nodes by name, one after the other. */
  function IndexNodes(g: Graph, ids: seq<NodeId>): (r: Result<Graph>)
    requires Sound(g)
    requires forall k :: 0 <= k < |ids| ==> ids[k] in g.nodes
    requires forall k, l :: 0 <= k < l < |ids| ==> ids[k] != ids[l]
    ensures r.Ok? <==> Indexable(g, ids)
    ensures r.Err? ==> r.error == InvalidNode || r.error == DuplicateNode
    ensures r.Ok? ==> r.value == g.(names := r.value.names)
    decreases |ids|
  {
    if ids == [] then Ok(g)
    else
      var n := g.nodes[ids[0]];
      if |n.name| == 0 then Err(InvalidNode)
      else if n.name in g.names && g.names[n.name] != ids[0] then Err(DuplicateNode)
      else
        var g' := g.(names := g.names[n.name := ids[0]]);
        IndexableStep(g, ids, g');
        IndexNodes(g', ids[1..])
  }

  /** Names of the listed nodes. */
  ghost function NamesOf(g: Graph, ids: seq<NodeId>): set<string>
    requires forall k :: 0 <= k < |ids| ==> ids[k] in g.nodes
    decreases |ids|
  {
    if ids == [] then {} else {g.nodes[ids[0]].name} + NamesOf(g, ids[1..])
  }

  /** What indexing adds: a sound index that keeps the old names and maps
      every listed node's name to it. */
  lemma {:induction false} IndexNodesResult(g: Graph, ids: seq<NodeId>)
    requires Sound(g)
    requires forall k :: 0 <= k < |ids| ==> ids[k] in g.nodes
    requires forall k, l :: 0 <= k < l < |ids| ==> ids[k] != ids[l]
    requires Indexable(g, ids)
    ensures var r := IndexNodes(g, ids).value;
            && Sound(r)
            && r.names.Keys == g.names.Keys + NamesOf(g, ids)
            && (forall nm :: nm in g.names ==> r.names[nm] == g.names[nm])
            && (forall k :: 0 <= k < |ids| ==>
                  g.nodes[ids[k]].name in r.names && r.names[g.nodes[ids[k]].name] == ids[k])
    decreases |ids|
  {
    if ids != [] {
      var n := g.nodes[ids[0]];
      var g' := g.(names := g.names[n.name := ids[0]]);
      IndexableStep(g, ids, g');
      IndexNodesResult(g', ids[1..]);
      var r := IndexNodes(g, ids).value;
      assert r == IndexNodes(g', ids[1..]).value;
      assert NamesOf(g', ids[1..]) == NamesOf(g, ids[1..]) by {
        NamesOfNodes(g, g', ids[1..]);
      }
      forall k | 0 <= k < |ids|
        ensures g.nodes[ids[k]].name in r.names && r.names[g.nodes[ids[k]].name] == ids[k]
      {
        if k > 0 {
          assert ids[1..][k - 1] == ids[k];
        }
      }
    }
  }

  lemma {:induction false} NamesOfNodes(g: Graph, g': Graph, ids: seq<NodeId>)
    requires g'.nodes == g.nodes
    requires forall k :: 0 <= k < |ids| ==> ids[k] in g.nodes
    ensures NamesOf(g', ids) == NamesOf(g, ids)
    decreases |ids|
  {
    if ids != [] {
      NamesOfNodes(g, g', ids[1..]);
    }
  }

  lemma {:induction false} NamesOfMember(g: Graph, ids: seq<NodeId>, nm: string)
    requires forall k :: 0 <= k < |ids| ==> ids[k] in g.nodes
    ensures nm in NamesOf(g, ids) <==> exists k :: 0 <= k < |ids| && g.nodes[ids[k]].name == nm
    decreases |ids|
  {
    if ids != [] {
      NamesOfMember(g, ids[1..], nm);
      if nm in NamesOf(g, ids[1..]) {
        var k :| 0 <= k < |ids[1..]| && g.nodes[ids[1..][k]].name == nm;
        assert g.nodes[ids[k + 1]].name == nm;
      }
      if exists k :: 0 <= k < |ids| && g.nodes[ids[k]].name == nm {
        var k :| 0 <= k < |ids| && g.nodes[ids[k]].name == nm;
        if k > 0 {
          assert g.nodes[ids[1..][k - 1]].name == nm;
        }
      }
    }
  }

  lemma IndexableStep(g: Graph, ids: seq<NodeId>, g': Graph)
    requires Sound(g) && ids != []
    requires forall k :: 0 <= k < |ids| ==> ids[k] in g.nodes
    requires forall k, l :: 0 <= k < l < |ids| ==> ids[k] != ids[l]
    requires g.nodes[ids[0]].name != ""
    requires g.nodes[ids[0]].name in g.names ==> g.names[g.nodes[ids[0]].name] == ids[0]
    requires g' == g.(names := g.names[g.nodes[ids[0]].name := ids[0]])
    ensures Indexable(g, ids) <==> Indexable(g', ids[1..])
    ensures Sound(g')
  {
    var n0 := g.nodes[ids[0]].name;
    var t := ids[1..];
    if Indexable(g', t) {
      forall k, l | 0 <= k < l < |ids|
        ensures g.nodes[ids[k]].name != g.nodes[ids[l]].name
      {
        if k == 0 {
          assert t[l - 1] == ids[l];
          assert g'.names[n0] == ids[0];
        } else {
          assert t[k - 1] == ids[k] && t[l - 1] == ids[l];
        }
      }
      forall k | 0 <= k < |ids| && g.nodes[ids[k]].name in g.names
        ensures g.names[g.nodes[ids[k]].name] == ids[k]
      {
        if k > 0 {
          assert t[k - 1] == ids[k];
        }
      }
    }
  }

  /** Node names are non-empty and pairwise distinct. */
  ghost predicate NamesUnique(g: Graph) {
    && (forall i :: i in g.nodes ==> g.nodes[i].name != "")
    && (forall i, j :: i in g.nodes && j in g.nodes && i != j ==> g.nodes[i].name != g.nodes[j].name)
  }

  /** Rebuilds the name index from all nodes, in the order the graph lists them. */
  ghost function InitNodes(g: Graph): (r: Result<Graph>)
    requires Sound(g)
    ensures r.Ok? <==> NamesUnique(g)
    ensures r.Err? ==> r.error == InvalidNode || r.error == DuplicateNode
    ensures r.Ok? ==> Sound(r.value) && IndexComplete(r.value) && r.value == g.(names := r.value.names)
    ensures r.Ok? ==> r.value.names.Keys == NodeNames(g)
    ensures r.Ok? && EntryConsistent(g) ==> Valid(r.value)
  {
    var ids := Elements(g.nodes.Keys);
    ElementsDistinct(g.nodes.Keys);
    assert forall k :: 0 <= k < |ids| ==> ids[k] in ids;
    InitNodesSpec(g, ids);
    IndexNodes(g, ids)
  }

  lemma InitNodesSpec(g: Graph, ids: seq<NodeId>)
    requires Sound(g)
    requires forall i :: i in ids <==> i in g.nodes
    requires forall k :: 0 <= k < |ids| ==> ids[k] in g.nodes
    requires forall k, l :: 0 <= k < l < |ids| ==> ids[k] != ids[l]
    ensures Indexable(g, ids) <==> NamesUnique(g)
    ensures NamesUnique(g) ==>
      var r := IndexNodes(g, ids).value;
      Sound(r) && IndexComplete(r) && r.names.Keys == NodeNames(g)
  {
    if NamesUnique(g) {
      UniqueIndexable(g, ids);
      UniqueIndexResult(g, ids);
    }
    if Indexable(g, ids) {
      IndexableUnique(g, ids);
    }
  }

  lemma UniqueIndexable(g: Graph, ids: seq<NodeId>)
    requires forall k :: 0 <= k < |ids| ==> ids[k] in g.nodes
    requires forall k, l :: 0 <= k < l < |ids| ==> ids[k] != ids[l]
    requires IndexSound(g) && NamesUnique(g)
    ensures Indexable(g, ids)
  {
    forall k | 0 <= k < |ids|
      ensures g.nodes[ids[k]].name != ""
      ensures g.nodes[ids[k]].name in g.names ==> g.names[g.nodes[ids[k]].name] == ids[k]
    {
      var i := ids[k];
      assert i in g.nodes;
      if g.nodes[i].name in g.names {
        var j := g.names[g.nodes[i].name];
        assert j in g.nodes && g.nodes[j].name == g.nodes[i].name;
      }
    }
    forall k, l | 0 <= k < l < |ids|
      ensures g.nodes[ids[k]].name != g.nodes[ids[l]].name
    {
      assert ids[k] in g.nodes && ids[l] in g.nodes;
    }
  }

  lemma UniqueIndexResult(g: Graph, ids: seq<NodeId>)
    requires Sound(g)
    requires forall i :: i in ids <==> i in g.nodes
    requires forall k :: 0 <= k < |ids| ==> ids[k] in g.nodes
    requires forall k, l :: 0 <= k < l < |ids| ==> ids[k] != ids[l]
    requires Indexable(g, ids)
    ensures var r := IndexNodes(g, ids).value;
      Sound(r) && IndexComplete(r) && r.names.Keys == NodeNames(g)
  {
    IndexNodesResult(g, ids);
    var r := IndexNodes(g, ids).value;
    forall i | i in r.nodes
      ensures r.nodes[i].name != "" && r.nodes[i].name in r.names && r.names[r.nodes[i].name] == i
    {
      assert i in ids;
      var k :| 0 <= k < |ids| && ids[k] == i;
    }
    forall nm | true
      ensures nm in NamesOf(g, ids) <==> nm in NodeNames(g)
    {
      NamesOfMember(g, ids, nm);
      if nm in NodeNames(g) {
        var i :| i in g.nodes && g.nodes[i].name == nm;
        assert i in ids;
        var k :| 0 <= k < |ids| && ids[k] == i;
      }
    }
    forall nm | nm in g.names
      ensures nm in NodeNames(g)
    {
      NameOfNode(g, g.names[nm]);
    }
  }

  lemma IndexableUnique(g: Graph, ids: seq<NodeId>)
    requires forall i :: i in ids <==> i in g.nodes
    requires forall k :: 0 <= k < |ids| ==> ids[k] in g.nodes
    requires Indexable(g, ids)
    ensures NamesUnique(g)
  {
    forall i | i in g.nodes
      ensures g.nodes[i].name != ""
    {
      assert i in ids;
      var k :| 0 <= k < |ids| && ids[k] == i;
    }
    forall i, j | i in g.nodes && j in g.nodes && i != j
      ensures g.nodes[i].name != g.nodes[j].name
    {
      assert i in ids && j in ids;
      var k :| 0 <= k < |ids| && ids[k] == i;
      var l :| 0 <= l < |ids| && ids[l] == j;
      if k > l {
        assert g.nodes[ids[l]].name != g.nodes[ids[k]].name;
      }
    }
  }

  // ---------------------------------------------------------------------------
  // Loop type text

  /** The text form of a loop type. */
  function LoopTypeText(t: LoopType): (s: string)
    ensures ParseLoopType(s) == Ok(t)
  {
    match t
    case LoopNone => "none"
    case PreTest => "pre-test_loop"
    case PostTest => "post-test_loop"
    case Endless => "endless_loop"
  }

  function ParseLoopType(s: string): (r: Result<LoopType>)
    ensures r.Err? ==> r.error == UnknownLoopType
  {
    if s == "none" then Ok(LoopNone)
    else if s == "pre-test_loop" then Ok(PreTest)
    else if s == "post-test_loop" then Ok(PostTest)
    else if s == "endless_loop" then Ok(Endless)
    else Err(UnknownLoopType)
  }

  /** Only the four texts parse, and each parses back to the text it came from. */
  lemma ParseLoopTypeInverse(s: string)
    ensures ParseLoopType(s).Ok? <==> s in {"none", "pre-test_loop", "post-test_loop", "endless_loop"}
    ensures ParseLoopType(s).Ok? ==> LoopTypeText(ParseLoopType(s).value) == s
  {
  }
}
