/** Copying the nodes and edges of one graph into another. */
module Copying {
  import opened Wrappers
  import opened Sorting
  import opened Cfg

  /** What a graph must offer for its nodes to move into another graph: each
      node is keyed by its id, names are non-empty and distinct, and at most
      one node carries the entry flag. */
  ghost predicate Transplantable(src: Graph) {
    && WellKeyed(src) && NamesUnique(src)
    && forall i, j :: i in src.nodes && j in src.nodes && src.nodes[i].entry && src.nodes[j].entry ==> i == j
  }

  lemma ValidTransplantable(g: Graph)
    requires Valid(g)
    ensures Transplantable(g)
  {
    forall i, j | i in g.nodes && j in g.nodes && i != j
      ensures g.nodes[i].name != g.nodes[j].name
    {
      assert g.names[g.nodes[i].name] == i && g.names[g.nodes[j].name] == j;
    }
  }

  /** The nodes of `s` can be added to `dst` one by one without a clash: their
      ids and names are new to it, and none is an entry if `dst` has one. */
  ghost predicate Fits(dst: Graph, src: Graph, s: set<NodeId>)
    requires s <= src.nodes.Keys
  {
    && (forall i :: i in s ==> i !in dst.nodes && src.nodes[i].name !in dst.names)
    && (dst.entry.Some? ==> forall i :: i in s ==> !src.nodes[i].entry)
  }

  /** Adding one node keeps the rest of the set fitting exactly when the whole
      set fitted. */
  lemma FitsStep(dst: Graph, src: Graph, s: set<NodeId>, i: NodeId, d1: Graph)
    requires Coherent(dst) && Transplantable(src) && s <= src.nodes.Keys && i in s
    requires AddNode(dst, src.nodes[i]) == Ok(d1)
    ensures Fits(dst, src, s) <==> Fits(d1, src, s - {i})
  {
    var n := src.nodes[i];
    if Fits(d1, src, s - {i}) {
      forall j | j in s
        ensures j !in dst.nodes && src.nodes[j].name !in dst.names
      {
        if j != i {
          assert j in s - {i};
        }
      }
      if dst.entry.Some? {
        forall j | j in s
          ensures !src.nodes[j].entry
        {
          if j != i {
            assert j in s - {i};
          }
        }
      }
    }
    if Fits(dst, src, s) {
      forall j | j in s - {i}
        ensures j !in d1.nodes && src.nodes[j].name !in d1.names
      {
        assert src.nodes[j].name != n.name;
      }
    }
  }

  /** `r` is `dst` with the nodes of `s` taken from `src`: same id and
      edges, the new nodes as they are in `src`, and the entry moved to a
      flagged new node if there is one. */
  ghost predicate AddedNodes(dst: Graph, src: Graph, s: set<NodeId>, r: Graph)
    requires s <= src.nodes.Keys
  {
    && r.id == dst.id && r.edges == dst.edges
    && r.nodes.Keys == dst.nodes.Keys + s
    && (forall i :: i in r.nodes ==> r.nodes[i] == if i in s then src.nodes[i] else dst.nodes[i])
    && (forall i :: i in s && src.nodes[i].entry ==> r.entry == Some(i))
    && ((forall i :: i in s ==> !src.nodes[i].entry) ==> r.entry == dst.entry)
  }

  /** Adds the nodes of `src` listed in `s`, in an order the model does not
      pin down (Go's map iteration). */
  ghost function AddNodes(dst: Graph, src: Graph, s: set<NodeId>): (r: Result<Graph>)
    requires Coherent(dst) && Transplantable(src) && s <= src.nodes.Keys
    ensures r.Ok? <==> Fits(dst, src, s)
    ensures r.Err? ==> r.error == IdCollision || r.error == DuplicateEntry || r.error == DuplicateNode
    ensures r.Ok? ==> Coherent(r.value) && AddedNodes(dst, src, s, r.value)
    decreases |s|
  {
    if s == {} then Ok(dst)
    else
      var i := Pick(s);
      var d1 :- AddNode(dst, src.nodes[i]);
      FitsStep(dst, src, s, i, d1);
      var r := AddNodes(d1, src, s - {i});
      if r.Ok? then
        AddedNodesStep(dst, src, s, i, d1, r.value);
        r
      else r
  }

  lemma AddedNodesStep(dst: Graph, src: Graph, s: set<NodeId>, i: NodeId, d1: Graph, r: Graph)
    requires Coherent(dst) && Transplantable(src) && s <= src.nodes.Keys && i in s
    requires AddNode(dst, src.nodes[i]) == Ok(d1)
    requires AddedNodes(d1, src, s - {i}, r)
    ensures AddedNodes(dst, src, s, r)
  {
    assert forall j :: j in s && j != i ==> j in s - {i};
    if src.nodes[i].entry {
      assert forall j :: j in s - {i} ==> !src.nodes[j].entry;
    }
  }

  /** `r` is `dst` with the edges of `es` taken from `src`. */
  ghost predicate AddedEdges(dst: Graph, src: Graph, es: set<(NodeId, NodeId)>, r: Graph)
    requires es <= src.edges.Keys
  {
    && r == dst.(edges := r.edges)
    && r.edges.Keys == dst.edges.Keys + es
    && forall e :: e in r.edges ==> r.edges[e] == if e in es then src.edges[e] else dst.edges[e]
  }

  /** Records the edges of `src` listed in `es`, whose endpoints are already
      nodes of `dst`. */
  ghost function SetEdges(dst: Graph, src: Graph, es: set<(NodeId, NodeId)>): (r: Graph)
    requires Coherent(dst) && WellKeyed(src) && EdgesClosed(src) && es <= src.edges.Keys
    requires forall e :: e in es ==> e.0 in dst.nodes && e.1 in dst.nodes
    ensures Coherent(r) && AddedEdges(dst, src, es, r)
    decreases |es|
  {
    if es == {} then dst
    else
      var e := Pick(es);
      assert src.nodes[e.0].id == e.0 && src.nodes[e.1].id == e.1;
      var d1 := SetEdge(dst, src.nodes[e.0], src.nodes[e.1], src.edges[e]).value;
      var r := SetEdges(d1, src, es - {e});
      AddedEdgesStep(dst, src, es, e, d1, r);
      r
  }

  lemma AddedEdgesStep(dst: Graph, src: Graph, es: set<(NodeId, NodeId)>, e: (NodeId, NodeId), d1: Graph, r: Graph)
    requires es <= src.edges.Keys && e in es
    requires d1 == dst.(edges := dst.edges[e := src.edges[e]])
    requires AddedEdges(d1, src, es - {e}, r)
    ensures AddedEdges(dst, src, es, r)
  {
    assert forall x :: x in es && x != e ==> x in es - {e};
  }

  /** Copy: moves the graph id, every node and every edge of `src` into `dst`
      (which keeps what it had) and rebuilds the name index. It fails on a
      node id or a node name the two graphs share, and when both have an
      entry. */
  ghost function Copy(dst: Graph, src: Graph): (r: Result<Graph>)
    requires Valid(dst) && Valid(src)
    ensures r.Ok? <==> CopyFits(dst, src)
    ensures r.Err? ==> r.error == IdCollision || r.error == DuplicateEntry || r.error == DuplicateNode
    ensures r.Ok? ==> Copied(dst, src, r.value)
  {
    ValidTransplantable(src);
    var d0 := dst.(id := src.id);
    FitsIff(dst, src);
    var d1 :- AddNodes(d0, src, src.nodes.Keys);
    var d2 := SetEdges(d1, src, src.edges.Keys);
    CopiedNamesUnique(dst, src, d2);
    var r := InitNodes(d2);
    CopiedResult(dst, src, d1, d2, r.value);
    r
  }

  /** The source's node ids and names are new to the destination, and not
      both graphs have an entry. */
  ghost predicate CopyFits(dst: Graph, src: Graph) {
    && dst.nodes.Keys !! src.nodes.Keys
    && NodeNames(dst) !! NodeNames(src)
    && !(dst.entry.Some? && src.entry.Some?)
  }

  /** `r` holds both graphs: the source's id, the nodes and edges of both
      (the source's where they overlap), the source's entry if it has one
      and the destination's otherwise, and a complete name index. */
  ghost predicate Copied(dst: Graph, src: Graph, r: Graph) {
    && Valid(r) && r.id == src.id
    && r.nodes.Keys == dst.nodes.Keys + src.nodes.Keys
    && (forall i :: i in r.nodes ==> r.nodes[i] == if i in src.nodes then src.nodes[i] else dst.nodes[i])
    && r.edges.Keys == dst.edges.Keys + src.edges.Keys
    && (forall e :: e in r.edges ==> r.edges[e] == if e in src.edges then src.edges[e] else dst.edges[e])
    && r.entry == if src.entry.Some? then src.entry else dst.entry
  }

  lemma FitsIff(dst: Graph, src: Graph)
    requires Valid(dst) && Valid(src)
    ensures Fits(dst.(id := src.id), src, src.nodes.Keys) <==> CopyFits(dst, src)
  {
    var d0 := dst.(id := src.id);
    FitsNames(dst, src);
    FitsEntry(dst, src);
    assert Fits(d0, src, src.nodes.Keys) <==>
      && (forall i :: i in src.nodes ==> i !in dst.nodes)
      && (forall i :: i in src.nodes ==> src.nodes[i].name !in dst.names)
      && (dst.entry.Some? ==> forall i :: i in src.nodes ==> !src.nodes[i].entry);
  }

  lemma FitsNames(dst: Graph, src: Graph)
    requires Valid(dst)
    ensures (forall i :: i in src.nodes ==> src.nodes[i].name !in dst.names) <==> NodeNames(dst) !! NodeNames(src)
  {
    if NodeNames(dst) !! NodeNames(src) {
      forall i | i in src.nodes
        ensures src.nodes[i].name !in dst.names
      {
        NameOfNode(src, i);
        if src.nodes[i].name in dst.names {
          NameOfNode(dst, dst.names[src.nodes[i].name]);
        }
      }
    }
    if forall i :: i in src.nodes ==> src.nodes[i].name !in dst.names {
      forall nm | nm in NodeNames(dst)
        ensures nm !in NodeNames(src)
      {
      }
    }
  }

  lemma FitsEntry(dst: Graph, src: Graph)
    requires EntryConsistent(src)
    ensures (dst.entry.Some? ==> forall i :: i in src.nodes ==> !src.nodes[i].entry)
      <==> !(dst.entry.Some? && src.entry.Some?)
  {
    if src.entry.Some? {
      EntryFlagged(src);
      var e := src.entry.value;
      assert e in src.nodes && src.nodes[e].entry;
    }
  }

  /** After adding the nodes, the union of the two graphs has unique names. */
  lemma CopiedNamesUnique(dst: Graph, src: Graph, d: Graph)
    requires Valid(dst) && Transplantable(src)
    requires Fits(dst.(id := src.id), src, src.nodes.Keys)
    requires d.nodes.Keys == dst.nodes.Keys + src.nodes.Keys
    requires forall i :: i in d.nodes ==> d.nodes[i] == if i in src.nodes then src.nodes[i] else dst.nodes[i]
    ensures NamesUnique(d)
  {
    forall i, j | i in d.nodes && j in d.nodes && i != j
      ensures d.nodes[i].name != d.nodes[j].name
    {
      if i in dst.nodes && j in dst.nodes {
        assert dst.names[dst.nodes[i].name] == i && dst.names[dst.nodes[j].name] == j;
      }
    }
  }

  lemma CopiedResult(dst: Graph, src: Graph, d1: Graph, d2: Graph, r: Graph)
    requires EntryConsistent(src)
    requires AddedNodes(dst.(id := src.id), src, src.nodes.Keys, d1)
    requires AddedEdges(d1, src, src.edges.Keys, d2)
    requires Valid(r) && r == d2.(names := r.names)
    ensures Copied(dst, src, r)
  {
    if src.entry.Some? {
      EntryFlagged(src);
      var e := src.entry.value;
      assert e in src.nodes.Keys && src.nodes[e].entry;
      assert d1.entry == Some(e);
    } else {
      assert forall i :: i in src.nodes ==> !src.nodes[i].entry;
    }
  }

  /** Copying into a new graph gives back the source graph. */
  lemma CopyIntoEmpty(src: Graph)
    requires Valid(src)
    ensures Copy(NewGraph(), src) == Ok(src)
  {
    var e := NewGraph();
    assert NodeNames(e) == {};
    assert CopyFits(e, src);
    CopiedFromEmpty(src, Copy(e, src).value);
  }

  lemma CopiedFromEmpty(src: Graph, r: Graph)
    requires Valid(src) && Copied(NewGraph(), src, r)
    ensures r == src
  {
    assert forall i :: i in r.nodes <==> i in src.nodes;
    forall i | i in r.nodes
      ensures r.nodes[i] == src.nodes[i]
    {
      assert i in src.nodes;
    }
    SameEntries(r.nodes, src.nodes);
    assert forall e :: e in r.edges <==> e in src.edges;
    SameEntries(r.edges, src.edges);
    SameNodesSameIndex(r, src);
  }



  /** Two valid graphs with the same nodes have the same name index. */
  lemma SameNodesSameIndex(g: Graph, h: Graph)
    requires Valid(g) && Valid(h) && g.nodes == h.nodes
    ensures g.names == h.names
  {
    forall nm | nm in g.names
      ensures nm in h.names && h.names[nm] == g.names[nm]
    {
      var i := g.names[nm];
      assert h.names[h.nodes[i].name] == i;
    }
    forall nm | nm in h.names
      ensures nm in g.names
    {
      var i := h.names[nm];
      assert g.names[g.nodes[i].name] == i;
    }
  }
}
