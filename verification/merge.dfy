/** Collapsing a set of named nodes into one new node. */
module Merging {
  import opened Wrappers
  import opened Sorting
  import opened Cfg
  import opened Copying

  /** What the removal loop carries: the graph, the predecessors recorded so
      far with the attributes of an edge from each, the successors recorded so
      far, and whether an entry node was removed. */
  datatype Gathered = Gathered(g: Graph, preds: map<NodeId, Attrs>, succs: set<NodeId>, entry: bool)

  lemma PredEdges(g: Graph, d: NodeId)
    ensures forall p :: p in Preds(g, d) ==> (p, d) in g.edges
    ensures forall s :: s in Succs(g, d) ==> (d, s) in g.edges
  {
  }

  /** Predecessors of `d` whose names are not being merged, each with the
      attributes of its edge into `d`. */
  ghost function PredsOf(g: Graph, d: NodeId, del: set<string>): (m: map<NodeId, Attrs>)
    requires EdgesClosed(g)
    ensures forall p :: p in m <==> (p, d) in g.edges && g.nodes[p].name !in del
    ensures forall p :: p in m ==> m[p] == g.edges[(p, d)]
  {
    PredEdges(g, d);
    map p | p in Preds(g, d) && g.nodes[p].name !in del :: g.edges[(p, d)]
  }

  /** Successors of `d` whose names are not being merged. */
  ghost function SuccsOf(g: Graph, d: NodeId, del: set<string>): (s: set<NodeId>)
    requires EdgesClosed(g)
    ensures forall x :: x in s <==> (d, x) in g.edges && g.nodes[x].name !in del
  {
    PredEdges(g, d);
    set x | x in Succs(g, d) && g.nodes[x].name !in del
  }

  /** The removal loop: for each name of `todo`, in an order the model does
      not pin down, looks the node up (failing when it is absent), records its
      outside predecessors and successors and whether it is the entry, and
      removes it. */
  ghost function Collapse(c: Gathered, del: set<string>, todo: set<string>): (r: Result<Gathered>)
    requires Valid(c.g)
    ensures r.Ok? ==> Valid(r.value.g)
    ensures r.Err? ==> r.error == MissingNode
    decreases |todo|
  {
    if todo == {} then Ok(c)
    else
      var name := Pick(todo);
      var d :- MustNodeWithName(c.g, name);
      var c' := Gathered(RemoveNode(c.g, d.id),
                         c.preds + PredsOf(c.g, d.id, del),
                         c.succs + SuccsOf(c.g, d.id, del),
                         c.entry || d.entry);
      Collapse(c', del, todo - {name})
  }

  /** `r` is `g` with an edge from each node of `todo` to `n`, carrying the
      attributes `preds` records for it. */
  ghost predicate PredsLinked(g: Graph, preds: map<NodeId, Attrs>, n: NodeId, todo: set<NodeId>, r: Graph)
    requires todo <= preds.Keys
  {
    && r == g.(edges := r.edges)
    && (forall e :: e in r.edges <==> e in g.edges || (e.1 == n && e.0 in todo))
    && (forall e :: e in r.edges ==> r.edges[e] == if e.1 == n && e.0 in todo then preds[e.0] else g.edges[e])
  }

  /** Adds an edge from each recorded predecessor to `n`, with the recorded
      attributes, in an order the model does not pin down. */
  ghost function LinkPreds(g: Graph, preds: map<NodeId, Attrs>, n: NodeId, todo: set<NodeId>): (r: Graph)
    requires Coherent(g) && n in g.nodes && todo <= preds.Keys
    requires forall p :: p in todo ==> p in g.nodes
    ensures Coherent(r) && PredsLinked(g, preds, n, todo, r)
    decreases |todo|
  {
    if todo == {} then g
    else
      var p := Pick(todo);
      assert g.nodes[p].id == p && g.nodes[n].id == n;
      var g1 := SetEdge(g, g.nodes[p], g.nodes[n], preds[p]).value;
      var r := LinkPreds(g1, preds, n, todo - {p});
      PredsLinkedStep(g, preds, n, todo, p, g1, r);
      r
  }

  lemma PredsLinkedStep(g: Graph, preds: map<NodeId, Attrs>, n: NodeId, todo: set<NodeId>, p: NodeId, g1: Graph, r: Graph)
    requires todo <= preds.Keys && p in todo
    requires g1 == g.(edges := g.edges[(p, n) := preds[p]])
    requires PredsLinked(g1, preds, n, todo - {p}, r)
    ensures PredsLinked(g, preds, n, todo, r)
  {
    assert forall q :: q in todo && q != p ==> q in todo - {p};
  }

  /** `r` is `g` with an edge without attributes from `n` to each node of
      `todo`. */
  ghost predicate SuccsLinked(g: Graph, n: NodeId, todo: set<NodeId>, r: Graph) {
    && r == g.(edges := r.edges)
    && (forall e :: e in r.edges <==> e in g.edges || (e.0 == n && e.1 in todo))
    && (forall e :: e in r.edges ==> r.edges[e] == if e.0 == n && e.1 in todo then map[] else g.edges[e])
  }

  /** Adds an edge without attributes from `n` to each recorded successor. */
  ghost function LinkSuccs(g: Graph, n: NodeId, todo: set<NodeId>): (r: Graph)
    requires Coherent(g) && n in g.nodes
    requires forall s :: s in todo ==> s in g.nodes
    ensures Coherent(r) && SuccsLinked(g, n, todo, r)
    decreases |todo|
  {
    if todo == {} then g
    else
      var s := Pick(todo);
      assert g.nodes[s].id == s && g.nodes[n].id == n;
      var g1 := SetEdge(g, g.nodes[n], g.nodes[s], map[]).value;
      var r := LinkSuccs(g1, n, todo - {s});
      SuccsLinkedStep(g, n, todo, s, g1, r);
      r
  }

  lemma SuccsLinkedStep(g: Graph, n: NodeId, todo: set<NodeId>, s: NodeId, g1: Graph, r: Graph)
    requires s in todo
    requires g1 == g.(edges := g.edges[(n, s) := map[]])
    requires SuccsLinked(g1, n, todo - {s}, r)
    ensures SuccsLinked(g, n, todo, r)
  {
    assert forall q :: q in todo && q != s ==> q in todo - {s};
  }

  // ---------------------------------------------------------------------------
  // What the removal loop gathers

  /** Ids of the nodes of `g` whose names are in `names`. */
  ghost function IdsNamed(g: Graph, names: set<string>): set<NodeId> {
    set i | i in g.nodes && g.nodes[i].name in names
  }

  /** `g` is `src` without the nodes of `gone` and their edges. */
  ghost predicate Trimmed(src: Graph, gone: set<NodeId>, g: Graph) {
    && g.id == src.id
    && g.nodes.Keys == src.nodes.Keys - gone
    && (forall i :: i in g.nodes ==> g.nodes[i] == src.nodes[i])
    && (forall e :: e in g.edges <==> e in src.edges && e.0 !in gone && e.1 !in gone)
    && (forall e :: e in g.edges ==> g.edges[e] == src.edges[e])
    && g.entry == (if src.entry.Some? && src.entry.value in gone then None else src.entry)
  }

  /** Nodes outside `dd` with an edge into `gone`. */
  ghost function PredsInto(src: Graph, gone: set<NodeId>, dd: set<NodeId>): set<NodeId> {
    set e | e in src.edges && e.1 in gone && e.0 !in dd :: e.0
  }

  /** Nodes outside `dd` with an edge from `gone`. */
  ghost function SuccsFrom(src: Graph, gone: set<NodeId>, dd: set<NodeId>): set<NodeId> {
    set e | e in src.edges && e.0 in gone && e.1 !in dd :: e.1
  }

  /** Attributes of the edges from `p` into `gone`. */
  ghost function AttrsInto(src: Graph, p: NodeId, gone: set<NodeId>): set<Attrs> {
    set e | e in src.edges && e.0 == p && e.1 in gone :: src.edges[e]
  }

  /** The state of the removal loop once the nodes of `gone` (among the
      nodes `dd` to merge) are removed. */
  ghost predicate Progress(src: Graph, dd: set<NodeId>, gone: set<NodeId>, c: Gathered) {
    && Trimmed(src, gone, c.g)
    && c.preds.Keys == PredsInto(src, gone, dd)
    && (forall p :: p in c.preds ==> c.preds[p] in AttrsInto(src, p, gone))
    && c.succs == SuccsFrom(src, gone, dd)
    && (c.entry <==> src.entry.Some? && src.entry.value in gone)
  }

  lemma TrimmedStep(src: Graph, gone: set<NodeId>, g: Graph, d: NodeId)
    requires Valid(g) && Trimmed(src, gone, g) && d in g.nodes
    ensures Trimmed(src, gone + {d}, RemoveNode(g, d))
  {
  }

  lemma PredsStep(src: Graph, del: set<string>, dd: set<NodeId>, gone: set<NodeId>, g: Graph,
                  preds: map<NodeId, Attrs>, d: NodeId)
    requires EdgesClosed(src) && EdgesClosed(g) && Trimmed(src, gone, g)
    requires dd == IdsNamed(src, del) && gone <= dd && d in g.nodes
    requires preds.Keys == PredsInto(src, gone, dd)
    requires forall p :: p in preds ==> preds[p] in AttrsInto(src, p, gone)
    ensures (preds + PredsOf(g, d, del)).Keys == PredsInto(src, gone + {d}, dd)
  {
    var m := PredsOf(g, d, del);
    forall p
      ensures p in (preds + m).Keys <==> p in PredsInto(src, gone + {d}, dd)
    {
      if p in preds {
        var e :| e in src.edges && e.1 in gone && e.0 !in dd && e.0 == p;
        assert e.1 in gone + {d};
      }
      if p in m {
        assert (p, d) in src.edges && p !in dd;
      }
      if p in PredsInto(src, gone + {d}, dd) {
        var e :| e in src.edges && e.1 in gone + {d} && e.0 !in dd && e.0 == p;
        if e.1 !in gone {
          assert e == (p, d) && e in g.edges;
          assert p in g.nodes;
        }
      }
    }
  }

  lemma PredAttrsStep(src: Graph, del: set<string>, gone: set<NodeId>, g: Graph,
                      preds: map<NodeId, Attrs>, d: NodeId)
    requires EdgesClosed(g) && Trimmed(src, gone, g) && d in g.nodes
    requires forall p :: p in preds ==> preds[p] in AttrsInto(src, p, gone)
    ensures forall p :: p in preds + PredsOf(g, d, del) ==>
      (preds + PredsOf(g, d, del))[p] in AttrsInto(src, p, gone + {d})
  {
    var m := PredsOf(g, d, del);
    forall p | p in preds + m
      ensures (preds + m)[p] in AttrsInto(src, p, gone + {d})
    {
      if p in m {
        assert (p, d) in src.edges;
      } else {
        var e :| e in src.edges && e.0 == p && e.1 in gone && src.edges[e] == preds[p];
        assert e.1 in gone + {d};
      }
    }
  }

  lemma SuccsStep(src: Graph, del: set<string>, dd: set<NodeId>, gone: set<NodeId>, g: Graph,
                  succs: set<NodeId>, d: NodeId)
    requires EdgesClosed(src) && EdgesClosed(g) && Trimmed(src, gone, g)
    requires dd == IdsNamed(src, del) && gone <= dd && d in g.nodes
    requires succs == SuccsFrom(src, gone, dd)
    ensures succs + SuccsOf(g, d, del) == SuccsFrom(src, gone + {d}, dd)
  {
    var m := SuccsOf(g, d, del);
    forall s
      ensures s in succs + m <==> s in SuccsFrom(src, gone + {d}, dd)
    {
      if s in succs {
        var e :| e in src.edges && e.0 in gone && e.1 !in dd && e.1 == s;
        assert e.0 in gone + {d};
      }
      if s in m {
        assert (d, s) in src.edges && s !in dd;
      }
      if s in SuccsFrom(src, gone + {d}, dd) {
        var e :| e in src.edges && e.0 in gone + {d} && e.1 !in dd && e.1 == s;
        if e.0 !in gone {
          assert e == (d, s) && e in g.edges;
          assert s in g.nodes;
        }
      }
    }
  }

  /** Looking up the next name to merge succeeds exactly when the name is a
      node of the source graph: nodes removed so far have other names. */
  lemma LookupStep(src: Graph, del: set<string>, todo: set<string>, g: Graph, name: string)
    requires Valid(src) && Valid(g) && todo <= del && name in todo
    requires Trimmed(src, IdsNamed(src, del - todo), g)
    ensures MustNodeWithName(g, name).Ok? <==> name in NodeNames(src)
    ensures MustNodeWithName(g, name).Ok? ==>
      var d := MustNodeWithName(g, name).value;
      && d.id in g.nodes && d == src.nodes[d.id] && d.id in IdsNamed(src, del)
      && IdsNamed(src, del - (todo - {name})) == IdsNamed(src, del - todo) + {d.id}
  {
    var gone := IdsNamed(src, del - todo);
    if name in NodeNames(src) {
      var i :| i in src.nodes && src.nodes[i].name == name;
      assert i !in gone;
      assert name in NodeNames(g);
    }
    var r := MustNodeWithName(g, name);
    if r.Ok? {
      var d := r.value;
      assert d.id in src.nodes;
      forall i
        ensures i in IdsNamed(src, del - (todo - {name})) <==> i in gone + {d.id}
      {
        if i in src.nodes && src.nodes[i].name == name {
          assert src.names[name] == i && src.names[name] == d.id;
        }
      }
    }
  }

  lemma EntryStep(src: Graph, gone: set<NodeId>, entry: bool, d: Node)
    requires EntryConsistent(src) && d.id in src.nodes && src.nodes[d.id] == d
    requires entry <==> src.entry.Some? && src.entry.value in gone
    ensures entry || d.entry <==> src.entry.Some? && src.entry.value in gone + {d.id}
  {
  }

  /** The removal loop fails exactly when a name to merge is not a node of the
      source graph; otherwise it removes every node to merge and gathers
      their outside predecessors and successors and the entry flag. */
  lemma {:induction false} CollapseSpec(src: Graph, del: set<string>, todo: set<string>, c: Gathered)
    requires Valid(src) && Valid(c.g) && todo <= del
    requires Progress(src, IdsNamed(src, del), IdsNamed(src, del - todo), c)
    ensures Collapse(c, del, todo).Ok? <==> todo <= NodeNames(src)
    ensures Collapse(c, del, todo).Ok? ==>
      Progress(src, IdsNamed(src, del), IdsNamed(src, del), Collapse(c, del, todo).value)
    decreases |todo|
  {
    if todo == {} {
      assert del - todo == del;
    } else {
      var name := Pick(todo);
      LookupStep(src, del, todo, c.g, name);
      if MustNodeWithName(c.g, name).Ok? {
        var c' := CollapseStep(src, del, todo, c, name);
        CollapseSpec(src, del, todo - {name}, c');
        NamesDone(src, todo, name);
      }
    }
  }

  lemma NamesDone(src: Graph, todo: set<string>, name: string)
    requires name in todo && name in NodeNames(src)
    ensures todo <= NodeNames(src) <==> todo - {name} <= NodeNames(src)
  {
  }

  /** One round of the removal loop keeps the progress invariant, with one
      more name done. */
  lemma CollapseStep(src: Graph, del: set<string>, todo: set<string>, c: Gathered, name: string)
    returns (c': Gathered)
    requires Valid(src) && Valid(c.g) && todo <= del && name in todo && name == Pick(todo)
    requires Progress(src, IdsNamed(src, del), IdsNamed(src, del - todo), c)
    requires MustNodeWithName(c.g, name).Ok?
    ensures Valid(c'.g)
    ensures Collapse(c, del, todo) == Collapse(c', del, todo - {name})
    ensures Progress(src, IdsNamed(src, del), IdsNamed(src, del - (todo - {name})), c')
  {
    var dd := IdsNamed(src, del);
    var gone := IdsNamed(src, del - todo);
    LookupStep(src, del, todo, c.g, name);
    var d := MustNodeWithName(c.g, name).value;
    c' := Gathered(RemoveNode(c.g, d.id),
                   c.preds + PredsOf(c.g, d.id, del),
                   c.succs + SuccsOf(c.g, d.id, del),
                   c.entry || d.entry);
    assert Collapse(c, del, todo) == Collapse(c', del, todo - {name});
    TrimmedStep(src, gone, c.g, d.id);
    PredsStep(src, del, dd, gone, c.g, c.preds, d.id);
    PredAttrsStep(src, del, gone, c.g, c.preds, d.id);
    SuccsStep(src, del, dd, gone, c.g, c.succs, d.id);
    EntryStep(src, gone, c.entry, d);
  }

  // ---------------------------------------------------------------------------
  // Merge

  /** When Merge succeeds: the new name is not empty, every name to merge is
      a node, and the new name is not the name of a node that stays. */
  ghost predicate MergeAllowed(src: Graph, del: set<string>, newName: string) {
    newName != "" && del <= NodeNames(src) && (newName in del || newName !in NodeNames(src))
  }

  /** `r` is `src` with the nodes `dd` collapsed into the new node `n` named
      `newName`: the other nodes and the edges among them are kept as they
      are; `n` has an edge from each outside predecessor of `dd`, carrying
      the attributes of one of that node's edges into `dd`, and an edge
      without attributes to each outside successor; it has no other edges,
      and it is the entry when an entry node was merged. */
  ghost predicate MergedAt(src: Graph, dd: set<NodeId>, newName: string, n: NodeId, r: Graph) {
    && Valid(r) && r.id == src.id && n !in src.nodes
    && r.nodes.Keys == (src.nodes.Keys - dd) + {n}
    && (forall i :: i in src.nodes && i !in dd ==> r.nodes[i] == src.nodes[i])
    && r.nodes[n].name == newName && r.nodes[n].attrs == map[]
    && r.entry == (if src.entry.Some? && src.entry.value in dd then Some(n) else src.entry)
    && (forall e :: e in r.edges && e.0 != n && e.1 != n ==> e in src.edges && r.edges[e] == src.edges[e])
    && (forall e :: e in src.edges && e.0 !in dd && e.1 !in dd ==> e in r.edges && r.edges[e] == src.edges[e])
    && (forall p :: (p, n) in r.edges <==> p in PredsInto(src, dd, dd))
    && (forall p :: (p, n) in r.edges ==> r.edges[(p, n)] in AttrsInto(src, p, dd))
    && (forall s :: (n, s) in r.edges <==> s in SuccsFrom(src, dd, dd))
    && (forall s :: (n, s) in r.edges ==> r.edges[(n, s)] == map[])
  }

  ghost predicate Merged(src: Graph, del: set<string>, newName: string, r: Graph) {
    newName in r.names && MergedAt(src, IdsNamed(src, del), newName, r.names[newName], r)
  }

  /** Merge: collapses the nodes named in `del` into one new node named
      `newName`, in a copy of `src`. */
  ghost function Merge(src: Graph, del: set<string>, newName: string): (r: Result<Graph>)
    requires Valid(src)
    ensures r.Ok? <==> MergeAllowed(src, del, newName)
    ensures r.Err? ==> r.error == (if newName == "" then InvalidNode
                                   else if !(del <= NodeNames(src)) then MissingNode
                                   else DuplicateNode)
    ensures r.Ok? ==> Merged(src, del, newName, r.value)
  {
    CopyIntoEmpty(src);
    var dst := Copy(NewGraph(), src).value;
    var n :- NewNodeWithName(dst, newName);
    var c0 := Gathered(dst, map[], {}, false);
    StartProgress(src, del);
    CollapseSpec(src, del, del, c0);
    var c :- Collapse(c0, del, del);
    var dd := IdsNamed(src, del);
    SurvivorName(src, del, c.g, newName);
    GatheredWithin(src, dd, c);
    var g1 :- AddNode(c.g, n.(entry := c.entry));
    var g2 := LinkPreds(g1, c.preds, n.id, c.preds.Keys);
    var g3 := LinkSuccs(g2, n.id, c.succs);
    MergedNodes(src, dd, c, n.(entry := c.entry), g1, g3);
    MergedEdges(src, dd, c, n.id, g1, g2, g3);
    Ok(g3)
  }

  lemma StartProgress(src: Graph, del: set<string>)
    requires Valid(src)
    ensures Progress(src, IdsNamed(src, del), IdsNamed(src, del - del), Gathered(src, map[], {}, false))
  {
    assert IdsNamed(src, del - del) == {};
    assert PredsInto(src, {}, IdsNamed(src, del)) == {};
    assert SuccsFrom(src, {}, IdsNamed(src, del)) == {};
  }

  /** The new name is taken after the removals exactly when a node that
      stays has it. */
  lemma SurvivorName(src: Graph, del: set<string>, g: Graph, newName: string)
    requires Valid(src) && Valid(g) && Trimmed(src, IdsNamed(src, del), g)
    ensures newName in g.names <==> newName in NodeNames(src) && newName !in del
  {
    if newName in NodeNames(src) && newName !in del {
      var i :| i in src.nodes && src.nodes[i].name == newName;
      assert i in g.nodes;
    }
    if newName in g.names {
      var i := g.names[newName];
      assert i in g.nodes && src.nodes[i].name == newName;
      NameOfNode(src, i);
    }
  }

  /** The gathered predecessors and successors are nodes that stay; the
      entry is gone when an entry node was merged. */
  lemma GatheredWithin(src: Graph, dd: set<NodeId>, c: Gathered)
    requires EdgesClosed(src) && Progress(src, dd, dd, c)
    ensures forall p :: p in c.preds ==> p in c.g.nodes
    ensures forall s :: s in c.succs ==> s in c.g.nodes
    ensures c.entry ==> c.g.entry.None?
  {
    forall p | p in c.preds
      ensures p in c.g.nodes
    {
      var e :| e in src.edges && e.1 in dd && e.0 !in dd && e.0 == p;
    }
    forall s | s in c.succs
      ensures s in c.g.nodes
    {
      var e :| e in src.edges && e.0 in dd && e.1 !in dd && e.1 == s;
    }
  }

  lemma MergedNodes(src: Graph, dd: set<NodeId>, c: Gathered, n: Node, g1: Graph, g3: Graph)
    requires Valid(c.g) && Progress(src, dd, dd, c) && n.entry == c.entry && n.name != ""
    requires n.id !in src.nodes
    requires AddNode(c.g, n) == Ok(g1)
    requires Coherent(g3) && g3 == g1.(edges := g3.edges)
    ensures Valid(g3) && g3.id == src.id
    ensures n.name in g3.names && g3.names[n.name] == n.id
    ensures g3.nodes.Keys == (src.nodes.Keys - dd) + {n.id}
    ensures forall i :: i in src.nodes && i !in dd ==> g3.nodes[i] == src.nodes[i]
    ensures g3.nodes[n.id] == n
    ensures g3.entry == (if src.entry.Some? && src.entry.value in dd then Some(n.id) else src.entry)
  {
    assert Valid(g1);
  }

  lemma MergedEdges(src: Graph, dd: set<NodeId>, c: Gathered, n: NodeId, g1: Graph, g2: Graph, g3: Graph)
    requires EdgesClosed(src) && Progress(src, dd, dd, c) && n !in src.nodes
    requires g1.edges == c.g.edges
    requires PredsLinked(g1, c.preds, n, c.preds.Keys, g2)
    requires SuccsLinked(g2, n, c.succs, g3)
    ensures forall e :: e in g3.edges && e.0 != n && e.1 != n ==> e in src.edges && g3.edges[e] == src.edges[e]
    ensures forall e :: e in src.edges && e.0 !in dd && e.1 !in dd ==> e in g3.edges && g3.edges[e] == src.edges[e]
    ensures forall p :: (p, n) in g3.edges <==> p in PredsInto(src, dd, dd)
    ensures forall p :: (p, n) in g3.edges ==> g3.edges[(p, n)] in AttrsInto(src, p, dd)
    ensures forall s :: (n, s) in g3.edges <==> s in SuccsFrom(src, dd, dd)
    ensures forall s :: (n, s) in g3.edges ==> g3.edges[(n, s)] == map[]
  {
    assert n !in c.preds && n !in c.succs;
    KeptEdges(src, dd, c, n, g1, g2, g3);
    EdgesIntoNew(src, dd, c, n, g1, g2, g3);
    EdgesFromNew(src, dd, c, n, g1, g2, g3);
  }

  lemma KeptEdges(src: Graph, dd: set<NodeId>, c: Gathered, n: NodeId, g1: Graph, g2: Graph, g3: Graph)
    requires EdgesClosed(src) && Trimmed(src, dd, c.g) && n !in src.nodes
    requires c.preds.Keys <= src.nodes.Keys
    requires g1.edges == c.g.edges
    requires PredsLinked(g1, c.preds, n, c.preds.Keys, g2)
    requires SuccsLinked(g2, n, c.succs, g3)
    ensures forall e :: e in g3.edges && e.0 != n && e.1 != n ==> e in src.edges && g3.edges[e] == src.edges[e]
    ensures forall e :: e in src.edges && e.0 !in dd && e.1 !in dd ==> e in g3.edges && g3.edges[e] == src.edges[e]
  {
  }

  lemma EdgesIntoNew(src: Graph, dd: set<NodeId>, c: Gathered, n: NodeId, g1: Graph, g2: Graph, g3: Graph)
    requires EdgesClosed(src) && Trimmed(src, dd, c.g) && n !in src.nodes && n !in c.succs && n !in c.preds
    requires c.preds.Keys == PredsInto(src, dd, dd)
    requires forall p :: p in c.preds ==> c.preds[p] in AttrsInto(src, p, dd)
    requires g1.edges == c.g.edges
    requires PredsLinked(g1, c.preds, n, c.preds.Keys, g2)
    requires SuccsLinked(g2, n, c.succs, g3)
    ensures forall p :: (p, n) in g3.edges <==> p in PredsInto(src, dd, dd)
    ensures forall p :: (p, n) in g3.edges ==> g3.edges[(p, n)] in AttrsInto(src, p, dd)
  {
    forall p
      ensures (p, n) in g3.edges <==> p in c.preds
    {
    }
  }

  lemma EdgesFromNew(src: Graph, dd: set<NodeId>, c: Gathered, n: NodeId, g1: Graph, g2: Graph, g3: Graph)
    requires EdgesClosed(src) && Trimmed(src, dd, c.g) && n !in src.nodes && n !in c.preds
    requires g1.edges == c.g.edges
    requires PredsLinked(g1, c.preds, n, c.preds.Keys, g2)
    requires SuccsLinked(g2, n, c.succs, g3)
    ensures forall s :: (n, s) in g3.edges <==> s in c.succs
    ensures forall s :: (n, s) in g3.edges ==> g3.edges[(n, s)] == map[]
  {
    forall s
      ensures (n, s) in g3.edges <==> s in c.succs
    {
    }
  }

  /** After a merge the graph's names are the names of `src` with the merged
      names replaced by the new one. */
  lemma MergeNames(src: Graph, del: set<string>, newName: string)
    requires Valid(src) && MergeAllowed(src, del, newName)
    ensures Merge(src, del, newName).Ok?
    ensures NodeNames(Merge(src, del, newName).value) == (NodeNames(src) - del) + {newName}
  {
    var r := Merge(src, del, newName).value;
    MergedNames(src, del, newName, r);
  }

  lemma MergedNames(src: Graph, del: set<string>, newName: string, r: Graph)
    requires Merged(src, del, newName, r)
    ensures NodeNames(r) == (NodeNames(src) - del) + {newName}
  {
    var dd := IdsNamed(src, del);
    var n := r.names[newName];
    assert MergedAt(src, dd, newName, n, r);
    forall nm | nm in NodeNames(r)
      ensures nm in (NodeNames(src) - del) + {newName}
    {
      var i :| i in r.nodes && r.nodes[i].name == nm;
      if i != n {
        assert i in src.nodes && i !in dd;
      }
    }
    forall nm | nm in (NodeNames(src) - del) + {newName}
      ensures nm in NodeNames(r)
    {
      if nm != newName {
        var i :| i in src.nodes && src.nodes[i].name == nm;
        assert i !in dd && r.nodes[i] == src.nodes[i];
      } else {
        assert r.nodes[n].name == nm;
      }
    }
  }
}
