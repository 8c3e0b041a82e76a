/** Depth first search numbering of a control flow graph, and the sorts by
    DOT id and by that numbering. */
module Traversal {
  import opened Wrappers
  import opened Strings
  import opened Sorting
  import opened Cfg

  // ---------------------------------------------------------------------------
  // Sorting by DOT id

  /** The names of the nodes, by id. */
  function NameOf(g: Graph): (names: map<NodeId, string>)
    ensures names.Keys == g.nodes.Keys
  {
    map i | i in g.nodes :: g.nodes[i].name
  }

  /** Sort key of a node id: the natural order of its name. */
  function DotIdKey(names: map<NodeId, string>): NodeId -> seq<Token> {
    i => if i in names then NatKey(names[i]) else []
  }

  /** Node ids in natural order of their names; ties keep their order. */
  function SortByDotId(names: map<NodeId, string>, ids: seq<NodeId>): (r: seq<NodeId>)
    ensures multiset(r) == multiset(ids)
    ensures forall i, j :: 0 <= i < j < |r| && r[i] in names && r[j] in names ==>
      !NatLess(names[r[j]], names[r[i]])
  {
    var r := SortBy(ids, DotIdKey(names));
    SortByPerm(ids, DotIdKey(names));
    SortBySorted(ids, DotIdKey(names));
    assert forall i :: 0 <= i < |r| && r[i] in names ==> DotIdKey(names)(r[i]) == NatKey(names[r[i]]);
    r
  }

  ghost predicate NamesDistinct(names: map<NodeId, string>, s: set<NodeId>) {
    forall i, j :: i in s && j in s && i != j ==> i in names && j in names && names[i] != names[j]
  }

  /** A set of node ids in natural order of their names. */
  ghost function Ordered(names: map<NodeId, string>, s: set<NodeId>): (r: seq<NodeId>)
    ensures |r| == |s|
    ensures forall x :: x in r <==> x in s
    ensures forall k :: 0 <= k < |r| ==> r[k] in s
  {
    var es := Elements(s);
    var r := SortBy(es, DotIdKey(names));
    SortByPerm(es, DotIdKey(names));
    assert |r| == |multiset(r)| == |multiset(es)| == |es|;
    assert forall x :: x in r <==> x in multiset(r);
    assert forall x :: x in es <==> x in multiset(es);
    r
  }

  /** With distinct names the order does not depend on how the set was
      listed: sorting any listing of it gives the same sequence. */
  lemma OrderedUnique(names: map<NodeId, string>, s: set<NodeId>, xs: seq<NodeId>)
    requires NamesDistinct(names, s)
    requires |xs| == |s| && forall x :: x in xs <==> x in s
    ensures SortByDotId(names, xs) == Ordered(names, s)
  {
    var key := DotIdKey(names);
    var a, b := SortByDotId(names, xs), Ordered(names, s);
    assert |a| == |multiset(a)| == |multiset(xs)| == |xs|;
    assert forall x :: x in a <==> x in multiset(a);
    assert forall x :: x in xs <==> x in multiset(xs);
    SortBySorted(xs, key);
    assert a == SortBy(xs, key);
    StrictFromDistinct(names, s, a);
    OrderedSorted(names, s);
    StrictFromDistinct(names, s, b);
    StrictlySortedUnique(a, b, key);
  }

  /** The order of a set follows the natural order of the names. */
  lemma OrderedSorted(names: map<NodeId, string>, s: set<NodeId>)
    ensures SortedBy(Ordered(names, s), DotIdKey(names))
  {
    SortBySorted(Elements(s), DotIdKey(names));
  }

  lemma StrictFromDistinct(names: map<NodeId, string>, s: set<NodeId>, a: seq<NodeId>)
    requires NamesDistinct(names, s)
    requires |a| == |s| && forall x :: x in a <==> x in s
    requires SortedBy(a, DotIdKey(names))
    ensures StrictlySortedBy(a, DotIdKey(names))
  {
    var key := DotIdKey(names);
    assert forall x :: x in a <==> x in s;
    DistinctBySize(a, s);
    forall p, q | 0 <= p < q < |a|
      ensures key(a[p]) != key(a[q])
    {
      assert a[p] != a[q] && a[p] in s && a[q] in s;
      if key(a[p]) == key(a[q]) {
        NatKeyInjective(names[a[p]], names[a[q]]);
      }
    }
    SortedDistinctIsStrict(a, key);
  }

  /** A listing of a set as long as the set has no repeats. */
  lemma DistinctBySize(a: seq<NodeId>, s: set<NodeId>)
    requires |a| == |s| && forall x :: x in a <==> x in s
    ensures forall p, q :: 0 <= p < q < |a| ==> a[p] != a[q]
  {
    forall p, q | 0 <= p < q < |a|
      ensures a[p] != a[q]
    {
      if a[p] == a[q] {
        var rest := a[..q] + a[q + 1..];
        assert a == a[..q] + [a[q]] + a[q + 1..];
        assert forall x :: x in s ==> x in rest by {
          forall x | x in s
            ensures x in rest
          {
            var k :| 0 <= k < |a| && a[k] == x;
            if k < q {
              assert rest[k] == x;
            } else if k == q {
              assert rest[p] == x;
            } else {
              assert rest[k - 1] == x;
            }
          }
        }
        SetWithin(s, rest);
        assert false;
      }
    }
  }

  /** A set all of whose members appear in a list is no larger than it. */
  lemma SetWithin(s: set<NodeId>, xs: seq<NodeId>)
    requires forall x :: x in s ==> x in xs
    ensures |s| <= |xs|
  {
    var t := set x | x in xs;
    forall x | x in s
      ensures x in t
    {
      assert x in xs;
    }
    SeqSetSize(xs);
    SubsetSize(s, t);
  }

  lemma {:induction false} SeqSetSize(xs: seq<NodeId>)
    ensures |set x | x in xs| <= |xs|
    decreases |xs|
  {
    if xs != [] {
      SeqSetSize(xs[1..]);
      assert (set x | x in xs) == {xs[0]} + set x | x in xs[1..];
    }
  }

  lemma {:induction false} SubsetSize(s: set<NodeId>, t: set<NodeId>)
    requires s <= t
    ensures |s| <= |t|
    decreases |t|
  {
    if s != {} {
      var x := Pick(s);
      SubsetSize(s - {x}, t - {x});
    }
  }

  // ---------------------------------------------------------------------------
  // Depth first search

  /** The successors of every node, in the order the search visits them. */
  ghost function Adj(g: Graph): (adj: map<NodeId, seq<NodeId>>)
    requires EdgesClosed(g)
    ensures AdjOk(g.nodes.Keys, adj)
  {
    var names := NameOf(g);
    var adj := map u | u in g.nodes :: Ordered(names, Succs(g, u));
    forall u, k | u in adj && 0 <= k < |adj[u]|
      ensures adj[u][k] in g.nodes
    {
      SuccsWithin(g, u, adj[u][k]);
    }
    adj
  }

  /** Every edge shows up in the successor list of its source. */
  lemma AdjHasEdge(g: Graph, u: NodeId, v: NodeId)
    requires EdgesClosed(g) && (u, v) in g.edges
    ensures u in Adj(g) && v in Adj(g)[u]
  {
    SuccsMember(g, u, v);
  }

  lemma SuccsWithin(g: Graph, u: NodeId, v: NodeId)
    requires EdgesClosed(g) && v in Succs(g, u)
    ensures v in g.nodes
  {
  }

  lemma SuccsMember(g: Graph, u: NodeId, v: NodeId)
    requires (u, v) in g.edges
    ensures v in Succs(g, u)
  {
    var e := (u, v);
    assert e in g.edges && e.0 == u;
  }

  /** Every node has a successor list, whose members are nodes. */
  ghost predicate AdjOk(ids: set<NodeId>, adj: map<NodeId, seq<NodeId>>) {
    adj.Keys == ids && forall u, k :: u in adj && 0 <= k < |adj[u]| ==> adj[u][k] in ids
  }

  /** Progress of the search: the nodes visited so far, in the order they
      were first reached, and the nodes finished so far, in the order they
      were finished. A node's preorder number is its position in the first
      list; its reverse postorder number counts the second from the end of
      the numbering, n-1 for the first node finished. */
  datatype State = State(preorder: seq<NodeId>, postorder: seq<NodeId>)

  /** `x` is the node `st` finished last. */
  ghost predicate FinishesLast(st: State, x: NodeId)
  {
    |st.postorder| > 0 && st.postorder[|st.postorder| - 1] == x
  }

  /** No node is listed twice: every member sits at its first position. */
  ghost predicate Distinct(xs: seq<NodeId>) {
    forall i :: 0 <= i < |xs| ==> IndexOf(xs, xs[i]) == i
  }

  lemma DistinctPairs(xs: seq<NodeId>)
    requires Distinct(xs)
    ensures forall i, j :: 0 <= i < j < |xs| ==> xs[i] != xs[j]
  {
  }

  lemma PairsDistinct(xs: seq<NodeId>)
    requires forall i, j :: 0 <= i < j < |xs| ==> xs[i] != xs[j]
    ensures Distinct(xs)
  {
  }

  /** A list without repeats drawn from a set is no longer than the set. */
  lemma {:induction false} DistinctWithin(xs: seq<NodeId>, s: set<NodeId>)
    requires Distinct(xs) && forall k :: 0 <= k < |xs| ==> xs[k] in s
    ensures |xs| <= |s|
    decreases |xs|
  {
    if xs != [] {
      var s' := s - {xs[0]};
      forall k | 0 <= k < |xs[1..]|
        ensures xs[1..][k] in s'
      {
        assert xs[1..][k] == xs[k + 1] != xs[0];
      }
      DistinctWithin(xs[1..], s');
    }
  }

  /** Visited nodes are nodes, finished nodes were visited, nothing twice,
      and a finished node's successors have all been visited. */
  ghost predicate Inv(ids: set<NodeId>, adj: map<NodeId, seq<NodeId>>, st: State) {
    && Distinct(st.preorder) && (forall k :: 0 <= k < |st.preorder| ==> st.preorder[k] in ids)
    && Distinct(st.postorder) && (forall k :: 0 <= k < |st.postorder| ==> st.postorder[k] in st.preorder)
    && forall k, j :: 0 <= k < |st.postorder| && st.postorder[k] in adj && 0 <= j < |adj[st.postorder[k]]| ==>
         adj[st.postorder[k]][j] in st.preorder
  }

  /** `r` comes later in the same search than `st`: both lists only grew,
      and every node visited in between has been finished. */
  ghost predicate Extends(st: State, r: State) {
    && |st.preorder| <= |r.preorder| && r.preorder[..|st.preorder|] == st.preorder
    && |st.postorder| <= |r.postorder| && r.postorder[..|st.postorder|] == st.postorder
    && forall x :: x in r.postorder[|st.postorder|..] <==> x in r.preorder[|st.preorder|..]
  }

  lemma ExtendsTrans(a: State, b: State, c: State)
    requires Extends(a, b) && Extends(b, c)
    ensures Extends(a, c)
  {
    assert c.preorder[..|a.preorder|] == c.preorder[..|b.preorder|][..|a.preorder|];
    assert c.postorder[..|a.postorder|] == c.postorder[..|b.postorder|][..|a.postorder|];
    assert c.preorder[|a.preorder|..] == b.preorder[|a.preorder|..] + c.preorder[|b.preorder|..];
    assert c.postorder[|a.postorder|..] == b.postorder[|a.postorder|..] + c.postorder[|b.postorder|..];
  }

  /** Visits `n`, then its unvisited successors in DOT id order, then
      finishes `n`. */
  ghost function Walk(ids: set<NodeId>, adj: map<NodeId, seq<NodeId>>, n: NodeId, st: State): (r: State)
    requires AdjOk(ids, adj) && Inv(ids, adj, st) && n in ids && n !in st.preorder
    ensures Inv(ids, adj, r) && Extends(st, r)
    ensures |r.preorder| > |st.preorder| && r.preorder[|st.preorder|] == n
    ensures |r.postorder| > 0 && r.postorder[|r.postorder| - 1] == n
    decreases |ids| - |st.preorder|, 0
  {
    var st1 := st.(preorder := st.preorder + [n]);
    DistinctWithin(st1.preorder, ids);
    var st2 := WalkList(ids, adj, adj[n], st1);
    var r := st2.(postorder := st2.postorder + [n]);
    WalkStep(ids, adj, n, st, st1, st2, r);
    r
  }

  lemma WalkStep(ids: set<NodeId>, adj: map<NodeId, seq<NodeId>>, n: NodeId, st: State, st1: State, st2: State, r: State)
    requires AdjOk(ids, adj) && Inv(ids, adj, st) && n in ids && n !in st.preorder
    requires st1 == st.(preorder := st.preorder + [n])
    requires Inv(ids, adj, st2) && Extends(st1, st2)
    requires forall k :: 0 <= k < |adj[n]| ==> adj[n][k] in st2.preorder
    requires r == st2.(postorder := st2.postorder + [n])
    ensures Inv(ids, adj, r) && Extends(st, r)
    ensures |r.preorder| > |st.preorder| && r.preorder[|st.preorder|] == n
  {
    WalkStepExtends(n, st, st1, st2, r);
    NotYetFinished(ids, adj, n, st, st1, st2);
    DistinctSnoc(st2.postorder, n);
    assert n in st2.preorder by { assert st2.preorder[|st.preorder|] == n; }
  }

  /** Finishing `n` after walking its successors extends the search. */
  lemma WalkStepExtends(n: NodeId, st: State, st1: State, st2: State, r: State)
    requires st1 == st.(preorder := st.preorder + [n])
    requires Extends(st1, st2)
    requires r == st2.(postorder := st2.postorder + [n])
    ensures Extends(st, r)
    ensures |r.preorder| > |st.preorder| && r.preorder[|st.preorder|] == n
  {
    var m := |st.preorder|;
    assert r.preorder[m] == r.preorder[..|st1.preorder|][m] == n;
    assert r.preorder[..m] == r.preorder[..|st1.preorder|][..m];
    assert r.preorder[m..] == [n] + st2.preorder[|st1.preorder|..];
    assert r.postorder[..|st.postorder|] == st2.postorder[..|st1.postorder|];
    assert r.postorder[|st.postorder|..] == st2.postorder[|st1.postorder|..] + [n];
  }

  /** The node being walked has not been finished before its walk ends. */
  lemma NotYetFinished(ids: set<NodeId>, adj: map<NodeId, seq<NodeId>>, n: NodeId, st: State, st1: State, st2: State)
    requires Inv(ids, adj, st) && n !in st.preorder
    requires st1 == st.(preorder := st.preorder + [n])
    requires Inv(ids, adj, st2) && Extends(st1, st2)
    ensures n !in st2.postorder
  {
    var m := |st.preorder|;
    assert st2.preorder[m] == st2.preorder[..|st1.preorder|][m] == n;
    DistinctPairs(st2.preorder);
    forall k | 0 <= k < |st2.postorder|
      ensures st2.postorder[k] != n
    {
      if k < |st1.postorder| {
        assert st2.postorder[k] == st2.postorder[..|st1.postorder|][k] == st.postorder[k];
      } else {
        assert st2.postorder[k] == st2.postorder[|st1.postorder|..][k - |st1.postorder|];
        var x := st2.postorder[k];
        assert x in st2.preorder[|st1.preorder|..];
        var j :| 0 <= j < |st2.preorder[|st1.preorder|..]| && st2.preorder[|st1.preorder|..][j] == x;
        assert st2.preorder[j + |st1.preorder|] == x;
      }
    }
  }

  lemma DistinctSnoc(xs: seq<NodeId>, x: NodeId)
    requires Distinct(xs) && x !in xs
    ensures Distinct(xs + [x])
  {
    DistinctPairs(xs);
    var ys := xs + [x];
    forall i, j | 0 <= i < j < |ys|
      ensures ys[i] != ys[j]
    {
      assert ys[i] == xs[i];
      if j < |xs| {
        assert ys[j] == xs[j];
      }
    }
    PairsDistinct(ys);
  }

  /** Walks each not yet visited node of `ns`, in order. */
  ghost function WalkList(ids: set<NodeId>, adj: map<NodeId, seq<NodeId>>, ns: seq<NodeId>, st: State): (r: State)
    requires AdjOk(ids, adj) && Inv(ids, adj, st)
    requires forall k :: 0 <= k < |ns| ==> ns[k] in ids
    ensures Inv(ids, adj, r) && Extends(st, r)
    ensures forall k :: 0 <= k < |ns| ==> ns[k] in r.preorder
    decreases |ids| - |st.preorder|, 1, |ns|
  {
    DistinctWithin(st.preorder, ids);
    if ns == [] then
      assert st.preorder[..|st.preorder|] == st.preorder && st.postorder[..|st.postorder|] == st.postorder;
      st
    else
      var st' := if ns[0] in st.preorder then st else Walk(ids, adj, ns[0], st);
      var r := WalkList(ids, adj, ns[1..], st');
      WalkListStep(st, st', r, ns);
      r
  }

  lemma WalkListStep(st: State, st': State, r: State, ns: seq<NodeId>)
    requires ns != []
    requires st' == st || Extends(st, st')
    requires Extends(st', r) && ns[0] in st'.preorder
    requires forall k :: 0 <= k < |ns[1..]| ==> ns[1..][k] in r.preorder
    ensures Extends(st, r)
    ensures forall k :: 0 <= k < |ns| ==> ns[k] in r.preorder
  {
    if st' == st {
      assert Extends(st, r);
    } else {
      ExtendsTrans(st, st', r);
    }
    assert ns[0] in r.preorder by {
      assert r.preorder == r.preorder[..|st'.preorder|] + r.preorder[|st'.preorder|..];
    }
    forall k | 1 <= k < |ns|
      ensures ns[k] in r.preorder
    {
      assert ns[k] == ns[1..][k - 1];
    }
  }

  /** `xs` lists the set `s`, each member once. */
  ghost predicate Lists(xs: seq<NodeId>, s: set<NodeId>) {
    && Distinct(xs) && |xs| == |s|
    && (forall k :: 0 <= k < |xs| ==> xs[k] in s)
    && (forall x :: x in s ==> x in xs)
  }

  lemma ListsWhenCovering(xs: seq<NodeId>, s: set<NodeId>)
    requires Distinct(xs) && forall x :: x in xs <==> x in s
    ensures Lists(xs, s)
  {
    forall k | 0 <= k < |xs|
      ensures xs[k] in s
    {
      assert xs[k] in xs;
    }
    DistinctWithin(xs, s);
    SetWithin(s, xs);
  }

  /** The search of InitDFSOrder: from the entry, then from every node not
      yet visited, in DOT id order. */
  ghost function Search(ids: set<NodeId>, adj: map<NodeId, seq<NodeId>>, entry: NodeId, order: seq<NodeId>): (r: State)
    requires AdjOk(ids, adj) && entry in ids
    requires forall k :: 0 <= k < |order| ==> order[k] in ids
    requires forall x :: x in ids ==> x in order
    ensures Inv(ids, adj, r)
    ensures Lists(r.preorder, ids) && Lists(r.postorder, ids)
    ensures r.preorder[0] == entry
  {
    var st0 := State([], []);
    var st1 := Walk(ids, adj, entry, st0);
    var r := WalkList(ids, adj, order, st1);
    ExtendsTrans(st0, st1, r);
    assert r.preorder[0] == r.preorder[..|st1.preorder|][0];
    assert r.preorder[0..] == r.preorder && r.postorder[0..] == r.postorder;
    ListsWhenCovering(r.preorder, ids);
    ListsWhenCovering(r.postorder, ids);
    r
  }

  // ---------------------------------------------------------------------------
  // Reachability

  /** The nodes at `k` and `k + 1` of `p` are joined by an edge. */
  ghost predicate EdgeAt(g: Graph, p: seq<NodeId>, k: nat)
    requires k + 1 < |p|
  {
    (p[k], p[k + 1]) in g.edges
  }

  ghost predicate IsPath(g: Graph, p: seq<NodeId>) {
    |p| > 0 && forall k: nat :: k < |p| - 1 ==> EdgeAt(g, p, k)
  }

  ghost predicate Reachable(g: Graph, u: NodeId, v: NodeId) {
    exists p :: IsPath(g, p) && p[0] == u && p[|p| - 1] == v
  }

  /** Every node can be reached from the entry. */
  ghost predicate AllReachable(g: Graph) {
    g.entry.Some? && forall v {:trigger Reachable(g, g.entry.value, v)} :: v in g.nodes ==> Reachable(g, g.entry.value, v)
  }

  /** The node at `k + 1` of `p` is on the successor list of the node at
      `k`. */
  ghost predicate AdjAt(adj: map<NodeId, seq<NodeId>>, p: seq<NodeId>, k: nat)
    requires k + 1 < |p|
  {
    p[k] in adj && p[k + 1] in adj[p[k]]
  }

  /** A path along successor lists. */
  ghost predicate IsAdjPath(adj: map<NodeId, seq<NodeId>>, p: seq<NodeId>) {
    |p| > 0 && forall k: nat :: k < |p| - 1 ==> AdjAt(adj, p, k)
  }

  /** Some path along the successor lists leads from `entry` to `x`. */
  ghost predicate AdjReaches(adj: map<NodeId, seq<NodeId>>, entry: NodeId, x: NodeId) {
    exists p :: IsAdjPath(adj, p) && p[0] == entry && p[|p| - 1] == x
  }

  ghost predicate AdjReachesAll(ids: set<NodeId>, adj: map<NodeId, seq<NodeId>>, entry: NodeId) {
    forall x {:trigger AdjReaches(adj, entry, x)} :: x in ids ==> AdjReaches(adj, entry, x)
  }

  /** A path of the graph is a path along the successor lists. */
  lemma ReachableAlongAdj(g: Graph)
    requires EdgesClosed(g) && AllReachable(g)
    ensures AdjReachesAll(g.nodes.Keys, Adj(g), g.entry.value)
  {
    var adj := Adj(g);
    forall x | x in g.nodes.Keys
      ensures AdjReaches(adj, g.entry.value, x)
    {
      assert Reachable(g, g.entry.value, x);
      var p :| IsPath(g, p) && p[0] == g.entry.value && p[|p| - 1] == x;
      forall k: nat | k < |p| - 1
        ensures AdjAt(adj, p, k)
      {
        assert EdgeAt(g, p, k);
        AdjHasEdge(g, p[k], p[k + 1]);
      }
      assert IsAdjPath(adj, p);
    }
  }

  /** A list closed under the successor lists holds every node a path from
      it reaches. */
  lemma {:induction false} ClosedHoldsPath(adj: map<NodeId, seq<NodeId>>, xs: seq<NodeId>, p: seq<NodeId>)
    requires forall u, j :: u in xs && u in adj && 0 <= j < |adj[u]| ==> adj[u][j] in xs
    requires IsAdjPath(adj, p) && p[0] in xs
    ensures p[|p| - 1] in xs
    decreases |p|
  {
    if |p| > 1 {
      var q := p[..|p| - 1];
      forall k: nat | k < |q| - 1
        ensures AdjAt(adj, q, k)
      {
        assert AdjAt(adj, p, k);
      }
      assert IsAdjPath(adj, q) && q[0] == p[0];
      ClosedHoldsPath(adj, xs, q);
      var u := p[|p| - 2];
      assert AdjAt(adj, p, |p| - 2);
      assert p[|p| - 1] in adj[u];
      var j :| 0 <= j < |adj[u]| && adj[u][j] == p[|p| - 1];
    }
  }

  /** When every visited node is finished, the visited nodes are closed
      under the successor lists. */
  lemma FinishedClosed(ids: set<NodeId>, adj: map<NodeId, seq<NodeId>>, st: State)
    requires Inv(ids, adj, st)
    requires forall x :: x in st.preorder ==> x in st.postorder
    ensures forall u, j :: u in st.preorder && u in adj && 0 <= j < |adj[u]| ==> adj[u][j] in st.preorder
  {
    forall u, j | u in st.preorder && u in adj && 0 <= j < |adj[u]|
      ensures adj[u][j] in st.preorder
    {
      assert u in st.postorder;
      var k :| 0 <= k < |st.postorder| && st.postorder[k] == u;
    }
  }

  /** The first walk, from the entry, visits every node reachable from it. */
  lemma EntryWalkCovers(ids: set<NodeId>, adj: map<NodeId, seq<NodeId>>, entry: NodeId, st1: State)
    requires AdjOk(ids, adj) && entry in ids && AdjReachesAll(ids, adj, entry)
    requires st1 == Walk(ids, adj, entry, State([], []))
    ensures forall x :: x in ids ==> x in st1.preorder
    ensures forall x :: x in st1.postorder <==> x in st1.preorder
  {
    assert st1.preorder[0..] == st1.preorder && st1.postorder[0..] == st1.postorder;
    FinishedClosed(ids, adj, st1);
    assert entry in st1.preorder by {
      assert st1.preorder[0] == entry;
    }
    forall x | x in ids
      ensures x in st1.preorder
    {
      assert AdjReaches(adj, entry, x);
      var p :| IsAdjPath(adj, p) && p[0] == entry && p[|p| - 1] == x;
      ClosedHoldsPath(adj, st1.preorder, p);
    }
  }

  /** When every node is reachable from the entry, the walk from the entry
      visits and finishes all of them, so the entry is finished last. */
  lemma EntryFinishesLast(ids: set<NodeId>, adj: map<NodeId, seq<NodeId>>, entry: NodeId, order: seq<NodeId>)
    requires AdjOk(ids, adj) && entry in ids && AdjReachesAll(ids, adj, entry)
    requires forall k :: 0 <= k < |order| ==> order[k] in ids
    requires forall x :: x in ids ==> x in order
    ensures FinishesLast(Search(ids, adj, entry, order), entry)
  {
    var st1 := Walk(ids, adj, entry, State([], []));
    EntryWalkCovers(ids, adj, entry, st1);
    WalkListAllVisited(ids, adj, order, st1);
  }

  /** Once every node is visited, the remaining walks do nothing. */
  lemma {:induction false} WalkListAllVisited(ids: set<NodeId>, adj: map<NodeId, seq<NodeId>>, ns: seq<NodeId>, st: State)
    requires AdjOk(ids, adj) && Inv(ids, adj, st)
    requires forall k :: 0 <= k < |ns| ==> ns[k] in ids
    requires forall x :: x in ids ==> x in st.preorder
    ensures WalkList(ids, adj, ns, st) == st
    decreases |ns|
  {
    if ns != [] {
      assert ns[0] in ids;
      WalkListAllVisited(ids, adj, ns[1..], st);
    }
  }

  // ---------------------------------------------------------------------------
  // Numbering the nodes

  /** Position of a member of a list. */
  function IndexOf(xs: seq<NodeId>, x: NodeId): (k: nat)
    requires x in xs
    ensures k < |xs| && xs[k] == x
  {
    if xs[0] == x then 0 else 1 + IndexOf(xs[1..], x)
  }

  /** The graph with the same nodes, edges, index and entry, whose nodes may
      differ only in their search numbers. */
  ghost predicate SameShape(g: Graph, h: Graph) {
    && h.id == g.id && h.edges == g.edges && h.names == g.names && h.entry == g.entry
    && h.nodes.Keys == g.nodes.Keys
    && forall i :: i in g.nodes ==> h.nodes[i] == g.nodes[i].(pre := h.nodes[i].pre, revPost := h.nodes[i].revPost)
  }

  lemma SameShapeValid(g: Graph, h: Graph)
    requires Valid(g) && SameShape(g, h)
    ensures Valid(h)
  {
    assert forall i :: i in g.nodes ==>
      h.nodes[i].id == g.nodes[i].id && h.nodes[i].name == g.nodes[i].name && h.nodes[i].entry == g.nodes[i].entry;
  }

  /** Writes the positions of a search into the nodes. */
  ghost function Number(g: Graph, st: State): (h: Graph)
    requires forall i :: i in g.nodes ==> i in st.preorder && i in st.postorder
    ensures SameShape(g, h)
    ensures forall i :: i in h.nodes ==>
      h.nodes[i].pre == IndexOf(st.preorder, i) && h.nodes[i].revPost == |g.nodes| - 1 - IndexOf(st.postorder, i)
  {
    var n := |g.nodes|;
    g.(nodes := map i | i in g.nodes :: g.nodes[i].(pre := IndexOf(st.preorder, i), revPost := n - 1 - IndexOf(st.postorder, i)))
  }

  /** Both numbers of every node lie in 0 .. n-1, and no two nodes share
      either number. */
  ghost predicate SearchNumbered(h: Graph) {
    && (forall i :: i in h.nodes ==> 0 <= h.nodes[i].pre < |h.nodes| && 0 <= h.nodes[i].revPost < |h.nodes|)
    && (forall i, j :: i in h.nodes && j in h.nodes && i != j ==>
          h.nodes[i].pre != h.nodes[j].pre && h.nodes[i].revPost != h.nodes[j].revPost)
  }

  /** Numbering by two listings of the nodes gives every node numbers in
      0 .. n-1, no two nodes the same. */
  lemma NumberRanges(g: Graph, st: State)
    requires Lists(st.preorder, g.nodes.Keys) && Lists(st.postorder, g.nodes.Keys)
    ensures SearchNumbered(Number(g, st))
  {
    var h := Number(g, st);
    assert |h.nodes| == |h.nodes.Keys| == |g.nodes.Keys| == |g.nodes|;
    forall i, j | i in h.nodes && j in h.nodes && i != j
      ensures h.nodes[i].pre != h.nodes[j].pre && h.nodes[i].revPost != h.nodes[j].revPost
    {
      IndexOfInjective(st.preorder, i, j);
      IndexOfInjective(st.postorder, i, j);
    }
  }

  lemma IndexOfInjective(xs: seq<NodeId>, x: NodeId, y: NodeId)
    requires x in xs && y in xs && x != y
    ensures IndexOf(xs, x) != IndexOf(xs, y)
  {
  }

  /** The order in which nodes not reached from the entry are tried. */
  ghost function SweepOrder(g: Graph): (order: seq<NodeId>)
    ensures forall k :: 0 <= k < |order| ==> order[k] in g.nodes
    ensures forall x :: x in g.nodes ==> x in order
  {
    Ordered(NameOf(g), g.nodes.Keys)
  }

  ghost function DfsSearch(g: Graph): (st: State)
    requires EdgesClosed(g) && g.entry.Some? && g.entry.value in g.nodes
    ensures Lists(st.preorder, g.nodes.Keys) && Lists(st.postorder, g.nodes.Keys)
    ensures st.preorder[0] == g.entry.value
  {
    Search(g.nodes.Keys, Adj(g), g.entry.value, SweepOrder(g))
  }

  /** InitDFSOrder: numbers every node in preorder and reverse postorder of a
      depth first search that starts at the entry, takes successors in DOT
      id order, and restarts from unvisited nodes in DOT id order. Without an
      entry node the package panics: the walk is handed a nil node, whose type
      assertion to a cfg node fails. */
  ghost function InitDfsOrder(g: Graph): (r: Result<Graph>)
    requires Valid(g)
    ensures r.Err? <==> g.entry.None?
    ensures r.Err? ==> r.error == NoEntryNode
    ensures r.Ok? ==> Valid(r.value) && SameShape(g, r.value)
    ensures r.Ok? ==> var h := r.value;
      && SearchNumbered(h)
      && h.nodes[g.entry.value].pre == 0
    ensures r.Ok? && AllReachable(g) ==> r.value.nodes[g.entry.value].revPost == 0
  {
    if g.entry.None? then Err(NoEntryNode)
    else
      var h := Number(g, DfsSearch(g));
      InitDfsOrderSpec(g);
      Ok(h)
  }

  lemma InitDfsOrderSpec(g: Graph)
    requires Valid(g) && g.entry.Some?
    ensures var h := Number(g, DfsSearch(g));
      && Valid(h) && SameShape(g, h)
      && SearchNumbered(h)
      && h.nodes[g.entry.value].pre == 0
      && (AllReachable(g) ==> h.nodes[g.entry.value].revPost == 0)
  {
    var st := DfsSearch(g);
    SameShapeValid(g, Number(g, st));
    NumberRanges(g, st);
    EntryPreZero(g);
    if AllReachable(g) {
      EntryRevPostZero(g);
    }
  }

  /** With an entry, InitDFSOrder numbers the nodes by the search. */
  lemma InitDfsOrderNumbers(g: Graph)
    requires Valid(g) && g.entry.Some?
    ensures InitDfsOrder(g) == Ok(Number(g, DfsSearch(g)))
  {
  }

  lemma EntryPreZero(g: Graph)
    requires EdgesClosed(g) && g.entry.Some? && g.entry.value in g.nodes
    ensures Number(g, DfsSearch(g)).nodes[g.entry.value].pre == 0
  {
    var st := DfsSearch(g);
    assert IndexOf(st.preorder, g.entry.value) == 0;
  }

  lemma EntryRevPostZero(g: Graph)
    requires EdgesClosed(g) && AllReachable(g) && g.entry.value in g.nodes
    ensures Number(g, DfsSearch(g)).nodes[g.entry.value].revPost == 0
  {
    EntryFinishesDfsSearch(g);
    LastFinishedNumberedZero(g, DfsSearch(g), g.entry.value);
  }

  lemma EntryFinishesDfsSearch(g: Graph)
    requires EdgesClosed(g) && AllReachable(g) && g.entry.value in g.nodes
    ensures FinishesLast(DfsSearch(g), g.entry.value)
  {
    ReachableAlongAdj(g);
    EntryFinishesLast(g.nodes.Keys, Adj(g), g.entry.value, SweepOrder(g));
    DfsSearchUnfold(g);
  }

  lemma DfsSearchUnfold(g: Graph)
    requires EdgesClosed(g) && g.entry.Some? && g.entry.value in g.nodes
    ensures DfsSearch(g) == Search(g.nodes.Keys, Adj(g), g.entry.value, SweepOrder(g))
  {
  }

  /** The node finished last gets reverse postorder number 0. */
  lemma LastFinishedNumberedZero(g: Graph, st: State, x: NodeId)
    requires Lists(st.preorder, g.nodes.Keys) && Lists(st.postorder, g.nodes.Keys)
    requires x in g.nodes && FinishesLast(st, x)
    ensures Number(g, st).nodes[x].revPost == 0
  {
    PositionOfLast(st.postorder, x);
    assert |st.postorder| == |g.nodes.Keys| == |g.nodes|;
  }

  lemma PositionOfLast(xs: seq<NodeId>, x: NodeId)
    requires Distinct(xs) && |xs| > 0 && xs[|xs| - 1] == x
    ensures IndexOf(xs, x) == |xs| - 1
  {
  }

  /** Numbering again changes nothing: the search sees the same nodes, names
      and edges. */
  lemma InitDfsOrderIdempotent(g: Graph)
    requires Valid(g) && g.entry.Some?
    ensures InitDfsOrder(InitDfsOrder(g).value) == InitDfsOrder(g)
  {
    RenumberSame(g, InitDfsOrder(g).value);
  }

  lemma RenumberSame(g: Graph, h: Graph)
    requires EdgesClosed(g) && g.entry.Some? && g.entry.value in g.nodes
    requires h == Number(g, DfsSearch(g))
    ensures EdgesClosed(h) && h.entry == g.entry && g.entry.value in h.nodes
    ensures Number(h, DfsSearch(h)) == h
  {
    SameShapeRenumber(g, h);
  }

  /** A graph of the same shape is searched and numbered the same way. */
  lemma SameShapeRenumber(g: Graph, h: Graph)
    requires EdgesClosed(g) && g.entry.Some? && g.entry.value in g.nodes && SameShape(g, h)
    ensures EdgesClosed(h) && Number(h, DfsSearch(h)) == Number(g, DfsSearch(g))
  {
    SameShapeSearch(g, h);
    SameShapeNumber(g, h, DfsSearch(g));
  }

  lemma SameShapeSearch(g: Graph, h: Graph)
    requires EdgesClosed(g) && g.entry.Some? && g.entry.value in g.nodes && SameShape(g, h)
    ensures EdgesClosed(h) && DfsSearch(h) == DfsSearch(g)
  {
    SameShapeNames(g, h);
    assert EdgesClosed(h);
    SameEdgesSameAdj(g, h);
    assert SweepOrder(h) == SweepOrder(g);
  }

  lemma SameShapeNames(g: Graph, h: Graph)
    requires SameShape(g, h)
    ensures NameOf(h) == NameOf(g)
  {
    forall i | i in g.nodes
      ensures h.nodes[i].name == g.nodes[i].name
    {
    }
    SameEntries(NameOf(h), NameOf(g));
  }


  lemma SameEdgesSameAdj(g: Graph, h: Graph)
    requires EdgesClosed(g) && EdgesClosed(h)
    requires h.edges == g.edges && h.nodes.Keys == g.nodes.Keys && NameOf(h) == NameOf(g)
    ensures Adj(h) == Adj(g)
  {
    forall u | u in Adj(h)
      ensures Adj(h)[u] == Adj(g)[u]
    {
      assert forall v :: v in Succs(h, u) <==> v in Succs(g, u);
    }
    SameEntries(Adj(h), Adj(g));
  }

  lemma SameShapeNumber(g: Graph, h: Graph, st: State)
    requires SameShape(g, h)
    requires forall i :: i in g.nodes ==> i in st.preorder && i in st.postorder
    ensures Number(h, st) == Number(g, st)
  {
    assert |h.nodes| == |h.nodes.Keys| == |g.nodes.Keys| == |g.nodes|;
    var a, b := Number(h, st), Number(g, st);
    forall i | i in b.nodes
      ensures i in a.nodes && a.nodes[i] == b.nodes[i]
    {
    }
    SameEntries(a.nodes, b.nodes);
  }


  // ---------------------------------------------------------------------------
  // Sorting by search number

  /** Non-decreasing by rank. */
  ghost predicate RankSorted(ns: seq<Node>, rank: Node -> int) {
    forall i, j :: 0 <= i < j < |ns| ==> rank(ns[i]) <= rank(ns[j])
  }

  /** Inserts `n` in front of the first node whose rank is not below its own. */
  function InsertByRank(n: Node, ns: seq<Node>, rank: Node -> int): (r: seq<Node>)
    requires RankSorted(ns, rank)
    ensures |r| == |ns| + 1
    ensures multiset(r) == multiset(ns) + multiset{n}
    ensures RankSorted(r, rank)
  {
    if ns == [] || rank(n) <= rank(ns[0]) then
      ConsRankSorted(n, ns, rank);
      [n] + ns
    else
      var rest := InsertByRank(n, ns[1..], rank);
      assert ns == [ns[0]] + ns[1..];
      InsertedAbove(n, ns[1..], rest, rank, rank(ns[0]));
      ConsRankSorted(ns[0], rest, rank);
      [ns[0]] + rest
  }

  /** A node ranked no higher than the first of a sorted list can go in
      front of it. */
  lemma ConsRankSorted(x: Node, xs: seq<Node>, rank: Node -> int)
    requires RankSorted(xs, rank)
    requires forall j :: 0 <= j < |xs| ==> rank(x) <= rank(xs[j])
    ensures RankSorted([x] + xs, rank)
  {
    var r := [x] + xs;
    forall i, j | 0 <= i < j < |r|
      ensures rank(r[i]) <= rank(r[j])
    {
      assert r[j] == xs[j - 1];
      if i > 0 {
        assert r[i] == xs[i - 1];
      }
    }
  }

  /** A bound below every node of `ns` and below `n` bounds every node of a
      rearrangement of `ns` with `n` added. */
  lemma InsertedAbove(n: Node, ns: seq<Node>, rest: seq<Node>, rank: Node -> int, lo: int)
    requires multiset(rest) == multiset(ns) + multiset{n}
    requires lo <= rank(n) && forall k :: 0 <= k < |ns| ==> lo <= rank(ns[k])
    ensures forall j :: 0 <= j < |rest| ==> lo <= rank(rest[j])
  {
    forall j | 0 <= j < |rest|
      ensures lo <= rank(rest[j])
    {
      assert rest[j] in multiset(rest);
      if rest[j] != n {
        assert rest[j] in multiset(ns);
        var k :| 0 <= k < |ns| && ns[k] == rest[j];
      }
    }
  }

  function SortByRank(ns: seq<Node>, rank: Node -> int): (r: seq<Node>)
    ensures |r| == |ns|
    ensures multiset(r) == multiset(ns)
    ensures RankSorted(r, rank)
  {
    if ns == [] then []
    else
      assert ns == [ns[0]] + ns[1..];
      InsertByRank(ns[0], SortByRank(ns[1..], rank), rank)
  }

  function RevPostRank(n: Node): int {
    n.revPost
  }

  function PostRank(n: Node): int {
    -n.revPost
  }

  /** SortByRevPost: the same nodes, in non-decreasing reverse postorder
      number. */
  function SortByRevPost(ns: seq<Node>): (r: seq<Node>)
    ensures |r| == |ns|
    ensures multiset(r) == multiset(ns)
    ensures forall i, j :: 0 <= i < j < |r| ==> r[i].revPost <= r[j].revPost
  {
    var r := SortByRank(ns, RevPostRank);
    assert RankSorted(r, RevPostRank);
    r
  }

  /** SortByPost: the same nodes, in non-increasing reverse postorder number,
      that is, in postorder. */
  function SortByPost(ns: seq<Node>): (r: seq<Node>)
    ensures |r| == |ns|
    ensures multiset(r) == multiset(ns)
    ensures forall i, j :: 0 <= i < j < |r| ==> r[i].revPost >= r[j].revPost
  {
    var r := SortByRank(ns, PostRank);
    assert RankSorted(r, PostRank);
    r
  }

  /** Strictly increasing integers climb by at least one per position. */
  lemma {:induction false} RankGap(r: seq<Node>, rank: Node -> int, i: nat, j: nat)
    requires forall a, b :: 0 <= a < b < |r| ==> rank(r[a]) < rank(r[b])
    requires i <= j < |r|
    ensures rank(r[j]) - rank(r[i]) >= j - i
    decreases j - i
  {
    if i < j {
      RankGap(r, rank, i + 1, j);
    }
  }

  /** n strictly increasing ranks drawn from n consecutive values are those
      values in order. */
  lemma RanksFill(r: seq<Node>, rank: Node -> int, lo: int)
    requires forall a, b :: 0 <= a < b < |r| ==> rank(r[a]) < rank(r[b])
    requires forall k :: 0 <= k < |r| ==> lo <= rank(r[k]) < lo + |r|
    ensures forall k :: 0 <= k < |r| ==> rank(r[k]) == lo + k
  {
    forall k | 0 <= k < |r|
      ensures rank(r[k]) == lo + k
    {
      RankGap(r, rank, 0, k);
      RankGap(r, rank, k, |r| - 1);
    }
  }

  ghost predicate RanksDistinct(ns: seq<Node>, rank: Node -> int) {
    forall i, j :: 0 <= i < j < |ns| ==> rank(ns[i]) != rank(ns[j])
  }

  /** Rearranging nodes keeps their ranks distinct. */
  lemma RanksDistinctPermuted(ns: seq<Node>, r: seq<Node>, rank: Node -> int)
    requires multiset(r) == multiset(ns) && RanksDistinct(ns, rank)
    ensures RanksDistinct(r, rank)
  {
    DistinctByMultiset(ns, r);
    forall i, j | 0 <= i < j < |r|
      ensures rank(r[i]) != rank(r[j])
    {
      assert r[i] in multiset(ns) && r[j] in multiset(ns);
      var p :| 0 <= p < |ns| && ns[p] == r[i];
      var q :| 0 <= q < |ns| && ns[q] == r[j];
      assert p != q;
    }
  }

  /** Rank-sorted with distinct ranks is strictly increasing. */
  lemma SortedDistinctRanks(r: seq<Node>, rank: Node -> int)
    requires RankSorted(r, rank) && RanksDistinct(r, rank)
    ensures forall a, b :: 0 <= a < b < |r| ==> rank(r[a]) < rank(r[b])
  {
  }

  /** Numbers 0 .. n-1, each used once. */
  ghost predicate Numbered(ns: seq<Node>) {
    && (forall k :: 0 <= k < |ns| ==> 0 <= ns[k].revPost < |ns|)
    && (forall i, j :: 0 <= i < j < |ns| ==> ns[i].revPost != ns[j].revPost)
  }

  /** Nodes numbered 0 .. n-1 come out of SortByRevPost at the position of
      their number. */
  lemma SortByRevPostPositions(ns: seq<Node>)
    requires Numbered(ns)
    ensures forall k :: 0 <= k < |ns| ==> SortByRevPost(ns)[k].revPost == k
  {
    var rank := RevPostRank;
    var r := SortByRevPost(ns);
    assert |r| == |multiset(r)| == |ns|;
    assert RanksDistinct(ns, rank);
    RanksDistinctPermuted(ns, r, rank);
    SortedDistinctRanks(r, rank);
    forall k | 0 <= k < |r|
      ensures 0 <= rank(r[k]) < |r|
    {
      assert r[k] in multiset(ns);
    }
    RanksFill(r, rank, 0);
  }

  /** ... and out of SortByPost in the opposite order. */
  lemma SortByPostPositions(ns: seq<Node>)
    requires Numbered(ns)
    ensures forall k :: 0 <= k < |ns| ==> SortByPost(ns)[k].revPost == |ns| - 1 - k
  {
    var rank := PostRank;
    var r := SortByPost(ns);
    assert |r| == |multiset(r)| == |ns|;
    assert RanksDistinct(ns, rank);
    RanksDistinctPermuted(ns, r, rank);
    SortedDistinctRanks(r, rank);
    forall k | 0 <= k < |r|
      ensures 1 - |r| <= rank(r[k]) < 1
    {
      assert r[k] in multiset(ns);
    }
    RanksFill(r, rank, 1 - |r|);
  }

  /** A listing of the nodes of a graph, each once. */
  ghost predicate ListsNodes(g: Graph, ns: seq<Node>) {
    && |ns| == |g.nodes|
    && (forall k :: 0 <= k < |ns| ==> ns[k].id in g.nodes && g.nodes[ns[k].id] == ns[k])
    && (forall i, j :: 0 <= i < j < |ns| ==> ns[i].id != ns[j].id)
  }

  /** The nodes numbered by a search carry the numbers 0 .. n-1 once each,
      the reverse of their position in the postorder. */
  lemma NumberedListing(g: Graph, st: State, ns: seq<Node>)
    requires Lists(st.preorder, g.nodes.Keys) && Lists(st.postorder, g.nodes.Keys)
    requires ListsNodes(Number(g, st), ns)
    ensures Numbered(ns) && |st.postorder| == |ns|
    ensures forall k :: 0 <= k < |ns| ==> ns[k].id in st.postorder && ns[k].revPost == |ns| - 1 - IndexOf(st.postorder, ns[k].id)
  {
    var h := Number(g, st);
    NumberRanges(g, st);
    assert |h.nodes| == |h.nodes.Keys| == |g.nodes.Keys| == |g.nodes|;
  }

  /** Where an element of a rearranged list came from. */
  lemma SourceIndex(ns: seq<Node>, r: seq<Node>, k: nat) returns (p: nat)
    requires multiset(r) == multiset(ns) && k < |r|
    ensures p < |ns| && ns[p] == r[k]
  {
    assert r[k] in multiset(ns);
    p :| p < |ns| && ns[p] == r[k];
  }

  /** Numbered nodes sorted by reverse postorder number come in the reverse
      of the postorder. */
  lemma RevPostFollowsPostorder(post: seq<NodeId>, ns: seq<Node>)
    requires Numbered(ns) && |post| == |ns|
    requires forall k :: 0 <= k < |ns| ==> ns[k].id in post && ns[k].revPost == |ns| - 1 - IndexOf(post, ns[k].id)
    ensures forall k :: 0 <= k < |ns| ==> SortByRevPost(ns)[k].id == post[|ns| - 1 - k]
  {
    var n, r := |ns|, SortByRevPost(ns);
    assert forall k :: 0 <= k < n ==> r[k].revPost == k by {
      SortByRevPostPositions(ns);
    }
    forall k | 0 <= k < n
      ensures r[k].id == post[n - 1 - k]
    {
      SlotHolds(post, ns, r, k, n - 1 - k);
    }
  }

  /** A rearrangement of numbered nodes holds, at position `k`, the node the
      postorder lists at the position its reverse postorder number names. */
  lemma SlotHolds(post: seq<NodeId>, ns: seq<Node>, r: seq<Node>, k: nat, m: nat)
    requires |post| == |ns| && multiset(r) == multiset(ns) && k < |r| && m < |post|
    requires forall j :: 0 <= j < |ns| ==> ns[j].id in post && ns[j].revPost == |ns| - 1 - IndexOf(post, ns[j].id)
    requires r[k].revPost == |ns| - 1 - m
    ensures r[k].id == post[m]
  {
    var p := SourceIndex(ns, r, k);
    RankedAt(post, ns, p, m);
  }

  /** The node whose reverse postorder number puts it at position `m` of the
      postorder is the node listed there. */
  lemma RankedAt(post: seq<NodeId>, ns: seq<Node>, p: nat, m: nat)
    requires p < |ns| && ns[p].id in post && ns[p].revPost == |ns| - 1 - IndexOf(post, ns[p].id)
    requires m < |post| && ns[p].revPost == |ns| - 1 - m
    ensures post[m] == ns[p].id
  {
  }

  /** Numbered nodes sorted by postorder come in the postorder. */
  lemma PostFollowsPostorder(post: seq<NodeId>, ns: seq<Node>)
    requires Numbered(ns) && |post| == |ns|
    requires forall k :: 0 <= k < |ns| ==> ns[k].id in post && ns[k].revPost == |ns| - 1 - IndexOf(post, ns[k].id)
    ensures forall k :: 0 <= k < |ns| ==> SortByPost(ns)[k].id == post[k]
  {
    var n, r := |ns|, SortByPost(ns);
    assert forall k :: 0 <= k < n ==> r[k].revPost == n - 1 - k by {
      SortByPostPositions(ns);
    }
    forall k | 0 <= k < n
      ensures r[k].id == post[k]
    {
      SlotHolds(post, ns, r, k, k);
    }
  }

  /** After InitDFSOrder, SortByRevPost of all the nodes lists them in the
      reverse of the order in which the search finished them, and SortByPost
      in that order. */
  lemma SortsFollowSearch(g: Graph, h: Graph, ns: seq<Node>)
    requires Valid(g) && InitDfsOrder(g) == Ok(h)
    requires ListsNodes(h, ns)
    ensures var post := DfsSearch(g).postorder;
      && |post| == |ns|
      && (forall k :: 0 <= k < |ns| ==> SortByRevPost(ns)[k].id == post[|ns| - 1 - k])
      && (forall k :: 0 <= k < |ns| ==> SortByPost(ns)[k].id == post[k])
  {
    InitDfsOrderNumbers(g);
    SortsFollowDfsSearch(g, ns);
  }

  lemma SortsFollowDfsSearch(g: Graph, ns: seq<Node>)
    requires EdgesClosed(g) && g.entry.Some? && g.entry.value in g.nodes
    requires ListsNodes(Number(g, DfsSearch(g)), ns)
    ensures var post := DfsSearch(g).postorder;
      && |post| == |ns|
      && (forall k :: 0 <= k < |ns| ==> SortByRevPost(ns)[k].id == post[|ns| - 1 - k])
      && (forall k :: 0 <= k < |ns| ==> SortByPost(ns)[k].id == post[k])
  {
    var st := DfsSearch(g);
    NumberedListing(g, st, ns);
    RevPostFollowsPostorder(st.postorder, ns);
    PostFollowsPostorder(st.postorder, ns);
  }
}
