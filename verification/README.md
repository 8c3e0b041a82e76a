# Control flow graphs of the `cfg` package, in Dafny

This project models the core of the `cfg` package of a decompiler's
structuring stage, and proves what that core promises:

- the control flow graph itself, with:
  - one edge per ordered pair of nodes;
  - an injective name index;
  - at most one entry node;
  - attribute maps on nodes and edges;
- the node operations `NewNodeWithName`, `SetEntry`, `AddNode`, `RemoveNode`, `SetEdge`, `nodeWithName`, `initNodes` and the branch-target lookups;
- the DOT attribute hooks: sorted, quoted rendering, and the `label=entry` encoding of the entry flag;
- the `LoopType` text form;
- `InitDFSOrder`, which does depth first search numbering, and the sorts that go with it;
- region merge (`Merge`);
- graph copy (`Copy`);
- the entry resolution `ParseBytes` performs after the DOT reader has built the graph.

The graph is an immutable value:

```
Graph(id, nodes: map<NodeId, Node>, edges: map<(NodeId, NodeId), Attrs>,
      names: map<string, NodeId>, entry: Option<NodeId>)
```

- Each node record holds its name, its entry flag, its `Pre`/`RevPost` numbers, its attributes, and the structuring annotations as opaque data.
- Every Go panic becomes a distinguished `Err` result (`Wrappers.Error`).
- Go's map iteration becomes an enumeration (`Sorting.Elements`, `Sorting.Pick`) that no contract pins down.

The invariants are in `Cfg`:

- `WellKeyed`: every node is stored under its own id.
- `EdgesClosed`: every edge joins two nodes.
- `IndexSound`: every indexed name belongs to its node.
- `IndexComplete`: every named node is indexed.
- `EntryConsistent`: the entry is the one flagged node.

`Valid` is all five. `Sound` is the first three, which is what a freshly read graph offers.

The modules follow the package's files:

| file | module | models |
|---|---|---|
| `wrappers.dfy` | `Wrappers` | option and result types, and the error kinds |
| `strings.dfy` | `Strings` | byte order and natural order of strings, and label quoting |
| `sorting.dfy` | `Sorting` | set enumeration and a stable sort by key |
| `graph.dfy` | `Cfg` | `cfg/graph.go`: the graph and its operations |
| `attrs.dfy` | `DotAttrs` | `cfg/graph.go`: the DOT attribute hooks |
| `dfs.dfy` | `Traversal` | `cfg/util.go` |
| `copy.dfy` | `Copying` | `cfg/copy.go` |
| `merge.dfy` | `Merging` | `cfg/merge.go` |
| `decode.dfy` | `Decoding` | `cfg/decode.go` |

## Model

| member | source | states |
|---|---|---|
| Cfg.NewGraph | cfg/graph.go:43-49 | a new graph has no nodes, edges or entry, and satisfies every invariant |
| Cfg.NewNodeWithName | cfg/graph.go:143-152 | fails exactly on the empty name; otherwise the node carries the given name and an id no node of the graph has, is not an entry, and has no attributes |
| Cfg.NodeWithName | cfg/graph.go:154-159 | finds a node exactly when the name belongs to a node of the graph, and the node found is that graph node |
| Cfg.MustNodeWithName | cfg/graph.go:507-516 | fails (the source's panic) exactly when no node has the name; otherwise returns the graph's node of that name |
| Cfg.SetEntry | cfg/graph.go:133-141 | fails whenever an entry is already set, even when it is the same node; otherwise the node becomes the entry and gets the flag, and nothing else changes |
| Cfg.AddNode | cfg/graph.go:251-269 | fails exactly on an id already present, on an entry-flagged node while an entry exists, and on a non-empty name indexed to another node; otherwise adds the node, makes a flagged node the entry, indexes its name, and keeps the invariants |
| Cfg.RemoveNode | cfg/graph.go:273-282 | removes the node, every edge touching it and its name, clears the entry if it was the entry, changes nothing else, and is a no-op on a node not in the graph |
| Cfg.RemoveNodeAsWritten | cfg/graph.go:273-282 | on a node in the graph, the removal as written agrees with the corrected one |
| Cfg.RemoveAbsentNodeBreaksIndex | cfg/graph.go:273-282 | removing, as written, a node not in the graph that shares its name and entry flag with the entry unindexes the entry node and clears the entry, which breaks the index |
| Cfg.SetEdge | cfg/graph.go:294-313 | succeeds exactly when each endpoint not yet in the graph could be added by `AddNode`, in order: the source first, then the target, which must not clash with a source just added (a second entry, or the same name). Failure is only a duplicate entry or a duplicate name. On success:<br>• an absent source or target is added as the given node;<br>• the entry becomes an added flagged endpoint, if any;<br>• the index gains the non-empty names of the added endpoints and nothing else;<br>• the edge is present with the given attributes;<br>• the graph's nodes and other edges are unchanged;<br>• the invariants are kept |
| Cfg.NodeWithNameOrNew | cfg/graph.go:91-100 | fails only on the empty name; returns the existing node of that name with the graph unchanged, or else a new node of that name added to it |
| Cfg.LabelAttrs | cfg/graph.go:102-117 | an edge labelled with a text has that label; only `true` and `false` get a colour (dark green and red); the empty text gives no attributes |
| Cfg.EdgeWithLabel | cfg/graph.go:102-117 | the edge between two nodes of the graph is set with the label's attributes, and reads back with that label |
| Cfg.TrueTarget | cfg/graph.go:161-185 | fails unless the node has exactly two successors; otherwise returns one of them, unambiguously exactly when the labels are `true` and `false`, and then the one whose edge is labelled `true` |
| Cfg.FalseTarget | cfg/graph.go:187-211 | the same for the `false` branch |
| Cfg.BranchTargetsAgree | cfg/graph.go:161-211 | with two successors, the two targets differ when the labels resolve and coincide when they do not |
| Cfg.LabelledTargets | cfg/graph.go:161-211 | a node with two distinct successors whose edges are labelled `true` and `false` has those successors as its true and false targets, with no ambiguity |
| Cfg.CondBranchTargets | cfg/graph.go:102-211 | after adding a `true` edge and a `false` edge to two distinct nodes, the branch lookups return exactly those two nodes |
| Cfg.InitNodes | cfg/graph.go:213-225 | fails exactly when a name is empty or two nodes share one; otherwise the index holds exactly the nodes' names, each mapped to its node, and nothing else changes |
| Cfg.LoopTypeText | cfg/graph.go:357-372 | every loop type's text parses back to that loop type |
| Cfg.ParseLoopTypeInverse | cfg/graph.go:374-391 | exactly the four loop-type texts parse, and each parses to the type whose text it is |
| Strings.QuoteRoundTrip | cfg/graph.go:480-484 | quoting a label can be undone: unquoting a quoted text gives the text back |
| Strings.NatLessStrictTotal | cfg/util.go:100-107 | the natural order of DOT ids is a strict total order: irreflexive, asymmetric and total on distinct strings |
| DotAttrs.RenderValue | cfg/graph.go:478-485 | a rendered value never needs quoting, and a value that does not need quoting is rendered unchanged |
| DotAttrs.RenderValueUnquotes | cfg/graph.go:478-485 | a label that was quoted unquotes to the original text |
| DotAttrs.Attributes | cfg/graph.go:466-489 | the listing's keys are the map's keys in sorted order, and each value is the map's value, rendered |
| DotAttrs.AttributesKeys | cfg/graph.go:466-489 | the listing has one entry per key of the map, every key appears, and the keys are strictly ascending in byte order |
| DotAttrs.AttributesRendered | cfg/graph.go:478-485 | quoting is idempotent: rendering the already rendered map gives the same listing |
| DotAttrs.SetEdgeAttribute | cfg/graph.go:453-457 | stores the attribute under its key and keeps every other key |
| DotAttrs.SetEdgeAttributesSpec | cfg/graph.go:453-457 | reading a list of attributes into an edge adds exactly the listed pairs |
| DotAttrs.EdgeAttributesRoundTrip | cfg/graph.go:446-489 | reading an edge's rendered attributes into an empty edge gives the rendered map, which renders to the same listing |
| DotAttrs.SetNodeAttribute | cfg/graph.go:422-433 | the label `entry` sets the entry flag instead of being stored, and fails when the node already has a different label; every other attribute is stored |
| DotAttrs.SetNodeAttributesSpec | cfg/graph.go:422-433 | reading a list of distinct new keys into a node succeeds, stores every pair except the entry label, and sets the flag exactly when the entry label is listed |
| DotAttrs.NodeAttributes | cfg/graph.go:409-418 | an entry node fails when it has a label other than `entry`; otherwise it gets and lists `label=entry`; a node that is not the entry lists its attributes unchanged |
| DotAttrs.NodeAttributesRoundTrip | cfg/graph.go:409-433 | reading a node's listing into a blank node restores its entry flag, and the node read back renders the same listing |
| Sorting.SortByPerm | cfg/util.go:109 | sorting a listing by any key rearranges it: the result holds the same elements with the same multiplicities |
| Sorting.SortBySorted | cfg/util.go:109 | sorting a listing by any key leaves no element before one with a smaller key |
| Traversal.SortByDotId | cfg/util.go:89-110 | a permutation of the input, non-decreasing in the natural order of DOT ids |
| Traversal.OrderedUnique | cfg/util.go:89-110 | with distinct names the sorted order does not depend on the order of the input listing |
| Traversal.Walk | cfg/util.go:22-37 | the walked node is the first of the nodes first visited during the call and the last of the nodes finished during it, so its `Pre` is the smallest and its `RevPost` the smallest among them; the nodes visited and the nodes finished during the call are the same, and every earlier visit and finish is kept |
| Traversal.WalkList | cfg/util.go:30-34 | after walking a list of successors, every one of them has been visited and every node visited in between has been finished |
| Traversal.Search | cfg/util.go:38-44 | the walk from the entry followed by the sweep visits and finishes every node exactly once, starting at the entry |
| Traversal.EntryWalkCovers | cfg/util.go:38 | when every node is reachable from the entry, the walk from the entry alone visits and finishes every node |
| Traversal.InitDfsOrder | cfg/util.go:14-45 | without an entry it fails (the package panics because the walk gets a nil node and the type assertion to a cfg node fails); otherwise only the numbers change, `Pre` and `RevPost` each number the nodes 0..n-1 with no value used twice, the entry gets `Pre` 0, and `RevPost` 0 when every node is reachable |
| Traversal.InitDfsOrderIdempotent | cfg/util.go:30-44 | numbering depends only on the graph's shape, so numbering twice gives the same numbers |
| Traversal.SortByRevPost | cfg/util.go:47-66 | a permutation of the input in ascending `RevPost` |
| Traversal.SortByPost | cfg/util.go:68-87 | a permutation of the input in descending `RevPost` |
| Traversal.SortByRevPostPositions | cfg/util.go:47-66 | on a numbered listing of all nodes, position k holds the node with `RevPost` k |
| Traversal.SortByPostPositions | cfg/util.go:68-87 | on a numbered listing of all nodes, position k holds the node with `RevPost` n-1-k |
| Traversal.SortsFollowSearch | cfg/util.go:47-87 | after numbering, sorting by post order lists the nodes in the order the search finished them, and sorting by reverse post order in the reverse of that order |
| Copying.AddNodes | cfg/copy.go:8-11 | adding the source's nodes one by one fails exactly when an id or name clashes or a second entry would arise; otherwise every node is added and the destination's are kept |
| Copying.SetEdges | cfg/copy.go:12-16 | every source edge is set with its attributes, and the other edges and the nodes are kept |
| Copying.Copy | cfg/copy.go:3-18 | succeeds exactly when the node ids and the names of the two graphs are disjoint and not both have an entry; then the result has the source's id, both graphs' nodes and edges, the entry of whichever has one, and a complete name index |
| Copying.CopyIntoEmpty | cfg/copy.go:6-18 | copying into a new graph gives back the source graph: same id, nodes, edges, index and entry |
| Merging.PredsOf | cfg/merge.go:22-28 | records exactly the predecessors of a merged node that are not themselves merged, each with the attributes of its edge into that node |
| Merging.SuccsOf | cfg/merge.go:29-35 | records exactly the successors of a merged node that are not themselves merged |
| Merging.CollapseSpec | cfg/merge.go:17-37 | the removal loop fails exactly when a name to merge is not a node; otherwise it removes exactly the merged nodes and their edges, gathers every outside predecessor and successor, and notes whether the entry was merged |
| Merging.LinkPreds | cfg/merge.go:41-46 | adds an edge from each recorded predecessor to the new node, carrying the recorded attributes, and changes nothing else |
| Merging.LinkSuccs | cfg/merge.go:47-51 | adds an edge without attributes from the new node to each recorded successor, and changes nothing else |
| Merging.Merge | cfg/merge.go:10-53 | fails on an empty new name, on a missing name to merge, and on a new name taken by a surviving node. Otherwise:<br>• the surviving nodes, and the edges among them with their attributes, are kept;<br>• one new node with the new name replaces the merged ones;<br>• the new node has exactly one edge from each outside predecessor, with the attributes of one of its edges into the merged set;<br>• it has exactly one edge without attributes to each outside successor, and no other edges;<br>• it is the entry if a merged node was;<br>• the graph id is kept |
| Merging.MergeNames | cfg/merge.go:16-40 | after a merge, the graph's names are the source's names without the merged ones, plus the new name |
| Decoding.FindEntry | cfg/decode.go:41-49 | the entry loop fails only with a duplicate entry, and changes nothing but the entry |
| Decoding.FindEntrySpec | cfg/decode.go:41-49 | the loop fails exactly when two listed nodes are flagged (or one is while an entry is set); otherwise the flagged node becomes the entry, and with no flagged node the entry stays unset |
| Decoding.ResolveEntry | cfg/decode.go:41-56 | with a complete index, resolution succeeds exactly when at most one node is flagged and some node is flagged or named `"0"`, failing with a duplicate entry or a missing entry node otherwise |
| Decoding.ParseBytes | cfg/decode.go:34-58 | a reader failure is returned as an error. Otherwise decoding succeeds exactly when:<br>• names are non-empty and unique;<br>• at most one node is flagged;<br>• some node is flagged, or some node is named `"0"` with its quotes.<br>On success the graph is valid and has an entry: the flagged node, or else the `"0"` node, which is now flagged. Nodes, edges and id are otherwise kept. |
| Decoding.ParseBytesRoundTrip | cfg/decode.go:34-58 | resolving a valid graph whose entry was forgotten gives the graph back: the entry flag on its entry node is enough to find it |

## Left out

- DOT text reading and writing are not modelled. The DOT library, `Graph.String`, `Parse`, `ParseFile` and `ParseString` do I/O or call that library. `ParseBytes` is modelled from the point where the reader has built the graph. The reader's result is a parameter (`Decoding.DotOutcome`), assumed to have a sound index and no entry yet, because the entry flags are set from labels after the nodes are added.
- `NewGraphFromFunc` is not modelled: it depends on IR terminator types that are not part of this model. Its label rule (`edgeWithLabel`) is kept.
- The natural order of the external `natsort` package is replaced by its own order, `Strings.NatLess`:
  - digit runs compare as numbers;
  - character codes break ties;
  - it is proved a strict total order.
- Quoting is replaced by a simplified `strconv.Quote`. `Strings.Quote` escapes only `"` and `\`.
- The node-id fallback of `sortByDOTID` for nodes without DOT ids is not modelled. Every node here has a DOT id (its name).
- `sort.Slice` is not stable, but the model sorts with a stable insertion sort. The contracts hold for any order the specification allows. Where keys are distinct (names, DFS numbers) the result is unique.
- Go map iteration order is not pinned down: the order of the entry loop, of the merge loop, and of the branch-target fallback. `TrueTarget` and `FalseTarget` each call `g.From` separately (cfg/graph.go:163 and :189), but the model assumes both lookups see the same successor order (`Cfg.SuccPair`). That assumption is what makes the fallback targets of `Cfg.BranchTargetsAgree` coincide. Which predecessor attributes win in `Merge` when a predecessor has edges to several merged nodes is only constrained to one of them (`Merging.AttrsInto`).
- `SortByRevPost` and `SortByPost` (cfg/util.go:60 and :81) reorder the caller's slice in place with `sort.Slice` before returning the sorted copy, and `sortByDOTID` (cfg/util.go:109-110) sorts its argument in place and returns it. The model returns only the sorted sequence, so the reordering of the caller's slice is not modelled.
- Pointer aliasing of node and edge objects shared by `Copy` and `Merge` is not modelled, because graphs are values here. So the source graph of `Merge` is trivially left unchanged.
- The structuring annotations are carried as opaque data.
- The loggers and terminal colours are not modelled. The ambiguous-branch warning is a returned flag (`Target.ambiguous`).
- Runtime type assertions (`node()`, `edge()`, and the one in the walk of `InitDFSOrder`) cannot fail on a node or edge here, because there is one node type and one edge type. The exception is the nil entry that `InitDFSOrder` hands to its walk when no entry is set (cfg/util.go:23-25 and :38). There the assertion fails, and the model returns `NoEntryNode`.
- The golden DFS numbers of the package's tests are not reproduced, because they depend on the `natsort` order.
- Merging.Merge: the names to merge are a set. Keys mapped to `false` in the source's `map[string]bool` are not modelled.
- Traversal.Walk: the tree-edge corollary (`Pre[u] < Pre[v]` and `RevPost[u] < RevPost[v]` for each tree edge u→v) is not stated as a separate lemma. It follows from the contract of the nested `Walk` call.
- Copying.Copy requires both graphs to be valid. The source also panics inside `AddNode` on an id clash, which the model returns as an error.

## Findings

| source | as written | input that shows it | evidently intended | confidence | as-written member | corrected member |
|---|---|---|---|---|---|---|
| cfg/graph.go:273-282 | `RemoveNode` deletes the passed node's name from the index and clears the entry from the passed node's own flag, whether or not the node is in the graph | a graph whose entry node 0 is named `a`, and a stray node 1 also named `a` and flagged as entry: removing node 1 unindexes node 0 and clears the entry | the documented no-op for a node not in the graph | not executed | Cfg.RemoveNodeAsWritten, Cfg.RemoveAbsentNodeBreaksIndex | Cfg.RemoveNode |
