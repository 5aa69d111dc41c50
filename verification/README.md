# WavyTreePrinter — process forest builder and depth-first printer

WavyTreePrinter reads a JSON array of process records (`process_name`, `pid`,
`parent_pid`). It turns them into a map from process name to `[pid, parentPid]`.
It then links the processes into a forest whose roots are the processes with
parent pid 0, sorts the roots by name, and prints every tree depth first. Each
node gets one line: `"----"` once per level of depth, then its name.

This project models that core in Dafny and proves what it guarantees:

- `parser.dfy` (module `ParserStringToJSON`): the decoded records and the loop
  that folds them into the name map, where a later record with the same name wins.
- `name_order.dfy` (module `NameOrder`): `String.compareTo`, the order the roots
  are sorted by, and the facts that make it a strict total order.
- `forest.dfy` (module `Forest`): the three steps of the `Graph` constructor.
  1. The pid index, where the last `put` of a pid wins.
  2. Linking: each node goes to the root list, to its parent's child list, or
     nowhere (an orphan).
  3. Sorting the roots by name.
  Each step is a method with a loop, proved against a specification function.
  The shape of the result (`Linked`, `Complete`, `RootsExact`, `SortedByName`,
  `NamesDistinct`) is proved about those functions.
- `traversal.dfy` (module `Traversal`): `DFSTraverse`/`DFSUtil` as pure
  functions. A visit is recorded as the visited node's root path: the pids from
  its root down to the node. The depth the source passes down is the length of
  that path minus one. The lemmas show the following. The walk terminates. It
  visits exactly the nodes reachable from a root, each once, each after its
  ancestors. It is depth first: each node's subtree is visited right after the
  node. The roots and every node's children are visited in list order. Nodes on
  parent cycles (of any length) and nodes under a missing parent are never
  reached.
- `graph.dfy` (module `WavyTreePrinter`): the `Graph` class. Its constructor
  runs the three steps and establishes `Valid()`. `Visited` and `DFSTraverse`
  give what the printer visits and the lines it prints.
- `sample.dfy` (module `Sample`): the eight-record sample embedded in `main`.
  Whatever the iteration orders, its roots are `c.exe` then `f.exe`, and the
  printout is fixed line by line except for the order of `c.exe`'s two children.

Java's `HashMap` iteration order is unspecified. The constructor therefore
takes two orders as parameters: `entryOrder`, the order of
`processToParentPid.entrySet()`, and `valueOrder`, the order of the pids behind
`nodes.values()`. Each must list every key exactly once (`Enumerates`). Nothing
proved depends on a particular order except what the source itself leaves to
it. Child-list order follows `valueOrder`: `Forest.LinkNodes`, `Forest.LinkedIndex`
and `Forest.PlacedAt` state it, and `Forest.ChildOrderFollowsIteration` shows two
orders giving one parent's children in two orders. When two names
share a pid, `entryOrder` decides which node survives. Output is therefore
deterministic only up to these two orders. The root order is the exception:
`Forest.SortedRootsUnique` shows it is fully determined, because the names in
the index are distinct.

Two behaviours of the code are easy to miss; the model follows the code on
both. First, a node can be its own parent and parent pids can form cycles. The
linking loop then puts such a node into the child list of a node in the cycle.
No node on a cycle is a root or lies below one, so none is ever reached: see
`Traversal.SelfParentUnreachable` and `Traversal.CycleUnreachable`. Second, a
record with a null `parent_pid` gets parent pid 0 only because `Process.parent_pid`
is a primitive `int` whose default is 0. The same holds for a null `pid`.

## Model

| member | source | states |
|---|---|---|
| ParserStringToJSON.ToEntry | src/WavyTreePrinter.java:72-76 | the entry's parent pid is 0 exactly when `parent_pid` was null, missing or 0, and likewise for the pid |
| ParserStringToJSON.RecordMapLastWins | src/WavyTreePrinter.java:85-89 | the map has an entry for exactly the names that occur among the records, and each name's entry is made from the last record carrying that name |
| ParserStringToJSON.Parse | src/WavyTreePrinter.java:85-90 | the loop of one `put` per record returns the record map of all records, in order |
| NameOrder.NameLessAsymmetric | src/WavyTreePrinter.java:55 | no two names are each before the other under `compareTo` |
| NameOrder.NameLessTotal | src/WavyTreePrinter.java:55 | any two different names are ordered one way or the other |
| NameOrder.NameLessTransitive | src/WavyTreePrinter.java:55 | the name order is transitive |
| NameOrder.NotAfterTransitive | src/WavyTreePrinter.java:55 | "not after" is transitive, so the order is a total preorder fit for sorting |
| Forest.PidIndexLastWins | src/WavyTreePrinter.java:34-41 | the index holds a node for exactly the pids among the map's entries, and the node of a pid is made from the entry visited last with that pid, with no children |
| Forest.PidIndexNodes | src/WavyTreePrinter.java:34-41 | every node sits under its own pid, has no children, is the map entry of its name, and no two nodes share a name |
| Forest.PidIndexUniquePids | src/WavyTreePrinter.java:34-41 | when no two entries share a pid, every iteration order gives the same index: each entry becomes the childless node under its own pid, and nothing else is indexed |
| Forest.BuildIndex | src/WavyTreePrinter.java:34-41 | the first loop of the constructor builds exactly the pid index of the entries in iteration order |
| Forest.PlacedAtMembers | src/WavyTreePrinter.java:44-53 | a pid is placed at a given place exactly when it is iterated and its parent pid selects that place, and each node is placed at most once |
| Forest.LinkedIndexStep | src/WavyTreePrinter.java:44-53 | one turn of the linking loop appends the node to the root list when its parent pid is 0, to its parent's child list when the parent is in the index, and changes nothing else |
| Forest.LinkNodes | src/WavyTreePrinter.java:43-53 | the second loop gives each node exactly the children placed under it, in iteration order, and collects exactly the roots, in iteration order |
| Forest.LinkedIndexIsForest | src/WavyTreePrinter.java:43-53 | after linking, every child list is duplicate-free and holds only nodes whose parent pid is its owner. Every node whose parent is in the index is in that parent's list. The root list holds each node with parent pid 0 once and nothing else. So a root is in no child list and an orphan is in no list at all |
| Forest.ChildOrderFollowsIteration | src/WavyTreePrinter.java:44-50 | child lists are not sorted: two iteration orders of one index give one parent's children in two different orders |
| Forest.SortByName | src/WavyTreePrinter.java:55 | the sorted root list is a permutation of the unsorted one and is in ascending name order |
| Forest.RootsExactPermutation | src/WavyTreePrinter.java:55 | sorting keeps the root list exactly the nodes with parent pid 0, each once |
| Forest.SortedByNameIsStrict | src/WavyTreePrinter.java:55 | with distinct names, a sorted root list is in strictly ascending name order |
| Forest.SortedRootsUnique | src/WavyTreePrinter.java:44-55 | with distinct names, there is only one sorted exact root list, so the root order does not depend on iteration order |
| Traversal.Indent | src/WavyTreePrinter.java:22-24 | the indentation at depth d is 4·d dashes |
| Traversal.Line | src/WavyTreePrinter.java:21-25 | a node's line is four dashes per ancestor followed by the node's name |
| Traversal.ChainDistinct | src/WavyTreePrinter.java:44-53 | no node occurs twice on a path from a root |
| Traversal.AncestorOnChain | src/WavyTreePrinter.java:44-53 | following parent pids k steps up from a node on a path from a root gives the node k places earlier on the path, or nothing once the root is passed |
| Traversal.CycleUnreachable | src/WavyTreePrinter.java:44-53 | a node that following parent pids leads back to, after one step or more, is on no path from a root, so parent cycles of any length are never entered |
| Traversal.ChainUnique | src/WavyTreePrinter.java:44-53 | a node is reached along at most one path from a root |
| Traversal.SelfParentUnreachable | src/WavyTreePrinter.java:47-51 | a node whose parent pid is its own non-zero pid is on no path from a root |
| Traversal.OrphanUnreachable | src/WavyTreePrinter.java:48-51 | every node on a path from a root was placed in the root list or in a child list, never dropped |
| Traversal.DFSUtilChains | src/WavyTreePrinter.java:21-29 | `DFSUtil(node, depth)` visits the node first and then only nodes below it, each along a path from a root |
| Traversal.DFSUtilAllChains | src/WavyTreePrinter.java:26-28 | the loop over a list visits only nodes below the list's members |
| Traversal.DFSUtilOrdered | src/WavyTreePrinter.java:21-29 | no visit of `DFSUtil` repeats an earlier one or is an ancestor of an earlier one |
| Traversal.DFSUtilAllOrdered | src/WavyTreePrinter.java:26-28 | the same holds for the loop over a duplicate-free list |
| Traversal.DFSUtilComplete | src/WavyTreePrinter.java:21-29 | `DFSUtil` visits every node below its node |
| Traversal.DFSUtilAllComplete | src/WavyTreePrinter.java:26-28 | the loop visits every node below every member of the list |
| Traversal.DFSUtilAllSiblings | src/WavyTreePrinter.java:15-28 | the members of a list are visited in list order, and they are the only visits at their depth |
| Traversal.DFSUtilDepthFirst | src/WavyTreePrinter.java:21-29 | within `DFSUtil`, every visit after the first hangs under the visit before it or under one of that visit's ancestors |
| Traversal.DFSUtilAllDepthFirst | src/WavyTreePrinter.java:26-28 | the same holds for the loop over a list, whose first visit is its first member |
| Traversal.DFSUtilChildOrder | src/WavyTreePrinter.java:21-29 | within `DFSUtil`, each visited node's children are visited in child-list order |
| Traversal.DFSUtilAllChildOrder | src/WavyTreePrinter.java:26-28 | the same holds for the loop over a list |
| Traversal.VisitsDepthFirst | src/WavyTreePrinter.java:15-29 | the whole walk is depth first, and every visited node's children are visited in child-list order |
| Traversal.VisitsArePreorder | src/WavyTreePrinter.java:15-29 | the traversal is a depth-first pre-order walk: it visits exactly the nodes reachable from a root, each once, each after all its ancestors, each subtree right after its node, and children in child-list order |
| Traversal.VisitsComplete | src/WavyTreePrinter.java:15-29 | every node reachable from a root is visited |
| Traversal.VisitsOnce | src/WavyTreePrinter.java:15-29 | no node is visited twice |
| Traversal.VisitsAncestorsFirst | src/WavyTreePrinter.java:15-29 | every ancestor of a visited node is visited before it |
| Traversal.AncestorsFirst | src/WavyTreePrinter.java:21-29 | a walk that visits every root path and never visits a prefix of an earlier visit puts ancestors first |
| Traversal.VisitsRootsInOrder | src/WavyTreePrinter.java:15-19 | the depth-0 visits are the roots, in root-list order |
| Traversal.Printout | src/WavyTreePrinter.java:21-25 | one line per visit, in visiting order |
| WavyTreePrinter.Graph.constructor | src/WavyTreePrinter.java:32-56 | the graph's nodes are the linked pid index, its roots a permutation of the parent-pid-0 nodes in iteration order, and the whole is a valid forest with the roots sorted by name |
| WavyTreePrinter.Graph.Visited | src/WavyTreePrinter.java:15-29 | the printer's visits form a depth-first pre-order walk of the forest with children in child-list order, and its depth-0 visits are the roots in strictly ascending name order |
| WavyTreePrinter.Graph.DFSTraverse | src/WavyTreePrinter.java:15-29 | one line per visited node, in visiting order, each being four dashes per ancestor followed by the node's name |
| WavyTreePrinter.ChainPrinted | src/WavyTreePrinter.java:15-29 | every node reachable from a root has its line in the printout |
| Sample.SampleParses | src/WavyTreePrinter.java:100-109 | the eight sample records parse to the expected name map, the two null parents becoming 0 |
| Sample.SampleUniquePids | src/WavyTreePrinter.java:100-109 | no two sample processes share a pid |
| Sample.SampleIndexed | src/WavyTreePrinter.java:34-41 | in every iteration order, the sample's pid index is the expected one |
| Sample.SampleRoots | src/WavyTreePrinter.java:44-55 | the sample's parent-pid-0 nodes are `c.exe` and `f.exe`, in ascending name order |
| Sample.SampleChildren | src/WavyTreePrinter.java:44-53 | a linked, complete forest of the sample gives `c.exe` the children `a.exe` and `e.exe` in some order, `a.exe` the child `d.exe`, `f.exe`, `g.exe` and `b.exe` one child each down to `h.exe`, and the rest none |
| Sample.SampleWalk | src/WavyTreePrinter.java:15-29 | the walk of the sample visits `c.exe` and its subtree, then `f.exe`, `g.exe`, `b.exe` and `h.exe` |
| Sample.SamplePrintout | src/WavyTreePrinter.java:15-29 | the printout of a forest with the sample's nodes and child lists is the lines of `c.exe`'s subtree, its children in child-list order, then those of `f.exe`'s, each with one `----` per level |
| Sample.SampleGraphRoots | src/WavyTreePrinter.java:124-126 | whatever the two iteration orders, the graph built from the sample has the roots `c.exe` and then `f.exe` |
| Sample.SampleGraphChildren | src/WavyTreePrinter.java:124-126 | whatever the two iteration orders, the graph built from the sample has the sample's child lists |
| Sample.SampleGraphPrints | src/WavyTreePrinter.java:124-127 | whatever the two iteration orders, printing the sample's graph outputs the eight lines `c.exe`, its two subtrees (`----a.exe` with `--------d.exe` below, and `----e.exe`) in either order, then `f.exe`, `----g.exe`, `--------b.exe`, `------------h.exe` |

## Left out

- Gson decoding of the JSON text (`fromJson` with a `TypeToken`) is a foreign library. The model starts from the decoded records. `None` stands for a null or missing field.
- Gson returns `null` for empty text or the literal `null`, and the `for` over the records then throws a `NullPointerException`. A `null` element of the array makes reading its `process_name` throw as well. The model's input is a list of records, so neither crash is expressible.
- A null `process_name` would be a `null` key of the Java map. Sorting throws only when a root with a null name is compared with another root; a lone null-named root, or a null-named child, is printed as `null`. Names are plain strings here, so none of these cases exists.
- JSON numbers outside Java's `int` range are rejected by Gson while decoding. Pids and parent pids are unbounded integers here, which matches every decodable input because pids are only compared.
- `parse(File)` reads a file and is I/O. `main`, with its hard-coded path and error reporting, is entry-point glue; only its embedded sample is modelled (module `Sample`).
- `System.out`: printing is modelled as the returned sequence of lines.
- The concrete `HashMap` iteration orders are parameters, not a fixed hash order.
- NameOrder.NameLess: compares Dafny characters, where `String.compareTo` compares UTF-16 code units. The two orders differ only for names containing characters outside the Basic Multilingual Plane.
- Forest.SortByName: an insertion sort stands in for `List.sort`. Names in the index are distinct and the sorted order of distinct names is unique (`Forest.SortedRootsUnique`), so the sort algorithm does not change the result.
- WavyTreePrinter.Graph.constructor: the node index is a field of the class. In the source it is a local variable whose nodes stay reachable through `roots` and the child lists. Child lists hold pids into that index rather than references to `Node` objects.
