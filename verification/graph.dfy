/** The printer's `Graph`: the pid index of all processes and the sorted root
    list, built once by the constructor and read by DFSTraverse. */
module WavyTreePrinter {
  import opened ParserStringToJSON
  import opened Forest
  import opened NameOrder
  import opened Traversal

  class Graph {
    var roots: seq<int>
    var nodes: map<int, Node>

    /** The linked forest: exact child lists, the exact root list sorted by name,
        and names that identify nodes. */
    ghost predicate Valid()
      reads this
    {
      IsForest(nodes, roots)
    }

    /** `entryOrder` is the order in which `processToParentPid.entrySet()` iterates,
        `valueOrder` the order of the pids behind `nodes.values()`. */
    constructor (processToParentPid: map<string, Entry>, entryOrder: seq<string>, valueOrder: seq<int>)
      requires Enumerates(entryOrder, processToParentPid.Keys)
      requires Enumerates(valueOrder, PidIndex(processToParentPid, entryOrder).Keys)
      ensures Valid()
      ensures nodes == LinkedIndex(PidIndex(processToParentPid, entryOrder), valueOrder)
      ensures multiset(roots) == multiset(PlacedAt(PidIndex(processToParentPid, entryOrder), valueOrder, AtRoot))
    {
      var index := BuildIndex(processToParentPid, entryOrder);
      PidIndexNodes(processToParentPid, entryOrder);
      var linked, unsorted := LinkNodes(index, valueOrder);
      LinkedIndexIsForest(index, valueOrder);
      LinkedIndexNames(index, valueOrder);
      var sorted := SortByName(linked, unsorted);
      RootsExactPermutation(linked, unsorted, sorted);
      nodes := linked;
      roots := sorted;
    }

    /** The nodes DFSTraverse visits, each given by its root path, in visiting
        order: a pre-order walk of everything reachable from a root, whose
        first-level visits are the roots in strictly increasing name order. */
    function Visited(): (visited: seq<seq<int>>)
      reads this
      requires Valid()
      ensures IsPreorder(nodes, visited)
      ensures AtDepth(visited, 1) == Singletons(roots)
      ensures forall a, b :: 0 <= a < b < |roots| ==> NameLess(nodes[roots[a]].name, nodes[roots[b]].name)
    {
      VisitsArePreorder(nodes, roots);
      VisitsRootsInOrder(nodes, roots);
      SortedByNameIsStrict(nodes, roots);
      Visits(nodes, roots)
    }

    /** The lines DFSTraverse prints, one per visit, in order. */
    function DFSTraverse(): (lines: seq<string>)
      reads this
      requires Valid()
      ensures |lines| == |Visited()|
      ensures forall i :: 0 <= i < |lines| ==> lines[i] == Line(nodes, Visited()[i])
    {
      Printout(nodes, Visited())
    }
  }

  /** Every node reachable from a root gets its line in the printout. */
  lemma ChainPrinted(g: Graph, path: seq<int>)
    requires g.Valid() && IsChain(g.nodes, path)
    ensures Line(g.nodes, path) in g.DFSTraverse()
  {
    var visited := g.Visited();
    var i :| 0 <= i < |visited| && visited[i] == path;
    assert g.DFSTraverse()[i] == Line(g.nodes, path);
  }
}
