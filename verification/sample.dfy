/** The sample process list embedded in `main`. The lemmas below show that,
    whatever order the two hash maps iterate in, the roots come out as `c.exe`
    then `f.exe` and the printout is fixed line by line, except for the order of
    `c.exe`'s two children. */
module Sample {
  import opened ParserStringToJSON
  import opened Forest
  import opened NameOrder
  import opened Traversal
  import opened WavyTreePrinter

  /** The eight records of the sample; `c.exe` and `f.exe` have a null parent. */
  function SampleRecords(): seq<Process> {
    [ Process("a.exe", Some(420), Some(428)),
      Process("c.exe", Some(428), None),
      Process("d.exe", Some(551), Some(420)),
      Process("e.exe", Some(552), Some(428)),
      Process("f.exe", Some(553), None),
      Process("g.exe", Some(4), Some(553)),
      Process("b.exe", Some(7), Some(4)),
      Process("h.exe", Some(11), Some(7)) ]
  }

  /** The map the sample parses to. */
  function SampleMap(): map<string, Entry> {
    map["a.exe" := Entry(420, 428), "c.exe" := Entry(428, 0), "d.exe" := Entry(551, 420),
        "e.exe" := Entry(552, 428), "f.exe" := Entry(553, 0), "g.exe" := Entry(4, 553),
        "b.exe" := Entry(7, 4), "h.exe" := Entry(11, 7)]
  }

  /** The sample's pid index, before linking. */
  function SampleIndex(): map<int, Node> {
    map[420 := Node("a.exe", 420, 428, []), 428 := Node("c.exe", 428, 0, []),
        551 := Node("d.exe", 551, 420, []), 552 := Node("e.exe", 552, 428, []),
        553 := Node("f.exe", 553, 0, []), 4 := Node("g.exe", 4, 553, []),
        7 := Node("b.exe", 7, 4, []), 11 := Node("h.exe", 11, 7, [])]
  }

  /** Parsing the sample: null parents become 0. */
  lemma SampleParses()
    ensures RecordMap(SampleRecords()) == SampleMap()
  {
    var r := SampleRecords();
    assert r[..7][..6][..5][..4][..3][..2][..1][..0] == [];
    assert r[..7] == r[..|r| - 1];
    assert r[..7][..6] == r[..6] && r[..6][..5] == r[..5] && r[..5][..4] == r[..4];
    assert r[..4][..3] == r[..3] && r[..3][..2] == r[..2] && r[..2][..1] == r[..1];
    assert RecordMap(r[..1]) == map["a.exe" := Entry(420, 428)];
    assert RecordMap(r[..2]) == RecordMap(r[..1])["c.exe" := Entry(428, 0)];
    assert RecordMap(r[..3]) == RecordMap(r[..2])["d.exe" := Entry(551, 420)];
    assert RecordMap(r[..4]) == RecordMap(r[..3])["e.exe" := Entry(552, 428)];
    assert RecordMap(r[..5]) == RecordMap(r[..4])["f.exe" := Entry(553, 0)];
    assert RecordMap(r[..6]) == RecordMap(r[..5])["g.exe" := Entry(4, 553)];
    assert RecordMap(r[..7]) == RecordMap(r[..6])["b.exe" := Entry(7, 4)];
  }

  /** No two processes of the sample share a pid. */
  lemma SampleUniquePids()
    ensures forall a, b :: a in SampleMap() && b in SampleMap() && a != b ==> SampleMap()[a].pid != SampleMap()[b].pid
  {
  }

  /** An index holding only pids of the sample's processes holds only the pids of
      the expected index. */
  lemma SampleIndexKeys(index: map<int, Node>)
    requires forall p :: p in index ==> exists name :: name in SampleMap() && SampleMap()[name].pid == p
    ensures forall p :: p in index ==> p in SampleIndex()
  {
    forall p | p in index ensures p in SampleIndex() {
      var name :| name in SampleMap() && SampleMap()[name].pid == p;
    }
  }

  /** An index holding each process of the sample under its pid holds the expected
      index's nodes. */
  lemma SampleIndexNodes(index: map<int, Node>)
    requires forall name :: name in SampleMap() ==>
               var entry := SampleMap()[name];
               entry.pid in index && index[entry.pid] == Node(name, entry.pid, entry.parentPid, [])
    ensures forall p :: p in SampleIndex() ==> p in index && index[p] == SampleIndex()[p]
  {
    forall p | p in SampleIndex() ensures p in index && index[p] == SampleIndex()[p] {
      var name := SampleIndex()[p].name;
      assert name in SampleMap() && SampleMap()[name] == Entry(p, SampleIndex()[p].parentPid);
    }
  }

  /** The pids of the sample are distinct, so the index is the same in every
      iteration order of the map. */
  lemma SampleIndexed(entryOrder: seq<string>)
    requires Enumerates(entryOrder, SampleMap().Keys)
    ensures PidIndex(SampleMap(), entryOrder) == SampleIndex()
  {
    SampleUniquePids();
    PidIndexUniquePids(SampleMap(), entryOrder);
    var index := PidIndex(SampleMap(), entryOrder);
    SampleIndexKeys(index);
    SampleIndexNodes(index);
    assert index.Keys == SampleIndex().Keys;
  }

  /** `nodes` has the sample's pids, names and parent pids, whatever its child lists. */
  ghost predicate LikeSample(nodes: map<int, Node>) {
    && nodes.Keys == SampleIndex().Keys
    && forall p :: p in nodes ==>
         nodes[p].name == SampleIndex()[p].name && nodes[p].parentPid == SampleIndex()[p].parentPid
  }

  /** Linking, in any order, keeps the sample's pids, names and parent pids. */
  lemma SampleLinked(valueOrder: seq<int>)
    requires forall p :: p in valueOrder ==> p in SampleIndex()
    ensures LikeSample(LinkedIndex(SampleIndex(), valueOrder))
  {
  }

  /** The sample's roots are `c.exe` (428) and `f.exe` (553), in that order of names. */
  lemma SampleRoots(nodes: map<int, Node>)
    requires LikeSample(nodes)
    ensures RootsExact(nodes, [428, 553]) && SortedByName(nodes, [428, 553])
  {
    assert NameLess("c.exe", "f.exe");
    assert !NameLess("f.exe", "c.exe");
  }

  /** The facts about the sample the walk and the printout use, one node at a time. */
  ghost predicate SampleFacts(nodes: map<int, Node>) {
    && 428 in nodes && nodes[428].name == "c.exe" && nodes[428].parentPid == 0
    && 420 in nodes && nodes[420].name == "a.exe" && nodes[420].parentPid == 428
    && 551 in nodes && nodes[551].name == "d.exe" && nodes[551].parentPid == 420
    && 552 in nodes && nodes[552].name == "e.exe" && nodes[552].parentPid == 428
    && 553 in nodes && nodes[553].name == "f.exe" && nodes[553].parentPid == 0
    && 4 in nodes && nodes[4].name == "g.exe" && nodes[4].parentPid == 553
    && 7 in nodes && nodes[7].name == "b.exe" && nodes[7].parentPid == 4
    && 11 in nodes && nodes[11].name == "h.exe" && nodes[11].parentPid == 7
  }

  lemma SampleHasFacts(nodes: map<int, Node>)
    requires LikeSample(nodes)
    ensures SampleFacts(nodes)
  {
  }

  // ---------------------------------------------------------------------------
  // The child lists.

  lemma Member(s: seq<int>, k: nat, y: int)
    requires k < |s| && s[k] == y
    ensures y in s
  {
  }

  lemma FirstTwoDiffer(s: seq<int>, i: nat, j: nat)
    requires Distinct(s) && i < j < |s|
    ensures s[i] != s[j]
  {
  }

  lemma DistinctNone(s: seq<int>)
    requires forall y :: y !in s
    ensures s == []
  {
    if s != [] {
      Member(s, 0, s[0]);
    }
  }

  lemma DistinctOne(s: seq<int>, x: int)
    requires Distinct(s) && forall y :: y in s <==> y == x
    ensures s == [x]
  {
    assert x in s;
    forall k | 0 <= k < |s| ensures s[k] == x {
      Member(s, k, s[k]);
    }
    if |s| > 1 {
      FirstTwoDiffer(s, 0, 1);
    }
  }

  lemma DistinctTwo(s: seq<int>, x: int, z: int)
    requires x != z && Distinct(s) && forall y :: y in s <==> y == x || y == z
    ensures s == [x, z] || s == [z, x]
  {
    assert x in s && z in s;
    forall k | 0 <= k < |s| ensures s[k] == x || s[k] == z {
      Member(s, k, s[k]);
    }
    if |s| > 2 {
      FirstTwoDiffer(s, 0, 1);
      FirstTwoDiffer(s, 0, 2);
      FirstTwoDiffer(s, 1, 2);
    }
  }

  /** The child lists of a linked, complete forest of the sample: all fixed except
      the order of `c.exe`'s two children. */
  ghost predicate SampleChildLists(nodes: map<int, Node>)
    requires SampleFacts(nodes)
  {
    && (nodes[428].children == [420, 552] || nodes[428].children == [552, 420])
    && nodes[420].children == [551] && nodes[553].children == [4]
    && nodes[4].children == [7] && nodes[7].children == [11]
    && nodes[551].children == [] && nodes[552].children == [] && nodes[11].children == []
  }

  /** The nodes naming `p` as their parent, in a forest of the sample. */
  lemma SampleParents(nodes: map<int, Node>, p: int)
    requires LikeSample(nodes) && Linked(nodes) && Complete(nodes) && p in nodes
    ensures forall c :: c in nodes[p].children <==> c in SampleIndex() && SampleIndex()[c].parentPid == p
  {
    ChildMembers(nodes, p);
  }

  /** `c.exe` has the children `a.exe` and `e.exe`, in either order. */
  lemma SampleChildrenC(nodes: map<int, Node>)
    requires LikeSample(nodes) && Linked(nodes) && Complete(nodes)
    ensures nodes[428].children == [420, 552] || nodes[428].children == [552, 420]
  {
    ChildMembers(nodes, 428);
    SampleParents(nodes, 428);
    DistinctTwo(nodes[428].children, 420, 552);
  }

  /** `a.exe` has the one child `d.exe`. */
  lemma SampleChildrenA(nodes: map<int, Node>)
    requires LikeSample(nodes) && Linked(nodes) && Complete(nodes)
    ensures nodes[420].children == [551]
  {
    ChildMembers(nodes, 420);
    SampleParents(nodes, 420);
    DistinctOne(nodes[420].children, 551);
  }

  lemma SampleChainChildren(nodes: map<int, Node>)
    requires LikeSample(nodes) && Linked(nodes) && Complete(nodes)
    ensures nodes[553].children == [4] && nodes[4].children == [7] && nodes[7].children == [11]
  {
    ChildMembers(nodes, 553);
    SampleParents(nodes, 553);
    DistinctOne(nodes[553].children, 4);
    ChildMembers(nodes, 4);
    SampleParents(nodes, 4);
    DistinctOne(nodes[4].children, 7);
    ChildMembers(nodes, 7);
    SampleParents(nodes, 7);
    DistinctOne(nodes[7].children, 11);
  }

  /** `d.exe`, `e.exe` and `h.exe` have no children. */
  lemma SampleLeaf(nodes: map<int, Node>, p: int)
    requires LikeSample(nodes) && Linked(nodes) && Complete(nodes)
    requires p == 551 || p == 552 || p == 11
    ensures nodes[p].children == []
  {
    SampleParents(nodes, p);
    DistinctNone(nodes[p].children);
  }

  /** A linked, complete forest of the sample has the sample's child lists. */
  lemma SampleChildren(nodes: map<int, Node>)
    requires LikeSample(nodes) && Linked(nodes) && Complete(nodes)
    ensures SampleFacts(nodes) && SampleChildLists(nodes)
  {
    SampleHasFacts(nodes);
    SampleChildrenC(nodes);
    SampleChildrenA(nodes);
    SampleChainChildren(nodes);
    SampleLeaf(nodes, 551);
    SampleLeaf(nodes, 552);
    SampleLeaf(nodes, 11);
  }

  // ---------------------------------------------------------------------------
  // The walk.

  lemma UnfoldLeaf(nodes: map<int, Node>, pid: int, path: seq<int>)
    requires Linked(nodes) && IsChain(nodes, path + [pid]) && pid in nodes && nodes[pid].children == []
    ensures DFSUtil(nodes, pid, path) == [path + [pid]]
  {
    assert DFSUtil(nodes, pid, path) == [path + [pid]] + DFSUtilAll(nodes, [], path + [pid]);
  }

  lemma UnfoldOnly(nodes: map<int, Node>, pid: int, path: seq<int>, c: int)
    requires Linked(nodes) && IsChain(nodes, path + [pid]) && pid in nodes && nodes[pid].children == [c]
    ensures IsChain(nodes, path + [pid] + [c])
    ensures DFSUtil(nodes, pid, path) == [path + [pid]] + DFSUtil(nodes, c, path + [pid])
  {
    ChildrenExtendChain(nodes, path, pid);
    assert nodes[pid].children[0] == c;
    assert [c][1..] == [];
    assert DFSUtilAll(nodes, [c], path + [pid]) == DFSUtil(nodes, c, path + [pid]) + DFSUtilAll(nodes, [], path + [pid]);
  }

  lemma UnfoldPair(nodes: map<int, Node>, pid: int, path: seq<int>, c: int, d: int)
    requires Linked(nodes) && IsChain(nodes, path + [pid]) && pid in nodes && nodes[pid].children == [c, d]
    ensures IsChain(nodes, path + [pid] + [c]) && IsChain(nodes, path + [pid] + [d])
    ensures DFSUtil(nodes, pid, path)
            == [path + [pid]] + DFSUtil(nodes, c, path + [pid]) + DFSUtil(nodes, d, path + [pid])
  {
    ChildrenExtendChain(nodes, path, pid);
    assert nodes[pid].children[0] == c && nodes[pid].children[1] == d;
    assert [c, d][1..] == [d] && [d][1..] == [];
    assert DFSUtilAll(nodes, [d], path + [pid]) == DFSUtil(nodes, d, path + [pid]) + DFSUtilAll(nodes, [], path + [pid]);
  }

  /** The walk below `c.exe`, for either order of its children. */
  function WalkC(first: seq<int>): seq<seq<int>> {
    if first == [420, 552] then [[428], [428, 420], [428, 420, 551], [428, 552]]
    else [[428], [428, 552], [428, 420], [428, 420, 551]]
  }

  /** The walk below `f.exe`, which iteration order cannot change. */
  function WalkF(): seq<seq<int>> {
    [[553], [553, 4], [553, 4, 7], [553, 4, 7, 11]]
  }

  /** `a.exe` (420) has `d.exe` (551) below it and nothing more. */
  lemma SampleWalkA(nodes: map<int, Node>)
    requires SampleFacts(nodes) && Linked(nodes) && SampleChildLists(nodes)
    ensures DFSUtil(nodes, 420, [428]) == [[428, 420], [428, 420, 551]]
  {
    assert IsChain(nodes, [428] + [420]);
    UnfoldOnly(nodes, 420, [428], 551);
    assert [428] + [420] == [428, 420];
    UnfoldLeaf(nodes, 551, [428, 420]);
    assert [428, 420] + [551] == [428, 420, 551];
    assert DFSUtil(nodes, 420, [428]) == [[428, 420]] + [[428, 420, 551]];
  }

  lemma SampleWalkC(nodes: map<int, Node>)
    requires SampleFacts(nodes) && Linked(nodes) && SampleChildLists(nodes)
    ensures DFSUtil(nodes, 428, []) == WalkC(nodes[428].children)
  {
    assert IsChain(nodes, [] + [428]);
    UnfoldPair(nodes, 428, [], nodes[428].children[0], nodes[428].children[1]);
    assert [] + [428] == [428];
    SampleWalkA(nodes);
    assert IsChain(nodes, [428] + [552]);
    UnfoldLeaf(nodes, 552, [428]);
    assert [428] + [552] == [428, 552];
    if nodes[428].children == [420, 552] {
      assert DFSUtil(nodes, 428, []) == [[428]] + [[428, 420], [428, 420, 551]] + [[428, 552]];
    } else {
      assert DFSUtil(nodes, 428, []) == [[428]] + [[428, 552]] + [[428, 420], [428, 420, 551]];
    }
  }

  lemma SampleWalkF(nodes: map<int, Node>)
    requires SampleFacts(nodes) && Linked(nodes) && SampleChildLists(nodes)
    ensures DFSUtil(nodes, 553, []) == WalkF()
  {
    assert IsChain(nodes, [] + [553]);
    UnfoldOnly(nodes, 553, [], 4);
    assert [] + [553] == [553];
    UnfoldOnly(nodes, 4, [553], 7);
    assert [553] + [4] == [553, 4];
    UnfoldOnly(nodes, 7, [553, 4], 11);
    assert [553, 4] + [7] == [553, 4, 7];
    UnfoldLeaf(nodes, 11, [553, 4, 7]);
    assert [553, 4, 7] + [11] == [553, 4, 7, 11];
    assert DFSUtil(nodes, 553, []) == [[553]] + ([[553, 4]] + ([[553, 4, 7]] + [[553, 4, 7, 11]]));
  }

  /** The whole walk: `c.exe`'s subtree, then `f.exe`'s. */
  lemma SampleWalk(nodes: map<int, Node>)
    requires SampleFacts(nodes) && Linked(nodes) && SampleChildLists(nodes)
    requires RootsExact(nodes, [428, 553])
    ensures Visits(nodes, [428, 553]) == WalkC(nodes[428].children) + WalkF()
  {
    SampleWalkC(nodes);
    SampleWalkF(nodes);
    assert [428, 553][1..] == [553] && [553][1..] == [];
    assert DFSUtilAll(nodes, [553], []) == DFSUtil(nodes, 553, []) + DFSUtilAll(nodes, [], []);
  }

  // ---------------------------------------------------------------------------
  // The printout.

  lemma IndentValues()
    ensures Indent(1) == "----" && Indent(2) == "--------" && Indent(3) == "------------"
  {
    assert Indent(1) == Indent(0) + "----";
    assert Indent(2) == Indent(1) + "----";
    assert Indent(3) == Indent(2) + "----";
  }

  /** The lines of `c.exe`'s subtree, for either order of its children. */
  function LinesC(first: seq<int>): seq<string> {
    if first == [420, 552] then ["c.exe", Indent(1) + "a.exe", Indent(2) + "d.exe", Indent(1) + "e.exe"]
    else ["c.exe", Indent(1) + "e.exe", Indent(1) + "a.exe", Indent(2) + "d.exe"]
  }

  /** The lines of `f.exe`'s subtree. */
  function LinesF(): seq<string> {
    ["f.exe", Indent(1) + "g.exe", Indent(2) + "b.exe", Indent(3) + "h.exe"]
  }

  lemma SampleLinesC(nodes: map<int, Node>, first: seq<int>)
    requires SampleFacts(nodes)
    ensures Printout(nodes, WalkC(first)) == LinesC(first)
  {
    var walk := WalkC(first);
    assert Line(nodes, walk[0]) == Indent(0) + "c.exe";
    assert Line(nodes, walk[1]) == LinesC(first)[1];
    assert Line(nodes, walk[2]) == LinesC(first)[2];
    assert Line(nodes, walk[3]) == LinesC(first)[3];
  }

  lemma SampleLinesF(nodes: map<int, Node>)
    requires SampleFacts(nodes)
    ensures Printout(nodes, WalkF()) == LinesF()
  {
    var walk := WalkF();
    assert Line(nodes, walk[0]) == Indent(0) + "f.exe";
    assert Line(nodes, walk[1]) == Indent(1) + "g.exe";
    assert Line(nodes, walk[2]) == Indent(2) + "b.exe";
    assert Line(nodes, walk[3]) == Indent(3) + "h.exe";
  }

  lemma PrintoutConcat(nodes: map<int, Node>, a: seq<seq<int>>, b: seq<seq<int>>)
    requires forall k :: 0 <= k < |a| ==> |a[k]| > 0 && Last(a[k]) in nodes
    requires forall k :: 0 <= k < |b| ==> |b[k]| > 0 && Last(b[k]) in nodes
    ensures Printout(nodes, a + b) == Printout(nodes, a) + Printout(nodes, b)
  {
    var v := a + b;
    forall k | 0 <= k < |v| ensures Printout(nodes, v)[k] == (Printout(nodes, a) + Printout(nodes, b))[k] {
      if k < |a| {
        assert v[k] == a[k];
      } else {
        assert v[k] == b[k - |a|];
      }
    }
  }

  /** The printout of a forest with the sample's nodes and child lists. */
  lemma SamplePrintout(nodes: map<int, Node>)
    requires SampleFacts(nodes) && Linked(nodes) && SampleChildLists(nodes)
    requires RootsExact(nodes, [428, 553])
    ensures forall k :: 0 <= k < |Visits(nodes, [428, 553])| ==>
              |Visits(nodes, [428, 553])[k]| > 0 && Last(Visits(nodes, [428, 553])[k]) in nodes
    ensures Printout(nodes, Visits(nodes, [428, 553])) == LinesC(nodes[428].children) + LinesF()
  {
    SampleWalk(nodes);
    var first := nodes[428].children;
    SampleLinesC(nodes, first);
    SampleLinesF(nodes);
    PrintoutConcat(nodes, WalkC(first), WalkF());
  }

  // ---------------------------------------------------------------------------
  // The graph built from the sample.

  /** The graph's nodes are the sample's, whatever the iteration orders. */
  lemma SampleNodes(entryOrder: seq<string>, valueOrder: seq<int>)
    requires Enumerates(entryOrder, SampleMap().Keys)
    requires Enumerates(valueOrder, PidIndex(SampleMap(), entryOrder).Keys)
    ensures LikeSample(LinkedIndex(PidIndex(SampleMap(), entryOrder), valueOrder))
  {
    SampleIndexed(entryOrder);
    SampleLinked(valueOrder);
  }

  /** Whatever the iteration orders, the graph built from the sample has the roots
      `c.exe` (428) and then `f.exe` (553). */
  lemma SampleGraphRoots(g: Graph, entryOrder: seq<string>, valueOrder: seq<int>)
    requires Enumerates(entryOrder, SampleMap().Keys)
    requires Enumerates(valueOrder, PidIndex(SampleMap(), entryOrder).Keys)
    requires g.Valid() && g.nodes == LinkedIndex(PidIndex(SampleMap(), entryOrder), valueOrder)
    ensures g.roots == [428, 553]
  {
    SampleNodes(entryOrder, valueOrder);
    SampleRoots(g.nodes);
    SortedRootsUnique(g.nodes, g.roots, [428, 553]);
  }

  /** Whatever the iteration orders, the graph built from the sample has all child
      lists fixed except the order of `c.exe`'s two children. */
  lemma SampleGraphChildren(g: Graph, entryOrder: seq<string>, valueOrder: seq<int>)
    requires Enumerates(entryOrder, SampleMap().Keys)
    requires Enumerates(valueOrder, PidIndex(SampleMap(), entryOrder).Keys)
    requires g.Valid() && g.nodes == LinkedIndex(PidIndex(SampleMap(), entryOrder), valueOrder)
    ensures LikeSample(g.nodes) && SampleFacts(g.nodes) && SampleChildLists(g.nodes)
  {
    SampleNodes(entryOrder, valueOrder);
    SampleChildren(g.nodes);
  }

  /** Whatever the iteration orders, printing the graph built from the sample gives
      `c.exe` with its subtree, then `f.exe` with `g.exe`, `b.exe` and `h.exe` one
      level deeper each; only the order of `a.exe` (with `d.exe` below it) and
      `e.exe` under `c.exe` depends on the order the index is iterated in. */
  lemma SampleGraphPrints(g: Graph, entryOrder: seq<string>, valueOrder: seq<int>)
    requires Enumerates(entryOrder, SampleMap().Keys)
    requires Enumerates(valueOrder, PidIndex(SampleMap(), entryOrder).Keys)
    requires g.Valid() && g.nodes == LinkedIndex(PidIndex(SampleMap(), entryOrder), valueOrder)
    ensures g.DFSTraverse() == LinesC([420, 552]) + LinesF()
         || g.DFSTraverse() == LinesC([552, 420]) + LinesF()
  {
    SampleGraphRoots(g, entryOrder, valueOrder);
    SampleGraphChildren(g, entryOrder, valueOrder);
    SampleHasFacts(g.nodes);
    SamplePrintout(g.nodes);
  }
}
