/** Construction of the process forest, in the three steps of the `Graph`
    constructor: index the nodes by pid, link each node under its parent or into the
    root list, and sort the roots by name. Nodes are identified by their pid, the key
    under which they sit in the index; a child list holds the pids of the children. */
module Forest {
  import opened ParserStringToJSON
  import opened NameOrder

  /** A process node: its name, pid, parent pid and the pids of its children. */
  datatype Node = Node(name: string, pid: int, parentPid: int, children: seq<int>)

  predicate Distinct<T(==)>(s: seq<T>) {
    forall i, j :: 0 <= i < j < |s| ==> s[i] != s[j]
  }

  /** `order` visits every element of `keys` exactly once, as iterating a hash map does. */
  ghost predicate Enumerates<T(!new)>(order: seq<T>, keys: set<T>) {
    Distinct(order) && forall x :: x in order <==> x in keys
  }

  // ---------------------------------------------------------------------------
  // Step 1: the pid index.

  /** The pid index after putting a node for each name of `order` in turn, so that
      a later name with the same pid replaces the node of an earlier one. */
  function PidIndex(processToParentPid: map<string, Entry>, order: seq<string>): map<int, Node>
    requires forall name :: name in order ==> name in processToParentPid
  {
    if order == [] then map[]
    else
      var name := order[|order| - 1];
      var entry := processToParentPid[name];
      PidIndex(processToParentPid, order[..|order| - 1])[entry.pid := Node(name, entry.pid, entry.parentPid, [])]
  }

  /** The index holds exactly the pids of the visited entries, and the node under a
       pid is a childless node made from the last visited entry with that pid. */
  lemma {:induction false} PidIndexLastWins(processToParentPid: map<string, Entry>, order: seq<string>, p: int)
    requires forall name :: name in order ==> name in processToParentPid
    ensures p in PidIndex(processToParentPid, order) <==>
              exists k :: 0 <= k < |order| && processToParentPid[order[k]].pid == p
    ensures p in PidIndex(processToParentPid, order) ==>
              exists k :: 0 <= k < |order| && processToParentPid[order[k]].pid == p
                && PidIndex(processToParentPid, order)[p]
                   == Node(order[k], p, processToParentPid[order[k]].parentPid, [])
                && forall j :: k < j < |order| ==> processToParentPid[order[j]].pid != p
  {
    if order != [] {
      var n := |order| - 1;
      var init := order[..n];
      PidIndexLastWins(processToParentPid, init, p);
      if processToParentPid[order[n]].pid != p {
        forall k | 0 <= k < |order| && processToParentPid[order[k]].pid == p
          ensures exists k' :: 0 <= k' < |init| && processToParentPid[init[k']].pid == p
        {
          assert k < n && init[k] == order[k];
        }
        if p in PidIndex(processToParentPid, init) {
          var k :| 0 <= k < |init| && processToParentPid[init[k]].pid == p
                   && PidIndex(processToParentPid, init)[p]
                      == Node(init[k], p, processToParentPid[init[k]].parentPid, [])
                   && forall j :: k < j < |init| ==> processToParentPid[init[j]].pid != p;
          assert order[k] == init[k];
          forall j | k < j < |order| ensures processToParentPid[order[j]].pid != p {
            if j < n { assert order[j] == init[j]; }
          }
        }
      }
    }
  }

  /** Every node of the index sits under its own pid, has no children yet, and is
      the entry of its name; so no two nodes of the index share a name. */
  lemma PidIndexNodes(processToParentPid: map<string, Entry>, order: seq<string>)
    requires forall name :: name in order ==> name in processToParentPid
    ensures var index := PidIndex(processToParentPid, order);
      && (forall p :: p in index ==>
            index[p].pid == p && index[p].children == []
            && index[p].name in processToParentPid
            && processToParentPid[index[p].name] == Entry(p, index[p].parentPid))
      && NamesDistinct(index)
  {
    var index := PidIndex(processToParentPid, order);
    forall p | p in index
      ensures index[p].pid == p && index[p].children == []
              && index[p].name in processToParentPid
              && processToParentPid[index[p].name] == Entry(p, index[p].parentPid)
    {
      PidIndexLastWins(processToParentPid, order, p);
    }
  }

  /** When no two entries share a pid, the index does not depend on the iteration
      order: each entry becomes the childless node under its own pid, and nothing else
      is indexed. */
  lemma PidIndexUniquePids(processToParentPid: map<string, Entry>, order: seq<string>)
    requires Enumerates(order, processToParentPid.Keys)
    requires forall a, b :: a in processToParentPid && b in processToParentPid && a != b ==>
               processToParentPid[a].pid != processToParentPid[b].pid
    ensures var index := PidIndex(processToParentPid, order);
      && (forall p :: p in index ==> exists name :: name in processToParentPid && processToParentPid[name].pid == p)
      && (forall name :: name in processToParentPid ==>
            var entry := processToParentPid[name];
            entry.pid in index && index[entry.pid] == Node(name, entry.pid, entry.parentPid, []))
  {
    var index := PidIndex(processToParentPid, order);
    PidIndexNodes(processToParentPid, order);
    forall p | p in index ensures exists name :: name in processToParentPid && processToParentPid[name].pid == p {
      assert processToParentPid[index[p].name].pid == p;
    }
    forall name | name in processToParentPid
      ensures var entry := processToParentPid[name];
        entry.pid in index && index[entry.pid] == Node(name, entry.pid, entry.parentPid, [])
    {
      var entry := processToParentPid[name];
      assert name in order;
      var k :| 0 <= k < |order| && order[k] == name;
      PidIndexLastWins(processToParentPid, order, entry.pid);
      var other := index[entry.pid].name;
      assert processToParentPid[other].pid == entry.pid;
    }
  }

  /** The first loop of the constructor: one `put` per map entry, in iteration order. */
  method BuildIndex(processToParentPid: map<string, Entry>, entryOrder: seq<string>) returns (nodes: map<int, Node>)
    requires forall name :: name in entryOrder ==> name in processToParentPid
    ensures nodes == PidIndex(processToParentPid, entryOrder)
  {
    nodes := map[];
    for i := 0 to |entryOrder|
      invariant nodes == PidIndex(processToParentPid, entryOrder[..i])
    {
      var name := entryOrder[i];
      var p := processToParentPid[name].pid;
      var parentPid := processToParentPid[name].parentPid;
      assert entryOrder[..i + 1][..i] == entryOrder[..i];
      nodes := nodes[p := Node(name, p, parentPid, [])];
    }
    assert entryOrder[..|entryOrder|] == entryOrder;
  }

  // ---------------------------------------------------------------------------
  // Step 2: linking.

  /** Where the linking loop puts a node: in the root list, in the child list of its
      parent, or nowhere (its parent pid is not in the index). */
  datatype Placement = AtRoot | UnderParent(parent: int) | Dropped

  function PlacementOf(nodes: map<int, Node>, p: int): Placement
    requires p in nodes
  {
    var parentPid := nodes[p].parentPid;
    if parentPid == 0 then AtRoot
    else if parentPid in nodes then UnderParent(parentPid)
    else Dropped
  }

  /** The pids of `order` placed at `where`, in the order the loop appends them. */
  function PlacedAt(nodes: map<int, Node>, order: seq<int>, where: Placement): seq<int>
    requires forall p :: p in order ==> p in nodes
  {
    if order == [] then []
    else
      var p := order[|order| - 1];
      var earlier := PlacedAt(nodes, order[..|order| - 1], where);
      if PlacementOf(nodes, p) == where then earlier + [p] else earlier
  }

  /** A pid is placed at `where` exactly when it is visited and its placement is
      `where`; visiting each pid once places it at most once. */
  lemma {:induction false} PlacedAtMembers(nodes: map<int, Node>, order: seq<int>, where: Placement)
    requires forall p :: p in order ==> p in nodes
    ensures forall p :: p in PlacedAt(nodes, order, where) <==> p in order && PlacementOf(nodes, p) == where
    ensures Distinct(order) ==> Distinct(PlacedAt(nodes, order, where))
  {
    if order != [] {
      var n := |order| - 1;
      var init := order[..n];
      PlacedAtMembers(nodes, init, where);
      assert order == init + [order[n]];
      if Distinct(order) {
        assert Distinct(init);
        assert order[n] !in init;
      }
    }
  }

  /** The index after linking: each node's child list extended by the nodes placed
      under it, all else unchanged. */
  function LinkedIndex(index: map<int, Node>, order: seq<int>): map<int, Node>
    requires forall p :: p in order ==> p in index
  {
    map p | p in index :: index[p].(children := index[p].children + PlacedAt(index, order, UnderParent(p)))
  }

  /** The second loop of the constructor: each node, in index iteration order, goes
      to the root list, to its parent's child list, or nowhere. */
  method LinkNodes(index: map<int, Node>, valueOrder: seq<int>) returns (linked: map<int, Node>, roots: seq<int>)
    requires forall p :: p in valueOrder ==> p in index
    ensures linked == LinkedIndex(index, valueOrder)
    ensures roots == PlacedAt(index, valueOrder, AtRoot)
  {
    linked, roots := index, [];
    LinkedIndexEmpty(index, valueOrder);
    for i := 0 to |valueOrder|
      invariant linked == LinkedIndex(index, valueOrder[..i])
      invariant roots == PlacedAt(index, valueOrder[..i], AtRoot)
    {
      var p := valueOrder[i];
      LinkedIndexStep(index, valueOrder, i);
      var node := linked[p];
      if node.parentPid == 0 {
        roots := roots + [p];
      } else if node.parentPid in linked {
        var parent := linked[node.parentPid];
        linked := linked[node.parentPid := parent.(children := parent.children + [p])];
      }
    }
    assert valueOrder[..|valueOrder|] == valueOrder;
  }

  lemma LinkedIndexEmpty(index: map<int, Node>, order: seq<int>)
    ensures LinkedIndex(index, order[..0]) == index
  {
    assert order[..0] == [];
    forall p | p in index ensures LinkedIndex(index, order[..0])[p] == index[p] {
      assert index[p].children + [] == index[p].children;
    }
  }

  /** One turn of the linking loop: the node `order[i]` joins the root list or its
      parent's child list, and nothing else changes. */
  lemma LinkedIndexStep(index: map<int, Node>, order: seq<int>, i: int)
    requires 0 <= i < |order| && forall p :: p in order ==> p in index
    ensures var q, before := order[i], LinkedIndex(index, order[..i]);
      && before.Keys == index.Keys
      && before[q].parentPid == index[q].parentPid
      && PlacedAt(index, order[..i + 1], AtRoot)
           == PlacedAt(index, order[..i], AtRoot) + (if index[q].parentPid == 0 then [q] else [])
      && LinkedIndex(index, order[..i + 1])
           == if PlacementOf(index, q).UnderParent?
              then before[index[q].parentPid := before[index[q].parentPid].(children := before[index[q].parentPid].children + [q])]
              else before
  {
    var q := order[i];
    assert q in order;
    PlacedAtSnoc(index, order, i, AtRoot);
    var before, after := LinkedIndex(index, order[..i]), LinkedIndex(index, order[..i + 1]);
    if PlacementOf(index, q).UnderParent? {
      var parent := index[q].parentPid;
      var expected := before[parent := before[parent].(children := before[parent].children + [q])];
      forall p | p in index ensures after[p] == expected[p] {
        PlacedAtSnoc(index, order, i, UnderParent(p));
        if p == parent {
          var placed := PlacedAt(index, order[..i], UnderParent(p));
          assert index[p].children + (placed + [q]) == (index[p].children + placed) + [q];
        }
      }
      assert after == expected;
    } else {
      forall p | p in index ensures after[p] == before[p] {
        PlacedAtSnoc(index, order, i, UnderParent(p));
      }
      assert after == before;
    }
  }

  /** Visiting one more pid appends it where it is placed, and nowhere else. */
  lemma PlacedAtSnoc(nodes: map<int, Node>, order: seq<int>, i: int, where: Placement)
    requires 0 <= i < |order| && forall p :: p in order ==> p in nodes
    ensures forall p :: p in order[..i] ==> p in nodes
    ensures PlacedAt(nodes, order[..i + 1], where)
              == PlacedAt(nodes, order[..i], where) + (if PlacementOf(nodes, order[i]) == where then [order[i]] else [])
  {
    assert order[..i + 1][..i] == order[..i];
    assert order[i] in order;
    forall p | p in order[..i] ensures p in nodes {
      assert p in order;
    }
  }

  // ---------------------------------------------------------------------------
  // The shape of the linked forest.

  /** Every child list is duplicate-free and holds only nodes whose parent is its owner. */
  ghost predicate Linked(nodes: map<int, Node>) {
    forall p :: p in nodes ==>
      Distinct(nodes[p].children)
      && forall c :: c in nodes[p].children ==> c in nodes && PlacementOf(nodes, c) == UnderParent(p)
  }

  /** Every node whose parent is in the index is in that parent's child list. */
  ghost predicate Complete(nodes: map<int, Node>) {
    forall c :: c in nodes && PlacementOf(nodes, c).UnderParent? ==> c in nodes[PlacementOf(nodes, c).parent].children
  }

  /** In a linked and complete index, the child list of a node is duplicate-free and
      holds exactly the nodes that name it as their parent. */
  lemma ChildMembers(nodes: map<int, Node>, p: int)
    requires Linked(nodes) && Complete(nodes) && p in nodes && p != 0
    ensures Distinct(nodes[p].children)
    ensures forall c :: c in nodes[p].children <==> c in nodes && nodes[c].parentPid == p
  {
    forall c | c in nodes && nodes[c].parentPid == p ensures c in nodes[p].children {
      assert PlacementOf(nodes, c) == UnderParent(p);
    }
  }

  /** The root list holds each node with parent pid 0 once, and nothing else. */
  ghost predicate RootsExact(nodes: map<int, Node>, roots: seq<int>) {
    && Distinct(roots)
    && (forall i :: 0 <= i < |roots| ==> roots[i] in nodes && nodes[roots[i]].parentPid == 0)
    && (forall p :: p in nodes && nodes[p].parentPid == 0 ==> p in roots)
  }

  ghost predicate NamesDistinct(nodes: map<int, Node>) {
    forall p, q {:trigger nodes[p], nodes[q]} :: p in nodes && q in nodes && p != q ==> nodes[p].name != nodes[q].name
  }

  /** Linking changes no name, so names that identify nodes still do. */
  lemma LinkedIndexNames(index: map<int, Node>, order: seq<int>)
    requires forall p :: p in order ==> p in index
    requires NamesDistinct(index)
    ensures NamesDistinct(LinkedIndex(index, order))
  {
  }

  /** Linking leaves the index's keys and every node's placement as they were, and
      gives a childless node exactly the children placed under it. */
  lemma LinkedIndexPlacement(index: map<int, Node>, order: seq<int>)
    requires forall p :: p in order ==> p in index
    requires forall p :: p in index ==> index[p].children == []
    ensures var linked := LinkedIndex(index, order);
      && linked.Keys == index.Keys
      && (forall p :: p in index ==> PlacementOf(linked, p) == PlacementOf(index, p))
      && (forall p :: p in index ==> linked[p].children == PlacedAt(index, order, UnderParent(p)))
  {
    var linked := LinkedIndex(index, order);
    assert linked.Keys == index.Keys;
    forall p | p in index
      ensures linked[p].parentPid == index[p].parentPid
      ensures linked[p].children == PlacedAt(index, order, UnderParent(p))
    {
      assert [] + PlacedAt(index, order, UnderParent(p)) == PlacedAt(index, order, UnderParent(p));
    }
  }

  /** A root with two children, for showing that child lists keep iteration order. */
  function TwoChildren(): map<int, Node> {
    map[1 := Node("a", 1, 0, []), 2 := Node("b", 2, 1, []), 3 := Node("c", 3, 1, [])]
  }

  /** Child lists are not sorted: they follow the iteration order of the index, so
      two orders of one index give one parent its children in two orders. */
  lemma ChildOrderFollowsIteration()
    ensures LinkedIndex(TwoChildren(), [1, 2, 3])[1].children == [2, 3]
    ensures LinkedIndex(TwoChildren(), [1, 3, 2])[1].children == [3, 2]
  {
    var index := TwoChildren();
    assert [1, 2, 3][..2] == [1, 2] && [1, 2][..1] == [1] && [1][..0] == [];
    assert [1, 3, 2][..2] == [1, 3] && [1, 3][..1] == [1];
    assert PlacedAt(index, [1], UnderParent(1)) == [];
    assert PlacedAt(index, [1, 2], UnderParent(1)) == [2];
    assert PlacedAt(index, [1, 3], UnderParent(1)) == [3];
    assert PlacedAt(index, [1, 2, 3], UnderParent(1)) == [2, 3];
    assert PlacedAt(index, [1, 3, 2], UnderParent(1)) == [3, 2];
  }

  /** Linking an index of childless nodes, visiting each pid once, puts every node in
      exactly the place PlacementOf gives: a root in the root list and in no child
      list, a node with a known parent in that parent's list only, any other node
      nowhere. */
  lemma LinkedIndexIsForest(index: map<int, Node>, order: seq<int>)
    requires Enumerates(order, index.Keys)
    requires forall p :: p in index ==> index[p].children == []
    ensures var linked := LinkedIndex(index, order);
      && Linked(linked) && Complete(linked)
      && RootsExact(linked, PlacedAt(index, order, AtRoot))
  {
    LinkedIndexPlacement(index, order);
    ChildListsExact(index, order);
    LinkedIndexLinked(index, order);
    LinkedIndexComplete(index, order);
    LinkedIndexRoots(index, order);
  }

  lemma LinkedIndexLinked(index: map<int, Node>, order: seq<int>)
    requires forall p :: p in order ==> p in index
    requires var linked := LinkedIndex(index, order);
      && linked.Keys == index.Keys
      && (forall p :: p in index ==> PlacementOf(linked, p) == PlacementOf(index, p))
      && forall p :: p in index ==>
        && Distinct(linked[p].children)
        && forall c :: c in linked[p].children <==> c in index && PlacementOf(index, c) == UnderParent(p)
    ensures Linked(LinkedIndex(index, order))
  {
  }

  lemma LinkedIndexComplete(index: map<int, Node>, order: seq<int>)
    requires forall p :: p in order ==> p in index
    requires var linked := LinkedIndex(index, order);
      && linked.Keys == index.Keys
      && (forall p :: p in index ==> PlacementOf(linked, p) == PlacementOf(index, p))
      && forall p :: p in index ==>
        forall c :: c in linked[p].children <==> c in index && PlacementOf(index, c) == UnderParent(p)
    ensures Complete(LinkedIndex(index, order))
  {
  }

  lemma LinkedIndexRoots(index: map<int, Node>, order: seq<int>)
    requires Enumerates(order, index.Keys)
    ensures RootsExact(LinkedIndex(index, order), PlacedAt(index, order, AtRoot))
  {
    var linked := LinkedIndex(index, order);
    var roots := PlacedAt(index, order, AtRoot);
    PlacedAtMembers(index, order, AtRoot);
    forall i | 0 <= i < |roots| ensures roots[i] in linked && linked[roots[i]].parentPid == 0 {
      var p := roots[i];
      assert p in roots;
    }
    forall p | p in linked && linked[p].parentPid == 0 ensures p in roots {
      assert p in order;
    }
  }

  lemma ChildListsExact(index: map<int, Node>, order: seq<int>)
    requires Enumerates(order, index.Keys)
    requires forall p :: p in index ==> index[p].children == []
    ensures var linked := LinkedIndex(index, order);
      forall p :: p in index ==>
        && Distinct(linked[p].children)
        && forall c :: c in linked[p].children <==> c in index && PlacementOf(index, c) == UnderParent(p)
  {
    LinkedIndexPlacement(index, order);
    forall p | p in index
      ensures PlacedAt(index, order, UnderParent(p)) == LinkedIndex(index, order)[p].children
      ensures Distinct(PlacedAt(index, order, UnderParent(p)))
      ensures forall c :: c in PlacedAt(index, order, UnderParent(p)) <==> c in index && PlacementOf(index, c) == UnderParent(p)
    {
      PlacedAtMembers(index, order, UnderParent(p));
    }
  }

  /** A permutation of an exact root list is an exact root list. */
  lemma RootsExactPermutation(nodes: map<int, Node>, roots: seq<int>, sorted: seq<int>)
    requires RootsExact(nodes, roots) && multiset(sorted) == multiset(roots)
    ensures RootsExact(nodes, sorted)
  {
    forall i | 0 <= i < |sorted| ensures sorted[i] in nodes && nodes[sorted[i]].parentPid == 0 {
      assert sorted[i] in multiset(sorted);
      var k :| 0 <= k < |roots| && roots[k] == sorted[i];
    }
    forall p | p in nodes && nodes[p].parentPid == 0 ensures p in sorted {
      assert p in multiset(roots);
    }
    if !Distinct(sorted) {
      var i, j :| 0 <= i < j < |sorted| && sorted[i] == sorted[j];
      RepeatCounted(sorted, i, j);
      DistinctCounted(roots, sorted[i]);
    }
  }

  lemma {:induction false} DistinctCounted<T>(s: seq<T>, x: T)
    requires Distinct(s)
    ensures multiset(s)[x] <= 1
  {
    if s != [] {
      var n := |s| - 1;
      DistinctCounted(s[..n], x);
      assert s == s[..n] + [s[n]];
      assert s[n] == x ==> x !in s[..n];
    }
  }

  lemma RepeatCounted<T>(s: seq<T>, i: nat, j: nat)
    requires i < j < |s| && s[i] == s[j]
    ensures multiset(s)[s[i]] >= 2
  {
    assert s == s[..j] + [s[j]] + s[j + 1..];
    assert s[i] in s[..j];
  }

  // ---------------------------------------------------------------------------
  // Step 3: sorting the roots by name.

  /** `pids` name nodes of `nodes`, and their names never decrease along the sequence. */
  ghost predicate SortedByName(nodes: map<int, Node>, pids: seq<int>) {
    (forall i :: 0 <= i < |pids| ==> pids[i] in nodes)
    && forall i, j :: 0 <= i < j < |pids| ==> !NameLess(nodes[pids[j]].name, nodes[pids[i]].name)
  }

  /** `roots.sort(Comparator.comparing(node -> node.name))`, as a stable insertion
      sort: an element moves left only past elements with a strictly greater name. */
  method SortByName(nodes: map<int, Node>, pids: seq<int>) returns (sorted: seq<int>)
    requires forall p :: p in pids ==> p in nodes
    ensures multiset(sorted) == multiset(pids)
    ensures SortedByName(nodes, sorted)
  {
    sorted := pids;
    forall k | 0 <= k < |sorted| ensures sorted[k] in nodes {
      var p := sorted[k];
      assert p in pids;
    }
    var i := 0;
    while i < |sorted|
      invariant 0 <= i <= |sorted| == |pids| && multiset(sorted) == multiset(pids)
      invariant forall k :: 0 <= k < |sorted| ==> sorted[k] in nodes
      invariant NeighboursInOrder(nodes, sorted, i)
    {
      sorted := InsertAt(nodes, sorted, i);
      i := i + 1;
    }
    NeighboursSorted(nodes, sorted);
  }

  /** The names of `pids[..n]` never decrease from one element to the next. */
  ghost predicate NeighboursInOrder(nodes: map<int, Node>, pids: seq<int>, n: int)
    requires n <= |pids| && forall k :: 0 <= k < |pids| ==> pids[k] in nodes
  {
    forall k :: 0 < k < n ==> !NameLess(nodes[pids[k]].name, nodes[pids[k - 1]].name)
  }

  /** One pass of the insertion sort: moves `pids[i]` left past the elements of the
      sorted prefix `pids[..i]` whose names are strictly greater. */
  method InsertAt(nodes: map<int, Node>, pids: seq<int>, i: int) returns (sorted: seq<int>)
    requires 0 <= i < |pids| && forall k :: 0 <= k < |pids| ==> pids[k] in nodes
    requires NeighboursInOrder(nodes, pids, i)
    ensures |sorted| == |pids| && multiset(sorted) == multiset(pids)
    ensures forall k :: 0 <= k < |sorted| ==> sorted[k] in nodes
    ensures NeighboursInOrder(nodes, sorted, i + 1)
  {
    sorted := pids;
    var j := i;
    while 0 < j && NameLess(nodes[sorted[j]].name, nodes[sorted[j - 1]].name)
      invariant 0 <= j <= i < |sorted| == |pids| && multiset(sorted) == multiset(pids)
      invariant forall k :: 0 <= k < |sorted| ==> sorted[k] in nodes
      invariant InOrderExceptAt(nodes, sorted, i, j)
    {
      SwapStep(nodes, sorted, i, j);
      sorted := sorted[j - 1 := sorted[j]][j := sorted[j - 1]];
      j := j - 1;
    }
  }

  /** The invariant of the insertion pass: `pids[..i + 1]` is in order except that
      `pids[j]` may sort before its left neighbour, and skipping `pids[j]` its two
      neighbours are in order. */
  ghost predicate InOrderExceptAt(nodes: map<int, Node>, pids: seq<int>, i: int, j: int)
    requires 0 <= j <= i < |pids| && forall k :: 0 <= k < |pids| ==> pids[k] in nodes
  {
    && (forall k :: 0 < k <= i && k != j ==> !NameLess(nodes[pids[k]].name, nodes[pids[k - 1]].name))
    && (0 < j < i ==> !NameLess(nodes[pids[j + 1]].name, nodes[pids[j - 1]].name))
  }

  /** Swapping an out-of-order `pids[j]` with its left neighbour moves the exception
      one place left and keeps the elements. */
  lemma SwapStep(nodes: map<int, Node>, pids: seq<int>, i: int, j: int)
    requires 0 < j <= i < |pids| && forall k :: 0 <= k < |pids| ==> pids[k] in nodes
    requires InOrderExceptAt(nodes, pids, i, j)
    requires NameLess(nodes[pids[j]].name, nodes[pids[j - 1]].name)
    ensures var swapped := pids[j - 1 := pids[j]][j := pids[j - 1]];
      && multiset(swapped) == multiset(pids)
      && (forall k :: 0 <= k < |swapped| ==> swapped[k] in nodes)
      && InOrderExceptAt(nodes, swapped, i, j - 1)
  {
    NameLessAsymmetric(nodes[pids[j]].name, nodes[pids[j - 1]].name);
  }

  lemma {:induction false} NeighboursSorted(nodes: map<int, Node>, pids: seq<int>)
    requires forall k :: 0 <= k < |pids| ==> pids[k] in nodes
    requires NeighboursInOrder(nodes, pids, |pids|)
    ensures SortedByName(nodes, pids)
  {
    if |pids| > 1 {
      var n := |pids| - 1;
      NeighboursSorted(nodes, pids[..n]);
      forall i | 0 <= i < n ensures !NameLess(nodes[pids[n]].name, nodes[pids[i]].name) {
        if i < n - 1 {
          assert pids[..n][i] == pids[i] && pids[..n][n - 1] == pids[n - 1];
          NotAfterTransitive(nodes[pids[i]].name, nodes[pids[n - 1]].name, nodes[pids[n]].name);
        }
      }
    }
  }

  /** With distinct names, a root list sorted by name is strictly ascending. */
  lemma SortedByNameIsStrict(nodes: map<int, Node>, pids: seq<int>)
    requires NamesDistinct(nodes) && SortedByName(nodes, pids) && Distinct(pids)
    ensures StrictlySorted(nodes, pids)
  {
    forall i, j | 0 <= i < j < |pids| ensures NameLess(nodes[pids[i]].name, nodes[pids[j]].name) {
      NameLessTotal(nodes[pids[i]].name, nodes[pids[j]].name);
    }
  }

  /** Determinism: with distinct names, there is only one root list sorted by name,
      whatever order the linking loop visited the nodes in. */
  lemma SortedRootsUnique(nodes: map<int, Node>, a: seq<int>, b: seq<int>)
    requires NamesDistinct(nodes)
    requires RootsExact(nodes, a) && SortedByName(nodes, a)
    requires RootsExact(nodes, b) && SortedByName(nodes, b)
    ensures a == b
  {
    forall i | 0 <= i < |a| ensures a[i] in b {
      var p := a[i];
      assert p in nodes && nodes[p].parentPid == 0;
    }
    forall i | 0 <= i < |b| ensures b[i] in a {
      var p := b[i];
      assert p in nodes && nodes[p].parentPid == 0;
    }
    SortedByNameIsStrict(nodes, a);
    SortedByNameIsStrict(nodes, b);
    StrictSameElements(nodes, a, b);
  }

  /** `pids` name nodes of `nodes` in strictly ascending name order. */
  ghost predicate StrictlySorted(nodes: map<int, Node>, pids: seq<int>) {
    (forall i :: 0 <= i < |pids| ==> pids[i] in nodes)
    && forall i, j :: 0 <= i < j < |pids| ==> NameLess(nodes[pids[i]].name, nodes[pids[j]].name)
  }

  lemma {:induction false} StrictSameElements(nodes: map<int, Node>, a: seq<int>, b: seq<int>)
    requires Distinct(a) && StrictlySorted(nodes, a)
    requires Distinct(b) && StrictlySorted(nodes, b)
    requires forall i :: 0 <= i < |a| ==> a[i] in b
    requires forall i :: 0 <= i < |b| ==> b[i] in a
    ensures a == b
  {
    if a != [] {
      assert a[0] in b;
    }
    if b != [] {
      assert b[0] in a;
    }
    if a != [] && b != [] {
      StrictHeadsEqual(nodes, a, b);
      TailSameElements(a, b);
      TailSameElements(b, a);
      StrictTail(nodes, a);
      StrictTail(nodes, b);
      StrictSameElements(nodes, a[1..], b[1..]);
      SameHeadAndTail(a, b);
    }
  }

  lemma SameHeadAndTail(a: seq<int>, b: seq<int>)
    requires a != [] && b != [] && a[0] == b[0] && a[1..] == b[1..]
    ensures a == b
  {
    assert a == [a[0]] + a[1..] && b == [b[0]] + b[1..];
  }

  lemma StrictTail(nodes: map<int, Node>, a: seq<int>)
    requires a != [] && Distinct(a) && StrictlySorted(nodes, a)
    ensures Distinct(a[1..]) && StrictlySorted(nodes, a[1..])
  {
  }

  /** Two strictly sorted lists with the same elements start with the same element. */
  lemma StrictHeadsEqual(nodes: map<int, Node>, a: seq<int>, b: seq<int>)
    requires a != [] && b != [] && StrictlySorted(nodes, a) && StrictlySorted(nodes, b)
    requires a[0] in b && b[0] in a
    ensures a[0] == b[0]
  {
    if a[0] != b[0] {
      var k :| 0 <= k < |b| && b[k] == a[0];
      var m :| 0 <= m < |a| && a[m] == b[0];
      NameLessAsymmetric(nodes[a[0]].name, nodes[b[0]].name);
    }
  }

  lemma TailSameElements(a: seq<int>, b: seq<int>)
    requires a != [] && b != [] && a[0] == b[0] && Distinct(a) && Distinct(b)
    requires forall i :: 0 <= i < |a| ==> a[i] in b
    ensures forall i :: 0 <= i < |a[1..]| ==> a[1..][i] in b[1..]
  {
    forall i | 0 <= i < |a[1..]| ensures a[1..][i] in b[1..] {
      assert a[1..][i] == a[i + 1] != a[0];
      var j :| 0 <= j < |b| && b[j] == a[i + 1];
      assert b[1..][j - 1] == b[j];
    }
  }

  ghost predicate IsForest(nodes: map<int, Node>, roots: seq<int>) {
    Linked(nodes) && Complete(nodes) && RootsExact(nodes, roots)
    && SortedByName(nodes, roots) && NamesDistinct(nodes)
  }
}
