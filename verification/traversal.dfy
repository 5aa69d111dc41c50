/** The depth-first printer. A visit is recorded by the visited node's root path:
    the pids from its root down to the node itself, so the depth DFSUtil is called
    with is the length of that path minus one. */
module Traversal {
  import opened ParserStringToJSON
  import opened Forest

  /** The indentation DFSUtil prints before a name at `depth`: "----" per level. */
  function Indent(depth: nat): (r: string)
    ensures |r| == 4 * depth
    ensures forall i :: 0 <= i < |r| ==> r[i] == '-'
  {
    if depth == 0 then "" else Indent(depth - 1) + "----"
  }

  function Last(path: seq<int>): int
    requires |path| > 0
  {
    path[|path| - 1]
  }

  /** `path` leads from a root (parent pid 0) down to its last node, each node's
      parent pid being the node before it. These are exactly the paths along which
      the root list and the child lists reach a node. */
  ghost predicate IsChain(nodes: map<int, Node>, path: seq<int>) {
    && |path| > 0
    && (forall i :: 0 <= i < |path| ==> path[i] in nodes)
    && nodes[path[0]].parentPid == 0
    && (forall i :: 0 <= i < |path| - 1 ==> path[i] != 0 && nodes[path[i + 1]].parentPid == path[i])
  }

  /** No node occurs twice on a root path: parent cycles are never entered. */
  lemma ChainDistinct(nodes: map<int, Node>, path: seq<int>)
    requires IsChain(nodes, path)
    ensures Distinct(path)
  {
    forall i, j | 0 <= i < j < |path| ensures path[i] != path[j] {
      ChainNoRepeat(nodes, path, i, j);
    }
  }

  lemma {:induction false} ChainNoRepeat(nodes: map<int, Node>, path: seq<int>, i: nat, j: nat)
    requires IsChain(nodes, path) && i < j < |path|
    ensures path[i] != path[j]
  {
    assert nodes[path[j]].parentPid == path[j - 1] != 0;
    if i > 0 {
      ChainNoRepeat(nodes, path, i - 1, j - 1);
      assert nodes[path[i]].parentPid == path[i - 1];
    }
  }

  /** A node is reached along at most one root path. */
  lemma {:induction false} ChainUnique(nodes: map<int, Node>, a: seq<int>, b: seq<int>)
    requires IsChain(nodes, a) && IsChain(nodes, b)
    requires a[|a| - 1] == b[|b| - 1]
    ensures a == b
    decreases |a|
  {
    var m, n := |a| - 1, |b| - 1;
    if m > 0 {
      assert nodes[a[m]].parentPid == a[m - 1] != 0;
    }
    if n > 0 {
      assert nodes[b[n]].parentPid == b[n - 1] != 0;
    }
    if m > 0 && n > 0 {
      ChainPrefix(nodes, a, m);
      ChainPrefix(nodes, b, n);
      ChainUnique(nodes, a[..m], b[..n]);
      assert a == a[..m] + [a[m]] && b == b[..n] + [b[n]];
    }
  }

  /** Every non-empty prefix of a root path is a root path. */
  lemma ChainPrefix(nodes: map<int, Node>, path: seq<int>, k: nat)
    requires IsChain(nodes, path) && 0 < k <= |path|
    ensures IsChain(nodes, path[..k])
  {
  }

  /** A node placed under the last node of a root path extends that path. */
  lemma ChainExtend(nodes: map<int, Node>, path: seq<int>, c: int)
    requires IsChain(nodes, path) && c in nodes
    requires PlacementOf(nodes, c) == UnderParent(path[|path| - 1])
    ensures IsChain(nodes, path + [c])
  {
  }

  /** Each child in a linked child list extends the root path of its parent. */
  lemma ChildrenExtendChain(nodes: map<int, Node>, path: seq<int>, p: int)
    requires Linked(nodes) && p in nodes && IsChain(nodes, path + [p])
    ensures forall k :: 0 <= k < |nodes[p].children| ==>
              IsChain(nodes, path + [p] + [nodes[p].children[k]])
  {
    var ext := path + [p];
    assert ext[|ext| - 1] == p;
    var children := nodes[p].children;
    forall k | 0 <= k < |children| ensures IsChain(nodes, ext + [children[k]]) {
      var c := children[k];
      assert c in children;
      ChainExtend(nodes, ext, c);
    }
  }

  /** A node whose parent pid is its own (non-zero) pid is never on a root path. */
  lemma SelfParentUnreachable(nodes: map<int, Node>, path: seq<int>)
    requires IsChain(nodes, path)
    ensures forall i :: 0 <= i < |path| ==> nodes[path[i]].parentPid != path[i] || path[i] == 0
  {
    ChainDistinct(nodes, path);
    forall i | 0 < i < |path| ensures nodes[path[i]].parentPid != path[i] {
      assert nodes[path[i]].parentPid == path[i - 1];
    }
  }

  /** A node the linking loop dropped, because its parent pid is neither 0 nor in
      the index, is on no root path, and neither is anything below it. */
  lemma OrphanUnreachable(nodes: map<int, Node>, path: seq<int>)
    requires IsChain(nodes, path)
    ensures forall i :: 0 <= i < |path| ==> PlacementOf(nodes, path[i]) != Dropped
  {
    forall i | 0 < i < |path| ensures PlacementOf(nodes, path[i]) != Dropped {
      assert nodes[path[i]].parentPid == path[i - 1];
    }
  }

  /** The node `k` parent links above `x`, following parent pids through the index;
      `None` once a parent pid is 0 (the node is a root) or not in the index. */
  function Ancestor(nodes: map<int, Node>, x: int, k: nat): Option<int>
    decreases k
  {
    if k == 0 then Some(x)
    else if x in nodes && nodes[x].parentPid != 0 then Ancestor(nodes, nodes[x].parentPid, k - 1)
    else None
  }

  /** Along a root path, the parent links lead back up the path to its root, and
      from there nowhere. */
  lemma {:induction false} AncestorOnChain(nodes: map<int, Node>, path: seq<int>, m: nat, k: nat)
    requires IsChain(nodes, path) && m < |path|
    ensures Ancestor(nodes, path[m], k) == if k <= m then Some(path[m - k]) else None
    decreases k
  {
    if k > 0 {
      if m > 0 {
        assert nodes[path[m]].parentPid == path[m - 1] != 0;
        AncestorOnChain(nodes, path, m - 1, k - 1);
      } else {
        assert nodes[path[0]].parentPid == 0;
      }
    }
  }

  /** A node on a cycle of parent pids, of any length, is on no root path. */
  lemma CycleUnreachable(nodes: map<int, Node>, path: seq<int>, x: int, k: nat)
    requires IsChain(nodes, path)
    requires k > 0 && Ancestor(nodes, x, k) == Some(x)
    ensures x !in path
  {
    ChainDistinct(nodes, path);
    forall m | 0 <= m < |path| ensures path[m] != x {
      AncestorOnChain(nodes, path, m, k);
    }
  }

  /** The nodes not yet on the current path: what bounds the recursion. */
  ghost function Unvisited(nodes: map<int, Node>, path: seq<int>): set<int> {
    nodes.Keys - set x | x in path
  }

  lemma NextUnvisited(nodes: map<int, Node>, path: seq<int>, p: int)
    requires IsChain(nodes, path + [p])
    ensures Unvisited(nodes, path + [p]) < Unvisited(nodes, path)
  {
    ChainDistinct(nodes, path + [p]);
    var ext := path + [p];
    assert ext[|path|] == p;
    assert p !in path by {
      forall k | 0 <= k < |path| ensures path[k] != p {
        assert ext[k] == path[k];
      }
    }
    assert p in nodes;
    assert p in Unvisited(nodes, path) && p !in Unvisited(nodes, path + [p]);
  }

  // ---------------------------------------------------------------------------
  // The traversal.

  /** `DFSUtil(node, depth)`: the node itself, then each child's subtree in
      child-list order; `path` holds the node's ancestors, root first. */
  function DFSUtil(nodes: map<int, Node>, pid: int, path: seq<int>): seq<seq<int>>
    requires Linked(nodes) && IsChain(nodes, path + [pid])
    decreases Unvisited(nodes, path), 0
  {
    NextUnvisited(nodes, path, pid);
    ChildrenExtendChain(nodes, path, pid);
    [path + [pid]] + DFSUtilAll(nodes, nodes[pid].children, path + [pid])
  }

  /** The `for` loop over a list of nodes sharing the ancestors `path`. */
  function DFSUtilAll(nodes: map<int, Node>, pids: seq<int>, path: seq<int>): seq<seq<int>>
    requires Linked(nodes)
    requires forall k :: 0 <= k < |pids| ==> IsChain(nodes, path + [pids[k]])
    decreases Unvisited(nodes, path), |pids|
  {
    if pids == [] then []
    else DFSUtil(nodes, pids[0], path) + DFSUtilAll(nodes, pids[1..], path)
  }

  /** The line DFSUtil prints for the node at the end of `path`: four dashes per
      ancestor, then the node's name. */
  function Line(nodes: map<int, Node>, path: seq<int>): (line: string)
    requires |path| > 0 && Last(path) in nodes
    ensures |line| == 4 * (|path| - 1) + |nodes[Last(path)].name|
    ensures forall i :: 0 <= i < 4 * (|path| - 1) ==> line[i] == '-'
    ensures line[4 * (|path| - 1)..] == nodes[Last(path)].name
  {
    Indent(|path| - 1) + nodes[Last(path)].name
  }

  // ---------------------------------------------------------------------------
  // What the traversal visits.

  /** `x` is a root path through the ancestors `path` and at least one node below. */
  ghost predicate Descends(nodes: map<int, Node>, path: seq<int>, x: seq<int>) {
    IsChain(nodes, x) && |x| > |path| && x[..|path|] == path
  }

  /** Every visit of DFSUtil is along a root path that runs through `pid`, and
      the first one is `pid`'s own. */
  lemma {:induction false} DFSUtilChains(nodes: map<int, Node>, pid: int, path: seq<int>)
    requires Linked(nodes) && IsChain(nodes, path + [pid])
    ensures DFSUtil(nodes, pid, path)[0] == path + [pid]
    ensures forall k :: 0 <= k < |DFSUtil(nodes, pid, path)| ==>
              Descends(nodes, path, DFSUtil(nodes, pid, path)[k])
              && DFSUtil(nodes, pid, path)[k][|path|] == pid
              && (k > 0 ==> |DFSUtil(nodes, pid, path)[k]| > |path| + 1)
    decreases Unvisited(nodes, path), 0
  {
    NextUnvisited(nodes, path, pid);
    ChildrenExtendChain(nodes, path, pid);
    var ext := path + [pid];
    var below := DFSUtilAll(nodes, nodes[pid].children, ext);
    DFSUtilAllChains(nodes, nodes[pid].children, ext);
    var visited := DFSUtil(nodes, pid, path);
    assert visited == [ext] + below;
    forall k | 0 <= k < |visited|
      ensures Descends(nodes, path, visited[k]) && visited[k][|path|] == pid
      ensures k > 0 ==> |visited[k]| > |path| + 1
    {
      if k > 0 {
        var x := below[k - 1];
        assert x[..|path|] == x[..|ext|][..|path|];
        assert x[|path|] == x[..|ext|][|path|];
      }
    }
  }

  lemma {:induction false} DFSUtilAllChains(nodes: map<int, Node>, pids: seq<int>, path: seq<int>)
    requires Linked(nodes)
    requires forall k :: 0 <= k < |pids| ==> IsChain(nodes, path + [pids[k]])
    ensures forall k :: 0 <= k < |DFSUtilAll(nodes, pids, path)| ==>
              Descends(nodes, path, DFSUtilAll(nodes, pids, path)[k])
              && DFSUtilAll(nodes, pids, path)[k][|path|] in pids
    decreases Unvisited(nodes, path), |pids|
  {
    if pids != [] {
      DFSUtilChains(nodes, pids[0], path);
      DFSUtilAllChains(nodes, pids[1..], path);
      var first := DFSUtil(nodes, pids[0], path);
      var rest := DFSUtilAll(nodes, pids[1..], path);
      var visited := DFSUtilAll(nodes, pids, path);
      assert visited == first + rest;
      assert pids == [pids[0]] + pids[1..];
      forall k | 0 <= k < |visited|
        ensures Descends(nodes, path, visited[k]) && visited[k][|path|] in pids
      {
        if k < |first| {
          assert visited[k] == first[k];
        } else {
          assert visited[k] == rest[k - |first|];
          assert visited[k][|path|] in pids[1..];
        }
      }
    }
  }

  /** A later visit is never an earlier one again, nor one of its ancestors. */
  ghost predicate NoLaterPrefix(visited: seq<seq<int>>) {
    forall i, j :: 0 <= i < j < |visited| ==> !(visited[j] <= visited[i])
  }

  lemma {:induction false} DFSUtilOrdered(nodes: map<int, Node>, pid: int, path: seq<int>)
    requires Linked(nodes) && IsChain(nodes, path + [pid])
    ensures NoLaterPrefix(DFSUtil(nodes, pid, path))
    decreases Unvisited(nodes, path), 0
  {
    NextUnvisited(nodes, path, pid);
    ChildrenExtendChain(nodes, path, pid);
    var ext := path + [pid];
    assert pid in nodes by { assert ext[|path|] == pid; }
    var below := DFSUtilAll(nodes, nodes[pid].children, ext);
    DFSUtilAllChains(nodes, nodes[pid].children, ext);
    DFSUtilAllOrdered(nodes, nodes[pid].children, ext);
    assert DFSUtil(nodes, pid, path) == [ext] + below;
    PrependOrdered(ext, below);
  }

  lemma {:induction false} DFSUtilAllOrdered(nodes: map<int, Node>, pids: seq<int>, path: seq<int>)
    requires Linked(nodes) && Distinct(pids)
    requires forall k :: 0 <= k < |pids| ==> IsChain(nodes, path + [pids[k]])
    ensures NoLaterPrefix(DFSUtilAll(nodes, pids, path))
    decreases Unvisited(nodes, path), |pids|
  {
    if pids != [] {
      DFSUtilChains(nodes, pids[0], path);
      DFSUtilAllChains(nodes, pids[1..], path);
      DFSUtilOrdered(nodes, pids[0], path);
      DFSUtilAllOrdered(nodes, pids[1..], path);
      var first := DFSUtil(nodes, pids[0], path);
      var rest := DFSUtilAll(nodes, pids[1..], path);
      assert DFSUtilAll(nodes, pids, path) == first + rest;
      forall k | 0 <= k < |rest| ensures |rest[k]| > |path| && rest[k][|path|] != pids[0] {
        var m :| 0 <= m < |pids[1..]| && pids[1..][m] == rest[k][|path|];
        assert pids[1..][m] == pids[m + 1];
      }
      ConcatOrdered(first, rest, |path|);
    }
  }

  /** A visit followed by visits strictly below it keeps later visits off earlier
      ones. */
  lemma PrependOrdered(first: seq<int>, below: seq<seq<int>>)
    requires NoLaterPrefix(below)
    requires forall k :: 0 <= k < |below| ==> |below[k]| > |first|
    ensures NoLaterPrefix([first] + below)
  {
    var visited := [first] + below;
    forall i, j | 0 <= i < j < |visited| ensures !(visited[j] <= visited[i]) {
      if i == 0 {
        assert |below[j - 1]| > |first|;
      } else {
        assert visited[i] == below[i - 1] && visited[j] == below[j - 1];
      }
    }
  }

  /** Two runs of visits that differ at position `n` of every path never revisit
      each other. */
  lemma ConcatOrdered(first: seq<seq<int>>, rest: seq<seq<int>>, n: nat)
    requires NoLaterPrefix(first) && NoLaterPrefix(rest)
    requires forall k :: 0 <= k < |first| ==> |first[k]| > n
    requires forall k :: 0 <= k < |rest| ==> |rest[k]| > n
    requires forall k, m :: 0 <= k < |first| && 0 <= m < |rest| ==> first[k][n] != rest[m][n]
    ensures NoLaterPrefix(first + rest)
  {
    var visited := first + rest;
    forall i, j | 0 <= i < j < |visited| ensures !(visited[j] <= visited[i]) {
      if i < |first| <= j {
        assert first[i][n] != rest[j - |first|][n];
      } else if j < |first| {
        assert visited[i] == first[i] && visited[j] == first[j];
      } else {
        assert visited[i] == rest[i - |first|] && visited[j] == rest[j - |first|];
      }
    }
  }

  /** Every root path through the ancestors `path` and then `pid` is visited. */
  lemma {:induction false} DFSUtilComplete(nodes: map<int, Node>, pid: int, path: seq<int>, x: seq<int>)
    requires Linked(nodes) && Complete(nodes) && IsChain(nodes, path + [pid])
    requires Descends(nodes, path, x) && x[|path|] == pid
    ensures x in DFSUtil(nodes, pid, path)
    decreases Unvisited(nodes, path), 0
  {
    NextUnvisited(nodes, path, pid);
    ChildrenExtendChain(nodes, path, pid);
    var ext := path + [pid];
    var below := DFSUtilAll(nodes, nodes[pid].children, ext);
    assert DFSUtil(nodes, pid, path) == [ext] + below;
    assert x[..|ext|] == ext by {
      assert x[..|ext|] == x[..|path|] + [x[|path|]];
    }
    if |x| == |ext| {
      assert x == x[..|ext|];
    } else {
      var c := x[|ext|];
      assert c in nodes && pid in nodes;
      assert pid != 0 && nodes[c].parentPid == pid;
      assert PlacementOf(nodes, c) == UnderParent(pid);
      DFSUtilAllComplete(nodes, nodes[pid].children, ext, x);
    }
  }

  lemma {:induction false} DFSUtilAllComplete(nodes: map<int, Node>, pids: seq<int>, path: seq<int>, x: seq<int>)
    requires Linked(nodes) && Complete(nodes)
    requires forall k :: 0 <= k < |pids| ==> IsChain(nodes, path + [pids[k]])
    requires Descends(nodes, path, x) && x[|path|] in pids
    ensures x in DFSUtilAll(nodes, pids, path)
    decreases Unvisited(nodes, path), |pids|
  {
    var first := DFSUtil(nodes, pids[0], path);
    var rest := DFSUtilAll(nodes, pids[1..], path);
    assert DFSUtilAll(nodes, pids, path) == first + rest;
    if x[|path|] == pids[0] {
      DFSUtilComplete(nodes, pids[0], path, x);
    } else {
      assert pids == [pids[0]] + pids[1..];
      DFSUtilAllComplete(nodes, pids[1..], path, x);
    }
  }

  // ---------------------------------------------------------------------------
  // The order among siblings.

  /** The visits at depth `n - 1`, in the order they are made. */
  function AtDepth(visited: seq<seq<int>>, n: nat): (r: seq<seq<int>>)
    ensures forall k :: 0 <= k < |r| ==> |r[k]| == n
  {
    if visited == [] then []
    else (if |visited[0]| == n then [visited[0]] else []) + AtDepth(visited[1..], n)
  }

  lemma {:induction false} AtDepthConcat(a: seq<seq<int>>, b: seq<seq<int>>, n: nat)
    ensures AtDepth(a + b, n) == AtDepth(a, n) + AtDepth(b, n)
  {
    if a == [] {
      assert a + b == b;
    } else {
      assert (a + b)[0] == a[0] && (a + b)[1..] == a[1..] + b;
      AtDepthConcat(a[1..], b, n);
    }
  }

  lemma {:induction false} AtDepthNone(visited: seq<seq<int>>, n: nat)
    requires forall k :: 0 <= k < |visited| ==> |visited[k]| > n
    ensures AtDepth(visited, n) == []
  {
    if visited != [] {
      AtDepthNone(visited[1..], n);
    }
  }

  /** The paths that extend `path` by each pid of `pids`, in order. */
  function ChildPaths(path: seq<int>, pids: seq<int>): (r: seq<seq<int>>)
    ensures |r| == |pids| && forall k :: 0 <= k < |r| ==> r[k] == path + [pids[k]]
  {
    if pids == [] then [] else [path + [pids[0]]] + ChildPaths(path, pids[1..])
  }

  /** `DFSUtil` makes exactly one visit at its own depth: its node's. */
  lemma DFSUtilAtOwnDepth(nodes: map<int, Node>, pid: int, path: seq<int>)
    requires Linked(nodes) && IsChain(nodes, path + [pid])
    ensures AtDepth(DFSUtil(nodes, pid, path), |path| + 1) == [path + [pid]]
  {
    var visited := DFSUtil(nodes, pid, path);
    DFSUtilChains(nodes, pid, path);
    assert visited == [visited[0]] + visited[1..];
    AtDepthConcat([visited[0]], visited[1..], |path| + 1);
    AtDepthNone(visited[1..], |path| + 1);
  }

  /** The nodes of a list are visited in the list's order, each right where the
      traversal reaches the list's depth: the child lists' order and the roots'
      order are the order of the printout. */
  lemma {:induction false} DFSUtilAllSiblings(nodes: map<int, Node>, pids: seq<int>, path: seq<int>)
    requires Linked(nodes)
    requires forall k :: 0 <= k < |pids| ==> IsChain(nodes, path + [pids[k]])
    ensures AtDepth(DFSUtilAll(nodes, pids, path), |path| + 1) == ChildPaths(path, pids)
  {
    if pids != [] {
      var first := DFSUtil(nodes, pids[0], path);
      var rest := DFSUtilAll(nodes, pids[1..], path);
      assert DFSUtilAll(nodes, pids, path) == first + rest;
      DFSUtilAtOwnDepth(nodes, pids[0], path);
      DFSUtilAllSiblings(nodes, pids[1..], path);
      AtDepthConcat(first, rest, |path| + 1);
    }
  }

  // ---------------------------------------------------------------------------
  // Depth first, and children in child-list order.

  /** Each visit hangs under the visit before it or under one of that visit's
      ancestors: a subtree is finished before the walk moves on to the next one. */
  ghost predicate DepthFirst(visited: seq<seq<int>>) {
    forall i :: 0 < i < |visited| ==>
      |visited[i]| > 0 && visited[i][..|visited[i]| - 1] <= visited[i - 1]
  }

  lemma DepthFirstConcat(a: seq<seq<int>>, b: seq<seq<int>>)
    requires DepthFirst(a) && DepthFirst(b)
    requires |b| > 0 ==> |b[0]| > 0
    requires |a| > 0 && |b| > 0 ==> b[0][..|b[0]| - 1] <= a[|a| - 1]
    ensures DepthFirst(a + b)
  {
    var v := a + b;
    forall i | 0 < i < |v| ensures |v[i]| > 0 && v[i][..|v[i]| - 1] <= v[i - 1] {
      if i < |a| {
        assert v[i] == a[i] && v[i - 1] == a[i - 1];
      } else if i == |a| {
        assert v[i] == b[0] && v[i - 1] == a[|a| - 1];
      } else {
        assert v[i] == b[i - |a|] && v[i - 1] == b[i - 1 - |a|];
      }
    }
  }

  lemma {:induction false} DFSUtilDepthFirst(nodes: map<int, Node>, pid: int, path: seq<int>)
    requires Linked(nodes) && IsChain(nodes, path + [pid])
    ensures DepthFirst(DFSUtil(nodes, pid, path))
    decreases Unvisited(nodes, path), 0
  {
    NextUnvisited(nodes, path, pid);
    ChildrenExtendChain(nodes, path, pid);
    var ext := path + [pid];
    var below := DFSUtilAll(nodes, nodes[pid].children, ext);
    DFSUtilAllDepthFirst(nodes, nodes[pid].children, ext);
    assert DFSUtil(nodes, pid, path) == [ext] + below;
    if below != [] {
      assert below[0][..|below[0]| - 1] == ext;
    }
    DepthFirstConcat([ext], below);
  }

  lemma {:induction false} DFSUtilAllDepthFirst(nodes: map<int, Node>, pids: seq<int>, path: seq<int>)
    requires Linked(nodes)
    requires forall k :: 0 <= k < |pids| ==> IsChain(nodes, path + [pids[k]])
    ensures DepthFirst(DFSUtilAll(nodes, pids, path))
    ensures pids != [] ==> |DFSUtilAll(nodes, pids, path)| > 0 && DFSUtilAll(nodes, pids, path)[0] == path + [pids[0]]
    ensures pids == [] ==> DFSUtilAll(nodes, pids, path) == []
    decreases Unvisited(nodes, path), |pids|
  {
    if pids != [] {
      var first := DFSUtil(nodes, pids[0], path);
      var rest := DFSUtilAll(nodes, pids[1..], path);
      assert DFSUtilAll(nodes, pids, path) == first + rest;
      DFSUtilChains(nodes, pids[0], path);
      DFSUtilDepthFirst(nodes, pids[0], path);
      DFSUtilAllDepthFirst(nodes, pids[1..], path);
      if rest != [] {
        assert rest[0][..|rest[0]| - 1] == path;
        assert Descends(nodes, path, first[|first| - 1]);
      }
      DepthFirstConcat(first, rest);
    }
  }

  /** `x` is visited before `y`. */
  ghost predicate Before(visited: seq<seq<int>>, x: seq<int>, y: seq<int>) {
    exists i, j :: 0 <= i < j < |visited| && visited[i] == x && visited[j] == y
  }

  lemma BeforeConcat(a: seq<seq<int>>, b: seq<seq<int>>, x: seq<int>, y: seq<int>)
    requires Before(a, x, y) || Before(b, x, y)
    ensures Before(a + b, x, y)
  {
    if Before(a, x, y) {
      var i, j :| 0 <= i < j < |a| && a[i] == x && a[j] == y;
      assert (a + b)[i] == x && (a + b)[j] == y;
    } else {
      var i, j :| 0 <= i < j < |b| && b[i] == x && b[j] == y;
      assert (a + b)[i + |a|] == x && (a + b)[j + |a|] == y;
    }
  }

  /** For every visit, the visits of its children follow its child list's order. */
  ghost predicate ChildrenInOrder(nodes: map<int, Node>, visited: seq<seq<int>>) {
    forall k, a, b ::
      (0 <= k < |visited| && |visited[k]| > 0 && Last(visited[k]) in nodes
       && 0 <= a < b < |nodes[Last(visited[k])].children|) ==>
      Before(visited, visited[k] + [nodes[Last(visited[k])].children[a]],
                      visited[k] + [nodes[Last(visited[k])].children[b]])
  }

  lemma {:induction false} AtDepthMember(visited: seq<seq<int>>, n: nat, a: nat)
    requires a < |AtDepth(visited, n)|
    ensures exists i :: 0 <= i < |visited| && visited[i] == AtDepth(visited, n)[a]
  {
    var head := if |visited[0]| == n then [visited[0]] else [];
    assert AtDepth(visited, n) == head + AtDepth(visited[1..], n);
    if a < |head| {
      assert visited[0] == AtDepth(visited, n)[a];
    } else {
      AtDepthMember(visited[1..], n, a - |head|);
      var i :| 0 <= i < |visited[1..]| && visited[1..][i] == AtDepth(visited[1..], n)[a - |head|];
      assert visited[i + 1] == AtDepth(visited, n)[a];
    }
  }

  /** The visits at one depth are in the order the walk makes them. */
  lemma {:induction false} AtDepthBefore(visited: seq<seq<int>>, n: nat, a: nat, b: nat)
    requires a < b < |AtDepth(visited, n)|
    ensures Before(visited, AtDepth(visited, n)[a], AtDepth(visited, n)[b])
  {
    var head := if |visited[0]| == n then [visited[0]] else [];
    var tail := AtDepth(visited[1..], n);
    assert AtDepth(visited, n) == head + tail;
    if head != [] && a == 0 {
      AtDepthFirstBefore(visited, n, b);
    } else {
      AtDepthBefore(visited[1..], n, a - |head|, b - |head|);
      assert visited == [visited[0]] + visited[1..];
      BeforeConcat([visited[0]], visited[1..], tail[a - |head|], tail[b - |head|]);
    }
  }

  /** A first visit at depth `n` made first of all comes before the others there. */
  lemma AtDepthFirstBefore(visited: seq<seq<int>>, n: nat, b: nat)
    requires visited != [] && |visited[0]| == n && 0 < b < |AtDepth(visited, n)|
    ensures Before(visited, AtDepth(visited, n)[0], AtDepth(visited, n)[b])
  {
    var tail := AtDepth(visited[1..], n);
    assert AtDepth(visited, n) == [visited[0]] + tail;
    AtDepthMember(visited[1..], n, b - 1);
    var j :| 0 <= j < |visited[1..]| && visited[1..][j] == tail[b - 1];
    assert visited[j + 1] == AtDepth(visited, n)[b];
  }

  lemma {:induction false} DFSUtilChildOrder(nodes: map<int, Node>, pid: int, path: seq<int>)
    requires Linked(nodes) && IsChain(nodes, path + [pid])
    ensures ChildrenInOrder(nodes, DFSUtil(nodes, pid, path))
    decreases Unvisited(nodes, path), 0
  {
    NextUnvisited(nodes, path, pid);
    ChildrenExtendChain(nodes, path, pid);
    var ext := path + [pid];
    assert pid in nodes && Last(ext) == pid by { assert ext[|path|] == pid; }
    var children := nodes[pid].children;
    var below := DFSUtilAll(nodes, children, ext);
    var visited := DFSUtil(nodes, pid, path);
    assert visited == [ext] + below;
    DFSUtilAllChildOrder(nodes, children, ext);
    DFSUtilAllSiblings(nodes, children, ext);
    forall k, a, b | 0 <= k < |visited| && |visited[k]| > 0 && Last(visited[k]) in nodes
        && 0 <= a < b < |nodes[Last(visited[k])].children|
      ensures Before(visited, visited[k] + [nodes[Last(visited[k])].children[a]],
                              visited[k] + [nodes[Last(visited[k])].children[b]])
    {
      if k == 0 {
        AtDepthBefore(below, |ext| + 1, a, b);
        BeforeConcat([ext], below, ext + [children[a]], ext + [children[b]]);
      } else {
        var x := below[k - 1];
        assert visited[k] == x;
        BeforeConcat([ext], below, x + [nodes[Last(x)].children[a]], x + [nodes[Last(x)].children[b]]);
      }
    }
  }

  lemma {:induction false} DFSUtilAllChildOrder(nodes: map<int, Node>, pids: seq<int>, path: seq<int>)
    requires Linked(nodes)
    requires forall k :: 0 <= k < |pids| ==> IsChain(nodes, path + [pids[k]])
    ensures ChildrenInOrder(nodes, DFSUtilAll(nodes, pids, path))
    decreases Unvisited(nodes, path), |pids|
  {
    if pids != [] {
      var first := DFSUtil(nodes, pids[0], path);
      var rest := DFSUtilAll(nodes, pids[1..], path);
      var visited := DFSUtilAll(nodes, pids, path);
      assert visited == first + rest;
      DFSUtilChildOrder(nodes, pids[0], path);
      DFSUtilAllChildOrder(nodes, pids[1..], path);
      forall k, a, b | 0 <= k < |visited| && |visited[k]| > 0 && Last(visited[k]) in nodes
          && 0 <= a < b < |nodes[Last(visited[k])].children|
        ensures Before(visited, visited[k] + [nodes[Last(visited[k])].children[a]],
                                visited[k] + [nodes[Last(visited[k])].children[b]])
      {
        var x := visited[k];
        if k < |first| {
          assert x == first[k];
        } else {
          assert x == rest[k - |first|];
        }
        BeforeConcat(first, rest, x + [nodes[Last(x)].children[a]], x + [nodes[Last(x)].children[b]]);
      }
    }
  }

  // ---------------------------------------------------------------------------
  // The whole traversal.

  /** What DFSTraverse visits: each root's subtree in root-list order. */
  function Visits(nodes: map<int, Node>, roots: seq<int>): seq<seq<int>>
    requires Linked(nodes) && RootsExact(nodes, roots)
  {
    RootChains(nodes, roots);
    DFSUtilAll(nodes, roots, [])
  }

  lemma RootChains(nodes: map<int, Node>, roots: seq<int>)
    requires RootsExact(nodes, roots)
    ensures forall k :: 0 <= k < |roots| ==> IsChain(nodes, [] + [roots[k]])
  {
    forall k | 0 <= k < |roots| ensures IsChain(nodes, [] + [roots[k]]) {
      assert [] + [roots[k]] == [roots[k]];
    }
  }

  /** A depth-first pre-order walk of the nodes reachable from the roots: each
      visit is along a root path, every node on a root path is visited, no node
      twice, each node after all its ancestors, each subtree finished before the
      walk moves on, and each node's children in its child list's order. */
  ghost predicate IsPreorder(nodes: map<int, Node>, visited: seq<seq<int>>) {
    && (forall k :: 0 <= k < |visited| ==> IsChain(nodes, visited[k]))
    && (forall x :: IsChain(nodes, x) ==> x in visited)
    && (forall i, j :: 0 <= i < j < |visited| ==> Last(visited[i]) != Last(visited[j]))
    && (forall j, n :: 0 <= j < |visited| && 0 < n < |visited[j]| ==>
          exists i :: 0 <= i < j && visited[i] == visited[j][..n])
    && DepthFirst(visited)
    && ChildrenInOrder(nodes, visited)
  }

  /** DFSTraverse prints every node reachable from a root exactly once, after its
      parent, and no other node; nodes in a parent cycle or under a missing parent
      are never reached. */
  lemma VisitsArePreorder(nodes: map<int, Node>, roots: seq<int>)
    requires Linked(nodes) && Complete(nodes) && RootsExact(nodes, roots)
    ensures IsPreorder(nodes, Visits(nodes, roots))
  {
    RootChains(nodes, roots);
    DFSUtilAllChains(nodes, roots, []);
    VisitsComplete(nodes, roots);
    VisitsOnce(nodes, roots);
    VisitsAncestorsFirst(nodes, roots);
    VisitsDepthFirst(nodes, roots);
  }

  lemma VisitsDepthFirst(nodes: map<int, Node>, roots: seq<int>)
    requires Linked(nodes) && RootsExact(nodes, roots)
    ensures DepthFirst(Visits(nodes, roots))
    ensures ChildrenInOrder(nodes, Visits(nodes, roots))
  {
    RootChains(nodes, roots);
    DFSUtilAllDepthFirst(nodes, roots, []);
    DFSUtilAllChildOrder(nodes, roots, []);
  }

  lemma VisitsComplete(nodes: map<int, Node>, roots: seq<int>)
    requires Linked(nodes) && Complete(nodes) && RootsExact(nodes, roots)
    ensures forall x :: IsChain(nodes, x) ==> x in Visits(nodes, roots)
  {
    RootChains(nodes, roots);
    forall x | IsChain(nodes, x) ensures x in Visits(nodes, roots) {
      assert x[0] in nodes && nodes[x[0]].parentPid == 0;
      assert x[..0] == [];
      DFSUtilAllComplete(nodes, roots, [], x);
    }
  }

  lemma VisitsOnce(nodes: map<int, Node>, roots: seq<int>)
    requires Linked(nodes) && RootsExact(nodes, roots)
    ensures var visited := Visits(nodes, roots);
      forall i, j :: 0 <= i < j < |visited| ==>
        |visited[i]| > 0 && |visited[j]| > 0 && Last(visited[i]) != Last(visited[j])
  {
    RootChains(nodes, roots);
    DFSUtilAllChains(nodes, roots, []);
    DFSUtilAllOrdered(nodes, roots, []);
    var visited := Visits(nodes, roots);
    forall i, j | 0 <= i < j < |visited|
      ensures |visited[i]| > 0 && |visited[j]| > 0 && Last(visited[i]) != Last(visited[j])
    {
      if Last(visited[i]) == Last(visited[j]) {
        ChainUnique(nodes, visited[i], visited[j]);
      }
    }
  }

  lemma VisitsAncestorsFirst(nodes: map<int, Node>, roots: seq<int>)
    requires Linked(nodes) && Complete(nodes) && RootsExact(nodes, roots)
    ensures var visited := Visits(nodes, roots);
      forall j, n :: 0 <= j < |visited| && 0 < n < |visited[j]| ==>
        exists i :: 0 <= i < j && visited[i] == visited[j][..n]
  {
    RootChains(nodes, roots);
    DFSUtilAllChains(nodes, roots, []);
    DFSUtilAllOrdered(nodes, roots, []);
    VisitsComplete(nodes, roots);
    AncestorsFirst(nodes, Visits(nodes, roots));
  }

  /** In a walk that visits every root path, never a prefix of an earlier visit,
      a node's ancestors are all visited before it. */
  lemma AncestorsFirst(nodes: map<int, Node>, visited: seq<seq<int>>)
    requires forall k :: 0 <= k < |visited| ==> IsChain(nodes, visited[k])
    requires forall x :: IsChain(nodes, x) ==> x in visited
    requires NoLaterPrefix(visited)
    ensures forall j, n :: 0 <= j < |visited| && 0 < n < |visited[j]| ==>
              exists i :: 0 <= i < j && visited[i] == visited[j][..n]
  {
    forall j, n | 0 <= j < |visited| && 0 < n < |visited[j]|
      ensures exists i :: 0 <= i < j && visited[i] == visited[j][..n]
    {
      var ancestor := visited[j][..n];
      ChainPrefix(nodes, visited[j], n);
      forall i | j < i < |visited| ensures visited[i] != ancestor {
        assert !(visited[i] <= visited[j]);
      }
      var i :| 0 <= i < |visited| && visited[i] == ancestor;
      assert |ancestor| < |visited[j]|;
    }
  }

  /** The one-node root path of each pid of `pids`. */
  function Singletons(pids: seq<int>): (r: seq<seq<int>>)
    ensures |r| == |pids| && forall k :: 0 <= k < |r| ==> r[k] == [pids[k]]
  {
    seq(|pids|, k requires 0 <= k < |pids| => [pids[k]])
  }

  /** The roots are the first-level visits, in root-list order. */
  lemma VisitsRootsInOrder(nodes: map<int, Node>, roots: seq<int>)
    requires Linked(nodes) && RootsExact(nodes, roots)
    ensures AtDepth(Visits(nodes, roots), 1) == Singletons(roots)
  {
    RootChains(nodes, roots);
    DFSUtilAllSiblings(nodes, roots, []);
    assert ChildPaths([], roots) == Singletons(roots) by {
      forall k | 0 <= k < |roots| ensures ChildPaths([], roots)[k] == Singletons(roots)[k] {
        assert [] + [roots[k]] == [roots[k]];
      }
    }
  }

  /** What is printed for the visits `visited`, in order. */
  function Printout(nodes: map<int, Node>, visited: seq<seq<int>>): (lines: seq<string>)
    requires forall k :: 0 <= k < |visited| ==> |visited[k]| > 0 && Last(visited[k]) in nodes
    ensures |lines| == |visited|
    ensures forall i :: 0 <= i < |lines| ==> lines[i] == Line(nodes, visited[i])
  {
    seq(|visited|, i requires 0 <= i < |visited| => Line(nodes, visited[i]))
  }
}
