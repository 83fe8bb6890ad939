/**
 * What the dominated-action-sequence learners record when they walk a search
 * tree (getUsedSequenceList and searchNode in
 * src/agents/DominatedActionSequencePruning.cpp,
 * src/agents/DominatedActionSequenceDetection.cpp and
 * src/agents/ActionSequenceDetection.cpp), as functions of the tree.
 *
 * At one node, every action sequence of length L is looked up (sequence
 * number i names the digits of i, mapped through the action permutation);
 * the `nodeList` is the list of nodes found. A position is marked "used"
 * when it holds a node that no earlier position reached with the same
 * state, and the dominance graph links each non-terminal position to the
 * first other position with its state, or forces it into the cover when
 * there is none. Which mask or graph index position i writes is a parameter
 * `idx` of these functions, because that is where the learners differ.
 */
module UsedSequences {
  import opened Base
  import opened TreeNodes
  import opened ActionSequences
  import opened BranchReturns
  import opened VertexCovers

  /** A tree with no null child slot can be walked along any action sequence. */
  lemma {:induction false} NoNullFollowable(n: TreeNode, s: seq<int>)
    requires NoNullChildren(n)
    ensures Followable(n, s)
    decreases |s|
  {
    if s != [] && n.children != [] {
      match FirstChildWithAct(n.children, s[0], 0)
      case None =>
      case Some(c) => NoNullFollowable(n.children[c], s[1..]);
    }
  }

  /** getResultingNode(n, s) on a tree without null child slots. */
  function Reach(n: TreeNode, s: seq<int>): TreeNode
    requires NoNullChildren(n)
  {
    NoNullFollowable(n, s);
    Follow(n, s)
  }

  /** The actions lines 316-319 look up for sequence number i: the digits of i, each mapped through the permutation. */
  function Walk(i: nat, L: nat, perm: seq<int>): (s: seq<int>)
    requires PLAYER_A_MAX <= |perm|
    ensures |s| == L
  {
    DecodeInRange(i, L);
    Forward(Decode(i, L), perm)
  }

  /** The nodeList built at one node: the node each sequence number leads to, or Null. */
  function NodeList(node: TreeNode, L: nat, perm: seq<int>): (r: seq<TreeNode>)
    requires NoNullChildren(node) && PLAYER_A_MAX <= |perm|
    ensures |r| == SequenceCount(L)
  {
    seq(SequenceCount(L), i requires 0 <= i < SequenceCount(L) => Reach(node, Walk(i, L, perm)))
  }

  /** The identity permutation the learners start from when actions are not shuffled. */
  function Identity(): (r: seq<int>)
    ensures |r| == PLAYER_A_MAX && IsPermutation(r)
  {
    seq(PLAYER_A_MAX, a requires 0 <= a < PLAYER_A_MAX => a)
  }

  /** Through the identity permutation, sequence number i walks exactly the digits of i. */
  lemma WalkIdentity(i: nat, L: nat)
    ensures Walk(i, L, Identity()) == Decode(i, L)
  {
    DecodeInRange(i, L);
  }

  // ----- the "used" marks -----

  /** Every index of idx is below size. */
  predicate IndicesBelow(idx: seq<nat>, size: nat)
  {
    forall i :: 0 <= i < |idx| ==> idx[i] < size
  }

  /**
   * Position i of the list holds a node that is not skipped for being
   * terminal (when skipTerminal) and no earlier non-null position holds a
   * node with the same state.
   */
  predicate FirstOfItsState(nodes: seq<TreeNode>, i: nat, skipTerminal: bool)
    requires i < |nodes|
  {
    && nodes[i].Node?
    && !(skipTerminal && nodes[i].isTerminal)
    && forall j :: 0 <= j < i && nodes[j].Node? ==> nodes[j].state != nodes[i].state
  }

  /** The mask after the first n turns of the marking loop. */
  function Marked(used: seq<bool>, nodes: seq<TreeNode>, idx: seq<nat>, skipTerminal: bool, n: nat): (r: seq<bool>)
    requires n <= |nodes| == |idx| && IndicesBelow(idx, |used|)
    ensures |r| == |used|
  {
    if n == 0 then used
    else
      var prev := Marked(used, nodes, idx, skipTerminal, n - 1);
      if FirstOfItsState(nodes, n - 1, skipTerminal) then prev[idx[n - 1] := true] else prev
  }

  /** An entry is set after the loop exactly when it was set before or some first-of-its-state position writes it. */
  lemma {:induction false} MarkedExactly(used: seq<bool>, nodes: seq<TreeNode>, idx: seq<nat>, skipTerminal: bool, n: nat)
    requires n <= |nodes| == |idx| && IndicesBelow(idx, |used|)
    ensures forall k :: 0 <= k < |used| ==>
              (Marked(used, nodes, idx, skipTerminal, n)[k] <==>
               used[k] || exists i :: 0 <= i < n && FirstOfItsState(nodes, i, skipTerminal) && idx[i] == k)
  {
    if n > 0 {
      MarkedExactly(used, nodes, idx, skipTerminal, n - 1);
    }
  }

  // ----- the dominance graph -----

  /** A dominance graph: adjacency matrix and forced vertices, as VertexCover holds them. */
  datatype Graph = Graph(adj: seq<seq<bool>>, marked: seq<bool>)

  predicate WellFormed(g: Graph)
  {
    IsGraph(|g.marked|, g.adj)
  }

  /** Line 149: a position takes part in the dominance graph when it holds a non-terminal node. */
  predicate TakesPart(nodes: seq<TreeNode>, i: nat)
    requires i < |nodes|
  {
    nodes[i].Node? && !nodes[i].isTerminal
  }

  /**
   * The inner loop of lines 155-168: the first position j >= from, other
   * than i, that holds a node with the state of the node at i.
   */
  function FirstPeer(nodes: seq<TreeNode>, i: nat, from: nat): (r: Option<nat>)
    requires i < |nodes| && nodes[i].Node?
    ensures r.Some? ==> from <= r.value < |nodes| && r.value != i && nodes[r.value].Node? && nodes[r.value].state == nodes[i].state
    ensures r.Some? ==> forall j :: from <= j < r.value && j != i && nodes[j].Node? ==> nodes[j].state != nodes[i].state
    ensures r.None? ==> forall j :: from <= j < |nodes| && j != i && nodes[j].Node? ==> nodes[j].state != nodes[i].state
    decreases |nodes| - from
  {
    if from >= |nodes| then None
    else if from != i && nodes[from].Node? && nodes[from].state == nodes[i].state then Some(from)
    else FirstPeer(nodes, i, from + 1)
  }

  /** One turn of the linking loop: an edge to the first peer, or the vertex forced into the cover. */
  function LinkStep(g: Graph, nodes: seq<TreeNode>, idx: seq<nat>, i: nat): (r: Graph)
    requires WellFormed(g) && i < |nodes| == |idx| && IndicesBelow(idx, |g.marked|)
    ensures WellFormed(r) && |r.marked| == |g.marked|
  {
    if !TakesPart(nodes, i) then g
    else match FirstPeer(nodes, i, 0)
      case Some(j) =>
        WithEdgeEntries(g.adj, idx[i], idx[j]);
        g.(adj := WithEdge(g.adj, idx[i], idx[j]))
      case None => g.(marked := g.marked[idx[i] := true])
  }

  /** The graph after the first n turns of the linking loop. */
  function LinkAll(g: Graph, nodes: seq<TreeNode>, idx: seq<nat>, n: nat): (r: Graph)
    requires WellFormed(g) && n <= |nodes| == |idx| && IndicesBelow(idx, |g.marked|)
    ensures WellFormed(r) && |r.marked| == |g.marked|
  {
    if n == 0 then g else LinkStep(LinkAll(g, nodes, idx, n - 1), nodes, idx, n - 1)
  }

  /** Position i adds the edge a-b: it takes part, has a first peer j, and {a, b} == {idx[i], idx[j]}. */
  predicate AddsEdge(nodes: seq<TreeNode>, idx: seq<nat>, i: nat, a: nat, b: nat)
    requires i < |nodes| == |idx|
  {
    && TakesPart(nodes, i)
    && FirstPeer(nodes, i, 0).Some?
    && var j := FirstPeer(nodes, i, 0).value;
       (a == idx[i] && b == idx[j]) || (a == idx[j] && b == idx[i])
  }

  /** Position i forces vertex a into the cover: it takes part, has no peer, and a == idx[i]. */
  predicate ForcesVertex(nodes: seq<TreeNode>, idx: seq<nat>, i: nat, a: nat)
    requires i < |nodes| == |idx|
  {
    TakesPart(nodes, i) && FirstPeer(nodes, i, 0).None? && a == idx[i]
  }

  /** One turn of the linking loop adds exactly the edge or the forced vertex of its position. */
  lemma LinkStepEntries(g: Graph, nodes: seq<TreeNode>, idx: seq<nat>, i: nat)
    requires WellFormed(g) && i < |nodes| == |idx| && IndicesBelow(idx, |g.marked|)
    ensures var r := LinkStep(g, nodes, idx, i);
      && (forall a, b :: 0 <= a < |g.marked| && 0 <= b < |g.marked| ==>
            (r.adj[a][b] <==> g.adj[a][b] || AddsEdge(nodes, idx, i, a, b)))
      && (forall a :: 0 <= a < |g.marked| ==> (r.marked[a] <==> g.marked[a] || ForcesVertex(nodes, idx, i, a)))
  {
    if TakesPart(nodes, i) {
      match FirstPeer(nodes, i, 0)
      case Some(j) =>
        WithEdgeEntries(g.adj, idx[i], idx[j]);
      case None =>
    }
  }

  /** After the linking loop, an edge is present exactly when it was before or some position added it. */
  lemma {:induction false} LinkAllEdges(g: Graph, nodes: seq<TreeNode>, idx: seq<nat>, n: nat)
    requires WellFormed(g) && n <= |nodes| == |idx| && IndicesBelow(idx, |g.marked|)
    ensures var r := LinkAll(g, nodes, idx, n);
      forall a, b :: 0 <= a < |g.marked| && 0 <= b < |g.marked| ==>
        (r.adj[a][b] <==> g.adj[a][b] || exists i :: 0 <= i < n && AddsEdge(nodes, idx, i, a, b))
  {
    if n > 0 {
      var m := n - 1;
      var prev := LinkAll(g, nodes, idx, m);
      var r := LinkAll(g, nodes, idx, n);
      LinkAllEdges(g, nodes, idx, m);
      LinkStepEntries(prev, nodes, idx, m);
      assert r == LinkStep(prev, nodes, idx, m);
      forall a, b | 0 <= a < |g.marked| && 0 <= b < |g.marked|
        ensures r.adj[a][b] <==> g.adj[a][b] || exists i :: 0 <= i < n && AddsEdge(nodes, idx, i, a, b)
      {
        assert r.adj[a][b] <==> prev.adj[a][b] || AddsEdge(nodes, idx, m, a, b);
        assert prev.adj[a][b] <==> g.adj[a][b] || exists i :: 0 <= i < m && AddsEdge(nodes, idx, i, a, b);
        if exists i :: 0 <= i < n && AddsEdge(nodes, idx, i, a, b) {
          var i :| 0 <= i < n && AddsEdge(nodes, idx, i, a, b);
          if i < m {
            assert exists i' :: 0 <= i' < m && AddsEdge(nodes, idx, i', a, b);
          }
        }
      }
    }
  }

  /** After the linking loop, a vertex is forced exactly when it was before or some position forced it. */
  lemma {:induction false} LinkAllForced(g: Graph, nodes: seq<TreeNode>, idx: seq<nat>, n: nat)
    requires WellFormed(g) && n <= |nodes| == |idx| && IndicesBelow(idx, |g.marked|)
    ensures var r := LinkAll(g, nodes, idx, n);
      forall a :: 0 <= a < |g.marked| ==>
        (r.marked[a] <==> g.marked[a] || exists i :: 0 <= i < n && ForcesVertex(nodes, idx, i, a))
  {
    if n > 0 {
      var m := n - 1;
      var prev := LinkAll(g, nodes, idx, m);
      var r := LinkAll(g, nodes, idx, n);
      LinkAllForced(g, nodes, idx, m);
      LinkStepEntries(prev, nodes, idx, m);
      assert r == LinkStep(prev, nodes, idx, m);
      forall a | 0 <= a < |g.marked|
        ensures r.marked[a] <==> g.marked[a] || exists i :: 0 <= i < n && ForcesVertex(nodes, idx, i, a)
      {
        assert r.marked[a] <==> prev.marked[a] || ForcesVertex(nodes, idx, m, a);
        assert prev.marked[a] <==> g.marked[a] || exists i :: 0 <= i < m && ForcesVertex(nodes, idx, i, a);
        if exists i :: 0 <= i < n && ForcesVertex(nodes, idx, i, a) {
          var i :| 0 <= i < n && ForcesVertex(nodes, idx, i, a);
          if i < m {
            assert exists i' :: 0 <= i' < m && ForcesVertex(nodes, idx, i', a);
          }
        }
      }
    }
  }

  /**
   * After the linking loop, an edge is present exactly when it was before or
   * some position added it, and a vertex is forced exactly when it was
   * before or some position forced it.
   */
  lemma LinkAllExactly(g: Graph, nodes: seq<TreeNode>, idx: seq<nat>, n: nat)
    requires WellFormed(g) && n <= |nodes| == |idx| && IndicesBelow(idx, |g.marked|)
    ensures var r := LinkAll(g, nodes, idx, n);
      && (forall a, b :: 0 <= a < |g.marked| && 0 <= b < |g.marked| ==>
            (r.adj[a][b] <==> g.adj[a][b] || exists i :: 0 <= i < n && AddsEdge(nodes, idx, i, a, b)))
      && (forall a :: 0 <= a < |g.marked| ==>
            (r.marked[a] <==> g.marked[a] || exists i :: 0 <= i < n && ForcesVertex(nodes, idx, i, a)))
  {
    LinkAllEdges(g, nodes, idx, n);
    LinkAllForced(g, nodes, idx, n);
  }

  /** Every non-terminal node of the list is covered: linked to its first peer, or forced into the cover. */
  lemma LinkAllCovers(g: Graph, nodes: seq<TreeNode>, idx: seq<nat>, n: nat)
    requires WellFormed(g) && n <= |nodes| == |idx| && IndicesBelow(idx, |g.marked|)
    ensures var r := LinkAll(g, nodes, idx, n);
      forall i :: 0 <= i < n && TakesPart(nodes, i) ==>
        if FirstPeer(nodes, i, 0).None? then r.marked[idx[i]]
        else r.adj[idx[i]][idx[FirstPeer(nodes, i, 0).value]] && r.adj[idx[FirstPeer(nodes, i, 0).value]][idx[i]]
  {
    LinkAllExactly(g, nodes, idx, n);
    var r := LinkAll(g, nodes, idx, n);
    forall i | 0 <= i < n && TakesPart(nodes, i)
      ensures if FirstPeer(nodes, i, 0).None? then r.marked[idx[i]]
        else r.adj[idx[i]][idx[FirstPeer(nodes, i, 0).value]] && r.adj[idx[FirstPeer(nodes, i, 0).value]][idx[i]]
    {
      if FirstPeer(nodes, i, 0).None? {
        assert ForcesVertex(nodes, idx, i, idx[i]);
        assert idx[i] < |g.marked|;
        assert exists i' :: 0 <= i' < n && ForcesVertex(nodes, idx, i', idx[i]);
        assert r.marked[idx[i]] <==> g.marked[idx[i]] || exists i' :: 0 <= i' < n && ForcesVertex(nodes, idx, i', idx[i]);
      } else {
        var j := FirstPeer(nodes, i, 0).value;
        assert AddsEdge(nodes, idx, i, idx[i], idx[j]) && AddsEdge(nodes, idx, i, idx[j], idx[i]);
        assert idx[i] < |g.marked| && idx[j] < |g.marked|;
        assert exists i' :: 0 <= i' < n && AddsEdge(nodes, idx, i', idx[i], idx[j]);
        assert exists i' :: 0 <= i' < n && AddsEdge(nodes, idx, i', idx[j], idx[i]);
        assert r.adj[idx[i]][idx[j]] <==> g.adj[idx[i]][idx[j]] || exists i' :: 0 <= i' < n && AddsEdge(nodes, idx, i', idx[i], idx[j]);
        assert r.adj[idx[j]][idx[i]] <==> g.adj[idx[j]][idx[i]] || exists i' :: 0 <= i' < n && AddsEdge(nodes, idx, i', idx[j], idx[i]);
      }
    }
  }

  // ----- searchNode: the walk over the tree -----

  /** The nodes searchNode(n) visits: n, then the subtrees of its children. */
  function PreOrder(n: TreeNode): seq<TreeNode>
    requires NoNullChildren(n)
    decreases n, |n.children| + 1
  {
    [n] + PreOrderChildren(n, |n.children|)
  }

  function PreOrderChildren(n: TreeNode, k: nat): seq<TreeNode>
    requires NoNullChildren(n) && k <= |n.children|
    decreases n, k
  {
    if k == 0 then [] else PreOrderChildren(n, k - 1) + PreOrder(n.children[k - 1])
  }

  /** Every node of the list has no null child slot. */
  predicate AllWalkable(ns: seq<TreeNode>)
  {
    forall k :: 0 <= k < |ns| ==> NoNullChildren(ns[k])
  }

  lemma {:induction false} PreOrderWalkable(n: TreeNode)
    requires NoNullChildren(n)
    ensures AllWalkable(PreOrder(n)) && PreOrder(n)[0] == n
    ensures PreOrder(n)[1..] == PreOrderChildren(n, |n.children|)
    decreases n, |n.children| + 1
  {
    PreOrderChildrenWalkable(n, |n.children|);
  }

  lemma {:induction false} PreOrderChildrenWalkable(n: TreeNode, k: nat)
    requires NoNullChildren(n) && k <= |n.children|
    ensures AllWalkable(PreOrderChildren(n, k))
    decreases n, k
  {
    if k > 0 {
      PreOrderChildrenWalkable(n, k - 1);
      PreOrderWalkable(n.children[k - 1]);
    }
  }

  /** searchNode visits every node of the subtree. */
  lemma {:induction false} PreOrderVisitsEveryNode(n: TreeNode, path: seq<nat>)
    requires NoNullChildren(n) && ValidPath(n, path)
    ensures NodeAt(n, path) in PreOrder(n)
    decreases |path|
  {
    if path != [] {
      var c := path[0];
      PreOrderVisitsEveryNode(n.children[c], path[1..]);
      PreOrderChildrenHolds(n, c, |n.children|);
    }
  }

  lemma {:induction false} PreOrderChildrenHolds(n: TreeNode, c: nat, k: nat)
    requires NoNullChildren(n) && c < k <= |n.children|
    ensures forall x :: x in PreOrder(n.children[c]) ==> x in PreOrderChildren(n, k)
    decreases k
  {
    if c < k - 1 {
      PreOrderChildrenHolds(n, c, k - 1);
    }
  }

  /** The marks one node's getUsedSequenceList adds. */
  function MarkNode(used: seq<bool>, x: TreeNode, L: nat, perm: seq<int>, idx: seq<nat>, skipTerminal: bool): (r: seq<bool>)
    requires NoNullChildren(x) && PLAYER_A_MAX <= |perm|
    requires |idx| == SequenceCount(L) && IndicesBelow(idx, |used|)
    ensures |r| == |used|
  {
    Marked(used, NodeList(x, L, perm), idx, skipTerminal, SequenceCount(L))
  }

  /** The mask after getUsedSequenceList has run at each node of ns in turn. */
  function MarksOver(used: seq<bool>, ns: seq<TreeNode>, L: nat, perm: seq<int>, idx: seq<nat>, skipTerminal: bool): (r: seq<bool>)
    requires AllWalkable(ns) && PLAYER_A_MAX <= |perm|
    requires |idx| == SequenceCount(L) && IndicesBelow(idx, |used|)
    ensures |r| == |used|
    decreases |ns|
  {
    if ns == [] then used
    else MarksOver(MarkNode(used, ns[0], L, perm, idx, skipTerminal), ns[1..], L, perm, idx, skipTerminal)
  }

  lemma {:induction false} MarksOverAppend(used: seq<bool>, a: seq<TreeNode>, b: seq<TreeNode>, L: nat, perm: seq<int>, idx: seq<nat>, skipTerminal: bool)
    requires AllWalkable(a) && AllWalkable(b) && PLAYER_A_MAX <= |perm|
    requires |idx| == SequenceCount(L) && IndicesBelow(idx, |used|)
    ensures AllWalkable(a + b)
    ensures MarksOver(used, a + b, L, perm, idx, skipTerminal)
            == MarksOver(MarksOver(used, a, L, perm, idx, skipTerminal), b, L, perm, idx, skipTerminal)
    decreases |a|
  {
    assert AllWalkable(a + b);
    if a != [] {
      assert (a + b)[1..] == a[1..] + b;
      MarksOverAppend(MarkNode(used, a[0], L, perm, idx, skipTerminal), a[1..], b, L, perm, idx, skipTerminal);
    } else {
      assert a + b == b;
    }
  }

  /** A sequence number is used at node x: the node it reaches is the first of its state there. */
  predicate UsedAt(x: TreeNode, L: nat, perm: seq<int>, idx: seq<nat>, skipTerminal: bool, k: nat)
    requires NoNullChildren(x) && PLAYER_A_MAX <= |perm| && |idx| == SequenceCount(L)
  {
    exists i :: 0 <= i < SequenceCount(L) && FirstOfItsState(NodeList(x, L, perm), i, skipTerminal) && idx[i] == k
  }

  /**
   * After the walk, an entry is set exactly when it was set before or it is
   * used at one of the visited nodes; the order of the visit does not matter.
   */
  lemma {:induction false} MarksOverExactly(used: seq<bool>, ns: seq<TreeNode>, L: nat, perm: seq<int>, idx: seq<nat>, skipTerminal: bool)
    requires AllWalkable(ns) && PLAYER_A_MAX <= |perm|
    requires |idx| == SequenceCount(L) && IndicesBelow(idx, |used|)
    ensures forall k :: 0 <= k < |used| ==>
              (MarksOver(used, ns, L, perm, idx, skipTerminal)[k] <==>
               used[k] || exists p :: 0 <= p < |ns| && UsedAt(ns[p], L, perm, idx, skipTerminal, k))
    decreases |ns|
  {
    if ns != [] {
      var u := MarkNode(used, ns[0], L, perm, idx, skipTerminal);
      MarkedExactly(used, NodeList(ns[0], L, perm), idx, skipTerminal, SequenceCount(L));
      MarksOverExactly(u, ns[1..], L, perm, idx, skipTerminal);
      forall k | 0 <= k < |used|
        ensures MarksOver(used, ns, L, perm, idx, skipTerminal)[k] <==>
                used[k] || exists p :: 0 <= p < |ns| && UsedAt(ns[p], L, perm, idx, skipTerminal, k)
      {
        if exists p :: 0 <= p < |ns| && UsedAt(ns[p], L, perm, idx, skipTerminal, k) {
          var p :| 0 <= p < |ns| && UsedAt(ns[p], L, perm, idx, skipTerminal, k);
          if p > 0 {
            assert ns[1..][p - 1] == ns[p];
          }
        }
        if exists p :: 0 <= p < |ns[1..]| && UsedAt(ns[1..][p], L, perm, idx, skipTerminal, k) {
          var p :| 0 <= p < |ns[1..]| && UsedAt(ns[1..][p], L, perm, idx, skipTerminal, k);
          assert ns[p + 1] == ns[1..][p];
        }
      }
    }
  }

  /** The graph after one node's linking loop. */
  function LinkNode(g: Graph, x: TreeNode, L: nat, perm: seq<int>, idx: seq<nat>): (r: Graph)
    requires WellFormed(g) && NoNullChildren(x) && PLAYER_A_MAX <= |perm|
    requires |idx| == SequenceCount(L) && IndicesBelow(idx, |g.marked|)
    ensures WellFormed(r) && |r.marked| == |g.marked|
  {
    LinkAll(g, NodeList(x, L, perm), idx, SequenceCount(L))
  }

  /** The graph after the linking loop has run at each node of ns in turn. */
  function GraphOver(g: Graph, ns: seq<TreeNode>, L: nat, perm: seq<int>, idx: seq<nat>): (r: Graph)
    requires WellFormed(g) && AllWalkable(ns) && PLAYER_A_MAX <= |perm|
    requires |idx| == SequenceCount(L) && IndicesBelow(idx, |g.marked|)
    ensures WellFormed(r) && |r.marked| == |g.marked|
    decreases |ns|
  {
    if ns == [] then g
    else GraphOver(LinkNode(g, ns[0], L, perm, idx), ns[1..], L, perm, idx)
  }

  lemma {:induction false} GraphOverAppend(g: Graph, a: seq<TreeNode>, b: seq<TreeNode>, L: nat, perm: seq<int>, idx: seq<nat>)
    requires WellFormed(g) && AllWalkable(a) && AllWalkable(b) && PLAYER_A_MAX <= |perm|
    requires |idx| == SequenceCount(L) && IndicesBelow(idx, |g.marked|)
    ensures AllWalkable(a + b)
    ensures GraphOver(g, a + b, L, perm, idx) == GraphOver(GraphOver(g, a, L, perm, idx), b, L, perm, idx)
    decreases |a|
  {
    assert AllWalkable(a + b);
    if a != [] {
      assert (a + b)[1..] == a[1..] + b;
      GraphOverAppend(LinkNode(g, a[0], L, perm, idx), a[1..], b, L, perm, idx);
    } else {
      assert a + b == b;
    }
  }

  /** Some position of x's list adds the edge a-b. */
  predicate EdgeAt(x: TreeNode, L: nat, perm: seq<int>, idx: seq<nat>, a: nat, b: nat)
    requires NoNullChildren(x) && PLAYER_A_MAX <= |perm| && |idx| == SequenceCount(L)
  {
    exists i :: 0 <= i < SequenceCount(L) && AddsEdge(NodeList(x, L, perm), idx, i, a, b)
  }

  /** Some position of x's list forces vertex a. */
  predicate ForcedAt(x: TreeNode, L: nat, perm: seq<int>, idx: seq<nat>, a: nat)
    requires NoNullChildren(x) && PLAYER_A_MAX <= |perm| && |idx| == SequenceCount(L)
  {
    exists i :: 0 <= i < SequenceCount(L) && ForcesVertex(NodeList(x, L, perm), idx, i, a)
  }

  /** After the walk, an edge is present exactly when it was before or one of the visited nodes adds it. */
  lemma {:induction false} GraphOverEdge(g: Graph, ns: seq<TreeNode>, L: nat, perm: seq<int>, idx: seq<nat>, a: nat, b: nat)
    requires WellFormed(g) && AllWalkable(ns) && PLAYER_A_MAX <= |perm|
    requires |idx| == SequenceCount(L) && IndicesBelow(idx, |g.marked|)
    requires a < |g.marked| && b < |g.marked|
    ensures GraphOver(g, ns, L, perm, idx).adj[a][b] <==>
            g.adj[a][b] || exists p :: 0 <= p < |ns| && EdgeAt(ns[p], L, perm, idx, a, b)
    decreases |ns|
  {
    if ns != [] {
      var h := LinkNode(g, ns[0], L, perm, idx);
      LinkAllExactly(g, NodeList(ns[0], L, perm), idx, SequenceCount(L));
      assert h.adj[a][b] <==> g.adj[a][b] || EdgeAt(ns[0], L, perm, idx, a, b);
      GraphOverEdge(h, ns[1..], L, perm, idx, a, b);
      if exists p :: 0 <= p < |ns| && EdgeAt(ns[p], L, perm, idx, a, b) {
        var p :| 0 <= p < |ns| && EdgeAt(ns[p], L, perm, idx, a, b);
        if p > 0 {
          assert ns[1..][p - 1] == ns[p];
        }
      }
      if exists p :: 0 <= p < |ns[1..]| && EdgeAt(ns[1..][p], L, perm, idx, a, b) {
        var p :| 0 <= p < |ns[1..]| && EdgeAt(ns[1..][p], L, perm, idx, a, b);
        assert ns[p + 1] == ns[1..][p];
      }
    }
  }

  /** After the walk, a vertex is forced exactly when it was before or one of the visited nodes forces it. */
  lemma {:induction false} GraphOverForced(g: Graph, ns: seq<TreeNode>, L: nat, perm: seq<int>, idx: seq<nat>, a: nat)
    requires WellFormed(g) && AllWalkable(ns) && PLAYER_A_MAX <= |perm|
    requires |idx| == SequenceCount(L) && IndicesBelow(idx, |g.marked|)
    requires a < |g.marked|
    ensures GraphOver(g, ns, L, perm, idx).marked[a] <==>
            g.marked[a] || exists p :: 0 <= p < |ns| && ForcedAt(ns[p], L, perm, idx, a)
    decreases |ns|
  {
    if ns != [] {
      var h := LinkNode(g, ns[0], L, perm, idx);
      LinkAllExactly(g, NodeList(ns[0], L, perm), idx, SequenceCount(L));
      assert h.marked[a] <==> g.marked[a] || ForcedAt(ns[0], L, perm, idx, a);
      GraphOverForced(h, ns[1..], L, perm, idx, a);
      if exists p :: 0 <= p < |ns| && ForcedAt(ns[p], L, perm, idx, a) {
        var p :| 0 <= p < |ns| && ForcedAt(ns[p], L, perm, idx, a);
        if p > 0 {
          assert ns[1..][p - 1] == ns[p];
        }
      }
      if exists p :: 0 <= p < |ns[1..]| && ForcedAt(ns[1..][p], L, perm, idx, a) {
        var p :| 0 <= p < |ns[1..]| && ForcedAt(ns[1..][p], L, perm, idx, a);
        assert ns[p + 1] == ns[1..][p];
      }
    }
  }

  // ----- which entry position i writes -----

  /** permutateToOriginalAction stays within the mask: an in-range sequence number maps to one. */
  lemma ToOriginalInRange(i: nat, L: nat, permutate: bool, perm: seq<int>)
    requires PLAYER_A_MAX <= |perm| && i < SequenceCount(L)
    ensures 0 <= ToOriginal(i, L, permutate, perm) < SequenceCount(L)
  {
    if permutate {
      var d := Decode(i, L);
      DecodeInRange(i, L);
      var back := seq(|d|, j requires 0 <= j < |d| => OriginalAction(perm, d[j]));
      assert ActionsInRange(back);
      EncodeRange(back);
    }
  }

  /** Lines 140-141 and 150 as written: position i writes entry permutateToOriginalAction(i). */
  function AsWrittenIndex(L: nat, permutate: bool, perm: seq<int>): (idx: seq<nat>)
    requires PLAYER_A_MAX <= |perm|
    ensures |idx| == SequenceCount(L) && IndicesBelow(idx, SequenceCount(L))
  {
    AllToOriginalInRange(L, permutate, perm);
    seq(SequenceCount(L), i requires 0 <= i < SequenceCount(L) => ToOriginal(i, L, permutate, perm) as nat)
  }

  lemma AllToOriginalInRange(L: nat, permutate: bool, perm: seq<int>)
    requires PLAYER_A_MAX <= |perm|
    ensures forall i :: 0 <= i < SequenceCount(L) ==> 0 <= ToOriginal(i, L, permutate, perm) < SequenceCount(L)
  {
    forall i | 0 <= i < SequenceCount(L)
      ensures 0 <= ToOriginal(i, L, permutate, perm) < SequenceCount(L)
    {
      ToOriginalInRange(i, L, permutate, perm);
    }
  }

  /** The entry position i should write: the number of the action sequence that reached nodes[i]. */
  function CorrectedIndex(L: nat, perm: seq<int>): (idx: seq<nat>)
    requires |perm| == PLAYER_A_MAX && ActionsInRange(perm)
    ensures |idx| == SequenceCount(L) && IndicesBelow(idx, SequenceCount(L))
  {
    AllWalksEncodeBelow(L, perm);
    seq(SequenceCount(L), i requires 0 <= i < SequenceCount(L) => Encode(Walk(i, L, perm)) as nat)
  }

  lemma AllWalksEncodeBelow(L: nat, perm: seq<int>)
    requires |perm| == PLAYER_A_MAX && ActionsInRange(perm)
    ensures forall i :: 0 <= i < SequenceCount(L) ==> 0 <= Encode(Walk(i, L, perm)) < SequenceCount(L)
  {
    forall i | 0 <= i < SequenceCount(L)
      ensures 0 <= Encode(Walk(i, L, perm)) < SequenceCount(L)
    {
      WalkInRange(i, L, perm);
      EncodeRange(Walk(i, L, perm));
    }
  }

  lemma WalkInRange(i: nat, L: nat, perm: seq<int>)
    requires |perm| == PLAYER_A_MAX && ActionsInRange(perm)
    ensures ActionsInRange(Walk(i, L, perm))
  {
    DecodeInRange(i, L);
  }

  /**
   * The corrected entry names the walked sequence: decoding entry idx[i]
   * gives the actions that lead from the node to nodes[i].
   */
  lemma CorrectedIndexNamesWalk(node: TreeNode, L: nat, perm: seq<int>, i: nat)
    requires NoNullChildren(node) && |perm| == PLAYER_A_MAX && ActionsInRange(perm) && i < SequenceCount(L)
    ensures Decode(CorrectedIndex(L, perm)[i], L) == Walk(i, L, perm)
    ensures Reach(node, Decode(CorrectedIndex(L, perm)[i], L)) == NodeList(node, L, perm)[i]
  {
    WalkInRange(i, L, perm);
    DecodeEncode(Walk(i, L, perm));
  }

  /** With a bijective permutation, distinct positions write distinct entries. */
  lemma CorrectedIndexInjective(L: nat, perm: seq<int>, i: nat, i': nat)
    requires IsPermutation(perm) && i < SequenceCount(L) && i' < SequenceCount(L) && i != i'
    ensures CorrectedIndex(L, perm)[i] != CorrectedIndex(L, perm)[i']
  {
    var idx := CorrectedIndex(L, perm);
    WalkInRange(i, L, perm);
    WalkInRange(i', L, perm);
    DecodeEncode(Walk(i, L, perm));
    DecodeEncode(Walk(i', L, perm));
    if idx[i] == idx[i'] {
      var d, d' := Decode(i, L), Decode(i', L);
      assert Walk(i, L, perm) == Walk(i', L, perm);
      forall k | 0 <= k < L
        ensures d[k] == d'[k]
      {
        DecodeInRange(i, L);
        DecodeInRange(i', L);
        assert perm[d[k]] == Walk(i, L, perm)[k] == Walk(i', L, perm)[k] == perm[d'[k]];
      }
      assert d == d';
      EncodeDecode(i, L);
      EncodeDecode(i', L);
      assert false;
    }
  }

  /** Position i writes entry i, as in getUsedSequenceList of ActionSequenceDetection.cpp. */
  function IdentityIndex(L: nat): (idx: seq<nat>)
    ensures |idx| == SequenceCount(L) && IndicesBelow(idx, SequenceCount(L))
  {
    seq(SequenceCount(L), i requires 0 <= i < SequenceCount(L) => i)
  }

  /**
   * Without shuffling, the permutation is the identity and both index maps
   * are position i itself: the two agree exactly when they are not needed.
   */
  lemma IndicesAgreeUnderIdentity(L: nat, permutate: bool)
    ensures AsWrittenIndex(L, permutate, Identity()) == IdentityIndex(L)
    ensures CorrectedIndex(L, Identity()) == IdentityIndex(L)
  {
    forall i | 0 <= i < SequenceCount(L)
      ensures AsWrittenIndex(L, permutate, Identity())[i] == i
      ensures CorrectedIndex(L, Identity())[i] == i
    {
      assert 0 < L;
      WalkIdentity(i, L);
      EncodeDecode(i, L);
      if permutate {
        var d := Decode(i, L);
        DecodeInRange(i, L);
        var back := seq(|d|, j requires 0 <= j < |d| => OriginalAction(Identity(), d[j]));
        forall j | 0 <= j < |d|
          ensures back[j] == d[j]
        {
          assert Identity()[d[j]] == d[j];
          OriginalOfPermuted(Identity(), d[j]);
        }
        assert back == d;
      }
    }
  }

  /** The shuffled action order that shows the as-written index misplaces a mark. */
  function Rotated(): (perm: seq<int>)
    ensures IsPermutation(perm)
  {
    var perm := [1, 2, 0] + seq(PLAYER_A_MAX - 3, a requires 0 <= a < PLAYER_A_MAX - 3 => a + 3);
    assert forall p :: 3 <= p < PLAYER_A_MAX ==> perm[p] == p;
    perm
  }

  /**
   * With action order [1, 2, 0, 3, ...], sequence number 0 of length 1 walks
   * action 1, but the as-written index marks the entry of action 2.
   */
  lemma AsWrittenIndexMisplaces()
    ensures Walk(0, 1, Rotated()) == [1]
    ensures AsWrittenIndex(1, true, Rotated())[0] == 2
    ensures CorrectedIndex(1, Rotated())[0] == 1
  {
    RotatedWalk();
    RotatedAsWritten();
  }

  /** The walk of sequence number 0 of length 1 under the rotated order, and its number. */
  lemma RotatedWalk()
    ensures Walk(0, 1, Rotated()) == [1]
    ensures CorrectedIndex(1, Rotated())[0] == 1
  {
    assert Decode(0, 1) == [0];
    assert Walk(0, 1, Rotated()) == [1];
    assert Encode([1]) == 1;
  }

  /** The as-written index entry of sequence number 0 of length 1 under the rotated order. */
  lemma RotatedAsWritten()
    ensures AsWrittenIndex(1, true, Rotated())[0] == 2
  {
    var perm := Rotated();
    assert Decode(0, 1) == [0];
    assert FirstPositionFrom(perm, 0, 0) == Some(2);
    assert OriginalAction(perm, 0) == 2;
    assert Encode([2]) == 2;
  }

  // ----- the loops of getUsedSequenceList -----

  /**
   * Lines 112-120: the node every sequence number leads to, walking the
   * digits through the permutation, and the number of each walked sequence.
   */
  method ListNodes(node: TreeNode, seqLength: nat, perm: seq<int>) returns (nodeList: seq<TreeNode>, codes: seq<nat>)
    requires NoNullChildren(node) && |perm| == PLAYER_A_MAX && ActionsInRange(perm)
    ensures nodeList == NodeList(node, seqLength, perm)
    ensures codes == CorrectedIndex(seqLength, perm)
  {
    var size := NumSequences(seqLength);
    nodeList, codes := [], [];
    var i := 0;
    while i < size
      invariant 0 <= i <= size
      invariant nodeList == NodeList(node, seqLength, perm)[..i]
      invariant codes == CorrectedIndex(seqLength, perm)[..i]
    {
      var walk := IntToSeq(i, seqLength);
      ghost var digits := walk;
      DecodeInRange(i, seqLength);
      var j := 0;
      while j < |walk|
        invariant 0 <= j <= |walk| == |digits|
        invariant forall k :: 0 <= k < j ==> walk[k] == perm[digits[k]]
        invariant forall k :: j <= k < |walk| ==> walk[k] == digits[k]
      {
        walk := walk[j := perm[walk[j]]];
        j := j + 1;
      }
      assert walk == Walk(i, seqLength, perm);
      WalkInRange(i, seqLength, perm);
      NoNullFollowable(node, walk);
      var child := GetResultingNode(node, walk);
      var code := SeqToInt(walk);
      EncodeRange(walk);
      nodeList, codes := nodeList + [child], codes + [code];
      i := i + 1;
    }
  }

  /**
   * Lines 124-144: every position holding the first node of its state
   * (skipping terminal ones when asked) sets its entry; nothing is cleared.
   */
  method MarkFresh(used: seq<bool>, nodes: seq<TreeNode>, idx: seq<nat>, skipTerminal: bool) returns (r: seq<bool>)
    requires |nodes| == |idx| && IndicesBelow(idx, |used|)
    ensures r == Marked(used, nodes, idx, skipTerminal, |nodes|)
    ensures PointwiseLe(used, r)
  {
    r := used;
    var i := 0;
    while i < |nodes|
      invariant 0 <= i <= |nodes|
      invariant r == Marked(used, nodes, idx, skipTerminal, i)
      invariant PointwiseLe(used, r)
    {
      var n := nodes[i];
      if n.Node? && !(skipTerminal && n.isTerminal) {
        var isDuplicate := false;
        var j := 0;
        while j < i
          invariant 0 <= j <= i && !isDuplicate
          invariant forall j' :: 0 <= j' < j && nodes[j'].Node? ==> nodes[j'].state != n.state
        {
          if nodes[j].Node? && nodes[j].state == n.state {
            isDuplicate := true;
            break;
          }
          j := j + 1;
        }
        if !isDuplicate {
          r := r[idx[i] := true];
        }
      }
      i := i + 1;
    }
  }

  /**
   * Lines 148-174: each position holding a non-terminal node gets an edge to
   * the first other position with the same state, or is forced into the cover.
   */
  method LinkPeers(g: VertexCover, nodes: seq<TreeNode>, idx: seq<nat>)
    requires g.Valid() && |nodes| == |idx| && IndicesBelow(idx, g.V)
    modifies g
    ensures g.Valid() && g.V == old(g.V)
    ensures Graph(g.adj, g.marked) == LinkAll(Graph(old(g.adj), old(g.marked)), nodes, idx, |nodes|)
  {
    ghost var g0 := Graph(g.adj, g.marked);
    var i := 0;
    while i < |nodes|
      invariant 0 <= i <= |nodes|
      invariant g.Valid() && g.V == old(g.V)
      invariant Graph(g.adj, g.marked) == LinkAll(g0, nodes, idx, i)
    {
      var n := nodes[i];
      if n.Node? && !n.isTerminal {
        var isDuplicate := false;
        var j := 0;
        while j < |nodes|
          invariant 0 <= j <= |nodes| && !isDuplicate
          invariant FirstPeer(nodes, i, 0) == FirstPeer(nodes, i, j)
          invariant Graph(g.adj, g.marked) == LinkAll(g0, nodes, idx, i)
        {
          if j != i && nodes[j].Node? && nodes[j].state == n.state {
            isDuplicate := true;
            g.AddEdge(idx[i], idx[j]);
            break;
          }
          j := j + 1;
        }
        if !isDuplicate {
          g.AddNode(idx[i]);
        }
      }
      i := i + 1;
    }
  }
}
