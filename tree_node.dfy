/**
 * Search-tree nodes (src/agents/TreeNode.cpp, layout from TreeNode.hpp).
 *
 * A node owns its children, so the tree is a value: `Null` stands for a null
 * child pointer, and the parent of a node is the node whose `children` hold
 * it. A node is addressed by its path of child indices from the root.
 * Rewards (reward_t) are integers; returns and discounts (return_t, float)
 * are reals.
 */
module TreeNodes {
  import opened Base

  /** A serialized emulator snapshot; the model only compares two of them for equality. */
  type State = seq<int>

  /** What the emulator reports for simulate_game(state, a, steps): the new state, the steps run, the return and whether the game ended. */
  datatype StepOutcome = StepOutcome(state: State, steps: int, stepReturn: int, terminal: bool)

  datatype TreeNode =
    | Null
    | Node(
        state: State,
        numSimulatedSteps: int,
        nodeReward: int,
        discountedNodeReward: int,
        branchReturn: real,
        branchDepth: int,
        isTerminal: bool,
        bestBranch: int,
        children: seq<TreeNode>,
        initialized: bool,
        duplicate: bool,
        depth: nat,
        accumulatedReward: int,
        discountedAccumulatedReward: int,
        discount: real,
        originalDiscount: real,
        act: int,
        availableActions: seq<int>)
  {
    /** is_leaf(): no children. */
    predicate IsLeaf()
      requires Node?
    {
      children == []
    }
  }

  /** discounted_node_reward = node_reward * discount, converted back to reward_t. */
  function DiscountedReward(reward: int, discount: real): int
  {
    Trunc(reward as real * discount)
  }

  /** The root invariant the constructors and updateTreeNode establish for a parentless node. */
  predicate IsConsistentRoot(n: TreeNode)
    requires n.Node?
  {
    && n.depth == 0
    && n.discountedNodeReward == DiscountedReward(n.nodeReward, n.discount)
    && n.accumulatedReward == n.nodeReward
    && n.discountedAccumulatedReward == n.discountedNodeReward
  }

  /** The invariant between a node and its parent: depth, discount and the accumulated rewards follow the parent's. */
  predicate IsConsistentChild(parent: TreeNode, n: TreeNode)
    requires parent.Node? && n.Node?
  {
    && n.depth == parent.depth + 1
    && n.discount == parent.discount * n.originalDiscount
    && n.discountedNodeReward == DiscountedReward(n.nodeReward, n.discount)
    && n.accumulatedReward == parent.accumulatedReward + n.nodeReward
    && n.discountedAccumulatedReward == parent.discountedAccumulatedReward + n.discountedNodeReward
  }

  /** Every non-null child in the subtree is consistent with its parent. */
  predicate ConsistentTree(n: TreeNode)
    requires n.Node?
    decreases n
  {
    forall i :: 0 <= i < |n.children| && n.children[i].Node? ==>
      IsConsistentChild(n, n.children[i]) && ConsistentTree(n.children[i])
  }

  /**
   * TreeNode(parent, parentState): an uninitialised node holding a copy of the parent's state.
   * The source leaves the original discount and the simulated-step count unset; here they
   * are 1.0 and 0, and the root invariant this node satisfies does not mention either.
   */
  function NewUninitialized(parentState: State): (r: TreeNode)
    ensures r.Node? && r.state == parentState && r.children == [] && r.act == PLAYER_A_NOOP
    ensures !r.initialized && !r.duplicate && !r.isTerminal && r.bestBranch == -1
    ensures r.depth == 0 && r.discount == 1.0 && r.nodeReward == 0 && r.branchReturn == 0.0
    ensures IsConsistentRoot(r)
  {
    Node(parentState, 0, 0, 0, 0.0, 0, false, -1, [], false, false, 0, 0, 0, 1.0, 1.0, PLAYER_A_NOOP, [])
  }

  /**
   * init(tree, a, steps): run the emulator from the node's state. The node
   * takes the new state, the step count, the return as its reward and the
   * terminal flag, its branch return starts at its reward, and it is
   * initialised; nothing else changes.
   */
  function Init(n: TreeNode, o: StepOutcome): (r: TreeNode)
    requires n.Node?
    ensures r.Node? && r.initialized
    ensures r.state == o.state && r.nodeReward == o.stepReturn && r.isTerminal == o.terminal
    ensures r.branchReturn == r.nodeReward as real
    ensures r == n.(state := r.state, numSimulatedSteps := r.numSimulatedSteps, nodeReward := r.nodeReward,
                    isTerminal := r.isTerminal, branchReturn := r.branchReturn, initialized := true)
  {
    n.(state := o.state, numSimulatedSteps := o.steps, nodeReward := o.stepReturn,
       isTerminal := o.terminal, branchReturn := o.stepReturn as real, initialized := true)
  }

  /**
   * TreeNode(parent, parentState, tree, a, steps, disc). `parent` is Null for
   * a parentless node; `outcome` is None when `tree` is NULL (no simulation)
   * and otherwise what the emulator reports for the simulation init runs.
   */
  function NewNode(parent: TreeNode, parentState: State, outcome: Option<StepOutcome>, a: int, disc: real): (r: TreeNode)
    ensures r.Node? && r.act == a && r.children == [] && r.bestBranch == -1 && !r.duplicate
    ensures r.originalDiscount == disc
    ensures r.depth == (if parent.Null? then 0 else parent.depth + 1)
    ensures r.discount == (if parent.Null? then disc else parent.discount * disc)
    ensures r.initialized <==> outcome.Some?
    ensures outcome.None? ==> r.state == parentState && r.nodeReward == 0 && r.accumulatedReward == 0 && !r.isTerminal
    ensures outcome.Some? ==> r.state == outcome.value.state && r.nodeReward == outcome.value.stepReturn
                              && r.isTerminal == outcome.value.terminal && r.branchReturn == r.nodeReward as real
    ensures outcome.Some? && parent.Null? ==> IsConsistentRoot(r)
    ensures outcome.Some? && parent.Node? ==> IsConsistentChild(parent, r)
  {
    var depth: nat := if parent.Null? then 0 else parent.depth + 1;
    var discount := if parent.Null? then disc else parent.discount * disc;
    var blank := Node(parentState, 0, 0, 0, 0.0, 0, false, -1, [], false, false, depth, 0, 0, discount, disc, a, []);
    match outcome
    case None => blank
    case Some(o) =>
      var n := Init(blank, o);
      var dnr := DiscountedReward(n.nodeReward, n.discount);
      if parent.Null? then
        n.(discountedNodeReward := dnr, accumulatedReward := n.nodeReward, discountedAccumulatedReward := dnr)
      else
        n.(discountedNodeReward := dnr,
           accumulatedReward := parent.accumulatedReward + n.nodeReward,
           discountedAccumulatedReward := parent.discountedAccumulatedReward + dnr)
  }

  /**
   * updateTreeNode(): recompute depth, discount and accumulated rewards from
   * the current parent (Null when the node has become the root; a root keeps
   * its discount). Only those five fields change.
   */
  function UpdateTreeNode(parent: TreeNode, n: TreeNode): (r: TreeNode)
    requires n.Node?
    ensures r.Node?
    ensures parent.Null? ==> IsConsistentRoot(r) && r.discount == n.discount
    ensures parent.Node? ==> IsConsistentChild(parent, r)
    ensures r == n.(depth := r.depth, discount := r.discount, discountedNodeReward := r.discountedNodeReward,
                    accumulatedReward := r.accumulatedReward,
                    discountedAccumulatedReward := r.discountedAccumulatedReward)
  {
    var depth: nat := if parent.Null? then 0 else parent.depth + 1;
    var discount := if parent.Null? then n.discount else parent.discount * n.originalDiscount;
    var dnr := DiscountedReward(n.nodeReward, discount);
    if parent.Null? then
      n.(depth := depth, discount := discount, discountedNodeReward := dnr,
         accumulatedReward := n.nodeReward, discountedAccumulatedReward := dnr)
    else
      n.(depth := depth, discount := discount, discountedNodeReward := dnr,
         accumulatedReward := parent.accumulatedReward + n.nodeReward,
         discountedAccumulatedReward := parent.discountedAccumulatedReward + dnr)
  }

  /** updateTreeNode leaves a node that already satisfies the invariant unchanged. */
  lemma UpdateTreeNodeFixesConsistent(parent: TreeNode, n: TreeNode)
    requires n.Node?
    requires if parent.Null? then IsConsistentRoot(n) else IsConsistentChild(parent, n)
    ensures UpdateTreeNode(parent, n) == n
  {
    var r := UpdateTreeNode(parent, n);
    assert r.depth == n.depth && r.discount == n.discount && r.discountedNodeReward == n.discountedNodeReward;
    assert r.accumulatedReward == n.accumulatedReward && r.discountedAccumulatedReward == n.discountedAccumulatedReward;
  }

  /** Applying updateTreeNode twice is applying it once. */
  lemma UpdateTreeNodeIdempotent(parent: TreeNode, n: TreeNode)
    requires n.Node?
    ensures UpdateTreeNode(parent, UpdateTreeNode(parent, n)) == UpdateTreeNode(parent, n)
  {
    UpdateTreeNodeFixesConsistent(parent, UpdateTreeNode(parent, n));
  }

  /** Appending a child made by the simulating constructor keeps a consistent subtree consistent. */
  lemma AddSimulatedChildKeepsConsistent(n: TreeNode, parentState: State, o: StepOutcome, a: int, disc: real)
    requires n.Node? && ConsistentTree(n)
    ensures var n' := n.(children := n.children + [NewNode(n, parentState, Some(o), a, disc)]);
      ConsistentTree(n')
  {
    var c := NewNode(n, parentState, Some(o), a, disc);
    assert IsConsistentChild(n, c) && c.children == [];
    var n' := n.(children := n.children + [c]);
    forall i | 0 <= i < |n'.children| && n'.children[i].Node?
      ensures IsConsistentChild(n', n'.children[i]) && ConsistentTree(n'.children[i])
    {
      var x := n'.children[i];
      if i < |n.children| {
        assert x == n.children[i];
        assert IsConsistentChild(n, x) && ConsistentTree(x);
      } else {
        assert x == c;
      }
      SameParentFields(n, n', x);
    }
  }

  /** Whether a child is consistent with its parent depends only on the parent's depth, discount and accumulated rewards. */
  lemma SameParentFields(p: TreeNode, q: TreeNode, x: TreeNode)
    requires p.Node? && q.Node? && x.Node?
    requires p.depth == q.depth && p.discount == q.discount
    requires p.accumulatedReward == q.accumulatedReward && p.discountedAccumulatedReward == q.discountedAccumulatedReward
    ensures IsConsistentChild(p, x) == IsConsistentChild(q, x)
  {
  }

  /** A path of child indices that stays on non-null nodes. */
  predicate ValidPath(n: TreeNode, path: seq<nat>)
    ensures ValidPath(n, path) ==> NodeAt(n, path).Node?
    decreases |path|
  {
    n.Node? && (path != [] ==> path[0] < |n.children| && n.children[path[0]].Node? && ValidPath(n.children[path[0]], path[1..]))
  }

  /** The node a path of child indices leads to, Null when it leaves the tree. */
  function NodeAt(n: TreeNode, path: seq<nat>): TreeNode
    decreases |path|
  {
    if path == [] then n
    else if n.Null? || path[0] >= |n.children| then Null
    else NodeAt(n.children[path[0]], path[1..])
  }

  /** The actions of the nodes strictly below n along a path. */
  function ActsBelow(n: TreeNode, path: seq<nat>): (r: seq<int>)
    requires ValidPath(n, path)
    ensures |r| == |path|
    decreases |path|
  {
    if path == [] then [] else [n.children[path[0]].act] + ActsBelow(n.children[path[0]], path[1..])
  }

  /** Sum of the immediate rewards of the nodes strictly below n on the path. */
  function RewardBelow(n: TreeNode, path: seq<nat>): int
    requires ValidPath(n, path)
    decreases |path|
  {
    if path == [] then 0
    else n.children[path[0]].nodeReward + RewardBelow(n.children[path[0]], path[1..])
  }

  /** Product of the per-step discounts of the nodes strictly below n on the path. */
  function DiscountBelow(n: TreeNode, path: seq<nat>): real
    requires ValidPath(n, path)
    decreases |path|
  {
    if path == [] then 1.0
    else n.children[path[0]].originalDiscount * DiscountBelow(n.children[path[0]], path[1..])
  }

  /**
   * In a consistent tree the node at a path is |path| levels deeper, its
   * accumulated reward adds the rewards along the path and its discount
   * multiplies the per-step discounts along it.
   */
  lemma {:induction false} ConsistentAlongPath(n: TreeNode, path: seq<nat>)
    requires ValidPath(n, path) && ConsistentTree(n)
    ensures NodeAt(n, path).Node?
    ensures NodeAt(n, path).depth == n.depth + |path|
    ensures NodeAt(n, path).accumulatedReward == n.accumulatedReward + RewardBelow(n, path)
    ensures NodeAt(n, path).discount == n.discount * DiscountBelow(n, path)
    decreases |path|
  {
    if path != [] {
      var c := n.children[path[0]];
      ConsistentAlongPath(c, path[1..]);
      assert c.discount == n.discount * c.originalDiscount;
      calc {
        NodeAt(n, path).discount;
        c.discount * DiscountBelow(c, path[1..]);
        n.discount * (c.originalDiscount * DiscountBelow(c, path[1..]));
      }
    }
  }

  /** From a consistent root: depth is the path length, accumulated reward the root's reward plus the rewards along the path. */
  lemma ConsistentRootPath(root: TreeNode, path: seq<nat>)
    requires ValidPath(root, path) && IsConsistentRoot(root) && ConsistentTree(root)
    ensures NodeAt(root, path).Node?
    ensures NodeAt(root, path).depth == |path|
    ensures NodeAt(root, path).accumulatedReward == root.nodeReward + RewardBelow(root, path)
  {
    ConsistentAlongPath(root, path);
  }

  /** num_nodes() can run: every child slot it reads is non-null, down every initialised child. */
  predicate Countable(n: TreeNode)
    decreases n
  {
    n.Node? && forall a :: 0 <= a < |n.children| ==>
      n.children[a].Node? && (n.children[a].initialized ==> Countable(n.children[a]))
  }

  /** Sum of CountedNodes over the initialised children among the first k. */
  function CountedChildren(n: TreeNode, k: nat): nat
    requires Countable(n) && k <= |n.children|
    decreases n, k
  {
    if k == 0 then 0
    else CountedChildren(n, k - 1) + (if n.children[k - 1].initialized then CountedNodes(n.children[k - 1]) else 0)
  }

  /** The value num_nodes() computes: the node itself plus, recursively, its initialised children. */
  function CountedNodes(n: TreeNode): nat
    requires Countable(n)
    decreases n, |n.children| + 1
  {
    1 + CountedChildren(n, |n.children|)
  }

  /** Non-null nodes in the subtree, initialised or not. */
  function Size(n: TreeNode): nat
    decreases n, if n.Null? then 0 else |n.children| + 1
  {
    if n.Null? then 0 else 1 + SizeChildren(n, |n.children|)
  }

  function SizeChildren(n: TreeNode, k: nat): nat
    requires n.Node? && k <= |n.children|
    decreases n, k
  {
    if k == 0 then 0 else SizeChildren(n, k - 1) + Size(n.children[k - 1])
  }

  /** Every node below n is initialised. */
  predicate AllInitialized(n: TreeNode)
    decreases n
  {
    n.Node? && n.initialized && forall a :: 0 <= a < |n.children| ==> AllInitialized(n.children[a])
  }

  /** num_nodes() counts at least the node, at most every node, and exactly every node when all are initialised. */
  lemma {:induction false} CountedNodesBounds(n: TreeNode)
    requires Countable(n)
    ensures 1 <= CountedNodes(n) <= Size(n)
    ensures AllInitialized(n) ==> CountedNodes(n) == Size(n)
    decreases n, |n.children| + 1
  {
    CountedChildrenBounds(n, |n.children|);
  }

  lemma {:induction false} CountedChildrenBounds(n: TreeNode, k: nat)
    requires Countable(n) && k <= |n.children|
    ensures CountedChildren(n, k) <= SizeChildren(n, k)
    ensures AllInitialized(n) ==> CountedChildren(n, k) == SizeChildren(n, k)
    decreases n, k
  {
    if k > 0 {
      CountedChildrenBounds(n, k - 1);
      var c := n.children[k - 1];
      if c.initialized {
        CountedNodesBounds(c);
      }
      if AllInitialized(n) {
        assert AllInitialized(c);
      }
    }
  }

  /** num_nodes(): the loop over the children adds up the counts of the initialised ones. */
  method NumNodes(n: TreeNode) returns (count: nat)
    requires Countable(n)
    ensures count == CountedNodes(n)
    ensures 1 <= count <= Size(n)
    decreases n, 0
  {
    var numNodes := 0;
    var a := 0;
    while a < |n.children|
      invariant 0 <= a <= |n.children|
      invariant numNodes == CountedChildren(n, a)
    {
      if n.children[a].initialized {
        var sub := NumNodes(n.children[a]);
        numNodes := numNodes + sub;
      }
      a := a + 1;
    }
    count := numNodes + 1;
    CountedNodesBounds(n);
  }
}
