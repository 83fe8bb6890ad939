/**
 * The search tree shared by the lookahead agents (src/agents/SearchTree.cpp):
 * deleting branches, promoting the best child to root, picking the action to
 * play, the sibling duplicate test, reward normalisation and the lookup of
 * the actions that led to a node.
 *
 * The tree is the value `root` (Null for a null p_root); a node is named by
 * its path of child indices from the root, and "delete" returns the nodes
 * freed, in the order delete_branch frees them.
 */
module SearchTrees {
  import opened Base
  import opened TreeNodes
  import opened BranchReturns

  // ----- delete_branch -----

  /** The nodes delete_branch(n) frees, in order: each non-null child's branch, then n. */
  function PostOrder(n: TreeNode): seq<TreeNode>
    requires n.Node?
    decreases n, |n.children| + 1
  {
    PostOrderChildren(n, |n.children|) + [n]
  }

  function PostOrderChildren(n: TreeNode, k: nat): seq<TreeNode>
    requires n.Node? && k <= |n.children|
    decreases n, k
  {
    if k == 0 then []
    else PostOrderChildren(n, k - 1) + (if n.children[k - 1].Null? then [] else PostOrder(n.children[k - 1]))
  }

  /** delete_branch frees every node of the subtree (and no null slot): as many nodes as the subtree holds, n last. */
  lemma {:induction false} PostOrderFreesSubtree(n: TreeNode)
    requires n.Node?
    ensures |PostOrder(n)| == Size(n)
    ensures forall x :: x in PostOrder(n) ==> x.Node?
    ensures PostOrder(n)[|PostOrder(n)| - 1] == n
    decreases n, |n.children| + 1
  {
    PostOrderChildrenFree(n, |n.children|);
  }

  lemma {:induction false} PostOrderChildrenFree(n: TreeNode, k: nat)
    requires n.Node? && k <= |n.children|
    ensures |PostOrderChildren(n, k)| == SizeChildren(n, k)
    ensures forall x :: x in PostOrderChildren(n, k) ==> x.Node?
    decreases n, k
  {
    if k > 0 {
      PostOrderChildrenFree(n, k - 1);
      if n.children[k - 1].Node? {
        PostOrderFreesSubtree(n.children[k - 1]);
      }
    }
  }

  /** The nodes move_to_best_sub_branch frees from the branches of n[..k] other than the best one. */
  function OtherBranches(n: TreeNode, k: nat): seq<TreeNode>
    requires n.Node? && k <= |n.children|
  {
    if k == 0 then []
    else OtherBranches(n, k - 1)
         + (if n.children[k - 1].Null? || k - 1 == n.bestBranch then [] else PostOrder(n.children[k - 1]))
  }

  lemma {:induction false} OtherBranchesSize(n: TreeNode, k: nat)
    requires n.Node? && k <= |n.children| && 0 <= n.bestBranch < |n.children|
    ensures |OtherBranches(n, k)| + (if n.bestBranch < k then Size(n.children[n.bestBranch]) else 0) == SizeChildren(n, k)
  {
    if k > 0 {
      OtherBranchesSize(n, k - 1);
      if n.children[k - 1].Node? {
        PostOrderFreesSubtree(n.children[k - 1]);
      }
    }
  }

  // ----- get_best_action -----

  /** Child c joins the tie set: not the best branch, not a skipped duplicate, same return and terminal flag as the best child. */
  predicate IsTie(n: TreeNode, ignoreDuplicates: bool, c: nat)
    requires n.Node? && 0 <= n.bestBranch < |n.children| && c < |n.children|
    requires forall i :: 0 <= i < |n.children| ==> n.children[i].Node?
  {
    var best := n.children[n.bestBranch];
    && c != n.bestBranch
    && !(ignoreDuplicates && n.children[c].duplicate)
    && n.children[c].branchReturn == best.branchReturn
    && n.children[c].isTerminal == best.isTerminal
  }

  /** best_branches after the loop has seen children[..k]: the best branch first, then the ties in order. */
  function TieSet(n: TreeNode, ignoreDuplicates: bool, k: nat): (r: seq<nat>)
    requires n.Node? && 0 <= n.bestBranch < |n.children| && k <= |n.children|
    requires forall i :: 0 <= i < |n.children| ==> n.children[i].Node?
    ensures |r| >= 1 && r[0] == n.bestBranch
    ensures forall t :: t in r ==> t < |n.children|
    ensures forall c :: 0 <= c < |n.children| ==>
              (c in r <==> c == n.bestBranch || (c < k && IsTie(n, ignoreDuplicates, c)))
  {
    if k == 0 then [n.bestBranch as nat]
    else TieSet(n, ignoreDuplicates, k - 1) + (if IsTie(n, ignoreDuplicates, k - 1) then [k - 1] else [])
  }

  /**
   * After update_branch_return on a non-terminal node, every member of the
   * tie set is a child with the largest branch return, so whichever one
   * get_best_action picks is a best move.
   */
  lemma TiesAreBestMoves(n: TreeNode, gamma: real, ignoreDuplicates: bool)
    requires NoNullChildren(n) && n.children != [] && !n.isTerminal
    ensures 0 <= Backup(n, gamma, ignoreDuplicates).bestBranch < |Backup(n, gamma, ignoreDuplicates).children|
    ensures var r := Backup(n, gamma, ignoreDuplicates);
      forall t :: t in TieSet(r, ignoreDuplicates, |r.children|) ==>
        forall i :: 0 <= i < |r.children| ==> r.children[i].branchReturn <= r.children[t].branchReturn
  {
    BackupAtNode(n, gamma, ignoreDuplicates);
  }

  // ----- the depth-normalised choice of get_best_action -----

  /** pow(x, e) for a non-negative integer exponent. */
  function RealPow(x: real, e: nat): real
  {
    if e == 0 then 1.0 else x * RealPow(x, e - 1)
  }

  /** norm_divides = (1 - pow(gamma, d)) / (1 - gamma). */
  function NormDivisor(gamma: real, d: nat): real
    requires gamma != 1.0
  {
    (1.0 - RealPow(gamma, d)) / (1.0 - gamma)
  }

  /** 1 + gamma + ... + gamma^(d-1): the total discount of a branch d steps deep. */
  function DiscountSum(gamma: real, d: nat): real
  {
    if d == 0 then 0.0 else DiscountSum(gamma, d - 1) + RealPow(gamma, d - 1)
  }

  lemma {:induction false} DiscountSumTimes(gamma: real, d: nat)
    ensures DiscountSum(gamma, d) * (1.0 - gamma) == 1.0 - RealPow(gamma, d)
  {
    if d > 0 {
      DiscountSumTimes(gamma, d - 1);
      var s, p := DiscountSum(gamma, d - 1), RealPow(gamma, d - 1);
      assert (s + p) * (1.0 - gamma) == s * (1.0 - gamma) + p * (1.0 - gamma);
      assert RealPow(gamma, d) == gamma * p;
    }
  }

  /** The divisor is the total discount of the branch: the score is a return per discounted step. */
  lemma NormDivisorIsDiscountSum(gamma: real, d: nat)
    requires gamma != 1.0
    ensures NormDivisor(gamma, d) == DiscountSum(gamma, d)
  {
    DiscountSumTimes(gamma, d);
    var c := 1.0 - gamma;
    assert DiscountSum(gamma, d) * c == 1.0 - RealPow(gamma, d);
    assert (DiscountSum(gamma, d) * c) / c == DiscountSum(gamma, d);
  }

  lemma {:induction false} RealPowNonNegative(x: real, e: nat)
    requires 0.0 <= x
    ensures 0.0 <= RealPow(x, e)
  {
    if e > 0 {
      RealPowNonNegative(x, e - 1);
    }
  }

  lemma {:induction false} DiscountSumAtLeastOne(gamma: real, d: nat)
    requires 0.0 <= gamma && 1 <= d
    ensures 1.0 <= DiscountSum(gamma, d)
  {
    if d > 1 {
      DiscountSumAtLeastOne(gamma, d - 1);
      RealPowNonNegative(gamma, d - 1);
    }
  }

  /** With a discount in [0, 1) a branch at least one step deep has a divisor of at least 1. */
  lemma NormDivisorAtLeastOne(gamma: real, d: nat)
    requires 0.0 <= gamma < 1.0 && 1 <= d
    ensures 1.0 <= NormDivisor(gamma, d)
  {
    NormDivisorIsDiscountSum(gamma, d);
    DiscountSumAtLeastOne(gamma, d);
  }

  /**
   * The child's score has a value: the divisor is defined and non-zero, so
   * the quotient is finite and its conversion to reward_t is defined.
   */
  predicate ScoreDefined(n: TreeNode, gamma: real)
    requires n.Node?
  {
    gamma != 1.0 && n.branchDepth >= 0 && NormDivisor(gamma, n.branchDepth) != 0.0
  }

  /** reward_t r = branch_return / norm_divides: the quotient, truncated to an integer. */
  function Score(n: TreeNode, gamma: real): int
    requires n.Node? && ScoreDefined(n, gamma)
  {
    Trunc(n.branchReturn / NormDivisor(gamma, n.branchDepth))
  }

  function Scores(cs: seq<TreeNode>, gamma: real): (r: seq<int>)
    requires forall i :: 0 <= i < |cs| ==> cs[i].Node? && ScoreDefined(cs[i], gamma)
    ensures |r| == |cs| && forall i :: 0 <= i < |cs| ==> r[i] == Score(cs[i], gamma)
  {
    seq(|cs|, i requires 0 <= i < |cs| => Score(cs[i], gamma))
  }

  /** Where the loop stands after scores[..k]: the branch chosen and best_reward, starting from init and -1. */
  function NormalizedPrefix(scores: seq<int>, init: nat, k: nat): (r: (nat, int))
    requires k <= |scores|
  {
    if k == 0 then (init, -1)
    else
      var r := NormalizedPrefix(scores, init, k - 1);
      if scores[k - 1] > r.1 then (k - 1, scores[k - 1]) else r
  }

  /**
   * The loop picks the first child with the largest score when some score
   * beats -1, and otherwise keeps the branch it started from.
   */
  lemma {:induction false} NormalizedPrefixIsFirstMax(scores: seq<int>, init: nat, k: nat)
    requires k <= |scores|
    ensures var r := NormalizedPrefix(scores, init, k);
      if exists i :: 0 <= i < k && scores[i] > -1 then
        && r.0 < k && r.1 == scores[r.0]
        && (forall i :: 0 <= i < k ==> scores[i] <= r.1)
        && (forall i :: 0 <= i < r.0 ==> scores[i] < r.1)
      else r.0 == init && r.1 == -1
  {
    if k > 0 {
      NormalizedPrefixIsFirstMax(scores, init, k - 1);
    }
  }

  /** The branch get_best_action builds its tie set around: the root's best branch, or the depth-normalised choice. */
  function StartBranch(n: TreeNode, depthNormalized: bool, gamma: real): (b: nat)
    requires n.Node? && 0 <= n.bestBranch < |n.children|
    requires forall i :: 0 <= i < |n.children| ==> n.children[i].Node?
    requires depthNormalized ==> forall i :: 0 <= i < |n.children| ==> ScoreDefined(n.children[i], gamma)
    ensures b < |n.children|
  {
    if depthNormalized then
      NormalizedPrefixIsFirstMax(Scores(n.children, gamma), n.bestBranch, |n.children|);
      NormalizedPrefix(Scores(n.children, gamma), n.bestBranch, |n.children|).0
    else n.bestBranch
  }

  // ----- normalize -----

  function Abs(x: int): nat
  {
    if x < 0 then -x else x
  }

  /** Dividing by a positive magnitude keeps the sign. */
  lemma DivideKeepsSign(x: real, m: real)
    requires m > 0.0
    ensures (x / m > 0.0 <==> x > 0.0) && (x / m < 0.0 <==> x < 0.0)
  {
    assert x / m * m == x;
  }

  /** A non-zero reward divided by its own magnitude is 1 or -1. */
  lemma DivideByOwnMagnitude(x: int)
    requires x != 0
    ensures x as real / Abs(x) as real == 1.0 || x as real / Abs(x) as real == -1.0
  {
    if x < 0 {
      assert x as real == -(Abs(x) as real);
    }
  }

  // ----- getPreviousActions -----

  /** The last k elements of s. */
  function LastN<T>(s: seq<T>, k: nat): (r: seq<T>)
    requires k <= |s|
    ensures |r| == k && forall i :: 0 <= i < k ==> r[i] == s[|s| - k + i]
  {
    s[|s| - k..]
  }

  /**
   * What getPreviousActions(node, L) returns as written, or None where it
   * reads before the start of the trajectory. The walk steps to
   * node->p_parent every time, and on reaching the root `assign` replaces
   * the whole vector by the last currLength actions played. `depth` is the
   * node's distance from the root.
   */
  function PreviousActionsAsWritten(trajectory: seq<int>, depth: nat, nodeAct: int, parentAct: int, L: nat): Option<seq<int>>
  {
    if L == 0 then Some([])
    else if depth == 0 then (if L <= |trajectory| then Some(LastN(trajectory, L)) else None)
    else if depth == 1 then
      (if L == 1 then Some([nodeAct])
       else if L - 1 <= |trajectory| then Some(LastN(trajectory, L - 1))
       else None)
    else Some(Repeat(parentAct, L - 1) + [nodeAct])
  }

  /**
   * The actions getPreviousActions is meant to return: the last L actions of
   * the trajectory played so far followed by the actions from the root down
   * to the node, with no-ops in front when there are fewer than L.
   */
  function PreviousActions(trajectory: seq<int>, acts: seq<int>, L: nat): (r: seq<int>)
    ensures |r| == L
  {
    LastN(Repeat(PLAYER_A_NOOP, L) + trajectory + acts, L)
  }

  /** The intended result ends with the node's own actions, preceded by the trajectory's. */
  lemma PreviousActionsEndsWithPath(trajectory: seq<int>, acts: seq<int>, L: nat)
    ensures var r := PreviousActions(trajectory, acts, L);
      && (L <= |acts| ==> r == acts[|acts| - L..])
      && (|acts| <= L ==> r[L - |acts|..] == acts)
      && (|acts| <= L <= |acts| + |trajectory| ==> r[..L - |acts|] == trajectory[|trajectory| - (L - |acts|)..])
  {
    var w := Repeat(PLAYER_A_NOOP, L) + trajectory + acts;
    var r := PreviousActions(trajectory, acts, L);
    if |acts| <= L {
      assert r[L - |acts|..] == acts;
      if L <= |acts| + |trajectory| {
        assert r[..L - |acts|] == trajectory[|trajectory| - (L - |acts|)..];
      }
    } else {
      assert r == acts[|acts| - L..];
    }
  }

  /**
   * As written, getPreviousActions misses its promised length for a child of
   * the root, and repeats the parent's action instead of walking further up.
   */
  lemma PreviousActionsAsWrittenDiffers()
    ensures PreviousActionsAsWritten([7, 8], 1, 3, 0, 2) == Some([8])
    ensures PreviousActions([7, 8], [3], 2) == [8, 3]
    ensures PreviousActionsAsWritten([], 3, 5, 4, 3) == Some([4, 4, 5])
    ensures PreviousActions([], [2, 4, 5], 3) == [2, 4, 5]
  {
    assert Repeat(PLAYER_A_NOOP, 2) + [7, 8] + [3] == [0, 0, 7, 8, 3];
    assert Repeat(PLAYER_A_NOOP, 3) + [] + [2, 4, 5] == [0, 0, 0, 2, 4, 5];
    assert Repeat(4, 2) + [5] == [4, 4, 5];
  }

  lemma {:induction false} ValidPrefix(n: TreeNode, path: seq<nat>, k: nat)
    requires ValidPath(n, path) && k <= |path|
    ensures ValidPath(n, path[..k])
    ensures NodeAt(n, path[..k]).Node?
    ensures k < |path| ==> path[k] < |NodeAt(n, path[..k]).children|
    ensures k < |path| ==> NodeAt(n, path[..k + 1]) == NodeAt(n, path[..k]).children[path[k]]
    decreases k
  {
    if k > 0 {
      ValidPrefix(n.children[path[0]], path[1..], k - 1);
      assert path[..k][1..] == path[1..][..k - 1];
      if k < |path| {
        assert path[..k + 1][1..] == path[1..][..k];
      }
    } else if path != [] {
      assert path[..1][1..] == [];
    }
  }

  lemma {:induction false} ActsBelowAt(n: TreeNode, path: seq<nat>, i: nat)
    requires ValidPath(n, path) && i < |path|
    ensures ValidPath(n, path[..i + 1])
    ensures ActsBelow(n, path)[i] == NodeAt(n, path[..i + 1]).act
    decreases i
  {
    ValidPrefix(n, path, i + 1);
    if i > 0 {
      ActsBelowAt(n.children[path[0]], path[1..], i - 1);
      assert path[..i + 1][1..] == path[1..][..i];
    }
  }

  // ----- test_duplicate -----

  /** Two states look alike: equal screens in image mode, equal states otherwise. */
  predicate SameObservation(a: State, b: State, imageBased: bool, screenOf: State -> seq<int>)
  {
    if imageBased then screenOf(a) == screenOf(b) else a == b
  }

  /** Some child of parent other than slot idx is non-null, not a duplicate, initialised, and looks like s. */
  predicate HasEqualSibling(parent: TreeNode, idx: nat, s: State, imageBased: bool, screenOf: State -> seq<int>)
  {
    parent.Node? &&
    exists c :: 0 <= c < |parent.children| && c != idx && parent.children[c].Node? &&
      !parent.children[c].duplicate && parent.children[c].initialized &&
      SameObservation(parent.children[c].state, s, imageBased, screenOf)
  }

  /** The tree with the duplicate flag of the node at path set to d. */
  function SetDuplicateAt(n: TreeNode, path: seq<nat>, d: bool): (r: TreeNode)
    requires ValidPath(n, path)
    ensures ValidPath(r, path) && NodeAt(r, path) == NodeAt(n, path).(duplicate := d)
    ensures r.Node? && |r.children| == |n.children|
    decreases |path|
  {
    if path == [] then n.(duplicate := d)
    else
      var c := path[0];
      var sub := SetDuplicateAt(n.children[c], path[1..], d);
      var r := n.(children := n.children[c := sub]);
      assert r.children[c] == sub;
      r
  }

  /** Setting the flag touches no sibling of the node: the next sibling test sees the same siblings. */
  lemma {:induction false} SetDuplicateKeepsSiblings(n: TreeNode, path: seq<nat>, d: bool)
    requires ValidPath(n, path) && path != []
    ensures ValidPath(n, path[..|path| - 1])
    ensures var r := SetDuplicateAt(n, path, d); var pp := path[..|path| - 1];
      && NodeAt(r, pp).Node? && |NodeAt(r, pp).children| == |NodeAt(n, pp).children|
      && forall c :: 0 <= c < |NodeAt(n, pp).children| && c != path[|path| - 1] ==>
           NodeAt(r, pp).children[c] == NodeAt(n, pp).children[c]
    decreases |path|
  {
    ValidPrefix(n, path, |path| - 1);
    var pp := path[..|path| - 1];
    if |path| > 1 {
      SetDuplicateKeepsSiblings(n.children[path[0]], path[1..], d);
      assert path[1..][..|path[1..]| - 1] == pp[1..];
      assert path[1..][|path[1..]| - 1] == path[|path| - 1];
    } else {
      assert pp == [];
    }
  }

  /** test_duplicate answers the same when asked again: its own flag is not one it reads. */
  lemma TestDuplicateStable(n: TreeNode, path: seq<nat>, d: bool, imageBased: bool, screenOf: State -> seq<int>)
    requires ValidPath(n, path) && path != []
    ensures ValidPath(n, path[..|path| - 1])
    ensures HasEqualSibling(NodeAt(SetDuplicateAt(n, path, d), path[..|path| - 1]), path[|path| - 1],
                            NodeAt(n, path).state, imageBased, screenOf)
            == HasEqualSibling(NodeAt(n, path[..|path| - 1]), path[|path| - 1], NodeAt(n, path).state, imageBased, screenOf)
  {
    SetDuplicateKeepsSiblings(n, path, d);
  }

  class SearchTree {
    var root: TreeNode
    var isBuilt: bool
    var maxDepth: nat
    var rewardMagnitude: real
    /** The actions played so far (saveUsedAction). */
    var trajectory: seq<int>
    const discountFactor: real
    const ignoreDuplicates: bool
    const imageBased: bool
    /** The depth_normalized_reward setting (false by default). */
    const depthNormalizedReward: bool

    /** SearchTree(...): no root, not built, reward magnitude 0. */
    constructor (discountFactor: real, ignoreDuplicates: bool, imageBased: bool, depthNormalizedReward: bool)
      ensures root == Null && !isBuilt && maxDepth == 0 && rewardMagnitude == 0.0 && trajectory == []
      ensures this.discountFactor == discountFactor && this.ignoreDuplicates == ignoreDuplicates
      ensures this.imageBased == imageBased && this.depthNormalizedReward == depthNormalizedReward
    {
      root := Null;
      isBuilt := false;
      maxDepth := 0;
      rewardMagnitude := 0.0;
      trajectory := [];
      this.discountFactor := discountFactor;
      this.ignoreDuplicates := ignoreDuplicates;
      this.imageBased := imageBased;
      this.depthNormalizedReward := depthNormalizedReward;
    }

    /** delete_branch(node): frees the subtree, children before their parent, skipping null slots. */
    method DeleteBranch(node: TreeNode) returns (deleted: seq<TreeNode>)
      requires node.Node?
      ensures deleted == PostOrder(node)
      ensures |deleted| == Size(node) && forall x :: x in deleted ==> x.Node?
      decreases node, 0
    {
      deleted := [];
      var c := 0;
      while c < |node.children|
        invariant 0 <= c <= |node.children|
        invariant deleted == PostOrderChildren(node, c)
      {
        if node.children[c].Node? {
          var sub := DeleteBranch(node.children[c]);
          deleted := deleted + sub;
        }
        c := c + 1;
      }
      deleted := deleted + [node];
      PostOrderFreesSubtree(node);
    }

    /** clear(): frees the whole tree; no root, not built, maximum depth 0. */
    method Clear() returns (deleted: seq<TreeNode>)
      modifies this
      ensures root == Null && !isBuilt && maxDepth == 0
      ensures rewardMagnitude == old(rewardMagnitude) && trajectory == old(trajectory)
      ensures old(root).Node? ==> deleted == PostOrder(old(root))
      ensures |deleted| == Size(old(root))
    {
      deleted := [];
      if root.Node? {
        deleted := DeleteBranch(root);
        root := Null;
      }
      isBuilt := false;
      maxDepth := 0;
    }

    /**
     * move_to_best_sub_branch(): frees every branch but the best one and the
     * old root itself (whose best slot is nulled first), and makes the best
     * child the root. No node is lost: the freed nodes and the new tree
     * together are exactly the old tree.
     */
    method MoveToBestSubBranch() returns (deleted: seq<TreeNode>)
      requires root.Node? && |root.children| > 0 && 0 <= root.bestBranch < |root.children|
      requires root.children[root.bestBranch].Node?
      modifies this
      ensures root == old(root).children[old(root).bestBranch]
      ensures maxDepth == 0 && isBuilt == old(isBuilt)
      ensures rewardMagnitude == old(rewardMagnitude) && trajectory == old(trajectory)
      ensures deleted == OtherBranches(old(root), |old(root).children|)
                         + [old(root).(children := old(root).children[old(root).bestBranch := Null])]
      ensures |deleted| + Size(root) == Size(old(root))
    {
      var oldRoot := root;
      deleted := [];
      var del := 0;
      while del < |oldRoot.children|
        invariant 0 <= del <= |oldRoot.children|
        invariant deleted == OtherBranches(oldRoot, del)
        invariant unchanged(this)
      {
        if oldRoot.children[del].Node? && del != oldRoot.bestBranch {
          var sub := DeleteBranch(oldRoot.children[del]);
          deleted := deleted + sub;
        }
        del := del + 1;
      }
      root := oldRoot.children[oldRoot.bestBranch];
      deleted := deleted + [oldRoot.(children := oldRoot.children[oldRoot.bestBranch := Null])];
      maxDepth := 0;
      OtherBranchesSize(oldRoot, |oldRoot.children|);
    }

    /**
     * get_best_action(): with depth_normalized_reward, first re-chooses the
     * best branch by score; then collects the tie set of that branch and,
     * when there is more than one, takes the one the random choice names
     * (`pick` stands for it); records it as the best branch and returns its
     * action.
     */
    method GetBestAction(pick: nat) returns (a: int)
      requires root.Node? && 0 <= root.bestBranch < |root.children|
      requires forall i :: 0 <= i < |root.children| ==> root.children[i].Node?
      requires depthNormalizedReward ==> forall i :: 0 <= i < |root.children| ==> ScoreDefined(root.children[i], discountFactor)
      requires |root.children| <= |root.availableActions|
      modifies this
      ensures var s := old(root).(bestBranch := StartBranch(old(root), depthNormalizedReward, discountFactor));
        var ties := TieSet(s, ignoreDuplicates, |s.children|);
        var b := if |ties| > 1 then ties[pick % |ties|] else ties[0];
        b < |old(root).children| && root == old(root).(bestBranch := b) && a == old(root).availableActions[b]
      ensures var s := old(root).(bestBranch := StartBranch(old(root), depthNormalizedReward, discountFactor));
        root.bestBranch in TieSet(s, ignoreDuplicates, |s.children|)
      ensures isBuilt == old(isBuilt) && maxDepth == old(maxDepth)
      ensures rewardMagnitude == old(rewardMagnitude) && trajectory == old(trajectory)
    {
      var bestBranch: nat := root.bestBranch;
      if depthNormalizedReward {
        bestBranch := NormalizedBestBranch(root.children, discountFactor, root.bestBranch);
      }
      var start := root.(bestBranch := bestBranch);
      var bestBranches := TiedBranches(start, ignoreDuplicates);
      if |bestBranches| > 1 {
        bestBranch := bestBranches[pick % |bestBranches|];
        assert bestBranch in bestBranches;
      }
      a := root.availableActions[bestBranch];
      root := root.(bestBranch := bestBranch);
    }

    /**
     * The depth-normalised loop of get_best_action (SearchTree.cpp lines
     * 144-159): each child's return divided by the total discount of its
     * branch, truncated; the first child whose score beats every earlier one
     * and -1 wins, and otherwise the branch passed in stays.
     */
    static method NormalizedBestBranch(cs: seq<TreeNode>, gamma: real, init: nat) returns (bestBranch: nat)
      requires forall i :: 0 <= i < |cs| ==> cs[i].Node? && ScoreDefined(cs[i], gamma)
      requires init < |cs|
      ensures bestBranch == NormalizedPrefix(Scores(cs, gamma), init, |cs|).0
      ensures bestBranch < |cs|
    {
      ghost var scores := Scores(cs, gamma);
      var bestReward := -1;
      bestBranch := init;
      var c := 0;
      while c < |cs|
        invariant 0 <= c <= |cs|
        invariant (bestBranch, bestReward) == NormalizedPrefix(scores, init, c)
      {
        var child := cs[c];
        var normDivides := (1.0 - RealPow(gamma, child.branchDepth)) / (1.0 - gamma);
        var r := Trunc(child.branchReturn / normDivides);
        assert r == scores[c];
        if r > bestReward {
          bestReward := r;
          bestBranch := c;
        }
        c := c + 1;
      }
      NormalizedPrefixIsFirstMax(scores, init, |cs|);
    }

    /** The loop of get_best_action: the best branch, then every other child tied with it, in order. */
    static method TiedBranches(root: TreeNode, ignoreDuplicates: bool) returns (bestBranches: seq<nat>)
      requires root.Node? && 0 <= root.bestBranch < |root.children|
      requires forall i :: 0 <= i < |root.children| ==> root.children[i].Node?
      ensures bestBranches == TieSet(root, ignoreDuplicates, |root.children|)
    {
      var bestBranch: nat := root.bestBranch;
      var bestChild := root.children[bestBranch];
      bestBranches := [bestBranch];
      var c := 0;
      while c < |root.children|
        invariant 0 <= c <= |root.children|
        invariant bestBranches == TieSet(root, ignoreDuplicates, c)
      {
        var currChild := root.children[c];
        if !(ignoreDuplicates && currChild.duplicate) {
          if c != bestBranch && currChild.branchReturn == bestChild.branchReturn
             && currChild.isTerminal == bestChild.isTerminal {
            bestBranches := bestBranches + [c];
          }
        }
        c := c + 1;
      }
    }

    /**
     * test_duplicate(node), for the node at `path`: the root, and in image
     * mode a child of the root, are never duplicates and keep their flag;
     * otherwise the node's flag is set to whether an eligible sibling looks
     * like it, and that is the answer.
     */
    method TestDuplicate(path: seq<nat>, screenOf: State -> seq<int>) returns (dup: bool)
      requires ValidPath(root, path)
      modifies this
      ensures path == [] || (imageBased && |path| == 1) ==> !dup && root == old(root)
      ensures path != [] && !(imageBased && |path| == 1) ==>
        && ValidPath(old(root), path[..|path| - 1])
        && dup == HasEqualSibling(NodeAt(old(root), path[..|path| - 1]), path[|path| - 1],
                                  NodeAt(old(root), path).state, imageBased, screenOf)
        && root == SetDuplicateAt(old(root), path, dup)
      ensures isBuilt == old(isBuilt) && maxDepth == old(maxDepth)
      ensures rewardMagnitude == old(rewardMagnitude) && trajectory == old(trajectory)
    {
      if imageBased && |path| == 1 {
        return false;
      }
      if path == [] {
        return false;
      }
      var idx := path[|path| - 1];
      ValidPrefix(root, path, |path| - 1);
      assert path[..|path|] == path;
      var parent := NodeAt(root, path[..|path| - 1]);
      var node := NodeAt(root, path);
      var c := 0;
      while c < |parent.children|
        invariant 0 <= c <= |parent.children|
        invariant unchanged(this)
        invariant forall i :: 0 <= i < c && i != idx && parent.children[i].Node? &&
                    !parent.children[i].duplicate && parent.children[i].initialized
                    ==> !SameObservation(parent.children[i].state, node.state, imageBased, screenOf)
      {
        var sibling := parent.children[c];
        if sibling.Node? && !sibling.duplicate && c != idx && sibling.initialized {
          var same := if imageBased then screenOf(sibling.state) == screenOf(node.state)
                      else sibling.state == node.state;
          if same {
            root := SetDuplicateAt(root, path, true);
            return true;
          }
        }
        c := c + 1;
      }
      root := SetDuplicateAt(root, path, false);
      return false;
    }

    /**
     * normalize(reward): 0 stays 0; the first non-zero reward fixes the
     * magnitude at its absolute value, and a non-zero reward becomes
     * reward / magnitude, so the first one becomes 1 or -1 and the sign of a
     * reward is kept.
     */
    method Normalize(reward: int) returns (r: real)
      modifies this
      ensures reward == 0 ==> r == 0.0 && rewardMagnitude == old(rewardMagnitude)
      ensures reward != 0 ==>
        && rewardMagnitude == (if old(rewardMagnitude) == 0.0 then Abs(reward) as real else old(rewardMagnitude))
        && r == reward as real / rewardMagnitude
      ensures reward != 0 && old(rewardMagnitude) == 0.0 ==> r == 1.0 || r == -1.0
      ensures old(rewardMagnitude) >= 0.0 ==> rewardMagnitude >= 0.0 && (r > 0.0 <==> reward > 0) && (r < 0.0 <==> reward < 0)
      ensures root == old(root) && isBuilt == old(isBuilt) && maxDepth == old(maxDepth) && trajectory == old(trajectory)
    {
      if reward == 0 {
        return 0.0;
      }
      if rewardMagnitude == 0.0 {
        rewardMagnitude := Abs(reward) as real;
        DivideByOwnMagnitude(reward);
      }
      r := reward as real / rewardMagnitude;
      if rewardMagnitude > 0.0 {
        DivideKeepsSign(reward as real, rewardMagnitude);
      }
    }

    /** num_nodes(): 0 without a root, otherwise the root's count. */
    method NumNodes() returns (count: nat)
      requires root.Null? || Countable(root)
      ensures root.Null? ==> count == 0
      ensures root.Node? ==> count == CountedNodes(root) && 1 <= count <= Size(root)
    {
      if root.Null? {
        return 0;
      }
      count := TreeNodes.NumNodes(root);
    }

    /**
     * getPreviousActions(node, L) as written, for the node at `path`; None
     * where it would read before the start of the trajectory.
     */
    method GetPreviousActionsAsWritten(path: seq<nat>, seqLength: nat) returns (r: Option<seq<int>>)
      requires ValidPath(root, path)
      ensures path == [] ==> r == PreviousActionsAsWritten(trajectory, 0, root.act, root.act, seqLength)
      ensures path != [] ==>
        && ValidPath(root, path[..|path| - 1])
        && r == PreviousActionsAsWritten(trajectory, |path|, NodeAt(root, path).act,
                                         NodeAt(root, path[..|path| - 1]).act, seqLength)
    {
      var node := NodeAt(root, path);
      var parentAct := node.act;
      if path != [] {
        ValidPrefix(root, path, |path| - 1);
        parentAct := NodeAt(root, path[..|path| - 1]).act;
      }
      var previousActions := Repeat(PLAYER_A_NOOP, seqLength);
      var currIsRoot := path == [];
      var currAct := node.act;
      var currLength := seqLength;
      while currLength > 0
        invariant 0 <= currLength <= seqLength && |previousActions| == seqLength
        invariant currLength == seqLength ==> currIsRoot == (path == []) && currAct == node.act
        invariant currLength < seqLength ==> path != [] && currIsRoot == (|path| == 1) && currAct == parentAct
        invariant currLength < seqLength ==> previousActions[seqLength - 1] == node.act
        invariant |path| == 1 ==> currLength + 1 >= seqLength
        invariant path == [] ==> currLength == seqLength
        invariant forall i :: currLength <= i < seqLength - 1 ==> previousActions[i] == parentAct
      {
        if currIsRoot {
          if currLength > |trajectory| {
            return None;
          }
          previousActions := trajectory[|trajectory| - currLength..];
          assert previousActions == LastN(trajectory, currLength);
          return Some(previousActions);
        }
        previousActions := previousActions[currLength - 1 := currAct];
        currIsRoot := |path| == 1;
        currAct := parentAct;
        currLength := currLength - 1;
      }
      if seqLength > 0 {
        assert previousActions == Repeat(parentAct, seqLength - 1) + [node.act];
        if seqLength == 1 {
          assert previousActions == [node.act];
        }
      } else {
        assert previousActions == [];
      }
      r := Some(previousActions);
    }

    /**
     * getPreviousActions(node, L) walking from each node to its own parent:
     * the last L of the played trajectory followed by the actions from the
     * root down to the node, padded with no-ops in front.
     */
    method GetPreviousActions(path: seq<nat>, seqLength: nat) returns (r: seq<int>)
      requires ValidPath(root, path)
      ensures r == PreviousActions(trajectory, ActsBelow(root, path), seqLength)
      ensures |r| == seqLength
    {
      ghost var acts := ActsBelow(root, path);
      var previousActions := Repeat(PLAYER_A_NOOP, seqLength);
      var k := |path|;
      var currLength := seqLength;
      while currLength > 0 && k > 0
        invariant 0 <= currLength <= seqLength && 0 <= k <= |path| && |previousActions| == seqLength
        invariant seqLength - currLength == |path| - k
        invariant previousActions[currLength..] == acts[k..]
        invariant forall i :: 0 <= i < currLength ==> previousActions[i] == PLAYER_A_NOOP
      {
        ValidPrefix(root, path, k);
        ActsBelowAt(root, path, k - 1);
        var curr := NodeAt(root, path[..k]);
        previousActions := previousActions[currLength - 1 := curr.act];
        k := k - 1;
        currLength := currLength - 1;
        assert previousActions[currLength..] == [acts[k]] + acts[k + 1..];
      }
      if currLength > 0 {
        var take := if currLength <= |trajectory| then currLength else |trajectory|;
        previousActions := Repeat(PLAYER_A_NOOP, currLength - take) + trajectory[|trajectory| - take..]
                           + previousActions[currLength..];
      }
      PreviousActionsShape(trajectory, acts, seqLength, currLength, k, previousActions);
      r := previousActions;
    }
  }

  /** The two ways the corrected walk can end both give the last L of no-ops, trajectory and path actions. */
  lemma PreviousActionsShape(trajectory: seq<int>, acts: seq<int>, L: nat, currLength: nat, k: nat, p: seq<int>)
    requires currLength <= L && k <= |acts| && L - currLength == |acts| - k
    requires currLength == 0 || k == 0
    requires currLength == 0 ==> p == acts[k..]
    requires currLength > 0 ==>
      var take := if currLength <= |trajectory| then currLength else |trajectory|;
      p == Repeat(PLAYER_A_NOOP, currLength - take) + trajectory[|trajectory| - take..] + acts
    ensures p == PreviousActions(trajectory, acts, L)
  {
    var w := Repeat(PLAYER_A_NOOP, L) + trajectory + acts;
    var q := PreviousActions(trajectory, acts, L);
    assert |p| == L;
    forall i | 0 <= i < L
      ensures p[i] == q[i]
    {
      assert q[i] == w[|w| - L + i];
    }
  }
}
