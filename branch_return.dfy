/**
 * Backing up returns through the search tree: update_branch_return and
 * set_terminal_root (src/agents/IW1Search.cpp; PIW1Search.cpp holds the
 * same two routines word for word).
 *
 * A node's branch return is its own reward plus the discounted best branch
 * return of its children; `bestBranch` is the first child reaching that
 * maximum. A terminal node with children counts its own reward twice (once
 * as the node reward, once, discounted, as its "best return"), and a child
 * skipped as a duplicate still competes with the branch return it had.
 */
module BranchReturns {
  import opened Base
  import opened TreeNodes

  /** update_branch_return dereferences every child slot: no Null anywhere in the subtree. */
  predicate NoNullChildren(n: TreeNode)
    decreases n
  {
    n.Node? && forall i :: 0 <= i < |n.children| ==> n.children[i].Node? && NoNullChildren(n.children[i])
  }

  function Returns(cs: seq<TreeNode>): (r: seq<real>)
    requires forall i :: 0 <= i < |cs| ==> cs[i].Node?
    ensures |r| == |cs| && forall i :: 0 <= i < |cs| ==> r[i] == cs[i].branchReturn
  {
    seq(|cs|, i requires 0 <= i < |cs| => cs[i].branchReturn)
  }

  /** Where the argmax loop stands after vals[..k]: the first index of the maximum. */
  function ArgmaxPrefix(vals: seq<real>, k: nat): (b: nat)
    requires 1 <= k <= |vals|
    ensures b < k
  {
    if k == 1 then 0
    else
      var b := ArgmaxPrefix(vals, k - 1);
      if vals[k - 1] > vals[b] then k - 1 else b
  }

  /** The argmax is no smaller than any value seen and strictly larger than every one before it. */
  lemma {:induction false} ArgmaxPrefixIsFirstMax(vals: seq<real>, k: nat)
    requires 1 <= k <= |vals|
    ensures var b := ArgmaxPrefix(vals, k);
      && (forall i :: 0 <= i < k ==> vals[i] <= vals[b])
      && (forall i :: 0 <= i < b ==> vals[i] < vals[b])
  {
    if k > 1 {
      ArgmaxPrefixIsFirstMax(vals, k - 1);
    }
  }

  /** The branch depth after the loop has seen cs[..k], starting from `init`. */
  function MaxDepthPrefix(init: int, cs: seq<TreeNode>, k: nat): (d: int)
    requires forall i :: 0 <= i < |cs| ==> cs[i].Node?
    requires k <= |cs|
  {
    if k == 0 then init
    else
      var d := MaxDepthPrefix(init, cs, k - 1);
      if cs[k - 1].branchDepth > d then cs[k - 1].branchDepth else d
  }

  /** That depth is the largest of `init` and the depths seen. */
  lemma {:induction false} MaxDepthPrefixIsMax(init: int, cs: seq<TreeNode>, k: nat)
    requires forall i :: 0 <= i < |cs| ==> cs[i].Node?
    requires k <= |cs|
    ensures var d := MaxDepthPrefix(init, cs, k);
      && d >= init && (forall i :: 0 <= i < k ==> d >= cs[i].branchDepth)
      && (d == init || exists i :: 0 <= i < k && d == cs[i].branchDepth)
  {
    if k > 0 {
      MaxDepthPrefixIsMax(init, cs, k - 1);
    }
  }

  /** The first k children after the recursion of update_branch_return: duplicates are left alone when ignored. */
  function BackupChildren(n: TreeNode, gamma: real, ignoreDuplicates: bool, k: nat): (r: seq<TreeNode>)
    requires NoNullChildren(n) && k <= |n.children|
    ensures |r| == k
    ensures forall i :: 0 <= i < k ==> NoNullChildren(r[i])
    decreases n, k
  {
    if k == 0 then []
    else
      var c := n.children[k - 1];
      BackupChildren(n, gamma, ignoreDuplicates, k - 1)
        + [if ignoreDuplicates && c.duplicate then c else Backup(c, gamma, ignoreDuplicates)]
  }

  lemma {:induction false} BackupChildrenAt(n: TreeNode, gamma: real, ignoreDuplicates: bool, k: nat, i: nat)
    requires NoNullChildren(n) && i < k <= |n.children|
    ensures BackupChildren(n, gamma, ignoreDuplicates, k)[i] ==
              if ignoreDuplicates && n.children[i].duplicate then n.children[i]
              else Backup(n.children[i], gamma, ignoreDuplicates)
    decreases k
  {
    if i < k - 1 {
      BackupChildrenAt(n, gamma, ignoreDuplicates, k - 1, i);
    }
  }

  /** Node n with new children and the three fields the backup sets. */
  function BackedUp(n: TreeNode, cs: seq<TreeNode>, branchReturn: real, bestBranch: int, branchDepth: int): TreeNode
    requires n.Node?
  {
    n.(children := cs, branchReturn := branchReturn, bestBranch := bestBranch, branchDepth := branchDepth)
  }

  /**
   * The node update_branch_return makes of n once its children are the
   * updated `cs`: a terminal node's return is reward * (1 + gamma); any other
   * node's is its reward plus gamma times the largest child return, taken
   * from the first child that has it, and its branch depth grows to the
   * deepest child's.
   */
  function Combine(n: TreeNode, cs: seq<TreeNode>, gamma: real): (r: TreeNode)
    requires n.Node? && cs != [] && forall i :: 0 <= i < |cs| ==> cs[i].Node?
    ensures r.Node? && r.children == cs
  {
    if n.isTerminal then
      BackedUp(n, cs, n.nodeReward as real + n.nodeReward as real * gamma, 0, n.depth)
    else
      var b := ArgmaxPrefix(Returns(cs), |cs|);
      BackedUp(n, cs, n.nodeReward as real + cs[b].branchReturn * gamma, b, MaxDepthPrefix(n.branchDepth, cs, |cs|))
  }

  /**
   * Combine changes only the three backed-up fields; a terminal node's
   * return is reward * (1 + gamma) with best branch 0; any other node's is its
   * reward plus gamma times the largest child return, from the first child
   * that has it, and its depth is at least every child's.
   */
  lemma CombineMeets(n: TreeNode, cs: seq<TreeNode>, gamma: real)
    requires n.Node? && cs != [] && forall i :: 0 <= i < |cs| ==> cs[i].Node?
    ensures var r := Combine(n, cs, gamma);
      && r == n.(children := cs, branchReturn := r.branchReturn,
                 bestBranch := r.bestBranch, branchDepth := r.branchDepth)
      && (n.isTerminal ==>
            r.branchReturn == n.nodeReward as real + n.nodeReward as real * gamma
            && r.bestBranch == 0 && r.branchDepth == n.depth)
      && (!n.isTerminal ==>
            && 0 <= r.bestBranch < |cs|
            && r.branchReturn == n.nodeReward as real + cs[r.bestBranch].branchReturn * gamma
            && (forall i :: 0 <= i < |cs| ==> cs[i].branchReturn <= cs[r.bestBranch].branchReturn)
            && (forall i :: 0 <= i < r.bestBranch ==> cs[i].branchReturn < cs[r.bestBranch].branchReturn)
            && r.branchDepth >= n.branchDepth
            && (forall i :: 0 <= i < |cs| ==> r.branchDepth >= cs[i].branchDepth))
  {
    if !n.isTerminal {
      ArgmaxPrefixIsFirstMax(Returns(cs), |cs|);
      MaxDepthPrefixIsMax(n.branchDepth, cs, |cs|);
    }
  }

  /**
   * The subtree after update_branch_return(n): a leaf's return is its reward
   * and it has no best branch; any other node is the Combine of its
   * recursively updated children.
   */
  function Backup(n: TreeNode, gamma: real, ignoreDuplicates: bool): (r: TreeNode)
    requires NoNullChildren(n)
    ensures NoNullChildren(r) && |r.children| == |n.children|
    decreases n, |n.children| + 1
  {
    if n.children == [] then
      BackedUp(n, n.children, n.nodeReward as real, -1, n.depth)
    else
      Combine(n, BackupChildren(n, gamma, ignoreDuplicates, |n.children|), gamma)
  }

  /**
   * What update_branch_return leaves at n: only the branch return, best
   * branch and branch depth change; a leaf's return is its reward; a terminal
   * node's is reward * (1 + gamma) with best branch 0; any other node's is
   * its reward plus gamma times the largest child return, from the first
   * child that has it, and its depth is at least every child's.
   */
  lemma BackupAtNode(n: TreeNode, gamma: real, ignoreDuplicates: bool)
    requires NoNullChildren(n)
    ensures var r := Backup(n, gamma, ignoreDuplicates);
      && r == n.(children := r.children, branchReturn := r.branchReturn,
                 bestBranch := r.bestBranch, branchDepth := r.branchDepth)
      && (n.children == [] ==>
            r.branchReturn == n.nodeReward as real && r.bestBranch == -1 && r.branchDepth == n.depth)
      && (n.children != [] && n.isTerminal ==>
            r.branchReturn == n.nodeReward as real + n.nodeReward as real * gamma
            && r.bestBranch == 0 && r.branchDepth == n.depth)
      && (n.children != [] && !n.isTerminal ==>
            && 0 <= r.bestBranch < |r.children|
            && r.branchReturn == n.nodeReward as real + r.children[r.bestBranch].branchReturn * gamma
            && (forall i :: 0 <= i < |r.children| ==>
                  r.children[i].branchReturn <= r.children[r.bestBranch].branchReturn)
            && (forall i :: 0 <= i < r.bestBranch ==>
                  r.children[i].branchReturn < r.children[r.bestBranch].branchReturn)
            && r.branchDepth >= n.branchDepth
            && (forall i :: 0 <= i < |r.children| ==> r.branchDepth >= r.children[i].branchDepth))
  {
    if n.children != [] {
      CombineMeets(n, BackupChildren(n, gamma, ignoreDuplicates, |n.children|), gamma);
    }
  }

  /** The children after update_branch_return(n): a skipped duplicate is untouched, every other child is backed up. */
  lemma BackupChildAt(n: TreeNode, gamma: real, ignoreDuplicates: bool, i: nat)
    requires NoNullChildren(n) && i < |n.children|
    ensures Backup(n, gamma, ignoreDuplicates).children[i] ==
              if ignoreDuplicates && n.children[i].duplicate then n.children[i]
              else Backup(n.children[i], gamma, ignoreDuplicates)
  {
    BackupChildrenAt(n, gamma, ignoreDuplicates, |n.children|, i);
  }

  /**
   * update_branch_return(node): first the children, recursively (skipping
   * duplicates when they are ignored), then the argmax loop over all of them.
   */
  method UpdateBranchReturn(node: TreeNode, discountFactor: real, ignoreDuplicates: bool) returns (r: TreeNode)
    requires NoNullChildren(node)
    ensures r == Backup(node, discountFactor, ignoreDuplicates)
    decreases node, 1
  {
    if node.children == [] {
      return BackedUp(node, node.children, node.nodeReward as real, -1, node.depth);
    }
    var cs := UpdateChildren(node, discountFactor, ignoreDuplicates);
    r := CombineChildren(node, cs, discountFactor);
  }

  /** The first loop of update_branch_return: every child not skipped as a duplicate is updated. */
  method UpdateChildren(node: TreeNode, discountFactor: real, ignoreDuplicates: bool) returns (cs: seq<TreeNode>)
    requires NoNullChildren(node)
    ensures cs == BackupChildren(node, discountFactor, ignoreDuplicates, |node.children|)
    decreases node, 0
  {
    cs := node.children;
    var c := 0;
    while c < |node.children|
      invariant 0 <= c <= |node.children| && |cs| == |node.children|
      invariant cs[..c] == BackupChildren(node, discountFactor, ignoreDuplicates, c)
      invariant cs[c..] == node.children[c..]
    {
      var child := node.children[c];
      if !(ignoreDuplicates && child.duplicate) {
        var updated := UpdateBranchReturn(child, discountFactor, ignoreDuplicates);
        cs := cs[c := updated];
      }
      assert cs[..c + 1] == cs[..c] + [cs[c]];
      c := c + 1;
    }
    assert cs == cs[..c];
  }

  /** The rest of update_branch_return: the terminal case or the argmax loop over the updated children. */
  method CombineChildren(node: TreeNode, cs: seq<TreeNode>, discountFactor: real) returns (r: TreeNode)
    requires node.Node? && cs != [] && forall i :: 0 <= i < |cs| ==> cs[i].Node?
    ensures r == Combine(node, cs, discountFactor)
  {
    var bestReturn: real := -1.0;
    var bestBranch: int := -1;
    var branchDepth := node.branchDepth;
    if node.isTerminal {
      branchDepth := node.depth;
      bestReturn := node.nodeReward as real;
      bestBranch := 0;
    } else {
      bestBranch, bestReturn, branchDepth := BestChild(cs, branchDepth);
    }
    r := BackedUp(node, cs, node.nodeReward as real + bestReturn * discountFactor, bestBranch, branchDepth);
  }

  /**
   * The argmax loop of update_branch_return: the first child with the
   * largest branch return, that return, and the deepest branch depth seen
   * (from the node's own).
   */
  method BestChild(cs: seq<TreeNode>, depth: int) returns (bestBranch: int, bestReturn: real, branchDepth: int)
    requires cs != [] && forall i :: 0 <= i < |cs| ==> cs[i].Node?
    ensures 0 <= bestBranch < |cs| && bestBranch == ArgmaxPrefix(Returns(cs), |cs|)
    ensures bestReturn == cs[bestBranch].branchReturn
    ensures branchDepth == MaxDepthPrefix(depth, cs, |cs|)
  {
    ghost var vals := Returns(cs);
    bestReturn, bestBranch, branchDepth := -1.0, -1, depth;
    var a := 0;
    while a < |cs|
      invariant 0 <= a <= |cs|
      invariant a == 0 ==> bestBranch == -1
      invariant a > 0 ==> 0 <= bestBranch < a && bestBranch == ArgmaxPrefix(vals, a) && bestReturn == vals[bestBranch]
      invariant branchDepth == MaxDepthPrefix(depth, cs, a)
    {
      var childReturn := cs[a].branchReturn;
      assert childReturn == vals[a];
      if bestBranch == -1 || childReturn > bestReturn {
        bestReturn := childReturn;
        bestBranch := a;
      }
      if cs[a].branchDepth > branchDepth {
        branchDepth := cs[a].branchDepth;
      }
      a := a + 1;
    }
  }

  /**
   * set_terminal_root(node): the root's return is its own reward; a root
   * without children gets one no-op child, simulated with outcome `o`; the
   * best branch is the first child.
   */
  function SetTerminalRoot(node: TreeNode, o: StepOutcome): (r: TreeNode)
    requires node.Node?
    ensures r.Node? && r.branchReturn == node.nodeReward as real && r.bestBranch == 0
    ensures 0 <= r.bestBranch < |r.children|
    ensures node.children != [] ==> r.children == node.children
    ensures node.children == [] ==>
              && |r.children| == 1 && r.children[0].Node? && r.children[0].act == PLAYER_A_NOOP
              && r.children[0].initialized && IsConsistentChild(node, r.children[0])
    ensures r == node.(children := r.children, branchReturn := r.branchReturn, bestBranch := r.bestBranch)
  {
    var cs := if node.children == [] then [NewNode(node, node.state, Some(o), PLAYER_A_NOOP, 1.0)] else node.children;
    node.(children := cs, branchReturn := node.nodeReward as real, bestBranch := 0)
  }

  /** Two trees with the same nodes except for branch return, best branch and branch depth. */
  predicate SameShape(a: TreeNode, b: TreeNode)
    decreases a
  {
    && a.Node? && b.Node?
    && a == b.(children := a.children, branchReturn := a.branchReturn,
               bestBranch := a.bestBranch, branchDepth := a.branchDepth)
    && |a.children| == |b.children|
    && forall i :: 0 <= i < |a.children| ==> SameShape(a.children[i], b.children[i])
  }

  lemma {:induction false} SameShapeRefl(n: TreeNode)
    requires NoNullChildren(n)
    ensures SameShape(n, n)
    decreases n
  {
    forall i | 0 <= i < |n.children| {
      SameShapeRefl(n.children[i]);
    }
  }

  /** update_branch_return changes nothing in the subtree but the three backed-up fields. */
  lemma {:induction false} BackupKeepsShape(n: TreeNode, gamma: real, ignoreDuplicates: bool)
    requires NoNullChildren(n)
    ensures SameShape(Backup(n, gamma, ignoreDuplicates), n)
    decreases n
  {
    var r := Backup(n, gamma, ignoreDuplicates);
    BackupAtNode(n, gamma, ignoreDuplicates);
    forall i | 0 <= i < |r.children|
      ensures SameShape(r.children[i], n.children[i])
    {
      BackupChildAt(n, gamma, ignoreDuplicates, i);
      if ignoreDuplicates && n.children[i].duplicate {
        SameShapeRefl(n.children[i]);
      } else {
        BackupKeepsShape(n.children[i], gamma, ignoreDuplicates);
      }
    }
  }

  /** A play: a path from n that goes down until it reaches a leaf or a terminal node. */
  predicate IsPlay(n: TreeNode, path: seq<nat>)
    decreases |path|
  {
    NoNullChildren(n) &&
    if n.children == [] || n.isTerminal then path == []
    else path != [] && path[0] < |n.children| && IsPlay(n.children[path[0]], path[1..])
  }

  /** The discounted return of a play, valued the way the backup values its end node. */
  function PlayReturn(n: TreeNode, path: seq<nat>, gamma: real): real
    requires IsPlay(n, path)
    decreases |path|
  {
    if n.children == [] then n.nodeReward as real
    else if n.isTerminal then n.nodeReward as real + n.nodeReward as real * gamma
    else n.nodeReward as real + PlayReturn(n.children[path[0]], path[1..], gamma) * gamma
  }

  /** A non-negative discount keeps the order of two continuations: below the best, below its return. */
  lemma DiscountMonotone(reward: real, x: real, y: real, best: real, ret: real, gamma: real)
    requires x <= y <= best && gamma >= 0.0 && ret == reward + best * gamma
    ensures reward + x * gamma <= ret
  {
  }

  /** Without duplicate skipping, the best child's return is at least every child's backed-up return. */
  lemma BackupInnerBest(n: TreeNode, gamma: real)
    requires NoNullChildren(n) && n.children != [] && !n.isTerminal
    ensures var r := Backup(n, gamma, false);
      && 0 <= r.bestBranch < |r.children|
      && r.branchReturn == n.nodeReward as real + r.children[r.bestBranch].branchReturn * gamma
      && forall i :: 0 <= i < |n.children| ==>
           Backup(n.children[i], gamma, false).branchReturn <= r.children[r.bestBranch].branchReturn
  {
    BackupInner(n, gamma, false);
    forall i | 0 <= i < |n.children| {
      BackupChildAt(n, gamma, false, i);
    }
  }

  /** At an inner node, any bound on one child's backed-up return, discounted, bounds the node's. */
  lemma BackupInnerBound(n: TreeNode, gamma: real, c: nat, bound: real)
    requires NoNullChildren(n) && n.children != [] && !n.isTerminal && c < |n.children| && gamma >= 0.0
    requires bound <= Backup(n.children[c], gamma, false).branchReturn
    ensures n.nodeReward as real + bound * gamma <= Backup(n, gamma, false).branchReturn
  {
    var r := Backup(n, gamma, false);
    BackupInnerBest(n, gamma);
    DiscountMonotone(n.nodeReward as real, bound, Backup(n.children[c], gamma, false).branchReturn,
                     r.children[r.bestBranch].branchReturn, r.branchReturn, gamma);
  }

  /** An inner node's play returns its reward plus the discounted return of the rest of the play. */
  lemma PlayReturnInner(n: TreeNode, path: seq<nat>, gamma: real)
    requires IsPlay(n, path) && n.children != [] && !n.isTerminal
    ensures path != [] && path[0] < |n.children| && IsPlay(n.children[path[0]], path[1..])
    ensures PlayReturn(n, path, gamma) == n.nodeReward as real + PlayReturn(n.children[path[0]], path[1..], gamma) * gamma
  {
  }

  /** At an inner node the backup takes the best child's return, which no child return exceeds. */
  lemma BackupInner(n: TreeNode, gamma: real, ignoreDuplicates: bool)
    requires NoNullChildren(n) && n.children != [] && !n.isTerminal
    ensures var r := Backup(n, gamma, ignoreDuplicates);
      && 0 <= r.bestBranch < |r.children| == |n.children|
      && r.branchReturn == n.nodeReward as real + r.children[r.bestBranch].branchReturn * gamma
      && forall i :: 0 <= i < |r.children| ==> r.children[i].branchReturn <= r.children[r.bestBranch].branchReturn
  {
    BackupAtNode(n, gamma, ignoreDuplicates);
  }

  /** Without duplicate skipping and with gamma >= 0, no play returns more than the backed-up branch return. */
  lemma {:induction false} BackupBoundsPlays(n: TreeNode, path: seq<nat>, gamma: real)
    requires IsPlay(n, path) && gamma >= 0.0
    ensures PlayReturn(n, path, gamma) <= Backup(n, gamma, false).branchReturn
    decreases |path|
  {
    if n.children != [] && !n.isTerminal {
      PlayReturnInner(n, path, gamma);
      var c := path[0];
      BackupBoundsPlays(n.children[c], path[1..], gamma);
      BackupInnerBound(n, gamma, c, PlayReturn(n.children[c], path[1..], gamma));
    } else {
      BackupAtNode(n, gamma, false);
      assert PlayReturn(n, path, gamma) == Backup(n, gamma, false).branchReturn;
    }
  }

  /**
   * Some play achieves the backed-up return (the one that follows the best
   * branches), so with the bound above the branch return is the largest
   * return of any play.
   */
  lemma {:induction false} BackupAchievedByPlay(n: TreeNode, gamma: real)
    requires NoNullChildren(n)
    ensures exists p :: IsPlay(n, p) && PlayReturn(n, p, gamma) == Backup(n, gamma, false).branchReturn
    decreases n
  {
    var r := Backup(n, gamma, false);
    BackupAtNode(n, gamma, false);
    if n.children == [] || n.isTerminal {
      assert IsPlay(n, []) && PlayReturn(n, [], gamma) == r.branchReturn;
    } else {
      var b := r.bestBranch as nat;
      var child := n.children[b];
      var v := Backup(child, gamma, false).branchReturn;
      assert r.children[b].branchReturn == v by { BackupChildAt(n, gamma, false, b); }
      assert r.branchReturn == n.nodeReward as real + r.children[b].branchReturn * gamma;
      assert r.branchReturn == n.nodeReward as real + v * gamma;
      BackupAchievedByPlay(child, gamma);
      var rest :| IsPlay(child, rest) && PlayReturn(child, rest, gamma) == v;
      PlayReturnStep(n, b, rest, gamma, v);
      assert IsPlay(n, [b] + rest) && PlayReturn(n, [b] + rest, gamma) == r.branchReturn;
    }
  }

  lemma PlayReturnStep(n: TreeNode, b: nat, rest: seq<nat>, gamma: real, v: real)
    requires NoNullChildren(n) && n.children != [] && !n.isTerminal && b < |n.children|
    requires IsPlay(n.children[b], rest) && PlayReturn(n.children[b], rest, gamma) == v
    ensures IsPlay(n, [b] + rest)
    ensures PlayReturn(n, [b] + rest, gamma) == n.nodeReward as real + v * gamma
  {
    assert ([b] + rest)[1..] == rest;
  }

}
