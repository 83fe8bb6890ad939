/*
 * ActionSequenceDetection (ASD): the earlier, graph-free learner. One mask
 * per sequence length records which action sequences have been seen to
 * reach a state no smaller-numbered sequence reaches from the same node;
 * the agent then only plays actions whose recent history is recorded.
 * Sequences are walked digit by digit (no shuffled order), position i of
 * the node list writes entry i, and terminal nodes are not skipped.
 */
module Detection {
  import opened Base
  import opened TreeNodes
  import opened ActionSequences
  import opened BranchReturns
  import opened UsedSequences
  import opened EffectiveActions

  /** What searchNode(root, L, mask) leaves in a mask of length L. */
  function Detected(mask: seq<bool>, root: TreeNode, L: nat): (r: seq<bool>)
    requires |mask| == SequenceCount(L) && NoNullChildren(root)
    ensures |r| == |mask|
  {
    PreOrderWalkable(root);
    MarksOver(mask, PreOrder(root), L, Identity(), IdentityIndex(L), false)
  }

  /**
   * Entry k of the searched mask is set exactly when it was set before or,
   * at some node of the tree, sequence number k leads to a node whose state
   * no smaller sequence number reaches.
   */
  lemma DetectedExactly(mask: seq<bool>, root: TreeNode, L: nat, k: nat)
    requires |mask| == SequenceCount(L) && NoNullChildren(root) && k < |mask|
    ensures AllWalkable(PreOrder(root))
    ensures Detected(mask, root, L)[k] <==>
              mask[k] || (exists p :: 0 <= p < |PreOrder(root)| &&
                            FirstOfItsState(NodeList(PreOrder(root)[p], L, Identity()), k, false))
  {
    PreOrderWalkable(root);
    var ns, idx := PreOrder(root), IdentityIndex(L);
    MarksOverExactly(mask, ns, L, Identity(), idx, false);
    if exists p :: 0 <= p < |ns| && UsedAt(ns[p], L, Identity(), idx, false, k) {
      var p :| 0 <= p < |ns| && UsedAt(ns[p], L, Identity(), idx, false, k);
      var i :| 0 <= i < SequenceCount(L) && FirstOfItsState(NodeList(ns[p], L, Identity()), i, false) && idx[i] == k;
      assert i == k;
    }
    if exists p :: 0 <= p < |ns| && FirstOfItsState(NodeList(ns[p], L, Identity()), k, false) {
      var p :| 0 <= p < |ns| && FirstOfItsState(NodeList(ns[p], L, Identity()), k, false);
      assert idx[k] == k;
      assert UsedAt(ns[p], L, Identity(), idx, false, k);
    }
  }

  /** Searching the same tree a second time changes nothing. */
  lemma DetectedIdempotent(mask: seq<bool>, root: TreeNode, L: nat)
    requires |mask| == SequenceCount(L) && NoNullChildren(root)
    ensures Detected(Detected(mask, root, L), root, L) == Detected(mask, root, L)
  {
    var once := Detected(mask, root, L);
    forall k | 0 <= k < |mask|
      ensures Detected(once, root, L)[k] == once[k]
    {
      DetectedExactly(mask, root, L, k);
      DetectedExactly(once, root, L, k);
    }
  }

  /** The masks before the search of length L: a fresh all-false mask is added when that length is new. */
  function Prepared(masks: seq<seq<bool>>, L: nat): (r: seq<seq<bool>>)
    requires WellSized(masks) && 1 <= L <= |masks| + 1
    ensures WellSized(r) && |r| == (if |masks| < L then L else |masks|)
    ensures r[..|masks|] == masks
    ensures |masks| < L ==> r[L - 1] == Repeat(false, SequenceCount(L))
  {
    if |masks| < L then masks + [Repeat(false, SequenceCount(L))] else masks
  }

  /** What getJunkActionSequence(tree, L) leaves in the masks. */
  function Learnt(masks: seq<seq<bool>>, root: TreeNode, L: nat): (r: seq<seq<bool>>)
    requires WellSized(masks) && 1 <= L <= |masks| + 1 && NoNullChildren(root)
    ensures WellSized(r) && |r| == |Prepared(masks, L)|
  {
    var m := Prepared(masks, L);
    m[L - 1 := Detected(m[L - 1], root, L)]
  }

  /**
   * Learning length L only adds marks, and only to mask L-1; the masks of
   * every other length are kept.
   */
  lemma LearntOnlyAdds(masks: seq<seq<bool>>, root: TreeNode, L: nat)
    requires WellSized(masks) && 1 <= L <= |masks| + 1 && NoNullChildren(root)
    ensures forall k :: 0 <= k < |masks| && k != L - 1 ==> Learnt(masks, root, L)[k] == masks[k]
    ensures forall k :: 0 <= k < |masks| ==> PointwiseLe(masks[k], Learnt(masks, root, L)[k])
  {
    var m := Prepared(masks, L);
    PreOrderWalkable(root);
    forall k | 0 <= k < |masks|
      ensures PointwiseLe(masks[k], Learnt(masks, root, L)[k])
    {
      assert m[k] == masks[k];
      if k == L - 1 {
        forall e | 0 <= e < |masks[k]| && masks[k][e]
          ensures Learnt(masks, root, L)[k][e]
        {
          DetectedExactly(m[k], root, L, e);
        }
      }
    }
  }

  /** A length learnt for the first time starts from no marks: its mask holds exactly what the tree shows. */
  lemma LearntFreshLength(masks: seq<seq<bool>>, root: TreeNode, L: nat, k: nat)
    requires WellSized(masks) && L == |masks| + 1 && NoNullChildren(root) && k < SequenceCount(L)
    ensures AllWalkable(PreOrder(root))
    ensures Learnt(masks, root, L)[L - 1][k] <==>
              (exists p :: 0 <= p < |PreOrder(root)| &&
                 FirstOfItsState(NodeList(PreOrder(root)[p], L, Identity()), k, false))
  {
    DetectedExactly(Repeat(false, SequenceCount(L)), root, L, k);
  }

  class ActionSequenceDetection {
    /** Mask k: which action sequences of length k+1 have been seen reaching a new state. */
    var usedActionSeqs: seq<seq<bool>>

    ghost predicate Valid()
      reads this
    {
      WellSized(usedActionSeqs)
    }

    /** The constructor: nothing learnt yet. */
    constructor ()
      ensures Valid() && usedActionSeqs == []
    {
      usedActionSeqs := [];
    }

    /**
     * getUsefulActions(previousActions): the actions mask 0 allows, cleared
     * of those whose history of each length i up to the history's own
     * length is not recorded. The check of length i reads the last i-1
     * actions in mask i-1 (see Findings for the loop as written).
     */
    method GetUsefulActions(previousActions: seq<int>) returns (available: seq<bool>)
      requires Valid() && 1 <= |usedActionSeqs| && ActionsInRange(previousActions)
      ensures available == Useful(usedActionSeqs, previousActions)
      ensures PointwiseLe(available, usedActionSeqs[0])
    {
      assert SequenceCount(1) == PLAYER_A_MAX;
      available := usedActionSeqs[0];
      var length := Min(|previousActions|, |usedActionSeqs|);
      var i := 1;
      while i <= length
        invariant 1 <= i <= length + 1 && |available| == PLAYER_A_MAX
        invariant forall j :: 0 <= j < PLAYER_A_MAX ==> available[j] == AllowedBelow(usedActionSeqs, previousActions, j, i)
      {
        available := ClearUnrecorded(usedActionSeqs, previousActions, i, available);
        forall k | 0 <= k < PLAYER_A_MAX
          ensures available[k] == AllowedBelow(usedActionSeqs, previousActions, k, i + 1)
        {
          AllowedBelowStep(usedActionSeqs, previousActions, k, i);
        }
        i := i + 1;
      }
    }

    /**
     * getUsedSequenceList(node, seqLength, isSequenceUsed): the node every
     * sequence number leads to (walking its digits, which is the walk
     * through the identity order), then every first node of its state sets
     * the entry of its own position; terminal nodes count.
     */
    method GetUsedSequenceList(node: TreeNode, seqLength: nat, isSequenceUsed: seq<bool>) returns (used: seq<bool>)
      requires NoNullChildren(node) && |isSequenceUsed| == SequenceCount(seqLength)
      ensures used == MarkNode(isSequenceUsed, node, seqLength, Identity(), IdentityIndex(seqLength), false)
      ensures PointwiseLe(isSequenceUsed, used)
    {
      var nodeList, _ := ListNodes(node, seqLength, Identity());
      used := MarkFresh(isSequenceUsed, nodeList, IdentityIndex(seqLength), false);
    }

    /** searchNode: getUsedSequenceList at node, then at every node of each child's subtree. */
    method SearchNode(node: TreeNode, seqLength: nat, isSequenceUsed: seq<bool>) returns (used: seq<bool>)
      requires NoNullChildren(node) && |isSequenceUsed| == SequenceCount(seqLength)
      ensures AllWalkable(PreOrder(node))
      ensures used == MarksOver(isSequenceUsed, PreOrder(node), seqLength, Identity(), IdentityIndex(seqLength), false)
      decreases node
    {
      var L, perm, idx := seqLength, Identity(), IdentityIndex(seqLength);
      PreOrderWalkable(node);
      used := GetUsedSequenceList(node, L, isSequenceUsed);
      ghost var used1 := used;
      var c := 0;
      while c < |node.children|
        invariant 0 <= c <= |node.children| && |used| == |isSequenceUsed|
        invariant AllWalkable(PreOrderChildren(node, c))
        invariant used == MarksOver(used1, PreOrderChildren(node, c), L, perm, idx, false)
      {
        PreOrderWalkable(node.children[c]);
        PreOrderChildrenWalkable(node, c + 1);
        MarksOverAppend(used1, PreOrderChildren(node, c), PreOrder(node.children[c]), L, perm, idx, false);
        used := SearchNode(node.children[c], L, used);
        c := c + 1;
      }
      assert PreOrder(node) == [node] + PreOrderChildren(node, |node.children|);
    }

    /**
     * getJunkActionSequence(tree, seqLength): a length one past the learnt
     * ones gets a fresh all-false mask, then the whole tree is searched into
     * the mask of that length.
     */
    method GetJunkActionSequence(root: TreeNode, seqLength: nat)
      requires Valid() && NoNullChildren(root) && 1 <= seqLength <= |usedActionSeqs| + 1
      modifies this
      ensures Valid()
      ensures usedActionSeqs == Learnt(old(usedActionSeqs), root, seqLength)
    {
      if |usedActionSeqs| < seqLength {
        var size := NumSequences(seqLength);
        usedActionSeqs := usedActionSeqs + [Repeat(false, size)];
      }
      var mask := SearchNode(root, seqLength, usedActionSeqs[seqLength - 1]);
      usedActionSeqs := usedActionSeqs[seqLength - 1 := mask];
    }
  }
}
