/**
 * Dominated action sequence pruning (src/agents/DominatedActionSequencePruning.cpp,
 * and what it inherits from src/agents/DominatedActionSequenceDetection.cpp).
 *
 * After each lookahead the agent walks the search tree and records, for each
 * length up to seqLength, which action sequences reached a state no earlier
 * sequence from the same node reached (the "used" masks), and links the
 * sequences that reach equal states in a dominance graph. With shuffled
 * actions, a vertex cover of the single-action graph can replace the
 * single-action mask and reorders the actions the search tries first.
 */
module Pruning {
  import opened Base
  import opened TreeNodes
  import opened ActionSequences
  import opened VertexCovers
  import opened BranchReturns
  import opened UsedSequences
  import opened EffectiveActions

  // ----- the stable reorderings of learnDASP and sortByNovelty -----

  /** The actions of s whose flag in keep is `want`, in their order in s. */
  function Select(s: seq<int>, keep: seq<bool>, want: bool): (r: seq<int>)
    requires ActionsInRange(s) && PLAYER_A_MAX <= |keep|
    ensures |r| <= |s| && ActionsInRange(r)
  {
    if s == [] then []
    else
      var x := s[|s| - 1];
      Select(s[..|s| - 1], keep, want) + (if keep[x] == want then [x] else [])
  }

  /** Appending one action appends it to the selection when its flag is the wanted one. */
  lemma SelectSnoc(s: seq<int>, x: int, keep: seq<bool>, want: bool)
    requires ActionsInRange(s) && 0 <= x < PLAYER_A_MAX && PLAYER_A_MAX <= |keep|
    ensures ActionsInRange(s + [x])
    ensures Select(s + [x], keep, want) == if keep[x] == want then Select(s, keep, want) + [x] else Select(s, keep, want)
  {
    assert (s + [x])[..|s|] == s;
    assert Select(s, keep, want) + [] == Select(s, keep, want);
  }

  /** Selecting from a concatenation selects from each part, in order: the selection is stable. */
  lemma {:induction false} SelectAppend(a: seq<int>, b: seq<int>, keep: seq<bool>, want: bool)
    requires ActionsInRange(a) && ActionsInRange(b) && PLAYER_A_MAX <= |keep|
    ensures ActionsInRange(a + b)
    ensures Select(a + b, keep, want) == Select(a, keep, want) + Select(b, keep, want)
    decreases |b|
  {
    assert ActionsInRange(a + b);
    if b == [] {
      assert a + b == a;
    } else {
      var b' := b[..|b| - 1];
      var x := b[|b| - 1];
      assert ActionsInRange(b');
      assert (a + b)[..|a + b| - 1] == a + b';
      assert (a + b)[|a + b| - 1] == x;
      SelectAppend(a, b', keep, want);
      var tail := if keep[x] == want then [x] else [];
      calc {
        Select(a + b, keep, want);
        Select(a + b', keep, want) + tail;
        (Select(a, keep, want) + Select(b', keep, want)) + tail;
        Select(a, keep, want) + (Select(b', keep, want) + tail);
      }
    }
  }

  /** An action is selected exactly when it occurs in s with the wanted flag. */
  lemma {:induction false} SelectMembers(s: seq<int>, keep: seq<bool>, want: bool)
    requires ActionsInRange(s) && PLAYER_A_MAX <= |keep|
    ensures forall x :: x in Select(s, keep, want) <==> x in s && keep[x] == want
  {
    if s != [] {
      SelectMembers(s[..|s| - 1], keep, want);
      assert s == s[..|s| - 1] + [s[|s| - 1]];
    }
  }

  /** The two selections split s: together they hold every action of s exactly as often. */
  lemma {:induction false} SelectSplits(s: seq<int>, keep: seq<bool>)
    requires ActionsInRange(s) && PLAYER_A_MAX <= |keep|
    ensures multiset(Select(s, keep, true)) + multiset(Select(s, keep, false)) == multiset(s)
  {
    if s != [] {
      var init, x := s[..|s| - 1], s[|s| - 1];
      assert ActionsInRange(init);
      SelectSplits(init, keep);
      assert s == init + [x];
      assert multiset(s) == multiset(init) + multiset{x};
      if keep[x] {
        assert Select(s, keep, true) == Select(init, keep, true) + [x];
        assert Select(s, keep, false) == Select(init, keep, false);
      } else {
        assert Select(s, keep, true) == Select(init, keep, true);
        assert Select(s, keep, false) == Select(init, keep, false) + [x];
      }
    }
  }

  /** No action repeats. */
  predicate Distinct(s: seq<int>)
  {
    forall p, q :: 0 <= p < q < |s| ==> s[p] != s[q]
  }

  lemma {:induction false} SelectDistinct(s: seq<int>, keep: seq<bool>, want: bool)
    requires ActionsInRange(s) && PLAYER_A_MAX <= |keep| && Distinct(s)
    ensures Distinct(Select(s, keep, want))
  {
    if s != [] {
      var init := s[..|s| - 1];
      var x := s[|s| - 1];
      SelectDistinct(init, keep, want);
      SelectMembers(init, keep, want);
      assert x !in init;
    }
  }

  /** Lines 193-203 of learnDASP: the actions in the mask first, then the others, each group in its old order. */
  function Partition(perm: seq<int>, mask: seq<bool>): (r: seq<int>)
    requires ActionsInRange(perm) && PLAYER_A_MAX <= |mask|
  {
    Select(perm, mask, true) + Select(perm, mask, false)
  }

  /** Every selected action carries the wanted flag. */
  lemma {:induction false} SelectFlags(s: seq<int>, keep: seq<bool>, want: bool)
    requires ActionsInRange(s) && PLAYER_A_MAX <= |keep|
    ensures forall p :: 0 <= p < |Select(s, keep, want)| ==> keep[Select(s, keep, want)[p]] == want
  {
    if s != [] {
      var init, x := s[..|s| - 1], s[|s| - 1];
      assert ActionsInRange(init);
      SelectFlags(init, keep, want);
      var r, ri := Select(s, keep, want), Select(init, keep, want);
      assert r == ri + (if keep[x] == want then [x] else []);
      forall p | 0 <= p < |r|
        ensures keep[r[p]] == want
      {
        if p < |ri| {
          assert r[p] == ri[p];
        } else {
          assert r[p] == x;
        }
      }
    }
  }

  /** The reordering holds every action of the old order exactly as often. */
  lemma PartitionMultiset(perm: seq<int>, mask: seq<bool>)
    requires ActionsInRange(perm) && PLAYER_A_MAX <= |mask|
    ensures multiset(Partition(perm, mask)) == multiset(perm)
  {
    SelectSplits(perm, mask);
  }

  /** The actions in the mask take exactly the first places of the reordering. */
  lemma PartitionGroups(perm: seq<int>, mask: seq<bool>)
    requires ActionsInRange(perm) && PLAYER_A_MAX <= |mask|
    ensures var r := Partition(perm, mask);
      forall p :: 0 <= p < |r| ==> (mask[r[p]] <==> p < |Select(perm, mask, true)|)
  {
    var ins, outs := Select(perm, mask, true), Select(perm, mask, false);
    SelectFlags(perm, mask, true);
    SelectFlags(perm, mask, false);
    var r := ins + outs;
    assert r == Partition(perm, mask);
    forall p | 0 <= p < |r|
      ensures mask[r[p]] <==> p < |ins|
    {
      if p < |ins| {
        assert r[p] == ins[p];
      } else {
        assert r[p] == outs[p - |ins|];
      }
    }
  }

  /** A bijective order stays bijective. */
  lemma PartitionPermutes(perm: seq<int>, mask: seq<bool>)
    requires IsPermutation(perm) && PLAYER_A_MAX <= |mask|
    ensures IsPermutation(Partition(perm, mask))
  {
    var ins, outs := Select(perm, mask, true), Select(perm, mask, false);
    var r := ins + outs;
    assert r == Partition(perm, mask);
    assert |r| == |perm| by {
      SelectSplits(perm, mask);
      assert |multiset(r)| == |multiset(perm)|;
    }
    SelectDistinct(perm, mask, true);
    SelectDistinct(perm, mask, false);
    SelectFlags(perm, mask, true);
    SelectFlags(perm, mask, false);
    AppendDistinct(ins, outs, mask);
  }

  /** Two distinct sequences, one inside the mask and one outside it, have no common element. */
  lemma AppendDistinct(ins: seq<int>, outs: seq<int>, mask: seq<bool>)
    requires Distinct(ins) && Distinct(outs)
    requires forall p :: 0 <= p < |ins| ==> 0 <= ins[p] < |mask| && mask[ins[p]]
    requires forall p :: 0 <= p < |outs| ==> 0 <= outs[p] < |mask| && !mask[outs[p]]
    ensures Distinct(ins + outs)
  {
    var r := ins + outs;
    forall p, q | 0 <= p < q < |r|
      ensures r[p] != r[q]
    {
      if q < |ins| {
        assert r[p] == ins[p] && r[q] == ins[q];
      } else if p < |ins| {
        assert r[p] == ins[p] && r[q] == outs[q - |ins|];
      } else {
        assert r[p] == outs[p - |ins|] && r[q] == outs[q - |ins|];
      }
    }
  }

  /**
   * The reordering is a permutation of the old order, the actions in the
   * mask take the first places, and a bijective order stays bijective.
   */
  lemma PartitionReorders(perm: seq<int>, mask: seq<bool>)
    requires ActionsInRange(perm) && PLAYER_A_MAX <= |mask|
    ensures multiset(Partition(perm, mask)) == multiset(perm)
    ensures var r := Partition(perm, mask);
      forall p :: 0 <= p < |r| ==> (mask[r[p]] <==> p < |Select(perm, mask, true)|)
    ensures IsPermutation(perm) ==> IsPermutation(Partition(perm, mask))
  {
    PartitionMultiset(perm, mask);
    PartitionGroups(perm, mask);
    if IsPermutation(perm) {
      PartitionPermutes(perm, mask);
    }
  }

  /**
   * sortByNovelty: the marked actions first, then the other actions of the
   * cover, then the rest, each group in the old order.
   */
  function NoveltyOrder(perm: seq<int>, marked: seq<bool>, minset: seq<bool>): (r: seq<int>)
    requires ActionsInRange(perm) && PLAYER_A_MAX <= |marked| && PLAYER_A_MAX <= |minset|
  {
    Select(perm, marked, true) + Partition(Select(perm, marked, false), minset)
  }

  /** Taking one more element of a sequence appends that element. */
  lemma TakeOneMore(s: seq<int>, i: nat)
    requires i < |s|
    ensures s[..i + 1] == s[..i] + [s[i]]
  {
  }

  /** One more action of the order joins exactly one of the three groups of sortByNovelty. */
  lemma NoveltyStep(s: seq<int>, x: int, marked: seq<bool>, minset: seq<bool>)
    requires ActionsInRange(s) && 0 <= x < PLAYER_A_MAX && PLAYER_A_MAX <= |marked| && PLAYER_A_MAX <= |minset|
    ensures ActionsInRange(s + [x])
    ensures Select(s + [x], marked, true) == if marked[x] then Select(s, marked, true) + [x] else Select(s, marked, true)
    ensures Select(Select(s + [x], marked, false), minset, true) ==
      if !marked[x] && minset[x] then Select(Select(s, marked, false), minset, true) + [x]
      else Select(Select(s, marked, false), minset, true)
    ensures Select(Select(s + [x], marked, false), minset, false) ==
      if !marked[x] && !minset[x] then Select(Select(s, marked, false), minset, false) + [x]
      else Select(Select(s, marked, false), minset, false)
  {
    SelectSnoc(s, x, marked, true);
    SelectSnoc(s, x, marked, false);
    if !marked[x] {
      SelectSnoc(Select(s, marked, false), x, minset, true);
      SelectSnoc(Select(s, marked, false), x, minset, false);
    }
  }

  /** sortByNovelty returns a permutation of the order, grouped by marked, then cover, then neither. */
  lemma NoveltyOrderGroups(perm: seq<int>, marked: seq<bool>, minset: seq<bool>)
    requires ActionsInRange(perm) && PLAYER_A_MAX <= |marked| && PLAYER_A_MAX <= |minset|
    ensures multiset(NoveltyOrder(perm, marked, minset)) == multiset(perm)
    ensures var r := NoveltyOrder(perm, marked, minset);
      var u := |Select(perm, marked, true)|;
      var c := |Select(Select(perm, marked, false), minset, true)|;
      forall p :: 0 <= p < |r| ==>
        && (marked[r[p]] <==> p < u)
        && (!marked[r[p]] ==> (minset[r[p]] <==> p < u + c))
  {
    var first, rest := Select(perm, marked, true), Select(perm, marked, false);
    var part := Partition(rest, minset);
    var r := first + part;
    assert r == NoveltyOrder(perm, marked, minset);
    var u := |first|;
    assert multiset(r) == multiset(perm) by {
      SelectSplits(perm, marked);
      PartitionMultiset(rest, minset);
    }
    SelectFlags(perm, marked, true);
    SelectMembers(perm, marked, false);
    SelectMembers(rest, minset, true);
    SelectMembers(rest, minset, false);
    PartitionGroups(rest, minset);
    forall p | 0 <= p < |r|
      ensures marked[r[p]] <==> p < u
      ensures !marked[r[p]] ==> (minset[r[p]] <==> p < u + |Select(rest, minset, true)|)
    {
      if p < u {
        assert r[p] == first[p];
      } else {
        assert r[p] == part[p - u];
        assert r[p] in Select(rest, minset, true) || r[p] in Select(rest, minset, false);
      }
    }
  }

  // ----- the state learnDominatedActionSequences and learnDASP produce -----

  /** The masks a first learning call starts from: every sequence of every length unused (lines 38-44). */
  function AllUnused(seqLength: nat): (masks: seq<seq<bool>>)
    ensures |masks| == seqLength && WellSized(masks)
    ensures forall k, e :: 0 <= k < seqLength && 0 <= e < |masks[k]| ==> !masks[k][e]
  {
    seq(seqLength, k requires 0 <= k < seqLength => Repeat(false, SequenceCount(k + 1)))
  }

  /** Lines 28-36: an empty order becomes 0 .. 17, shuffled when permutate_action is set. */
  function InitialOrder(perm: seq<int>, permutate: bool, shuffled: seq<int>): seq<int>
  {
    if perm != [] then perm else if permutate then shuffled else Identity()
  }

  function InitialMasks(masks: seq<seq<bool>>, seqLength: nat): seq<seq<bool>>
  {
    if masks == [] then AllUnused(seqLength) else masks
  }

  /** A fresh VertexCover(V) holds no edge and no forced vertex. */
  function EmptyGraph(V: nat): (g: Graph)
    ensures WellFormed(g) && |g.marked| == V
  {
    Graph(Repeat(Repeat(false, V), V), Repeat(false, V))
  }

  /** What searchNode(root, L, mask) leaves in the mask of length L. */
  function SearchedMask(mask: seq<bool>, root: TreeNode, L: nat, perm: seq<int>): (r: seq<bool>)
    requires |mask| == SequenceCount(L) && NoNullChildren(root) && |perm| == PLAYER_A_MAX && ActionsInRange(perm)
    ensures |r| == |mask|
  {
    PreOrderWalkable(root);
    MarksOver(mask, PreOrder(root), L, perm, CorrectedIndex(L, perm), true)
  }

  /** What searchNode(root, L, ...) leaves in the dominance graph of length L. */
  function SearchedGraph(g: Graph, root: TreeNode, L: nat, perm: seq<int>): (r: Graph)
    requires WellFormed(g) && |g.marked| == SequenceCount(L) && NoNullChildren(root)
    requires |perm| == PLAYER_A_MAX && ActionsInRange(perm)
    ensures WellFormed(r) && |r.marked| == |g.marked|
  {
    PreOrderWalkable(root);
    GraphOver(g, PreOrder(root), L, perm, CorrectedIndex(L, perm))
  }

  /** What searchNode(root, k+1, mask k) leaves in mask k, for every length up to seqLength. */
  function SearchedMasks(masks: seq<seq<bool>>, root: TreeNode, seqLength: nat, perm: seq<int>): (r: seq<seq<bool>>)
    requires WellSized(masks) && seqLength <= |masks| && NoNullChildren(root)
    requires |perm| == PLAYER_A_MAX && ActionsInRange(perm)
    ensures |r| == |masks| && WellSized(r)
  {
    seq(|masks|, k requires 0 <= k < |masks| =>
      if k < seqLength then SearchedMask(masks[k], root, k + 1, perm) else masks[k])
  }

  /**
   * The graph searched at length k+1: the old graph k, which a valid
   * pruning keeps well formed with one vertex per sequence of length k+1,
   * or else the fresh VertexCover pushed for it.
   */
  ghost function Initial(start: seq<Graph>, k: nat): (r: Graph)
    ensures WellFormed(r) && |r.marked| == SequenceCount(k + 1)
  {
    if k < |start| && WellFormed(start[k]) && |start[k].marked| == SequenceCount(k + 1) then start[k]
    else EmptyGraph(SequenceCount(k + 1))
  }

  /** The graph values after the push of round i: a fresh VertexCover(num_sequences(i)) at the end. */
  function Grown(cur: seq<Graph>, i: nat): (r: seq<Graph>)
    ensures |r| == |cur| + 1 && r[..|cur|] == cur && r[|cur|] == EmptyGraph(SequenceCount(i))
  {
    cur + [EmptyGraph(SequenceCount(i))]
  }

  /**
   * After the first n rounds: every graph value is well formed and sized
   * for its length, graph k < n is the searched Initial(start, k), and the
   * later old graphs are as they were.
   */
  ghost predicate RoundsDone(cur: seq<Graph>, start: seq<Graph>, masks0: seq<seq<bool>>, root: TreeNode, n: nat, perm: seq<int>)
    requires NoNullChildren(root) && |perm| == PLAYER_A_MAX && ActionsInRange(perm)
  {
    && (forall k :: 0 <= k < |cur| ==> WellFormed(cur[k]))
    && (forall k :: 0 <= k < |masks0| && k < |cur| ==> |cur[k].marked| == SequenceCount(k + 1))
    && (forall k :: 0 <= k < |start| ==> WellFormed(start[k]))
    && (forall k :: 0 <= k < |masks0| && k < |start| ==> |start[k].marked| == SequenceCount(k + 1))
    && n <= |masks0| && n <= |cur| && |start| <= |cur|
    && (forall k :: 0 <= k < n ==> cur[k] == SearchedGraph(Initial(start, k), root, k + 1, perm))
    && (forall k :: n <= k < |start| ==> cur[k] == start[k])
  }

  /** Round i searches Initial(start, i - 1) and keeps what the earlier rounds established. */
  lemma RoundStep(cur: seq<Graph>, start: seq<Graph>, masks0: seq<seq<bool>>, root: TreeNode, i: nat, perm: seq<int>)
    requires NoNullChildren(root) && |perm| == PLAYER_A_MAX && ActionsInRange(perm)
    requires 1 <= i <= |masks0| && |cur| == |start| + i - 1 && (start == [] || |masks0| <= |start|)
    requires RoundsDone(cur, start, masks0, root, i - 1, perm)
    ensures i - 1 < |cur| ==> WellFormed(cur[i - 1]) && |cur[i - 1].marked| == SequenceCount(i)
    ensures Grown(cur, i)[i - 1] == Initial(start, i - 1)
    ensures RoundsDone(Grown(cur, i)[i - 1 := SearchedGraph(Grown(cur, i)[i - 1], root, i, perm)], start, masks0, root, i, perm)
  {
    var g := Grown(cur, i);
    if i - 1 < |start| {
      assert g[i - 1] == cur[i - 1] == start[i - 1];
    } else {
      assert |cur| == i - 1;
    }
    var next := g[i - 1 := SearchedGraph(g[i - 1], root, i, perm)];
    assert forall k :: 0 <= k < |next| && k != i - 1 ==> next[k] == g[k];
  }

  /** Searching one more length changes only that length's mask. */
  lemma SearchedMasksStep(masks: seq<seq<bool>>, root: TreeNode, L: nat, perm: seq<int>)
    requires WellSized(masks) && 1 <= L <= |masks| && NoNullChildren(root)
    requires |perm| == PLAYER_A_MAX && ActionsInRange(perm)
    ensures SearchedMasks(masks, root, L, perm)
            == SearchedMasks(masks, root, L - 1, perm)[L - 1 := SearchedMask(masks[L - 1], root, L, perm)]
  {
  }

  /** The vertex cover minimalActionSet computes on a graph. */
  function MinimalSet(g: Graph): (r: seq<bool>)
    requires WellFormed(g)
    ensures |r| == |g.marked|
  {
    Greedy(g.adj, g.marked, |g.marked|)
  }

  /**
   * learnDASP (lines 180-206): with permutate_action, the cover of the
   * single-action graph replaces mask 0 when it keeps strictly fewer
   * actions, and the order is stably partitioned by the new mask.
   */
  function LearnStep(masks: seq<seq<bool>>, perm: seq<int>, g: Graph, permutate: bool): (r: (seq<seq<bool>>, seq<int>))
    requires 1 <= |masks| && WellFormed(g) && |g.marked| == |masks[0]| == PLAYER_A_MAX && ActionsInRange(perm)
  {
    var minset := MinimalSet(g);
    if permutate && CountTrue(minset) < CountTrue(masks[0]) then (masks[0 := minset], Partition(perm, minset))
    else (masks, perm)
  }

  /**
   * learnDASP never keeps more single actions than before, the new mask
   * still covers every edge and forced vertex of the graph, only mask 0
   * changes, and the new order is a reordering of the old one with the
   * kept actions first.
   */
  lemma LearnStepShrinks(masks: seq<seq<bool>>, perm: seq<int>, g: Graph, permutate: bool)
    requires 1 <= |masks| && WellFormed(g) && |g.marked| == |masks[0]| == PLAYER_A_MAX && ActionsInRange(perm)
    ensures var (m, p) := LearnStep(masks, perm, g, permutate);
      && |m| == |masks| && CountTrue(m[0]) <= CountTrue(masks[0])
      && (forall k :: 1 <= k < |masks| ==> m[k] == masks[k])
      && multiset(p) == multiset(perm)
      && (IsPermutation(perm) ==> IsPermutation(p))
      && (m[0] != masks[0] ==> CoversEdges(g.adj, m[0]) && PointwiseLe(g.marked, m[0]))
      && (m[0] != masks[0] ==> forall q, q' :: 0 <= q < q' < |p| && m[0][p[q']] ==> m[0][p[q]])
  {
    var minset := MinimalSet(g);
    GreedyIsCover(g.adj, g.marked);
    PartitionReorders(perm, minset);
  }

  ghost function GraphOf(g: VertexCover): Graph
    reads g
  {
    Graph(g.adj, g.marked)
  }

  ghost function GraphsOf(gs: seq<VertexCover>): (r: seq<Graph>)
    reads gs
    ensures |r| == |gs| && forall k :: 0 <= k < |gs| ==> r[k] == GraphOf(gs[k])
  {
    seq(|gs|, k requires 0 <= k < |gs| reads gs => GraphOf(gs[k]))
  }

  /** Object g is a well-formed graph whose value is v. */
  ghost predicate Holds(g: VertexCover, v: Graph)
    reads g
  {
    g.Valid() && GraphOf(g) == v
  }

  class DominatedActionSequencePruning {
    /** Mask k: which action sequences of length k+1 have been seen reaching a new state. */
    var isUsefulActionSequence: seq<seq<bool>>
    /** The order in which the actions are tried; digit d of a walked sequence stands for actionPermutation[d]. */
    var actionPermutation: seq<int>
    /** One graph per learning call and length; index k is the first call's graph for length k+1. */
    var dominanceGraph: seq<VertexCover>
    var actionLength: int
    const junkDecisionFrame: int
    const permutateAction: bool

    /** The graphs are distinct well-formed objects. */
    ghost predicate GraphsValid()
      reads this, dominanceGraph
    {
      && (forall k :: 0 <= k < |dominanceGraph| ==> dominanceGraph[k].Valid())
      && (forall p, q :: 0 <= p < q < |dominanceGraph| ==> dominanceGraph[p] != dominanceGraph[q])
    }

    /** Graph k, where both exist, has one vertex per sequence of mask k. */
    ghost predicate GraphsSized()
      reads this, dominanceGraph
    {
      forall k :: 0 <= k < |isUsefulActionSequence| && k < |dominanceGraph| ==>
        dominanceGraph[k].V == SequenceCount(k + 1)
    }

    ghost predicate Valid()
      reads this, dominanceGraph
    {
      && WellSized(isUsefulActionSequence)
      && (actionPermutation == [] || IsPermutation(actionPermutation))
      && (isUsefulActionSequence == [] ==> dominanceGraph == [])
      && |isUsefulActionSequence| <= |dominanceGraph|
      && GraphsValid() && GraphsSized()
    }

    /**
     * The constructor of DominatedActionSequenceDetection: a negative
     * junk_decision_frame setting means 12 frames.
     */
    constructor (junkDecisionFrameSetting: int, permutateAction: bool)
      ensures Valid()
      ensures junkDecisionFrame == (if junkDecisionFrameSetting < 0 then 12 else junkDecisionFrameSetting)
      ensures this.permutateAction == permutateAction
      ensures isUsefulActionSequence == [] && actionPermutation == [] && dominanceGraph == []
    {
      junkDecisionFrame := if junkDecisionFrameSetting < 0 then 12 else junkDecisionFrameSetting;
      this.permutateAction := permutateAction;
      isUsefulActionSequence := [];
      actionPermutation := [];
      dominanceGraph := [];
      actionLength := 0;
    }

    /**
     * getUsedSequenceList(node, seqLength, isSequenceUsed): marks the
     * sequence numbers that reach a new state from node and links the equal
     * ones in `graph`, the dominance graph of that length
     * (dominance_graph[seqLength - 1]). Each position writes the entry of
     * the sequence it walked (CorrectedIndex; see Findings for the
     * as-written one).
     */
    method GetUsedSequenceList(node: TreeNode, seqLength: nat, isSequenceUsed: seq<bool>, graph: VertexCover) returns (used: seq<bool>)
      requires NoNullChildren(node) && IsPermutation(actionPermutation)
      requires graph.Valid() && graph.V == SequenceCount(seqLength) && |isSequenceUsed| == SequenceCount(seqLength)
      modifies graph
      ensures graph.Valid() && graph.V == old(graph.V)
      ensures used == MarkNode(isSequenceUsed, node, seqLength, actionPermutation, CorrectedIndex(seqLength, actionPermutation), true)
      ensures PointwiseLe(isSequenceUsed, used)
      ensures GraphOf(graph) == LinkNode(old(GraphOf(graph)), node, seqLength, actionPermutation, CorrectedIndex(seqLength, actionPermutation))
    {
      var nodeList, codes := ListNodes(node, seqLength, actionPermutation);
      used := MarkFresh(isSequenceUsed, nodeList, codes, true);
      LinkPeers(graph, nodeList, codes);
    }

    /** searchNode: getUsedSequenceList at node, then at every node of each child's subtree. */
    method SearchNode(node: TreeNode, seqLength: nat, isSequenceUsed: seq<bool>, graph: VertexCover) returns (used: seq<bool>)
      requires NoNullChildren(node) && IsPermutation(actionPermutation)
      requires graph.Valid() && graph.V == SequenceCount(seqLength) && |isSequenceUsed| == SequenceCount(seqLength)
      modifies graph
      ensures graph.Valid() && graph.V == old(graph.V)
      ensures PreOrder(node)[0] == node && AllWalkable(PreOrder(node))
      ensures used == MarksOver(isSequenceUsed, PreOrder(node), seqLength, actionPermutation, CorrectedIndex(seqLength, actionPermutation), true)
      ensures GraphOf(graph) == GraphOver(old(GraphOf(graph)), PreOrder(node), seqLength, actionPermutation, CorrectedIndex(seqLength, actionPermutation))
      decreases node
    {
      var L, perm, idx := seqLength, actionPermutation, CorrectedIndex(seqLength, actionPermutation);
      PreOrderWalkable(node);
      used := GetUsedSequenceList(node, L, isSequenceUsed, graph);
      ghost var used1 := used;
      ghost var g1 := GraphOf(graph);
      var c := 0;
      while c < |node.children|
        invariant 0 <= c <= |node.children| && graph.Valid() && graph.V == SequenceCount(L) && |used| == |isSequenceUsed|
        invariant AllWalkable(PreOrderChildren(node, c))
        invariant used == MarksOver(used1, PreOrderChildren(node, c), L, perm, idx, true)
        invariant GraphOf(graph) == GraphOver(g1, PreOrderChildren(node, c), L, perm, idx)
      {
        PreOrderWalkable(node.children[c]);
        PreOrderChildrenWalkable(node, c + 1);
        MarksOverAppend(used1, PreOrderChildren(node, c), PreOrder(node.children[c]), L, perm, idx, true);
        GraphOverAppend(g1, PreOrderChildren(node, c), PreOrder(node.children[c]), L, perm, idx);
        used := SearchNode(node.children[c], L, used, graph);
        c := c + 1;
      }
      assert PreOrder(node) == [node] + PreOrderChildren(node, |node.children|);
    }

    /**
     * Lines 46-51: for every length i = 1 .. seqLength, push a fresh
     * VertexCover(num_sequences(i)), then search the tree into mask i-1 and
     * graph i-1 (the fresh one only on the first learning call).
     */
    method SearchAll(root: TreeNode, seqLength: nat)
      requires NoNullChildren(root) && IsPermutation(actionPermutation)
      requires WellSized(isUsefulActionSequence) && seqLength <= |isUsefulActionSequence|
      requires GraphsValid() && GraphsSized()
      requires if dominanceGraph == [] then |isUsefulActionSequence| == seqLength
               else 1 <= |isUsefulActionSequence| <= |dominanceGraph|
      modifies this, dominanceGraph
      ensures actionPermutation == old(actionPermutation) && actionLength == old(actionLength)
      ensures Valid() && AllWalkable(PreOrder(root))
      ensures |dominanceGraph| == |old(dominanceGraph)| + seqLength
      ensures dominanceGraph[..|old(dominanceGraph)|] == old(dominanceGraph)
      ensures isUsefulActionSequence == SearchedMasks(old(isUsefulActionSequence), root, seqLength, actionPermutation)
      ensures forall k :: 0 <= k < seqLength ==>
        GraphOf(dominanceGraph[k]) == SearchedGraph(Initial(old(GraphsOf(dominanceGraph)), k), root, k + 1, actionPermutation)
    {
      ghost var start := GraphsOf(dominanceGraph);
      PreOrderWalkable(root);
      var masks, graphs := SearchRounds(isUsefulActionSequence, dominanceGraph, start, root, seqLength);
      isUsefulActionSequence, dominanceGraph := masks, graphs;
    }

    /**
     * Lines 46-51 on the masks and graphs: round i pushes a fresh graph
     * and searches the tree into mask i-1 and graph i-1.
     */
    method SearchRounds(masks0: seq<seq<bool>>, graphs0: seq<VertexCover>, ghost start: seq<Graph>,
                        root: TreeNode, seqLength: nat)
        returns (masks: seq<seq<bool>>, graphs: seq<VertexCover>)
      requires NoNullChildren(root) && IsPermutation(actionPermutation)
      requires WellSized(masks0) && seqLength <= |masks0|
      requires graphs0 == [] || |masks0| <= |graphs0|
      requires |start| == |graphs0| && forall k :: 0 <= k < |graphs0| ==> Holds(graphs0[k], start[k])
      requires forall k :: 0 <= k < |start| ==> WellFormed(start[k])
      requires forall p, q :: 0 <= p < q < |graphs0| ==> graphs0[p] != graphs0[q]
      requires forall k :: 0 <= k < |masks0| && k < |start| ==> |start[k].marked| == SequenceCount(k + 1)
      modifies graphs0
      ensures |graphs| == |graphs0| + seqLength && graphs[..|graphs0|] == graphs0
      ensures forall k :: 0 <= k < |graphs| ==> graphs[k].Valid()
      ensures forall p, q :: 0 <= p < q < |graphs| ==> graphs[p] != graphs[q]
      ensures forall k :: 0 <= k < |masks0| && k < |graphs| ==> graphs[k].V == SequenceCount(k + 1)
      ensures masks == SearchedMasks(masks0, root, seqLength, actionPermutation)
      ensures forall k :: 0 <= k < seqLength ==>
        GraphOf(graphs[k]) == SearchedGraph(Initial(start, k), root, k + 1, actionPermutation)
    {
      masks, graphs := masks0, graphs0;
      ghost var cur := start;
      var i := 1;
      while i <= seqLength
        invariant 1 <= i <= seqLength + 1
        invariant |graphs| == |graphs0| + i - 1 && graphs[..|graphs0|] == graphs0
        invariant forall p, q :: 0 <= p < q < |graphs| ==> graphs[p] != graphs[q]
        invariant |cur| == |graphs| && forall k :: 0 <= k < |graphs| ==> Holds(graphs[k], cur[k])
        invariant RoundsDone(cur, start, masks0, root, i - 1, actionPermutation)
        invariant masks == SearchedMasks(masks0, root, i - 1, actionPermutation)
      {
        RoundStep(cur, start, masks0, root, i, actionPermutation);
        masks, graphs, cur := SearchLength(masks0, cur, root, i, masks, graphs);
        i := i + 1;
      }
      forall k | 0 <= k < |graphs|
        ensures graphs[k].Valid() && GraphOf(graphs[k]) == cur[k]
      {
        assert Holds(graphs[k], cur[k]);
      }
    }

    /**
     * Round i of lines 46-51: push a fresh VertexCover(num_sequences(i)),
     * then search the tree into mask i-1 and graph i-1.
     */
    method SearchLength(masks0: seq<seq<bool>>, ghost cur: seq<Graph>, root: TreeNode, i: nat,
                        masks: seq<seq<bool>>, graphs: seq<VertexCover>)
        returns (masks': seq<seq<bool>>, graphs': seq<VertexCover>, ghost cur': seq<Graph>)
      requires NoNullChildren(root) && IsPermutation(actionPermutation)
      requires WellSized(masks0) && 1 <= i <= |masks0| && i - 1 <= |graphs|
      requires forall p, q :: 0 <= p < q < |graphs| ==> graphs[p] != graphs[q]
      requires |cur| == |graphs| && forall k :: 0 <= k < |graphs| ==> Holds(graphs[k], cur[k])
      requires i - 1 < |cur| ==> WellFormed(cur[i - 1]) && |cur[i - 1].marked| == SequenceCount(i)
      requires masks == SearchedMasks(masks0, root, i - 1, actionPermutation)
      modifies if i - 1 < |graphs| then {graphs[i - 1]} else {}
      ensures |graphs'| == |graphs| + 1 && graphs'[..|graphs|] == graphs
      ensures forall p, q :: 0 <= p < q < |graphs'| ==> graphs'[p] != graphs'[q]
      ensures |cur'| == |graphs'| && forall k :: 0 <= k < |graphs'| ==> Holds(graphs'[k], cur'[k])
      ensures cur' == Grown(cur, i)[i - 1 := SearchedGraph(Grown(cur, i)[i - 1], root, i, actionPermutation)]
      ensures masks' == SearchedMasks(masks0, root, i, actionPermutation)
    {
      var size := NumSequences(i);
      var dgraph := new VertexCover(size);
      graphs' := graphs + [dgraph];
      ghost var grown := Grown(cur, i);
      assert GraphOf(dgraph) == grown[|graphs|];
      var g := graphs'[i - 1];
      SearchedMasksStep(masks0, root, i, actionPermutation);
      var used := SearchNode(root, i, masks[i - 1], g);
      masks' := masks[i - 1 := used];
      cur' := grown[i - 1 := SearchedGraph(grown[i - 1], root, i, actionPermutation)];
    }

    /** Lines 193-203: the actions in the mask, then the others, each group in its old order. */
    static method StablePartition(perm: seq<int>, mask: seq<bool>) returns (r: seq<int>)
      requires ActionsInRange(perm) && PLAYER_A_MAX <= |mask|
      ensures r == Partition(perm, mask)
    {
      var ins, outs := [], [];
      var i := 0;
      while i < |perm|
        invariant 0 <= i <= |perm|
        invariant ins == Select(perm[..i], mask, true) && outs == Select(perm[..i], mask, false)
      {
        assert perm[..i + 1][..i] == perm[..i];
        if mask[perm[i]] {
          ins := ins + [perm[i]];
        } else {
          outs := outs + [perm[i]];
        }
        i := i + 1;
      }
      assert perm[..|perm|] == perm;
      r := ins + outs;
    }

    /**
     * learnDASP: with permutate_action, when the cover of the first
     * call's single-action graph keeps strictly fewer actions than mask 0,
     * it becomes mask 0 and the order is stably split into kept and
     * dropped actions.
     */
    method LearnDASP()
      requires Valid() && (permutateAction ==> 1 <= |isUsefulActionSequence|)
      modifies this
      ensures Valid() && dominanceGraph == old(dominanceGraph) && actionLength == old(actionLength)
      ensures !permutateAction ==> isUsefulActionSequence == old(isUsefulActionSequence) && actionPermutation == old(actionPermutation)
      ensures permutateAction ==> (SequenceCount(1) == PLAYER_A_MAX && (isUsefulActionSequence, actionPermutation)
        == LearnStep(old(isUsefulActionSequence), old(actionPermutation), GraphOf(dominanceGraph[0]), true))
    {
      assert SequenceCount(1) == PLAYER_A_MAX;
      if permutateAction {
        var minset := dominanceGraph[0].MinimalActionSet();
        if CountTrue(minset) < CountTrue(isUsefulActionSequence[0]) {
          isUsefulActionSequence := isUsefulActionSequence[0 := minset];
          var perm := actionPermutation;
          PartitionReorders(perm, minset);
          actionPermutation := StablePartition(perm, minset);
        }
      }
    }

    /**
     * learnDominatedActionSequences(tree, seqLength): set up the order and
     * the masks on the first call, search the tree for every length, then
     * learnDASP. `shuffled` is what std::random_shuffle makes of 0 .. 17.
     */
    method LearnDominatedActionSequences(root: TreeNode, seqLength: nat, shuffled: seq<int>)
      requires Valid() && NoNullChildren(root)
      requires isUsefulActionSequence == [] || seqLength <= |isUsefulActionSequence|
      requires permutateAction && actionPermutation == [] ==> IsPermutation(shuffled)
      requires permutateAction ==> 1 <= seqLength || isUsefulActionSequence != []
      modifies this, dominanceGraph
      ensures Valid() && actionLength == seqLength && AllWalkable(PreOrder(root))
      ensures IsPermutation(InitialOrder(old(actionPermutation), permutateAction, shuffled))
      ensures |dominanceGraph| == |old(dominanceGraph)| + seqLength
      ensures dominanceGraph[..|old(dominanceGraph)|] == old(dominanceGraph)
      ensures var perm := InitialOrder(old(actionPermutation), permutateAction, shuffled);
        var searched := SearchedMasks(InitialMasks(old(isUsefulActionSequence), seqLength), root, seqLength, perm);
        && (!permutateAction ==> isUsefulActionSequence == searched && actionPermutation == perm)
        && (permutateAction ==> (SequenceCount(1) == PLAYER_A_MAX && 1 <= |searched| &&
             (isUsefulActionSequence, actionPermutation) == LearnStep(searched, perm, GraphOf(dominanceGraph[0]), true)))
      ensures var perm := InitialOrder(old(actionPermutation), permutateAction, shuffled);
        forall k :: 0 <= k < seqLength ==>
          GraphOf(dominanceGraph[k]) == SearchedGraph(Initial(old(GraphsOf(dominanceGraph)), k), root, k + 1, perm)
    {
      actionLength := seqLength;
      if actionPermutation == [] {
        actionPermutation := if permutateAction then shuffled else Identity();
      }
      if isUsefulActionSequence == [] {
        isUsefulActionSequence := AllUnused(seqLength);
      }
      SearchAll(root, seqLength);
      LearnDASP();
    }

    /**
     * getEffectiveActions(previousActions, current_frame): every action
     * during the first junk_decision_frame frames, then the actions the
     * masks allow after the history. The check of length i reads the last
     * i-1 actions (see Findings for the loop as written).
     */
    method GetEffectiveActions(previousActions: seq<int>, currentFrame: int) returns (available: seq<bool>)
      requires Valid() && ActionsInRange(previousActions)
      requires junkDecisionFrame <= currentFrame ==> 1 <= |isUsefulActionSequence|
      ensures junkDecisionFrame > currentFrame ==> available == Repeat(true, PLAYER_A_MAX)
      ensures junkDecisionFrame <= currentFrame ==> available == Effective(isUsefulActionSequence, previousActions)
    {
      if junkDecisionFrame > currentFrame {
        return Repeat(true, PLAYER_A_MAX);
      }
      available := AllowedActions(isUsefulActionSequence, previousActions);
    }

    /** getDetectedUsedActionsSize: the number of single actions kept, once the last call learnt length 1 only. */
    method GetDetectedUsedActionsSize() returns (n: int)
      requires Valid() && (actionLength == 1 ==> 1 <= |isUsefulActionSequence|)
      ensures n == (if actionLength == 1 then CountTrue(isUsefulActionSequence[0]) else 0)
      ensures 0 <= n <= PLAYER_A_MAX
    {
      n := 0;
      if actionLength == 1 {
        var available := isUsefulActionSequence[0];
        assert SequenceCount(1) == PLAYER_A_MAX;
        var a := 0;
        while a < PLAYER_A_MAX
          invariant 0 <= a <= PLAYER_A_MAX && n == CountTrue(available[..a])
        {
          assert available[..a + 1][..a] == available[..a];
          if available[a] {
            n := n + 1;
          }
          a := a + 1;
        }
        assert available[..PLAYER_A_MAX] == available;
        CountTrueBound(available);
      }
    }

    /**
     * sortByNovelty(marked, minset): the order regrouped into the marked
     * actions, then the other actions of the cover, then the rest.
     */
    static method SortByNovelty(perm: seq<int>, marked: seq<bool>, minset: seq<bool>) returns (r: seq<int>)
      requires ActionsInRange(perm) && PLAYER_A_MAX <= |marked| && PLAYER_A_MAX <= |minset|
      ensures r == NoveltyOrder(perm, marked, minset)
    {
      var unique, cover, notin := [], [], [];
      ghost var done: seq<int> := [];
      var i := 0;
      while i < |perm|
        invariant 0 <= i <= |perm| && done == perm[..i] && ActionsInRange(done)
        invariant unique == Select(done, marked, true)
        invariant cover == Select(Select(done, marked, false), minset, true)
        invariant notin == Select(Select(done, marked, false), minset, false)
      {
        var x := perm[i];
        NoveltyStep(done, x, marked, minset);
        if marked[x] {
          unique := unique + [x];
        } else if minset[x] {
          cover := cover + [x];
        } else {
          notin := notin + [x];
        }
        TakeOneMore(perm, i);
        done := done + [x];
        i := i + 1;
      }
      assert done == perm;
      r := unique + cover + notin;
    }
  }
}
