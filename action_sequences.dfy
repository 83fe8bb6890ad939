/**
 * Action sequences as numbers, and their lookup in the search tree.
 *
 * The detection classes index their masks by action sequences written as
 * base-PLAYER_A_MAX numbers, first action most significant
 * (seqToInt/intToSeq in src/agents/DominatedActionSequenceDetection.cpp,
 * secToInt/intToSec in src/agents/ActionSequenceDetection.cpp, which are the
 * same code). With `permutate_action` the actions are tried in the order of
 * `action_permutation`, and permutateToOriginalAction maps an index back.
 */
module ActionSequences {
  import opened Base
  import opened TreeNodes

  /** Every element is an action number 0 .. PLAYER_A_MAX-1. */
  predicate ActionsInRange(s: seq<int>)
  {
    forall k :: 0 <= k < |s| ==> 0 <= s[k] < PLAYER_A_MAX
  }

  /** The number whose base-PLAYER_A_MAX digits, most significant first, are s. */
  function Encode(s: seq<int>): int
  {
    if s == [] then 0 else Encode(s[..|s| - 1]) * PLAYER_A_MAX + s[|s| - 1]
  }

  /** x after k truncating divisions by PLAYER_A_MAX. */
  function Shifted(x: int, k: nat): int
  {
    if k == 0 then x else CDiv(Shifted(x, k - 1), PLAYER_A_MAX)
  }

  /** The k-th digit of x, least significant first, with C++ `%` and `/`. */
  function Digit(x: int, k: nat): int
  {
    CRem(Shifted(x, k), PLAYER_A_MAX)
  }

  /** The sequence intToSeq(x, L) writes: position p holds digit L-1-p. */
  function Decode(x: int, L: nat): (s: seq<int>)
    ensures |s| == L
  {
    seq(L, p requires 0 <= p < L => Digit(x, L - 1 - p))
  }

  /** num_sequences(L): 0 for the empty length, PLAYER_A_MAX^L otherwise. */
  function SequenceCount(L: nat): nat
  {
    if L == 0 then 0 else Pow(PLAYER_A_MAX, L)
  }

  lemma MulAtLeastOne(b: nat, p: nat)
    requires 1 <= b
    ensures p <= b * p
  {
  }

  lemma {:induction false} PowMonotone(b: nat, e: nat, f: nat)
    requires 1 <= b && e <= f
    ensures Pow(b, e) <= Pow(b, f)
  {
    if e < f {
      PowMonotone(b, e, f - 1);
      PowPositive(b, f - 1);
      MulAtLeastOne(b, Pow(b, f - 1));
    }
  }

  /**
   * seqToInt, intToSeq and num_sequences compute in a 32-bit int: every
   * sequence number and mask size fits up to length 7, and from length 8
   * on the count of sequences no longer does.
   */
  lemma SequenceCountFitsInt(L: nat)
    ensures L <= 7 ==> SequenceCount(L) <= INT_MAX
    ensures 8 <= L ==> SequenceCount(L) > INT_MAX
  {
    assert Pow(PLAYER_A_MAX, 7) == 612220032 by {
      assert Pow(PLAYER_A_MAX, 0) == 1;
    }
    assert Pow(PLAYER_A_MAX, 8) == 11019960576;
    if L <= 7 {
      PowMonotone(PLAYER_A_MAX, L, 7);
    } else {
      PowMonotone(PLAYER_A_MAX, 8, L);
    }
  }

  /** A sequence of in-range actions encodes to a number below PLAYER_A_MAX^|s|. */
  lemma {:induction false} EncodeRange(s: seq<int>)
    requires ActionsInRange(s)
    ensures 0 <= Encode(s) < Pow(PLAYER_A_MAX, |s|)
  {
    if s != [] {
      var init := s[..|s| - 1];
      assert ActionsInRange(init);
      EncodeRange(init);
      assert Encode(s) <= (Pow(PLAYER_A_MAX, |init|) - 1) * PLAYER_A_MAX + (PLAYER_A_MAX - 1);
    }
  }

  lemma {:induction false} ShiftedSucc(x: int, k: nat)
    ensures Shifted(x, k + 1) == Shifted(CDiv(x, PLAYER_A_MAX), k)
  {
    if k > 0 {
      ShiftedSucc(x, k - 1);
    }
  }

  /** Decoding L digits is decoding the L-1 high digits, then the lowest. */
  lemma DecodeSplit(x: int, L: nat)
    requires L > 0
    ensures Decode(x, L) == Decode(CDiv(x, PLAYER_A_MAX), L - 1) + [CRem(x, PLAYER_A_MAX)]
  {
    var a := Decode(x, L);
    var b := Decode(CDiv(x, PLAYER_A_MAX), L - 1) + [CRem(x, PLAYER_A_MAX)];
    forall p | 0 <= p < L
      ensures a[p] == b[p]
    {
      assert a[p] == Digit(x, L - 1 - p);
      if p < L - 1 {
        ShiftedSucc(x, L - 2 - p);
        assert b[p] == Digit(CDiv(x, PLAYER_A_MAX), L - 2 - p);
      } else {
        assert Shifted(x, 0) == x;
      }
    }
    assert a == b;
  }

  /** Every digit of a non-negative number is an action number. */
  lemma DecodeInRange(x: int, L: nat)
    requires x >= 0
    ensures ActionsInRange(Decode(x, L))
  {
    forall p | 0 <= p < L
      ensures 0 <= Decode(x, L)[p] < PLAYER_A_MAX
    {
      var y := Shifted(x, L - 1 - p);
      ShiftedNonNegative(x, L - 1 - p);
      assert CDiv(y, PLAYER_A_MAX) == y / PLAYER_A_MAX;
      assert Decode(x, L)[p] == Digit(x, L - 1 - p);
      assert Digit(x, L - 1 - p) == CRem(y, PLAYER_A_MAX) == y % PLAYER_A_MAX;
    }
  }

  lemma {:induction false} ShiftedNonNegative(x: int, k: nat)
    requires x >= 0
    ensures Shifted(x, k) >= 0
  {
    if k > 0 {
      ShiftedNonNegative(x, k - 1);
    }
  }

  /** intToSeq(seqToInt(s), |s|) == s for in-range actions. */
  lemma {:induction false} DecodeEncode(s: seq<int>)
    requires ActionsInRange(s)
    ensures Decode(Encode(s), |s|) == s
  {
    if s != [] {
      var init := s[..|s| - 1];
      assert ActionsInRange(init);
      DecodeEncode(init);
      EncodeRange(init);
      var e := Encode(s);
      assert CDiv(e, PLAYER_A_MAX) == Encode(init);
      assert CRem(e, PLAYER_A_MAX) == s[|s| - 1];
      DecodeSplit(e, |s|);
      assert s == init + [s[|s| - 1]];
    }
  }

  /** seqToInt(intToSeq(x, L)) == x for 0 <= x < PLAYER_A_MAX^L. */
  lemma {:induction false} EncodeDecode(x: int, L: nat)
    requires 0 <= x < Pow(PLAYER_A_MAX, L)
    ensures Encode(Decode(x, L)) == x
  {
    if L > 0 {
      var q := CDiv(x, PLAYER_A_MAX);
      assert q == x / PLAYER_A_MAX;
      EncodeDecode(q, L - 1);
      DecodeSplit(x, L);
      var d := Decode(x, L);
      assert d[..L - 1] == Decode(q, L - 1);
    }
  }

  /** seqToInt: Horner's rule over the sequence. */
  method SeqToInt(sequence: seq<int>) returns (ret: int)
    ensures ret == Encode(sequence)
  {
    ret := 0;
    var i := 0;
    while i < |sequence|
      invariant 0 <= i <= |sequence|
      invariant ret == Encode(sequence[..i])
    {
      assert sequence[..i + 1][..i] == sequence[..i];
      ret := ret * PLAYER_A_MAX + sequence[i];
      i := i + 1;
    }
    assert sequence[..i] == sequence;
  }

  /** intToSeq: fill positions L-1 down to 0 with the remainders of repeated division. */
  method IntToSeq(seqInt: int, seqLength: nat) returns (sequence: seq<int>)
    ensures sequence == Decode(seqInt, seqLength)
  {
    sequence := Repeat(PLAYER_A_NOOP, seqLength);
    var rest := seqInt;
    var i := seqLength;
    while i > 0
      invariant 0 <= i <= seqLength && |sequence| == seqLength
      invariant rest == Shifted(seqInt, seqLength - i)
      invariant forall p :: i <= p < seqLength ==> sequence[p] == Digit(seqInt, seqLength - 1 - p)
    {
      i := i - 1;
      sequence := sequence[i := CRem(rest, PLAYER_A_MAX)];
      rest := CDiv(rest, PLAYER_A_MAX);
    }
  }

  /** num_sequences / t_size: the number of action sequences of the given length. */
  method NumSequences(seqLength: nat) returns (size: nat)
    ensures size == SequenceCount(seqLength)
    ensures seqLength > 0 ==> size == Pow(PLAYER_A_MAX, seqLength)
  {
    if seqLength == 0 {
      return 0;
    }
    size := 1;
    var i := 0;
    while i < seqLength
      invariant 0 <= i <= seqLength
      invariant size == Pow(PLAYER_A_MAX, i)
    {
      size := size * PLAYER_A_MAX;
      i := i + 1;
    }
  }

  /** action_permutation is a reordering of all PLAYER_A_MAX actions. */
  predicate IsPermutation(perm: seq<int>)
  {
    && |perm| == PLAYER_A_MAX
    && ActionsInRange(perm)
    && forall p, q :: 0 <= p < q < |perm| ==> perm[p] != perm[q]
  }

  /** The first p >= from (p < PLAYER_A_MAX) with perm[p] == a. */
  function FirstPositionFrom(perm: seq<int>, a: int, from: nat): (r: Option<nat>)
    requires PLAYER_A_MAX <= |perm|
    ensures r.Some? ==> from <= r.value < PLAYER_A_MAX && perm[r.value] == a
    ensures r.Some? ==> forall q :: from <= q < r.value ==> perm[q] != a
    ensures r.None? ==> forall q :: from <= q < PLAYER_A_MAX ==> perm[q] != a
    decreases PLAYER_A_MAX - from
  {
    if from >= PLAYER_A_MAX then None
    else if perm[from] == a then Some(from)
    else FirstPositionFrom(perm, a, from + 1)
  }

  /** The inner loop of permutateToOriginalAction: a's position in the permutation, or a itself when it has none. */
  function OriginalAction(perm: seq<int>, a: int): int
    requires PLAYER_A_MAX <= |perm|
  {
    match FirstPositionFrom(perm, a, 0)
    case None => a
    case Some(p) => p
  }

  /** Lines 317-319 of DominatedActionSequenceDetection.cpp: digit d stands for action perm[d]. */
  function Forward(s: seq<int>, perm: seq<int>): (r: seq<int>)
    requires ActionsInRange(s) && PLAYER_A_MAX <= |perm|
    ensures |r| == |s|
  {
    seq(|s|, j requires 0 <= j < |s| => perm[s[j]])
  }

  /** The value permutateToOriginalAction(input, L) returns. */
  function ToOriginal(input: int, L: nat, permutate: bool, perm: seq<int>): int
    requires PLAYER_A_MAX <= |perm|
  {
    if !permutate then input
    else
      var s := Decode(input, L);
      Encode(seq(|s|, j requires 0 <= j < |s| => OriginalAction(perm, s[j])))
  }

  /** permutateToOriginalAction: identity unless permutate_action; otherwise decode, look up each action's position, re-encode. */
  method PermutateToOriginalAction(input: int, seqLength: nat, permutate: bool, perm: seq<int>) returns (r: int)
    requires PLAYER_A_MAX <= |perm|
    ensures r == ToOriginal(input, seqLength, permutate, perm)
    ensures !permutate ==> r == input
  {
    if !permutate {
      return input;
    }
    var s := IntToSeq(input, seqLength);
    ghost var s0 := s;
    var j := 0;
    while j < |s|
      invariant 0 <= j <= |s| && |s| == |s0|
      invariant forall k :: 0 <= k < j ==> s[k] == OriginalAction(perm, s0[k])
      invariant forall k :: j <= k < |s| ==> s[k] == s0[k]
    {
      var p := 0;
      while p < PLAYER_A_MAX
        invariant 0 <= p <= PLAYER_A_MAX && s[j] == s0[j]
        invariant FirstPositionFrom(perm, s0[j], 0) == FirstPositionFrom(perm, s0[j], p)
        invariant |s| == |s0| && forall k :: 0 <= k < |s| && k != j ==> s[k] == (if k < j then OriginalAction(perm, s0[k]) else s0[k])
      {
        if perm[p] == s[j] {
          s := s[j := p];
          break;
        }
        p := p + 1;
      }
      j := j + 1;
    }
    assert s == seq(|s0|, k requires 0 <= k < |s0| => OriginalAction(perm, s0[k]));
    r := SeqToInt(s);
  }

  /** The scan for a's position finds one no later than any position holding a. */
  lemma {:induction false} FirstPositionFinds(perm: seq<int>, a: int, from: nat, d: nat)
    requires PLAYER_A_MAX <= |perm| && from <= d < PLAYER_A_MAX && perm[d] == a
    ensures FirstPositionFrom(perm, a, from).Some? && FirstPositionFrom(perm, a, from).value <= d
    decreases d - from
  {
    if perm[from] != a {
      FirstPositionFinds(perm, a, from + 1, d);
    }
  }

  /** In a bijective permutation the position of perm[d] is d. */
  lemma OriginalOfPermuted(perm: seq<int>, d: nat)
    requires IsPermutation(perm) && d < PLAYER_A_MAX
    ensures OriginalAction(perm, perm[d]) == d
  {
    FirstPositionFinds(perm, perm[d], 0, d);
  }

  /** For a bijective permutation, permutateToOriginalAction undoes the digit mapping of lines 317-319. */
  lemma ToOriginalUndoesForward(s: seq<int>, perm: seq<int>)
    requires IsPermutation(perm) && ActionsInRange(s)
    ensures ToOriginal(Encode(Forward(s, perm)), |s|, true, perm) == Encode(s)
  {
    var f := Forward(s, perm);
    assert ActionsInRange(f);
    DecodeEncode(f);
    var back := seq(|f|, j requires 0 <= j < |f| => OriginalAction(perm, f[j]));
    forall j | 0 <= j < |f|
      ensures back[j] == s[j]
    {
      OriginalOfPermuted(perm, s[j]);
    }
    assert back == s;
  }

  /** Every child slot of n is non-null. */
  predicate AllChildrenPresent(n: TreeNode)
    requires n.Node?
  {
    forall i :: 0 <= i < |n.children| ==> n.children[i].Node?
  }

  /** The first child, from index `from` on, whose action is a. */
  function FirstChildWithAct(cs: seq<TreeNode>, a: int, from: nat): (r: Option<nat>)
    requires forall i :: 0 <= i < |cs| ==> cs[i].Node?
    ensures r.Some? ==> from <= r.value < |cs| && cs[r.value].act == a
    ensures r.Some? ==> forall i :: from <= i < r.value ==> cs[i].act != a
    ensures r.None? ==> forall i :: from <= i < |cs| ==> cs[i].act != a
    decreases |cs| - from
  {
    if from >= |cs| then None
    else if cs[from].act == a then Some(from)
    else FirstChildWithAct(cs, a, from + 1)
  }

  /** getResultingNode can run: the child slots of each node it scans are non-null. */
  predicate Followable(n: TreeNode, s: seq<int>)
    decreases |s|
  {
    n.Node? &&
    (s != [] && n.children != [] ==>
       AllChildrenPresent(n) &&
       match FirstChildWithAct(n.children, s[0], 0)
       case None => true
       case Some(c) => Followable(n.children[c], s[1..]))
  }

  /**
   * The node getResultingNode(n, s) returns: follow, for each action of s,
   * the first child that took it; Null at a leaf or when no child took it.
   */
  function Follow(n: TreeNode, s: seq<int>): TreeNode
    requires Followable(n, s)
    decreases |s|
  {
    if s == [] then n
    else if n.children == [] then Null
    else match FirstChildWithAct(n.children, s[0], 0)
      case None => Null
      case Some(c) => Follow(n.children[c], s[1..])
  }

  /** A node getResultingNode finds lies at the end of a path whose actions are exactly s. */
  lemma {:induction false} FollowSpellsPath(n: TreeNode, s: seq<int>)
    requires Followable(n, s) && Follow(n, s).Node?
    ensures exists path :: ValidPath(n, path) && NodeAt(n, path) == Follow(n, s) && ActsBelow(n, path) == s
    decreases |s|
  {
    if s == [] {
      assert ValidPath(n, []) && NodeAt(n, []) == n && ActsBelow(n, []) == [];
    } else {
      var c := FirstChildWithAct(n.children, s[0], 0).value;
      FollowSpellsPath(n.children[c], s[1..]);
      var rest :| ValidPath(n.children[c], rest) && NodeAt(n.children[c], rest) == Follow(n, s)
                  && ActsBelow(n.children[c], rest) == s[1..];
      var path := [c] + rest;
      assert path[1..] == rest;
      assert ValidPath(n, path);
      assert ActsBelow(n, path) == [s[0]] + s[1..] == s;
    }
  }

  /** No two non-null children of any node in the subtree took the same action. */
  predicate DistinctSiblingActs(n: TreeNode)
    decreases n
  {
    n.Node? &&
    (forall i, j :: 0 <= i < j < |n.children| && n.children[i].Node? && n.children[j].Node? ==>
       n.children[i].act != n.children[j].act) &&
    (forall i :: 0 <= i < |n.children| && n.children[i].Node? ==> DistinctSiblingActs(n.children[i]))
  }

  /** When siblings took distinct actions, getResultingNode finds the node at the end of any path that spells s. */
  lemma {:induction false} FollowFindsPath(n: TreeNode, s: seq<int>, path: seq<nat>)
    requires Followable(n, s) && DistinctSiblingActs(n)
    requires ValidPath(n, path) && ActsBelow(n, path) == s
    ensures Follow(n, s) == NodeAt(n, path)
    decreases |s|
  {
    if s != [] {
      var k := path[0];
      assert n.children[k].act == s[0];
      FirstChildFinds(n.children, s[0], 0, k);
      var c := FirstChildWithAct(n.children, s[0], 0).value;
      assert c == k;
      FollowFindsPath(n.children[k], s[1..], path[1..]);
    }
  }

  lemma {:induction false} FirstChildFinds(cs: seq<TreeNode>, a: int, from: nat, k: nat)
    requires forall i :: 0 <= i < |cs| ==> cs[i].Node?
    requires from <= k < |cs| && cs[k].act == a
    ensures FirstChildWithAct(cs, a, from).Some? && FirstChildWithAct(cs, a, from).value <= k
    decreases k - from
  {
    if cs[from].act != a {
      FirstChildFinds(cs, a, from + 1, k);
    }
  }

  /** getResultingNode: walk down from root, one action at a time. */
  method GetResultingNode(root: TreeNode, sequence: seq<int>) returns (r: TreeNode)
    requires Followable(root, sequence) && ActionsInRange(sequence)
    ensures r == Follow(root, sequence)
  {
    var curr := root;
    var currPath := 0;
    while currPath < |sequence|
      invariant 0 <= currPath <= |sequence|
      invariant Followable(curr, sequence[currPath..])
      invariant Follow(root, sequence) == Follow(curr, sequence[currPath..])
      decreases |sequence| - currPath
    {
      if curr.IsLeaf() {
        return Null;
      }
      var rs := curr.children;
      ghost var c0, p0 := curr, currPath;
      var found := false;
      var i := 0;
      while i < |rs|
        invariant 0 <= i <= |rs| && curr == c0 && currPath == p0 && !found
        invariant FirstChildWithAct(rs, sequence[p0], 0) == FirstChildWithAct(rs, sequence[p0], i)
      {
        if rs[i].act == sequence[currPath] {
          curr := rs[i];
          currPath := currPath + 1;
          found := true;
          break;
        }
        i := i + 1;
      }
      if !found {
        return Null;
      }
      assert sequence[p0..][1..] == sequence[currPath..];
    }
    assert sequence[currPath..] == [];
    return curr;
  }
}
