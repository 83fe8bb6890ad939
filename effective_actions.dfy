/**
 * Which actions the pruning agents let the search try next, given the
 * learnt "used sequence" masks and the actions taken so far
 * (getEffectiveActions in src/agents/DominatedActionSequencePruning.cpp and
 * src/agents/DominatedActionSequenceDetection.cpp, getUsefulActions in
 * src/agents/ActionSequenceDetection.cpp).
 *
 * Mask k holds one entry per action sequence of length k+1, numbered as
 * Encode numbers them. Action j is allowed after `prev` when the single
 * action j was used, and for every longer length L the masks cover (and the
 * history is long enough for), the last L-1 actions followed by j were used.
 * The pruning agents check every length up to one more than the history;
 * getUsefulActions stops at the history's length. The source's loops do not
 * compute this as written; the as-written versions are modelled here too,
 * with the inputs that show the difference.
 */
module EffectiveActions {
  import opened Base
  import opened ActionSequences

  /** Mask k has one entry per action sequence of length k+1. */
  predicate WellSized(masks: seq<seq<bool>>)
  {
    forall k :: 0 <= k < |masks| ==> |masks[k]| == SequenceCount(k + 1)
  }

  function Min(a: nat, b: nat): nat
  {
    if a < b then a else b
  }

  /** The last n actions of prev. */
  function Suffix(prev: seq<int>, n: nat): (s: seq<int>)
    requires n <= |prev|
    ensures |s| == n
  {
    prev[|prev| - n..]
  }

  /** The number of the sequence of length L that ends the history with action j. */
  function Key(prev: seq<int>, L: nat, j: int): (k: nat)
    requires ActionsInRange(prev) && 1 <= L <= |prev| + 1 && 0 <= j < PLAYER_A_MAX
    ensures k < SequenceCount(L)
  {
    var s := Suffix(prev, L - 1) + [j];
    assert ActionsInRange(s);
    EncodeRange(s);
    Encode(s)
  }

  /** The mask entry read for length L is the one of the actual trailing actions followed by j. */
  lemma KeyNamesSuffix(prev: seq<int>, L: nat, j: int)
    requires ActionsInRange(prev) && 1 <= L <= |prev| + 1 && 0 <= j < PLAYER_A_MAX
    ensures Decode(Key(prev, L, j), L) == Suffix(prev, L - 1) + [j]
  {
    var s := Suffix(prev, L - 1) + [j];
    assert ActionsInRange(s);
    DecodeEncode(s);
  }

  /** The longest sequence length checked: the masks' count, and one more than the history. */
  function Window(masks: seq<seq<bool>>, prev: seq<int>): nat
  {
    Min(|prev| + 1, |masks|)
  }

  /** Action j passes the checks of lengths 1 and 2 .. n-1. */
  predicate AllowedBelow(masks: seq<seq<bool>>, prev: seq<int>, j: int, n: nat)
    requires 1 <= |masks| && WellSized(masks) && ActionsInRange(prev) && 0 <= j < PLAYER_A_MAX
    requires n <= Window(masks, prev) + 1
  {
    && masks[0][j]
    && forall L :: 2 <= L < n ==> masks[L - 1][Key(prev, L, j)]
  }

  /** The actions allowed after prev, one flag per action. */
  function Effective(masks: seq<seq<bool>>, prev: seq<int>): (r: seq<bool>)
    requires 1 <= |masks| && WellSized(masks) && ActionsInRange(prev)
    ensures |r| == PLAYER_A_MAX
  {
    seq(PLAYER_A_MAX, j requires 0 <= j < PLAYER_A_MAX => AllowedBelow(masks, prev, j, Window(masks, prev) + 1))
  }

  /** The checks only clear entries: the result is pointwise below the single-action mask. */
  lemma EffectiveBelowFirstMask(masks: seq<seq<bool>>, prev: seq<int>)
    requires 1 <= |masks| && WellSized(masks) && ActionsInRange(prev)
    ensures PointwiseLe(Effective(masks, prev), masks[0])
  {
  }

  /** Sequence s has an entry in the mask of its length, and that entry is set. */
  predicate Recorded(masks: seq<seq<bool>>, s: seq<int>)
  {
    && 1 <= |s| <= |masks|
    && 0 <= Encode(s) < |masks[|s| - 1]|
    && masks[|s| - 1][Encode(s)]
  }

  /** The single-action entry read is action j's own. */
  lemma KeyOfLengthOne(prev: seq<int>, j: int)
    requires ActionsInRange(prev) && 0 <= j < PLAYER_A_MAX
    ensures Key(prev, 1, j) == j
  {
    assert Suffix(prev, 0) + [j] == [j];
    assert [j][..0] == [];
  }

  lemma RecordedIsKey(masks: seq<seq<bool>>, prev: seq<int>, n: nat, j: int)
    requires 1 <= |masks| && WellSized(masks) && ActionsInRange(prev) && 0 <= j < PLAYER_A_MAX
    requires n < Window(masks, prev)
    ensures Recorded(masks, Suffix(prev, n) + [j]) == masks[n][Key(prev, n + 1, j)]
  {
    assert |Suffix(prev, n) + [j]| == n + 1;
  }

  /**
   * Passing the checks of lengths up to w is passing the single-action
   * check and finding, for every n < w, the last n actions of the history
   * followed by the action recorded as used.
   */
  lemma AllowedBelowMeansRecorded(masks: seq<seq<bool>>, prev: seq<int>, j: int, w: nat)
    requires 1 <= |masks| && WellSized(masks) && ActionsInRange(prev) && 0 <= j < PLAYER_A_MAX
    requires w <= Window(masks, prev)
    ensures AllowedBelow(masks, prev, j, w + 1) <==>
      masks[0][j] && forall n :: 0 <= n < w ==> Recorded(masks, Suffix(prev, n) + [j])
  {
    KeyOfLengthOne(prev, j);
    forall n | 0 <= n < w
      ensures Recorded(masks, Suffix(prev, n) + [j]) == masks[n][Key(prev, n + 1, j)]
    {
      RecordedIsKey(masks, prev, n, j);
    }
    if AllowedBelow(masks, prev, j, w + 1) {
      forall n | 0 <= n < w
        ensures masks[n][Key(prev, n + 1, j)]
      {
        if n > 0 {
          assert masks[(n + 1) - 1][Key(prev, n + 1, j)];
        }
      }
    } else if masks[0][j] {
      var L :| 2 <= L < w + 1 && !masks[L - 1][Key(prev, L, j)];
      assert !masks[(L - 1)][Key(prev, (L - 1) + 1, j)];
    }
  }

  /**
   * An action is allowed exactly when, for every checked length, the last
   * actions of the history followed by it form a sequence recorded as used.
   */
  lemma EffectiveMeansRecorded(masks: seq<seq<bool>>, prev: seq<int>, j: int)
    requires 1 <= |masks| && WellSized(masks) && ActionsInRange(prev) && 0 <= j < PLAYER_A_MAX
    ensures Effective(masks, prev)[j] <==>
      forall n :: 0 <= n < Window(masks, prev) ==> Recorded(masks, Suffix(prev, n) + [j])
  {
    AllowedBelowMeansRecorded(masks, prev, j, Window(masks, prev));
    KeyOfLengthOne(prev, j);
    RecordedIsKey(masks, prev, 0, j);
  }

  // ----- getUsefulActions' own bound -----

  /** The longest length getUsefulActions checks: the history's length, and the masks' count. */
  function DetectionWindow(masks: seq<seq<bool>>, prev: seq<int>): nat
  {
    Min(|prev|, |masks|)
  }

  /** The actions getUsefulActions allows after prev, with each check reading the last i-1 actions. */
  function Useful(masks: seq<seq<bool>>, prev: seq<int>): (r: seq<bool>)
    requires 1 <= |masks| && WellSized(masks) && ActionsInRange(prev)
    ensures |r| == PLAYER_A_MAX
  {
    seq(PLAYER_A_MAX, j requires 0 <= j < PLAYER_A_MAX => AllowedBelow(masks, prev, j, DetectionWindow(masks, prev) + 1))
  }

  /**
   * An action is useful exactly when it was used on its own and, for every
   * length below the history's (and within the masks), the last actions
   * followed by it form a sequence recorded as used.
   */
  lemma UsefulMeansRecorded(masks: seq<seq<bool>>, prev: seq<int>, j: int)
    requires 1 <= |masks| && WellSized(masks) && ActionsInRange(prev) && 0 <= j < PLAYER_A_MAX
    ensures Useful(masks, prev)[j] <==>
      masks[0][j] && forall n :: 0 <= n < DetectionWindow(masks, prev) ==> Recorded(masks, Suffix(prev, n) + [j])
  {
    AllowedBelowMeansRecorded(masks, prev, j, DetectionWindow(masks, prev));
  }

  // ----- the corrected loop -----

  /** Passing the checks up to length i is passing those below i and the check of length i. */
  lemma AllowedBelowStep(masks: seq<seq<bool>>, prev: seq<int>, j: int, i: nat)
    requires 1 <= |masks| && WellSized(masks) && ActionsInRange(prev) && 0 <= j < PLAYER_A_MAX
    requires 1 <= i <= Window(masks, prev)
    ensures AllowedBelow(masks, prev, j, i + 1) == (AllowedBelow(masks, prev, j, i) && masks[i - 1][Key(prev, i, j)])
  {
    if i == 1 {
      KeyOfLengthOne(prev, j);
    }
    if AllowedBelow(masks, prev, j, i) && masks[i - 1][Key(prev, i, j)] {
      forall L | 2 <= L < i + 1
        ensures masks[L - 1][Key(prev, L, j)]
      {
      }
    }
  }

  /**
   * The inner loop of the check of length i (lines 70-78 of either
   * pruning file, lines 26-37 of ActionSequenceDetection.cpp): clear every
   * action whose sequence of length i, ending the history, is not recorded
   * as used. For i = 1 the sequence is the action alone.
   */
  method ClearUnrecorded(masks: seq<seq<bool>>, prev: seq<int>, i: nat, available: seq<bool>) returns (r: seq<bool>)
    requires 1 <= |masks| && WellSized(masks) && ActionsInRange(prev)
    requires 1 <= i <= Window(masks, prev) && |available| == PLAYER_A_MAX
    ensures |r| == PLAYER_A_MAX
    ensures forall k :: 0 <= k < PLAYER_A_MAX ==> r[k] == (available[k] && masks[i - 1][Key(prev, i, k)])
  {
    var p := prev[|prev| - (i - 1)..];
    r := available;
    var j := 0;
    while j < PLAYER_A_MAX
      invariant 0 <= j <= PLAYER_A_MAX && |r| == PLAYER_A_MAX
      invariant forall k :: 0 <= k < j ==> r[k] == (available[k] && masks[i - 1][Key(prev, i, k)])
      invariant forall k :: j <= k < PLAYER_A_MAX ==> r[k] == available[k]
    {
      var seqInt := SeqToInt(p + [j]);
      assert p + [j] == Suffix(prev, i - 1) + [j];
      assert seqInt == Key(prev, i, j);
      if !masks[i - 1][seqInt] {
        r := r[j := false];
      }
      j := j + 1;
    }
  }

  /**
   * The outer loop (lines 62-80): start from the single-action mask and
   * apply the check of every length 2 .. Window. Each check reads the last
   * i-1 actions of the history; Findings describes the loop as written.
   */
  method AllowedActions(masks: seq<seq<bool>>, prev: seq<int>) returns (available: seq<bool>)
    requires 1 <= |masks| && WellSized(masks) && ActionsInRange(prev)
    ensures available == Effective(masks, prev)
  {
    assert SequenceCount(1) == PLAYER_A_MAX;
    available := masks[0];
    var length := Min(|prev| + 1, |masks|);
    var i := 2;
    while i <= length
      invariant 2 <= i <= length + 1 && |available| == PLAYER_A_MAX
      invariant forall j :: 0 <= j < PLAYER_A_MAX ==> available[j] == AllowedBelow(masks, prev, j, i)
    {
      available := ClearUnrecorded(masks, prev, i, available);
      forall k | 0 <= k < PLAYER_A_MAX
        ensures available[k] == AllowedBelow(masks, prev, k, i + 1)
      {
        AllowedBelowStep(masks, prev, k, i);
      }
      i := i + 1;
    }
  }

  // ----- the reads of the as-written loops -----

  /** The number the as-written loops compute: the last i actions followed by j, i+1 actions in all. */
  function LongCode(prev: seq<int>, i: nat, j: int): int
    requires i <= |prev|
  {
    Encode(Suffix(prev, i) + [j])
  }

  /** Round i of an as-written loop reads inside the history and inside mask i-1, for every j. */
  predicate ReadOk(masks: seq<seq<bool>>, prev: seq<int>, i: nat)
  {
    && 1 <= i <= |masks|
    && i <= |prev|
    && forall j :: 0 <= j < PLAYER_A_MAX ==> 0 <= LongCode(prev, i, j) < |masks[i - 1]|
  }

  /** What round i of an as-written loop reads for action j. */
  function ReadAt(masks: seq<seq<bool>>, prev: seq<int>, i: nat, j: int): bool
    requires ReadOk(masks, prev, i) && 0 <= j < PLAYER_A_MAX
  {
    masks[i - 1][LongCode(prev, i, j)]
  }

  // ----- DominatedActionSequencePruning.cpp lines 62-80, as written -----

  /** Every round i = 2 .. Window of the loop reads inside the history and the masks. */
  predicate PruningReadsDefined(masks: seq<seq<bool>>, prev: seq<int>)
  {
    forall i :: 2 <= i <= Window(masks, prev) ==> ReadOk(masks, prev, i)
  }

  /** The loop of lines 62-80 as written: None when it reads outside the history or a mask. */
  function PruningAsWritten(masks: seq<seq<bool>>, prev: seq<int>): (r: Option<seq<bool>>)
    requires 1 <= |masks| && WellSized(masks)
    ensures r.Some? ==> |r.value| == PLAYER_A_MAX
  {
    if !PruningReadsDefined(masks, prev) then None
    else Some(seq(PLAYER_A_MAX, j requires 0 <= j < PLAYER_A_MAX =>
      masks[0][j] && forall i :: 2 <= i <= Window(masks, prev) ==> ReadAt(masks, prev, i, j)))
  }

  /** Two masks, each with every sequence used. */
  function AllUsed(): (masks: seq<seq<bool>>)
    ensures 1 <= |masks| && WellSized(masks)
  {
    [Repeat(true, SequenceCount(1)), Repeat(true, SequenceCount(2))]
  }

  /**
   * With two masks and a two-action history starting with action 1, line 70
   * computes 324 + j, past the 324 entries of mask 1; the corrected check
   * allows every action.
   */
  lemma PruningAsWrittenOverruns()
    ensures PruningAsWritten(AllUsed(), [1, 0]).None?
    ensures Effective(AllUsed(), [1, 0]) == Repeat(true, PLAYER_A_MAX)
  {
    var masks := AllUsed();
    assert SequenceCount(2) == 324;
    assert Suffix([1, 0], 2) + [0] == [1, 0, 0];
    assert Encode([1, 0, 0]) == 324 by {
      assert [1, 0, 0][..2] == [1, 0];
      assert [1, 0][..1] == [1];
      assert [1][..0] == [];
    }
    assert LongCode([1, 0], 2, 0) == 324;
    assert !ReadOk(masks, [1, 0], 2);
  }

  /** With a one-action history, the slice of line 68 starts before the history (i = 2 > 1). */
  lemma PruningAsWrittenSlicesBefore()
    ensures PruningAsWritten(AllUsed(), [0]).None?
  {
    assert Window(AllUsed(), [0]) == 2;
    assert !ReadOk(AllUsed(), [0], 2);
  }

  /** When the loop does not run (one mask, or no history) the as-written result is the corrected one. */
  lemma PruningAgreesWithoutLongerChecks(masks: seq<seq<bool>>, prev: seq<int>)
    requires 1 <= |masks| && WellSized(masks) && ActionsInRange(prev)
    requires |masks| == 1 || prev == []
    ensures PruningAsWritten(masks, prev) == Some(Effective(masks, prev))
  {
    assert Window(masks, prev) == 1;
    assert PruningReadsDefined(masks, prev);
    assert PruningAsWritten(masks, prev).value == Effective(masks, prev);
  }

  // ----- ActionSequenceDetection.cpp lines 21-40, as written -----

  /** Every round i = 1 .. min(|prev|, |masks|) of the loop reads inside the masks. */
  predicate DetectionReadsDefined(masks: seq<seq<bool>>, prev: seq<int>)
  {
    forall i :: 1 <= i <= Min(|prev|, |masks|) ==> ReadOk(masks, prev, i)
  }

  /** The loop of lines 21-40 as written: None when it reads outside a mask. */
  function DetectionAsWritten(masks: seq<seq<bool>>, prev: seq<int>): (r: Option<seq<bool>>)
    requires 1 <= |masks| && WellSized(masks)
    ensures r.Some? ==> |r.value| == PLAYER_A_MAX
  {
    if !DetectionReadsDefined(masks, prev) then None
    else Some(seq(PLAYER_A_MAX, j requires 0 <= j < PLAYER_A_MAX =>
      masks[0][j] && forall i :: 1 <= i <= Min(|prev|, |masks|) ==> ReadAt(masks, prev, i, j)))
  }

  /** Action sequence [0, j] is number j. */
  lemma EncodeNoopThen(j: int)
    ensures Encode([0, j]) == j
  {
    assert [0, j][..1] == [0];
    assert [0][..0] == [];
  }

  /** Sequence [a] + u is numbered a 18^|u| higher than u. */
  lemma {:induction false} EncodeCons(a: int, u: seq<int>)
    ensures Encode([a] + u) == a * Pow(PLAYER_A_MAX, |u|) + Encode(u)
  {
    if u == [] {
      assert [a] + u == [a];
      assert [a][..0] == [];
    } else {
      var v, x := u[..|u| - 1], u[|u| - 1];
      assert ([a] + u)[..|u|] == [a] + v;
      EncodeCons(a, v);
      var p := Pow(PLAYER_A_MAX, |v|);
      assert Encode([a] + u) == (a * p + Encode(v)) * PLAYER_A_MAX + x;
      assert (a * p + Encode(v)) * PLAYER_A_MAX == a * (p * PLAYER_A_MAX) + Encode(v) * PLAYER_A_MAX;
      assert Pow(PLAYER_A_MAX, |u|) == PLAYER_A_MAX * p;
    }
  }

  lemma EncodeSnoc(s: seq<int>, j: int)
    ensures Encode(s + [j]) == Encode(s) * PLAYER_A_MAX + j
  {
    assert (s + [j])[..|s|] == s;
  }

  /** A number below 18p whose leading digit is a, over a p-sized rest, has a == 0. */
  lemma LeadingDigitZero(a: int, p: nat, e: int, j: int)
    requires 0 <= a && 1 <= p && 0 <= e && 0 <= j
    requires (a * p + e) * PLAYER_A_MAX + j < p * PLAYER_A_MAX
    ensures a == 0
  {
    assert (a * p + e) * PLAYER_A_MAX == (a * p) * PLAYER_A_MAX + e * PLAYER_A_MAX;
    assert a * p < p;
  }

  /**
   * Where round i of the as-written loop reads inside mask i-1, the action
   * it reads past the last i-1 is a no-op, so the entry it reads is the one
   * of the last i-1 actions followed by j.
   */
  lemma ReadOkMeansKey(masks: seq<seq<bool>>, prev: seq<int>, i: nat, j: int)
    requires WellSized(masks) && ActionsInRange(prev) && ReadOk(masks, prev, i) && 0 <= j < PLAYER_A_MAX
    ensures LongCode(prev, i, j) == Key(prev, i, j)
  {
    var u := Suffix(prev, i - 1);
    var a := prev[|prev| - i];
    assert Suffix(prev, i) == [a] + u;
    assert ActionsInRange(u);
    var p := Pow(PLAYER_A_MAX, i - 1);
    var e := Encode(u);
    EncodeRange(u);
    PowPositive(PLAYER_A_MAX, i - 1);
    EncodeCons(a, u);
    EncodeSnoc([a] + u, j);
    EncodeSnoc(u, j);
    assert |masks[i - 1]| == p * PLAYER_A_MAX;
    assert LongCode(prev, i, j) == (a * p + e) * PLAYER_A_MAX + j;
    LeadingDigitZero(a, p, e, j);
  }

  /**
   * Wherever the loop as written stays inside the masks it reads the same
   * entries as getUsefulActions with the slice corrected, so the two agree.
   */
  lemma DetectionAgreesWhereDefined(masks: seq<seq<bool>>, prev: seq<int>)
    requires 1 <= |masks| && WellSized(masks) && ActionsInRange(prev)
    requires DetectionAsWritten(masks, prev).Some?
    ensures DetectionAsWritten(masks, prev).value == Useful(masks, prev)
  {
    var m := DetectionWindow(masks, prev);
    forall j | 0 <= j < PLAYER_A_MAX
      ensures DetectionAsWritten(masks, prev).value[j] == Useful(masks, prev)[j]
    {
      KeyOfLengthOne(prev, j);
      forall i | 1 <= i <= m
        ensures ReadAt(masks, prev, i, j) == masks[i - 1][Key(prev, i, j)]
      {
        ReadOkMeansKey(masks, prev, i, j);
      }
    }
  }

  /** Mask 0 all used, mask 1 all unused. */
  function SinglesOnly(): (masks: seq<seq<bool>>)
    ensures 1 <= |masks| && WellSized(masks)
  {
    [Repeat(true, SequenceCount(1)), Repeat(false, SequenceCount(2))]
  }

  lemma SinglesOnlyReadOk()
    ensures ReadOk(SinglesOnly(), [0], 1)
  {
    forall j | 0 <= j < PLAYER_A_MAX
      ensures LongCode([0], 1, j) == j
    {
      assert Suffix([0], 1) + [j] == [0, j];
      EncodeNoopThen(j);
    }
  }

  lemma SinglesOnlyUseful()
    ensures Useful(SinglesOnly(), [0]) == Repeat(true, PLAYER_A_MAX)
  {
    var masks := SinglesOnly();
    assert DetectionWindow(masks, [0]) == 1;
    forall j | 0 <= j < PLAYER_A_MAX
      ensures Useful(masks, [0])[j]
    {
      assert masks[0][j];
    }
  }

  lemma SinglesOnlyEffective()
    ensures Effective(SinglesOnly(), [0]) == Repeat(false, PLAYER_A_MAX)
  {
    var masks := SinglesOnly();
    assert Window(masks, [0]) == 2;
    forall j | 0 <= j < PLAYER_A_MAX
      ensures !Effective(masks, [0])[j]
    {
      assert !masks[1][Key([0], 2, j)];
    }
  }

  /**
   * getUsefulActions stops at the history's length: with the history [0]
   * it checks only single actions, as the loop as written does, while the
   * pruning agents' bound would also check the unused pairs [0, j].
   */
  lemma DetectionStopsAtHistory()
    ensures DetectionAsWritten(SinglesOnly(), [0]) == Some(Repeat(true, PLAYER_A_MAX))
    ensures Useful(SinglesOnly(), [0]) == Repeat(true, PLAYER_A_MAX)
    ensures Effective(SinglesOnly(), [0]) == Repeat(false, PLAYER_A_MAX)
  {
    var masks := SinglesOnly();
    SinglesOnlyReadOk();
    assert DetectionReadsDefined(masks, [0]);
    DetectionAgreesWhereDefined(masks, [0]);
    SinglesOnlyUseful();
    SinglesOnlyEffective();
  }

  /** One mask and the history [1]: line 33 computes 18 + j, past the 18 entries of mask 0. */
  lemma DetectionAsWrittenOverruns()
    ensures DetectionAsWritten([Repeat(true, SequenceCount(1))], [1]).None?
    ensures Useful([Repeat(true, SequenceCount(1))], [1]) == Repeat(true, PLAYER_A_MAX)
  {
    var masks := [Repeat(true, SequenceCount(1))];
    assert Suffix([1], 1) + [0] == [1, 0];
    assert Encode([1, 0]) == 18 by {
      assert [1, 0][..1] == [1];
      assert [1][..0] == [];
    }
    assert LongCode([1], 1, 0) == 18;
    assert !ReadOk(masks, [1], 1);
  }

  /** With no history the as-written result is the corrected one. */
  lemma DetectionAgreesWithoutHistory(masks: seq<seq<bool>>)
    requires 1 <= |masks| && WellSized(masks)
    ensures DetectionAsWritten(masks, []) == Some(Useful(masks, []))
  {
    assert DetectionReadsDefined(masks, []);
    assert DetectionAsWritten(masks, []).value == Useful(masks, []);
  }
}
