/**
 * PIW(1): IW(1) whose novelty test remembers, per atom, the best
 * accumulated reward it was reached with, so a node is novel when it
 * improves on that reward for some atom (src/agents/PIW1Search.cpp).
 *
 * The reward tables are the std::vector<int> of the source, held as arrays;
 * the tables the chosen representation does not use have no cells. The two
 * priority queues the expansion loop draws from are held as sequences.
 */
module PIW1 {
  import opened Base
  import opened TreeNodes
  import opened SearchTrees
  import opened Novelty

  /** Every sibling of the node at path is a node (the source dereferences each of them). */
  predicate SiblingsPresent(n: TreeNode, path: seq<nat>)
  {
    path == [] ||
    (ValidPath(n, path[..|path| - 1]) &&
     var siblings := NodeAt(n, path[..|path| - 1]).children;
     forall c :: 0 <= c < |siblings| ==> siblings[c].Node?)
  }

  /**
   * Some sibling of slot idx other than itself is not a duplicate, is
   * initialised, has the same state and was reached with strictly more
   * accumulated reward than node.
   */
  predicate HasRicherTwin(parent: TreeNode, idx: nat, node: TreeNode)
    requires parent.Node? && node.Node?
    requires forall c :: 0 <= c < |parent.children| ==> parent.children[c].Node?
  {
    exists c :: 0 <= c < |parent.children| && c != idx &&
      !parent.children[c].duplicate && parent.children[c].initialized &&
      parent.children[c].state == node.state &&
      parent.children[c].accumulatedReward > node.accumulatedReward
  }

  /** A richer twin is, in particular, an equal sibling in the sense of SearchTree::test_duplicate with states compared. */
  lemma RicherTwinIsEqualSibling(parent: TreeNode, idx: nat, node: TreeNode, screenOf: State -> seq<int>)
    requires parent.Node? && node.Node?
    requires forall c :: 0 <= c < |parent.children| ==> parent.children[c].Node?
    ensures HasRicherTwin(parent, idx, node) ==> HasEqualSibling(parent, idx, node.state, false, screenOf)
  {
    if HasRicherTwin(parent, idx, node) {
      var c :| 0 <= c < |parent.children| && c != idx &&
        !parent.children[c].duplicate && parent.children[c].initialized &&
        parent.children[c].state == node.state &&
        parent.children[c].accumulatedReward > node.accumulatedReward;
      assert SameObservation(parent.children[c].state, node.state, false, screenOf);
    }
  }

  class PIW1Search {
    const tree: SearchTree
    const booleanRepresentation: bool
    /** m_ram_reward_table_byte: 256 cells per RAM byte. */
    const table: array<int>
    /** m_ram_reward_table_true and m_ram_reward_table_false: 8 cells per RAM byte. */
    const tableTrue: array<int>
    const tableFalse: array<int>
    /** m_q_reward and m_q_novelty, the queues of nodes still to expand. */
    var rewardQueue: seq<TreeNode>
    var noveltyQueue: seq<TreeNode>

    ghost predicate Valid()
      reads this
    {
      && table.Length == (if booleanRepresentation then 0 else BYTE_CELLS)
      && tableTrue.Length == (if booleanRepresentation then BIT_CELLS else 0)
      && tableFalse.Length == tableTrue.Length
      && tableTrue != tableFalse
    }

    /** Every cell of every table holds INT_MIN and both queues are empty. */
    ghost predicate Reset()
      reads this, table, tableTrue, tableFalse
    {
      && (forall k :: 0 <= k < table.Length ==> table[k] == INT_MIN)
      && (forall k :: 0 <= k < tableTrue.Length ==> tableTrue[k] == INT_MIN)
      && (forall k :: 0 <= k < tableFalse.Length ==> tableFalse[k] == INT_MIN)
      && rewardQueue == [] && noveltyQueue == []
    }

    constructor (discountFactor: real, ignoreDuplicates: bool, imageBased: bool, depthNormalizedReward: bool, booleanRepresentation: bool)
      ensures Valid() && Reset() && fresh(tree)
      ensures this.booleanRepresentation == booleanRepresentation
      ensures tree.root == Null && !tree.isBuilt && tree.discountFactor == discountFactor
      ensures tree.ignoreDuplicates == ignoreDuplicates && tree.imageBased == imageBased
      ensures tree.depthNormalizedReward == depthNormalizedReward
    {
      tree := new SearchTree(discountFactor, ignoreDuplicates, imageBased, depthNormalizedReward);
      this.booleanRepresentation := booleanRepresentation;
      table := new int[if booleanRepresentation then 0 else BYTE_CELLS](_ => INT_MIN);
      tableTrue := new int[if booleanRepresentation then BIT_CELLS else 0](_ => INT_MIN);
      tableFalse := new int[if booleanRepresentation then BIT_CELLS else 0](_ => INT_MIN);
      rewardQueue := [];
      noveltyQueue := [];
    }

    /**
     * update_novelty_table(ram, r): for every atom of the snapshot, the
     * stored reward becomes r when r is larger; nothing else changes.
     */
    method UpdateNoveltyTable(ram: seq<bv8>, r: int)
      requires Valid() && |ram| == RAM_SIZE
      modifies if booleanRepresentation then {tableTrue, tableFalse} else {table}
      ensures !booleanRepresentation ==> table[..] == ByteRaised(old(table[..]), ram, r)
      ensures booleanRepresentation ==>
        && tableTrue[..] == BitRaised(old(tableTrue[..]), ram, r, true, 8 * |ram|)
        && tableFalse[..] == BitRaised(old(tableFalse[..]), ram, r, false, 8 * |ram|)
    {
      if booleanRepresentation {
        RaiseBits(tableTrue, tableFalse, ram, r);
      } else {
        RaiseBytes(ram, r);
      }
    }

    /** The byte-representation loop of update_novelty_table. */
    method RaiseBytes(ram: seq<bv8>, r: int)
      requires Valid() && |ram| == RAM_SIZE && !booleanRepresentation
      modifies table
      ensures table[..] == ByteRaised(old(table[..]), ram, r)
    {
      var i := 0;
      while i < |ram|
        invariant 0 <= i <= |ram|
        invariant table[..] == ByteRaised(old(table[..]), ram[..i], r)
      {
        ByteRaisedStep(old(table[..]), ram, r, i);
        var c := ByteCell(ram, i);
        var oldReward := table[c];
        if r > oldReward {
          table[c] := r;
        }
        i := i + 1;
      }
      assert ram[..|ram|] == ram;
    }

    /** The boolean-representation loops of update_novelty_table. */
    static method RaiseBits(tableTrue: array<int>, tableFalse: array<int>, ram: seq<bv8>, r: int)
      requires tableTrue != tableFalse && tableTrue.Length == tableFalse.Length == 8 * |ram|
      modifies tableTrue, tableFalse
      ensures tableTrue[..] == BitRaised(old(tableTrue[..]), ram, r, true, 8 * |ram|)
      ensures tableFalse[..] == BitRaised(old(tableFalse[..]), ram, r, false, 8 * |ram|)
    {
      ghost var t0 := tableTrue[..];
      ghost var f0 := tableFalse[..];
      ghost var n := 0;
      var i := 0;
      while i < |ram|
        invariant 0 <= i <= |ram| && n == 8 * i
        invariant tableTrue[..] == BitRaised(t0, ram, r, true, n)
        invariant tableFalse[..] == BitRaised(f0, ram, r, false, n)
      {
        var b := ram[i];
        var j := 0;
        while j < 8
          invariant 0 <= j <= 8 && n == 8 * i + j
          invariant tableTrue[..] == BitRaised(t0, ram, r, true, n)
          invariant tableFalse[..] == BitRaised(f0, ram, r, false, n)
        {
          FlatPosition(ram, i, j);
          ghost var bt := tableTrue[..];
          ghost var bf := tableFalse[..];
          if BitOf(b, j) {
            var oldReward := tableTrue[8 * i + j];
            if r > oldReward {
              tableTrue[8 * i + j] := r;
            }
          } else {
            var oldReward := tableFalse[8 * i + j];
            if r > oldReward {
              tableFalse[8 * i + j] := r;
            }
          }
          BitRaisedNext(t0, ram, r, true, n, bt, tableTrue[..]);
          BitRaisedNext(f0, ram, r, false, n, bf, tableFalse[..]);
          j := j + 1;
          n := n + 1;
        }
        i := i + 1;
      }
    }

    /** check_novelty_1(ram, r): r beats the stored reward of some atom of the snapshot. */
    method CheckNovelty1(ram: seq<bv8>, r: int) returns (novel: bool)
      requires Valid() && |ram| == RAM_SIZE
      ensures !booleanRepresentation ==> novel == ByteNovelFor(table[..], ram, r)
      ensures booleanRepresentation ==> novel == BitNovelFor(tableTrue[..], tableFalse[..], ram, r)
    {
      var i := 0;
      while i < |ram|
        invariant 0 <= i <= |ram|
        invariant !booleanRepresentation ==> forall i' :: 0 <= i' < i ==> r <= table[ByteCell(ram, i')]
        invariant booleanRepresentation ==>
          forall m :: 0 <= m < 8 * i ==> r <= (if BitAt(ram, m) then tableTrue[m] else tableFalse[m])
      {
        if booleanRepresentation {
          var b := ram[i];
          var j := 0;
          while j < 8
            invariant 0 <= j <= 8
            invariant forall m :: 0 <= m < 8 * i + j ==> r <= (if BitAt(ram, m) then tableTrue[m] else tableFalse[m])
          {
            FlatPosition(ram, i, j);
            if BitOf(b, j) {
              if r > tableTrue[8 * i + j] {
                return true;
              }
            } else {
              if r > tableFalse[8 * i + j] {
                return true;
              }
            }
            j := j + 1;
          }
        } else if r > table[ByteCell(ram, i)] {
          return true;
        }
        i := i + 1;
      }
      return false;
    }

    /** check_novelty(ram, r): how many atoms of the snapshot r beats. */
    method CheckNovelty(ram: seq<bv8>, r: int) returns (novelty: nat)
      requires Valid() && |ram| == RAM_SIZE
      ensures !booleanRepresentation ==> novelty == ByteNovelCount(table[..], ram, r, |ram|)
      ensures booleanRepresentation ==> novelty == BitNovelCount(tableTrue[..], tableFalse[..], ram, r, 8 * |ram|)
    {
      novelty := 0;
      if booleanRepresentation {
        var i := 0;
        while i < |ram|
          invariant 0 <= i <= |ram|
          invariant novelty == BitNovelCount(tableTrue[..], tableFalse[..], ram, r, 8 * i)
        {
          var b := ram[i];
          var j := 0;
          while j < 8
            invariant 0 <= j <= 8
            invariant novelty == BitNovelCount(tableTrue[..], tableFalse[..], ram, r, 8 * i + j)
          {
            FlatPosition(ram, i, j);
            if BitOf(b, j) {
              if r > tableTrue[8 * i + j] {
                novelty := novelty + 1;
              }
            } else {
              if r > tableFalse[8 * i + j] {
                novelty := novelty + 1;
              }
            }
            j := j + 1;
          }
          i := i + 1;
        }
      } else {
        var i := 0;
        while i < |ram|
          invariant 0 <= i <= |ram|
          invariant novelty == ByteNovelCount(table[..], ram, r, i)
        {
          if r > table[ByteCell(ram, i)] {
            novelty := novelty + 1;
          }
          i := i + 1;
        }
      }
    }

    /** The reward tables are set back to INT_MIN and both queues are emptied. */
    method ResetTables()
      requires Valid()
      modifies this, table, tableTrue, tableFalse
      ensures Reset()
    {
      var k := 0;
      while k < table.Length
        invariant 0 <= k <= table.Length
        invariant forall k' :: 0 <= k' < k ==> table[k'] == INT_MIN
      {
        table[k] := INT_MIN;
        k := k + 1;
      }
      k := 0;
      while k < tableTrue.Length
        invariant 0 <= k <= tableTrue.Length
        invariant forall k' :: 0 <= k' < table.Length ==> table[k'] == INT_MIN
        invariant forall k' :: 0 <= k' < k ==> tableTrue[k'] == INT_MIN && tableFalse[k'] == INT_MIN
      {
        tableTrue[k] := INT_MIN;
        tableFalse[k] := INT_MIN;
        k := k + 1;
      }
      rewardQueue := [];
      noveltyQueue := [];
    }

    /** clear(): the search tree is deleted, every table cell is INT_MIN again and the queues are empty. */
    method Clear() returns (deleted: seq<TreeNode>)
      requires Valid()
      modifies this, tree, table, tableTrue, tableFalse
      ensures Reset()
      ensures tree.root == Null && !tree.isBuilt && tree.maxDepth == 0
      ensures tree.rewardMagnitude == old(tree.rewardMagnitude) && tree.trajectory == old(tree.trajectory)
      ensures old(tree.root).Node? ==> deleted == PostOrder(old(tree.root))
      ensures |deleted| == Size(old(tree.root))
    {
      deleted := tree.Clear();
      ResetTables();
    }

    /**
     * move_to_best_sub_branch(): the best child becomes the root, the other
     * branches are deleted, every table cell is INT_MIN again and the queues
     * are empty.
     */
    method MoveToBestSubBranch() returns (deleted: seq<TreeNode>)
      requires Valid()
      requires tree.root.Node? && 0 <= tree.root.bestBranch < |tree.root.children|
      requires tree.root.children[tree.root.bestBranch].Node?
      modifies this, tree, table, tableTrue, tableFalse
      ensures Reset()
      ensures tree.root == old(tree.root).children[old(tree.root).bestBranch] && tree.maxDepth == 0
      ensures tree.isBuilt == old(tree.isBuilt)
      ensures tree.rewardMagnitude == old(tree.rewardMagnitude) && tree.trajectory == old(tree.trajectory)
      ensures deleted == OtherBranches(old(tree.root), |old(tree.root).children|)
                         + [old(tree.root).(children := old(tree.root).children[old(tree.root).bestBranch := Null])]
      ensures |deleted| + Size(tree.root) == Size(old(tree.root))
    {
      deleted := tree.MoveToBestSubBranch();
      ResetTables();
    }

    /**
     * test_duplicate_reward(node): a parentless node is not a duplicate;
     * otherwise the node's flag is set to whether it has a richer twin among
     * its siblings, and that is the answer.
     */
    method TestDuplicateReward(path: seq<nat>) returns (dup: bool)
      requires ValidPath(tree.root, path) && SiblingsPresent(tree.root, path)
      modifies tree
      ensures path == [] ==> !dup && tree.root == old(tree.root)
      ensures path != [] ==>
        && ValidPath(old(tree.root), path[..|path| - 1])
        && dup == HasRicherTwin(NodeAt(old(tree.root), path[..|path| - 1]), path[|path| - 1], NodeAt(old(tree.root), path))
        && tree.root == SetDuplicateAt(old(tree.root), path, dup)
      ensures tree.isBuilt == old(tree.isBuilt) && tree.maxDepth == old(tree.maxDepth)
      ensures tree.rewardMagnitude == old(tree.rewardMagnitude) && tree.trajectory == old(tree.trajectory)
    {
      if path == [] {
        return false;
      }
      var idx := path[|path| - 1];
      ValidPrefix(tree.root, path, |path| - 1);
      assert path[..|path|] == path;
      var parent := NodeAt(tree.root, path[..|path| - 1]);
      var node := NodeAt(tree.root, path);
      var c := 0;
      while c < |parent.children|
        invariant 0 <= c <= |parent.children|
        invariant unchanged(tree)
        invariant forall i :: 0 <= i < c && i != idx && !parent.children[i].duplicate && parent.children[i].initialized
                    ==> !(parent.children[i].state == node.state && parent.children[i].accumulatedReward > node.accumulatedReward)
      {
        var sibling := parent.children[c];
        if sibling.duplicate || c == idx || !sibling.initialized {
          c := c + 1;
          continue;
        }
        if sibling.state == node.state && sibling.accumulatedReward > node.accumulatedReward {
          tree.root := SetDuplicateAt(tree.root, path, true);
          return true;
        }
        c := c + 1;
      }
      tree.root := SetDuplicateAt(tree.root, path, false);
      return false;
    }
  }

  /**
   * The answers of the reward test and check_novelty_1 after an update: the
   * snapshot just recorded with reward r is no longer novel for r, and a
   * snapshot is novel exactly when check_novelty would count it.
   */
  lemma UpdateThenCheck(t: seq<int>, tt: seq<int>, tf: seq<int>, ram: seq<bv8>, r: int)
    requires |ram| == RAM_SIZE && |t| == BYTE_CELLS && |tt| == |tf| == BIT_CELLS
    ensures !ByteNovelFor(ByteRaised(t, ram, r), ram, r)
    ensures ByteNovelCount(ByteRaised(t, ram, r), ram, r, |ram|) == 0
    ensures !BitNovelFor(BitRaised(tt, ram, r, true, 8 * |ram|), BitRaised(tf, ram, r, false, 8 * |ram|), ram, r)
    ensures BitNovelCount(BitRaised(tt, ram, r, true, 8 * |ram|), BitRaised(tf, ram, r, false, 8 * |ram|), ram, r, 8 * |ram|) == 0
  {
    RaisedNotNovel(t, tt, tf, ram, r);
    NovelIffCountPositive(ByteRaised(t, ram, r), BitRaised(tt, ram, r, true, 8 * |ram|),
                          BitRaised(tf, ram, r, false, 8 * |ram|), ram, r);
  }

  /** The reward flag a test sets is not one the test reads: asking again gives the same answer. */
  lemma TestDuplicateRewardStable(n: TreeNode, path: seq<nat>, d: bool)
    requires ValidPath(n, path) && path != [] && SiblingsPresent(n, path)
    ensures ValidPath(n, path[..|path| - 1]) && ValidPath(SetDuplicateAt(n, path, d), path)
    ensures SiblingsPresent(SetDuplicateAt(n, path, d), path)
    ensures HasRicherTwin(NodeAt(SetDuplicateAt(n, path, d), path[..|path| - 1]), path[|path| - 1], NodeAt(SetDuplicateAt(n, path, d), path))
            == HasRicherTwin(NodeAt(n, path[..|path| - 1]), path[|path| - 1], NodeAt(n, path))
  {
    SetDuplicateKeepsSiblings(n, path, d);
    var pp := path[..|path| - 1];
    var r := SetDuplicateAt(n, path, d);
    ValidPrefix(r, path, |path| - 1);
    assert path[..|path|] == path;
  }
}
