/**
 * IW(1): breadth-first lookahead that prunes every node whose RAM has no
 * atom the search has not seen before (src/agents/IW1Search.cpp).
 *
 * The class holds its search tree and its presence tables. A Bit_Matrix of
 * rows x cols is held as a row-major array of rows * cols booleans, so the
 * bit (i, j) is cell cols * i + j; the tables the chosen representation does
 * not use have no cells.
 */
module IW1 {
  import opened Base
  import opened TreeNodes
  import opened SearchTrees
  import opened Novelty

  class IW1Search {
    const tree: SearchTree
    const booleanRepresentation: bool
    /** Bit_Matrix(RAM_SIZE, 256) of byte atoms. */
    const table: array<bool>
    /** Bit_Matrix(RAM_SIZE, 8) of bits seen set, and of bits seen clear. */
    const tableTrue: array<bool>
    const tableFalse: array<bool>

    ghost predicate Valid()
      reads this
    {
      && table.Length == (if booleanRepresentation then 0 else BYTE_CELLS)
      && tableTrue.Length == (if booleanRepresentation then BIT_CELLS else 0)
      && tableFalse.Length == tableTrue.Length
      && tableTrue != tableFalse
    }

    /** The tables of the chosen representation, all cells clear. */
    ghost predicate Empty()
      reads this, table, tableTrue, tableFalse
    {
      && (forall k :: 0 <= k < table.Length ==> !table[k])
      && (forall k :: 0 <= k < tableTrue.Length ==> !tableTrue[k])
      && (forall k :: 0 <= k < tableFalse.Length ==> !tableFalse[k])
    }

    constructor (discountFactor: real, ignoreDuplicates: bool, imageBased: bool, depthNormalizedReward: bool, booleanRepresentation: bool)
      ensures Valid() && Empty() && fresh(tree)
      ensures this.booleanRepresentation == booleanRepresentation
      ensures tree.root == Null && !tree.isBuilt && tree.discountFactor == discountFactor
      ensures tree.ignoreDuplicates == ignoreDuplicates && tree.imageBased == imageBased
      ensures tree.depthNormalizedReward == depthNormalizedReward
    {
      tree := new SearchTree(discountFactor, ignoreDuplicates, imageBased, depthNormalizedReward);
      this.booleanRepresentation := booleanRepresentation;
      table := new bool[if booleanRepresentation then 0 else BYTE_CELLS](_ => false);
      tableTrue := new bool[if booleanRepresentation then BIT_CELLS else 0](_ => false);
      tableFalse := new bool[if booleanRepresentation then BIT_CELLS else 0](_ => false);
    }

    /**
     * update_novelty_table(ram): every atom of the snapshot is recorded as
     * seen, in the tables of the representation in use.
     */
    method UpdateNoveltyTable(ram: seq<bv8>)
      requires Valid() && |ram| == RAM_SIZE
      modifies if booleanRepresentation then {tableTrue, tableFalse} else {table}
      ensures !booleanRepresentation ==> table[..] == ByteMarked(old(table[..]), ram)
      ensures booleanRepresentation ==>
        && tableTrue[..] == BitMarked(old(tableTrue[..]), ram, true, 8 * |ram|)
        && tableFalse[..] == BitMarked(old(tableFalse[..]), ram, false, 8 * |ram|)
    {
      if booleanRepresentation {
        UpdateBits(tableTrue, tableFalse, ram);
      } else {
        UpdateBytes(ram);
      }
    }

    /** The byte-representation loop of update_novelty_table. */
    method UpdateBytes(ram: seq<bv8>)
      requires Valid() && |ram| == RAM_SIZE && !booleanRepresentation
      modifies table
      ensures table[..] == ByteMarked(old(table[..]), ram)
    {
      var i := 0;
      while i < |ram|
        invariant 0 <= i <= |ram|
        invariant table[..] == ByteMarked(old(table[..]), ram[..i])
      {
        ByteMarkedStep(old(table[..]), ram, i);
        table[ByteCell(ram, i)] := true;
        i := i + 1;
      }
      assert ram[..|ram|] == ram;
    }

    /** The boolean-representation loops of update_novelty_table. */
    static method UpdateBits(tableTrue: array<bool>, tableFalse: array<bool>, ram: seq<bv8>)
      requires tableTrue != tableFalse && tableTrue.Length == tableFalse.Length == 8 * |ram|
      modifies tableTrue, tableFalse
      ensures tableTrue[..] == BitMarked(old(tableTrue[..]), ram, true, 8 * |ram|)
      ensures tableFalse[..] == BitMarked(old(tableFalse[..]), ram, false, 8 * |ram|)
    {
      ghost var t0 := tableTrue[..];
      ghost var f0 := tableFalse[..];
      ghost var n := 0;
      var i := 0;
      while i < |ram|
        invariant 0 <= i <= |ram| && n == 8 * i
        invariant tableTrue[..] == BitMarked(t0, ram, true, n)
        invariant tableFalse[..] == BitMarked(f0, ram, false, n)
      {
        var b := ram[i];
        var j := 0;
        while j < 8
          invariant 0 <= j <= 8 && n == 8 * i + j
          invariant tableTrue[..] == BitMarked(t0, ram, true, n)
          invariant tableFalse[..] == BitMarked(f0, ram, false, n)
        {
          FlatPosition(ram, i, j);
          ghost var bt := tableTrue[..];
          ghost var bf := tableFalse[..];
          if BitOf(b, j) {
            tableTrue[8 * i + j] := true;
          } else {
            tableFalse[8 * i + j] := true;
          }
          BitMarkedNext(t0, ram, true, n, bt, tableTrue[..]);
          BitMarkedNext(f0, ram, false, n, bf, tableFalse[..]);
          j := j + 1;
          n := n + 1;
        }
        i := i + 1;
      }
    }

    /** check_novelty_1(ram): some atom of the snapshot has not been seen. */
    method CheckNovelty1(ram: seq<bv8>) returns (novel: bool)
      requires Valid() && |ram| == RAM_SIZE
      ensures !booleanRepresentation ==> novel == ByteNovel(table[..], ram)
      ensures booleanRepresentation ==> novel == BitNovel(tableTrue[..], tableFalse[..], ram)
    {
      var i := 0;
      while i < |ram|
        invariant 0 <= i <= |ram|
        invariant !booleanRepresentation ==> forall i' :: 0 <= i' < i ==> table[ByteCell(ram, i')]
        invariant booleanRepresentation ==>
          forall m :: 0 <= m < 8 * i ==> (if BitAt(ram, m) then tableTrue[m] else tableFalse[m])
      {
        if booleanRepresentation {
          var b := ram[i];
          var j := 0;
          while j < 8
            invariant 0 <= j <= 8
            invariant forall m :: 0 <= m < 8 * i + j ==> (if BitAt(ram, m) then tableTrue[m] else tableFalse[m])
          {
            FlatPosition(ram, i, j);
            if BitOf(b, j) {
              if !tableTrue[8 * i + j] {
                return true;
              }
            } else {
              if !tableFalse[8 * i + j] {
                return true;
              }
            }
            j := j + 1;
          }
        } else if !table[ByteCell(ram, i)] {
          return true;
        }
        i := i + 1;
      }
      return false;
    }

    /** Bit_Matrix::clear() on every table in use. */
    method ClearTables()
      requires Valid()
      modifies table, tableTrue, tableFalse
      ensures Empty()
    {
      var k := 0;
      while k < table.Length
        invariant 0 <= k <= table.Length
        invariant forall k' :: 0 <= k' < k ==> !table[k']
      {
        table[k] := false;
        k := k + 1;
      }
      k := 0;
      while k < tableTrue.Length
        invariant 0 <= k <= tableTrue.Length
        invariant forall k' :: 0 <= k' < table.Length ==> !table[k']
        invariant forall k' :: 0 <= k' < k ==> !tableTrue[k'] && !tableFalse[k']
      {
        tableTrue[k] := false;
        tableFalse[k] := false;
        k := k + 1;
      }
    }

    /** clear(): the search tree is deleted and every table is emptied. */
    method Clear() returns (deleted: seq<TreeNode>)
      requires Valid()
      modifies tree, table, tableTrue, tableFalse
      ensures Empty()
      ensures tree.root == Null && !tree.isBuilt && tree.maxDepth == 0
      ensures tree.rewardMagnitude == old(tree.rewardMagnitude) && tree.trajectory == old(tree.trajectory)
      ensures old(tree.root).Node? ==> deleted == PostOrder(old(tree.root))
      ensures |deleted| == Size(old(tree.root))
    {
      deleted := tree.Clear();
      ClearTables();
    }

    /**
     * move_to_best_sub_branch(): the best child becomes the root, the other
     * branches are deleted, and every table is emptied.
     */
    method MoveToBestSubBranch() returns (deleted: seq<TreeNode>)
      requires Valid()
      requires tree.root.Node? && 0 <= tree.root.bestBranch < |tree.root.children|
      requires tree.root.children[tree.root.bestBranch].Node?
      modifies tree, table, tableTrue, tableFalse
      ensures Empty()
      ensures tree.root == old(tree.root).children[old(tree.root).bestBranch] && tree.maxDepth == 0
      ensures tree.isBuilt == old(tree.isBuilt)
      ensures tree.rewardMagnitude == old(tree.rewardMagnitude) && tree.trajectory == old(tree.trajectory)
      ensures deleted == OtherBranches(old(tree.root), |old(tree.root).children|)
                         + [old(tree.root).(children := old(tree.root).children[old(tree.root).bestBranch := Null])]
      ensures |deleted| + Size(tree.root) == Size(old(tree.root))
    {
      deleted := tree.MoveToBestSubBranch();
      ClearTables();
    }
  }
}
