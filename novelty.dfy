/**
 * The width-1 novelty tables of IW(1) and PIW(1), as functions on the table
 * contents (src/agents/IW1Search.cpp, src/agents/PIW1Search.cpp).
 *
 * An atom of a RAM snapshot is either a (byte index, byte value) pair,
 * stored at cell 256*i + ram[i] of a table with 256 cells per byte, or, in
 * the boolean representation, a (byte index, bit, bit value) triple, stored
 * at cell 8*i + j of the table for that bit value. Bit positions are
 * numbered flat: position m is bit m % 8 of byte m / 8, which is exactly
 * cell m of the true or false table.
 *
 * IW(1) keeps a presence bit per atom; PIW(1) keeps the best accumulated
 * reward seen with each atom, starting from INT_MIN.
 */
module Novelty {
  import opened Base

  /** `(byte & (mask << j)) != 0` with mask == 1. */
  function BitOf(b: bv8, j: nat): bool
    requires j < 8
  {
    (b & ((1 as bv8) << j)) != 0
  }

  /** The value of flat bit position m of the snapshot. */
  function BitAt(ram: seq<bv8>, m: nat): bool
    requires m < 8 * |ram|
  {
    BitOf(ram[m / 8], m % 8)
  }

  /** The byte-mode cell of byte i. */
  function ByteCell(ram: seq<bv8>, i: nat): (k: nat)
    requires i < |ram|
    ensures k / 256 == i && k % 256 == ram[i] as int
    ensures k < 256 * |ram|
  {
    256 * i + ram[i] as int
  }

  /** Cell k of a byte-mode table is the atom of some byte of the snapshot. */
  predicate OnByteCell(ram: seq<bv8>, k: nat)
  {
    k / 256 < |ram| && ram[k / 256] as int == k % 256
  }

  /** The cells OnByteCell picks out are exactly the cells ByteCell computes. */
  lemma OnByteCellIsByteCell(ram: seq<bv8>, k: nat)
    ensures OnByteCell(ram, k) <==> exists i :: 0 <= i < |ram| && k == ByteCell(ram, i)
  {
    if OnByteCell(ram, k) {
      assert k == ByteCell(ram, k / 256);
    }
  }

  /** Cell nesting (i, j) of the boolean loops is flat position 8*i + j. */
  lemma FlatPosition(ram: seq<bv8>, i: nat, j: nat)
    requires i < |ram| && j < 8
    ensures 8 * i + j < 8 * |ram| && BitAt(ram, 8 * i + j) == BitOf(ram[i], j)
  {
    assert (8 * i + j) / 8 == i && (8 * i + j) % 8 == j;
  }

  /** Table sizes the constructors allocate: Bit_Matrix(RAM_SIZE, 256) and Bit_Matrix(RAM_SIZE, 8), or the vectors of 256 * RAM_SIZE and 8 * RAM_SIZE cells. */
  const BYTE_CELLS: nat := 256 * RAM_SIZE
  const BIT_CELLS: nat := 8 * RAM_SIZE

  // ---------------------------------------------------------------------
  // IW(1): presence tables
  // ---------------------------------------------------------------------

  /** Byte-mode check_novelty_1: some byte's atom has not been seen. */
  predicate ByteNovel(t: seq<bool>, ram: seq<bv8>)
    requires |t| == 256 * |ram|
  {
    exists i :: 0 <= i < |ram| && !t[ByteCell(ram, i)]
  }

  /** Byte-mode update_novelty_table: the cell of every byte is set. */
  function ByteMarked(t: seq<bool>, ram: seq<bv8>): (r: seq<bool>)
    ensures |r| == |t|
  {
    seq(|t|, k requires 0 <= k < |t| => t[k] || OnByteCell(ram, k))
  }

  /** Boolean-mode check_novelty_1: some bit of the snapshot has a value not seen at its position. */
  predicate BitNovel(tt: seq<bool>, tf: seq<bool>, ram: seq<bv8>)
    requires |tt| == |tf| == 8 * |ram|
  {
    exists m :: 0 <= m < 8 * |ram| && !(if BitAt(ram, m) then tt[m] else tf[m])
  }

  /** The table for bit value v after the first n flat positions of the boolean-mode update. */
  function BitMarked(t: seq<bool>, ram: seq<bv8>, v: bool, n: nat): (r: seq<bool>)
    requires n <= 8 * |ram|
    ensures |r| == |t|
  {
    seq(|t|, k requires 0 <= k < |t| => t[k] || (k < n && BitAt(ram, k) == v))
  }

  /** One more byte of the byte-mode update sets exactly that byte's cell. */
  lemma ByteMarkedStep(t: seq<bool>, ram: seq<bv8>, i: nat)
    requires i < |ram| && |t| == 256 * |ram|
    ensures ByteMarked(t, ram[..i + 1]) == ByteMarked(t, ram[..i])[ByteCell(ram, i) := true]
  {
    var a := ByteMarked(t, ram[..i + 1]);
    var b := ByteMarked(t, ram[..i])[ByteCell(ram, i) := true];
    forall k | 0 <= k < |t|
      ensures a[k] == b[k]
    {
      if k == ByteCell(ram, i) {
        assert OnByteCell(ram[..i + 1], k);
      } else if k / 256 == i {
        assert !OnByteCell(ram[..i + 1], k);
      }
    }
  }

  /** One more flat position of the boolean-mode update sets that cell when its bit has value v. */
  lemma BitMarkedStep(t: seq<bool>, ram: seq<bv8>, v: bool, n: nat)
    requires n < 8 * |ram| && |t| == 8 * |ram|
    ensures BitMarked(t, ram, v, n + 1) == if BitAt(ram, n) == v then BitMarked(t, ram, v, n)[n := true] else BitMarked(t, ram, v, n)
  {
    var a := BitMarked(t, ram, v, n + 1);
    var b := BitMarked(t, ram, v, n);
    var c := if BitAt(ram, n) == v then b[n := true] else b;
    assert |a| == |c|;
    forall k | 0 <= k < |t|
      ensures a[k] == c[k]
    {
      if k != n {
        assert a[k] == b[k];
      }
    }
  }

  /** The loop's table after one more flat position, given the table before it. */
  lemma BitMarkedNext(t: seq<bool>, ram: seq<bv8>, v: bool, n: nat, cur: seq<bool>, next: seq<bool>)
    requires n < 8 * |ram| && |t| == 8 * |ram|
    requires cur == BitMarked(t, ram, v, n)
    requires next == if BitAt(ram, n) == v then cur[n := true] else cur
    ensures next == BitMarked(t, ram, v, n + 1)
  {
    BitMarkedStep(t, ram, v, n);
  }

  /** After the byte-mode update, the same snapshot is no longer novel. */
  lemma ByteMarkedNotNovel(t: seq<bool>, ram: seq<bv8>)
    requires |t| == 256 * |ram|
    ensures !ByteNovel(ByteMarked(t, ram), ram)
  {
    forall i | 0 <= i < |ram|
      ensures ByteMarked(t, ram)[ByteCell(ram, i)]
    {
      assert OnByteCell(ram, ByteCell(ram, i));
    }
  }

  /** After the boolean-mode update of both tables, the same snapshot is no longer novel. */
  lemma BitMarkedNotNovel(tt: seq<bool>, tf: seq<bool>, ram: seq<bv8>)
    requires |tt| == |tf| == 8 * |ram|
    ensures !BitNovel(BitMarked(tt, ram, true, 8 * |ram|), BitMarked(tf, ram, false, 8 * |ram|), ram)
  {
  }

  /** The byte-mode update only sets cells, and only the cells of the snapshot's atoms. */
  lemma ByteMarkedMonotone(t: seq<bool>, ram: seq<bv8>)
    ensures PointwiseLe(t, ByteMarked(t, ram))
    ensures forall k :: 0 <= k < |t| && !OnByteCell(ram, k) ==> ByteMarked(t, ram)[k] == t[k]
  {
  }

  /** The boolean-mode update only sets cells, and only at positions whose bit has value v. */
  lemma BitMarkedMonotone(t: seq<bool>, ram: seq<bv8>, v: bool)
    ensures PointwiseLe(t, BitMarked(t, ram, v, 8 * |ram|))
    ensures forall k :: 0 <= k < |t| && !(k < 8 * |ram| && BitAt(ram, k) == v) ==>
              BitMarked(t, ram, v, 8 * |ram|)[k] == t[k]
  {
  }

  /** Updating twice with the same snapshot is updating once. */
  lemma MarkedIdempotent(t: seq<bool>, tt: seq<bool>, ram: seq<bv8>, v: bool)
    ensures ByteMarked(ByteMarked(t, ram), ram) == ByteMarked(t, ram)
    ensures BitMarked(BitMarked(tt, ram, v, 8 * |ram|), ram, v, 8 * |ram|) == BitMarked(tt, ram, v, 8 * |ram|)
  {
  }

  /** A table that has seen more atoms finds fewer snapshots novel. */
  lemma NoveltyAntimonotone(t1: seq<bool>, t2: seq<bool>, ram: seq<bv8>)
    requires |t1| == |t2| == 256 * |ram| && PointwiseLe(t1, t2)
    ensures ByteNovel(t2, ram) ==> ByteNovel(t1, ram)
  {
    if ByteNovel(t2, ram) {
      var i :| 0 <= i < |ram| && !t2[ByteCell(ram, i)];
      assert !t1[ByteCell(ram, i)];
    }
  }

  // ---------------------------------------------------------------------
  // PIW(1): best-reward tables
  // ---------------------------------------------------------------------

  /** Byte-mode check_novelty_1(ram, r): r beats the reward stored with some byte's atom. */
  predicate ByteNovelFor(t: seq<int>, ram: seq<bv8>, r: int)
    requires |t| == 256 * |ram|
  {
    exists i :: 0 <= i < |ram| && r > t[ByteCell(ram, i)]
  }

  /** Byte-mode update_novelty_table(ram, r): each atom's cell keeps the larger of its reward and r. */
  function ByteRaised(t: seq<int>, ram: seq<bv8>, r: int): (u: seq<int>)
    ensures |u| == |t|
  {
    seq(|t|, k requires 0 <= k < |t| => if OnByteCell(ram, k) && r > t[k] then r else t[k])
  }

  /** Byte-mode check_novelty: how many of the first n bytes have an atom whose reward r beats. */
  function ByteNovelCount(t: seq<int>, ram: seq<bv8>, r: int, n: nat): (c: nat)
    requires |t| == 256 * |ram| && n <= |ram|
    ensures c <= n
  {
    if n == 0 then 0
    else ByteNovelCount(t, ram, r, n - 1) + (if r > t[ByteCell(ram, n - 1)] then 1 else 0)
  }

  /** Boolean-mode check_novelty_1(ram, r): r beats the reward stored with some bit position's value. */
  predicate BitNovelFor(tt: seq<int>, tf: seq<int>, ram: seq<bv8>, r: int)
    requires |tt| == |tf| == 8 * |ram|
  {
    exists m :: 0 <= m < 8 * |ram| && r > (if BitAt(ram, m) then tt[m] else tf[m])
  }

  /** The table for bit value v after the first n flat positions of the boolean-mode update. */
  function BitRaised(t: seq<int>, ram: seq<bv8>, r: int, v: bool, n: nat): (u: seq<int>)
    requires n <= 8 * |ram|
    ensures |u| == |t|
  {
    seq(|t|, k requires 0 <= k < |t| => if k < n && BitAt(ram, k) == v && r > t[k] then r else t[k])
  }

  /** Boolean-mode check_novelty: how many of the first n flat positions r beats. */
  function BitNovelCount(tt: seq<int>, tf: seq<int>, ram: seq<bv8>, r: int, n: nat): (c: nat)
    requires |tt| == |tf| == 8 * |ram| && n <= 8 * |ram|
    ensures c <= n
  {
    if n == 0 then 0
    else BitNovelCount(tt, tf, ram, r, n - 1) + (if r > (if BitAt(ram, n - 1) then tt[n - 1] else tf[n - 1]) then 1 else 0)
  }

  /**
   * One more byte of the byte-mode update: the loop reads that byte's cell
   * still holding its initial reward and raises it to r when r is larger.
   */
  lemma ByteRaisedStep(t: seq<int>, ram: seq<bv8>, r: int, i: nat)
    requires i < |ram| && |t| == 256 * |ram|
    ensures ByteRaised(t, ram[..i], r)[ByteCell(ram, i)] == t[ByteCell(ram, i)]
    ensures ByteRaised(t, ram[..i + 1], r) ==
              if r > t[ByteCell(ram, i)] then ByteRaised(t, ram[..i], r)[ByteCell(ram, i) := r]
              else ByteRaised(t, ram[..i], r)
  {
    var c := ByteCell(ram, i);
    assert !OnByteCell(ram[..i], c);
    var a := ByteRaised(t, ram[..i + 1], r);
    var b := if r > t[c] then ByteRaised(t, ram[..i], r)[c := r] else ByteRaised(t, ram[..i], r);
    forall k | 0 <= k < |t|
      ensures a[k] == b[k]
    {
      if k == c {
        assert OnByteCell(ram[..i + 1], k);
      } else if k / 256 == i {
        assert !OnByteCell(ram[..i + 1], k);
      }
    }
  }

  /** One more flat position of the boolean-mode update, in the table for bit value v. */
  lemma BitRaisedStep(t: seq<int>, ram: seq<bv8>, r: int, v: bool, n: nat)
    requires n < 8 * |ram| && |t| == 8 * |ram|
    ensures BitRaised(t, ram, r, v, n)[n] == t[n]
    ensures BitRaised(t, ram, r, v, n + 1) ==
              if BitAt(ram, n) == v && r > t[n] then BitRaised(t, ram, r, v, n)[n := r] else BitRaised(t, ram, r, v, n)
  {
  }

  /** The loop's table after one more flat position, given the table before it. */
  lemma BitRaisedNext(t: seq<int>, ram: seq<bv8>, r: int, v: bool, n: nat, cur: seq<int>, next: seq<int>)
    requires n < 8 * |ram| && |t| == 8 * |ram|
    requires cur == BitRaised(t, ram, r, v, n)
    requires next == if BitAt(ram, n) == v && r > cur[n] then cur[n := r] else cur
    ensures next == BitRaised(t, ram, r, v, n + 1)
  {
    BitRaisedStep(t, ram, r, v, n);
  }

  /** The count is positive exactly when one of the counted bytes is novel. */
  lemma {:induction false} ByteNovelCountPositive(t: seq<int>, ram: seq<bv8>, r: int, n: nat)
    requires |t| == 256 * |ram| && n <= |ram|
    ensures ByteNovelCount(t, ram, r, n) > 0 <==> exists i :: 0 <= i < n && r > t[ByteCell(ram, i)]
  {
    if n > 0 {
      ByteNovelCountPositive(t, ram, r, n - 1);
    }
  }

  /** The count is positive exactly when one of the counted bit positions is novel. */
  lemma {:induction false} BitNovelCountPositive(tt: seq<int>, tf: seq<int>, ram: seq<bv8>, r: int, n: nat)
    requires |tt| == |tf| == 8 * |ram| && n <= 8 * |ram|
    ensures BitNovelCount(tt, tf, ram, r, n) > 0 <==>
              exists m :: 0 <= m < n && r > (if BitAt(ram, m) then tt[m] else tf[m])
  {
    if n > 0 {
      BitNovelCountPositive(tt, tf, ram, r, n - 1);
    }
  }

  /** check_novelty_1 is true exactly when check_novelty is positive, in both representations. */
  lemma NovelIffCountPositive(t: seq<int>, tt: seq<int>, tf: seq<int>, ram: seq<bv8>, r: int)
    requires |t| == 256 * |ram| && |tt| == |tf| == 8 * |ram|
    ensures ByteNovelFor(t, ram, r) <==> ByteNovelCount(t, ram, r, |ram|) > 0
    ensures BitNovelFor(tt, tf, ram, r) <==> BitNovelCount(tt, tf, ram, r, 8 * |ram|) > 0
  {
    ByteNovelCountPositive(t, ram, r, |ram|);
    BitNovelCountPositive(tt, tf, ram, r, 8 * |ram|);
  }

  /** The byte-mode update sets each atom's cell to max(old, r) and leaves every other cell alone. */
  lemma ByteRaisedCells(t: seq<int>, ram: seq<bv8>, r: int)
    requires |t| == 256 * |ram|
    ensures forall i :: 0 <= i < |ram| ==>
              ByteRaised(t, ram, r)[ByteCell(ram, i)] == (if r > t[ByteCell(ram, i)] then r else t[ByteCell(ram, i)])
    ensures forall k :: 0 <= k < |t| && (forall i :: 0 <= i < |ram| ==> k != ByteCell(ram, i)) ==>
              ByteRaised(t, ram, r)[k] == t[k]
  {
    forall i | 0 <= i < |ram|
      ensures OnByteCell(ram, ByteCell(ram, i))
    {
    }
    forall k | 0 <= k < |t| && (forall i :: 0 <= i < |ram| ==> k != ByteCell(ram, i))
      ensures ByteRaised(t, ram, r)[k] == t[k]
    {
      OnByteCellIsByteCell(ram, k);
    }
  }

  /** After update_novelty_table(ram, r), check_novelty_1(ram, r) is false in both representations. */
  lemma RaisedNotNovel(t: seq<int>, tt: seq<int>, tf: seq<int>, ram: seq<bv8>, r: int)
    requires |t| == 256 * |ram| && |tt| == |tf| == 8 * |ram|
    ensures !ByteNovelFor(ByteRaised(t, ram, r), ram, r)
    ensures !BitNovelFor(BitRaised(tt, ram, r, true, 8 * |ram|), BitRaised(tf, ram, r, false, 8 * |ram|), ram, r)
  {
    ByteRaisedCells(t, ram, r);
  }

  /** Cells only ever increase. */
  lemma RaisedMonotone(t: seq<int>, ram: seq<bv8>, r: int, v: bool)
    ensures forall k :: 0 <= k < |t| ==> t[k] <= ByteRaised(t, ram, r)[k]
    ensures forall k :: 0 <= k < |t| ==> t[k] <= BitRaised(t, ram, r, v, 8 * |ram|)[k]
  {
  }

  /** Updating twice with the same (ram, r) has the same effect as updating once. */
  lemma RaisedIdempotent(t: seq<int>, ram: seq<bv8>, r: int, v: bool)
    ensures ByteRaised(ByteRaised(t, ram, r), ram, r) == ByteRaised(t, ram, r)
    ensures BitRaised(BitRaised(t, ram, r, v, 8 * |ram|), ram, r, v, 8 * |ram|) == BitRaised(t, ram, r, v, 8 * |ram|)
  {
  }

  /** A freshly reset table (every cell INT_MIN) finds every snapshot novel for any 32-bit reward above INT_MIN. */
  lemma ResetTableNovel(t: seq<int>, ram: seq<bv8>, r: int)
    requires |t| == 256 * |ram| && |ram| > 0 && t == Repeat(INT_MIN, |t|) && r > INT_MIN
    ensures ByteNovelFor(t, ram, r) && ByteNovelCount(t, ram, r, |ram|) == |ram|
  {
    assert r > t[ByteCell(ram, 0)];
    AllCounted(t, ram, r, |ram|);
  }

  lemma {:induction false} AllCounted(t: seq<int>, ram: seq<bv8>, r: int, n: nat)
    requires |t| == 256 * |ram| && n <= |ram| && forall k :: 0 <= k < |t| ==> r > t[k]
    ensures ByteNovelCount(t, ram, r, n) == n
  {
    if n > 0 {
      AllCounted(t, ram, r, n - 1);
    }
  }
}
