/*
 * The RAM feature encoders: TFBinary turns every RAM bit into a pair of
 * Boolean features (one for "set", one for "clear"); RAMBytes turns every
 * RAM byte into a one-hot block of 256 features, optionally followed by
 * blocks for the xor of pairs of bytes. Both fill a vector that starts all
 * false; the screen argument of getFeatures is unused by both.
 */
module Features {
  import opened Base
  import opened Novelty

  // ----- counting helpers -----

  lemma {:induction false} CountTrueNone(s: seq<bool>)
    requires forall k :: 0 <= k < |s| ==> !s[k]
    ensures CountTrue(s) == 0
  {
    if s != [] {
      CountTrueNone(s[..|s| - 1]);
    }
  }

  /** Setting one false entry adds one true. */
  lemma {:induction false} CountTrueSet(s: seq<bool>, x: nat)
    requires x < |s| && !s[x]
    ensures CountTrue(s[x := true]) == CountTrue(s) + 1
  {
    var t, n := s[x := true], |s| - 1;
    if x == n {
      assert t[..n] == s[..n];
    } else {
      assert t[..n] == s[..n][x := true];
      CountTrueSet(s[..n], x);
    }
  }

  // ----- TFBinary -----

  /**
   * The TFBinary vector once the first m flat bit positions are encoded:
   * position k < m is true when that bit is set, position 8|ram| + k when
   * it is clear.
   */
  function BinaryAfter(ram: seq<bv8>, nFeatures: nat, m: nat): (r: seq<bool>)
    requires m <= 8 * |ram|
    ensures |r| == nFeatures
  {
    seq(nFeatures, k requires 0 <= k < nFeatures =>
      || (k < m && BitAt(ram, k))
      || (8 * |ram| <= k < 8 * |ram| + m && !BitAt(ram, k - 8 * |ram|)))
  }

  /** What getFeatures of TFBinary leaves in a vector of nFeatures entries. */
  function Binary(ram: seq<bv8>, nFeatures: nat): (r: seq<bool>)
    ensures |r| == nFeatures
  {
    BinaryAfter(ram, nFeatures, 8 * |ram|)
  }

  lemma BinaryNext(ram: seq<bv8>, nFeatures: nat, m: nat, cur: seq<bool>, next: seq<bool>)
    requires m < 8 * |ram| && 16 * |ram| <= nFeatures
    requires cur == BinaryAfter(ram, nFeatures, m)
    requires next == if BitAt(ram, m) then cur[m := true] else cur[m + 8 * |ram| := true]
    ensures next == BinaryAfter(ram, nFeatures, m + 1)
  {
    var a := BinaryAfter(ram, nFeatures, m + 1);
    assert |next| == |a|;
    forall k | 0 <= k < nFeatures
      ensures next[k] == a[k]
    {
      if k != m && k != m + 8 * |ram| {
        assert next[k] == cur[k];
      }
    }
  }

  /**
   * Feature 8i+j says that bit j of byte i is set and feature
   * 8i+j+8|ram| that it is clear; both indices are in range.
   */
  lemma BinaryBits(ram: seq<bv8>, nFeatures: nat, i: nat, j: nat)
    requires 16 * |ram| <= nFeatures && i < |ram| && j < 8
    ensures 8 * i + j + 8 * |ram| < nFeatures
    ensures Binary(ram, nFeatures)[8 * i + j] <==> BitOf(ram[i], j)
    ensures Binary(ram, nFeatures)[8 * i + j + 8 * |ram|] <==> !BitOf(ram[i], j)
  {
    FlatPosition(ram, i, j);
  }

  /** Exactly 8|ram| features are true: one of each pair; everything past 16|ram| is false. */
  lemma BinaryCount(ram: seq<bv8>, nFeatures: nat)
    requires 16 * |ram| <= nFeatures
    ensures forall k :: 16 * |ram| <= k < nFeatures ==> !Binary(ram, nFeatures)[k]
    ensures CountTrue(Binary(ram, nFeatures)) == 8 * |ram|
  {
    BinaryCountAfter(ram, nFeatures, 8 * |ram|);
  }

  /** After m flat positions, m features are true. */
  lemma {:induction false} BinaryCountAfter(ram: seq<bv8>, nFeatures: nat, m: nat)
    requires m <= 8 * |ram| && 16 * |ram| <= nFeatures
    ensures CountTrue(BinaryAfter(ram, nFeatures, m)) == m
  {
    var cur := BinaryAfter(ram, nFeatures, m);
    if m == 0 {
      CountTrueNone(cur);
    } else {
      var prev := BinaryAfter(ram, nFeatures, m - 1);
      var x := if BitAt(ram, m - 1) then m - 1 else m - 1 + 8 * |ram|;
      BinaryNext(ram, nFeatures, m - 1, prev, prev[x := true]);
      BinaryCountAfter(ram, nFeatures, m - 1);
      CountTrueSet(prev, x);
    }
  }

  class TFBinary {
    /** Bytes of RAM of the environment the encoder was built for. */
    const ramSize: nat
    const nFeatures: nat

    /** The constructor: two features per RAM bit. */
    constructor (ramSize: nat)
      ensures this.ramSize == ramSize && nFeatures == ramSize * 8 * 2
    {
      this.ramSize := ramSize;
      nFeatures := ramSize * 8 * 2;
    }

    /**
     * getFeatures(screen, ram, features): an all-false vector of
     * n_features entries, then for bit j of byte i either feature 8i+j
     * (set) or feature 8i+j+8|ram| (clear).
     */
    method GetFeatures(ram: seq<bv8>) returns (features: seq<bool>)
      requires nFeatures == 16 * ramSize && |ram| == ramSize
      ensures features == Binary(ram, nFeatures)
    {
      features := Repeat(false, nFeatures);
      var i := 0;
      ghost var m := 0;
      while i < |ram|
        invariant 0 <= i <= |ram| && m == 8 * i
        invariant features == BinaryAfter(ram, nFeatures, m)
      {
        var byte := ram[i];
        var j := 0;
        while j < 8
          invariant 0 <= j <= 8 && m == 8 * i + j
          invariant features == BinaryAfter(ram, nFeatures, m)
        {
          FlatPosition(ram, i, j);
          ghost var before := features;
          if BitOf(byte, j) {
            features := features[8 * i + j := true];
          } else {
            features := features[8 * i + j + |ram| * 8 := true];
          }
          BinaryNext(ram, nFeatures, m, before, features);
          j := j + 1;
          m := m + 1;
        }
        i := i + 1;
      }
    }
  }

  // ----- RAMBytes -----

  /**
   * The cell the redundant loop writes for pass j and byte i when the
   * passes start `shift` blocks after the one-hot blocks: block
   * (j+shift)|ram|+i, value PairXor(ram, i, j+shift). The code
   * as written has shift 0; shift 1 is the placement it evidently intends
   * (see Findings).
   */
  function RedundantCell(ram: seq<bv8>, shift: nat, j: nat, i: nat): (k: nat)
    requires i < |ram|
    ensures k / 256 == (j + shift) * |ram| + i && k % 256 == PairXor(ram, i, j + shift) as int
  {
    var block := (j + shift) * |ram| + i;
    CellDivMod(block, PairXor(ram, i, j + shift) as int);
    256 * block + PairXor(ram, i, j + shift) as int
  }

  /** Byte i xor the byte d places further round the RAM. */
  function PairXor(ram: seq<bv8>, i: nat, d: nat): bv8
    requires i < |ram|
  {
    ram[i] ^ ram[(i + d) % |ram|]
  }

  lemma CellDivMod(block: nat, value: nat)
    requires value < 256
    ensures (256 * block + value) / 256 == block && (256 * block + value) % 256 == value
  {
  }

  /** The RAMBytes vector once the first m bytes of the one-hot loop are written. */
  function PlainAfter(ram: seq<bv8>, nFeatures: nat, m: nat): (r: seq<bool>)
    requires m <= |ram|
    ensures |r| == nFeatures
  {
    seq(nFeatures, k requires 0 <= k < nFeatures => k / 256 < m && OnByteCell(ram, k))
  }

  /**
   * The RAMBytes vector once the redundant loop has reached pass jj, byte
   * ii: the one-hot cells and the cell of every earlier (pass, byte).
   */
  ghost function RedundantAfter(ram: seq<bv8>, nFeatures: nat, shift: nat, jj: nat, ii: nat): (r: seq<bool>)
    ensures |r| == nFeatures
  {
    seq(nFeatures, k requires 0 <= k < nFeatures =>
      || OnByteCell(ram, k)
      || exists j: nat, i: nat :: i < |ram| && (j < jj || (j == jj && i < ii)) && k == RedundantCell(ram, shift, j, i))
  }

  /** What getFeatures of RAMBytes, as written, leaves in a vector of nFeatures entries. */
  ghost function Bytes(ram: seq<bv8>, redundantRam: nat, nFeatures: nat): (r: seq<bool>)
    ensures |r| == nFeatures
  {
    RedundantAfter(ram, nFeatures, 0, redundantRam, 0)
  }

  /** The vector getFeatures evidently means to build: pass j writes block j+1, after the one-hot blocks. */
  ghost function IntendedBytes(ram: seq<bv8>, redundantRam: nat, nFeatures: nat): (r: seq<bool>)
    ensures |r| == nFeatures
  {
    RedundantAfter(ram, nFeatures, 1, redundantRam, 0)
  }

  lemma PlainNext(ram: seq<bv8>, nFeatures: nat, m: nat, cur: seq<bool>, next: seq<bool>)
    requires m < |ram| && 256 * |ram| <= nFeatures
    requires cur == PlainAfter(ram, nFeatures, m) && next == cur[ByteCell(ram, m) := true]
    ensures next == PlainAfter(ram, nFeatures, m + 1)
  {
    var a := PlainAfter(ram, nFeatures, m + 1);
    forall k | 0 <= k < nFeatures
      ensures next[k] == a[k]
    {
      if k / 256 == m && OnByteCell(ram, k) {
        assert k == ByteCell(ram, m);
      }
    }
  }

  lemma PlainDone(ram: seq<bv8>, nFeatures: nat, shift: nat)
    ensures PlainAfter(ram, nFeatures, |ram|) == RedundantAfter(ram, nFeatures, shift, 0, 0)
  {
    var a, b := PlainAfter(ram, nFeatures, |ram|), RedundantAfter(ram, nFeatures, shift, 0, 0);
    forall k | 0 <= k < nFeatures
      ensures a[k] == b[k]
    {
    }
  }

  lemma RedundantNext(ram: seq<bv8>, nFeatures: nat, shift: nat, jj: nat, ii: nat, cur: seq<bool>, next: seq<bool>)
    requires ii < |ram| && RedundantCell(ram, shift, jj, ii) < nFeatures
    requires cur == RedundantAfter(ram, nFeatures, shift, jj, ii)
    requires next == cur[RedundantCell(ram, shift, jj, ii) := true]
    ensures next == RedundantAfter(ram, nFeatures, shift, jj, ii + 1)
  {
    var a := RedundantAfter(ram, nFeatures, shift, jj, ii + 1);
    forall k | 0 <= k < nFeatures
      ensures next[k] == a[k]
    {
      if k == RedundantCell(ram, shift, jj, ii) {
        assert a[k];
      } else if a[k] && !OnByteCell(ram, k) {
        var j: nat, i: nat :| i < |ram| && (j < jj || (j == jj && i < ii + 1)) && k == RedundantCell(ram, shift, j, i);
        assert cur[k];
      }
    }
  }

  lemma RedundantWrap(ram: seq<bv8>, nFeatures: nat, shift: nat, jj: nat)
    ensures RedundantAfter(ram, nFeatures, shift, jj, |ram|) == RedundantAfter(ram, nFeatures, shift, jj + 1, 0)
  {
    var a, b := RedundantAfter(ram, nFeatures, shift, jj, |ram|), RedundantAfter(ram, nFeatures, shift, jj + 1, 0);
    forall k | 0 <= k < nFeatures
      ensures a[k] == b[k]
    {
      if b[k] && !OnByteCell(ram, k) {
        var j: nat, i: nat :| i < |ram| && j < jj + 1 && k == RedundantCell(ram, shift, j, i);
        assert a[k];
      }
    }
  }

  /**
   * The cells of the first redundantRam passes lie below
   * |ram|*256*(1+redundantRam), as the assert of the redundant loop claims,
   * both as written and as intended.
   */
  lemma RedundantCellBound(ram: seq<bv8>, redundantRam: nat, shift: nat, j: nat, i: nat)
    requires shift <= 1 && j < redundantRam && i < |ram|
    ensures RedundantCell(ram, shift, j, i) < |ram| * 256 * (1 + redundantRam)
  {
    var n, r, s := |ram|, redundantRam, j + shift;
    var q := s * n + i;
    MulLe(s + 1, r + 1, n);
    assert (s + 1) * n == s * n + n;
    assert q + 1 <= (r + 1) * n;
    assert n * 256 * (1 + r) == 256 * ((r + 1) * n);
  }

  lemma FeatureCountCoversPlain(n: nat, redundantRam: nat)
    ensures 256 * n <= n * 256 * (1 + redundantRam)
  {
    MulLe(1, 1 + redundantRam, 256 * n);
  }

  lemma MulLe(a: nat, b: nat, c: nat)
    requires a <= b
    ensures a * c <= b * c
  {
  }

  /** Feature 256i + ram[i] is set for every byte i, whatever the redundancy. */
  lemma BytesOneHot(ram: seq<bv8>, redundantRam: nat, nFeatures: nat, i: nat)
    requires i < |ram| && 256 * |ram| <= nFeatures
    ensures ByteCell(ram, i) < nFeatures && Bytes(ram, redundantRam, nFeatures)[ByteCell(ram, i)]
  {
  }

  /** Without redundancy the plain blocks are one-hot: the features are exactly the byte cells, |ram| of them. */
  lemma BytesPlainCount(ram: seq<bv8>, nFeatures: nat)
    requires 256 * |ram| <= nFeatures
    ensures forall k :: 0 <= k < nFeatures ==> (Bytes(ram, 0, nFeatures)[k] <==> OnByteCell(ram, k))
    ensures CountTrue(Bytes(ram, 0, nFeatures)) == |ram|
  {
    PlainCount(ram, nFeatures, |ram|);
    var f := Bytes(ram, 0, nFeatures);
    var p := PlainAfter(ram, nFeatures, |ram|);
    assert f == p;
  }

  /** The first m plain blocks hold m trues, the rest of the vector none. */
  lemma {:induction false} PlainCount(ram: seq<bv8>, nFeatures: nat, m: nat)
    requires m <= |ram| && 256 * |ram| <= nFeatures
    ensures CountTrue(PlainAfter(ram, nFeatures, m)) == m
  {
    var cur := PlainAfter(ram, nFeatures, m);
    if m == 0 {
      CountTrueNone(cur);
    } else {
      var prev := PlainAfter(ram, nFeatures, m - 1);
      PlainNext(ram, nFeatures, m - 1, prev, prev[ByteCell(ram, m - 1) := true]);
      PlainCount(ram, nFeatures, m - 1);
      CountTrueSet(prev, ByteCell(ram, m - 1));
    }
  }

  // ----- the redundant blocks as written and as intended -----

  /**
   * With the one byte 5 and one redundant pass, pass 0 xors the byte with
   * itself and writes cell 0 of block 0: the block of byte 0 is no longer
   * one-hot, and the 256 features reserved for the pass stay false.
   */
  lemma BytesRedundantOverlapsPlain()
    ensures Bytes([5], 1, 512)[0] && Bytes([5], 1, 512)[5]
    ensures forall k :: 256 <= k < 512 ==> !Bytes([5], 1, 512)[k]
  {
    var ram: seq<bv8> := [5];
    assert RedundantCell(ram, 0, 0, 0) == 0;
    forall k | 256 <= k < 512
      ensures !Bytes(ram, 1, 512)[k]
    {
      forall j: nat, i: nat | i < |ram| && (j < 1 || (j == 1 && i < 0))
        ensures k != RedundantCell(ram, 0, j, i)
      {
        assert j == 0 && i == 0;
      }
    }
  }

  /** Blocks (j+1)n+i with i < n name (j, i) uniquely. */
  lemma BlockNamesPass(n: nat, j: nat, i: nat, j': nat, i': nat)
    requires i < n && i' < n && (j + 1) * n + i == (j' + 1) * n + i'
    ensures j == j' && i == i'
  {
    if j < j' {
      MulLe(j + 2, j' + 1, n);
      assert false;
    } else if j' < j {
      MulLe(j' + 2, j + 1, n);
      assert false;
    }
  }

  /** As intended, the redundant passes leave the one-hot blocks alone. */
  lemma IntendedKeepsPlain(ram: seq<bv8>, redundantRam: nat, nFeatures: nat, k: nat)
    requires k < 256 * |ram| && k < nFeatures
    ensures IntendedBytes(ram, redundantRam, nFeatures)[k] <==> OnByteCell(ram, k)
  {
    if IntendedBytes(ram, redundantRam, nFeatures)[k] && !OnByteCell(ram, k) {
      var j: nat, i: nat :| i < |ram| && (j < redundantRam || (j == redundantRam && i < 0)) && k == RedundantCell(ram, 1, j, i);
      MulLe(1, j + 1, |ram|);
      assert false;
    }
  }

  /**
   * As intended, the block of pass j and byte i lies in the reserved range
   * and holds exactly one true feature: the xor of byte i and byte
   * (i+j+1) mod |ram|.
   */
  lemma IntendedBlocksOneHot(ram: seq<bv8>, redundantRam: nat, nFeatures: nat, j: nat, i: nat, v: nat)
    requires nFeatures == |ram| * 256 * (1 + redundantRam)
    requires j < redundantRam && i < |ram| && v < 256
    ensures 256 * |ram| <= ((j + 1) * |ram| + i) * 256 + v < nFeatures
    ensures IntendedBytes(ram, redundantRam, nFeatures)[((j + 1) * |ram| + i) * 256 + v]
              == (v == (ram[i] ^ ram[(i + j + 1) % |ram|]) as int)
  {
    var n, r := |ram|, redundantRam;
    var b := (j + 1) * n + i;
    MulLe(1, j + 1, n);
    MulLe(j + 2, r + 1, n);
    assert (j + 2) * n == (j + 1) * n + n;
    assert b + 1 <= (r + 1) * n;
    assert nFeatures == 256 * ((r + 1) * n);
    IntendedBlock(ram, redundantRam, nFeatures, j, i, v);
  }

  lemma IntendedBlock(ram: seq<bv8>, redundantRam: nat, nFeatures: nat, j: nat, i: nat, v: nat)
    requires j < redundantRam && i < |ram| && v < 256 && ((j + 1) * |ram| + i) * 256 + v < nFeatures
    requires |ram| <= (j + 1) * |ram|
    ensures IntendedBytes(ram, redundantRam, nFeatures)[((j + 1) * |ram| + i) * 256 + v]
              == (v == PairXor(ram, i, j + 1) as int)
  {
    var n, b := |ram|, (j + 1) * |ram| + i;
    var k := 256 * b + v;
    CellDivMod(b, v);
    assert !OnByteCell(ram, k);
    if IntendedBytes(ram, redundantRam, nFeatures)[k] {
      var j': nat, i': nat :| i' < n && (j' < redundantRam || (j' == redundantRam && i' < 0)) && k == RedundantCell(ram, 1, j', i');
      BlockNamesPass(n, j, i, j', i');
    }
    if v == PairXor(ram, i, j + 1) as int {
      assert k == RedundantCell(ram, 1, j, i);
    }
  }

  class RAMBytes {
    /** Bytes of RAM of the environment the encoder was built for. */
    const ramSize: nat
    const redundantRam: nat
    const nFeatures: nat

    /** The one-argument constructor: no redundancy, 256 features per RAM byte. */
    constructor (ramSize: nat)
      ensures this.ramSize == ramSize && redundantRam == 0 && nFeatures == ramSize * 256
    {
      this.ramSize := ramSize;
      redundantRam := 0;
      nFeatures := ramSize * 256;
    }

    /** The two-argument constructor: one more block of |ram|*256 features per redundant pass. */
    constructor WithRedundancy(ramSize: nat, redundantRam: nat)
      ensures this.ramSize == ramSize && this.redundantRam == redundantRam
      ensures nFeatures == ramSize * 256 * (1 + redundantRam)
    {
      this.ramSize := ramSize;
      this.redundantRam := redundantRam;
      nFeatures := ramSize * 256 * (1 + redundantRam);
    }

    /**
     * The loops of getFeatures(screen, ram, features): feature 256i + ram[i]
     * for every byte, then for each pass j < redundant_ram the cell
     * RedundantCell(ram, shift, j, i) of every byte i.
     */
    method Encode(ram: seq<bv8>, shift: nat) returns (features: seq<bool>)
      requires nFeatures == ramSize * 256 * (1 + redundantRam) && |ram| == ramSize && shift <= 1
      ensures features == RedundantAfter(ram, nFeatures, shift, redundantRam, 0)
    {
      FeatureCountCoversPlain(|ram|, redundantRam);
      features := Repeat(false, nFeatures);
      var i := 0;
      while i < |ram|
        invariant 0 <= i <= |ram|
        invariant features == PlainAfter(ram, nFeatures, i)
      {
        ghost var before := features;
        features := features[ByteCell(ram, i) := true];
        PlainNext(ram, nFeatures, i, before, features);
        i := i + 1;
      }
      PlainDone(ram, nFeatures, shift);
      var j := 0;
      while j < redundantRam
        invariant 0 <= j <= redundantRam
        invariant features == RedundantAfter(ram, nFeatures, shift, j, 0)
      {
        i := 0;
        while i < |ram|
          invariant 0 <= i <= |ram|
          invariant features == RedundantAfter(ram, nFeatures, shift, j, i)
        {
          RedundantCellBound(ram, redundantRam, shift, j, i);
          ghost var before := features;
          features := features[RedundantCell(ram, shift, j, i) := true];
          RedundantNext(ram, nFeatures, shift, j, i, before, features);
          i := i + 1;
        }
        RedundantWrap(ram, nFeatures, shift, j);
        j := j + 1;
      }
    }

    /** getFeatures as written: pass j writes block j|ram|+i, for byte i xor byte (i+j) mod |ram| (see Findings). */
    method GetFeaturesAsWritten(ram: seq<bv8>) returns (features: seq<bool>)
      requires nFeatures == ramSize * 256 * (1 + redundantRam) && |ram| == ramSize
      ensures features == Bytes(ram, redundantRam, nFeatures)
    {
      features := Encode(ram, 0);
    }

    /**
     * getFeatures with the redundant passes placed as intended: pass j writes
     * block (j+1)|ram|+i, for byte i xor byte (i+j+1) mod |ram|, so the
     * one-hot blocks stay one-hot and every reserved block is used.
     */
    method GetFeatures(ram: seq<bv8>) returns (features: seq<bool>)
      requires nFeatures == ramSize * 256 * (1 + redundantRam) && |ram| == ramSize
      ensures features == IntendedBytes(ram, redundantRam, nFeatures)
    {
      features := Encode(ram, 1);
    }
  }
}
