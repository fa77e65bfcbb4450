/** The BipBip 24-bit tweakable block cipher, its tweak schedule and the cipher
    object that caches the schedule of the last tweak (crypto/bipbip.cpp). */
module BipBip {
  import opened Words

  type Block = b: Bits | |b| == 24 witness seq(24, _ => false)
  type TweakWord = b: Bits | |b| == 53 witness seq(53, _ => false)

  const SBOX: seq<nat> :=
    [0x00, 0x01, 0x02, 0x03, 0x04, 0x06, 0x3e, 0x3c] +
    [0x08, 0x11, 0x0e, 0x17, 0x2b, 0x33, 0x35, 0x2d] +
    [0x19, 0x1c, 0x09, 0x0c, 0x15, 0x13, 0x3d, 0x3b] +
    [0x31, 0x2c, 0x25, 0x38, 0x3a, 0x26, 0x36, 0x2a] +
    [0x34, 0x1d, 0x37, 0x1e, 0x30, 0x1a, 0x0b, 0x21] +
    [0x2e, 0x1f, 0x29, 0x18, 0x0f, 0x3f, 0x10, 0x20] +
    [0x28, 0x05, 0x39, 0x14, 0x24, 0x0a, 0x0d, 0x23] +
    [0x12, 0x27, 0x07, 0x32, 0x1b, 0x2f, 0x16, 0x22]

  const SBOX_INV: seq<nat> :=
    [0x00, 0x01, 0x02, 0x03, 0x04, 0x31, 0x05, 0x3a] +
    [0x08, 0x12, 0x35, 0x26, 0x13, 0x36, 0x0a, 0x2c] +
    [0x2e, 0x09, 0x38, 0x15, 0x33, 0x14, 0x3e, 0x0b] +
    [0x2b, 0x10, 0x25, 0x3c, 0x11, 0x21, 0x23, 0x29] +
    [0x2f, 0x27, 0x3f, 0x37, 0x34, 0x1a, 0x1d, 0x39] +
    [0x30, 0x2a, 0x1f, 0x0c, 0x19, 0x0f, 0x28, 0x3d] +
    [0x24, 0x18, 0x3b, 0x0d, 0x20, 0x0e, 0x1e, 0x22] +
    [0x1b, 0x32, 0x1c, 0x17, 0x07, 0x16, 0x06, 0x2d]

  const PI1: seq<nat> :=
    [1, 7, 6, 0, 2, 8, 12, 18] +
    [19, 13, 14, 20, 21, 15, 16, 22] +
    [23, 17, 9, 3, 4, 10, 11, 5]

  const PI2: seq<nat> :=
    [0, 1, 4, 5, 8, 9, 2, 3] +
    [6, 7, 10, 11, 16, 12, 13, 17] +
    [20, 21, 15, 14, 18, 19, 22, 23]

  const PI3: seq<nat> :=
    [16, 22, 11, 5, 2, 8, 0, 6] +
    [19, 13, 12, 18, 14, 15, 1, 7] +
    [21, 20, 4, 3, 17, 23, 10, 9]

  const PI1_INV: seq<nat> :=
    [3, 0, 4, 19, 20, 23, 2, 1] +
    [5, 18, 21, 22, 6, 9, 10, 13] +
    [14, 17, 7, 8, 11, 12, 15, 16]

  const PI2_INV: seq<nat> :=
    [0, 1, 6, 7, 2, 3, 8, 9] +
    [4, 5, 10, 11, 13, 14, 19, 18] +
    [12, 15, 20, 21, 16, 17, 22, 23]

  const PI3_INV: seq<nat> :=
    [6, 14, 4, 19, 18, 3, 7, 15] +
    [5, 23, 22, 2, 10, 9, 12, 13] +
    [0, 20, 11, 8, 17, 16, 1, 21]

  const PI4: seq<nat> :=
    [0, 13, 26, 39, 52, 12, 25, 38] +
    [51, 11, 24, 37, 50, 10, 23, 36] +
    [49, 9, 22, 35, 48, 8, 21, 34] +
    [47, 7, 20, 33, 46, 6, 19, 32] +
    [45, 5, 18, 31, 44, 4, 17, 30] +
    [43, 3, 16, 29, 42, 2, 15, 28] +
    [41, 1, 14, 27, 40]

  const PI5: seq<nat> :=
    [0, 11, 22, 33, 44, 2, 13, 24] +
    [35, 46, 4, 15, 26, 37, 48, 6] +
    [17, 28, 39, 50, 8, 19, 30, 41] +
    [52, 10, 21, 32, 43, 1, 12, 23] +
    [34, 45, 3, 14, 25, 36, 47, 5] +
    [16, 27, 38, 49, 7, 18, 29, 40] +
    [51, 9, 20, 31, 42]

  // The tweak path is never run backwards; these inverses of PI4 and PI5 serve the proofs:
  // 13 * 49 and 11 * 29 are 1 modulo 53.
  const PI4_INV: seq<nat> := seq(53, i => 49 * i % 53)

  const PI5_INV: seq<nat> := seq(53, i => 29 * i % 53)

  // ------------------------------------------------------------------------
  // Table facts
  // ------------------------------------------------------------------------

  /** s undoes t: the entries of t are indices, and s maps t[i] back to i. */
  ghost predicate Undoes(s: seq<nat>, t: seq<nat>) {
    |s| == |t| && forall i | 0 <= i < |t| :: t[i] < |t| && s[t[i]] == i
  }

  /** The first k entries of t are indices of s, and s leads back to where each came from. */
  predicate UndoneBy(t: seq<nat>, s: seq<nat>, k: nat)
    requires k <= |t| && |s| == |t|
    decreases k
  {
    k == 0 || (UndoneBy(t, s, k - 1) && t[k - 1] < |t| && s[t[k - 1]] == k - 1)
  }

  lemma {:induction false} UndoneAt(t: seq<nat>, s: seq<nat>, k: nat)
    requires k <= |t| && |s| == |t| && UndoneBy(t, s, k)
    ensures forall i | 0 <= i < k :: t[i] < |t| && s[t[i]] == i
  {
    if k > 0 {
      UndoneAt(t, s, k - 1);
    }
  }

  // The large tables are unfolded four entries at a time, half a table per lemma.

  lemma SboxHalf()
    ensures |SBOX| == |SBOX_INV| == 64 && UndoneBy(SBOX, SBOX_INV, 32)
  {
    assert UndoneBy(SBOX, SBOX_INV, 4);
    assert UndoneBy(SBOX, SBOX_INV, 8);
    assert UndoneBy(SBOX, SBOX_INV, 12);
    assert UndoneBy(SBOX, SBOX_INV, 16);
    assert UndoneBy(SBOX, SBOX_INV, 20);
    assert UndoneBy(SBOX, SBOX_INV, 24);
    assert UndoneBy(SBOX, SBOX_INV, 28);
  }

  lemma SboxWhole()
    ensures |SBOX| == |SBOX_INV| == 64 && UndoneBy(SBOX, SBOX_INV, 64)
  {
    SboxHalf();
    assert UndoneBy(SBOX, SBOX_INV, 36);
    assert UndoneBy(SBOX, SBOX_INV, 40);
    assert UndoneBy(SBOX, SBOX_INV, 44);
    assert UndoneBy(SBOX, SBOX_INV, 48);
    assert UndoneBy(SBOX, SBOX_INV, 52);
    assert UndoneBy(SBOX, SBOX_INV, 56);
    assert UndoneBy(SBOX, SBOX_INV, 60);
  }

  lemma SboxTable()
    ensures |SBOX| == 64 && Undoes(SBOX_INV, SBOX)
  {
    SboxWhole();
    UndoneAt(SBOX, SBOX_INV, 64);
  }

  lemma SboxInvHalf()
    ensures |SBOX_INV| == |SBOX| == 64 && UndoneBy(SBOX_INV, SBOX, 32)
  {
    assert UndoneBy(SBOX_INV, SBOX, 4);
    assert UndoneBy(SBOX_INV, SBOX, 8);
    assert UndoneBy(SBOX_INV, SBOX, 12);
    assert UndoneBy(SBOX_INV, SBOX, 16);
    assert UndoneBy(SBOX_INV, SBOX, 20);
    assert UndoneBy(SBOX_INV, SBOX, 24);
    assert UndoneBy(SBOX_INV, SBOX, 28);
  }

  lemma SboxInvWhole()
    ensures |SBOX_INV| == |SBOX| == 64 && UndoneBy(SBOX_INV, SBOX, 64)
  {
    SboxInvHalf();
    assert UndoneBy(SBOX_INV, SBOX, 36);
    assert UndoneBy(SBOX_INV, SBOX, 40);
    assert UndoneBy(SBOX_INV, SBOX, 44);
    assert UndoneBy(SBOX_INV, SBOX, 48);
    assert UndoneBy(SBOX_INV, SBOX, 52);
    assert UndoneBy(SBOX_INV, SBOX, 56);
    assert UndoneBy(SBOX_INV, SBOX, 60);
  }

  lemma SboxInvTable()
    ensures |SBOX_INV| == 64 && Undoes(SBOX, SBOX_INV)
  {
    SboxInvWhole();
    UndoneAt(SBOX_INV, SBOX, 64);
  }

  lemma Pi1Table()
    ensures |PI1| == 24 && Undoes(PI1_INV, PI1)
  {
  }

  lemma Pi1InvTable()
    ensures |PI1_INV| == 24 && Undoes(PI1, PI1_INV)
  {
  }

  lemma Pi2Table()
    ensures |PI2| == 24 && Undoes(PI2_INV, PI2)
  {
  }

  lemma Pi2InvTable()
    ensures |PI2_INV| == 24 && Undoes(PI2, PI2_INV)
  {
  }

  lemma Pi3Table()
    ensures |PI3| == 24 && Undoes(PI3_INV, PI3)
  {
  }

  lemma Pi3InvTable()
    ensures |PI3_INV| == 24 && Undoes(PI3, PI3_INV)
  {
  }

  /** The first k entries of t start at 0 and go on by step on a cycle of 53. */
  predicate Strided(t: seq<nat>, step: nat, k: nat)
    requires k <= |t|
    decreases k
  {
    if k == 0 then true
    else if k == 1 then t[0] == 0
    else
      Strided(t, step, k - 1) &&
      t[k - 1] == if t[k - 2] + step < 53 then t[k - 2] + step else t[k - 2] + step - 53
  }

  lemma {:induction false} StridedAt(t: seq<nat>, step: nat, k: nat, i: nat)
    requires i < k <= |t| && Strided(t, step, k) && step < 53
    ensures t[i] == step * i % 53
    decreases k
  {
    if i < k - 1 {
      StridedAt(t, step, k - 1, i);
    } else if i > 0 {
      StridedAt(t, step, k - 1, i - 1);
      AheadIsModular(step * (i - 1), step);
      NextMultiple(step, i);
    }
  }

  lemma NextMultiple(step: nat, i: nat)
    requires i > 0
    ensures step * (i - 1) + step == step * i
  {
  }

  /** The positions of the tweak path are strides on a cycle of 53: PI4 by 13, PI5 by 11. */
  lemma StrideTables()
    ensures |PI4| == |PI5| == 53
    ensures forall i | 0 <= i < 53 :: PI4[i] == 13 * i % 53
    ensures forall i | 0 <= i < 53 :: PI5[i] == 11 * i % 53
  {
    hide PI4, PI5;
    Pi4Stride();
    Pi5Stride();
    forall i | 0 <= i < 53
      ensures PI4[i] == 13 * i % 53 && PI5[i] == 11 * i % 53
    {
      StridedAt(PI4, 13, 53, i);
      StridedAt(PI5, 11, 53, i);
    }
  }

  lemma Pi4Half()
    ensures |PI4| == 53 && Strided(PI4, 13, 28)
  {
    assert Strided(PI4, 13, 4);
    assert Strided(PI4, 13, 8);
    assert Strided(PI4, 13, 12);
    assert Strided(PI4, 13, 16);
    assert Strided(PI4, 13, 20);
    assert Strided(PI4, 13, 24);
  }

  lemma Pi4Stride()
    ensures |PI4| == 53 && Strided(PI4, 13, 53)
  {
    Pi4Half();
    assert Strided(PI4, 13, 32);
    assert Strided(PI4, 13, 36);
    assert Strided(PI4, 13, 40);
    assert Strided(PI4, 13, 44);
    assert Strided(PI4, 13, 48);
    assert Strided(PI4, 13, 52);
  }

  lemma Pi5Half()
    ensures |PI5| == 53 && Strided(PI5, 11, 28)
  {
    assert Strided(PI5, 11, 4);
    assert Strided(PI5, 11, 8);
    assert Strided(PI5, 11, 12);
    assert Strided(PI5, 11, 16);
    assert Strided(PI5, 11, 20);
    assert Strided(PI5, 11, 24);
  }

  lemma Pi5Stride()
    ensures |PI5| == 53 && Strided(PI5, 11, 53)
  {
    Pi5Half();
    assert Strided(PI5, 11, 32);
    assert Strided(PI5, 11, 36);
    assert Strided(PI5, 11, 40);
    assert Strided(PI5, 11, 44);
    assert Strided(PI5, 11, 48);
    assert Strided(PI5, 11, 52);
  }

  lemma SameRest(x: int, y: int, m: int)
    requires x == y + 53 * m
    ensures x % 53 == y % 53
  {
  }

  lemma StrideBack4(i: nat)
    requires i < 53
    ensures 13 * (49 * i % 53) % 53 == i
  {
    SameRest(13 * (49 * i % 53), i, 12 * i - 13 * (49 * i / 53));
  }

  lemma StrideBack5(i: nat)
    requires i < 53
    ensures 11 * (29 * i % 53) % 53 == i
  {
    SameRest(11 * (29 * i % 53), i, 6 * i - 11 * (29 * i / 53));
  }

  lemma Pi4InvTable()
    ensures |PI4_INV| == 53 && Undoes(PI4, PI4_INV)
  {
    hide PI4;
    StrideTables();
    forall i | 0 <= i < 53
      ensures PI4_INV[i] < 53 && PI4[PI4_INV[i]] == i
    {
      StrideBack4(i);
    }
  }

  lemma Pi5InvTable()
    ensures |PI5_INV| == 53 && Undoes(PI5, PI5_INV)
  {
    hide PI5;
    StrideTables();
    forall i | 0 <= i < 53
      ensures PI5_INV[i] < 53 && PI5[PI5_INV[i]] == i
    {
      StrideBack5(i);
    }
  }

  lemma PiTables()
    ensures Undoes(PI1_INV, PI1) && Undoes(PI1, PI1_INV)
    ensures Undoes(PI2_INV, PI2) && Undoes(PI2, PI2_INV)
    ensures Undoes(PI3_INV, PI3) && Undoes(PI3, PI3_INV)
  {
    hide Undoes;
    Pi1Table();
    Pi1InvTable();
    Pi2Table();
    Pi2InvTable();
    Pi3Table();
    Pi3InvTable();
  }

  // ------------------------------------------------------------------------
  // S-box layer and bit permutations
  // ------------------------------------------------------------------------

  /** One table lookup on six bits. */
  function Substitute(table: seq<nat>, six: Bits): (r: Bits)
    requires |table| == 64 && |six| == 6
    ensures |r| == 6
  {
    assert Pow2(6) == 64;
    FromNat(table[ToNat(six)], 6)
  }

  function SboxLayer(table: seq<nat>, state: Block): Block
    requires |table| == 64
  {
    Substitute(table, state[..6]) + Substitute(table, state[6..12]) +
    Substitute(table, state[12..18]) + Substitute(table, state[18..])
  }

  /** The loop of sbox(): group 3 first, each next group shifted in below. */
  method Sbox(state: Block, table: seq<nat>) returns (out: Bits)
    requires |table| == 64
    ensures out == SboxLayer(table, state)
  {
    out := [];
    var i := 4;
    while i > 0
      invariant 0 <= i <= 4
      invariant i == 4 ==> out == []
      invariant i == 3 ==> out == Substitute(table, state[18..])
      invariant i == 2 ==> out == Substitute(table, state[12..18]) + Substitute(table, state[18..])
      invariant i == 1 ==>
        out == Substitute(table, state[6..12]) + Substitute(table, state[12..18]) + Substitute(table, state[18..])
      invariant i == 0 ==> out == SboxLayer(table, state)
    {
      i := i - 1;
      assert i == 3 ==> state[6 * i..6 * i + 6] == state[18..];
      assert i == 0 ==> state[6 * i..6 * i + 6] == state[..6];
      out := Substitute(table, state[6 * i..6 * i + 6]) + out;
    }
  }

  /** get_bit: a bit above the width of the word reads as zero. */
  predicate GetBit(state: Bits, position: nat) {
    position < |state| && state[position]
  }

  /** Output bit i is input bit pi[i]. */
  function Permute(state: Bits, pi: seq<nat>): (r: Bits)
    ensures |r| == |pi| && forall i | 0 <= i < |r| :: r[i] == GetBit(state, pi[i])
  {
    seq(|pi|, i requires 0 <= i < |pi| => GetBit(state, pi[i]))
  }

  /** The loop of BPL(): the result grows by one low bit per round. */
  method BitPermutation(state: Bits, pi: seq<nat>) returns (out: Bits)
    ensures out == Permute(state, pi)
  {
    out := [];
    var i := |pi|;
    while i > 0
      invariant 0 <= i <= |pi| && out == Permute(state, pi)[i..]
    {
      i := i - 1;
      out := [GetBit(state, pi[i])] + out;
    }
  }

  lemma SubstituteInverse(t: seq<nat>, s: seq<nat>, six: Bits)
    requires |t| == 64 && Undoes(s, t) && |six| == 6
    ensures Substitute(s, Substitute(t, six)) == six
  {
    assert Pow2(6) == 64;
    FromNatToNat(t[ToNat(six)], 6);
    ToNatFromNat(six);
  }

  lemma SboxLayerInverse(t: seq<nat>, s: seq<nat>, state: Block)
    requires |t| == 64 && Undoes(s, t)
    ensures SboxLayer(s, SboxLayer(t, state)) == state
  {
    hide Substitute;
    var u := SboxLayer(t, state);
    assert u[..6] == Substitute(t, state[..6]);
    assert u[6..12] == Substitute(t, state[6..12]);
    assert u[12..18] == Substitute(t, state[12..18]);
    assert u[18..] == Substitute(t, state[18..]);
    SubstituteInverse(t, s, state[..6]);
    SubstituteInverse(t, s, state[6..12]);
    SubstituteInverse(t, s, state[12..18]);
    SubstituteInverse(t, s, state[18..]);
  }

  lemma PermuteInverse(state: Bits, pi: seq<nat>, pinv: seq<nat>)
    requires |state| == |pi| && Undoes(pi, pinv) && Undoes(pinv, pi)
    ensures Permute(Permute(state, pi), pinv) == state
  {
  }

  // ------------------------------------------------------------------------
  // Data path
  // ------------------------------------------------------------------------

  /** theta_d: the block added to its rotations by 2 and by 12. */
  function LML1(s: Block): Block {
    Xor(Xor(s, RotateRight(s, 2)), RotateRight(s, 12))
  }

  function LML1Inv(s: Block): Block {
    RotateRight(LML1(s), 20)
  }

  function KAD(data: Block, tweak: Block): Block {
    Xor(data, tweak)
  }

  /** Core round. */
  function RFC(s: Block): Block {
    Permute(LML1(Permute(SboxLayer(SBOX, s), PI1)), PI2)
  }

  function RFCInv(s: Block): Block {
    SboxLayer(SBOX_INV, Permute(LML1Inv(Permute(s, PI2_INV)), PI1_INV))
  }

  /** Shell round. */
  function RFS(s: Block): Block {
    Permute(SboxLayer(SBOX, s), PI3)
  }

  function RFSInv(s: Block): Block {
    SboxLayer(SBOX_INV, Permute(s, PI3_INV))
  }

  /** The bit position k places above i in a 24-bit block, cyclically. */
  function Above(i: nat, k: nat): nat
    requires i < 24 && k < 24
  {
    if i + k < 24 then i + k else i + k - 24
  }

  predicate ThetaBit(s: Block, i: nat)
    requires i < 24
  {
    (s[i] != s[Above(i, 2)]) != s[Above(i, 12)]
  }

  ghost predicate IsTheta(s: Block, t: Block) {
    forall i | 0 <= i < 24 :: t[i] == ThetaBit(s, i)
  }

  lemma ThetaBits(s: Block)
    ensures IsTheta(s, LML1(s))
  {
  }

  lemma ThetaTwice(s: Block, t: Block, u: Block)
    requires IsTheta(s, t) && IsTheta(t, u)
    ensures u == RotateRight(s, 4)
  {
    forall i | 0 <= i < 24
      ensures u[i] == s[Above(i, 4)]
    {
      assert t[i] == ThetaBit(s, i);
      assert t[Above(i, 2)] == ThetaBit(s, Above(i, 2));
      assert t[Above(i, 12)] == ThetaBit(s, Above(i, 12));
    }
  }

  lemma ThetaRotated(s: Block, t: Block, r: Block, u: Block)
    requires IsTheta(s, t) && IsTheta(r, u) && r == RotateRight(s, 20)
    ensures u == RotateRight(t, 20)
  {
    forall i | 0 <= i < 24
      ensures u[i] == t[Above(i, 20)]
    {
      assert t[Above(i, 20)] == ThetaBit(s, Above(i, 20));
    }
  }

  /** theta_d applied twice is a rotation by 4: the other terms cancel in pairs. */
  lemma ThetaSquared(s: Block)
    ensures LML1(LML1(s)) == RotateRight(s, 4)
  {
    ThetaBits(s);
    ThetaBits(LML1(s));
    ThetaTwice(s, LML1(s), LML1(LML1(s)));
  }

  lemma ThetaRotates(s: Block)
    ensures LML1(RotateRight(s, 20)) == RotateRight(LML1(s), 20)
  {
    ThetaBits(s);
    ThetaBits(RotateRight(s, 20));
    ThetaRotated(s, LML1(s), RotateRight(s, 20), LML1(RotateRight(s, 20)));
  }

  lemma RotateBack(s: Block)
    ensures RotateRight(RotateRight(s, 4), 20) == s
  {
  }

  lemma LML1Inverse(s: Block)
    ensures LML1Inv(LML1(s)) == s
    ensures LML1(LML1Inv(s)) == s
  {
    ThetaSquared(s);
    ThetaRotates(LML1(s));
    RotateBack(s);
  }

  lemma CoreRoundInverse(s: Block)
    ensures RFCInv(RFC(s)) == s
    ensures RFC(RFCInv(s)) == s
  {
    CoreRoundUndone(s);
    CoreRoundRedone(s);
  }

  lemma CoreRoundUndone(s: Block)
    ensures RFCInv(RFC(s)) == s
  {
    var a := SboxLayer(SBOX, s);
    var b: Block := Permute(a, PI1);
    PiTables();
    PermuteInverse(LML1(b), PI2, PI2_INV);
    LML1Inverse(b);
    PermuteInverse(a, PI1, PI1_INV);
    SboxTable();
    SboxInvTable();
    SboxLayerInverse(SBOX, SBOX_INV, s);
  }

  lemma CoreRoundRedone(s: Block)
    ensures RFC(RFCInv(s)) == s
  {
    var b: Block := Permute(s, PI2_INV);
    var c := LML1Inv(b);
    var d: Block := Permute(c, PI1_INV);
    SboxTable();
    SboxInvTable();
    SboxLayerInverse(SBOX_INV, SBOX, d);
    PiTables();
    PermuteInverse(c, PI1_INV, PI1);
    LML1Inverse(b);
    PermuteInverse(s, PI2_INV, PI2);
  }

  lemma ShellRoundInverse(s: Block)
    ensures RFSInv(RFS(s)) == s
    ensures RFS(RFSInv(s)) == s
  {
    PiTables();
    SboxTable();
    SboxInvTable();
    PermuteInverse(SboxLayer(SBOX, s), PI3, PI3_INV);
    SboxLayerInverse(SBOX, SBOX_INV, s);
    PermuteInverse(s, PI3_INV, PI3);
    SboxLayerInverse(SBOX_INV, SBOX, Permute(s, PI3_INV));
  }

  type TweakSchedule = t: seq<Block> | |t| == 12 witness seq(12, _ => seq(24, _ => false))

  function BipBipEnc(plaintext: Block, ts: TweakSchedule): Block {
    var s := RFSInv(KAD(plaintext, ts[11]));
    var s := RFSInv(KAD(s, ts[10]));
    var s := RFSInv(KAD(s, ts[9]));
    var s := RFCInv(KAD(s, ts[8]));
    var s := RFCInv(KAD(s, ts[7]));
    var s := RFCInv(KAD(s, ts[6]));
    var s := RFCInv(KAD(s, ts[5]));
    var s := RFCInv(KAD(s, ts[4]));
    var s := RFSInv(KAD(s, ts[3]));
    var s := RFSInv(KAD(s, ts[2]));
    var s := RFSInv(KAD(s, ts[1]));
    KAD(s, ts[0])
  }

  function BipBipDec(ciphertext: Block, ts: TweakSchedule): Block {
    var s := RFS(KAD(ciphertext, ts[0]));
    var s := RFS(KAD(s, ts[1]));
    var s := RFS(KAD(s, ts[2]));
    var s := RFC(KAD(s, ts[3]));
    var s := RFC(KAD(s, ts[4]));
    var s := RFC(KAD(s, ts[5]));
    var s := RFC(KAD(s, ts[6]));
    var s := RFC(KAD(s, ts[7]));
    var s := RFS(KAD(s, ts[8]));
    var s := RFS(KAD(s, ts[9]));
    var s := RFS(KAD(s, ts[10]));
    KAD(s, ts[11])
  }

  lemma ShellStep(s: Block, k: Block)
    ensures RFS(KAD(KAD(RFSInv(s), k), k)) == s
    ensures KAD(RFSInv(RFS(KAD(s, k))), k) == s
  {
    XorTwice(RFSInv(s), k);
    XorTwice(s, k);
    ShellRoundInverse(s);
    ShellRoundInverse(KAD(s, k));
  }

  lemma CoreStep(s: Block, k: Block)
    ensures RFC(KAD(KAD(RFCInv(s), k), k)) == s
    ensures KAD(RFCInv(RFC(KAD(s, k))), k) == s
  {
    XorTwice(RFCInv(s), k);
    XorTwice(s, k);
    CoreRoundInverse(s);
    CoreRoundInverse(KAD(s, k));
  }

  lemma DecryptAfterEncrypt(x: Block, ts: TweakSchedule)
    ensures BipBipDec(BipBipEnc(x, ts), ts) == x
  {
    var a1 := KAD(x, ts[11]);
    var a2 := KAD(RFSInv(a1), ts[10]);
    var a3 := KAD(RFSInv(a2), ts[9]);
    var a4 := KAD(RFSInv(a3), ts[8]);
    var a5 := KAD(RFCInv(a4), ts[7]);
    var a6 := KAD(RFCInv(a5), ts[6]);
    var a7 := KAD(RFCInv(a6), ts[5]);
    var a8 := KAD(RFCInv(a7), ts[4]);
    var a9 := KAD(RFCInv(a8), ts[3]);
    var a10 := KAD(RFSInv(a9), ts[2]);
    var a11 := KAD(RFSInv(a10), ts[1]);
    ShellStep(a11, ts[0]);
    ShellStep(a10, ts[1]);
    ShellStep(a9, ts[2]);
    CoreStep(a8, ts[3]);
    CoreStep(a7, ts[4]);
    CoreStep(a6, ts[5]);
    CoreStep(a5, ts[6]);
    CoreStep(a4, ts[7]);
    ShellStep(a3, ts[8]);
    ShellStep(a2, ts[9]);
    ShellStep(a1, ts[10]);
    XorTwice(x, ts[11]);
  }

  lemma EncryptAfterDecrypt(x: Block, ts: TweakSchedule)
    ensures BipBipEnc(BipBipDec(x, ts), ts) == x
  {
    var a0 := RFS(KAD(x, ts[0]));
    var a1 := RFS(KAD(a0, ts[1]));
    var a2 := RFS(KAD(a1, ts[2]));
    var a3 := RFC(KAD(a2, ts[3]));
    var a4 := RFC(KAD(a3, ts[4]));
    var a5 := RFC(KAD(a4, ts[5]));
    var a6 := RFC(KAD(a5, ts[6]));
    var a7 := RFC(KAD(a6, ts[7]));
    var a8 := RFS(KAD(a7, ts[8]));
    var a9 := RFS(KAD(a8, ts[9]));
    var a10 := RFS(KAD(a9, ts[10]));
    XorTwice(a10, ts[11]);
    ShellStep(a9, ts[10]);
    ShellStep(a8, ts[9]);
    ShellStep(a7, ts[8]);
    CoreStep(a6, ts[7]);
    CoreStep(a5, ts[6]);
    CoreStep(a4, ts[5]);
    CoreStep(a3, ts[4]);
    CoreStep(a2, ts[3]);
    ShellStep(a1, ts[2]);
    ShellStep(a0, ts[1]);
    ShellStep(x, ts[0]);
  }

  // ------------------------------------------------------------------------
  // Tweak path
  // ------------------------------------------------------------------------

  /** chi on a 53-bit cycle. */
  function CHI(s: TweakWord): TweakWord {
    Xor(s, And(Not(RotateRight(s, 1)), RotateRight(s, 2)))
  }

  /** theta_t. */
  function LML2(s: TweakWord): TweakWord {
    Xor(Xor(s, RotateRight(s, 1)), RotateRight(s, 8))
  }

  /** theta_p: the shift is not cyclic. */
  function LML3(s: TweakWord): TweakWord {
    Xor(s, ShiftRight(s, 1))
  }

  function RGC(s: TweakWord): TweakWord {
    TweakPiSizes();
    CHI(Permute(LML2(Permute(s, PI4)), PI5))
  }

  function RGP(s: TweakWord): TweakWord {
    TweakPiSizes();
    CHI(Permute(LML3(Permute(s, PI4)), PI5))
  }

  lemma TweakPiSizes()
    ensures |PI4| == |PI5| == 53
  {
  }

  lemma PermuteInjective(x: TweakWord, y: TweakWord, pi: seq<nat>, pinv: seq<nat>)
    requires |pi| == 53 && Undoes(pi, pinv)
    requires Permute(x, pi) == Permute(y, pi)
    ensures x == y
  {
    forall j | 0 <= j < 53
      ensures x[j] == y[j]
    {
      assert Permute(x, pi)[pinv[j]] == Permute(y, pi)[pinv[j]];
    }
  }

  lemma {:induction false} LML3Injective(x: TweakWord, y: TweakWord, i: nat)
    requires LML3(x) == LML3(y) && i <= 53
    ensures x[i..] == y[i..]
    decreases 53 - i
  {
    if i < 53 {
      LML3Injective(x, y, i + 1);
      assert LML3(x)[i] == LML3(y)[i];
      assert i < 52 ==> x[i + 1] == x[i + 1..][0] && y[i + 1] == y[i + 1..][0];
      assert x[i..] == [x[i]] + x[i + 1..];
      assert y[i..] == [y[i]] + y[i + 1..];
    }
  }

  /** The next position on the 53-cycle. */
  function Next(i: nat): (j: nat)
    requires i < 53
    ensures j < 53
  {
    if i == 52 then 0 else i + 1
  }

  predicate ChiBit(s: TweakWord, i: nat)
    requires i < 53
  {
    s[i] != (!s[Next(i)] && s[Next(Next(i))])
  }

  lemma ChiBits(s: TweakWord)
    ensures forall i | 0 <= i < 53 :: CHI(s)[i] == ChiBit(s, i)
  {
  }

  ghost predicate SameChi(x: TweakWord, y: TweakWord) {
    forall i | 0 <= i < 53 :: ChiBit(x, i) == ChiBit(y, i)
  }

  /** Two words that agree at two neighbours agree everywhere, going round downwards. */
  lemma {:induction false} AgreementSpreads(x: TweakWord, y: TweakWord, i: nat, k: nat)
    requires SameChi(x, y) && i < 53 && k <= 53
    requires x[i] == y[i] && x[Next(i)] == y[Next(i)]
    ensures forall j | 0 <= j < 53 && (i - k <= j <= i || j >= i - k + 53) :: x[j] == y[j]
    decreases k
  {
    if k > 0 {
      AgreementSpreads(x, y, i, k - 1);
      var p := if i >= k then i - k else i - k + 53;
      assert ChiBit(x, p) == ChiBit(y, p);
    }
  }

  /** Two neighbours where the words differ force the next position to differ too, with the bit flipped. */
  lemma DifferenceStep(x: TweakWord, y: TweakWord, i: nat)
    requires SameChi(x, y) && i < 53
    requires x[i] != y[i] && x[Next(i)] != y[Next(i)]
    ensures x[Next(Next(i))] != y[Next(Next(i))]
    ensures x[Next(Next(i))] != x[Next(i)]
  {
    assert ChiBit(x, i) == ChiBit(y, i);
    assert ChiBit(x, Next(i)) == ChiBit(y, Next(i));
  }

  function Ahead(i: nat, k: nat): (j: nat)
    requires i < 53 && k <= 53
    ensures j < 53
  {
    if i + k < 53 then i + k else i + k - 53
  }

  lemma {:induction false} DifferenceSpreads(x: TweakWord, y: TweakWord, i: nat, k: nat)
    requires SameChi(x, y) && i < 53 && k < 53
    requires x[i] != y[i] && x[Next(i)] != y[Next(i)]
    ensures x[Ahead(i, k)] != y[Ahead(i, k)]
    ensures x[Ahead(i, k + 1)] != y[Ahead(i, k + 1)]
    ensures x[Ahead(i, k + 1)] == (x[Next(i)] == (k % 2 == 0))
    decreases k
  {
    if k > 0 {
      DifferenceSpreads(x, y, i, k - 1);
      DifferenceStep(x, y, Ahead(i, k - 1));
    }
  }

  /** Alternating bits cannot close up on a cycle of odd length. */
  lemma NoNeighboursDiffer(x: TweakWord, y: TweakWord, i: nat)
    requires SameChi(x, y) && i < 53
    ensures x[i] == y[i] || x[Next(i)] == y[Next(i)]
  {
    if x[i] != y[i] && x[Next(i)] != y[Next(i)] {
      DifferenceSpreads(x, y, i, 52);
      DifferenceStep(x, y, Ahead(i, 52));
    }
  }

  lemma {:induction false} StrictAlternation(x: TweakWord, y: TweakWord, k: nat)
    requires SameChi(x, y) && k < 53
    requires forall i | 0 <= i < 53 :: x[i] != y[i] || x[Next(i)] != y[Next(i)]
    ensures (x[k] == y[k]) == ((x[0] == y[0]) == (k % 2 == 0))
  {
    if k > 0 {
      StrictAlternation(x, y, k - 1);
      NoNeighboursDiffer(x, y, k - 1);
    }
  }

  lemma ChiInjective(x: TweakWord, y: TweakWord)
    requires CHI(x) == CHI(y)
    ensures x == y
  {
    ChiBits(x);
    ChiBits(y);
    assert SameChi(x, y);
    if i :| 0 <= i < 53 && x[i] == y[i] && x[Next(i)] == y[Next(i)] {
      AgreementSpreads(x, y, i, 53);
    } else {
      StrictAlternation(x, y, 52);
      NoNeighboursDiffer(x, y, 52);
    }
  }

  /** The words differ at position n of the 53-cycle. */
  predicate Differ(x: TweakWord, y: TweakWord, n: nat) {
    x[n % 53] != y[n % 53]
  }

  /** Their difference is in the kernel of 1 + r^a + r^(8a), r being the rotation by one. */
  ghost predicate Cancels(x: TweakWord, y: TweakWord, a: nat) {
    forall n: nat :: Differ(x, y, n) == (Differ(x, y, n + a) != Differ(x, y, n + 8 * a))
  }

  lemma ThetaTBit(s: TweakWord, i: nat)
    requires i < 53
    ensures LML2(s)[i] == ((s[i] != s[Ahead(i, 1)]) != s[Ahead(i, 8)])
  {
  }

  lemma AheadIsModular(n: nat, k: nat)
    requires k <= 53
    ensures (n + k) % 53 == Ahead(n % 53, k)
  {
  }

  lemma SameThetaCancels(x: TweakWord, y: TweakWord)
    requires LML2(x) == LML2(y)
    ensures Cancels(x, y, 1)
  {
    hide LML2, Ahead;
    forall n: nat
      ensures Differ(x, y, n) == (Differ(x, y, n + 1) != Differ(x, y, n + 8 * 1))
    {
      AheadIsModular(n, 1);
      AheadIsModular(n, 8);
      ThetaTBit(x, n % 53);
      ThetaTBit(y, n % 53);
    }
  }

  /** Squaring: over bits, (1 + r^a + r^(8a))^2 is 1 + r^(2a) + r^(16a). */
  lemma {:induction false} CancelsPower(x: TweakWord, y: TweakWord, k: nat)
    requires Cancels(x, y, 1)
    ensures Cancels(x, y, Pow2(k))
  {
    if k > 0 {
      var a := Pow2(k - 1);
      CancelsPower(x, y, k - 1);
      forall n: nat
        ensures Differ(x, y, n) == (Differ(x, y, n + 2 * a) != Differ(x, y, n + 8 * (2 * a)))
      {
        hide Differ;
        assert Differ(x, y, n + a) == (Differ(x, y, n + a + a) != Differ(x, y, n + a + 8 * a));
        assert Differ(x, y, n + 8 * a) == (Differ(x, y, n + 8 * a + a) != Differ(x, y, n + 8 * a + 8 * a));
      }
    }
  }

  lemma Pow2Of26()
    ensures Pow2(26) == 53 * 1266204 + 52
  {
    assert Pow2(13) == 8192;
    Pow2Sum(13, 13);
  }

  lemma DifferAgain(x: TweakWord, y: TweakWord, n: nat, q: nat)
    ensures Differ(x, y, n + 53 * q) == Differ(x, y, n)
  {
    assert (n + 53 * q) % 53 == n % 53;
  }

  /** 2^26 is -1 modulo 53: the relation also holds backwards, and both together give period 6. */
  lemma PeriodSix(x: TweakWord, y: TweakWord, n: nat)
    requires Cancels(x, y, 1)
    ensures Differ(x, y, n + 6) == Differ(x, y, n)
  {
    hide Differ;
    CancelsPower(x, y, 26);
    Pow2Of26();
    var a := Pow2(26);
    var m := n + 60;
    assert Differ(x, y, m) == (Differ(x, y, m + a) != Differ(x, y, m + 8 * a));
    DifferAgain(x, y, n + 6, 2 + 1266204);
    DifferAgain(x, y, n + 52, 1 + 8 * 1266204 + 7);
    DifferAgain(x, y, n + 7, 1);
    DifferAgain(x, y, n, 1);
    assert Differ(x, y, n + 52) == (Differ(x, y, n + 52 + 1) != Differ(x, y, n + 52 + 8 * 1));
  }

  /** The difference is the same everywhere; as it is the sum of two of itself, it is nothing. */
  lemma LML2Injective(x: TweakWord, y: TweakWord)
    requires LML2(x) == LML2(y)
    ensures x == y
  {
    hide LML2;
    SameThetaCancels(x, y);
    forall n | 0 <= n < 53
      ensures x[n] == y[n]
    {
      NothingDiffers(x, y, n);
      assert n % 53 == n;
    }
  }

  lemma NothingDiffers(x: TweakWord, y: TweakWord, n: nat)
    requires Cancels(x, y, 1)
    ensures !Differ(x, y, n)
  {
    hide Differ;
    assert Differ(x, y, n) == (Differ(x, y, n + 1) != Differ(x, y, n + 8 * 1));
    hide Cancels;
    PeriodSix(x, y, n);
    NextDiffers(x, y, n);
    NextDiffers(x, y, n + 6);
    NextDiffers(x, y, n + 7);
  }

  /** Nine periods of 6 are one position more than the cycle. */
  lemma NextDiffers(x: TweakWord, y: TweakWord, n: nat)
    requires Cancels(x, y, 1)
    ensures Differ(x, y, n + 1) == Differ(x, y, n)
  {
    hide Differ, Cancels;
    PeriodSix(x, y, n);
    PeriodSix(x, y, n + 6);
    PeriodSix(x, y, n + 12);
    PeriodSix(x, y, n + 18);
    PeriodSix(x, y, n + 24);
    PeriodSix(x, y, n + 30);
    PeriodSix(x, y, n + 36);
    PeriodSix(x, y, n + 42);
    PeriodSix(x, y, n + 48);
    DifferAgain(x, y, n + 1, 1);
  }

  lemma RGCInjective(x: TweakWord, y: TweakWord)
    requires RGC(x) == RGC(y)
    ensures x == y
  {
    hide CHI, LML2, Permute, Undoes;
    Pi4InvTable();
    Pi5InvTable();
    TweakPiSizes();
    var x1: TweakWord, y1: TweakWord := Permute(x, PI4), Permute(y, PI4);
    ChiInjective(Permute(LML2(x1), PI5), Permute(LML2(y1), PI5));
    PermuteInjective(LML2(x1), LML2(y1), PI5, PI5_INV);
    LML2Injective(x1, y1);
    PermuteInjective(x, y, PI4, PI4_INV);
  }

  lemma RGPInjective(x: TweakWord, y: TweakWord)
    requires RGP(x) == RGP(y)
    ensures x == y
  {
    Pi4InvTable();
    Pi5InvTable();
    var x1: TweakWord, y1: TweakWord := Permute(x, PI4), Permute(y, PI4);
    ChiInjective(Permute(LML3(x1), PI5), Permute(LML3(y1), PI5));
    PermuteInjective(LML3(x1), LML3(y1), PI5, PI5_INV);
    LML3Injective(x1, y1, 0);
    PermuteInjective(x, y, PI4, PI4_INV);
  }

  // ------------------------------------------------------------------------
  // Round key extraction
  // ------------------------------------------------------------------------

  type Word64 = b: Bits | |b| == 64 witness seq(64, _ => false)

  /** i modulo m, by repeated subtraction. */
  function Rem(i: nat, m: nat): (r: nat)
    requires m > 0
    ensures r < m
  {
    if i < m then i else Rem(i - m, m)
  }

  /** The 64-bit mask of runs of k ones and k zeros: 0x3333..., 0x0f0f..., 0x00ff..., 0x0000ffff.... */
  function Runs(k: nat): (m: Word64)
    requires k > 0
    ensures forall i | 0 <= i < 64 :: m[i] == (Rem(i, 2 * k) < k)
  {
    seq(64, i requires 0 <= i < 64 => Rem(i, 2 * k) < k)
  }

  /** 0x555555555555: the even bits below 48. */
  function EvenBelow48(): (m: Word64)
    ensures forall i | 0 <= i < 64 :: m[i] == (i < 48 && Rem(i, 2) == 0)
  {
    seq(64, i requires 0 <= i < 64 => i < 48 && Rem(i, 2) == 0)
  }

  function Fold(s: Word64, k: nat): Word64
    requires k <= 64
  {
    Or(s, ShiftRight(s, k))
  }

  function DeinterleaveOddBits(w: Word64): Block {
    var s := And(w, EvenBelow48());
    var s := And(Fold(s, 1), Runs(2));
    var s := And(Fold(s, 2), Runs(4));
    var s := And(Fold(s, 4), Runs(8));
    var s := And(Fold(s, 8), Runs(16));
    Fold(s, 16)[..24]
  }

  function Widen(s: TweakWord): Word64 {
    s + seq(11, _ => false)
  }

  function RKE0(s: TweakWord): Block {
    DeinterleaveOddBits(Widen(s))
  }

  function RKE1(s: TweakWord): Block {
    DeinterleaveOddBits(ShiftRight(Widen(s), 1))
  }

  /** Each run of k bits holds the even bits of its block of 2k, packed; the gaps are zero. */
  ghost predicate Packed(w: Word64, s: Word64, k: nat)
    requires k > 0
  {
    forall i | 0 <= i < 64 :: s[i] == (Rem(i, 2 * k) < k && i + Rem(i, 2 * k) < 48 && w[i + Rem(i, 2 * k)])
  }

  ghost predicate IsFold(s: Word64, t: Word64, k: nat)
    requires k > 0
  {
    forall i {:trigger t[i]} | 0 <= i < 64 :: t[i] == (Rem(i, 4 * k) < 2 * k && (s[i] || (i + k < 64 && s[i + k])))
  }

  lemma FoldBits(s: Word64, k: nat)
    requires 0 < k <= 16
    ensures IsFold(s, And(Fold(s, k), Runs(2 * k)), k)
  {
  }

  lemma {:induction false} RunPositions(i: nat, k: nat)
    requires k > 0
    ensures Rem(i, 4 * k) < k ==> Rem(i, 2 * k) == Rem(i, 4 * k) && Rem(i + k, 2 * k) == Rem(i, 4 * k) + k
    ensures k <= Rem(i, 4 * k) < 2 * k ==> Rem(i, 2 * k) == Rem(i, 4 * k) && Rem(i + k, 2 * k) == Rem(i, 4 * k) - k
  {
    if i >= 4 * k {
      RunPositions(i - 4 * k, k);
      assert Rem(i, 2 * k) == Rem(i - 2 * k, 2 * k) == Rem(i - 4 * k, 2 * k);
      assert Rem(i + k, 2 * k) == Rem(i + k - 2 * k, 2 * k) == Rem(i + k - 4 * k, 2 * k);
    }
  }

  lemma FoldPacks(w: Word64, s: Word64, t: Word64, k: nat)
    requires k > 0 && Packed(w, s, k) && IsFold(s, t, k)
    ensures Packed(w, t, 2 * k)
  {
    forall i | 0 <= i < 64
      ensures t[i] == (Rem(i, 4 * k) < 2 * k && i + Rem(i, 4 * k) < 48 && w[i + Rem(i, 4 * k)])
    {
      RunPositions(i, k);
      var r := Rem(i, 4 * k);
      assert t[i] == (r < 2 * k && (s[i] || (i + k < 64 && s[i + k])));
      if k <= r < 2 * k && i + k < 64 {
        assert s[i + k] == (i + r < 48 && w[i + r]);
      }
    }
    assert 2 * (2 * k) == 4 * k;
  }

  lemma LastFold(w: Word64, s: Word64, i: nat)
    requires Packed(w, s, 16) && i < 24
    ensures Fold(s, 16)[i] == w[2 * i]
  {
    if i < 16 {
      assert Rem(i, 32) == i && Rem(i + 16, 32) == i + 16;
    } else {
      assert Rem(i, 32) == i && Rem(i + 16, 32) == i - 16;
    }
  }

  lemma EvenBitsAtLast(w: Word64, s: Word64, out: Block)
    requires Packed(w, s, 16) && out == Fold(s, 16)[..24]
    ensures forall i | 0 <= i < 24 :: out[i] == w[2 * i]
  {
    forall i | 0 <= i < 24
      ensures out[i] == w[2 * i]
    {
      LastFold(w, s, i);
    }
  }

  lemma EvenBitsStart(w: Word64)
    ensures Packed(w, And(w, EvenBelow48()), 1)
  {
  }

  lemma DeinterleaveIsEvenBits(w: Word64)
    ensures forall i | 0 <= i < 24 :: DeinterleaveOddBits(w)[i] == w[2 * i]
  {
    var s0 := And(w, EvenBelow48());
    var s1 := And(Fold(s0, 1), Runs(2));
    var s2 := And(Fold(s1, 2), Runs(4));
    var s3 := And(Fold(s2, 4), Runs(8));
    var s4 := And(Fold(s3, 8), Runs(16));
    EvenBitsStart(w);
    FoldBits(s0, 1);
    FoldPacks(w, s0, s1, 1);
    FoldBits(s1, 2);
    FoldPacks(w, s1, s2, 2);
    FoldBits(s2, 4);
    FoldPacks(w, s2, s3, 4);
    FoldBits(s3, 8);
    FoldPacks(w, s3, s4, 8);
    EvenBitsAtLast(w, s4, DeinterleaveOddBits(w));
  }

  /** The two round keys of a state are exactly its even and its odd bits below 48. */
  lemma RoundKeysSplitState(s: TweakWord)
    ensures forall i | 0 <= i < 24 :: RKE0(s)[i] == s[2 * i]
    ensures forall i | 0 <= i < 24 :: RKE1(s)[i] == s[2 * i + 1]
  {
    DeinterleaveIsEvenBits(Widen(s));
    DeinterleaveIsEvenBits(ShiftRight(Widen(s), 1));
  }

  // ------------------------------------------------------------------------
  // Key and tweak schedules
  // ------------------------------------------------------------------------

  type MasterKey = k: seq<Word64> | |k| == 4 witness seq(4, _ => seq(64, _ => false))
  type TweakKeys = t: seq<TweakWord> | |t| == 6 witness seq(6, _ => seq(53, _ => false))

  datatype KeySchedule = KeySchedule(dataRoundKey: Block, tweakRoundKey: TweakKeys)

  /** Bit p of the 256-bit key. */
  predicate KeyBit(mk: MasterKey, p: nat)
    requires p < 256
  {
    mk[p / 64][p % 64]
  }

  function PowerOf3(n: nat): nat {
    if n == 0 then 1 else 3 * PowerOf3(n - 1)
  }

  /** The position the data-key loop has reached after n steps. */
  function DataKeyPosition(n: nat): (p: nat)
    ensures p < 256
  {
    PowerOf3(n) % 256
  }

  lemma FirstDataKeyPosition()
    ensures DataKeyPosition(0) == 1
  {
  }

  /** The loop multiplies and reduces at every step. */
  lemma NextDataKeyPosition(n: nat)
    ensures DataKeyPosition(n + 1) == DataKeyPosition(n) * 3 % 256
  {
    hide PowerOf3;
    var q, r := PowerOf3(n) / 256, PowerOf3(n) % 256;
    DropMultiple(3 * q, 3 * r);
    assert 3 * PowerOf3(n) == 256 * (3 * q) + 3 * r;
    PowerStep(n);
  }

  lemma PowerStep(n: nat)
    ensures PowerOf3(n + 1) == 3 * PowerOf3(n)
  {
  }

  lemma DropMultiple(a: nat, b: nat)
    ensures (256 * a + b) % 256 == b % 256
  {
  }

  function DataRoundKey(mk: MasterKey): Block {
    seq(24, i requires 0 <= i < 24 => KeyBit(mk, DataKeyPosition(i + 1)))
  }

  /** The tweak-key loop starts at position 53 and walks the key bits cyclically. */
  function TweakKeyPosition(n: nat): (p: nat)
    ensures p < 256
  {
    (53 + n) % 256
  }

  lemma NextTweakKeyPosition(n: nat)
    ensures (TweakKeyPosition(n) + 1) % 256 == TweakKeyPosition(n + 1)
  {
  }

  /** Tweak round key r takes 53 consecutive key bits. */
  function TweakRoundKey(mk: MasterKey, r: nat): TweakWord {
    seq(53, j requires 0 <= j < 53 => KeyBit(mk, TweakKeyPosition(53 * r + j)))
  }

  function KeyScheduleOf(mk: MasterKey): KeySchedule {
    KeySchedule(DataRoundKey(mk), seq(6, r requires 0 <= r < 6 => TweakRoundKey(mk, r)))
  }

  method GenDataRoundKey(mk: MasterKey) returns (key: Block)
    ensures key == DataRoundKey(mk)
  {
    hide KeyBit, DataKeyPosition;
    var bits: Bits := [];
    var position := 1;
    FirstDataKeyPosition();
    for i := 0 to 24
      invariant position == DataKeyPosition(i) && |bits| == i
      invariant forall k | 0 <= k < i :: bits[k] == KeyBit(mk, DataKeyPosition(k + 1))
    {
      NextDataKeyPosition(i);
      position := position * 3 % 256;
      bits := bits + [KeyBit(mk, position)];
    }
    key := bits;
  }

  method GenTweakRoundKey(mk: MasterKey, r: nat, start: nat) returns (key: TweakWord, position: nat)
    requires start == TweakKeyPosition(53 * r)
    ensures key == TweakRoundKey(mk, r) && position == TweakKeyPosition(53 * (r + 1))
  {
    hide KeyBit, TweakKeyPosition;
    var bits: Bits := [];
    position := start;
    for j := 0 to 53
      invariant position == TweakKeyPosition(53 * r + j) && |bits| == j
      invariant forall k | 0 <= k < j :: bits[k] == KeyBit(mk, TweakKeyPosition(53 * r + k))
    {
      bits := bits + [KeyBit(mk, position)];
      NextTweakKeyPosition(53 * r + j);
      position := (position + 1) % 256;
    }
    key := bits;
  }

  method GenKeySchedule(mk: MasterKey) returns (ks: KeySchedule)
    ensures ks == KeyScheduleOf(mk)
  {
    hide DataRoundKey, TweakRoundKey;
    var dataKey := GenDataRoundKey(mk);
    var position := 53;
    var tweakKeys: seq<TweakWord> := [];
    for i := 0 to 6
      invariant position == TweakKeyPosition(53 * i) && |tweakKeys| == i
      invariant forall r | 0 <= r < i :: tweakKeys[r] == TweakRoundKey(mk, r)
    {
      var key;
      key, position := GenTweakRoundKey(mk, i, position);
      tweakKeys := tweakKeys + [key];
    }
    ks := KeySchedule(dataKey, tweakKeys);
  }

  function TwkSc(padded: TweakWord, ks: KeySchedule): TweakSchedule {
    var t1 := CHI(Xor(padded, ks.tweakRoundKey[0]));
    var t2 := RGC(Xor(t1, ks.tweakRoundKey[1]));
    var t3 := RGP(RGC(Xor(t2, ks.tweakRoundKey[2])));
    var t4 := RGC(Xor(t3, ks.tweakRoundKey[3]));
    var t5 := RGP(t4);
    var t6 := RGC(Xor(t5, ks.tweakRoundKey[4]));
    var t7 := RGP(t6);
    var t8 := RGC(Xor(t7, ks.tweakRoundKey[5]));
    [ks.dataRoundKey, RKE0(t1), RKE1(t1), RKE0(t2), RKE1(t2), RKE0(t3),
     RKE0(t4), RKE0(t5), RKE0(t6), RKE0(t7), RKE0(t8), RKE1(t8)]
  }

  /** The 40-bit tweak, a one below it, and twelve zeros below that. */
  function PadTweak(tweak: nat): TweakWord {
    seq(12, _ => false) + [true] + FromNat(tweak % 0x100_0000_0000, 40)
  }

  // ------------------------------------------------------------------------
  // The cipher on numbers, and the object that caches the schedule
  // ------------------------------------------------------------------------

  type uint24 = x: nat | x < 0x100_0000

  lemma Pow2Of24()
    ensures Pow2(24) == 0x100_0000
  {
    assert Pow2(12) == 0x1000;
    assert Pow2(20) == 0x10_0000;
  }

  function EncryptWith(ks: KeySchedule, plaintext: uint24, tweak: uint64): uint24 {
    hide TwkSc, BipBipEnc;
    Pow2Of24();
    ToNat(BipBipEnc(FromNat(plaintext, 24), TwkSc(PadTweak(tweak), ks)))
  }

  function DecryptWith(ks: KeySchedule, ciphertext: uint24, tweak: uint64): uint24 {
    hide TwkSc, BipBipDec;
    Pow2Of24();
    ToNat(BipBipDec(FromNat(ciphertext, 24), TwkSc(PadTweak(tweak), ks)))
  }

  /** For every key, tweak and 24-bit block, each direction undoes the other. */
  lemma CipherInverse(ks: KeySchedule, x: uint24, tweak: uint64)
    ensures DecryptWith(ks, EncryptWith(ks, x, tweak), tweak) == x
    ensures EncryptWith(ks, DecryptWith(ks, x, tweak), tweak) == x
  {
    hide TwkSc, BipBipEnc, BipBipDec;
    var ts := TwkSc(PadTweak(tweak), ks);
    var b: Block := FromNat(x, 24);
    Pow2Of24();
    FromNatToNat(x, 24);
    ToNatFromNat(BipBipEnc(b, ts));
    ToNatFromNat(BipBipDec(b, ts));
    DecryptAfterEncrypt(b, ts);
    EncryptAfterDecrypt(b, ts);
  }

  datatype DecryptionPair = DecryptionPair(tweak: uint64, ciphertextIn: uint24, plaintextOut: uint24)

  class PointerCipher24b {
    var keySchedule: KeySchedule
    var tweak: uint64
    var tweakSchedule: TweakSchedule
    var keyInitialized: bool
    var previousDecryption: DecryptionPair

    /** Once a key is loaded, the cached schedule is the one of the cached tweak. */
    ghost predicate Valid()
      reads this
    {
      keyInitialized ==> tweakSchedule == TwkSc(PadTweak(tweak), keySchedule)
    }

    constructor ()
      ensures Valid() && !keyInitialized
    {
      keyInitialized := false;
      keySchedule := KeySchedule(seq(24, _ => false), seq(6, _ => seq(53, _ => false)));
      tweak := 0;
      tweakSchedule := seq(12, _ => seq(24, _ => false));
      previousDecryption := DecryptionPair(0, 0, 0);
    }

    method InitKey(mk: MasterKey)
      modifies this
      ensures Valid() && keyInitialized && keySchedule == KeyScheduleOf(mk) && tweak == 0
      ensures previousDecryption == DecryptionPair(0, 0, DecryptWith(KeyScheduleOf(mk), 0, 0))
    {
      hide TwkSc, BipBipDec;
      keySchedule := GenKeySchedule(mk);
      tweak := 0;
      tweakSchedule := TwkSc(PadTweak(tweak), keySchedule);
      Pow2Of24();
      previousDecryption := DecryptionPair(tweak, 0, ToNat(BipBipDec(FromNat(0, 24), tweakSchedule)));
      keyInitialized := true;
    }

    method RegenerateTweakScheduleForNewTweak(newTweak: uint64)
      requires Valid() && keyInitialized
      modifies this`tweak, this`tweakSchedule
      ensures Valid() && tweak == newTweak
    {
      hide TwkSc;
      if newTweak != tweak {
        tweak := newTweak;
        tweakSchedule := TwkSc(PadTweak(newTweak), keySchedule);
      }
    }

    method Encrypt(plaintext: uint24, newTweak: uint64) returns (c: uint24)
      requires Valid() && keyInitialized
      modifies this`tweak, this`tweakSchedule
      ensures Valid() && tweak == newTweak
      ensures c == EncryptWith(keySchedule, plaintext, newTweak)
      ensures DecryptWith(keySchedule, c, newTweak) == plaintext
    {
      hide TwkSc, BipBipEnc, BipBipDec;
      RegenerateTweakScheduleForNewTweak(newTweak);
      Pow2Of24();
      c := ToNat(BipBipEnc(FromNat(plaintext, 24), tweakSchedule));
      CipherInverse(keySchedule, plaintext, newTweak);
    }

    method Decrypt(ciphertext: uint24, newTweak: uint64) returns (p: uint24)
      requires Valid() && keyInitialized
      modifies this`tweak, this`tweakSchedule
      ensures Valid() && tweak == newTweak
      ensures p == DecryptWith(keySchedule, ciphertext, newTweak)
      ensures EncryptWith(keySchedule, p, newTweak) == ciphertext
    {
      hide TwkSc, BipBipEnc, BipBipDec;
      RegenerateTweakScheduleForNewTweak(newTweak);
      Pow2Of24();
      p := ToNat(BipBipDec(FromNat(ciphertext, 24), tweakSchedule));
      CipherInverse(keySchedule, ciphertext, newTweak);
    }
  }

  /** Any interleaving of calls through one object: what a call returns depends on
      the key, its own block and its own tweak, never on the calls before it. */
  datatype CipherCall = EncryptCall(block: uint24, tweak: uint64) | DecryptCall(block: uint24, tweak: uint64)

  function Answer(ks: KeySchedule, call: CipherCall): uint24 {
    match call
    case EncryptCall(b, t) => EncryptWith(ks, b, t)
    case DecryptCall(b, t) => DecryptWith(ks, b, t)
  }

  method Session(mk: MasterKey, calls: seq<CipherCall>) returns (answers: seq<uint24>)
    ensures |answers| == |calls|
    ensures forall i | 0 <= i < |calls| :: answers[i] == Answer(KeyScheduleOf(mk), calls[i])
  {
    hide TwkSc, BipBipEnc, BipBipDec, EncryptWith, DecryptWith, KeyScheduleOf, PadTweak;
    var cipher := new PointerCipher24b();
    cipher.InitKey(mk);
    answers := [];
    for i := 0 to |calls|
      invariant cipher.Valid() && cipher.keyInitialized && cipher.keySchedule == KeyScheduleOf(mk)
      invariant |answers| == i
      invariant forall j | 0 <= j < i :: answers[j] == Answer(KeyScheduleOf(mk), calls[j])
    {
      var a;
      match calls[i] {
        case EncryptCall(b, t) => a := cipher.Encrypt(b, t);
        case DecryptCall(b, t) => a := cipher.Decrypt(b, t);
      }
      answers := answers + [a];
    }
  }
}
