/** What the rounds of BipBip compute, bit by bit, and what its keys and tweaks do: every round
    key, every key bit and the tweak matter (crypto/bipbip.cpp). */
module BipBipKeys {
  import opened Words
  import opened BipBip

  // ------------------------------------------------------------------------
  // The rounds, bit by bit
  // ------------------------------------------------------------------------

  /** Bit j after the S-box layer: bit j mod 6 of the entry that the six bits of its group name. */
  predicate SubstitutedBit(table: seq<nat>, s: Block, j: nat)
    requires |table| == 64 && j < 24
  {
    var g := j / 6;
    assert Pow2(6) == 64;
    NatBit(table[ToNat(s[6 * g..6 * g + 6])], j % 6)
  }

  lemma SboxLayerBit(table: seq<nat>, s: Block, j: nat)
    requires |table| == 64 && j < 24
    ensures SboxLayer(table, s)[j] == SubstitutedBit(table, s, j)
  {
    var g := j / 6;
    assert Pow2(6) == 64;
    var six := s[6 * g..6 * g + 6];
    FromNatBit(table[ToNat(six)], 6, j % 6);
    GroupBit(table, s, g, j % 6);
  }

  lemma GroupBit(table: seq<nat>, s: Block, g: nat, k: nat)
    requires |table| == 64 && g < 4 && k < 6
    ensures SboxLayer(table, s)[6 * g + k] == Substitute(table, s[6 * g..6 * g + 6])[k]
  {
    hide Substitute;
    assert s[0..6] == s[..6] && s[18..24] == s[18..];
    if g == 0 {
    } else if g == 1 {
    } else if g == 2 {
    } else {
    }
  }

  lemma TableRange()
    ensures |SBOX| == 64
    ensures |PI1| == |PI2| == |PI3| == 24
    ensures forall i | 0 <= i < 24 :: PI1[i] < 24 && PI2[i] < 24 && PI3[i] < 24
  {
    SboxTable();
    PiTables();
    Pi1Table();
    Pi2Table();
    Pi3Table();
    Pi1InvTable();
    Pi2InvTable();
    Pi3InvTable();
  }

  /** Bit i of a core round: the sum of three S-box output bits. */
  predicate CoreBit(s: Block, i: nat)
    requires i < 24
  {
    TableRange();
    var j := PI2[i];
    (SubstitutedBit(SBOX, s, PI1[j]) != SubstitutedBit(SBOX, s, PI1[Above(j, 2)])) !=
    SubstitutedBit(SBOX, s, PI1[Above(j, 12)])
  }

  /** Bit i of a shell round: one S-box output bit. */
  predicate ShellBit(s: Block, i: nat)
    requires i < 24
  {
    TableRange();
    SubstitutedBit(SBOX, s, PI3[i])
  }

  lemma CoreRoundBits(s: Block, i: nat)
    requires i < 24
    ensures RFC(s)[i] == CoreBit(s, i)
  {
    hide SboxLayer, SubstitutedBit, LML1;
    TableRange();
    var u := SboxLayer(SBOX, s);
    var v: Block := Permute(u, PI1);
    var j := PI2[i];
    ThetaBits(v);
    assert RFC(s)[i] == LML1(v)[j] == ThetaBit(v, j);
    SboxLayerBit(SBOX, s, PI1[j]);
    SboxLayerBit(SBOX, s, PI1[Above(j, 2)]);
    SboxLayerBit(SBOX, s, PI1[Above(j, 12)]);
  }

  lemma ShellRoundBits(s: Block, i: nat)
    requires i < 24
    ensures RFS(s)[i] == ShellBit(s, i)
  {
    hide SboxLayer, SubstitutedBit;
    TableRange();
    SboxLayerBit(SBOX, s, PI3[i]);
  }

  // ------------------------------------------------------------------------
  // Twelve round keys around eleven rounds
  // ------------------------------------------------------------------------

  /** The decrypted block after n rounds: round i adds its key and is a core round for i from 3
      to 7, a shell round otherwise. */
  function Rounds(x: Block, ts: TweakSchedule, n: nat): Block
    requires n <= 11
  {
    if n == 0 then x
    else
      var s := Xor(Rounds(x, ts, n - 1), ts[n - 1]);
      if 4 <= n <= 8 then RFC(s) else RFS(s)
  }

  lemma DecryptionIsRounds(x: Block, ts: TweakSchedule)
    ensures BipBipDec(x, ts) == Xor(Rounds(x, ts, 11), ts[11])
  {
    hide RFC, RFS, Xor, Rounds;
    RoundStep(x, ts, 1);
    RoundStep(x, ts, 2);
    RoundStep(x, ts, 3);
    RoundStep(x, ts, 4);
    RoundStep(x, ts, 5);
    RoundStep(x, ts, 6);
    RoundStep(x, ts, 7);
    RoundStep(x, ts, 8);
    RoundStep(x, ts, 9);
    RoundStep(x, ts, 10);
    RoundStep(x, ts, 11);
  }

  lemma RoundStep(x: Block, ts: TweakSchedule, n: nat)
    requires 1 <= n <= 11
    ensures Rounds(x, ts, 0) == x
    ensures var s := Xor(Rounds(x, ts, n - 1), ts[n - 1]);
      Rounds(x, ts, n) == if 4 <= n <= 8 then RFC(s) else RFS(s)
  {
    hide RFC, RFS, Xor;
  }

  lemma XorKeysDiffer(x: Bits, k: Bits, l: Bits)
    requires |x| == |k| == |l| && k != l
    ensures Xor(x, k) != Xor(x, l)
  {
    var i :| 0 <= i < |k| && k[i] != l[i];
    assert Xor(x, k)[i] != Xor(x, l)[i];
  }

  lemma RoundsInjective(x: Block, y: Block)
    ensures RFC(x) == RFC(y) ==> x == y
    ensures RFS(x) == RFS(y) ==> x == y
  {
    CoreRoundInverse(x);
    CoreRoundInverse(y);
    ShellRoundInverse(x);
    ShellRoundInverse(y);
  }

  /** Two schedules that differ in round key r alone agree before it and differ ever after. */
  lemma {:induction false} RoundsDiffer(x: Block, ts: TweakSchedule, us: TweakSchedule, r: nat, n: nat)
    requires r < 12 && n <= 11 && ts[r] != us[r]
    requires forall i | 0 <= i < 12 && i != r :: ts[i] == us[i]
    ensures n <= r ==> Rounds(x, ts, n) == Rounds(x, us, n)
    ensures n > r ==> Rounds(x, ts, n) != Rounds(x, us, n)
  {
    hide RFC, RFS, Xor;
    if n > 0 {
      RoundsDiffer(x, ts, us, r, n - 1);
      var s, t := Rounds(x, ts, n - 1), Rounds(x, us, n - 1);
      if n - 1 == r {
        XorKeysDiffer(s, ts[r], us[r]);
      } else if n - 1 > r && Xor(s, ts[n - 1]) == Xor(t, us[n - 1]) {
        XorCancels(s, t, ts[n - 1]);
      }
      RoundsInjective(Xor(s, ts[n - 1]), Xor(t, us[n - 1]));
    }
  }

  /** Every round key matters for every block: changing any one of the twelve changes what the
      block decrypts and what it encrypts to. */
  lemma RoundKeyMatters(x: Block, ts: TweakSchedule, us: TweakSchedule, r: nat)
    requires r < 12 && ts[r] != us[r]
    requires forall i | 0 <= i < 12 && i != r :: ts[i] == us[i]
    ensures BipBipDec(x, ts) != BipBipDec(x, us)
    ensures BipBipEnc(x, ts) != BipBipEnc(x, us)
  {
    hide BipBipDec, BipBipEnc, Rounds, Xor;
    DecryptionDiffers(x, ts, us, r);
    var y := BipBipEnc(x, ts);
    DecryptAfterEncrypt(x, ts);
    DecryptAfterEncrypt(x, us);
    DecryptionDiffers(y, ts, us, r);
  }

  lemma DecryptionDiffers(x: Block, ts: TweakSchedule, us: TweakSchedule, r: nat)
    requires r < 12 && ts[r] != us[r]
    requires forall i | 0 <= i < 12 && i != r :: ts[i] == us[i]
    ensures BipBipDec(x, ts) != BipBipDec(x, us)
  {
    hide BipBipDec, Rounds, Xor;
    DecryptionIsRounds(x, ts);
    DecryptionIsRounds(x, us);
    RoundsDiffer(x, ts, us, r, 11);
    if r == 11 {
      XorKeysDiffer(Rounds(x, ts, 11), ts[11], us[11]);
    } else if Xor(Rounds(x, ts, 11), ts[11]) == Xor(Rounds(x, us, 11), us[11]) {
      XorCancels(Rounds(x, ts, 11), Rounds(x, us, 11), ts[11]);
    }
  }

  // ------------------------------------------------------------------------
  // The tweak path, bit by bit
  // ------------------------------------------------------------------------

  /** chi of the word whose bits are given. */
  predicate ChiOf(a: bool, b: bool, c: bool) {
    a != (!b && c)
  }

  /** Bit i before chi in a G round: the sum of three bits of the state. */
  predicate MixedBit(s: TweakWord, i: nat)
    requires i < 53
  {
    (s[37 * i % 53] != s[(37 * i + 13) % 53]) != s[(37 * i + 104) % 53]
  }

  /** Bit i before chi in a G' round: the Gray code, whose last bit has no neighbour. */
  predicate GrayBit(s: TweakWord, i: nat)
    requires i < 53
  {
    s[37 * i % 53] != (11 * i % 53 != 52 && s[(37 * i + 13) % 53])
  }

  /** Two strides in a row: PI5 by 11, then PI4 by 13, from k places further on. */
  lemma TwoStrides(i: nat, k: nat)
    requires i < 53 && k <= 8
    ensures |PI4| == |PI5| == 53 && PI5[i] == 11 * i % 53 && PI4[Ahead(PI5[i], k)] == (37 * i + 13 * k) % 53
  {
    hide PI4, PI5;
    StrideTables();
    StrideSum(i, k);
  }

  lemma PermutedBit(s: TweakWord, i: nat, k: nat)
    requires i < 53 && k <= 8
    ensures |PI4| == |PI5| == 53 && PI5[i] == 11 * i % 53
    ensures Permute(s, PI4)[Ahead(PI5[i], k)] == s[(37 * i + 13 * k) % 53]
  {
    hide PI4, PI5, Permute, Ahead;
    TwoStrides(i, k);
  }

  lemma StrideSum(i: nat, k: nat)
    requires i < 53 && k <= 8
    ensures 13 * Ahead(11 * i % 53, k) % 53 == (37 * i + 13 * k) % 53
  {
    var j, q := 11 * i % 53, 11 * i / 53;
    if j + k < 53 {
      SameRest(13 * (j + k), 37 * i + 13 * k, 2 * i - 13 * q);
    } else {
      SameRest(13 * (j + k - 53), 37 * i + 13 * k, 2 * i - 13 * q - 13);
    }
  }

  lemma GRoundBits(s: TweakWord, i: nat)
    requires i < 53
    ensures RGC(s)[i] == ChiOf(MixedBit(s, i), MixedBit(s, Next(i)), MixedBit(s, Next(Next(i))))
  {
    hide CHI, LML2;
    TweakPiSizes();
    var v: TweakWord := Permute(s, PI4);
    var u: TweakWord := Permute(LML2(v), PI5);
    ChiBits(u);
    MixedAt(s, i);
    MixedAt(s, Next(i));
    MixedAt(s, Next(Next(i)));
  }

  lemma MixedAt(s: TweakWord, i: nat)
    requires i < 53
    ensures (TweakPiSizes(); Permute(LML2(Permute(s, PI4)), PI5)[i]) == MixedBit(s, i)
  {
    hide LML2, PI4, PI5, Permute;
    TweakPiSizes();
    PermutedBit(s, i, 0);
    PermutedBit(s, i, 1);
    PermutedBit(s, i, 8);
    ThetaTBit(Permute(s, PI4), PI5[i]);
  }

  lemma GrayLayerBit(s: TweakWord, i: nat)
    requires i < 53
    ensures LML3(s)[i] == (s[i] != (i < 52 && s[i + 1]))
  {
  }

  lemma GrayAt(s: TweakWord, i: nat)
    requires i < 53
    ensures (TweakPiSizes(); Permute(LML3(Permute(s, PI4)), PI5)[i]) == GrayBit(s, i)
  {
    hide LML3, PI4, PI5, Permute;
    TweakPiSizes();
    PermutedBit(s, i, 0);
    PermutedBit(s, i, 1);
    GrayLayerBit(Permute(s, PI4), PI5[i]);
  }

  lemma GPrimeRoundBits(s: TweakWord, i: nat)
    requires i < 53
    ensures RGP(s)[i] == ChiOf(GrayBit(s, i), GrayBit(s, Next(i)), GrayBit(s, Next(Next(i))))
  {
    hide CHI, LML3;
    TweakPiSizes();
    var v: TweakWord := Permute(s, PI4);
    var u: TweakWord := Permute(LML3(v), PI5);
    ChiBits(u);
    GrayAt(s, i);
    GrayAt(s, Next(i));
    GrayAt(s, Next(Next(i)));
  }

  // ------------------------------------------------------------------------
  // The tweak schedule
  // ------------------------------------------------------------------------

  /** The eight states of the tweak path that round keys are taken from. */
  function TweakState(padded: TweakWord, ks: KeySchedule, n: nat): TweakWord
    requires 1 <= n <= 8
  {
    if n == 1 then CHI(Xor(padded, ks.tweakRoundKey[0]))
    else
      var s := TweakState(padded, ks, n - 1);
      if n == 2 then RGC(Xor(s, ks.tweakRoundKey[1]))
      else if n == 3 then RGP(RGC(Xor(s, ks.tweakRoundKey[2])))
      else if n == 4 then RGC(Xor(s, ks.tweakRoundKey[3]))
      else if n == 6 then RGC(Xor(s, ks.tweakRoundKey[4]))
      else if n == 8 then RGC(Xor(s, ks.tweakRoundKey[5]))
      else RGP(s)
  }

  /** The state that round key r, for r from 1 to 11, is taken from, and whether it is its odd bits. */
  function StateOfRound(r: nat): (n: nat)
    requires 1 <= r <= 11
    ensures 1 <= n <= 8
  {
    if r <= 2 then 1 else if r <= 4 then 2 else if r == 11 then 8 else r - 2
  }

  predicate OddBits(r: nat) {
    r == 2 || r == 4 || r == 11
  }

  lemma StateStep(padded: TweakWord, ks: KeySchedule, n: nat)
    requires 2 <= n <= 8
    ensures var s := TweakState(padded, ks, n - 1);
      TweakState(padded, ks, n) ==
      if n == 2 then RGC(Xor(s, ks.tweakRoundKey[1]))
      else if n == 3 then RGP(RGC(Xor(s, ks.tweakRoundKey[2])))
      else if n == 4 then RGC(Xor(s, ks.tweakRoundKey[3]))
      else if n == 6 then RGC(Xor(s, ks.tweakRoundKey[4]))
      else if n == 8 then RGC(Xor(s, ks.tweakRoundKey[5]))
      else RGP(s)
  {
    hide RGC, RGP, CHI, Xor;
  }

  lemma ScheduleOfStates(padded: TweakWord, ks: KeySchedule, r: nat)
    requires 1 <= r <= 11
    ensures var s := TweakState(padded, ks, StateOfRound(r));
      TwkSc(padded, ks)[r] == if OddBits(r) then RKE1(s) else RKE0(s)
  {
    hide RGC, RGP, CHI, Xor, RKE0, RKE1, TweakState;
    FirstState(padded, ks);
    StateStep(padded, ks, 2);
    StateStep(padded, ks, 3);
    StateStep(padded, ks, 4);
    StateStep(padded, ks, 5);
    StateStep(padded, ks, 6);
    StateStep(padded, ks, 7);
    StateStep(padded, ks, 8);
  }

  lemma FirstState(padded: TweakWord, ks: KeySchedule)
    ensures TweakState(padded, ks, 1) == CHI(Xor(padded, ks.tweakRoundKey[0]))
  {
    hide CHI, Xor;
  }

  /** Round key 0 is the data key; bit i of round key r is an even or odd bit of its state. */
  lemma ScheduleBits(padded: TweakWord, ks: KeySchedule, r: nat, i: nat)
    requires r < 12 && i < 24
    ensures r == 0 ==> TwkSc(padded, ks)[r] == ks.dataRoundKey
    ensures r > 0 ==>
      TwkSc(padded, ks)[r][i] == TweakState(padded, ks, StateOfRound(r))[if OddBits(r) then 2 * i + 1 else 2 * i]
  {
    if r > 0 {
      hide TweakState, TwkSc, RKE0, RKE1;
      ScheduleOfStates(padded, ks, r);
      RoundKeysSplitState(TweakState(padded, ks, StateOfRound(r)));
    }
  }

  /** Every state is an injective function of the padded tweak. */
  lemma {:induction false} StatesInjective(x: TweakWord, y: TweakWord, ks: KeySchedule, n: nat)
    requires 1 <= n <= 8 && x != y
    ensures TweakState(x, ks, n) != TweakState(y, ks, n)
  {
    hide RGC, RGP, CHI, Xor, TweakState;
    if n == 1 {
      FirstState(x, ks);
      FirstState(y, ks);
      AddedKey(x, y, ks.tweakRoundKey[0]);
      var a, b := Xor(x, ks.tweakRoundKey[0]), Xor(y, ks.tweakRoundKey[0]);
      if CHI(a) == CHI(b) {
        ChiInjective(a, b);
      }
    } else {
      StatesInjective(x, y, ks, n - 1);
      StateStep(x, ks, n);
      StateStep(y, ks, n);
      var s, t := TweakState(x, ks, n - 1), TweakState(y, ks, n - 1);
      var k := ks.tweakRoundKey[if n <= 4 then n - 1 else if n <= 6 then 4 else 5];
      AddedKey(s, t, k);
      GRoundsInjective(Xor(s, k), Xor(t, k));
      GRoundsInjective(RGC(Xor(s, k)), RGC(Xor(t, k)));
      GRoundsInjective(s, t);
    }
  }

  lemma AddedKey(x: TweakWord, y: TweakWord, k: TweakWord)
    requires x != y
    ensures Xor(x, k) != Xor(y, k)
  {
    hide Xor;
    if Xor(x, k) == Xor(y, k) {
      XorCancels(x, y, k);
    }
  }

  lemma GRoundsInjective(x: TweakWord, y: TweakWord)
    ensures x != y ==> RGC(x) != RGC(y) && RGP(x) != RGP(y)
  {
    hide RGC, RGP;
    if RGC(x) == RGC(y) {
      RGCInjective(x, y);
    }
    if RGP(x) == RGP(y) {
      RGPInjective(x, y);
    }
  }

  // ------------------------------------------------------------------------
  // The tweak
  // ------------------------------------------------------------------------

  /** The padded tweak as a number: the 40 low bits of the tweak, a one, twelve zeros. */
  lemma PaddedNumber(tweak: nat)
    ensures ToNat(PadTweak(tweak)) == (2 * (tweak % 0x100_0000_0000) + 1) * 0x1000
  {
    hide ToNat, FromNat, Pow2;
    var t := tweak % 0x100_0000_0000;
    var low: Bits := seq(12, _ => false) + [true];
    ToNatConcat(low, FromNat(t, 40));
    Pow2Of40();
    FromNatToNat(t, 40);
    PaddingNumber();
  }

  /** What stands below the tweak: a one above twelve zeros. */
  lemma PaddingNumber()
    ensures ToNat(seq(12, _ => false) + [true]) == 0x1000
    ensures Pow2(|seq(12, _ => false) + [true]|) == 0x2000
  {
    ToNatConcat(seq(12, _ => false), [true]);
    ZerosAreZero(seq(12, _ => false));
    assert Pow2(12) == 0x1000 && Pow2(13) == 0x2000;
    assert ToNat([true]) == 1;
  }

  lemma Pow2Of40()
    ensures Pow2(40) == 0x100_0000_0000
  {
    assert Pow2(10) == 0x400;
    Pow2Sum(10, 10);
    Pow2Sum(20, 20);
  }

  lemma {:induction false} ZerosAreZero(z: Bits)
    requires forall i | 0 <= i < |z| :: !z[i]
    ensures ToNat(z) == 0
  {
    if z != [] {
      ZerosAreZero(z[1..]);
    }
  }

  /** Bit j of the tweak is bit 13 + j of the padded tweak; the bits below are the same for all. */
  lemma PaddedBit(tweak: nat, j: nat)
    requires j < 53
    ensures PadTweak(tweak)[j] == (j == 12 || (j > 12 && NatBit(tweak % 0x100_0000_0000, j - 13)))
  {
    if j > 12 {
      FromNatBit(tweak % 0x100_0000_0000, 40, j - 13);
    }
  }

  /** Distinct 40-bit tweaks are padded to distinct words, and all eight states of the schedule
      are distinct. */
  lemma TweaksGiveStates(t: nat, u: nat, ks: KeySchedule, n: nat)
    requires t % 0x100_0000_0000 != u % 0x100_0000_0000 && 1 <= n <= 8
    ensures TweakState(PadTweak(t), ks, n) != TweakState(PadTweak(u), ks, n)
  {
    hide TweakState, PadTweak;
    PaddedNumber(t);
    PaddedNumber(u);
    StatesInjective(PadTweak(t), PadTweak(u), ks, n);
  }

  /** Under every key distinct 40-bit tweaks have distinct schedules. */
  lemma TweakMatters(t: nat, u: nat, ks: KeySchedule)
    requires t % 0x100_0000_0000 != u % 0x100_0000_0000
    ensures TwkSc(PadTweak(t), ks) != TwkSc(PadTweak(u), ks)
  {
    hide TweakState, PadTweak, TwkSc;
    var x, y := PadTweak(t), PadTweak(u);
    TweaksGiveStates(t, u, ks, 1);
    if TwkSc(x, ks) == TwkSc(y, ks) {
      SameScheduleSameState(x, y, ks);
    }
  }

  /** Round keys 1 to 4 hold 48 bits of each of the first two states, which leaves no room for
      a difference in the first. */
  lemma SameScheduleSameState(x: TweakWord, y: TweakWord, ks: KeySchedule)
    requires TwkSc(x, ks) == TwkSc(y, ks)
    ensures TweakState(x, ks, 1) == TweakState(y, ks, 1)
  {
    hide TweakState, TwkSc, RGC, Xor;
    var s, t, k := TweakState(x, ks, 1), TweakState(y, ks, 1), ks.tweakRoundKey[1];
    SameLowBits(x, y, ks, 1);
    SameLowBits(x, y, ks, 2);
    StateStep(x, ks, 2);
    StateStep(y, ks, 2);
    assert forall i | 0 <= i < 48 :: Xor(s, k)[i] == Xor(t, k)[i];
    LowBitsDecide(Xor(s, k), Xor(t, k));
    XorCancels(s, t, k);
  }

  lemma SameLowBits(x: TweakWord, y: TweakWord, ks: KeySchedule, n: nat)
    requires 1 <= n <= 2 && TwkSc(x, ks) == TwkSc(y, ks)
    ensures forall i | 0 <= i < 48 :: TweakState(x, ks, n)[i] == TweakState(y, ks, n)[i]
  {
    hide TweakState, TwkSc;
    forall i | 0 <= i < 48
      ensures TweakState(x, ks, n)[i] == TweakState(y, ks, n)[i]
    {
      var r := if i % 2 == 0 then 2 * n - 1 else 2 * n;
      ScheduleBits(x, ks, r, i / 2);
      ScheduleBits(y, ks, r, i / 2);
    }
  }

  /** A G round spreads the top five bits over its low 48: words that agree below bit 48 before
      and after it are the same. */
  lemma LowBitsDecide(s: TweakWord, t: TweakWord)
    requires forall i | 0 <= i < 48 :: s[i] == t[i]
    requires forall i | 0 <= i < 48 :: RGC(s)[i] == RGC(t)[i]
    ensures s == t
  {
    hide RGC;
    TopBit(s, t, 21, 48);
    TopBit(s, t, 40, 49);
    TopBit(s, t, 1, 50);
    TopBit(s, t, 44, 51);
    TopBit(s, t, 34, 52);
  }

  /** The three bits that bit i before chi is the sum of lie below bit 48. */
  predicate FromLowBits(i: nat) {
    37 * i % 53 < 48 && (37 * i + 13) % 53 < 48 && (37 * i + 104) % 53 < 48
  }

  /** A bit of a G round shows bit p of the state, when all other bits it depends on are low. */
  lemma TopBit(s: TweakWord, t: TweakWord, i: nat, p: nat)
    requires i < 51 && p < 53 && FromLowBits(i + 1) && FromLowBits(i + 2) && (37 * i + 104) % 53 < 48
    requires (37 * i % 53 == p && (37 * i + 13) % 53 < 48) || (37 * i % 53 < 48 && (37 * i + 13) % 53 == p)
    requires forall j | 0 <= j < 48 :: s[j] == t[j]
    requires RGC(s)[i] == RGC(t)[i]
    ensures s[p] == t[p]
  {
    hide RGC;
    SameMixed(s, t, i + 1);
    SameMixed(s, t, i + 2);
    MixedShows(s, t, i);
  }

  lemma SameMixed(s: TweakWord, t: TweakWord, i: nat)
    requires i < 53 && FromLowBits(i)
    requires forall j | 0 <= j < 48 :: s[j] == t[j]
    ensures MixedBit(s, i) == MixedBit(t, i)
  {
  }

  lemma MixedShows(s: TweakWord, t: TweakWord, i: nat)
    requires i < 51 && RGC(s)[i] == RGC(t)[i]
    requires MixedBit(s, i + 1) == MixedBit(t, i + 1) && MixedBit(s, i + 2) == MixedBit(t, i + 2)
    ensures MixedBit(s, i) == MixedBit(t, i)
  {
    hide RGC, MixedBit;
    GRoundBits(s, i);
    GRoundBits(t, i);
  }

  // ------------------------------------------------------------------------
  // The key
  // ------------------------------------------------------------------------

  /** Every one of the 256 key bits is in the key schedule. */
  lemma KeyMatters(mk: MasterKey, ml: MasterKey)
    requires KeyScheduleOf(mk) == KeyScheduleOf(ml)
    ensures mk == ml
  {
    hide KeyScheduleOf;
    forall w, b | 0 <= w < 4 && 0 <= b < 64
      ensures mk[w][b] == ml[w][b]
    {
      BitInSchedule(mk, w, b);
      BitInSchedule(ml, w, b);
    }
    forall w | 0 <= w < 4
      ensures mk[w] == ml[w]
    {
      assert forall b | 0 <= b < 64 :: mk[w][b] == ml[w][b];
    }
  }

  lemma BitInSchedule(mk: MasterKey, w: nat, b: nat)
    requires w < 4 && b < 64
    ensures var n := (64 * w + b + 203) % 256;
      n < 318 && KeyScheduleOf(mk).tweakRoundKey[n / 53][n % 53] == mk[w][b]
  {
    hide TweakKeyPosition, KeyBit;
    PositionBack(64 * w + b);
    KeyBitOf(mk, w, b);
  }

  /** The place of a key bit in the tweak round keys, and the key bit at that place. */
  lemma PositionBack(p: nat)
    requires p < 256
    ensures var n := (p + 203) % 256; 53 * (n / 53) + n % 53 == n && TweakKeyPosition(n) == p
  {
  }

  lemma KeyBitOf(mk: MasterKey, w: nat, b: nat)
    requires w < 4 && b < 64
    ensures KeyBit(mk, 64 * w + b) == mk[w][b]
  {
  }
}
