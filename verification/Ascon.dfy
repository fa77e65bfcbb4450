/** The Ascon permutation as the data keystream computes it (crypto/ascon_cipher.cpp). */
module Ascon {
  import opened Words

  type Word = b: Bits | |b| == 64 witness seq(64, _ => false)
  type Words5 = s: seq<Word> | |s| == 5 witness seq(5, _ => seq(64, _ => false))

  function ROR(x: Word, n: nat): Word
    requires n <= 64
  {
    RotateRight(x, n)
  }

  // ------------------------------------------------------------------------
  // The reference round: section 3 of NIST SP 800-232
  // ------------------------------------------------------------------------

  /** The 5-bit S-box, x0 the most significant bit. */
  const ASCON_SBOX: seq<nat> :=
    [0x04, 0x0b, 0x1f, 0x14, 0x1a, 0x15, 0x09, 0x02] +
    [0x1b, 0x05, 0x08, 0x12, 0x1d, 0x03, 0x06, 0x1c] +
    [0x1e, 0x13, 0x07, 0x0e, 0x00, 0x0d, 0x11, 0x18] +
    [0x10, 0x0c, 0x01, 0x19, 0x16, 0x0a, 0x0f, 0x17]

  function BitValue(b: bool, weight: nat): nat {
    if b then weight else 0
  }

  /** Column j of the state as a 5-bit number. */
  function Column(s: Words5, j: nat): (v: nat)
    requires j < 64
    ensures v < 32
  {
    BitValue(s[0][j], 16) + BitValue(s[1][j], 8) + BitValue(s[2][j], 4) + BitValue(s[3][j], 2) + BitValue(s[4][j], 1)
  }

  /** The constant is added to the low byte of x2. */
  function AddConstant(s: Words5, c: Word): Words5 {
    s[2 := Xor(s[2], c)]
  }

  /** Row i of the S-box layer: bit 4 - i of the table entry of every column. */
  function SboxRow(s: Words5, weight: nat): Word
    requires weight > 0
  {
    seq(64, j requires 0 <= j < 64 => ASCON_SBOX[Column(s, j)] / weight % 2 == 1)
  }

  function SubstitutionLayer(s: Words5): Words5 {
    [SboxRow(s, 16), SboxRow(s, 8), SboxRow(s, 4), SboxRow(s, 2), SboxRow(s, 1)]
  }

  function Sigma(x: Word, a: nat, b: nat): Word
    requires a <= 64 && b <= 64
  {
    Xor(Xor(x, ROR(x, a)), ROR(x, b))
  }

  function LinearLayer(s: Words5): Words5 {
    [Sigma(s[0], 19, 28), Sigma(s[1], 61, 39), Sigma(s[2], 1, 6), Sigma(s[3], 10, 17), Sigma(s[4], 7, 41)]
  }

  function ReferenceRound(s: Words5, c: Word): Words5 {
    LinearLayer(SubstitutionLayer(AddConstant(s, c)))
  }

  // ------------------------------------------------------------------------
  // The optimised round
  // ------------------------------------------------------------------------

  function Chi5(a: Word, b: Word, c: Word): Word {
    Xor(a, And(Not(b), c))
  }

  /** The five intermediate words of the S-box layer as the code computes them; the
      complement of x2 is left to the end of the round. */
  function BitslicedSbox(s: Words5): Words5 {
    var x0 := Xor(s[0], s[4]);
    var x4 := Xor(s[4], s[3]);
    var x2 := Xor(s[2], s[1]);
    var t0 := Chi5(x0, s[1], x2);
    var t2 := Chi5(x2, s[3], x4);
    var t4 := Chi5(x4, x0, s[1]);
    var t1 := Chi5(s[1], x2, s[3]);
    var t3 := Chi5(s[3], x4, x0);
    [Xor(t0, t4), Xor(t1, t0), t2, Xor(t3, t2), t4]
  }

  /** One column of the bitsliced formulas against the table. */
  lemma SboxColumn(a: bool, b: bool, c: bool, d: bool, e: bool)
    ensures var x0, x4, x2 := a != e, e != d, c != b;
      var t0, t2, t4, t1, t3 := x0 != (!b && x2), x2 != (!d && x4), x4 != (!x0 && b), b != (!x2 && d), d != (!x4 && x0);
      var v := BitValue(a, 16) + BitValue(b, 8) + BitValue(c, 4) + BitValue(d, 2) + BitValue(e, 1);
      ASCON_SBOX[v] ==
        BitValue(t0 != t4, 16) + BitValue(t1 != t0, 8) + BitValue(!t2, 4) + BitValue(t3 != t2, 2) + BitValue(t4, 1)
  {
  }

  lemma WeightedBits(a: bool, b: bool, c: bool, d: bool, e: bool)
    ensures var v := BitValue(a, 16) + BitValue(b, 8) + BitValue(c, 4) + BitValue(d, 2) + BitValue(e, 1);
      && (v / 16 % 2 == 1) == a && (v / 8 % 2 == 1) == b && (v / 4 % 2 == 1) == c
      && (v / 2 % 2 == 1) == d && (v / 1 % 2 == 1) == e
  {
  }

  /** The bitsliced formulas are the table lookup on every column, but for the complement of x2. */
  lemma BitslicedIsTable(s: Words5)
    ensures SubstitutionLayer(s) == BitslicedSbox(s)[2 := Not(BitslicedSbox(s)[2])]
  {
    var t := BitslicedSbox(s);
    forall j | 0 <= j < 64
      ensures SboxRow(s, 16)[j] == t[0][j] && SboxRow(s, 8)[j] == t[1][j] && SboxRow(s, 4)[j] == !t[2][j]
      ensures SboxRow(s, 2)[j] == t[3][j] && SboxRow(s, 1)[j] == t[4][j]
    {
      ColumnBits(s, t, j);
    }
    assert SboxRow(s, 16) == t[0] && SboxRow(s, 8) == t[1] && SboxRow(s, 4) == Not(t[2]);
    assert SboxRow(s, 2) == t[3] && SboxRow(s, 1) == t[4];
  }

  lemma ColumnBits(s: Words5, t: Words5, j: nat)
    requires t == BitslicedSbox(s) && j < 64
    ensures SboxRow(s, 16)[j] == t[0][j] && SboxRow(s, 8)[j] == t[1][j] && SboxRow(s, 4)[j] == !t[2][j]
    ensures SboxRow(s, 2)[j] == t[3][j] && SboxRow(s, 1)[j] == t[4][j]
  {
    SboxColumn(s[0][j], s[1][j], s[2][j], s[3][j], s[4][j]);
    WeightedBits(t[0][j], t[1][j], !t[2][j], t[3][j], t[4][j]);
  }

  /** Two nested rotations give the two rotations of the reference layer. */
  lemma NestedRotation(t: Word, inner: nat, outer: nat)
    requires inner + outer < 64
    ensures Xor(t, ROR(Xor(t, ROR(t, inner)), outer)) == Xor(Xor(t, ROR(t, outer)), ROR(t, inner + outer))
  {
  }

  lemma SigmaCommutes(t: Word, a: nat, b: nat)
    requires a <= 64 && b <= 64
    ensures Sigma(t, a, b) == Sigma(t, b, a)
  {
  }

  lemma SigmaOfNot(t: Word, a: nat, b: nat)
    requires a <= 64 && b <= 64
    ensures Sigma(Not(t), a, b) == Not(Sigma(t, a, b))
  {
  }

  function Spread(t: Word, inner: nat, outer: nat): Word
    requires inner <= 64 && outer <= 64
  {
    Xor(t, ROR(Xor(t, ROR(t, inner)), outer))
  }

  lemma SpreadIsSigma(t: Word)
    ensures Spread(t, 28 - 19, 19) == Sigma(t, 19, 28)
    ensures Spread(t, 61 - 39, 39) == Sigma(t, 61, 39)
    ensures Spread(t, 6 - 1, 1) == Sigma(t, 1, 6)
    ensures Spread(t, 17 - 10, 10) == Sigma(t, 10, 17)
    ensures Spread(t, 41 - 7, 7) == Sigma(t, 7, 41)
  {
    hide Xor, RotateRight;
    NestedRotation(t, 28 - 19, 19);
    NestedRotation(t, 61 - 39, 39);
    SigmaCommutes(t, 61, 39);
    NestedRotation(t, 6 - 1, 1);
    NestedRotation(t, 17 - 10, 10);
    NestedRotation(t, 41 - 7, 7);
  }

  /** ROUND in the order of the code, on the five words. */
  function OptimisedRound(s: Words5, c: Word): Words5 {
    var t := BitslicedSbox(s[2 := Xor(s[2], c)]);
    [Spread(t[0], 28 - 19, 19), Spread(t[1], 61 - 39, 39), Not(Spread(t[2], 6 - 1, 1)),
     Spread(t[3], 17 - 10, 10), Spread(t[4], 41 - 7, 7)]
  }

  /** The optimised round is the reference round, for every state and constant. */
  lemma RoundIsReference(s: Words5, c: Word)
    ensures OptimisedRound(s, c) == ReferenceRound(s, c)
  {
    hide BitslicedSbox, SubstitutionLayer, Spread, Sigma;
    var a := AddConstant(s, c);
    var t := BitslicedSbox(a);
    BitslicedIsTable(a);
    SpreadIsSigma(t[0]);
    SpreadIsSigma(t[1]);
    SpreadIsSigma(t[2]);
    SpreadIsSigma(t[3]);
    SpreadIsSigma(t[4]);
    SigmaOfNot(t[2], 1, 6);
  }

  // ------------------------------------------------------------------------
  // In place
  // ------------------------------------------------------------------------

  /** The first half of ROUND: the constant and the S-box layer, from x to t. */
  method SubstituteWords(x: array<Word>, t: array<Word>, c: Word)
    requires x.Length == t.Length == 5 && x != t
    modifies x, t
    ensures t[..] == BitslicedSbox(old(x[..])[2 := Xor(old(x[2]), c)])
  {
    hide Xor, And, Not;
    x[2] := Xor(x[2], c);
    x[0] := Xor(x[0], x[4]);
    x[4] := Xor(x[4], x[3]);
    x[2] := Xor(x[2], x[1]);
    t[0] := Xor(x[0], And(Not(x[1]), x[2]));
    t[2] := Xor(x[2], And(Not(x[3]), x[4]));
    t[4] := Xor(x[4], And(Not(x[0]), x[1]));
    t[1] := Xor(x[1], And(Not(x[2]), x[3]));
    t[3] := Xor(x[3], And(Not(x[4]), x[0]));
    t[1] := Xor(t[1], t[0]);
    t[3] := Xor(t[3], t[2]);
    t[0] := Xor(t[0], t[4]);
  }

  /** The second half: the linear layer, from t to x. */
  method DiffuseWords(x: array<Word>, t: array<Word>)
    requires x.Length == t.Length == 5 && x != t
    modifies x
    ensures x[..] ==
      [Spread(t[0], 28 - 19, 19), Spread(t[1], 61 - 39, 39), Not(Spread(t[2], 6 - 1, 1)),
       Spread(t[3], 17 - 10, 10), Spread(t[4], 41 - 7, 7)]
  {
    hide Xor, Not, RotateRight;
    x[2] := Xor(t[2], ROR(t[2], 6 - 1));
    x[3] := Xor(t[3], ROR(t[3], 17 - 10));
    x[4] := Xor(t[4], ROR(t[4], 41 - 7));
    x[0] := Xor(t[0], ROR(t[0], 28 - 19));
    x[1] := Xor(t[1], ROR(t[1], 61 - 39));
    x[2] := Xor(t[2], ROR(x[2], 1));
    x[3] := Xor(t[3], ROR(x[3], 10));
    x[4] := Xor(t[4], ROR(x[4], 7));
    x[0] := Xor(t[0], ROR(x[0], 19));
    x[1] := Xor(t[1], ROR(x[1], 39));
    x[2] := Not(x[2]);
  }

  /** ROUND updates the five-word state in place. */
  method Round(x: array<Word>, c: Word)
    requires x.Length == 5
    modifies x
    ensures x[..] == ReferenceRound(old(x[..]), c)
  {
    hide ReferenceRound, BitslicedSbox, Spread, Xor, Not;
    RoundIsReference(x[..], c);
    var t := new Word[5](_ => c);
    SubstituteWords(x, t, c);
    DiffuseWords(x, t);
    assert x[..] == OptimisedRound(old(x[..]), c);
  }

  /** The constant of round n of twelve: the low half counts up, the high half down. */
  function RoundConstant(n: nat): nat
    requires n < 12
  {
    (15 - n) * 16 + n
  }

  /** The first n rounds of the reference permutation. */
  function ReferenceRounds(s: Words5, n: nat): Words5
    requires n <= 12
  {
    if n == 0 then s else ReferenceRound(ReferenceRounds(s, n - 1), FromNat(RoundConstant(n - 1), 64))
  }

  lemma NextRound(s: Words5, n: nat)
    requires n < 12
    ensures ReferenceRounds(s, n + 1) == ReferenceRound(ReferenceRounds(s, n), FromNat(RoundConstant(n), 64))
    ensures ReferenceRounds(s, 0) == s
  {
    hide ReferenceRound, FromNat;
  }

  /** P12ROUNDS. */
  method P12Rounds(x: array<Word>)
    requires x.Length == 5
    modifies x
    ensures x[..] == ReferenceRounds(old(x[..]), 12)
  {
    SixRounds(x);
    SixMoreRounds(x, old(x[..]));
  }

  method SixRounds(x: array<Word>)
    requires x.Length == 5
    modifies x
    ensures x[..] == ReferenceRounds(old(x[..]), 6)
  {
    hide ReferenceRound, ReferenceRounds, FromNat;
    ghost var s := x[..];
    NextRound(s, 0);
    Round(x, FromNat(0xf0, 64));
    NextRound(s, 1);
    Round(x, FromNat(0xe1, 64));
    NextRound(s, 2);
    Round(x, FromNat(0xd2, 64));
    NextRound(s, 3);
    Round(x, FromNat(0xc3, 64));
    NextRound(s, 4);
    Round(x, FromNat(0xb4, 64));
    NextRound(s, 5);
    Round(x, FromNat(0xa5, 64));
  }

  method SixMoreRounds(x: array<Word>, ghost s: Words5)
    requires x.Length == 5 && x[..] == ReferenceRounds(s, 6)
    modifies x
    ensures x[..] == ReferenceRounds(s, 12)
  {
    hide ReferenceRound, ReferenceRounds, FromNat;
    NextRound(s, 6);
    Round(x, FromNat(0x96, 64));
    NextRound(s, 7);
    Round(x, FromNat(0x87, 64));
    NextRound(s, 8);
    Round(x, FromNat(0x78, 64));
    NextRound(s, 9);
    Round(x, FromNat(0x69, 64));
    NextRound(s, 10);
    Round(x, FromNat(0x5a, 64));
    NextRound(s, 11);
    Round(x, FromNat(0x4b, 64));
  }

  // ------------------------------------------------------------------------
  // The keystream word
  // ------------------------------------------------------------------------

  function InitialState(k0: Word, k1: Word): Words5 {
    [FromNat(0x80808c0000000000, 64), k0, k1, FromNat(0, 64), FromNat(0, 64)]
  }

  function Absorb(s: Words5, data: uint64): Words5 {
    s[0 := Xor(s[0], FromNat(data, 64))]
     [1 := Xor(s[1], FromNat(0x8000000000000000, 64))]
     [4 := Xor(s[4], FromNat(1, 64))]
  }

  /** One block absorbed and one word squeezed, between two full permutations. */
  function StreamWord(data: uint64, k0: Word, k1: Word): Word {
    ReferenceRounds(Absorb(ReferenceRounds(InitialState(k0, k1), 12), data), 12)[0]
  }

  method Ascon64bStream(data: uint64, k0: Word, k1: Word) returns (word: Word)
    ensures word == StreamWord(data, k0, k1)
  {
    hide ReferenceRounds, FromNat, Xor;
    var x := new Word[5](_ => k0);
    x[0] := FromNat(0x80808c0000000000, 64);
    x[1] := k0;
    x[2] := k1;
    x[3] := FromNat(0, 64);
    x[4] := FromNat(0, 64);
    assert x[..] == InitialState(k0, k1);
    P12Rounds(x);
    ghost var permuted := x[..];
    x[0] := Xor(x[0], FromNat(data, 64));
    x[1] := Xor(x[1], FromNat(0x8000000000000000, 64));
    x[4] := Xor(x[4], FromNat(1, 64));
    assert x[..] == Absorb(permuted, data);
    P12Rounds(x);
    word := x[..][0];
  }
}
