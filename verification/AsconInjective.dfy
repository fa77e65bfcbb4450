/** The Ascon permutation loses nothing: distinct addresses and distinct keys reach distinct
    states before a keystream word is taken (crypto/ascon_cipher.cpp). */
module AsconInjective {
  import opened Words
  import opened Ascon

  // ------------------------------------------------------------------------
  // The linear layer
  // ------------------------------------------------------------------------

  /** The words differ at position n of the 64-cycle. */
  predicate Differ(x: Word, y: Word, n: nat) {
    x[n % 64] != y[n % 64]
  }

  /** Their difference is in the kernel of 1 + r^a + r^b, r being the rotation by one. */
  ghost predicate Cancels(x: Word, y: Word, a: nat, b: nat) {
    forall n: nat :: Differ(x, y, n) == (Differ(x, y, n + a) != Differ(x, y, n + b))
  }

  function Ahead(i: nat, k: nat): (j: nat)
    requires i < 64 && k <= 64
    ensures j < 64
  {
    if i + k < 64 then i + k else i + k - 64
  }

  lemma AheadIsModular(n: nat, k: nat)
    requires k <= 64
    ensures (n + k) % 64 == Ahead(n % 64, k)
  {
  }

  lemma SigmaBit(x: Word, a: nat, b: nat, i: nat)
    requires a <= 64 && b <= 64 && i < 64
    ensures Sigma(x, a, b)[i] == ((x[i] != x[Ahead(i, a)]) != x[Ahead(i, b)])
  {
  }

  lemma SameSigmaCancels(x: Word, y: Word, a: nat, b: nat)
    requires a <= 64 && b <= 64 && Sigma(x, a, b) == Sigma(y, a, b)
    ensures Cancels(x, y, a, b)
  {
    hide Sigma, Ahead;
    forall n: nat
      ensures Differ(x, y, n) == (Differ(x, y, n + a) != Differ(x, y, n + b))
    {
      AheadIsModular(n, a);
      AheadIsModular(n, b);
      SigmaBit(x, a, b, n % 64);
      SigmaBit(y, a, b, n % 64);
    }
  }

  /** Squaring: over bits, (1 + r^a + r^b)^2 is 1 + r^(2a) + r^(2b). */
  lemma CancelsSquare(x: Word, y: Word, a: nat, b: nat)
    requires Cancels(x, y, a, b)
    ensures Cancels(x, y, 2 * a, 2 * b)
  {
    hide Differ;
    forall n: nat
      ensures Differ(x, y, n) == (Differ(x, y, n + 2 * a) != Differ(x, y, n + 2 * b))
    {
      assert Differ(x, y, n + a) == (Differ(x, y, n + a + a) != Differ(x, y, n + a + b));
      assert Differ(x, y, n + b) == (Differ(x, y, n + b + a) != Differ(x, y, n + b + b));
    }
  }

  /** The 64th power is 1 + 1 + 1 on the 64-cycle, so only nothing is cancelled. */
  lemma SigmaInjective(x: Word, y: Word, a: nat, b: nat)
    requires a <= 64 && b <= 64 && Sigma(x, a, b) == Sigma(y, a, b)
    ensures x == y
  {
    SameSigmaCancels(x, y, a, b);
    hide Sigma, Cancels;
    CancelsSquare(x, y, a, b);
    CancelsSquare(x, y, 2 * a, 2 * b);
    CancelsSquare(x, y, 4 * a, 4 * b);
    CancelsSquare(x, y, 8 * a, 8 * b);
    CancelsSquare(x, y, 16 * a, 16 * b);
    CancelsSquare(x, y, 32 * a, 32 * b);
    forall i | 0 <= i < 64
      ensures x[i] == y[i]
    {
      FullTurnsCancel(x, y, a, b, i);
    }
  }

  lemma FullTurnsCancel(x: Word, y: Word, a: nat, b: nat, i: nat)
    requires Cancels(x, y, 64 * a, 64 * b) && i < 64
    ensures x[i] == y[i]
  {
    assert Differ(x, y, i) == (Differ(x, y, i + 64 * a) != Differ(x, y, i + 64 * b));
    assert (i + 64 * a) % 64 == i && (i + 64 * b) % 64 == i;
  }

  // ------------------------------------------------------------------------
  // The S-box layer
  // ------------------------------------------------------------------------

  /** ASCON_SBOX backwards. */
  const SBOX_BACK: seq<nat> :=
    [0x14, 0x1a, 0x07, 0x0d, 0x00, 0x09, 0x0e, 0x12] +
    [0x0a, 0x06, 0x1d, 0x01, 0x19, 0x15, 0x13, 0x1e] +
    [0x18, 0x16, 0x0b, 0x11, 0x03, 0x05, 0x1c, 0x1f] +
    [0x17, 0x1b, 0x04, 0x08, 0x0f, 0x0c, 0x10, 0x02]

  /** The first k entries of the table lead back to where they came from. */
  predicate LeadsBack(k: nat)
    requires k <= 32
  {
    |ASCON_SBOX| == 32 == |SBOX_BACK| &&
    forall v | 0 <= v < k :: ASCON_SBOX[v] < 32 && SBOX_BACK[ASCON_SBOX[v]] == v
  }

  lemma SboxLeadsBack()
    ensures LeadsBack(32)
  {
    assert LeadsBack(8);
    assert LeadsBack(16);
    assert LeadsBack(24);
  }

  /** Five bits decide a number below 32. */
  lemma FiveBits(u: nat, v: nat)
    requires u < 32 && v < 32
    requires u / 16 % 2 == v / 16 % 2 && u / 8 % 2 == v / 8 % 2 && u / 4 % 2 == v / 4 % 2
    requires u / 2 % 2 == v / 2 % 2 && u % 2 == v % 2
    ensures u == v
  {
    Halves(u);
    Halves(v);
    SameHalves(u / 8, v / 8);
    SameHalves(u / 4, v / 4);
    SameHalves(u / 2, v / 2);
    SameHalves(u, v);
  }

  lemma Halves(u: nat)
    requires u < 32
    ensures u / 2 / 2 == u / 4 && u / 4 / 2 == u / 8 && u / 8 / 2 == u / 16 && u / 16 == u / 16 % 2
  {
  }

  lemma SameHalves(u: nat, v: nat)
    requires u / 2 == v / 2 && u % 2 == v % 2
    ensures u == v
  {
  }

  lemma RowBit(s: Words5, weight: nat, j: nat)
    requires weight > 0 && j < 64
    ensures |ASCON_SBOX| == 32
    ensures SboxRow(s, weight)[j] <==> ASCON_SBOX[Column(s, j)] / weight % 2 == 1
  {
  }

  lemma SameEntry(s: Words5, t: Words5, j: nat)
    requires SubstitutionLayer(s) == SubstitutionLayer(t) && j < 64
    ensures |ASCON_SBOX| == 32 && ASCON_SBOX[Column(s, j)] == ASCON_SBOX[Column(t, j)]
  {
    hide SboxRow, Column;
    var a, b := SubstitutionLayer(s), SubstitutionLayer(t);
    assert a[0] == b[0] && a[1] == b[1] && a[2] == b[2] && a[3] == b[3] && a[4] == b[4];
    RowBit(s, 16, j);
    RowBit(t, 16, j);
    RowBit(s, 8, j);
    RowBit(t, 8, j);
    RowBit(s, 4, j);
    RowBit(t, 4, j);
    RowBit(s, 2, j);
    RowBit(t, 2, j);
    RowBit(s, 1, j);
    RowBit(t, 1, j);
    SboxLeadsBack();
    FiveBits(ASCON_SBOX[Column(s, j)], ASCON_SBOX[Column(t, j)]);
  }

  lemma ColumnDecides(s: Words5, t: Words5, j: nat)
    requires j < 64 && Column(s, j) == Column(t, j)
    ensures s[0][j] == t[0][j] && s[1][j] == t[1][j] && s[2][j] == t[2][j] && s[3][j] == t[3][j] && s[4][j] == t[4][j]
  {
  }

  lemma SubstitutionInjective(s: Words5, t: Words5)
    requires SubstitutionLayer(s) == SubstitutionLayer(t)
    ensures s == t
  {
    hide SubstitutionLayer, Column;
    forall j | 0 <= j < 64
      ensures s[0][j] == t[0][j] && s[1][j] == t[1][j] && s[2][j] == t[2][j] && s[3][j] == t[3][j] && s[4][j] == t[4][j]
    {
      SameEntry(s, t, j);
      SboxLeadsBack();
      assert SBOX_BACK[ASCON_SBOX[Column(s, j)]] == SBOX_BACK[ASCON_SBOX[Column(t, j)]];
      ColumnDecides(s, t, j);
    }
    assert s[0] == t[0] && s[1] == t[1] && s[2] == t[2] && s[3] == t[3] && s[4] == t[4];
  }

  // ------------------------------------------------------------------------
  // Rounds and words
  // ------------------------------------------------------------------------

  lemma LinearInjective(s: Words5, t: Words5)
    requires LinearLayer(s) == LinearLayer(t)
    ensures s == t
  {
    hide Sigma;
    var a, b := LinearLayer(s), LinearLayer(t);
    assert a[0] == b[0] && a[1] == b[1] && a[2] == b[2] && a[3] == b[3] && a[4] == b[4];
    SigmaInjective(s[0], t[0], 19, 28);
    SigmaInjective(s[1], t[1], 61, 39);
    SigmaInjective(s[2], t[2], 1, 6);
    SigmaInjective(s[3], t[3], 10, 17);
    SigmaInjective(s[4], t[4], 7, 41);
  }

  lemma RoundInjective(s: Words5, t: Words5, c: Word)
    requires ReferenceRound(s, c) == ReferenceRound(t, c)
    ensures s == t
  {
    hide LinearLayer, SubstitutionLayer, Xor;
    var a, b := AddConstant(s, c), AddConstant(t, c);
    LinearInjective(SubstitutionLayer(a), SubstitutionLayer(b));
    SubstitutionInjective(a, b);
    assert a[0] == b[0] && a[1] == b[1] && a[2] == b[2] && a[3] == b[3] && a[4] == b[4];
    XorCancels(s[2], t[2], c);
  }

  /** The permutation is injective over any number of rounds. */
  lemma {:induction false} PermutationInjective(s: Words5, t: Words5, n: nat)
    requires n <= 12 && ReferenceRounds(s, n) == ReferenceRounds(t, n)
    ensures s == t
  {
    hide ReferenceRound, FromNat;
    if n > 0 {
      RoundInjective(ReferenceRounds(s, n - 1), ReferenceRounds(t, n - 1), FromNat(RoundConstant(n - 1), 64));
      PermutationInjective(s, t, n - 1);
    }
  }

  /** The state whose first word is the keystream word of an address under a key. */
  function FinalState(data: uint64, k0: Word, k1: Word): Words5 {
    ReferenceRounds(Absorb(ReferenceRounds(InitialState(k0, k1), 12), data), 12)
  }

  lemma StreamWordOfState(data: uint64, k0: Word, k1: Word)
    ensures StreamWord(data, k0, k1) == FinalState(data, k0, k1)[0]
  {
  }

  /** Under one key, distinct 64-bit addresses reach distinct states. */
  lemma AddressMatters(d: uint64, e: uint64, k0: Word, k1: Word)
    requires FinalState(d, k0, k1) == FinalState(e, k0, k1)
    ensures d == e
  {
    hide ReferenceRounds, Xor, FromNat;
    var s := ReferenceRounds(InitialState(k0, k1), 12);
    PermutationInjective(Absorb(s, d), Absorb(s, e), 12);
    assert Absorb(s, d)[0] == Xor(s[0], FromNat(d, 64)) && Absorb(s, e)[0] == Xor(s[0], FromNat(e, 64));
    XorComm(s[0], FromNat(d, 64));
    XorComm(s[0], FromNat(e, 64));
    XorCancels(FromNat(d, 64), FromNat(e, 64), s[0]);
    Pow2Of64();
    FromNatToNat(d, 64);
    FromNatToNat(e, 64);
  }

  lemma XorComm(x: Word, y: Word)
    ensures Xor(x, y) == Xor(y, x)
  {
  }

  /** For one address, distinct 128-bit keys reach distinct states. */
  lemma KeyMatters(d: uint64, k0: Word, k1: Word, l0: Word, l1: Word)
    requires FinalState(d, k0, k1) == FinalState(d, l0, l1)
    ensures k0 == l0 && k1 == l1
  {
    hide ReferenceRounds, Xor, FromNat;
    var s, t := ReferenceRounds(InitialState(k0, k1), 12), ReferenceRounds(InitialState(l0, l1), 12);
    PermutationInjective(Absorb(s, d), Absorb(t, d), 12);
    AbsorbInjective(s, t, d);
    PermutationInjective(InitialState(k0, k1), InitialState(l0, l1), 12);
    var a, b := InitialState(k0, k1), InitialState(l0, l1);
    assert a[1] == b[1] && a[2] == b[2];
  }

  lemma AbsorbInjective(s: Words5, t: Words5, d: uint64)
    requires Absorb(s, d) == Absorb(t, d)
    ensures s == t
  {
    hide Xor, FromNat;
    var a, b := Absorb(s, d), Absorb(t, d);
    assert a[0] == b[0] && a[1] == b[1] && a[2] == b[2] && a[3] == b[3] && a[4] == b[4];
    XorCancels(s[0], t[0], FromNat(d, 64));
    XorCancels(s[1], t[1], FromNat(0x8000000000000000, 64));
    XorCancels(s[4], t[4], FromNat(1, 64));
  }
}
