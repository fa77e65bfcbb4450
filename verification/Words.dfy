/** Machine words as bit sequences, least significant bit first, and their
    conversion to and from unsigned numbers. A word of width w is a sequence of
    w booleans, so a shift that drops bits is a slice and never overflows. */
module Words {
  type Bits = seq<bool>

  function Pow2(n: nat): (p: nat)
    ensures p > 0
  {
    if n == 0 then 1 else 2 * Pow2(n - 1)
  }

  function ToNat(b: Bits): (n: nat)
    ensures n < Pow2(|b|)
  {
    if |b| == 0 then 0 else (if b[0] then 1 else 0) + 2 * ToNat(b[1..])
  }

  function FromNat(n: nat, width: nat): (b: Bits)
    ensures |b| == width
  {
    if width == 0 then [] else [n % 2 == 1] + FromNat(n / 2, width - 1)
  }

  lemma {:induction false} FromNatToNat(n: nat, width: nat)
    requires n < Pow2(width)
    ensures ToNat(FromNat(n, width)) == n
  {
    if width > 0 {
      FromNatToNat(n / 2, width - 1);
      assert FromNat(n, width)[1..] == FromNat(n / 2, width - 1);
    }
  }

  lemma {:induction false} ToNatFromNat(b: Bits)
    ensures FromNat(ToNat(b), |b|) == b
  {
    if |b| > 0 {
      ToNatFromNat(b[1..]);
    }
  }

  function Xor(a: Bits, b: Bits): (r: Bits)
    requires |a| == |b|
    ensures |r| == |a| && forall i | 0 <= i < |r| :: r[i] == (a[i] != b[i])
  {
    seq(|a|, i requires 0 <= i < |a| => a[i] != b[i])
  }

  function And(a: Bits, b: Bits): (r: Bits)
    requires |a| == |b|
    ensures |r| == |a| && forall i | 0 <= i < |r| :: r[i] == (a[i] && b[i])
  {
    seq(|a|, i requires 0 <= i < |a| => a[i] && b[i])
  }

  function Or(a: Bits, b: Bits): (r: Bits)
    requires |a| == |b|
    ensures |r| == |a| && forall i | 0 <= i < |r| :: r[i] == (a[i] || b[i])
  {
    seq(|a|, i requires 0 <= i < |a| => a[i] || b[i])
  }

  function Not(a: Bits): (r: Bits)
    ensures |r| == |a| && forall i | 0 <= i < |r| :: r[i] == !a[i]
  {
    seq(|a|, i requires 0 <= i < |a| => !a[i])
  }

  /** (a >> k) | (a << (width - k)), kept to the width of a. */
  function RotateRight(a: Bits, k: nat): (r: Bits)
    requires k <= |a|
    ensures |r| == |a|
    ensures forall i | 0 <= i < |r| :: r[i] == if i + k < |a| then a[i + k] else a[i + k - |a|]
  {
    seq(|a|, i requires 0 <= i < |a| => if i + k < |a| then a[i + k] else a[i + k - |a|])
  }

  /** a >> k: the k low bits are dropped and zeros come in at the top. */
  function ShiftRight(a: Bits, k: nat): (r: Bits)
    requires k <= |a|
    ensures |r| == |a|
    ensures forall i | 0 <= i < |r| :: r[i] == (i + k < |a| && a[i + k])
  {
    seq(|a|, i requires 0 <= i < |a| => i + k < |a| && a[i + k])
  }

  lemma XorTwice(a: Bits, b: Bits)
    requires |a| == |b|
    ensures Xor(Xor(a, b), b) == a
  {
  }

  lemma XorCancels(x: Bits, y: Bits, k: Bits)
    requires |x| == |y| == |k| && Xor(x, k) == Xor(y, k)
    ensures x == y
  {
    XorTwice(x, k);
    XorTwice(y, k);
  }

  // ------------------------------------------------------------------------
  // Shifts, masks and exclusive or on unsigned numbers
  // ------------------------------------------------------------------------

  const WORDS: nat := 0x1_0000_0000_0000_0000

  type uint64 = x: nat | x < 0x1_0000_0000_0000_0000

  /** a >> k. */
  function Shr(a: nat, k: nat): nat {
    if k == 0 then a else Shr(a / 2, k - 1)
  }

  /** The k low bits of a: a & (2^k - 1). */
  function Low(a: nat, k: nat): (r: nat)
    ensures r < Pow2(k) && r <= a
  {
    if k == 0 then 0 else a % 2 + 2 * Low(a / 2, k - 1)
  }

  /** a with its k low bits cleared: a & (~0 << k). */
  function High(a: nat, k: nat): nat {
    a - Low(a, k)
  }

  /** Bit k of a number. */
  predicate NatBit(a: nat, k: nat) {
    Shr(a, k) % 2 == 1
  }

  /** Position i of a word is bit i of its number. */
  lemma {:induction false} FromNatBit(n: nat, width: nat, i: nat)
    requires i < width
    ensures FromNat(n, width)[i] == NatBit(n, i)
  {
    if i > 0 {
      FromNatBit(n / 2, width - 1, i - 1);
    }
  }

  lemma ToNatBit(b: Bits, i: nat)
    requires i < |b|
    ensures NatBit(ToNat(b), i) == b[i]
  {
    ToNatFromNat(b);
    FromNatBit(ToNat(b), |b|, i);
  }

  /** The number of two words in a row. */
  lemma {:induction false} ToNatConcat(a: Bits, b: Bits)
    ensures ToNat(a + b) == ToNat(a) + Pow2(|a|) * ToNat(b)
  {
    if a == [] {
      assert a + b == b;
      assert ToNat(a) == 0 && Pow2(|a|) == 1;
    } else {
      hide ToNat, Pow2;
      ToNatConcat(a[1..], b);
      assert (a + b)[1..] == a[1..] + b && (a + b)[0] == a[0];
      ToNatHead(a + b);
      ToNatHead(a);
      ProductOfTwice(Pow2(|a| - 1), ToNat(b));
    }
  }

  lemma ToNatHead(a: Bits)
    requires a != []
    ensures ToNat(a) == (if a[0] then 1 else 0) + 2 * ToNat(a[1..])
    ensures Pow2(|a|) == 2 * Pow2(|a| - 1)
  {
  }

  lemma ProductOfTwice(p: nat, n: nat)
    ensures (2 * p) * n == 2 * (p * n)
  {
  }

  lemma TwiceProduct(h: nat, p: nat)
    ensures h * (2 * p) == 2 * (h * p)
  {
  }

  lemma {:induction false} ShrLow(a: nat, k: nat)
    ensures a == Shr(a, k) * Pow2(k) + Low(a, k)
  {
    if k > 0 {
      ShrLow(a / 2, k - 1);
      TwiceProduct(Shr(a / 2, k - 1), Pow2(k - 1));
    }
  }

  /** Quotient and remainder by 2^k are unique. */
  lemma {:induction false} ShrUnique(a: nat, k: nat, h: nat, l: nat)
    requires a == h * Pow2(k) + l && l < Pow2(k)
    ensures Shr(a, k) == h && Low(a, k) == l
  {
    if k > 0 {
      var m := h * Pow2(k - 1);
      assert h * Pow2(k) == 2 * m;
      ShrUnique(a / 2, k - 1, h, l / 2);
    }
  }

  lemma {:induction false} ShrShr(a: nat, j: nat, k: nat)
    ensures Shr(Shr(a, j), k) == Shr(a, j + k)
  {
    if j > 0 {
      ShrShr(a / 2, j - 1, k);
    }
  }

  lemma {:induction false} ShrMonotone(a: nat, b: nat, k: nat)
    requires a <= b
    ensures Shr(a, k) <= Shr(b, k)
  {
    if k > 0 {
      ShrMonotone(a / 2, b / 2, k - 1);
    }
  }

  lemma {:induction false} Pow2Sum(j: nat, k: nat)
    ensures Pow2(j + k) == Pow2(j) * Pow2(k)
  {
    if j > 0 {
      Pow2Sum(j - 1, k);
      assert Pow2(j + k) == 2 * Pow2(j - 1 + k);
      assert Pow2(j) * Pow2(k) == 2 * (Pow2(j - 1) * Pow2(k));
    }
  }

  lemma Pow2Of32()
    ensures Pow2(32) == 0x1_0000_0000
  {
    assert Pow2(8) == 0x100;
    assert Pow2(16) == 0x1_0000;
    assert Pow2(24) == 0x100_0000;
  }

  lemma Pow2Of64()
    ensures Pow2(64) == 0x1_0000_0000_0000_0000
  {
    Pow2Of32();
    Pow2Sum(32, 32);
  }

  /** Numbers with the same high bits differ only in their low bits. */
  lemma SameHigh(a: nat, b: nat, k: nat)
    requires Shr(a, k) == Shr(b, k)
    ensures High(a, k) == High(b, k) && a - b == Low(a, k) - Low(b, k)
  {
    ShrLow(a, k);
    ShrLow(b, k);
  }

  lemma HighIsShr(a: nat, b: nat, k: nat)
    requires High(a, k) == High(b, k)
    ensures Shr(a, k) == Shr(b, k)
  {
    ShrLow(a, k);
    ShrLow(b, k);
    ShrUnique(a, k, Shr(b, k), Low(a, k));
  }

  /** Adding a multiple of 2^k leaves the k low bits alone. */
  lemma LowOfSum(h: nat, l: nat, k: nat)
    ensures Low(h * Pow2(k) + l, k) == Low(l, k)
    ensures Shr(h * Pow2(k) + l, k) == h + Shr(l, k)
  {
    ShrLow(l, k);
    assert h * Pow2(k) + l == (h + Shr(l, k)) * Pow2(k) + Low(l, k);
    ShrUnique(h * Pow2(k) + l, k, h + Shr(l, k), Low(l, k));
  }

  function XorNat(a: nat, b: nat): (r: nat)
    ensures r == 0 <==> a == b
  {
    if a == 0 && b == 0 then 0
    else (if a % 2 != b % 2 then 1 else 0) + 2 * XorNat(a / 2, b / 2)
  }

  lemma {:induction false} XorNatBound(a: nat, b: nat, k: nat)
    requires a < Pow2(k) && b < Pow2(k)
    ensures XorNat(a, b) < Pow2(k)
  {
    if k > 0 {
      XorNatBound(a / 2, b / 2, k - 1);
    }
  }

  /** Bit k of the result is set exactly when the two operands differ there. */
  lemma {:induction false} XorNatBit(a: nat, b: nat, k: nat)
    ensures NatBit(XorNat(a, b), k) <==> NatBit(a, k) != NatBit(b, k)
  {
    hide XorNat;
    XorNatHalf(a, b);
    if k > 0 {
      XorNatBit(a / 2, b / 2, k - 1);
    }
  }

  lemma XorNatHalf(a: nat, b: nat)
    ensures XorNat(a, b) / 2 == XorNat(a / 2, b / 2)
    ensures XorNat(a, b) % 2 == 1 <==> a % 2 != b % 2
  {
  }

  lemma {:induction false} XorNatTwice(a: nat, b: nat)
    ensures XorNat(XorNat(a, b), b) == a
    decreases a + b
  {
    if a != 0 || b != 0 {
      XorNatTwice(a / 2, b / 2);
    }
  }

  /** The number of significant bits, 64 minus the leading zeros of a 64-bit word. */
  function BitLength(a: nat): nat {
    if a == 0 then 0 else 1 + BitLength(a / 2)
  }

  lemma {:induction false} BitLengthBound(a: nat, k: nat)
    ensures BitLength(a) <= k <==> a < Pow2(k)
  {
    if a == 0 {
    } else if k > 0 {
      BitLengthBound(a / 2, k - 1);
    }
  }

  /** Two numbers agree above bit k exactly when their difference word is below 2^k. */
  lemma {:induction false} XorBound(a: nat, b: nat, k: nat)
    ensures XorNat(a, b) < Pow2(k) <==> Shr(a, k) == Shr(b, k)
  {
    if k > 0 {
      XorBound(a / 2, b / 2, k - 1);
    }
  }
}
