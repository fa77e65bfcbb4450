/** The choice of the slot for a region (malloc/try_box.h) and what can be said of
    the whole path from an allocation to its pointer. */
module TryBox {
  import opened Words
  import opened Wrappers
  import opened CryptoAddress

  function RegionSize(s: uint64): nat {
    if s < 1 then 1 else s
  }

  /** ptr_end is computed in 64 bits and wraps. */
  function LeadingZeroes(ptr: uint64, s: uint64): (lz: int)
    ensures lz <= 64
  {
    64 - BitLength(XorNat(ptr, (ptr + RegionSize(s) - 1) % WORDS))
  }

  /** The size field try_box chooses, or None when it returns 0. */
  function TryBox(ptr: uint64, s: uint64): (r: Option<nat>)
    ensures r.Some? ==> 1 <= r.value <= 33
  {
    var lz := LeadingZeroes(ptr, s);
    if lz < 32 then None else Some(64 - lz + 1)
  }

  function DecodeSize(size: nat): nat
    requires size >= 1
  {
    Pow2(size - 1)
  }

  /** Aligned slot number i of 2^k bytes holds the n bytes from p on. */
  predicate Holds(i: nat, k: nat, p: nat, n: nat) {
    i * Pow2(k) <= p && p + n <= (i + 1) * Pow2(k)
  }

  /** Some aligned slot of 2^k bytes holds the region. */
  ghost predicate Fits(k: nat, p: nat, n: nat) {
    exists i: nat :: Holds(i, k, p, n)
  }

  lemma HeldBySomeSlot(k: nat, p: nat, n: nat)
    requires n >= 1
    ensures Fits(k, p, n) <==> Shr(p, k) == Shr(p + n - 1, k)
  {
    if i: nat :| Holds(i, k, p, n) {
      assert (i + 1) * Pow2(k) == i * Pow2(k) + Pow2(k);
      ShrUnique(p, k, i, p - i * Pow2(k));
      ShrUnique(p + n - 1, k, i, p + n - 1 - i * Pow2(k));
    }
    if Shr(p, k) == Shr(p + n - 1, k) {
      var i := Shr(p, k);
      ShrLow(p, k);
      ShrLow(p + n - 1, k);
      assert (i + 1) * Pow2(k) == i * Pow2(k) + Pow2(k);
      assert Holds(i, k, p, n);
    }
  }

  /** Without wrap, the difference word has at most k bits exactly when a slot of 2^k bytes holds the region. */
  lemma DifferenceBits(ptr: uint64, s: uint64, k: nat)
    requires ptr + RegionSize(s) <= WORDS
    ensures 64 - LeadingZeroes(ptr, s) <= k <==> Fits(k, ptr, RegionSize(s))
  {
    hide XorNat, BitLength, Pow2, Shr, Low, Fits, Holds;
    var last := ptr + RegionSize(s) - 1;
    BitLengthBound(XorNat(ptr, last), k);
    XorBound(ptr, last, k);
    HeldBySomeSlot(k, ptr, RegionSize(s));
  }

  /** try_box names the smallest slot, and fails only when no slot of at most 4 GiB holds the region. */
  lemma TryBoxSmallest(ptr: uint64, s: uint64)
    requires ptr + RegionSize(s) <= WORDS
    ensures match TryBox(ptr, s)
      case Some(size) =>
        && 1 <= size <= 33
        && Fits(size - 1, ptr, RegionSize(s))
        && ptr / DecodeSize(size) == (ptr + RegionSize(s) - 1) / DecodeSize(size)
          && forall k: nat | k < size - 1 :: !Fits(k, ptr, RegionSize(s))
      case None =>
        forall k: nat | k <= 32 :: !Fits(k, ptr, RegionSize(s))
  {
    hide LeadingZeroes, Fits, Pow2, Shr;
    forall k: nat
      ensures 64 - LeadingZeroes(ptr, s) <= k <==> Fits(k, ptr, RegionSize(s))
    {
      DifferenceBits(ptr, s, k);
    }
    if TryBox(ptr, s).Some? {
      HeldBySomeSlot(TryBox(ptr, s).value - 1, ptr, RegionSize(s));
      ShrIsQuotient(ptr, TryBox(ptr, s).value - 1);
      ShrIsQuotient(ptr + RegionSize(s) - 1, TryBox(ptr, s).value - 1);
    }
  }

  lemma ShrIsQuotient(a: nat, k: nat)
    ensures a / Pow2(k) == Shr(a, k)
  {
    hide Pow2, Low;
    ShrLow(a, k);
    QuotientOf(Shr(a, k), Pow2(k), Low(a, k));
  }

  lemma QuotientOf(h: nat, m: nat, l: nat)
    requires l < m
    ensures (h * m + l) / m == h
  {
    var q := (h * m + l) / m;
    assert q * m <= h * m + l < (q + 1) * m;
    ProductOrder(q + 1, h, m);
    ProductOrder(h + 1, q, m);
  }

  lemma ProductOrder(a: nat, b: nat, m: nat)
    ensures a <= b ==> a * m <= b * m
  {
  }

  /** The promise of try_box: success exactly when some aligned slot of at most 4 GiB holds the region. */
  ghost predicate Promise(ptr: uint64, s: uint64) {
    TryBox(ptr, s).Some? <==> exists k: nat :: k <= 32 && Fits(k, ptr, RegionSize(s))
  }

  /** A region that runs past the end of the address space fits no slot. */
  lemma WrappingRegionNotHeld(ptr: uint64, n: nat, k: nat)
    requires ptr + n > WORDS && n >= 1 && k <= 32
    ensures !Fits(k, ptr, n)
  {
    HeldBySomeSlot(k, ptr, n);
    if Fits(k, ptr, n) {
      ShrShr(ptr, k, 64 - k);
      ShrShr(ptr + n - 1, k, 64 - k);
      Pow2Of64();
      ShrUnique(ptr, 64, 0, ptr);
      ShrMonotone(WORDS, ptr + n - 1, 64);
      ShrUnique(WORDS, 64, 1, 0);
    }
  }

  /** The promise holds unless the region wraps around and ends, below its start, in the 4 GiB
      block it started in. */
  lemma PromiseExactly(ptr: uint64, s: uint64)
    ensures Promise(ptr, s) <==>
      (ptr + RegionSize(s) <= WORDS ||
       ptr / 0x1_0000_0000 != (ptr + RegionSize(s) - 1 - WORDS) / 0x1_0000_0000)
  {
    var n := RegionSize(s);
    if ptr + n <= WORDS {
      DifferenceBits(ptr, s, 32);
      forall k: nat | k <= 32 && Fits(k, ptr, n)
        ensures TryBox(ptr, s).Some?
      {
        DifferenceBits(ptr, s, k);
      }
    } else {
      var last := ptr + n - 1 - WORDS;
      assert last == (ptr + n - 1) % WORDS;
      BitLengthBound(XorNat(ptr, last), 32);
      XorBound(ptr, last, 32);
      Shr32(ptr);
      Shr32(last);
      forall k: nat | k <= 32
        ensures !Fits(k, ptr, n)
      {
        WrappingRegionNotHeld(ptr, n, k);
      }
    }
  }

  /** A region of all but one byte of the address space is boxed into a four-byte slot. */
  lemma PromiseFails()
    ensures TryBox(3, 0xFFFF_FFFF_FFFF_FFFF) == Some(3)
    ensures !Promise(3, 0xFFFF_FFFF_FFFF_FFFF)
  {
    assert XorNat(3, 1) == 2;
    assert BitLength(2) == 2;
    PromiseExactly(3, 0xFFFF_FFFF_FFFF_FFFF);
  }

  // ------------------------------------------------------------------------
  // Offsets inside a slot
  // ------------------------------------------------------------------------

  /** ca_get_inbound_offset. */
  function InboundOffset(ptr: uint64, i: uint64): nat
    requires CaGetSize(ptr) >= 1
  {
    var mask := Pow2(CaGetSize(ptr) - 1) - 1;
    var max := mask - Low(ptr, CaGetSize(ptr) - 1);
    if i < max then i else max
  }

  /** It is the largest offset up to i that stays in the slot. */
  lemma InboundOffsetLargest(ptr: uint64, i: uint64)
    requires CaGetSize(ptr) >= 1
    ensures var size, r := CaGetSize(ptr), InboundOffset(ptr, i);
      r <= i && forall q: nat | ptr <= q <= ptr + i :: SameSlot(ptr, q, size) <==> q <= ptr + r
  {
    hide Low, Pow2;
    var k := CaGetSize(ptr) - 1;
    forall q: nat | ptr <= q <= ptr + i
      ensures SameSlot(ptr, q, CaGetSize(ptr)) <==> Low(ptr, k) + (q - ptr) < Pow2(k)
    {
      OffsetStays(ptr, q - ptr, k);
    }
  }

  lemma OffsetStays(a: nat, j: nat, k: nat)
    ensures High(a, k) == High(a + j, k) <==> Low(a, k) + j < Pow2(k)
  {
    ShrLow(a, k);
    if Low(a, k) + j < Pow2(k) {
      ShrUnique(a + j, k, Shr(a, k), Low(a, k) + j);
    }
    if High(a, k) == High(a + j, k) {
      assert Low(a + j, k) == Low(a, k) + j;
    }
  }

  // ------------------------------------------------------------------------
  // From an allocation to its pointer
  // ------------------------------------------------------------------------

  /** cc_isa_encptr_sv: box the region and encode; a region that cannot be boxed keeps its address. */
  function EncodeRegion(bc: BlockCipher, p: uint64, s: uint64, version: nat): (r: uint64)
    requires version < 0x100
  {
    match TryBox(p, s)
    case Some(size) => EncodePointer(bc, p, PtrMetadata(size, version))
    case None => p
  }

  /** Every byte of a boxed region is reached by arithmetic on its encoded pointer. */
  lemma EncodedPointerReachesRegion(bc: BlockCipher, p: uint64, s: uint64, version: nat, i: nat)
    requires bc.Invertible() && IsCanonical(p) && version < 0x100
    requires p + RegionSize(s) <= WORDS && i < RegionSize(s) && TryBox(p, s).Some?
    ensures var e := EncodeRegion(bc, p, s, version);
      && e + i < WORDS && IsEncodedCcPtr(e + i) && DecodePointer(bc, e + i) == p + i
  {
    hide LeadingZeroes, Fits, Low, Shr, Pow2, IsCanonical, EncodePointer, DecodePointer;
    TryBoxSmallest(p, s);
    var size := TryBox(p, s).value;
    HeldBySomeSlot(size - 1, p, RegionSize(s));
    ShrMonotone(p, p + i, size - 1);
    ShrMonotone(p + i, p + RegionSize(s) - 1, size - 1);
    SameHigh(p, p + i, size - 1);
    PointerRoundTrip(bc, p, PtrMetadata(size, version), i);
  }

  /** The pointer of a boxed region carries its size field, and its version with the address bits
      above 32 under the pointer cipher; a region that cannot be boxed keeps its address. */
  lemma RegionFields(bc: BlockCipher, p: uint64, s: uint64, version: nat)
    requires version < 0x100
    ensures var e := EncodeRegion(bc, p, s, version);
      match TryBox(p, s)
      case None => e == p
      case Some(size) =>
        var x := bc.enc(version * 0x8000 + p / 0x1_0000_0000 % 0x8000,
                        High(p % 0x1_0000_0000, size - 1) + size * 0x1_0000_0000);
        && e / 0x200_0000_0000_0000 % 0x40 == size && e % 0x1_0000_0000 == p % 0x1_0000_0000
        && e / 0x1_0000_0000 % 0x8000 == x % 0x8000 && e / 0x1_0000_0000_0000 % 0x200 == x / 0x8000
  {
    hide TryBox, EncodePointer, High;
    match TryBox(p, s)
    case None =>
    case Some(size) => EncodedFields(bc, p, PtrMetadata(size, version));
  }

  /** No CA is the last word of the address space. */
  lemma EncodedHasRoom(x: uint64)
    requires IsEncodedCcPtr(x)
    ensures x + 64 < WORDS
  {
  }

  /** A slot of at most 4 GiB does not leave its half of the address space. */
  lemma RegionIsCanonical(p: uint64, s: uint64, i: nat)
    requires IsCanonical(p) && p + RegionSize(s) <= WORDS && i < RegionSize(s) && TryBox(p, s).Some?
    ensures IsCanonical(p + i)
  {
    hide LeadingZeroes, Fits;
    TryBoxSmallest(p, s);
    var k := TryBox(p, s).value - 1;
    HeldBySomeSlot(k, p, RegionSize(s));
    SameBlock(p, p + RegionSize(s) - 1, k);
    assert p / 0x1_0000_0000 <= (p + i) / 0x1_0000_0000 <= (p + RegionSize(s) - 1) / 0x1_0000_0000;
    CanonicalByHigh(p, p + i);
  }

  lemma SameBlock(a: nat, b: nat, k: nat)
    requires k <= 32 && Shr(a, k) == Shr(b, k)
    ensures a / 0x1_0000_0000 == b / 0x1_0000_0000
  {
    ShrShr(a, k, 32 - k);
    ShrShr(b, k, 32 - k);
    Shr32(a);
    Shr32(b);
  }

  lemma CanonicalByHigh(a: uint64, b: uint64)
    requires a / 0x1_0000_0000 == b / 0x1_0000_0000
    ensures IsCanonical(a) == IsCanonical(b)
  {
  }

  /** x is a CA that decodes to the canonical address of the byte x - e places into the region. */
  predicate ReachesByte(bc: BlockCipher, e: nat, p: nat, x: nat)
    requires e <= x
  {
    x < WORDS && p + (x - e) < WORDS &&
    IsEncodedCcPtr(x) && DecodePointer(bc, x) == p + (x - e) && IsCanonical(p + (x - e))
  }

  /** The pointer of a boxed region: every byte of it is a CA of its own that decodes to the
      canonical address of the byte, and there is room above. */
  lemma RegionPointer(bc: BlockCipher, p: uint64, s: uint64, version: nat)
    requires bc.Invertible() && IsCanonical(p) && version < 0x100
    requires p + RegionSize(s) <= WORDS && TryBox(p, s).Some?
    ensures var e, n := EncodeRegion(bc, p, s, version), RegionSize(s);
      && e + n + 8 < WORDS
      && forall x: nat | e <= x < e + n :: ReachesByte(bc, e, p, x)
  {
    hide EncodeRegion, TryBox, CaGetSize, IsCanonical, DecodePointer, RegionSize, ReachesByte;
    var e, n := EncodeRegion(bc, p, s, version), RegionSize(s);
    SomeByte(s);
    EncodedPointerReachesRegion(bc, p, s, version, n - 1);
    EncodedHasRoom(e + (n - 1));
    forall x: nat | e <= x < e + n
      ensures ReachesByte(bc, e, p, x)
    {
      RegionByte(bc, p, s, version, x);
    }
  }

  lemma SomeByte(s: uint64)
    ensures RegionSize(s) >= 1
  {
  }

  lemma RegionByte(bc: BlockCipher, p: uint64, s: uint64, version: nat, x: nat)
    requires bc.Invertible() && IsCanonical(p) && version < 0x100
    requires p + RegionSize(s) <= WORDS && TryBox(p, s).Some?
    requires EncodeRegion(bc, p, s, version) <= x < EncodeRegion(bc, p, s, version) + RegionSize(s)
    ensures ReachesByte(bc, EncodeRegion(bc, p, s, version), p, x)
  {
    hide EncodeRegion, TryBox, CaGetSize, IsCanonical, DecodePointer, RegionSize;
    var i := x - EncodeRegion(bc, p, s, version);
    EncodedPointerReachesRegion(bc, p, s, version, i);
    RegionIsCanonical(p, s, i);
    assert EncodeRegion(bc, p, s, version) + i == x;
  }
}
