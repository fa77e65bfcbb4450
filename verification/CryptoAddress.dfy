/** Cryptographic addresses: their bit layout and slots (c3lib/c3/generic/ca.h) and pointer
    encoding (crypto/cc_encoding.h). */
module CryptoAddress {
  import opened Words
  import opened BipBip
  import BipBipKeys

  // ------------------------------------------------------------------------
  // Layout
  // ------------------------------------------------------------------------

  /** The fields of ca_t. version_ and ciphertext_high_ name the same nine bits;
      s_extended_ is those nine bits together with the six of enc_size_. */
  datatype CaFields = CaFields(
    plaintext: nat, ciphertextLow: nat, sPrime: nat, ciphertextHigh: nat, encSize: nat, sBit: nat)
  {
    predicate Fits() {
      plaintext < 0x1_0000_0000 && ciphertextLow < 0x8000 && sPrime < 2 &&
      ciphertextHigh < 0x200 && encSize < 0x40 && sBit < 2
    }
  }

  type Ca = c: CaFields | c.Fits() witness CaFields(0, 0, 0, 0, 0, 0)

  function GetCa(w: uint64): Ca {
    var r32 := w / 0x1_0000_0000;
    var r47 := r32 / 0x8000;
    var r48 := r47 / 2;
    var r57 := r48 / 0x200;
    var r63 := r57 / 0x40;
    CaFields(w % 0x1_0000_0000, r32 % 0x8000, r47 % 2, r48 % 0x200, r57 % 0x40, r63)
  }

  function ToWord(c: Ca): uint64 {
    c.plaintext + 0x1_0000_0000 * Above32(c)
  }

  /** The word without its low 32 bits. */
  function Above32(c: Ca): (r: nat)
    ensures r < 0x1_0000_0000
  {
    c.ciphertextLow + 0x8000 * (c.sPrime + 2 * (c.ciphertextHigh + 0x200 * (c.encSize + 0x40 * c.sBit)))
  }

  lemma GetCaOfWord(c: Ca)
    ensures GetCa(ToWord(c)) == c
  {
    var r57 := c.encSize + 0x40 * c.sBit;
    var r48 := c.ciphertextHigh + 0x200 * r57;
    var r47 := c.sPrime + 2 * r48;
    var r32 := c.ciphertextLow + 0x8000 * r47;
    assert ToWord(c) / 0x1_0000_0000 == r32;
    assert r32 / 0x8000 == r47;
    assert r47 / 2 == r48;
    assert r48 / 0x200 == r57;
  }

  lemma PlaintextOfWord(c: Ca)
    ensures ToWord(c) % 0x1_0000_0000 == c.plaintext
  {
    hide Above32;
  }

  lemma WordOfGetCa(w: uint64)
    ensures ToWord(GetCa(w)) == w
  {
  }

  function CaGetSize(w: uint64): nat {
    GetCa(w).encSize
  }

  predicate IsEncodedCcPtr(w: uint64) {
    CaGetSize(w) != 0 && CaGetSize(w) != 0x3F
  }

  predicate IsCanonical(w: uint64) {
    w / 0x8000_0000_0000 == 0 || w / 0x8000_0000_0000 == 0x1_FFFF
  }

  lemma CanonicalFields(w: uint64)
    ensures IsCanonical(w) <==> var c := GetCa(w);
      c.ciphertextHigh == 0x1FF * c.sPrime && c.encSize == 0x3F * c.sPrime && c.sBit == c.sPrime
  {
  }

  /** The fields by their bit positions. */
  lemma FieldsOfWord(w: uint64)
    ensures GetCa(w) == CaFields(
      w % 0x1_0000_0000, w / 0x1_0000_0000 % 0x8000, w / 0x8000_0000_0000 % 2,
      w / 0x1_0000_0000_0000 % 0x200, w / 0x200_0000_0000_0000 % 0x40, w / 0x8000_0000_0000_0000)
    ensures IsEncodedCcPtr(w) <==> 1 <= w / 0x200_0000_0000_0000 % 0x40 <= 62
  {
    Shift47(w);
    Shift48(w);
    Shift57(w);
    Shift63(w);
  }

  lemma Shift47(w: nat)
    ensures w / 0x8000_0000_0000 == w / 0x1_0000_0000 / 0x8000
  {
  }

  lemma Shift48(w: nat)
    ensures w / 0x1_0000_0000_0000 == w / 0x8000_0000_0000 / 2
  {
  }

  lemma Shift57(w: nat)
    ensures w / 0x200_0000_0000_0000 == w / 0x1_0000_0000_0000 / 0x200
  {
  }

  lemma Shift63(w: nat)
    ensures w / 0x8000_0000_0000_0000 == w / 0x200_0000_0000_0000 / 0x40
  {
  }

  // ------------------------------------------------------------------------
  // Encoding and decoding
  // ------------------------------------------------------------------------

  /** The two directions of the pointer cipher under one key. */
  datatype BlockCipher = BlockCipher(enc: (uint24, uint64) -> uint24, dec: (uint24, uint64) -> uint24) {
    ghost predicate Invertible() {
      forall x: uint24, t: uint64 :: dec(enc(x, t), t) == x
    }
  }

  function BipBipCipher(ks: KeySchedule): (bc: BlockCipher)
    ensures bc.Invertible()
  {
    BipBipInvertible(ks);
    BlockCipher((x: uint24, t: uint64) => EncryptWith(ks, x, t), (x: uint24, t: uint64) => DecryptWith(ks, x, t))
  }

  /** Its two directions are those of BipBip under the key schedule. */
  lemma CipherIsBipBip(ks: KeySchedule, x: uint24, t: uint64)
    ensures BipBipCipher(ks).enc(x, t) == EncryptWith(ks, x, t)
    ensures BipBipCipher(ks).dec(x, t) == DecryptWith(ks, x, t)
  {
    hide EncryptWith, DecryptWith;
  }

  lemma BipBipInvertible(ks: KeySchedule)
    ensures forall x: uint24, t: uint64 :: DecryptWith(ks, EncryptWith(ks, x, t), t) == x
  {
    hide EncryptWith, DecryptWith;
    forall x: uint24, t: uint64
      ensures DecryptWith(ks, EncryptWith(ks, x, t), t) == x
    {
      CipherInverse(ks, x, t);
    }
  }

  /** Size field 1 to 33: slots of one byte to 4 GiB. */
  type SlotSize = s: nat | 1 <= s <= 33 witness 1

  datatype PtrMetadata = PtrMetadata(size: nat, version: nat)
  type Metadata = md: PtrMetadata | 1 <= md.size < 0x3F && md.version < 0x200 witness PtrMetadata(1, 0)

  function Ciphertext(c: Ca): uint24 {
    c.ciphertextHigh * 0x8000 + c.ciphertextLow
  }

  function WithCiphertext(c: Ca, x: uint24): Ca {
    c.(ciphertextLow := x % 0x8000, ciphertextHigh := x / 0x8000)
  }

  /** The immutable plaintext bits, with the size field above them. */
  function GenerateTweak(c: Ca, size: nat): uint64
    requires 1 <= size < 0x40
  {
    High(c.plaintext, size - 1) + size * 0x1_0000_0000
  }

  /** Two pointers are encrypted under the same schedule if and only if they have the same size
      and the same fixed plaintext bits: every slot has a schedule of its own. */
  lemma SlotsHaveSchedules(ks: KeySchedule, c: Ca, n: nat, d: Ca, m: nat)
    requires 1 <= n < 0x40 && 1 <= m < 0x40
    ensures TwkSc(PadTweak(GenerateTweak(c, n)), ks) == TwkSc(PadTweak(GenerateTweak(d, m)), ks) <==>
      n == m && High(c.plaintext, n - 1) == High(d.plaintext, m - 1)
  {
    hide TwkSc, PadTweak, High, Low;
    var t, u := GenerateTweak(c, n), GenerateTweak(d, m);
    HighBelow(c.plaintext, n - 1);
    HighBelow(d.plaintext, m - 1);
    assert t < 0x100_0000_0000 && u < 0x100_0000_0000;
    if t != u {
      BipBipKeys.TweakMatters(t, u, ks);
    }
  }

  lemma HighBelow(x: nat, k: nat)
    ensures High(x, k) <= x
  {
    ShrLow(x, k);
  }

  function EncryptPtr(bc: BlockCipher, c: Ca, md: Metadata): Ca {
    WithCiphertext(c, bc.enc(Ciphertext(c), GenerateTweak(c, md.size)))
  }

  function DecryptPtr(bc: BlockCipher, c: Ca): Ca
    requires c.encSize != 0
  {
    WithCiphertext(c, bc.dec(Ciphertext(c), GenerateTweak(c, c.encSize)))
  }

  function DecoratePtr(c: Ca, md: Metadata): Ca {
    c.(ciphertextHigh := md.version, encSize := md.size)
  }

  function UndecoratePtr(c: Ca): Ca {
    c.(ciphertextHigh := 0x1FF * c.sPrime, encSize := 0x3F * c.sPrime)
  }

  /** Encoding sets the size field and leaves the 32 plaintext bits alone. */
  function EncodePointer(bc: BlockCipher, p: uint64, md: Metadata): (r: uint64)
    ensures CaGetSize(r) == md.size && IsEncodedCcPtr(r)
    ensures r % 0x1_0000_0000 == p % 0x1_0000_0000
  {
    GetCaOfWord(EncryptPtr(bc, DecoratePtr(GetCa(p), md), md));
    ToWord(EncryptPtr(bc, DecoratePtr(GetCa(p), md), md))
  }

  function DecodePointer(bc: BlockCipher, p: uint64): (r: uint64)
    requires CaGetSize(p) != 0
    ensures r % 0x1_0000_0000 == p % 0x1_0000_0000
  {
    hide High, ToWord;
    PlaintextOfWord(UndecoratePtr(DecryptPtr(bc, GetCa(p))));
    ToWord(UndecoratePtr(DecryptPtr(bc, GetCa(p))))
  }

  /** An encoded pointer, bit by bit: the version and address bits 32 to 46 are encrypted under
      the plaintext bits above the slot offset and the size; all else is in the clear. */
  lemma EncodedFields(bc: BlockCipher, p: uint64, md: Metadata)
    ensures var e := EncodePointer(bc, p, md);
      var x := bc.enc(md.version * 0x8000 + p / 0x1_0000_0000 % 0x8000,
                      High(p % 0x1_0000_0000, md.size - 1) + md.size * 0x1_0000_0000);
      && e % 0x1_0000_0000 == p % 0x1_0000_0000
      && e / 0x1_0000_0000 % 0x8000 == x % 0x8000
      && e / 0x8000_0000_0000 % 2 == p / 0x8000_0000_0000 % 2
      && e / 0x1_0000_0000_0000 % 0x200 == x / 0x8000
      && e / 0x200_0000_0000_0000 % 0x40 == md.size
      && e / 0x8000_0000_0000_0000 == p / 0x8000_0000_0000_0000
  {
    hide High, GetCa;
    var e := EncodePointer(bc, p, md);
    FieldsOfWord(p);
    FieldsOfWord(e);
    GetCaOfWord(EncryptPtr(bc, DecoratePtr(GetCa(p), md), md));
  }

  /** A decoded pointer, bit by bit: address bits 32 to 46 are decrypted under the same tweak,
      and the bits above repeat the sign bit. */
  lemma DecodedFields(bc: BlockCipher, p: uint64)
    requires CaGetSize(p) != 0
    ensures var r, size := DecodePointer(bc, p), p / 0x200_0000_0000_0000 % 0x40;
      size != 0 &&
      var x := bc.dec(p / 0x1_0000_0000_0000 % 0x200 * 0x8000 + p / 0x1_0000_0000 % 0x8000,
                      High(p % 0x1_0000_0000, size - 1) + size * 0x1_0000_0000);
      && r % 0x1_0000_0000 == p % 0x1_0000_0000
      && r / 0x1_0000_0000 % 0x8000 == x % 0x8000
      && r / 0x8000_0000_0000 % 2 == p / 0x8000_0000_0000 % 2
      && r / 0x1_0000_0000_0000 % 0x200 == 0x1FF * (p / 0x8000_0000_0000 % 2)
      && r / 0x200_0000_0000_0000 % 0x40 == 0x3F * (p / 0x8000_0000_0000 % 2)
      && r / 0x8000_0000_0000_0000 == p / 0x8000_0000_0000_0000
  {
    hide High, GetCa;
    FieldsOfWord(p);
    FieldsOfWord(DecodePointer(bc, p));
    GetCaOfWord(UndecoratePtr(DecryptPtr(bc, GetCa(p))));
  }

  // ------------------------------------------------------------------------
  // Slots
  // ------------------------------------------------------------------------

  /** a and b lie in one slot of 2^(size-1) bytes: they agree under get_tweak_mask(size). */
  predicate SameSlot(a: nat, b: nat, size: nat)
    requires size >= 1
  {
    High(a, size - 1) == High(b, size - 1)
  }

  lemma Shr32(a: nat)
    ensures Shr(a, 32) == a / 0x1_0000_0000
  {
    Pow2Of32();
    ShrUnique(a, 32, a / 0x1_0000_0000, a % 0x1_0000_0000);
  }

  /** A slot of at most 4 GiB is decided by the 32 plaintext bits. */
  lemma SlotOfPlaintext(a: nat, k: nat)
    requires k <= 32
    ensures Low(a, k) == Low(a % 0x1_0000_0000, k)
    ensures Shr(a, k) == a / 0x1_0000_0000 * Pow2(32 - k) + Shr(a % 0x1_0000_0000, k)
  {
    hide Low, Shr, Pow2;
    var h, l := a / 0x1_0000_0000, a % 0x1_0000_0000;
    Pow2Of32();
    Pow2Sum(32 - k, k);
    assert h * (Pow2(32 - k) * Pow2(k)) == (h * Pow2(32 - k)) * Pow2(k);
    LowOfSum(h * Pow2(32 - k), l, k);
  }

  /** Two words share a slot exactly when they agree above 2^32 and their plaintext bits share it. */
  lemma SlotBits(a: nat, b: nat, k: nat)
    requires k <= 32
    ensures High(a, k) == High(b, k) <==>
      a / 0x1_0000_0000 == b / 0x1_0000_0000 && High(a % 0x1_0000_0000, k) == High(b % 0x1_0000_0000, k)
  {
    hide Low, Shr, Pow2;
    SlotOfPlaintext(a, k);
    SlotOfPlaintext(b, k);
    if High(a, k) == High(b, k) {
      HighIsShr(a, b, k);
      ShrShr(a, k, 32 - k);
      ShrShr(b, k, 32 - k);
      Shr32(a);
      Shr32(b);
      SameHigh(a % 0x1_0000_0000, b % 0x1_0000_0000, k);
    }
  }

  lemma SameSlotFields(x: uint64, y: uint64, size: SlotSize)
    requires SameSlot(x, y, size)
    ensures GetCa(y) == GetCa(x).(plaintext := y % 0x1_0000_0000)
    ensures SameSlot(GetCa(x).plaintext, GetCa(y).plaintext, size)
    ensures y - x == GetCa(y).plaintext - GetCa(x).plaintext
  {
    SlotBits(x, y, size - 1);
  }

  /** Decoding commutes with arithmetic inside the slot: nothing above the mutable
      bits changes, so the ciphertext decrypts under the same tweak. */
  lemma DecodeShift(bc: BlockCipher, x: uint64, y: uint64)
    requires 1 <= CaGetSize(x) <= 33 && SameSlot(x, y, CaGetSize(x))
    ensures CaGetSize(y) == CaGetSize(x)
    ensures DecodePointer(bc, y) - y == DecodePointer(bc, x) - x
  {
    hide SameSlot;
    SameSlotFields(x, y, CaGetSize(x));
  }

  lemma DecodeOfEncode(bc: BlockCipher, p: uint64, md: Metadata)
    requires bc.Invertible() && IsCanonical(p)
    ensures DecodePointer(bc, EncodePointer(bc, p, md)) == p
  {
    hide GetCa, ToWord, High, IsCanonical;
    var c := DecoratePtr(GetCa(p), md);
    GetCaOfWord(EncryptPtr(bc, c, md));
    DecryptOfEncrypt(bc, c, md);
    CanonicalFields(p);
    WordOfGetCa(p);
  }

  lemma DecryptOfEncrypt(bc: BlockCipher, c: Ca, md: Metadata)
    requires bc.Invertible() && c.encSize == md.size
    ensures DecryptPtr(bc, EncryptPtr(bc, c, md)) == c
  {
    hide High;
  }

  /** A step that stays in p's slot stays in the slot of any word with the same plaintext bits. */
  lemma StaysInSlot(p: uint64, e: uint64, d: int, size: SlotSize)
    requires e % 0x1_0000_0000 == p % 0x1_0000_0000
    requires 0 <= p + d && SameSlot(p, p + d, size)
    ensures 0 <= e + d < 0x1_0000_0000_0000_0000
    ensures SameSlot(e, e + d, size)
  {
    hide Low, Shr, Pow2;
    var k := size - 1;
    SlotBits(p, p + d, k);
    assert (e + d) % 0x1_0000_0000 == (p + d) % 0x1_0000_0000 && (e + d) / 0x1_0000_0000 == e / 0x1_0000_0000;
    SlotOfPlaintext(e, k);
    SlotOfPlaintext(e + d, k);
    HighIsShr((e + d) % 0x1_0000_0000, e % 0x1_0000_0000, k);
    SameHigh(e, e + d, k);
  }

  /** Pointer round trip under arithmetic, for every step d that keeps p + d in the slot:
      no carry leaves the mutable bits, and the moved pointer decodes to p + d. */
  lemma PointerRoundTrip(bc: BlockCipher, p: uint64, md: Metadata, d: int)
    requires bc.Invertible() && IsCanonical(p) && md.size <= 33
    requires 0 <= p + d && SameSlot(p, p + d, md.size)
    ensures var e := EncodePointer(bc, p, md);
      && 0 <= e + d < 0x1_0000_0000_0000_0000
      && SameSlot(e, e + d, md.size)
      && CaGetSize(e + d) == md.size
      && DecodePointer(bc, e + d) == p + d
  {
    hide EncodePointer, DecodePointer, Low;
    var e := EncodePointer(bc, p, md);
    StaysInSlot(p, e, d, md.size);
    DecodeShift(bc, e, e + d);
    DecodeOfEncode(bc, p, md);
  }
}
