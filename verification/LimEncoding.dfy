/** LIM slots, metadata placement and bounds (malloc/lim_ptr_encoding.h). */
module LimEncoding {
  import opened Words
  import opened Wrappers
  import opened Buffers

  const MIN_ENCODED_SIZE: nat := 5
  const MAX_ENCODED_SIZE: nat := 56

  /** An encoded size that check_encoded_size lets through. */
  type SizeCode = e: nat | 5 <= e <= 56 witness 5

  // ------------------------------------------------------------------------
  // Pointers
  // ------------------------------------------------------------------------

  /** base_addr 54 bits, tag 4, enc_size 6. */
  function DecodePointer(p: uint64): nat {
    p % 0x40_0000_0000_0000
  }

  function EncodedTag(p: uint64): nat {
    p / 0x40_0000_0000_0000 % 16
  }

  function EncodedSizeOf(p: uint64): (r: nat)
    ensures r < 64
  {
    p / 0x400_0000_0000_0000
  }

  predicate IsEncodedLimPtr(p: uint64) {
    EncodedSizeOf(p) != 0 && EncodedSizeOf(p) != 0x3F
  }

  function EncodePointer(addr: uint64, e: SizeCode, tag: nat): uint64
    requires tag < 16
  {
    addr % 0x40_0000_0000_0000 + 0x40_0000_0000_0000 * tag + 0x400_0000_0000_0000 * e
  }

  lemma PointerFields(addr: uint64, e: SizeCode, tag: nat)
    requires tag < 16
    ensures var p := EncodePointer(addr, e, tag);
      && DecodePointer(p) == addr % 0x40_0000_0000_0000 && EncodedTag(p) == tag
      && EncodedSizeOf(p) == e && IsEncodedLimPtr(p)
  {
    var p := EncodePointer(addr, e, tag);
    assert p / 0x40_0000_0000_0000 == tag + 16 * e;
  }

  // ------------------------------------------------------------------------
  // Slots
  // ------------------------------------------------------------------------

  function SlotSize(e: SizeCode): nat {
    Pow2(e)
  }

  function SlotStart(a: nat, e: SizeCode): nat {
    High(a, e)
  }

  function SlotEnd(a: nat, e: SizeCode): nat {
    (Shr(a, e) + 1) * Pow2(e) - 1
  }

  function MiddleAddress(a: nat, e: SizeCode): nat {
    High(a, e) + Pow2(e - 1)
  }

  function MetadataOffset(e: SizeCode): nat {
    if SlotSize(e) <= 64 then 0 else if SlotSize(e) <= 256 then 1 else 8
  }

  function MetadataSize(e: SizeCode): (m: nat)
    ensures m == 1 || m == 2 || m == 16
  {
    if SlotSize(e) <= 64 then 1 else if SlotSize(e) <= 256 then 2 else 16
  }

  function MetadataAddress(a: nat, e: SizeCode): int {
    MiddleAddress(a, e) - MetadataOffset(e)
  }

  lemma {:induction false} Pow2Monotone(j: nat, k: nat)
    requires j <= k
    ensures Pow2(j) <= Pow2(k)
  {
    if j < k {
      Pow2Monotone(j, k - 1);
    }
  }

  /** The metadata of every slot lies around its middle: bytes M-8 to M+7 at most. */
  lemma SlotGeometry(a: nat, e: SizeCode)
    ensures var h := Pow2(e - 1);
      && h >= 16 && SlotSize(e) == 2 * h
      && SlotStart(a, e) <= a <= SlotEnd(a, e)
      && MiddleAddress(a, e) == SlotStart(a, e) + h
      && SlotEnd(a, e) == MiddleAddress(a, e) + h - 1
    ensures MiddleAddress(a, e) - 8 <= MetadataAddress(a, e) <= MiddleAddress(a, e)
    ensures MiddleAddress(a, e) <= MetadataAddress(a, e) + MetadataSize(e) - 1 <= MiddleAddress(a, e) + 7
  {
    hide Low, Shr;
    ShrLow(a, e);
    Pow2Monotone(4, e - 1);
    assert Pow2(4) == 16;
    assert (Shr(a, e) + 1) * Pow2(e) == Shr(a, e) * Pow2(e) + Pow2(e);
  }

  /** The metadata by slot size: 1 byte at the middle of slots up to 64 bytes, 2 bytes around it
      up to 256, 16 bytes around it above. */
  lemma MetadataPlace(a: nat, e: SizeCode)
    ensures e <= 6 ==> MetadataSize(e) == 1 && MetadataAddress(a, e) == MiddleAddress(a, e)
    ensures 7 <= e <= 8 ==> MetadataSize(e) == 2 && MetadataAddress(a, e) == MiddleAddress(a, e) - 1
    ensures e >= 9 ==> MetadataSize(e) == 16 && MetadataAddress(a, e) == MiddleAddress(a, e) - 8
  {
    hide MiddleAddress, Pow2;
    SizeClasses(e);
  }

  // ------------------------------------------------------------------------
  // The slot of an allocation
  // ------------------------------------------------------------------------

  function ChunkSize(size: nat): (r: nat)
    ensures r >= size && r >= 24
  {
    if size < 24 then 24 else size
  }

  /** calculate_encoded_size; None where check_encoded_size aborts. */
  function CalculateEncodedSize(ptr: uint64, size: uint64): Option<SizeCode> {
    var bits := BitLength(XorNat(ptr, (ptr + ChunkSize(size) - 1) % WORDS));
    var e := if bits <= MIN_ENCODED_SIZE then MIN_ENCODED_SIZE else bits;
    if e <= MAX_ENCODED_SIZE then Some(e) else None
  }

  /** The chosen slot is the smallest that holds the chunk, so the chunk starts in its lower
      half and ends in its upper half; the start keeps 16 bytes from the middle. */
  lemma ChunkStraddlesMiddle(ptr: uint64, size: uint64)
    requires ptr % 16 == 0 && ptr + ChunkSize(size) <= WORDS
    requires CalculateEncodedSize(ptr, size).Some?
    ensures var e, last := CalculateEncodedSize(ptr, size).value, ptr + ChunkSize(size) - 1;
      var m := MiddleAddress(ptr, e);
      && m % 16 == 0 && ptr + 16 <= m <= last
      && last <= SlotEnd(ptr, e) && SlotStart(ptr, e) <= ptr
      && Pow2(e - 1) % 16 == 0
  {
    hide Low, Shr, XorNat, BitLength, Pow2, MiddleAddress, SlotEnd;
    var last := ptr + ChunkSize(size) - 1;
    var bits := BitLength(XorNat(ptr, last));
    FarApart(ptr, last);
    HalvesOfSlot(ptr, last, bits);
    Multiple16(ptr, bits);
    SlotGeometry(ptr, bits);
  }

  /** 24 bytes from a 16-byte boundary never fit in 16. */
  lemma FarApart(ptr: nat, last: nat)
    requires ptr % 16 == 0 && last >= ptr + 23
    ensures BitLength(XorNat(ptr, last)) >= 5
  {
    hide Low, Shr, XorNat, BitLength;
    assert Pow2(4) == 16;
    ShrUnique(ptr, 4, ptr / 16, 0);
    ShrUnique(last, 4, last / 16, last % 16);
    XorBound(ptr, last, 4);
    BitLengthBound(XorNat(ptr, last), 4);
  }

  lemma HalvesOfSlot(ptr: nat, last: nat, e: SizeCode)
    requires ptr <= last && e == BitLength(XorNat(ptr, last))
    ensures ptr < MiddleAddress(ptr, e) <= last <= SlotEnd(ptr, e)
  {
    hide Low, Shr, XorNat, BitLength;
    var s, h := Shr(ptr, e), Pow2(e - 1);
    ShiftsDiffer(ptr, last, e);
    ShrLow(ptr, e - 1);
    ShrLow(last, e - 1);
    ShrLow(ptr, e);
    ShrLow(last, e);
    Products(s, h);
  }

  lemma Products(s: nat, h: nat)
    ensures s * (2 * h) == (2 * s) * h == 2 * (s * h)
    ensures (2 * s + 1) * h == 2 * (s * h) + h
    ensures (s + 1) * (2 * h) == 2 * (s * h) + 2 * h
  {
  }

  /** The top bit of the difference is the one below the slot number: even on the left, odd on the right. */
  lemma ShiftsDiffer(ptr: nat, last: nat, e: SizeCode)
    requires ptr <= last && e == BitLength(XorNat(ptr, last))
    ensures Shr(ptr, e) == Shr(last, e)
    ensures Shr(ptr, e - 1) == 2 * Shr(ptr, e) && Shr(last, e - 1) == 2 * Shr(ptr, e) + 1
  {
    hide Low, Shr, XorNat, BitLength, Pow2;
    BitLengthBound(XorNat(ptr, last), e);
    BitLengthBound(XorNat(ptr, last), e - 1);
    XorBound(ptr, last, e);
    XorBound(ptr, last, e - 1);
    ShrMonotone(ptr, last, e - 1);
    ShrShr(ptr, e - 1, 1);
    ShrShr(last, e - 1, 1);
    HalfShift(Shr(ptr, e - 1));
    HalfShift(Shr(last, e - 1));
  }

  lemma HalfShift(a: nat)
    ensures Shr(a, 1) == a / 2
  {
  }

  lemma Multiple16(a: nat, e: SizeCode)
    ensures MiddleAddress(a, e) % 16 == 0 && Pow2(e - 1) % 16 == 0
  {
    hide Low, Shr;
    ShrLow(a, e);
    Pow2Sum(4, e - 5);
    Pow2Sum(5, e - 5);
    var c := Pow2(e - 5);
    assert Pow2(4) == 16 && Pow2(5) == 32;
    MulOut(Shr(a, e), 32, c);
    MultipleOf16(MiddleAddress(a, e), 2 * (Shr(a, e) * c) + c);
    MultipleOf16(Pow2(e - 1), c);
  }

  lemma MulOut(h: nat, k: nat, c: nat)
    ensures h * (k * c) == k * (h * c)
  {
  }

  lemma MultipleOf16(x: nat, y: nat)
    requires x == 16 * y
    ensures x % 16 == 0
  {
  }

  // ------------------------------------------------------------------------
  // Bounds
  // ------------------------------------------------------------------------

  function EncodeBound(b: nat): nat {
    b / 8
  }

  function DecodeBound(b: nat): nat {
    (b + 1) * 8
  }

  datatype Bounds = Bounds(lower: nat, upper: nat, dataSize: int)

  /** lim_compute_bounded_data_size; None where an assertion of the source fails. */
  function ComputeBounds(ptr: uint64, dataSize: nat, metaSize: nat): Option<Bounds>
    requires dataSize + metaSize < WORDS
  {
    match CalculateEncodedSize(ptr, dataSize + metaSize)
    case None => None
    case Some(e) =>
      var m := MiddleAddress(ptr, e);
      var metaAddr := MetadataAddress(ptr, e);
      if !(metaAddr > ptr && metaAddr <= m) then None
      else
        var lowerBytes := m - 1 - ptr;
        var upperLa := ptr + dataSize + metaSize - 1;
        if m > upperLa && dataSize > 16 then None
        else
          var upperBytes := if m <= upperLa then upperLa - m else 0;
          var lb, ub := EncodeBound(lowerBytes), EncodeBound(upperBytes);
          if DecodeBound(lb) > SlotSize(e) / 2 || DecodeBound(ub) > SlotSize(e) / 2 then None
          else if metaSize != MetadataSize(e) then None
          else Some(Bounds(lb, ub, DecodeBound(lb) + DecodeBound(ub) - metaSize))
  }

  /** Width in bits of a bound field beside m bytes of metadata. */
  function BoundLimit(metaSize: nat): nat {
    if metaSize == 1 then 4 else if metaSize == 2 then 16 else 0x1000_0000_0000_0000
  }

  /** An allocation the allocator may make: 16-byte aligned, in the lower 54 bits, with
      metadata of the size its slot calls for. */
  predicate Allocation(ptr: uint64, dataSize: nat, metaSize: nat) {
    ptr % 16 == 0 && ptr < 0x40_0000_0000_0000 && dataSize + metaSize < WORDS &&
    ptr + ChunkSize(dataSize + metaSize) <= WORDS &&
    CalculateEncodedSize(ptr, dataSize + metaSize).Some? &&
    metaSize == MetadataSize(CalculateEncodedSize(ptr, dataSize + metaSize).value)
  }

  lemma AllocationWhen(ptr: nat, dataSize: nat, metaSize: nat, e: SizeCode)
    requires ptr % 16 == 0 && ptr < 0x1000 && dataSize < 0x1000 && metaSize == MetadataSize(e)
    requires BitLength(XorNat(ptr, ptr + ChunkSize(dataSize + metaSize) - 1)) == e
    ensures Allocation(ptr, dataSize, metaSize)
  {
    hide XorNat, BitLength, Pow2, MetadataSize;
  }

  /** Two addresses in the lower and the upper half of a slot differ in exactly its size in bits. */
  lemma HalvesDiffer(ptr: nat, last: nat, e: SizeCode, s: nat, i: nat, j: nat)
    requires ptr == (2 * s) * Pow2(e - 1) + i && last == (2 * s + 1) * Pow2(e - 1) + j
    requires i < Pow2(e - 1) && j < Pow2(e - 1)
    ensures BitLength(XorNat(ptr, last)) == e
  {
    hide XorNat, BitLength, Pow2, Shr, Low;
    ShrUnique(ptr, e - 1, 2 * s, i);
    ShrUnique(last, e - 1, 2 * s + 1, j);
    ShrShr(ptr, e - 1, 1);
    ShrShr(last, e - 1, 1);
    HalfShift(2 * s);
    HalfShift(2 * s + 1);
    XorBound(ptr, last, e - 1);
    XorBound(ptr, last, e);
    BitLengthBound(XorNat(ptr, last), e - 1);
    BitLengthBound(XorNat(ptr, last), e);
  }

  /** Allocations with metadata of each of the three sizes. */
  lemma SomeAllocations()
    ensures Allocation(32, 20, 1) && Allocation(64, 100, 2) && Allocation(512, 600, 16)
  {
    hide Allocation, XorNat, BitLength;
    SmallPowers();
    assert Pow2(4) == 16 && Pow2(10) == 1024;
    SizeClasses(5);
    SizeClasses(8);
    SizeClasses(11);
    HalvesDiffer(32, 55, 5, 1, 0, 7);
    HalvesDiffer(64, 165, 8, 0, 64, 37);
    HalvesDiffer(512, 1127, 11, 0, 512, 103);
    AllocationWhen(32, 20, 1, 5);
    AllocationWhen(64, 100, 2, 8);
    AllocationWhen(512, 600, 16, 11);
  }

  function RoundUp8(x: nat): (r: nat)
    ensures x <= r < x + 8 && r % 8 == 0
  {
    (x + 7) / 8 * 8
  }

  /** Where the bounds of an allocation that ends before address end stop: at the first 8-byte
      boundary from there on, but not before the 8 bytes above the middle. */
  function BoundedEnd(middle: nat, end: nat): nat {
    RoundUp8(if middle < end then end else middle + 1)
  }

  /** No assertion fails, no bound is truncated by its field, and the bounds say: from the
      pointer itself to BoundedEnd, which is inside the slot and within 8 bytes of the chunk. */
  lemma BoundsOfAllocation(ptr: uint64, dataSize: nat, metaSize: nat)
    requires Allocation(ptr, dataSize, metaSize)
    ensures var e := CalculateEncodedSize(ptr, dataSize + metaSize).value;
      var m := MiddleAddress(ptr, e);
      && ComputeBounds(ptr, dataSize, metaSize).Some?
      && var b := ComputeBounds(ptr, dataSize, metaSize).value;
      && b.lower < BoundLimit(metaSize) && b.upper < BoundLimit(metaSize)
      && m - DecodeBound(b.lower) == ptr
      && m + DecodeBound(b.upper) == BoundedEnd(m, ptr + dataSize + metaSize)
      && ptr + dataSize + metaSize - 1 <= m + DecodeBound(b.upper) - 1 <= SlotEnd(ptr, e)
      && m + DecodeBound(b.upper) <= RoundUp8(ptr + ChunkSize(dataSize + metaSize))
      && b.dataSize == m + DecodeBound(b.upper) - ptr - metaSize >= dataSize
  {
    hide Low, Shr, Pow2, MiddleAddress, SlotEnd, SlotStart, CalculateEncodedSize, MetadataAddress, MetadataSize;
    hide EncodeBound, DecodeBound, BoundLimit, RoundUp8, BoundedEnd, ChunkSize, ComputeBounds;
    var e: nat := CalculateEncodedSize(ptr, dataSize + metaSize).value;
    ChunkStraddlesMiddle(ptr, dataSize + metaSize);
    SlotGeometry(ptr, e);
    BoundWidths(e);
    BoundFacts(ptr, dataSize + metaSize, MiddleAddress(ptr, e), Pow2(e - 1));
    UnfoldBounds(ptr, dataSize, metaSize, e);
  }

  /** The value of ComputeBounds where all its conditions hold. */
  lemma UnfoldBounds(ptr: uint64, dataSize: nat, metaSize: nat, e: SizeCode)
    requires dataSize + metaSize < WORDS && metaSize == MetadataSize(e) && SlotSize(e) == 2 * Pow2(e - 1)
    requires CalculateEncodedSize(ptr, dataSize + metaSize) == Some(e)
    requires ptr < MetadataAddress(ptr, e) <= MiddleAddress(ptr, e)
    requires MiddleAddress(ptr, e) > ptr + dataSize + metaSize - 1 ==> dataSize <= 16
    requires var m, upperLa := MiddleAddress(ptr, e), ptr + dataSize + metaSize - 1;
      && DecodeBound(EncodeBound(m - 1 - ptr)) <= Pow2(e - 1)
      && DecodeBound(EncodeBound(if m <= upperLa then upperLa - m else 0)) <= Pow2(e - 1)
    ensures var m, upperLa := MiddleAddress(ptr, e), ptr + dataSize + metaSize - 1;
      var lb, ub := EncodeBound(m - 1 - ptr), EncodeBound(if m <= upperLa then upperLa - m else 0);
      ComputeBounds(ptr, dataSize, metaSize) == Some(Bounds(lb, ub, DecodeBound(lb) + DecodeBound(ub) - metaSize))
  {
    hide MiddleAddress, MetadataAddress, MetadataSize, CalculateEncodedSize, EncodeBound, DecodeBound, SlotSize, Pow2;
  }

  lemma BoundFacts(ptr: nat, size: nat, m: nat, h: nat)
    requires ptr % 16 == 0 && m % 16 == 0 && h % 16 == 0 && size > 0
    requires ptr + 16 <= m <= ptr + h && m < ptr + ChunkSize(size) <= m + h
    ensures var upperLa := ptr + size - 1;
      var lb, ub := EncodeBound(m - 1 - ptr), EncodeBound(if m <= upperLa then upperLa - m else 0);
      && (m > upperLa ==> size <= 16)
      && DecodeBound(lb) == m - ptr && lb < h / 8 && ub < h / 8
      && upperLa <= m + DecodeBound(ub) - 1 <= m + h - 1
      && m + DecodeBound(ub) == BoundedEnd(m, upperLa + 1) <= RoundUp8(ptr + ChunkSize(size))
  {
    hide EncodeBound, DecodeBound, RoundUp8;
    var upperLa := ptr + size - 1;
    var bytes := if m <= upperLa then upperLa - m else 0;
    LastOf16(ptr, m);
    ShortOfMiddle(ptr, size, m);
    RoundBound(m - 1 - ptr, h);
    RoundBound(bytes, h);
    RoundAbove(m, bytes);
    RoundUpOrder(m + bytes + 1, ptr + ChunkSize(size));
  }

  lemma LastOf16(a: nat, m: nat)
    requires a % 16 == 0 && m % 16 == 0 && a < m
    ensures (m - 1 - a) % 16 == 15
  {
  }

  /** Only a chunk that was enlarged to 24 bytes can end below the middle: it begins 16 below. */
  lemma ShortOfMiddle(ptr: nat, size: nat, m: nat)
    requires ptr % 16 == 0 && m % 16 == 0 && ptr < m < ptr + ChunkSize(size)
    ensures m >= ptr + size ==> size <= 16
  {
    if m >= ptr + size {
      assert (m - ptr) % 16 == 0;
    }
  }

  lemma RoundUpOrder(x: nat, y: nat)
    requires x <= y
    ensures RoundUp8(x) <= RoundUp8(y)
  {
  }

  lemma RoundAbove(m: nat, bytes: nat)
    requires m % 16 == 0
    ensures m + DecodeBound(EncodeBound(bytes)) == RoundUp8(m + bytes + 1)
  {
    var q := bytes / 8;
    var x := m + bytes + 8;
    assert x == 8 * (2 * (m / 16) + q + 1) + bytes % 8;
    assert x / 8 == 2 * (m / 16) + q + 1;
  }

  lemma RoundBound(bytes: nat, h: nat)
    requires h % 16 == 0 && bytes < h
    ensures bytes < DecodeBound(EncodeBound(bytes)) <= h
    ensures DecodeBound(EncodeBound(bytes)) <= bytes + 8
    ensures bytes % 16 == 15 ==> DecodeBound(EncodeBound(bytes)) == bytes + 1
    ensures EncodeBound(bytes) < h / 8
  {
  }

  lemma SizeClasses(e: SizeCode)
    ensures SlotSize(e) <= 64 <==> e <= 6
    ensures SlotSize(e) <= 256 <==> e <= 8
  {
    SmallPowers();
    if e <= 6 {
      Pow2Monotone(e, 6);
    } else {
      Pow2Monotone(7, e);
    }
    if e <= 8 {
      Pow2Monotone(e, 8);
    } else {
      Pow2Monotone(9, e);
    }
  }

  lemma SmallPowers()
    ensures Pow2(5) == 32 && Pow2(6) == 64 && Pow2(7) == 128 && Pow2(8) == 256 && Pow2(9) == 512
  {
  }

  lemma LargePower()
    ensures Pow2(55) == 0x80_0000_0000_0000
  {
    assert Pow2(14) == 0x4000;
    Pow2Sum(14, 14);
    assert Pow2(28) == 2 * Pow2(27);
    Pow2Sum(27, 28);
  }

  lemma BoundWidths(e: SizeCode)
    ensures Pow2(e - 1) / 8 <= BoundLimit(MetadataSize(e))
  {
    hide Pow2;
    SizeClasses(e);
    SmallPowers();
    if e <= 6 {
      Pow2Monotone(e - 1, 5);
    } else if e <= 8 {
      Pow2Monotone(e - 1, 7);
    } else {
      LargePower();
      Pow2Monotone(e - 1, 55);
    }
  }

  // ------------------------------------------------------------------------
  // Stored metadata
  // ------------------------------------------------------------------------

  function LittleEndian(v: nat, n: nat): (s: seq<Byte>)
    ensures |s| == n
  {
    if n == 0 then [] else [v % 256] + LittleEndian(v / 256, n - 1)
  }

  function FromLittleEndian(s: seq<Byte>): nat {
    if s == [] then 0 else s[0] + 256 * FromLittleEndian(s[1..])
  }

  lemma {:induction false} LittleEndianInverse(v: nat, n: nat)
    requires v < Pow2(8 * n)
    ensures FromLittleEndian(LittleEndian(v, n)) == v
  {
    if n > 0 {
      Pow2Sum(8, 8 * (n - 1));
      assert Pow2(8) == 256;
      LittleEndianInverse(v / 256, n - 1);
      assert LittleEndian(v, n)[1..] == LittleEndian(v / 256, n - 1);
    }
  }

  /** Byte i of a number, least significant first. */
  lemma {:induction false} LittleEndianByte(v: nat, n: nat, i: nat)
    requires i < n
    ensures LittleEndian(v, n)[i] == Shr(v, 8 * i) % 256
  {
    if i > 0 {
      LittleEndianByte(v / 256, n - 1, i - 1);
      ShrShr(v, 8, 8 * (i - 1));
      ShrByte(v);
    }
  }

  lemma ShrByte(v: nat)
    ensures Shr(v, 8) == v / 256
  {
    assert Pow2(8) == 256;
    ShrUnique(v, 8, v / 256, v % 256);
  }

  datatype Fields = Fields(lower: nat, tagLeft: nat, tagRight: nat, upper: nat)

  /** The bit-field structs as numbers; every assignment truncates to its field. */
  function PackFields(metaSize: nat, f: Fields): nat {
    var lb, ub := f.lower % BoundLimit(metaSize), f.upper % BoundLimit(metaSize);
    var tl, tr := f.tagLeft % 16, f.tagRight % 16;
    if metaSize == 1 then tl + 16 * (lb + 4 * ub)
    else if metaSize == 2 then lb + 16 * (tl + 16 * (tr + 16 * ub))
    else lb + 0x1000_0000_0000_0000 * (tl + 16 * (tr + 16 * ub))
  }

  function UnpackFields(metaSize: nat, v: nat): Fields {
    if metaSize == 1 then
      Fields(v / 16 % 4, v % 16, v % 16, v / 16 / 4 % 4)
    else
      var width := BoundLimit(metaSize);
      var w := v / width;
      Fields(v % width, w % 16, w / 16 % 16, w / 16 / 16 % width)
  }

  /** Where the fields of the three layouts begin. */
  lemma PackedLayout(metaSize: nat, f: Fields)
    requires metaSize == 1 || metaSize == 2 || metaSize == 16
    requires f.lower < BoundLimit(metaSize) && f.upper < BoundLimit(metaSize) && f.tagLeft < 16 && f.tagRight < 16
    ensures PackFields(metaSize, f) ==
      if metaSize == 1 then f.tagLeft + 0x10 * f.lower + 0x40 * f.upper
      else if metaSize == 2 then f.lower + 0x10 * f.tagLeft + 0x100 * f.tagRight + 0x1000 * f.upper
      else f.lower + 0x1000_0000_0000_0000 * f.tagLeft + WORDS * f.tagRight + 0x10 * WORDS * f.upper
  {
    Fits(f.lower, BoundLimit(metaSize));
    Fits(f.upper, BoundLimit(metaSize));
    Fits(f.tagLeft, 16);
    Fits(f.tagRight, 16);
  }

  lemma UnpackInverse(metaSize: nat, f: Fields)
    requires metaSize == 1 || metaSize == 2 || metaSize == 16
    requires f.lower < BoundLimit(metaSize) && f.upper < BoundLimit(metaSize)
    requires f.tagLeft < 16 && f.tagRight < 16 && (metaSize == 1 ==> f.tagLeft == f.tagRight)
    ensures UnpackFields(metaSize, PackFields(metaSize, f)) == f
    ensures PackFields(metaSize, f) < if metaSize == 1 then 0x100 else if metaSize == 2 then 0x1_0000 else WORDS * WORDS
  {
    if metaSize == 1 {
      Unpack1(f);
    } else if metaSize == 2 {
      Unpack2(f);
    } else {
      Unpack16(f);
    }
  }

  lemma Split16(a: nat, b: nat)
    requires a < 16
    ensures (a + 16 * b) % 16 == a && (a + 16 * b) / 16 == b
  {
  }

  lemma Fits(a: nat, w: nat)
    requires a < w
    ensures a % w == a
  {
  }

  lemma Unpack1(f: Fields)
    requires f.lower < 4 && f.upper < 4 && f.tagLeft == f.tagRight < 16
    ensures UnpackFields(1, PackFields(1, f)) == f && PackFields(1, f) < 0x100
  {
    Fits(f.lower, 4);
    Fits(f.upper, 4);
    Fits(f.tagLeft, 16);
    Split16(f.tagLeft, f.lower + 4 * f.upper);
    Split4(f.lower, f.upper);
  }

  lemma Split4(a: nat, b: nat)
    requires a < 4
    ensures (a + 4 * b) % 4 == a && (a + 4 * b) / 4 == b
  {
  }

  lemma Unpack2(f: Fields)
    requires f.lower < 16 && f.upper < 16 && f.tagLeft < 16 && f.tagRight < 16
    ensures UnpackFields(2, PackFields(2, f)) == f && PackFields(2, f) < 0x1_0000
  {
    Fits(f.lower, 16);
    Fits(f.upper, 16);
    Fits(f.tagLeft, 16);
    Fits(f.tagRight, 16);
    Split16(f.tagRight, f.upper);
    Split16(f.tagLeft, f.tagRight + 16 * f.upper);
    Split16(f.lower, f.tagLeft + 16 * (f.tagRight + 16 * f.upper));
  }

  lemma Unpack16(f: Fields)
    requires f.lower < BoundLimit(16) && f.upper < BoundLimit(16) && f.tagLeft < 16 && f.tagRight < 16
    ensures UnpackFields(16, PackFields(16, f)) == f && PackFields(16, f) < WORDS * WORDS
  {
    Fits(f.lower, BoundLimit(16));
    Fits(f.upper, BoundLimit(16));
    Fits(f.tagLeft, 16);
    Fits(f.tagRight, 16);
    var w := f.tagLeft + 16 * (f.tagRight + 16 * f.upper);
    Split60(f.lower, w);
    Split16(f.tagLeft, f.tagRight + 16 * f.upper);
    Split16(f.tagRight, f.upper);
  }

  lemma Split60(a: nat, b: nat)
    requires a < 0x1000_0000_0000_0000
    ensures (a + 0x1000_0000_0000_0000 * b) % 0x1000_0000_0000_0000 == a
    ensures (a + 0x1000_0000_0000_0000 * b) / 0x1000_0000_0000_0000 == b
  {
  }

  datatype Decoded = Decoded(tagLeft: nat, tagRight: nat, lowerLa: uint64, upperLa: uint64)

  /** lim_decode_metadata; the bound arithmetic is 64-bit. */
  function DecodeMetadata(bytes: seq<Byte>, middle: uint64): Decoded {
    var f := UnpackFields(|bytes|, FromLittleEndian(bytes));
    Decoded(f.tagLeft, f.tagRight,
            (middle - DecodeBound(f.lower)) % WORDS,
            (middle + DecodeBound(f.upper) - 1) % WORDS)
  }

  /** The metadata bytes of an address's slot. */
  function MetadataBytes(mem: seq<Byte>, a: nat, e: SizeCode): (s: seq<Byte>)
    requires SlotEnd(a, e) < |mem|
    ensures |s| == MetadataSize(e)
  {
    SlotGeometry(a, e);
    mem[MetadataAddress(a, e)..MetadataAddress(a, e) + MetadataSize(e)]
  }

  /** What the metadata of an address's slot decode to. */
  function DecodedFrom(mem: seq<Byte>, a: nat, e: SizeCode): Decoded
    requires SlotEnd(a, e) < |mem| <= WORDS
  {
    SlotGeometry(a, e);
    DecodeMetadata(MetadataBytes(mem, a, e), MiddleAddress(a, e))
  }

  /** set_metadata: memory with the metadata of the allocation written, or None where an
      assertion of the source fails. */
  function SetMetadata(mem: seq<Byte>, ptr: uint64, dataSize: nat, metaSize: nat, tag: nat): Option<seq<Byte>>
    requires dataSize + metaSize < WORDS
    requires CalculateEncodedSize(ptr, dataSize + metaSize).Some? ==>
      SlotEnd(ptr, CalculateEncodedSize(ptr, dataSize + metaSize).value) < |mem|
  {
    match ComputeBounds(ptr, dataSize, metaSize)
    case None => None
    case Some(b) =>
      var e := CalculateEncodedSize(ptr, dataSize + metaSize).value;
      SlotGeometry(ptr, e);
      var at := MetadataAddress(ptr, e);
      var bytes := LittleEndian(PackFields(metaSize, Fields(b.lower, tag, tag, b.upper)), metaSize);
      Some(Overwrite(mem, at, bytes))
  }

  /** set_metadata itself: it writes through a pointer and returns the size the bounds allow. */
  method WriteMetadata(mem: array<Byte>, ptr: uint64, dataSize: nat, metaSize: nat, tag: nat)
      returns (bounded: Option<int>)
    requires dataSize + metaSize < WORDS
    requires CalculateEncodedSize(ptr, dataSize + metaSize).Some? ==>
      SlotEnd(ptr, CalculateEncodedSize(ptr, dataSize + metaSize).value) < mem.Length
    modifies mem
    ensures bounded.Some? == SetMetadata(old(mem[..]), ptr, dataSize, metaSize, tag).Some?
    ensures bounded.Some? ==> mem[..] == SetMetadata(old(mem[..]), ptr, dataSize, metaSize, tag).value
    ensures bounded.Some? ==> bounded.value == ComputeBounds(ptr, dataSize, metaSize).value.dataSize
    ensures bounded.None? ==> mem[..] == old(mem[..])
  {
    hide CalculateEncodedSize, SlotEnd, SlotStart, MiddleAddress, MetadataAddress, PackFields, LittleEndian;
    hide DecodeBound, EncodeBound, Overwrite;
    var bounds := ComputeBounds(ptr, dataSize, metaSize);
    if bounds.None? {
      return None;
    }
    var b, e := bounds.value, CalculateEncodedSize(ptr, dataSize + metaSize).value;
    SlotGeometry(ptr, e);
    var at: nat := MetadataAddress(ptr, e);
    var meta := LittleEndian(PackFields(metaSize, Fields(b.lower, tag, tag, b.upper)), metaSize);
    ghost var before := mem[..];
    OverwriteNone(before, at);
    var i := 0;
    while i < metaSize
      invariant i <= metaSize && mem[..] == Overwrite(before, at, meta[..i])
    {
      ghost var done := mem[..];
      mem[at + i] := meta[i];
      OverwriteOne(done, at + i, meta[i]);
      ExtendByOne(before, at, meta, i);
      i := i + 1;
    }
    assert meta[..i] == meta;
    bounded := Some(b.dataSize);
  }

  /** What set_metadata stores decodes to the tag and to 8-byte granular bounds that start at
      the pointer, enclose data and metadata, and end at BoundedEnd, inside the slot. */
  lemma MetadataRoundTrip(mem: seq<Byte>, ptr: uint64, dataSize: nat, metaSize: nat, tag: nat)
    requires Allocation(ptr, dataSize, metaSize) && tag < 16
    requires SlotEnd(ptr, CalculateEncodedSize(ptr, dataSize + metaSize).value) < |mem| <= WORDS
    ensures var e := CalculateEncodedSize(ptr, dataSize + metaSize).value;
      && SetMetadata(mem, ptr, dataSize, metaSize, tag).Some?
      && var mem' := SetMetadata(mem, ptr, dataSize, metaSize, tag).value;
      && |mem'| == |mem|
      && var d := DecodedFrom(mem', ptr, e);
      && d.tagLeft == tag == d.tagRight
      && SlotStart(ptr, e) <= d.lowerLa == ptr
      && ptr + dataSize + metaSize - 1 <= d.upperLa <= SlotEnd(ptr, e)
      && d.upperLa + 1 == BoundedEnd(MiddleAddress(ptr, e), ptr + dataSize + metaSize)
      && d.upperLa + 1 <= RoundUp8(ptr + ChunkSize(dataSize + metaSize))
      && (d.upperLa + 1 - ptr) % 8 == 0
      && MetadataAddress(ptr, e) + metaSize - 1 <= d.upperLa
      && ComputeBounds(ptr, dataSize, metaSize).value.dataSize == d.upperLa + 1 - ptr - metaSize
  {
    hide CalculateEncodedSize, MiddleAddress, SlotEnd, SlotStart, MetadataAddress, MetadataSize, DecodedFrom;
    hide ComputeBounds, BoundLimit, DecodeBound, BoundedEnd, RoundUp8, ChunkSize, Low, Shr, Pow2, SetMetadata;
    var e: nat := CalculateEncodedSize(ptr, dataSize + metaSize).value;
    BoundsOfAllocation(ptr, dataSize, metaSize);
    var b := ComputeBounds(ptr, dataSize, metaSize).value;
    SlotGeometry(ptr, e);
    ChunkStraddlesMiddle(ptr, dataSize + metaSize);
    BoundGranules(b.upper);
    EightByteGranular(ptr, MiddleAddress(ptr, e), b.upper);
    DecodedBounds(mem, ptr, dataSize, metaSize, tag);
  }

  /** What set_metadata stored decodes to the bounds it computed, set off from the middle. */
  lemma DecodedBounds(mem: seq<Byte>, ptr: uint64, dataSize: nat, metaSize: nat, tag: nat)
    requires dataSize + metaSize < WORDS && CalculateEncodedSize(ptr, dataSize + metaSize).Some?
    requires ComputeBounds(ptr, dataSize, metaSize).Some? && tag < 16
    requires var e := CalculateEncodedSize(ptr, dataSize + metaSize).value;
      var b := ComputeBounds(ptr, dataSize, metaSize).value;
      && SlotEnd(ptr, e) < |mem| <= WORDS
      && b.lower < BoundLimit(metaSize) && b.upper < BoundLimit(metaSize)
      && DecodeBound(b.lower) <= MiddleAddress(ptr, e) && MiddleAddress(ptr, e) + DecodeBound(b.upper) <= WORDS
    ensures var e := CalculateEncodedSize(ptr, dataSize + metaSize).value;
      var b := ComputeBounds(ptr, dataSize, metaSize).value;
      && SetMetadata(mem, ptr, dataSize, metaSize, tag).Some?
      && var mem' := SetMetadata(mem, ptr, dataSize, metaSize, tag).value;
      && |mem'| == |mem|
      && DecodedFrom(mem', ptr, e) ==
           Decoded(tag, tag, MiddleAddress(ptr, e) - DecodeBound(b.lower),
                   MiddleAddress(ptr, e) + DecodeBound(b.upper) - 1)
  {
    hide CalculateEncodedSize, MiddleAddress, SlotEnd, SlotStart, MetadataAddress, MetadataSize, MetadataBytes;
    hide ComputeBounds, PackFields, BoundLimit, DecodeMetadata, DecodeBound, SetMetadata;
    var e: nat := CalculateEncodedSize(ptr, dataSize + metaSize).value;
    var b := ComputeBounds(ptr, dataSize, metaSize).value;
    StoredBytes(mem, ptr, dataSize, metaSize, tag);
    BoundGranules(b.upper);
    DecodeOfPacked(metaSize, Fields(b.lower, tag, tag, b.upper), MiddleAddress(ptr, e));
  }

  lemma BoundGranules(b: nat)
    ensures DecodeBound(b) >= 8
  {
  }

  lemma EightByteGranular(ptr: nat, m: nat, b: nat)
    requires ptr % 16 == 0 && m % 16 == 0 && ptr <= m
    ensures (m + DecodeBound(b) - ptr) % 8 == 0
  {
  }

  lemma StoredBytes(mem: seq<Byte>, ptr: uint64, dataSize: nat, metaSize: nat, tag: nat)
    requires dataSize + metaSize < WORDS && ComputeBounds(ptr, dataSize, metaSize).Some?
    requires SlotEnd(ptr, CalculateEncodedSize(ptr, dataSize + metaSize).value) < |mem|
    ensures var e := CalculateEncodedSize(ptr, dataSize + metaSize).value;
      var b := ComputeBounds(ptr, dataSize, metaSize).value;
      && metaSize == MetadataSize(e)
      && SetMetadata(mem, ptr, dataSize, metaSize, tag).Some?
      && var mem' := SetMetadata(mem, ptr, dataSize, metaSize, tag).value;
      && |mem'| == |mem|
      && MetadataBytes(mem', ptr, e) == LittleEndian(PackFields(metaSize, Fields(b.lower, tag, tag, b.upper)), metaSize)
  {
    hide MiddleAddress, SlotEnd, SlotStart, MetadataSize, PackFields, LittleEndian, CalculateEncodedSize;
    hide DecodeBound, EncodeBound;
    var e: nat := CalculateEncodedSize(ptr, dataSize + metaSize).value;
    SlotGeometry(ptr, e);
  }

  /** Packed fields that fit decode to themselves, with the bounds around the middle. */
  lemma DecodeOfPacked(metaSize: nat, f: Fields, middle: uint64)
    requires metaSize == 1 || metaSize == 2 || metaSize == 16
    requires f.lower < BoundLimit(metaSize) && f.upper < BoundLimit(metaSize)
    requires f.tagLeft < 16 && f.tagRight < 16 && (metaSize == 1 ==> f.tagLeft == f.tagRight)
    requires DecodeBound(f.lower) <= middle && middle + DecodeBound(f.upper) <= WORDS
    ensures DecodeMetadata(LittleEndian(PackFields(metaSize, f), metaSize), middle) ==
      Decoded(f.tagLeft, f.tagRight, middle - DecodeBound(f.lower), middle + DecodeBound(f.upper) - 1)
  {
    hide PackFields, UnpackFields, BoundLimit, LittleEndian, FromLittleEndian;
    UnpackInverse(metaSize, f);
    MetadataWidths();
    LittleEndianInverse(PackFields(metaSize, f), metaSize);
  }

  lemma MetadataWidths()
    ensures Pow2(8 * 1) == 0x100 && Pow2(8 * 2) == 0x1_0000 && Pow2(8 * 16) == WORDS * WORDS
  {
    assert Pow2(8) == 256;
    Pow2Sum(8, 8);
    Pow2Sum(16, 16);
    Pow2Sum(32, 32);
    Pow2Sum(64, 64);
  }
}
