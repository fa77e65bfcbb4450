/** Integrity checks of whole accesses, the loop that claims a range, the forward copy of
    integrity values, and the checker object that does them on the paged map
    (modules/common/ccsimics/integrity.h, c3lib/c3/generic/icv.h). */
module IntegrityAccess {
  import opened Words
  import opened CryptoAddress
  import opened IcvMap
  import opened Integrity
  import TryBox

  /** The map index of every linear address: get_icv_index under a fixed translation. */
  type Index = nat -> nat

  /** Translation keeps granules together and apart. */
  ghost predicate GranulePreserving(idx: Index) {
    forall a: nat, b: nat :: idx(a) == idx(b) <==> a / 8 == b / 8
  }

  // ------------------------------------------------------------------------
  // One access
  // ------------------------------------------------------------------------

  function GranuleCount(la: uint64, size: nat): (n: nat)
    requires size > 0
    ensures n > 0
  {
    (la + size - 1) / 8 - la / 8 + 1
  }

  /** The loop of check_integrity steps by eight from the first byte, not from its granule:
      it visits exactly the granules that the bytes of the access lie in. */
  lemma GranulesVisited(la: uint64, size: nat, g: nat)
    requires size > 0
    ensures (exists i: nat :: i < GranuleCount(la, size) && GranuleAt(la, i) == g) <==>
      la / 8 <= g <= (la + size - 1) / 8
  {
    if la / 8 <= g <= (la + size - 1) / 8 {
      var i := g - la / 8;
      assert GranuleAt(la, i) == g;
    }
  }

  function GranuleAt(la: nat, i: nat): (g: nat)
    ensures g == la / 8 + i
  {
    (la + 8 * i) / 8
  }

  /** The CA presented for granule i: advanced in 64 bits, or 0 for a plain access. */
  function CaAt(ca: uint64, i: nat): uint64 {
    if ca == 0 then 0 else (ca + 8 * i) % WORDS
  }

  /** Granules i to n - 1 under the ICV lock; ca is 0 for a plain access. A fault ends the
      access, and failure is the verdict on the last visited granule. */
  function CheckFrom(p: Policy, idx: Index, t: Table, la: uint64, ca: uint64, rw: RW, i: nat, n: nat): Check
    requires i < n
    decreases n - i
  {
    var c := CheckIcv(p, t, idx(la + 8 * i), CaAt(ca, i), rw);
    if c.fault || i + 1 == n then c
    else
      var d := CheckFrom(p, idx, c.table, la, ca, rw, i + 1, n);
      d.(uninit := c.uninit || d.uninit)
  }

  function SetFrom(idx: Index, t: Table, la: uint64, ca: uint64, rw: RW, i: nat, n: nat): Table
    requires i <= n
    decreases n - i
  {
    if i == n then t else SetFrom(idx, SetIcv(t, idx(la + 8 * i), CaAt(ca, i), rw), la, ca, rw, i + 1, n)
  }

  function AccessCheck(p: Policy, lock: bool, idx: Index, t: Table, la: uint64, ca: uint64, size: nat, rw: RW): Check {
    if la == 0 || size == 0 then Check(t, false, false, false)
    else if lock then CheckFrom(p, idx, t, la, ca, rw, 0, GranuleCount(la, size))
    else Check(SetFrom(idx, t, la, ca, rw, 0, GranuleCount(la, size)), false, false, false)
  }

  /** A locked access is a history of granule checks, cut at the first fault. */
  function Events(p: Policy, idx: Index, t: Table, la: uint64, ca: uint64, rw: RW, i: nat, n: nat): seq<Event>
    requires i < n
    decreases n - i
  {
    var c := CheckIcv(p, t, idx(la + 8 * i), CaAt(ca, i), rw);
    [CheckEvent(idx(la + 8 * i), CaAt(ca, i), rw)] +
    if c.fault || i + 1 == n then [] else Events(p, idx, c.table, la, ca, rw, i + 1, n)
  }

  lemma {:induction false} RunAppend(p: Policy, t: Table, h: seq<Event>, k: seq<Event>)
    ensures RunEvents(p, t, h + k) == RunEvents(p, RunEvents(p, t, h), k)
    decreases |k|
  {
    hide Step;
    if k == [] {
      assert h + k == h;
    } else {
      var last := k[|k| - 1];
      RunAppend(p, t, h, k[..|k| - 1]);
      assert (h + k)[..|h + k| - 1] == h + k[..|k| - 1];
    }
  }

  lemma {:induction false} AccessIsHistory(p: Policy, idx: Index, t: Table, la: uint64, ca: uint64, rw: RW,
                                           i: nat, n: nat)
    requires i < n
    ensures CheckFrom(p, idx, t, la, ca, rw, i, n).table == RunEvents(p, t, Events(p, idx, t, la, ca, rw, i, n))
    decreases n - i
  {
    hide CaAt, CheckIcv;
    var c := CheckIcv(p, t, idx(la + 8 * i), CaAt(ca, i), rw);
    var e := CheckEvent(idx(la + 8 * i), CaAt(ca, i), rw);
    assert RunEvents(p, t, [e]) == c.table by {
      assert [e][..0] == [];
    }
    if c.fault || i + 1 == n {
      assert Events(p, idx, t, la, ca, rw, i, n) == [e];
    } else {
      AccessIsHistory(p, idx, c.table, la, ca, rw, i + 1, n);
      RunAppend(p, t, [e], Events(p, idx, c.table, la, ca, rw, i + 1, n));
    }
  }

  /** What a read that may not fault reports as its failure is the last granule's verdict:
      a mismatch on an earlier granule is forgotten when the last one matches. */
  lemma {:induction false} ReadFailureIsLast(p: Policy, idx: Index, t: Table, la: uint64, ca: uint64, i: nat, n: nat)
    requires i < n && !p.faultOnRead
    ensures CheckFrom(p, idx, t, la, ca, READ, i, n).failure <==> !Matches(t, idx(la + 8 * (n - 1)), CaAt(ca, n - 1))
    decreases n - i
  {
    hide CaAt, Matches;
    if i + 1 < n {
      ReadFailureIsLast(p, idx, t, la, ca, i + 1, n);
    }
  }

  predicate MismatchAt(idx: Index, t: Table, la: uint64, ca: uint64, i: nat) {
    !Matches(t, idx(la + 8 * i), CaAt(ca, i))
  }

  /** The flag tells whether some granule mismatched if and only if the last one did, or none. */
  lemma ReadFailureExactly(p: Policy, idx: Index, t: Table, la: uint64, ca: uint64, n: nat)
    requires n > 0 && !p.faultOnRead
    ensures (CheckFrom(p, idx, t, la, ca, READ, 0, n).failure <==>
        exists i: nat :: i < n && MismatchAt(idx, t, la, ca, i))
      <==> (MismatchAt(idx, t, la, ca, n - 1) || forall i: nat | i < n :: !MismatchAt(idx, t, la, ca, i))
  {
    hide CaAt, Matches;
    ReadFailureIsLast(p, idx, t, la, ca, 0, n);
  }

  /** A plain read of two granules of which the first holds a CA: it mismatches, and the flag
      ends clear. */
  lemma ReadFailureForgotten(idx: Index)
    requires idx(8) == 1 && idx(16) == 2
    ensures var t: Table := map[1 := 8];
      MismatchAt(idx, t, 8, 0, 0) && !CheckFrom(Policy(true, false), idx, t, 8, 0, READ, 0, 2).failure
  {
    hide IsEncodedCcPtr, CheckFrom, ThisIcv;
    var t: Table := map[1 := 8];
    ReadFailureIsLast(Policy(true, false), idx, t, 8, 0, 0, 2);
    ZeroIsPlain();
    assert Lookup(t, 1) == 8 && Lookup(t, 2) == 0;
  }

  /** The i-th granule refuses the access: it mismatches, or a read finds it uninitialised. */
  predicate RefusedAt(idx: Index, t: Table, la: uint64, ca: uint64, rw: RW, i: nat) {
    MismatchAt(idx, t, la, ca, i) || (rw.READ? && Uninitialized(Lookup(t, idx(la + 8 * i))))
  }

  /** With faults on for its direction, a locked access faults if and only if some granule it
      overlaps refuses it. */
  lemma {:induction false} AccessFaultsExactly(p: Policy, idx: Index, t: Table, la: uint64, ca: uint64, rw: RW,
                                               i: nat, n: nat)
    requires i < n && (if rw.WRITE? then p.faultOnWrite else p.faultOnRead)
    ensures CheckFrom(p, idx, t, la, ca, rw, i, n).fault <==>
      exists k: nat :: i <= k < n && RefusedAt(idx, t, la, ca, rw, k)
    decreases n - i
  {
    hide CaAt, CheckIcv, Uninitialized, Matches;
    var g := idx(la + 8 * i);
    var c := CheckIcv(p, t, g, CaAt(ca, i), rw);
    CheckFaultsExactly(p, t, g, CaAt(ca, i), rw);
    if c.fault {
      assert RefusedAt(idx, t, la, ca, rw, i);
    } else if i + 1 < n {
      AccessFaultsExactly(p, idx, c.table, la, ca, rw, i + 1, n);
      forall k: nat
        ensures RefusedAt(idx, c.table, la, ca, rw, k) == RefusedAt(idx, t, la, ca, rw, k)
      {
        CheckKeepsVerdicts(p, t, g, CaAt(ca, i), rw, idx(la + 8 * k), CaAt(ca, k));
      }
    }
  }

  /** The granule of byte x of an access refuses it, presented with the CA of its own part. */
  predicate RefusedByte(idx: Index, t: Table, la: uint64, ca: uint64, rw: RW, x: nat)
    requires la <= x
  {
    RefusedAt(idx, t, la, ca, rw, x / 8 - la / 8)
  }

  /** With faults on for its direction, an access faults if and only if the lock is on, its
      address is not 0, and the granule of one of its bytes refuses it. */
  lemma FaultsByByte(p: Policy, lock: bool, idx: Index, t: Table, la: uint64, ca: uint64, size: nat, rw: RW)
    requires if rw.WRITE? then p.faultOnWrite else p.faultOnRead
    ensures AccessCheck(p, lock, idx, t, la, ca, size, rw).fault <==>
      lock && la != 0 && exists x: nat :: la <= x < la + size && RefusedByte(idx, t, la, ca, rw, x)
  {
    hide RefusedAt, CheckFrom, SetFrom;
    if lock && la != 0 && size > 0 {
      var n := GranuleCount(la, size);
      AccessFaultsExactly(p, idx, t, la, ca, rw, 0, n);
      forall k: nat | k < n && RefusedAt(idx, t, la, ca, rw, k)
        ensures exists x: nat :: la <= x < la + size && RefusedByte(idx, t, la, ca, rw, x)
      {
        var x := if k == 0 then la else (la / 8 + k) * 8;
        assert x / 8 - la / 8 == k && RefusedByte(idx, t, la, ca, rw, x);
      }
      forall x: nat | la <= x < la + size && RefusedByte(idx, t, la, ca, rw, x)
        ensures exists k: nat :: k < n && RefusedAt(idx, t, la, ca, rw, k)
      {
        var k := x / 8 - la / 8;
        assert 0 <= k < n && RefusedAt(idx, t, la, ca, rw, k);
      }
    }
  }

  /** A check changes no verdict on any address part, and a read changes nothing. */
  lemma CheckKeepsVerdicts(p: Policy, t: Table, g: nat, ca: uint64, rw: RW, h: nat, other: uint64)
    ensures Matches(CheckIcv(p, t, g, ca, rw).table, h, other) == Matches(t, h, other)
    ensures rw.READ? ==> CheckIcv(p, t, g, ca, rw).table == t
  {
    hide AddrPart, ThisIcv;
  }

  /** An unlocked store gives every granule it overlaps the ICV of its own part of the pointer,
      whatever the granule held. */
  lemma {:induction false} UnlockedStoreSets(idx: Index, t: Table, la: uint64, ca: uint64, i: nat, n: nat, k: nat)
    requires GranulePreserving(idx) && i <= k < n
    ensures Lookup(SetFrom(idx, t, la, ca, WRITE, i, n), idx(la + 8 * k)) ==
      if ca == 0 then 0 else ThisIcv((ca + 8 * k) % WORDS)
    decreases n - i
  {
    hide ThisIcv, Lookup, GranulePreserving, SetIcv;
    var t' := SetIcv(t, idx(la + 8 * i), CaAt(ca, i), WRITE);
    if i < k {
      UnlockedStoreSets(idx, t', la, ca, i + 1, n, k);
    } else {
      SetHolds(t, idx(la + 8 * i), CaAt(ca, i));
      LaterSetsKeep(idx, t', la, ca, i + 1, n, la + 8 * i);
      ZeroIsPlain();
    }
  }

  lemma SetElsewhere(t: Table, g: nat, ca: uint64, h: nat)
    requires g != h
    ensures Lookup(SetIcv(t, g, ca, WRITE), h) == Lookup(t, h)
  {
    hide ThisIcv;
  }

  lemma SetHolds(t: Table, g: nat, ca: uint64)
    ensures Lookup(SetIcv(t, g, ca, WRITE), g) == ThisIcv(ca)
  {
    hide ThisIcv;
  }

  /** It changes no granule it does not reach. */
  lemma {:induction false} LaterSetsKeep(idx: Index, t: Table, la: uint64, ca: uint64, i: nat, n: nat, x: nat)
    requires GranulePreserving(idx) && i <= n && !(la / 8 + i <= x / 8 < la / 8 + n)
    ensures Lookup(SetFrom(idx, t, la, ca, WRITE, i, n), idx(x)) == Lookup(t, idx(x))
    decreases n - i
  {
    hide ThisIcv, GranulePreserving, SetIcv, Lookup;
    if i < n {
      IndexOfGranule(idx, x, la, i);
      SetElsewhere(t, idx(la + 8 * i), CaAt(ca, i), idx(x));
      LaterSetsKeep(idx, SetIcv(t, idx(la + 8 * i), CaAt(ca, i), WRITE), la, ca, i + 1, n, x);
    }
  }

  // ------------------------------------------------------------------------
  // Claiming a range, then using it
  // ------------------------------------------------------------------------

  /** What cc_set_icv leaves: its loop reads and writes every byte once with the lock off. */
  function SetRange(idx: Index, t: Table, la: uint64, ca: uint64, size: nat): Table {
    if size == 0 then t
    else SetIcv(SetRange(idx, t, la, ca, size - 1), idx(la + (size - 1)), (ca + (size - 1)) % WORDS, WRITE)
  }

  /** A range a pointer may claim: CA and address agree in the granule offset, and every
      byte address of the CA is still a CA. */
  ghost predicate Claimable(la: uint64, ca: uint64, size: nat) {
    0 < la && la % 8 == ca % 8 && la + size < WORDS && ca + size + 8 < WORDS &&
    forall x: nat | ca <= x < ca + size :: IsEncodedCcPtr(x)
  }

  lemma SameGranuleSameIcv(x: uint64, y: uint64)
    requires x / 8 == y / 8
    ensures AddrPart(x) == AddrPart(y) && IsEncodedCcPtr(x) == IsEncodedCcPtr(y) && ThisIcv(x) == ThisIcv(y)
  {
    assert x / 0x1_0000_0000 == y / 0x1_0000_0000;
  }

  lemma OffsetGranules(la: nat, ca: nat, j: nat, k: nat)
    requires la % 8 == ca % 8 && (la + j) / 8 == (la + k) / 8
    ensures (ca + j) / 8 == (ca + k) / 8
  {
  }

  /** Every granule of the range holds its CA, whichever byte of the granule was set last. */
  lemma {:induction false} RangeHoldsCa(idx: Index, t: Table, la: uint64, ca: uint64, size: nat, k: nat)
    requires GranulePreserving(idx) && Claimable(la, ca, size) && k < size
    ensures Lookup(SetRange(idx, t, la, ca, size), idx(la + k)) == ThisIcv(ca + k) == AddrPart(ca + k)
  {
    hide IsEncodedCcPtr, AddrPart, Put, Lookup, SetRange, ThisIcv;
    var last := size - 1;
    assert IsEncodedCcPtr(ca + last) && IsEncodedCcPtr(ca + k);
    EncodedIcv(ca + k);
    LastByteSet(idx, t, la, ca, size, idx(la + k));
    if (la + k) / 8 == (la + last) / 8 {
      OffsetGranules(la, ca, k, last);
      SameGranuleSameIcv(ca + k, ca + last);
    } else {
      RangeHoldsCa(idx, t, la, ca, last, k);
    }
  }

  lemma EncodedIcv(x: uint64)
    requires IsEncodedCcPtr(x)
    ensures ThisIcv(x) == AddrPart(x)
  {
  }

  lemma LastByteSet(idx: Index, t: Table, la: uint64, ca: uint64, size: nat, g: nat)
    requires 0 < size && ca + size < WORDS
    ensures Lookup(SetRange(idx, t, la, ca, size), g) ==
      if g == idx(la + (size - 1)) then ThisIcv(ca + (size - 1)) else Lookup(SetRange(idx, t, la, ca, size - 1), g)
  {
    hide ThisIcv;
  }

  lemma {:induction false} OtherGranulesKept(idx: Index, t: Table, la: uint64, ca: uint64, size: nat, g: nat)
    requires forall x: nat | la <= x < la + size :: idx(x) != g
    ensures Lookup(SetRange(idx, t, la, ca, size), g) == Lookup(t, g)
  {
    hide IsEncodedCcPtr;
    if size > 0 {
      assert idx(la + (size - 1)) != g;
      OtherGranulesKept(idx, t, la, ca, size - 1, g);
    }
  }

  /** Some byte of the access lies in the granule of its i-th step. */
  lemma ByteOfGranule(la: uint64, n: nat, i: nat) returns (k: nat)
    requires n > 0 && i < GranuleCount(la, n)
    ensures k < n && (la + 8 * i) / 8 == (la + k) / 8 && 8 * i < n + 8
  {
    k := if 8 * i < n then 8 * i else n - 1;
  }

  /** Granule i of an access inside the range: the CA presented is the one stored. */
  lemma GranuleMatches(idx: Index, t: Table, la: uint64, ca: uint64, size: nat, off: nat, n: nat, i: nat)
    requires GranulePreserving(idx) && Claimable(la, ca, size) && n > 0 && off + n <= size
    requires i < GranuleCount(la + off, n)
    ensures var stored := Lookup(SetRange(idx, t, la, ca, size), idx(la + off + 8 * i));
      && stored == ThisIcv(CaAt(ca + off, i)) && stored != 0
      && !Preinit(stored) && !Uninitialized(stored) && AddrPart(stored) == stored
  {
    hide IsEncodedCcPtr, AddrPart, SetRange, Lookup, Preinit, Uninitialized, GranuleCount;
    var j := ByteOfGranule(la + off, n, i);
    var k := off + j;
    assert idx(la + off + 8 * i) == idx(la + k);
    OffsetGranules(la, ca, off + 8 * i, k);
    EncodedAddrPart(ca + off);
    assert CaAt(ca + off, i) == ca + off + 8 * i;
    SameGranuleSameIcv(ca + off + 8 * i, ca + k);
    RangeHoldsCa(idx, t, la, ca, size, k);
    FlagsOfAddress(ca + k);
    EncodedAddrPart(ca + k);
  }

  lemma EncodedAddrPart(x: uint64)
    requires IsEncodedCcPtr(x)
    ensures x != 0 && AddrPart(x) != 0
  {
    if x < 8 {
      assert false;
    }
  }

  /** Every locked access inside a claimed range passes on all its granules, reports nothing
      and leaves the map alone. */
  lemma {:induction false} ClaimedAccessPasses(p: Policy, idx: Index, t: Table, la: uint64, ca: uint64, size: nat,
                                               off: nat, n: nat, rw: RW, i: nat)
    requires GranulePreserving(idx) && Claimable(la, ca, size) && n > 0 && off + n <= size
    requires i < GranuleCount(la + off, n)
    ensures var t' := SetRange(idx, t, la, ca, size);
      CheckFrom(p, idx, t', la + off, ca + off, rw, i, GranuleCount(la + off, n)) == Check(t', false, false, false)
    decreases GranuleCount(la + off, n) - i
  {
    hide SetRange, IsEncodedCcPtr, AddrPart, ThisIcv, Lookup, Preinit, Uninitialized, GranuleCount, CaAt;
    hide GranulePreserving;
    GranuleMatches(idx, t, la, ca, size, off, n, i);
    if i + 1 < GranuleCount(la + off, n) {
      ClaimedAccessPasses(p, idx, t, la, ca, size, off, n, rw, i + 1);
    }
  }

  lemma SetThenCheck(p: Policy, idx: Index, t: Table, la: uint64, ca: uint64, size: nat, off: nat, n: nat, rw: RW)
    requires GranulePreserving(idx) && Claimable(la, ca, size) && n > 0 && off + n <= size
    ensures var t' := SetRange(idx, t, la, ca, size);
      AccessCheck(p, true, idx, t', la + off, ca + off, n, rw) == Check(t', false, false, false)
  {
    hide SetRange, CheckFrom;
    ClaimedAccessPasses(p, idx, t, la, ca, size, off, n, rw, 0);
  }

  /** From allocation on: the pointer that encoding gives to a boxed region may claim it, and
      then every access through that pointer to any part of the region passes. */
  lemma RegionIsClaimable(bc: BlockCipher, la: uint64, s: uint64, version: nat)
    requires bc.Invertible() && 0 < la && IsCanonical(la) && version < 0x100
    requires la + TryBox.RegionSize(s) < WORDS && TryBox.TryBox(la, s).Some?
    ensures Claimable(la, TryBox.EncodeRegion(bc, la, s, version), TryBox.RegionSize(s))
  {
    hide IsCanonical, DecodePointer, CaGetSize, TryBox.TryBox, EncodePointer;
    TryBox.RegionPointer(bc, la, s, version);
    var e := TryBox.EncodeRegion(bc, la, s, version);
    SameLowBits(la, e);
    forall x: nat | e <= x < e + TryBox.RegionSize(s)
      ensures x < WORDS && IsEncodedCcPtr(x)
    {
      assert TryBox.ReachesByte(bc, e, la, x);
    }
  }

  lemma SameLowBits(a: nat, b: nat)
    requires a % 0x1_0000_0000 == b % 0x1_0000_0000
    ensures a % 8 == b % 8
  {
    LowThree(a);
    LowThree(b);
  }

  lemma LowThree(a: nat)
    ensures a % 8 == a % 0x1_0000_0000 % 8
  {
    assert a == 8 * (0x2000_0000 * (a / 0x1_0000_0000)) + a % 0x1_0000_0000;
  }

  lemma RegionSetThenCheck(bc: BlockCipher, p: Policy, idx: Index, t: Table, la: uint64, s: uint64, version: nat,
                           off: nat, n: nat, rw: RW)
    requires bc.Invertible() && 0 < la && IsCanonical(la) && version < 0x100
    requires la + TryBox.RegionSize(s) < WORDS && TryBox.TryBox(la, s).Some?
    requires GranulePreserving(idx) && n > 0 && off + n <= TryBox.RegionSize(s)
    ensures var e := TryBox.EncodeRegion(bc, la, s, version);
      var t' := SetRange(idx, t, la, e, TryBox.RegionSize(s));
      && TryBox.ReachesByte(bc, e, la, e + off)
      && AccessCheck(p, true, idx, t', la + off, e + off, n, rw) == Check(t', false, false, false)
  {
    hide IsCanonical, CaGetSize, SetRange, AccessCheck, DecodePointer, TryBox.TryBox, TryBox.EncodeRegion;
    hide Claimable, GranulePreserving, TryBox.RegionSize, TryBox.ReachesByte, CheckFrom, Low, High;
    TryBox.RegionPointer(bc, la, s, version);
    RegionIsClaimable(bc, la, s, version);
    SetThenCheck(p, idx, t, la, TryBox.EncodeRegion(bc, la, s, version), TryBox.RegionSize(s), off, n, rw);
  }

  /** A plain access to any claimed byte mismatches on that byte's granule. */
  lemma PlainAccessMismatches(idx: Index, t: Table, la: uint64, ca: uint64, size: nat, k: nat)
    requires GranulePreserving(idx) && Claimable(la, ca, size) && k < size
    ensures !Matches(SetRange(idx, t, la, ca, size), idx(la + k), 0)
  {
    hide SetRange, IsEncodedCcPtr, AddrPart, Lookup;
    RangeHoldsCa(idx, t, la, ca, size, k);
    assert IsEncodedCcPtr(ca + k);
    EncodedAddrPart(ca + k);
    FlagsOfAddress(ca + k);
    ZeroIsPlain();
  }

  lemma ZeroIsPlain()
    ensures ThisIcv(0) == 0
  {
  }

  /** With write mismatches faulting, a plain write that touches a claimed byte faults. */
  lemma {:induction false} PlainWriteFaults(p: Policy, idx: Index, t: Table, la: uint64, ca: uint64, size: nat,
                                            a: uint64, n: nat, k: nat, i: nat)
    requires p.faultOnWrite && GranulePreserving(idx) && Claimable(la, ca, size) && k < size
    requires a <= la + k < a + n && i <= (la + k) / 8 - a / 8
    ensures CheckFrom(p, idx, SetRange(idx, t, la, ca, size), a, 0, WRITE, i, GranuleCount(a, n)).fault
    decreases GranuleCount(a, n) - i
  {
    hide SetRange, IsEncodedCcPtr;
    PlainFaultsFrom(p, idx, SetRange(idx, t, la, ca, size), a, n, la + k, i) by {
      PlainAccessMismatches(idx, t, la, ca, size, k);
    }
  }

  lemma {:induction false} PlainFaultsFrom(p: Policy, idx: Index, t: Table, a: uint64, n: nat, x: nat, i: nat)
    requires p.faultOnWrite && GranulePreserving(idx) && !Matches(t, idx(x), 0)
    requires a <= x < a + n && i <= x / 8 - a / 8
    ensures CheckFrom(p, idx, t, a, 0, WRITE, i, GranuleCount(a, n)).fault
    decreases GranuleCount(a, n) - i
  {
    hide CheckIcv, Matches, ThisIcv;
    var g := idx(a + 8 * i);
    var c := CheckIcv(p, t, g, 0, WRITE);
    CheckTouchesOne(p, t, g, 0, WRITE, idx(x));
    assert GranuleAt(a, i) == a / 8 + i;
    if i < x / 8 - a / 8 && !c.fault {
      assert g != idx(x);
      PlainFaultsFrom(p, idx, c.table, a, n, x, i + 1);
    } else {
      assert i == x / 8 - a / 8 ==> g == idx(x);
    }
  }

  /** A write check on a mismatching granule faults; a check on another granule does not touch it. */
  lemma CheckTouchesOne(p: Policy, t: Table, g: nat, ca: uint64, rw: RW, h: nat)
    requires p.faultOnWrite
    ensures rw.WRITE? && !Matches(t, g, ca) ==> CheckIcv(p, t, g, ca, rw).fault
    ensures g != h ==> Matches(CheckIcv(p, t, g, ca, rw).table, h, ca) == Matches(t, h, ca)
  {
    hide AddrPart, ThisIcv;
  }

  // ------------------------------------------------------------------------
  // Copying
  // ------------------------------------------------------------------------

  /** The granules copyICVs counts: from la rounded down to la + n rounded up. */
  function IcvCount(la: nat, n: nat): nat {
    (la + n + 7) / 8 - la / 8
  }

  /** The value a destination granule gets. */
  function NewIcv(dst: uint64, i: nat, old_icv: Icv): Icv {
    if !IsEncodedCcPtr(dst) then 0
    else if old_icv == INVALID then INVALID
    else AddrPart((dst + 8 * i) % WORDS)
  }

  /** The forward loop up to granule n. */
  function CopyUpTo(idx: Index, t: Table, dst: uint64, laDst: nat, laSrc: nat, n: nat): Table {
    if n == 0 then t
    else
      var before := CopyUpTo(idx, t, dst, laDst, laSrc, n - 1);
      Put(before, idx(laDst + 8 * (n - 1)), NewIcv(dst, n - 1, Lookup(before, idx(laSrc + 8 * (n - 1)))))
  }

  /** No source granule lies among the destination granules written before it is read. */
  predicate ForwardSafe(laDst: nat, laSrc: nat, n: nat) {
    laDst / 8 <= laSrc / 8 || laDst / 8 >= laSrc / 8 + n
  }

  /** Snapshot semantics: each destination granule is computed from what its source granule
      held before the copy, and every other entry is unchanged. */
  lemma {:induction false} CopyIsSnapshot(idx: Index, t: Table, dst: uint64, laDst: nat, laSrc: nat, n: nat, x: nat)
    requires GranulePreserving(idx) && ForwardSafe(laDst, laSrc, n)
    ensures Lookup(CopyUpTo(idx, t, dst, laDst, laSrc, n), idx(x)) ==
      if laDst / 8 <= x / 8 < laDst / 8 + n
      then NewIcv(dst, x / 8 - laDst / 8, Lookup(t, idx(laSrc + 8 * (x / 8 - laDst / 8))))
      else Lookup(t, idx(x))
  {
    hide NewIcv, Lookup, CopyUpTo, GranulePreserving;
    if n > 0 {
      var m := n - 1;
      CopyStep(idx, t, dst, laDst, laSrc, n, idx(x));
      IndexOfGranule(idx, x, laDst, m);
      if x / 8 == laDst / 8 + m {
        SourceStillOld(idx, t, dst, laDst, laSrc, m);
      } else {
        CopyIsSnapshot(idx, t, dst, laDst, laSrc, m, x);
      }
    } else {
      CopyNothing(idx, t, dst, laDst, laSrc);
    }
  }

  lemma {:induction false} SourceStillOld(idx: Index, t: Table, dst: uint64, laDst: nat, laSrc: nat, m: nat)
    requires GranulePreserving(idx) && ForwardSafe(laDst, laSrc, m + 1)
    ensures Lookup(CopyUpTo(idx, t, dst, laDst, laSrc, m), idx(laSrc + 8 * m)) == Lookup(t, idx(laSrc + 8 * m))
  {
    hide NewIcv, Lookup, CopyUpTo, GranulePreserving;
    OutsideKept(idx, t, dst, laDst, laSrc, m, laSrc + 8 * m);
  }

  lemma {:induction false} OutsideKept(idx: Index, t: Table, dst: uint64, laDst: nat, laSrc: nat, n: nat, x: nat)
    requires GranulePreserving(idx) && !(laDst / 8 <= x / 8 < laDst / 8 + n)
    ensures Lookup(CopyUpTo(idx, t, dst, laDst, laSrc, n), idx(x)) == Lookup(t, idx(x))
  {
    hide NewIcv, Lookup, CopyUpTo, GranulePreserving;
    if n > 0 {
      CopyStep(idx, t, dst, laDst, laSrc, n, idx(x));
      IndexOfGranule(idx, x, laDst, n - 1);
      OutsideKept(idx, t, dst, laDst, laSrc, n - 1, x);
    } else {
      CopyNothing(idx, t, dst, laDst, laSrc);
    }
  }

  lemma CopyNothing(idx: Index, t: Table, dst: uint64, laDst: nat, laSrc: nat)
    ensures CopyUpTo(idx, t, dst, laDst, laSrc, 0) == t
  {
  }

  lemma CopyUpToStep(idx: Index, t: Table, dst: uint64, laDst: nat, laSrc: nat, i: nat)
    ensures var before := CopyUpTo(idx, t, dst, laDst, laSrc, i);
      CopyUpTo(idx, t, dst, laDst, laSrc, i + 1) ==
      Put(before, idx(laDst + 8 * i), NewIcv(dst, i, Lookup(before, idx(laSrc + 8 * i))))
  {
    hide NewIcv, Put;
  }

  lemma CopyStep(idx: Index, t: Table, dst: uint64, laDst: nat, laSrc: nat, n: nat, g: nat)
    requires n > 0
    ensures var before := CopyUpTo(idx, t, dst, laDst, laSrc, n - 1);
      Lookup(CopyUpTo(idx, t, dst, laDst, laSrc, n), g) ==
      if g == idx(laDst + 8 * (n - 1))
      then NewIcv(dst, n - 1, Lookup(before, idx(laSrc + 8 * (n - 1))))
      else Lookup(before, g)
  {
    hide NewIcv;
  }

  lemma IndexOfGranule(idx: Index, x: nat, la: nat, i: nat)
    requires GranulePreserving(idx)
    ensures idx(x) == idx(la + 8 * i) <==> x / 8 == la / 8 + i
  {
    assert GranuleAt(la, i) == la / 8 + i;
  }

  /** The count is the number of granules the bytes lie in, except that an empty copy at an
      unaligned address still copies one. */
  lemma IcvCountExactly(la: uint64, n: nat)
    ensures n > 0 ==> IcvCount(la, n) == GranuleCount(la, n)
    ensures n == 0 ==> IcvCount(la, n) == if la % 8 == 0 then 0 else 1
  {
  }

  /** Between equally aligned addresses, an empty copy changes no table if and only if they are
      aligned to a granule. */
  lemma EmptyCopyExactly(idx: Index, dst: uint64, laDst: uint64, laSrc: uint64)
    requires laDst % 8 == laSrc % 8
    ensures (forall t: Table :: CopyForward(idx, t, dst, laDst, laSrc, 0) == t) <==> laDst % 8 == 0
  {
    hide CopyForward;
    if laDst % 8 == 0 {
      forall t: Table
        ensures CopyForward(idx, t, dst, laDst, laSrc, 0) == t
      {
        AlignedEmptyCopy(idx, t, dst, laDst, laSrc);
      }
    } else {
      var t: Table := if IsEncodedCcPtr(dst) then map[] else map[idx(laDst) := 8];
      UnalignedEmptyCopy(idx, t, dst, laDst, laSrc);
      EmptyCopyWrites(idx, t, dst, laDst, laSrc);
    }
  }

  lemma AlignedEmptyCopy(idx: Index, t: Table, dst: uint64, laDst: uint64, laSrc: uint64)
    requires laDst % 8 == 0 && laSrc % 8 == 0
    ensures CopyForward(idx, t, dst, laDst, laSrc, 0) == t
  {
    hide IsEncodedCcPtr, NewIcv, Lookup, Put, CopyUpTo;
    CopyNothing(idx, t, dst, laDst, laSrc);
  }

  lemma UnalignedEmptyCopy(idx: Index, t: Table, dst: uint64, laDst: uint64, laSrc: uint64)
    requires laDst % 8 == laSrc % 8 && laDst % 8 != 0
    ensures Lookup(CopyForward(idx, t, dst, laDst, laSrc, 0), idx(laDst)) == NewIcv(dst, 0, Lookup(t, idx(laSrc)))
  {
    hide IsEncodedCcPtr, NewIcv, Lookup, Put, CopyUpTo;
    CopyNothing(idx, t, dst, laDst, laSrc);
    CopyStep(idx, t, dst, laDst, laSrc, 1, idx(laDst));
  }

  lemma EmptyCopyWrites(idx: Index, t: Table, dst: uint64, laDst: nat, laSrc: nat)
    requires t == if IsEncodedCcPtr(dst) then map[] else map[idx(laDst) := 8]
    ensures NewIcv(dst, 0, Lookup(t, idx(laSrc))) != Lookup(t, idx(laDst))
  {
    hide IsEncodedCcPtr, AddrPart;
    if IsEncodedCcPtr(dst) {
      EncodedAddrPart(dst);
    }
  }

  /** An empty copy to an unaligned address rewrites the granule it points into. */
  lemma EmptyCopyChangesTable()
    ensures var t: Table, idx: Index := map[2 := 8], (a: nat) => a / 8;
      Lookup(t, 2) == 8 && Lookup(CopyForward(idx, t, 0, 20, 12, 0), 2) == 0
  {
    var t: Table, idx: Index := map[2 := 8], (a: nat) => a / 8;
    assert IcvCount(20, 0) == 1 && IcvCount(12, 0) == 1;
    CopyNothing(idx, t, 0, 20, 12);
    CopyStep(idx, t, 0, 20, 12, 1, 2);
    ZeroIsPlain();
  }

  /** The whole forward copy. When the destination touches one granule more than the source,
      that granule is computed from the one before the source, an address taken in 64 bits. */
  function CopyForward(idx: Index, t: Table, dst: uint64, laDst: nat, laSrc: nat, n: nat): Table {
    var s, d := IcvCount(laSrc, n), IcvCount(laDst, n);
    if s < d then
      Put(CopyUpTo(idx, t, dst, laDst, laSrc, s), idx(laDst + 8 * s),
          NewIcv(dst, s, Lookup(CopyUpTo(idx, t, dst, laDst, laSrc, s), idx((laSrc - 8) % WORDS))))
    else CopyUpTo(idx, t, dst, laDst, laSrc, d)
  }

  /** The granules of the ranges: a plain destination, or one that begins at or below the first
      source granule or above the last. */
  predicate CopySafe(dst: uint64, laDst: nat, laSrc: nat, n: nat) {
    !IsEncodedCcPtr(dst) || laDst / 8 <= laSrc / 8 || laDst / 8 > (laSrc + n - 1) / 8
  }

  /** What the copy is for: the granules the destination bytes lie in are computed from what
      the source granules held before it, and no other entry changes. */
  ghost predicate IsSnapshot(idx: Index, t: Table, dst: uint64, laDst: nat, laSrc: nat, n: nat) {
    forall x: nat :: SnapshotAt(idx, t, dst, laDst, laSrc, n, x)
  }

  predicate SnapshotAt(idx: Index, t: Table, dst: uint64, laDst: nat, laSrc: nat, n: nat, x: nat) {
    Lookup(CopyForward(idx, t, dst, laDst, laSrc, n), idx(x)) ==
      if laDst / 8 <= x / 8 <= (laDst + n - 1) / 8
      then NewIcv(dst, x / 8 - laDst / 8, Lookup(t, idx(laSrc + 8 * (x / 8 - laDst / 8))))
      else Lookup(t, idx(x))
  }

  lemma AlignedCount(laDst: nat, laSrc: nat, n: nat)
    requires n > 0 && laDst % 8 == laSrc % 8
    ensures IcvCount(laDst, n) == IcvCount(laSrc, n)
    ensures laDst / 8 + IcvCount(laDst, n) - 1 == (laDst + n - 1) / 8
    ensures laSrc / 8 + IcvCount(laSrc, n) - 1 == (laSrc + n - 1) / 8
  {
  }

  /** For equally aligned, non-empty ranges the copy is a snapshot of every table if and only
      if no source granule is overwritten before it is read, or nothing is read from it. */
  lemma AlignedCopyIsSnapshot(idx: Index, dst: uint64, laDst: uint64, laSrc: uint64, n: nat)
    requires GranulePreserving(idx) && n > 0 && laDst % 8 == laSrc % 8
    ensures (forall t: Table :: IsSnapshot(idx, t, dst, laDst, laSrc, n)) <==> CopySafe(dst, laDst, laSrc, n)
  {
    hide IsSnapshot, GranulePreserving, IsEncodedCcPtr;
    if CopySafe(dst, laDst, laSrc, n) {
      forall t: Table
        ensures IsSnapshot(idx, t, dst, laDst, laSrc, n)
      {
        SafeCopyIsSnapshot(idx, t, dst, laDst, laSrc, n);
      }
    } else {
      UnsafeCopyFails(idx, dst, laDst, laSrc, n);
    }
  }

  lemma SafeCopyIsSnapshot(idx: Index, t: Table, dst: uint64, laDst: uint64, laSrc: uint64, n: nat)
    requires GranulePreserving(idx) && n > 0 && laDst % 8 == laSrc % 8 && CopySafe(dst, laDst, laSrc, n)
    ensures IsSnapshot(idx, t, dst, laDst, laSrc, n)
  {
    hide NewIcv, Lookup, CopyUpTo, IsEncodedCcPtr, IcvCount, GranulePreserving;
    var s := IcvCount(laSrc, n);
    AlignedCount(laDst, laSrc, n);
    forall x: nat
      ensures SnapshotAt(idx, t, dst, laDst, laSrc, n, x)
    {
      if IsEncodedCcPtr(dst) {
        CopyIsSnapshot(idx, t, dst, laDst, laSrc, s, x);
      } else {
        PlainCopyIsSnapshot(idx, t, dst, laDst, laSrc, s, x);
      }
    }
  }

  /** With a plain destination the source does not matter: every destination granule becomes 0. */
  lemma PlainCopyIsSnapshot(idx: Index, t: Table, dst: uint64, laDst: nat, laSrc: nat, n: nat, x: nat)
    requires GranulePreserving(idx) && !IsEncodedCcPtr(dst)
    ensures Lookup(CopyUpTo(idx, t, dst, laDst, laSrc, n), idx(x)) ==
      if laDst / 8 <= x / 8 < laDst / 8 + n
      then NewIcv(dst, x / 8 - laDst / 8, Lookup(t, idx(laSrc + 8 * (x / 8 - laDst / 8))))
      else Lookup(t, idx(x))
  {
    hide Lookup, CopyUpTo, GranulePreserving;
    if laDst / 8 <= x / 8 < laDst / 8 + n {
      WrittenOnce(idx, t, dst, laDst, laSrc, n, x / 8 - laDst / 8);
      IndexOfGranule(idx, x, laDst, x / 8 - laDst / 8);
    } else {
      OutsideKept(idx, t, dst, laDst, laSrc, n, x);
    }
  }

  /** Granule m of the destination keeps what step m of the loop wrote. */
  lemma {:induction false} WrittenOnce(idx: Index, t: Table, dst: uint64, laDst: nat, laSrc: nat, n: nat, m: nat)
    requires GranulePreserving(idx) && m < n
    ensures Lookup(CopyUpTo(idx, t, dst, laDst, laSrc, n), idx(laDst + 8 * m)) ==
      NewIcv(dst, m, Lookup(CopyUpTo(idx, t, dst, laDst, laSrc, m), idx(laSrc + 8 * m)))
    decreases n
  {
    hide NewIcv, Lookup, CopyUpTo, GranulePreserving;
    CopyStep(idx, t, dst, laDst, laSrc, n, idx(laDst + 8 * m));
    if m < n - 1 {
      IndexOfGranule(idx, laDst + 8 * m, laDst, n - 1);
      assert GranuleAt(laDst, m) == laDst / 8 + m;
      WrittenOnce(idx, t, dst, laDst, laSrc, n - 1, m);
    }
  }

  /** After a safe copy through a CA, the destination CA owns every granule of its range but those
      whose source was invalid, and nothing matches those; after a copy to a plain address, plain
      accesses match. */
  lemma CopiedRangeMatches(idx: Index, t: Table, dst: uint64, laDst: uint64, laSrc: uint64, n: nat, i: nat,
                           other: uint64)
    requires GranulePreserving(idx) && n > 0 && laDst % 8 == laSrc % 8 && CopySafe(dst, laDst, laSrc, n)
    requires laDst / 8 + i <= (laDst + n - 1) / 8
    requires IsEncodedCcPtr(dst) ==> dst + 8 * i < WORDS && IsEncodedCcPtr(dst + 8 * i)
    ensures var t' := CopyForward(idx, t, dst, laDst, laSrc, n);
      var invalid := Lookup(t, idx(laSrc + 8 * i)) == INVALID;
      && (!IsEncodedCcPtr(dst) ==> Matches(t', idx(laDst + 8 * i), 0))
      && (IsEncodedCcPtr(dst) ==> Matches(t', idx(laDst + 8 * i), dst + 8 * i) == !invalid)
      && (IsEncodedCcPtr(dst) && invalid ==> !Matches(t', idx(laDst + 8 * i), other))
  {
    hide CopyForward, Lookup, AddrPart, IsEncodedCcPtr, GranulePreserving;
    SafeCopyIsSnapshot(idx, t, dst, laDst, laSrc, n);
    var x := laDst + 8 * i;
    assert GranuleAt(laDst, i) == laDst / 8 + i;
    assert SnapshotAt(idx, t, dst, laDst, laSrc, n, x);
    ZeroIsPlain();
    ZeroAddress();
    if IsEncodedCcPtr(dst) {
      EncodedIcv(dst + 8 * i);
      FlagsOfAddress(dst + 8 * i);
      assert (dst + 8 * i) % WORDS == dst + 8 * i;
      if Lookup(t, idx(laSrc + 8 * i)) == INVALID {
        InvalidMatchesNothing(CopyForward(idx, t, dst, laDst, laSrc, n), idx(x), dst + 8 * i);
        InvalidMatchesNothing(CopyForward(idx, t, dst, laDst, laSrc, n), idx(x), other);
      }
    }
  }

  lemma ZeroAddress()
    ensures AddrPart(0) == 0
  {
  }

  /** When the destination begins inside the source, the first granule written is a source
      granule read later: an invalid ICV there is lost. */
  lemma UnsafeCopyFails(idx: Index, dst: uint64, laDst: uint64, laSrc: uint64, n: nat)
    requires GranulePreserving(idx) && n > 0 && laDst % 8 == laSrc % 8 && !CopySafe(dst, laDst, laSrc, n)
    ensures !IsSnapshot(idx, map[idx(laDst) := INVALID], dst, laDst, laSrc, n)
  {
    hide NewIcv, Lookup, CopyUpTo, IcvCount, GranulePreserving, IsEncodedCcPtr;
    var t: Table := map[idx(laDst) := INVALID];
    var k, s := laDst / 8 - laSrc / 8, IcvCount(laSrc, n);
    AlignedCount(laDst, laSrc, n);
    var x := laDst + 8 * k;
    assert GranuleAt(laDst, k) == laDst / 8 + k && laSrc + 8 * k == laDst;
    WrittenOnce(idx, t, dst, laDst, laSrc, s, k);
    WrittenOnce(idx, t, dst, laDst, laSrc, k, 0);
    CopyNothing(idx, t, dst, laDst, laSrc);
    IndexOfGranule(idx, laSrc, laDst, 0);
    InvalidIsLost(t, idx(laDst), idx(laSrc), dst, k);
    assert !SnapshotAt(idx, t, dst, laDst, laSrc, n, x);
  }

  lemma InvalidIsLost(t: Table, g: nat, h: nat, dst: uint64, k: nat)
    requires t == map[g := INVALID] && g != h && IsEncodedCcPtr(dst)
    ensures NewIcv(dst, k, Lookup(t, g)) == INVALID
    ensures NewIcv(dst, k, NewIcv(dst, 0, Lookup(t, h))) != INVALID
  {
    hide IsEncodedCcPtr;
  }

  /** Eight bytes copied up by eight share a granule with their destination: granule 1, invalid
      before, is overwritten before granule 2 is computed from it. */
  lemma SharedGranuleLosesInvalid(dst: uint64)
    requires IsEncodedCcPtr(dst)
    ensures !IsSnapshot((a: nat) => a / 8, map[1 := INVALID], dst, 12, 4, 8)
  {
    var idx: Index := (a: nat) => a / 8;
    assert !CopySafe(dst, 12, 4, 8);
    UnsafeCopyFails(idx, dst, 12, 4, 8);
    assert idx(12) == 1;
  }

  // ------------------------------------------------------------------------
  // The checker object
  // ------------------------------------------------------------------------

  class Checker {
    const idx: Index
    const policy: Policy
    const icvMap: ICVMap
    var icvEnabled: bool
    var icvLock: bool
    var isIcvFailure: bool

    ghost predicate Valid()
      reads icvMap, icvMap.Repr
    {
      icvMap.Valid() && this !in icvMap.Repr
    }

    constructor (idx: Index, policy: Policy)
      ensures Valid() && fresh(icvMap) && fresh(icvMap.Repr) && icvMap.table == map[]
      ensures this.idx == idx && this.policy == policy && icvEnabled && icvLock && !isIcvFailure
    {
      this.idx, this.policy := idx, policy;
      icvMap := new ICVMap();
      icvEnabled, icvLock, isIcvFailure := true, true, false;
    }

    method CheckGranule(g: nat, ca: uint64, rw: RW) returns (fault: bool, uninit: bool)
      requires Valid()
      modifies this`isIcvFailure, icvMap, icvMap.Repr
      ensures Valid() && fresh(icvMap.Repr - old(icvMap.Repr))
      ensures var c := CheckIcv(policy, old(icvMap.table), g, ca, rw);
        && c == Check(icvMap.table, c.failure, fault, uninit)
        && isIcvFailure == if c.fault && c.failure then old(isIcvFailure) else c.failure
    {
      hide AddrPart, ThisIcv, Preinit, Uninitialized, Initialize;
      fault, uninit := false, false;
      var stored := icvMap.Get(g);
      if ThisIcv(ca) == AddrPart(stored) {
        isIcvFailure := false;
      } else {
        if (if rw.WRITE? then policy.faultOnWrite else policy.faultOnRead) {
          return true, false;
        }
        isIcvFailure := true;
      }
      if Preinit(stored) && rw.WRITE? {
        icvMap.Set(g, Initialize(stored));
      }
      if rw.READ? && Uninitialized(stored) {
        uninit := true;
        fault := policy.faultOnRead;
      }
    }

    /** check_integrity: one step per granule the access overlaps. */
    method CheckIntegrity(la: uint64, ca: uint64, size: nat, rw: RW) returns (fault: bool, uninit: bool)
      requires Valid()
      modifies this`isIcvFailure, icvMap, icvMap.Repr
      ensures Valid() && fresh(icvMap.Repr - old(icvMap.Repr))
      ensures icvEnabled ==>
        var c := AccessCheck(policy, icvLock, idx, old(icvMap.table), la, ca, size, rw);
        && icvMap.table == c.table && fault == c.fault && uninit == c.uninit
        && (icvLock && la != 0 && size != 0 && !fault ==> isIcvFailure == c.failure)
      ensures !icvEnabled ==>
        icvMap.table == old(icvMap.table) && !fault && !uninit && isIcvFailure == old(isIcvFailure)
    {
      fault, uninit := false, false;
      if la == 0 || size == 0 || !icvEnabled {
        return;
      }
      var n := GranuleCount(la, size);
      if icvLock {
        fault, uninit := CheckAll(la, ca, rw, n);
      } else {
        SetAll(la, ca, rw, n);
      }
    }

    method CheckAll(la: uint64, ca: uint64, rw: RW, n: nat) returns (fault: bool, uninit: bool)
      requires Valid() && n > 0
      modifies this`isIcvFailure, icvMap, icvMap.Repr
      ensures Valid() && fresh(icvMap.Repr - old(icvMap.Repr))
      ensures var c := CheckFrom(policy, idx, old(icvMap.table), la, ca, rw, 0, n);
        c == Check(icvMap.table, c.failure, fault, uninit) && (!fault ==> isIcvFailure == c.failure)
    {
      hide CheckIcv, CaAt, CheckFrom;
      fault, uninit := false, false;
      ghost var whole := CheckFrom(policy, idx, icvMap.table, la, ca, rw, 0, n);
      var i := 0;
      while i < n && !fault
        invariant 0 <= i <= n && Valid() && fresh(icvMap.Repr - old(icvMap.Repr))
        invariant i == 0 ==> !fault && !uninit
        invariant fault || i == n ==>
          && i > 0 && whole == Check(icvMap.table, whole.failure, fault, uninit)
          && (!fault ==> isIcvFailure == whole.failure)
        invariant !fault && i < n ==>
          var rest := CheckFrom(policy, idx, icvMap.table, la, ca, rw, i, n);
          whole == rest.(uninit := uninit || rest.uninit)
        decreases n - i, !fault
      {
        var u;
        CheckFromStep(policy, idx, icvMap.table, la, ca, rw, i, n);
        fault, u := CheckGranule(idx(la + 8 * i), CaAt(ca, i), rw);
        uninit := uninit || u;
        i := i + 1;
      }
    }

    method SetAll(la: uint64, ca: uint64, rw: RW, n: nat)
      requires Valid()
      modifies this`isIcvFailure, icvMap, icvMap.Repr
      ensures Valid() && fresh(icvMap.Repr - old(icvMap.Repr))
      ensures icvMap.table == SetFrom(idx, old(icvMap.table), la, ca, rw, 0, n)
      ensures isIcvFailure == old(isIcvFailure)
    {
      hide CaAt, ThisIcv;
      for i := 0 to n
        invariant Valid() && fresh(icvMap.Repr - old(icvMap.Repr)) && isIcvFailure == old(isIcvFailure)
        invariant SetFrom(idx, icvMap.table, la, ca, rw, i, n) == SetFrom(idx, old(icvMap.table), la, ca, rw, 0, n)
      {
        if rw.WRITE? {
          icvMap.Set(idx(la + 8 * i), ThisIcv(CaAt(ca, i)));
        }
      }
    }

    /** cc_set_icv: unlock, read and write every byte of the range once, lock. */
    method CcSetIcv(la: uint64, ca: uint64, size: nat)
      requires Valid() && 0 < la && 0 < ca && la + size < WORDS && ca + size < WORDS
      modifies this, icvMap, icvMap.Repr
      ensures Valid() && fresh(icvMap.Repr - old(icvMap.Repr)) && icvEnabled == old(icvEnabled) && icvLock
      ensures icvMap.table ==
        if icvEnabled then SetRange(idx, old(icvMap.table), la, ca, size) else old(icvMap.table)
    {
      hide ThisIcv, AccessCheck, SetRange, SetIcv, ICVMap.Valid;
      SetRangeStart(idx, icvMap.table, la, ca);
      icvLock := false;
      for k := 0 to size
        invariant Valid() && fresh(icvMap.Repr - old(icvMap.Repr)) && icvEnabled == old(icvEnabled) && !icvLock
        invariant icvMap.table ==
          if icvEnabled then SetRange(idx, old(icvMap.table), la, ca, k) else old(icvMap.table)
      {
        SetRangeStep(idx, old(icvMap.table), la, ca, k);
        TouchByte(la + k, ca + k);
      }
      icvLock := true;
    }

    /** The two moves of the loop: load a byte through the pointer, store it back. */
    method TouchByte(la: uint64, ca: uint64)
      requires Valid() && !icvLock && 0 < la && 0 < ca
      modifies this`isIcvFailure, icvMap, icvMap.Repr
      ensures Valid() && fresh(icvMap.Repr - old(icvMap.Repr))
      ensures icvMap.table ==
        if icvEnabled then SetIcv(old(icvMap.table), idx(la), ca, WRITE) else old(icvMap.table)
    {
      hide ThisIcv, AccessCheck, SetIcv;
      OneByteAccess(policy, idx, icvMap.table, la, ca);
      var fault, uninit := CheckIntegrity(la, ca, 1, READ);
      fault, uninit := CheckIntegrity(la, ca, 1, WRITE);
    }

    /** copyICVs, forward. */
    method CopyIcvsForward(dst: uint64, laDst: uint64, laSrc: uint64, n: nat)
      requires Valid()
      modifies icvMap, icvMap.Repr
      ensures Valid() && fresh(icvMap.Repr - old(icvMap.Repr))
      ensures icvMap.table == CopyForward(idx, old(icvMap.table), dst, laDst, laSrc, n)
    {
      hide NewIcv, ICVMap.Valid, Put, Lookup, CopyUpTo, IcvCount;
      var srcN, dstN := IcvCount(laSrc, n), IcvCount(laDst, n);
      CopyNothing(idx, icvMap.table, dst, laDst, laSrc);
      var i := 0;
      while i < srcN && i < dstN
        invariant i <= srcN && i <= dstN
        invariant Valid() && fresh(icvMap.Repr - old(icvMap.Repr))
        invariant icvMap.table == CopyUpTo(idx, old(icvMap.table), dst, laDst, laSrc, i)
      {
        CopyUpToStep(idx, old(icvMap.table), dst, laDst, laSrc, i);
        CopyGranule(dst, laDst + 8 * i, laSrc + 8 * i, i);
        i := i + 1;
      }
      if srcN < dstN {
        CopyGranule(dst, laDst + 8 * i, (laSrc - 8) % WORDS, i);
      }
    }

    method CopyGranule(dst: uint64, to: nat, from: nat, i: nat)
      requires Valid()
      modifies icvMap, icvMap.Repr
      ensures Valid() && fresh(icvMap.Repr - old(icvMap.Repr))
      ensures icvMap.table == Put(old(icvMap.table), idx(to), NewIcv(dst, i, Lookup(old(icvMap.table), idx(from))))
    {
      hide NewIcv, ICVMap.Valid, Put, Lookup;
      var val := icvMap.Get(idx(from));
      icvMap.Set(idx(to), NewIcv(dst, i, val));
    }

    method PreInitIcv(g: nat)
      requires Valid()
      modifies icvMap, icvMap.Repr
      ensures Valid() && fresh(icvMap.Repr - old(icvMap.Repr))
      ensures icvMap.table == PreInit(old(icvMap.table), g)
    {
      hide Preinit, EnablePreinit, Uninitialize;
      var stored := icvMap.Get(g);
      if Preinit(stored) {
        return;
      }
      icvMap.Set(g, Uninitialize(EnablePreinit(stored)));
    }

    method Invalidate(g: nat, ca: uint64) returns (r: Invalidation)
      requires Valid()
      modifies icvMap, icvMap.Repr
      ensures Valid() && fresh(icvMap.Repr - old(icvMap.Repr))
      ensures r == InvalidateIcv(old(icvMap.table), g, ca)
      ensures icvMap.table == AfterInvalidate(old(icvMap.table), g, ca)
    {
      hide ThisIcv, IsEncodedCcPtr;
      if !IsEncodedCcPtr(ca) {
        return NotACa;
      }
      var stored := icvMap.Get(g);
      if ThisIcv(ca) != stored {
        return Refused;
      }
      icvMap.Set(g, INVALID);
      return Invalidated;
    }
  }

  lemma CheckFromStep(p: Policy, idx: Index, t: Table, la: uint64, ca: uint64, rw: RW, i: nat, n: nat)
    requires i < n
    ensures var c := CheckIcv(p, t, idx(la + 8 * i), CaAt(ca, i), rw);
      CheckFrom(p, idx, t, la, ca, rw, i, n) ==
      if c.fault || i + 1 == n then c
      else var d := CheckFrom(p, idx, c.table, la, ca, rw, i + 1, n); d.(uninit := c.uninit || d.uninit)
  {
  }

  lemma SetRangeStart(idx: Index, t: Table, la: uint64, ca: uint64)
    ensures SetRange(idx, t, la, ca, 0) == t
  {
  }

  lemma SetRangeStep(idx: Index, t: Table, la: uint64, ca: uint64, k: nat)
    requires ca + k < WORDS
    ensures SetRange(idx, t, la, ca, k + 1) == SetIcv(SetRange(idx, t, la, ca, k), idx(la + k), ca + k, WRITE)
  {
    hide SetIcv;
    assert (ca + k) % WORDS == ca + k;
  }

  lemma OneByteAccess(p: Policy, idx: Index, t: Table, la: uint64, ca: uint64)
    requires 0 < la && 0 < ca
    ensures AccessCheck(p, false, idx, t, la, ca, 1, READ).table == t
    ensures AccessCheck(p, false, idx, t, la, ca, 1, WRITE).table == SetIcv(t, idx(la), ca, WRITE)
  {
    hide ThisIcv;
    assert GranuleCount(la, 1) == 1;
    assert la + 8 * 0 == la && CaAt(ca, 0) == ca;
  }
}
