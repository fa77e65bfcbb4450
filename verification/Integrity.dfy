/** Integrity values of one granule: setting, checking, pre-initialising and invalidating them
    (modules/common/ccsimics/integrity.h, c3lib/c3/generic/icv.h). */
module Integrity {
  import opened Words
  import opened CryptoAddress
  import opened IcvMap

  // ------------------------------------------------------------------------
  // The bits of an ICV
  // ------------------------------------------------------------------------

  const INVALID: Icv := 0xFFFF_FFFF_FFFF_FFFF

  /** x & ICV_ADDR_MASK. */
  function AddrPart(x: uint64): (r: uint64)
    ensures r % 8 == 0
  {
    x - x % 8
  }

  /** IS_ICV_PREINIT_ENABLED: bit 2. */
  predicate Preinit(x: Icv) {
    x % 8 >= 4
  }

  /** IS_ICV_UNINITIALIZED: bit 1, with inverted polarity. */
  predicate Uninitialized(x: Icv) {
    var l := x % 8;
    l == 2 || l == 3 || l == 6 || l == 7
  }

  /** Bit 0, which no operation sets. */
  predicate SpareBit(x: Icv) {
    var l := x % 8;
    l == 1 || l == 3 || l == 5 || l == 7
  }

  /** An ICV from its address and its flags. */
  lemma FlagsCompose(a: nat, l: nat)
    requires a % 8 == 0 && l < 8
    ensures (a + l) % 8 == l
  {
  }

  /** x | ICV_PREINIT_MASK. */
  function EnablePreinit(x: Icv): (r: Icv)
    ensures Preinit(r) && AddrPart(r) == AddrPart(x)
    ensures Uninitialized(r) == Uninitialized(x) && SpareBit(r) == SpareBit(x)
  {
    FlagsCompose(AddrPart(x), if Preinit(x) then x % 8 else x % 8 + 4);
    if Preinit(x) then x else x + 4
  }

  /** ICV_UNINITIALIZE. */
  function Uninitialize(x: Icv): (r: Icv)
    ensures Uninitialized(r) && AddrPart(r) == AddrPart(x)
    ensures Preinit(r) == Preinit(x) && SpareBit(r) == SpareBit(x)
  {
    FlagsCompose(AddrPart(x), if Uninitialized(x) then x % 8 else x % 8 + 2);
    if Uninitialized(x) then x else x + 2
  }

  /** ICV_INITIALIZE. */
  function Initialize(x: Icv): (r: Icv)
    ensures !Uninitialized(r) && AddrPart(r) == AddrPart(x)
    ensures Preinit(r) == Preinit(x) && SpareBit(r) == SpareBit(x)
  {
    FlagsCompose(AddrPart(x), if Uninitialized(x) then x % 8 - 2 else x % 8);
    if Uninitialized(x) then x - 2 else x
  }

  /** The flags by their bits, and the address part by what it keeps. */
  lemma FlagBits(x: Icv)
    ensures Preinit(x) <==> NatBit(x, 2)
    ensures Uninitialized(x) <==> NatBit(x, 1)
    ensures SpareBit(x) <==> NatBit(x, 0)
    ensures AddrPart(x) == x / 8 * 8
  {
    LowBits(x);
    assert x == 8 * (x / 8) + x % 8;
  }

  lemma LowBits(x: nat)
    ensures NatBit(x, 0) == (x % 8 % 2 == 1)
    ensures NatBit(x, 1) == (x % 8 / 2 % 2 == 1)
    ensures NatBit(x, 2) == (x % 8 / 4 % 2 == 1)
  {
    var q, r := x / 8, x % 8;
    assert Shr(x, 1) == x / 2 == 4 * q + r / 2;
    assert Shr(x, 2) == Shr(x / 2, 1) == x / 2 / 2 == 2 * q + r / 4;
  }

  lemma FlagsOfAddress(x: uint64)
    ensures !Preinit(AddrPart(x)) && !Uninitialized(AddrPart(x)) && AddrPart(AddrPart(x)) == AddrPart(x)
  {
  }

  /** The ICV an access presents: its CA, or 0 for a plain address. */
  function ThisIcv(ca: uint64): Icv {
    if IsEncodedCcPtr(ca) then AddrPart(ca) else 0
  }

  // ------------------------------------------------------------------------
  // One granule
  // ------------------------------------------------------------------------

  datatype RW = READ | WRITE

  /** Which mismatches raise a fault; suppression and correction are off. */
  datatype Policy = Policy(faultOnWrite: bool, faultOnRead: bool)

  /** failure is the verdict on the address part, which is_icv_failure_ takes unless the fault
      comes first; uninit is a report of a read of uninitialised memory. A fault ends the access. */
  datatype Check = Check(table: Table, failure: bool, fault: bool, uninit: bool)

  predicate Matches(t: Table, g: nat, ca: uint64) {
    ThisIcv(ca) == AddrPart(Lookup(t, g))
  }

  function CheckIcv(p: Policy, t: Table, g: nat, ca: uint64, rw: RW): Check {
    var stored := Lookup(t, g);
    var failure := !Matches(t, g, ca);
    if failure && (if rw.WRITE? then p.faultOnWrite else p.faultOnRead) then
      Check(t, true, true, false)
    else
      var t' := if rw.WRITE? && Preinit(stored) then Put(t, g, Initialize(stored)) else t;
      var uninit := rw.READ? && Uninitialized(stored);
      Check(t', failure, uninit && p.faultOnRead, uninit)
  }

  function SetIcv(t: Table, g: nat, ca: uint64, rw: RW): Table {
    if rw.READ? then t else Put(t, g, ThisIcv(ca))
  }

  function PreInit(t: Table, g: nat): Table {
    var stored := Lookup(t, g);
    if Preinit(stored) then t else Put(t, g, Uninitialize(EnablePreinit(stored)))
  }

  datatype Invalidation = Invalidated | Refused | NotACa

  /** invalidate_icv compares the whole stored value, flags included. */
  function InvalidateIcv(t: Table, g: nat, ca: uint64): Invalidation {
    if !IsEncodedCcPtr(ca) then NotACa
    else if ThisIcv(ca) == Lookup(t, g) then Invalidated
    else Refused
  }

  function AfterInvalidate(t: Table, g: nat, ca: uint64): Table {
    if InvalidateIcv(t, g, ca) == Invalidated then Put(t, g, INVALID) else t
  }

  // ------------------------------------------------------------------------
  // Runs of granule checks
  // ------------------------------------------------------------------------

  datatype Event = CheckEvent(g: nat, ca: uint64, rw: RW) | PreInitEvent(g: nat)

  function Step(p: Policy, t: Table, e: Event): Table {
    match e
    case CheckEvent(g, ca, rw) => CheckIcv(p, t, g, ca, rw).table
    case PreInitEvent(g) => PreInit(t, g)
  }

  function RunEvents(p: Policy, t: Table, h: seq<Event>): Table {
    if h == [] then t else Step(p, RunEvents(p, t, h[..|h| - 1]), h[|h| - 1])
  }

  /** Granule g was pre-initialised at some point of the history. */
  ghost predicate PreInited(h: seq<Event>, g: nat) {
    exists i :: 0 <= i < |h| && h[i] == PreInitEvent(g)
  }

  /** A write check on g passed: the access presented the granule's address a. */
  predicate PassedWrite(e: Event, g: nat, a: Icv) {
    e.CheckEvent? && e.g == g && e.rw.WRITE? && ThisIcv(e.ca) == a
  }

  /** Some write check on g passed after some pre-initialisation of g. */
  ghost predicate WrittenSince(h: seq<Event>, g: nat, a: Icv) {
    exists i, j :: 0 <= i < j < |h| && h[i] == PreInitEvent(g) && PassedWrite(h[j], g, a)
  }

  lemma PreInitedStep(h: seq<Event>, e: Event, g: nat)
    ensures PreInited(h + [e], g) <==> PreInited(h, g) || e == PreInitEvent(g)
  {
    var k := h + [e];
    if PreInited(h, g) {
      var i :| 0 <= i < |h| && h[i] == PreInitEvent(g);
      assert k[i] == PreInitEvent(g);
    }
    if e == PreInitEvent(g) {
      assert k[|h|] == PreInitEvent(g);
    }
  }

  lemma WrittenSinceStep(h: seq<Event>, e: Event, g: nat, a: Icv)
    ensures WrittenSince(h + [e], g, a) <==> WrittenSince(h, g, a) || (PreInited(h, g) && PassedWrite(e, g, a))
  {
    var k := h + [e];
    if WrittenSince(h, g, a) {
      var i, j :| 0 <= i < j < |h| && h[i] == PreInitEvent(g) && PassedWrite(h[j], g, a);
      assert k[i] == PreInitEvent(g) && PassedWrite(k[j], g, a);
    }
    if PreInited(h, g) && PassedWrite(e, g, a) {
      var i :| 0 <= i < |h| && h[i] == PreInitEvent(g);
      assert k[i] == PreInitEvent(g) && PassedWrite(k[|h|], g, a);
    }
    if WrittenSince(k, g, a) {
      var i, j :| 0 <= i < j < |k| && k[i] == PreInitEvent(g) && PassedWrite(k[j], g, a);
      assert h[i] == PreInitEvent(g);
      if j < |h| {
        assert PassedWrite(h[j], g, a);
      }
    }
  }

  /** What a history leaves of a granule that started with neither flag set: the address
      part never changes, PREINIT records whether it was ever pre-initialised, and it is
      uninitialised exactly until a write check passes after a pre-initialisation. */
  ghost predicate Recorded(t0: Table, t: Table, h: seq<Event>, g: nat) {
    var a := AddrPart(Lookup(t0, g));
    && AddrPart(Lookup(t, g)) == a
    && (Preinit(Lookup(t, g)) <==> PreInited(h, g))
    && (Uninitialized(Lookup(t, g)) <==> PreInited(h, g) && !WrittenSince(h, g, a))
  }

  lemma StepRecorded(p: Policy, t0: Table, t: Table, h: seq<Event>, e: Event, g: nat)
    requires p.faultOnWrite && Recorded(t0, t, h, g)
    ensures Recorded(t0, Step(p, t, e), h + [e], g)
  {
    hide SpareBit, Preinit, Uninitialized, AddrPart, PreInited, WrittenSince;
    var a := AddrPart(Lookup(t0, g));
    PreInitedStep(h, e, g);
    WrittenSinceStep(h, e, g, a);
    WrittenNeedsPreInit(h, g, a);
  }

  lemma WrittenNeedsPreInit(h: seq<Event>, g: nat, a: Icv)
    ensures WrittenSince(h, g, a) ==> PreInited(h, g)
  {
  }

  lemma {:induction false} HistoryRecorded(p: Policy, t: Table, h: seq<Event>, g: nat)
    requires p.faultOnWrite && !Preinit(Lookup(t, g)) && !Uninitialized(Lookup(t, g))
    ensures Recorded(t, RunEvents(p, t, h), h, g)
  {
    if h != [] {
      var front, e := h[..|h| - 1], h[|h| - 1];
      HistoryRecorded(p, t, front, g);
      StepRecorded(p, t, RunEvents(p, t, front), front, e, g);
      assert h == front + [e];
    }
  }

  /** A matching read of a granule is reported uninitialised exactly when the granule was
      pre-initialised and no write check has passed on it since. */
  lemma UninitializedReadExactly(p: Policy, t: Table, h: seq<Event>, g: nat, ca: uint64)
    requires p.faultOnWrite && !Preinit(Lookup(t, g)) && !Uninitialized(Lookup(t, g))
    requires Matches(t, g, ca)
    ensures var c := CheckIcv(p, RunEvents(p, t, h), g, ca, READ);
      !c.failure && (c.uninit <==> PreInited(h, g) && !WrittenSince(h, g, ThisIcv(ca)))
  {
    HistoryRecorded(p, t, h, g);
  }

  /** No access at all matches an invalidated granule: no encoded pointer has the size field 63. */
  lemma InvalidMatchesNothing(t: Table, g: nat, ca: uint64)
    requires AddrPart(Lookup(t, g)) == AddrPart(INVALID)
    ensures !Matches(t, g, ca)
  {
  }

  lemma {:induction false} InvalidForever(p: Policy, t: Table, h: seq<Event>, g: nat)
    requires p.faultOnWrite && Lookup(t, g) == INVALID
    ensures Lookup(RunEvents(p, t, h), g) == INVALID
  {
    if h != [] {
      InvalidForever(p, t, h[..|h| - 1], g);
      var e := h[|h| - 1];
      if e.CheckEvent? {
        InvalidMatchesNothing(RunEvents(p, t, h[..|h| - 1]), g, e.ca);
      }
    }
  }

  /** What invalidation is for: once a granule is invalidated, no access through any pointer
      matches it after any history, and every write to it faults. */
  lemma InvalidationIsFinal(p: Policy, t: Table, h: seq<Event>, g: nat, ca: uint64, other: uint64)
    requires p.faultOnWrite && InvalidateIcv(t, g, ca) == Invalidated
    ensures var t' := RunEvents(p, AfterInvalidate(t, g, ca), h);
      !Matches(t', g, other) && CheckIcv(p, t', g, other, WRITE).fault
  {
    hide IsEncodedCcPtr;
    InvalidForever(p, AfterInvalidate(t, g, ca), h, g);
    InvalidMatchesNothing(RunEvents(p, AfterInvalidate(t, g, ca), h), g, other);
  }

  /** Which pointers leave a granule invalid: a CA equal to the whole stored value up to its
      slot offset. A plain pointer never does, even where its accesses match. */
  lemma InvalidAfterwards(t: Table, g: nat, ca: uint64)
    ensures Lookup(AfterInvalidate(t, g, ca), g) == INVALID <==>
      Lookup(t, g) == INVALID || (IsEncodedCcPtr(ca) && Lookup(t, g) == ca / 8 * 8)
    ensures InvalidateIcv(t, g, ca) == NotACa <==> !IsEncodedCcPtr(ca)
    ensures !IsEncodedCcPtr(ca) && Lookup(t, g) == 0 ==> Matches(t, g, ca) && AfterInvalidate(t, g, ca) == t
  {
    hide IsEncodedCcPtr;
    assert ca == ca / 8 * 8 + ca % 8;
  }

  /** No other granule changes, and a refused invalidation changes nothing at all. */
  lemma InvalidationKeepsOthers(t: Table, g: nat, ca: uint64, k: nat)
    requires k != g || InvalidateIcv(t, g, ca) != Invalidated
    ensures Lookup(AfterInvalidate(t, g, ca), k) == Lookup(t, k)
  {
  }

  /** When a check faults: on a mismatch, and for a read also on uninitialised memory, as far as
      faults are on for its direction. */
  lemma CheckFaultsExactly(p: Policy, t: Table, g: nat, ca: uint64, rw: RW)
    ensures CheckIcv(p, t, g, ca, rw).fault <==>
      match rw
      case WRITE => p.faultOnWrite && !Matches(t, g, ca)
      case READ => p.faultOnRead && (!Matches(t, g, ca) || Uninitialized(Lookup(t, g)))
  {
    hide Matches, Uninitialized;
  }

  /** A CA that passes the check can invalidate the granule exactly when the granule was
      never pre-initialised: the comparison includes the flag bits the check ignores. */
  lemma InvalidationExactly(p: Policy, t: Table, h: seq<Event>, g: nat, ca: uint64)
    requires p.faultOnWrite && Lookup(t, g) % 8 == 0
    requires IsEncodedCcPtr(ca) && Matches(t, g, ca)
    ensures InvalidateIcv(RunEvents(p, t, h), g, ca) == Invalidated <==> !PreInited(h, g)
  {
    hide AddrPart, IsEncodedCcPtr, RunEvents, PreInited, WrittenSince;
    ZeroFlags(Lookup(t, g));
    WrittenNeedsPreInit(h, g, AddrPart(Lookup(t, g)));
    HistoryRecorded(p, t, h, g);
    SpareBitRecorded(p, t, h, g);
    WholeIcv(Lookup(RunEvents(p, t, h), g), ca);
  }

  lemma ZeroFlags(x: Icv)
    requires x % 8 == 0
    ensures !Preinit(x) && !Uninitialized(x) && !SpareBit(x)
  {
  }

  lemma WholeIcv(x: Icv, ca: uint64)
    requires IsEncodedCcPtr(ca) && AddrPart(x) == ThisIcv(ca) && !SpareBit(x)
    ensures x == ThisIcv(ca) <==> !Preinit(x) && !Uninitialized(x)
  {
    assert x % 8 == 0 <==> !Preinit(x) && !Uninitialized(x);
  }

  /** The lowest bit of an ICV is never set by a run. */
  lemma {:induction false} SpareBitRecorded(p: Policy, t: Table, h: seq<Event>, g: nat)
    requires !SpareBit(Lookup(t, g))
    ensures !SpareBit(Lookup(RunEvents(p, t, h), g))
  {
    hide SpareBit, Preinit, Uninitialized, Matches, AddrPart;
    if h != [] {
      SpareBitRecorded(p, t, h[..|h| - 1], g);
    }
  }

  /** An instance: the CA 2^57 owns granule 0, pre-initialises it, still passes the check, and
      is refused when it invalidates. */
  lemma InvalidationRefused(p: Policy)
    requires p.faultOnWrite
    ensures var ca: uint64 := 0x200_0000_0000_0000;
      var t: Table := map[0 := ca];
      var t' := RunEvents(p, t, [PreInitEvent(0)]);
      Matches(t', 0, ca) && InvalidateIcv(t', 0, ca) == Refused
  {
    var ca: uint64 := 0x200_0000_0000_0000;
    var t: Table := map[0 := ca];
    var h := [PreInitEvent(0)];
    assert GetCa(ca).encSize == 1;
    assert h[0] == PreInitEvent(0);
    InvalidationExactly(p, t, h, 0, ca);
    HistoryRecorded(p, t, h, 0);
  }
}
