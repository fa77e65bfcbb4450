/** Accesses through encoded LIM pointers, and whole runs of them: the object behaves as flat
    memory with its metadata out of reach (modules/lim_model/model.cpp). */
module LimRun {
  import opened Words
  import opened Buffers
  import opened LimEncoding
  import opened LimObject

  /** The size code is one check_encoded_size lets through, and the slot is mapped. */
  predicate Mapped(mem: Memory, p: uint64) {
    MIN_ENCODED_SIZE <= EncodedSizeOf(p) <= MAX_ENCODED_SIZE &&
    SlotEnd(DecodePointer(p), EncodedSizeOf(p)) < |mem| <= WORDS
  }

  function DecodedAt(mem: Memory, p: uint64): Decoded
    requires Mapped(mem, p)
  {
    DecodedFrom(mem, DecodePointer(p), EncodedSizeOf(p))
  }

  /** The object that the metadata of the pointer's slot describe. */
  function ObjectAt(mem: Memory, p: uint64): Object
    requires Mapped(mem, p)
  {
    var la, e, d := DecodePointer(p), EncodedSizeOf(p), DecodedAt(mem, p);
    SlotGeometry(la, e);
    Object(MetadataAddress(la, e), MetadataSize(e), d.lowerLa, d.upperLa)
  }

  /** address_before raises no fault: the three tags agree, the stored bounds lie in the slot,
      and the address is between them and is not CORRUPTED_ADDR. */
  predicate Admits(mem: Memory, p: uint64)
    requires Mapped(mem, p)
  {
    var la, e, d := DecodePointer(p), EncodedSizeOf(p), DecodedAt(mem, p);
    EncodedTag(p) == d.tagLeft == d.tagRight &&
    SlotStart(la, e) <= d.lowerLa && d.upperLa <= SlotEnd(la, e) &&
    d.lowerLa <= la <= d.upperLa && la != 0
  }

  /** Whatever bytes lie where metadata are expected: a decoded object that passes the checks
      encloses its metadata, so no later guard against bad metadata can fire. */
  lemma AdmittedIsPlaced(mem: Memory, p: uint64)
    requires Mapped(mem, p) && Admits(mem, p)
    ensures var o, la, e := ObjectAt(mem, p), DecodePointer(p), EncodedSizeOf(p);
      && o.WellPlaced() && SlotStart(la, e) <= o.lower && o.upper <= SlotEnd(la, e) < |mem|
      && o.metaSize <= 16
  {
    hide SlotStart, SlotEnd, MiddleAddress, MetadataAddress, MetadataSize, MetadataBytes;
    hide UnpackFields, FromLittleEndian, Pow2, DecodeBound;
    var la, e := DecodePointer(p), EncodedSizeOf(p);
    SlotGeometry(la, e);
    var f := UnpackFields(MetadataSize(e), FromLittleEndian(MetadataBytes(mem, la, e)));
    BoundNotWrapped(MetadataSize(e), FromLittleEndian(MetadataBytes(mem, la, e)));
    SlotBelow(la, e);
    WrapCases(MiddleAddress(la, e), DecodeBound(f.lower), DecodeBound(f.upper));
    assert DecodedAt(mem, p).lowerLa == (MiddleAddress(la, e) - DecodeBound(f.lower)) % WORDS;
  }

  /** A slot of at most 2^56 bytes around an address below 2^54 lies below 2^56. */
  lemma SlotBelow(la: nat, e: SizeCode)
    requires la < 0x40_0000_0000_0000
    ensures MiddleAddress(la, e) < 0x100_0000_0000_0000
  {
    hide Low, Pow2;
    LargePower();
    Pow2Monotone(e - 1, 55);
    assert MiddleAddress(la, e) <= la + Pow2(e - 1);
  }

  lemma BoundNotWrapped(metaSize: nat, v: nat)
    requires metaSize == 1 || metaSize == 2 || metaSize == 16
    ensures var f := UnpackFields(metaSize, v);
      && 8 <= DecodeBound(f.lower) <= 0x8000_0000_0000_0000
      && 8 <= DecodeBound(f.upper) <= 0x8000_0000_0000_0000
  {
    var f := UnpackFields(metaSize, v);
    assert f.lower < 0x1000_0000_0000_0000 && f.upper < 0x1000_0000_0000_0000;
  }

  lemma WrapCases(m: nat, l: nat, u: nat)
    requires m < 0x100_0000_0000_0000
    requires 8 <= l <= 0x8000_0000_0000_0000 && 8 <= u <= 0x8000_0000_0000_0000
    ensures (m - l) % WORDS == if l <= m then m - l else m - l + WORDS
    ensures l > m ==> (m - l) % WORDS >= 0x8000_0000_0000_0000
    ensures (m + u - 1) % WORDS == m + u - 1
  {
  }

  // ------------------------------------------------------------------------
  // One access
  // ------------------------------------------------------------------------

  datatype Op = Load(n: nat) | Store(data: seq<Byte>) {
    function Size(): nat {
      match this
      case Load(n) => n
      case Store(data) => |data|
    }
  }

  datatype Outcome = Fault | Done(data: seq<Byte>)

  /** The data half of an access: a general protection fault leaves memory alone, otherwise
      the op acts on the object. */
  function Piece(mode: Mode, mem: Memory, o: Placed, la: nat, op: Op): (r: (Memory, Outcome))
    requires o.upper < |mem|
    ensures |r.0| == |mem|
  {
    if !o.InBounds(la, op.Size()) then (mem, Fault)
    else
      match op
      case Load(n) => (mem, Done(LoadBytes(mode, o, mem, la, n)))
      case Store(data) => (StoreBytes(mode, o, mem, la, data), Done([]))
  }

  /** An access within one page. */
  function Chunk(mode: Mode, mem: Memory, p: uint64, op: Op): (r: (Memory, Outcome))
    requires Mapped(mem, p)
    ensures |r.0| == |mem|
  {
    if !Admits(mem, p) then (mem, Fault)
    else
      AdmittedIsPlaced(mem, p);
      Piece(mode, mem, ObjectAt(mem, p), DecodePointer(p), op)
  }

  /** The first i bytes of an access, and the rest of it. */
  function Head(op: Op, i: nat): Op
    requires i <= op.Size()
  {
    match op
    case Load(_) => Load(i)
    case Store(data) => Store(data[..i])
  }

  function Tail(op: Op, i: nat): Op
    requires i <= op.Size()
  {
    match op
    case Load(n) => Load(n - i)
    case Store(data) => Store(data[i..])
  }

  /** Two pieces in a row do what one does; the whole is in bounds when the second piece is. */
  lemma PieceSplit(mode: Mode, mem: Memory, o: Placed, la: nat, op: Op, i: nat)
    requires o.upper < |mem| && o.lower <= la && 0 < i < op.Size()
    ensures var a := Piece(mode, mem, o, la, Head(op, i));
      var b := Piece(mode, a.0, o, la + i, Tail(op, i));
      var whole := Piece(mode, mem, o, la, op);
      && (whole.1.Fault? <==> b.1.Fault?)
      && (a.1.Fault? ==> b.1.Fault?)
      && (b.1.Fault? ==> b.0 == a.0)
      && (whole.1.Done? ==> a.1.Done? && whole == (b.0, Done(a.1.data + b.1.data)))
  {
    if o.InBounds(la, op.Size()) {
      match op
      case Load(n) =>
        LoadSplit(mode, o, mem, la, i, n);
      case Store(data) =>
        StoreSplit(mode, o, mem, la, data[..i], data[i..]);
        assert data[..i] + data[i..] == data;
        assert [] + [] == Piece(mode, mem, o, la, op).1.data;
    }
  }

  /** calc_bytes_before_pg_bndry. */
  function BytesBeforePage(la: nat, size: nat): (k: nat)
    ensures k <= size && (size > 0 ==> k > 0) && la % 4096 + k <= 4096
  {
    if 4096 - la % 4096 < size then 4096 - la % 4096 else size
  }

  /** The part of an access that lies in its first page. */
  function FirstPart(p: uint64, op: Op): Op {
    Head(op, BytesBeforePage(DecodePointer(p), op.Size()))
  }

  /** A whole access; when one that crosses a page faults in its second part, the first has
      been done. */
  function Access(mode: Mode, mem: Memory, p: uint64, op: Op): (r: (Memory, Outcome))
    requires Mapped(mem, p)
    ensures |r.0| == |mem|
  {
    var r := Chunk(mode, mem, p, op);
    if r.1.Fault? then (Chunk(mode, mem, p, FirstPart(p, op)).0, Fault) else r
  }

  lemma AccessIsPieces(mode: Mode, mem: Memory, p: uint64, op: Op)
    requires Mapped(mem, p)
    ensures !Admits(mem, p) ==> Access(mode, mem, p, op) == (mem, Fault)
    ensures Admits(mem, p) ==>
      var o, la := ObjectAt(mem, p), DecodePointer(p);
      && o.WellPlaced() && o.upper < |mem| && o.metaSize <= 16 && o.lower <= la && la != 0
      && var whole := Piece(mode, mem, o, la, op);
      Access(mode, mem, p, op) == if whole.1.Fault? then (Piece(mode, mem, o, la, FirstPart(p, op)).0, Fault) else whole
  {
    hide SlotStart, SlotEnd, MiddleAddress, MetadataAddress, MetadataSize, DecodeMetadata, Piece, FirstPart;
    if Admits(mem, p) {
      AdmittedIsPlaced(mem, p);
    }
  }

  /** A slot under observation: its size code, an address in it, and the tag of its object. */
  datatype Slot = Slot(base: nat, e: SizeCode, tag: nat) {
    predicate Mine(p: uint64) {
      EncodedSizeOf(p) == e && High(DecodePointer(p), e) == High(base, e)
    }

    /** Memory holds metadata that describe object o in this slot. */
    predicate Describes(mem: Memory, o: Object) {
      SlotEnd(base, e) < |mem| <= WORDS &&
      o.WellPlaced() && SlotStart(base, e) <= o.lower && o.upper <= SlotEnd(base, e) &&
      o.meta == MetadataAddress(base, e) && o.metaSize == MetadataSize(e) &&
      DecodedFrom(mem, base, e) == Decoded(tag, tag, o.lower, o.upper)
    }
  }

  /** Every pointer into the slot finds that object, and is let through exactly when it has the
      tag and points between the bounds. */
  lemma PointerFindsObject(mem: Memory, s: Slot, o: Object, p: uint64)
    requires s.Describes(mem, o) && s.Mine(p)
    ensures Mapped(mem, p) && ObjectAt(mem, p) == o
    ensures Admits(mem, p) <==>
      EncodedTag(p) == s.tag && o.lower <= DecodePointer(p) <= o.upper && DecodePointer(p) != 0
  {
    hide Low, Shr, Pow2, MetadataSize, MetadataOffset, DecodeMetadata;
    SlotGeometry(s.base, s.e);
    SlotGeometry(DecodePointer(p), s.e);
    assert SlotStart(DecodePointer(p), s.e) == SlotStart(s.base, s.e);
    assert MetadataBytes(mem, DecodePointer(p), s.e) == MetadataBytes(mem, s.base, s.e);
  }

  /** Metadata depend only on the bytes between the bounds. */
  lemma DescribesAgain(mem: Memory, mem': Memory, s: Slot, o: Object)
    requires s.Describes(mem, o) && |mem'| == |mem|
    requires forall x | o.meta <= x < o.meta + o.metaSize :: mem'[x] == mem[x]
    ensures s.Describes(mem', o)
  {
    hide Low, Shr, Pow2, DecodeMetadata, SlotStart, SlotEnd, MiddleAddress, MetadataAddress, MetadataSize;
    SlotGeometry(s.base, s.e);
    assert MetadataBytes(mem', s.base, s.e) == MetadataBytes(mem, s.base, s.e);
  }

  // ------------------------------------------------------------------------
  // Runs
  // ------------------------------------------------------------------------

  /** An access through an encoded pointer, or a store through a plain one. */
  datatype Event = Encoded(p: uint64, op: Op) | Plain(at: nat, data: seq<Byte>)

  predicate Possible(mem: Memory, ev: Event) {
    match ev
    case Encoded(p, _) => Mapped(mem, p)
    case Plain(at, data) => at + |data| <= |mem|
  }

  function Step(mode: Mode, mem: Memory, ev: Event): (r: (Memory, Outcome))
    requires Possible(mem, ev)
    ensures |r.0| == |mem|
  {
    match ev
    case Encoded(p, op) => Access(mode, mem, p, op)
    case Plain(at, data) => (Overwrite(mem, at, data), Done([]))
  }

  /** The event is not about the slot and touches none of the object's bytes: a plain store
      elsewhere, or an access to an object with other bounds. */
  predicate Elsewhere(mem: Memory, ev: Event, s: Slot, o: Object)
    requires Possible(mem, ev)
  {
    match ev
    case Encoded(p, _) => !s.Mine(p) &&
      (Admits(mem, p) ==> ObjectAt(mem, p).upper < o.lower || o.upper < ObjectAt(mem, p).lower)
    case Plain(at, data) => at + |data| <= o.lower || o.upper < at
  }

  /** Every event of the run is about the slot or happens elsewhere. */
  predicate Apart(mode: Mode, mem: Memory, evs: seq<Event>, s: Slot, o: Object)
    decreases |evs|
  {
    evs == [] ||
    (Possible(mem, evs[0]) && ((evs[0].Encoded? && s.Mine(evs[0].p)) || Elsewhere(mem, evs[0], s, o)) &&
     Apart(mode, Step(mode, mem, evs[0]).0, evs[1..], s, o))
  }

  predicate About(s: Slot, ev: Event) {
    ev.Encoded? && s.Mine(ev.p)
  }

  /** Memory after the run, and the outcomes of the accesses to the slot. */
  function Run(mode: Mode, mem: Memory, evs: seq<Event>, s: Slot, o: Object): (r: (Memory, seq<Outcome>))
    requires Apart(mode, mem, evs, s, o)
    ensures |r.0| == |mem|
    decreases |evs|
  {
    if evs == [] then (mem, [])
    else
      var (mem', out) := Step(mode, mem, evs[0]);
      var (last, outs) := Run(mode, mem', evs[1..], s, o);
      (last, if About(s, evs[0]) then [out] + outs else outs)
  }

  /** A piece of an access to flat memory v that begins at address lower: no metadata, no
      slot; with the wrong tag, or not within the memory, it faults. */
  function FlatChunk(v: seq<Byte>, lower: nat, tag: nat, p: uint64, op: Op): (r: (seq<Byte>, Outcome))
    ensures |r.0| == |v|
  {
    var la := DecodePointer(p);
    if EncodedTag(p) != tag || la == 0 || la < lower || la - lower + op.Size() > |v| then (v, Fault)
    else
      match op
      case Load(n) => (v, Done(v[la - lower..la - lower + n]))
      case Store(data) => (Overwrite(v, la - lower, data), Done([]))
  }

  function FlatAccess(v: seq<Byte>, lower: nat, tag: nat, p: uint64, op: Op): (r: (seq<Byte>, Outcome))
    ensures |r.0| == |v|
  {
    var r := FlatChunk(v, lower, tag, p, op);
    if r.1.Fault? then (FlatChunk(v, lower, tag, p, FirstPart(p, op)).0, Fault) else r
  }

  function FlatRun(v: seq<Byte>, lower: nat, evs: seq<Event>, s: Slot): (r: (seq<Byte>, seq<Outcome>))
    ensures |r.0| == |v|
    decreases |evs|
  {
    if evs == [] then (v, [])
    else if !About(s, evs[0]) then FlatRun(v, lower, evs[1..], s)
    else
      var (v', out) := FlatAccess(v, lower, s.tag, evs[0].p, evs[0].op);
      var (last, outs) := FlatRun(v', lower, evs[1..], s);
      (last, [out] + outs)
  }

  /** A piece of an access to the slot is that piece on flat memory, and keeps the metadata. */
  lemma ChunkIsFlat(mode: Mode, mem: Memory, s: Slot, o: Object, p: uint64, op: Op)
    requires s.Describes(mem, o) && s.Mine(p) && o.WellPlaced() && o.upper < |mem|
    ensures Mapped(mem, p)
    ensures var (mem', out) := Chunk(mode, mem, p, op);
      && s.Describes(mem', o)
      && (View(mode, o, mem'), out) == FlatChunk(View(mode, o, mem), o.lower, s.tag, p, op)
  {
    hide Low, Admits, Mapped, ObjectAt, View, Slot.Describes, Chunk, FlatChunk;
    PointerFindsObject(mem, s, o, p);
    if EncodedTag(p) != s.tag || DecodePointer(p) == 0 || !o.InBounds(DecodePointer(p), op.Size()) {
      RefusedChunk(mode, mem, s, o, p, op);
    } else if op.Load? {
      LoadChunk(mode, mem, s, o, p, op.n);
    } else {
      StoreChunk(mode, mem, s, o, p, op.data);
    }
  }

  lemma RefusedChunk(mode: Mode, mem: Memory, s: Slot, o: Object, p: uint64, op: Op)
    requires s.Describes(mem, o) && s.Mine(p) && o.WellPlaced() && o.upper < |mem|
    requires EncodedTag(p) != s.tag || DecodePointer(p) == 0 || !o.InBounds(DecodePointer(p), op.Size())
    ensures Mapped(mem, p) && Chunk(mode, mem, p, op) == (mem, Fault)
    ensures FlatChunk(View(mode, o, mem), o.lower, s.tag, p, op) == (View(mode, o, mem), Fault)
  {
    hide Low, Admits, Mapped, ObjectAt, LoadBytes, StoreBytes, Slot.Describes, Overwrite;
    PointerFindsObject(mem, s, o, p);
  }

  lemma LoadChunk(mode: Mode, mem: Memory, s: Slot, o: Object, p: uint64, n: nat)
    requires s.Describes(mem, o) && s.Mine(p) && o.WellPlaced() && o.upper < |mem|
    requires EncodedTag(p) == s.tag && DecodePointer(p) != 0 && o.InBounds(DecodePointer(p), n)
    ensures Mapped(mem, p)
    ensures Chunk(mode, mem, p, Load(n)) == (mem, Done(LoadBytes(mode, o, mem, DecodePointer(p), n)))
    ensures FlatChunk(View(mode, o, mem), o.lower, s.tag, p, Load(n)) ==
      (View(mode, o, mem), Done(LoadBytes(mode, o, mem, DecodePointer(p), n)))
  {
    hide Low, Admits, Mapped, ObjectAt, LoadBytes, StoreBytes, Slot.Describes, Overwrite, View;
    PointerFindsObject(mem, s, o, p);
    LoadIsFlat(mode, o, mem, DecodePointer(p), n);
  }

  lemma StoreChunk(mode: Mode, mem: Memory, s: Slot, o: Object, p: uint64, data: seq<Byte>)
    requires s.Describes(mem, o) && s.Mine(p) && o.WellPlaced() && o.upper < |mem|
    requires EncodedTag(p) == s.tag && DecodePointer(p) != 0 && o.InBounds(DecodePointer(p), |data|)
    ensures Mapped(mem, p)
    ensures var mem' := StoreBytes(mode, o, mem, DecodePointer(p), data);
      && Chunk(mode, mem, p, Store(data)) == (mem', Done([]))
      && FlatChunk(View(mode, o, mem), o.lower, s.tag, p, Store(data)) == (View(mode, o, mem'), Done([]))
      && s.Describes(mem', o)
  {
    hide Low, Admits, Mapped, ObjectAt, LoadBytes, StoreBytes, Slot.Describes, Overwrite, View;
    PointerFindsObject(mem, s, o, p);
    StoreIsFlat(mode, o, mem, DecodePointer(p), data);
    StoreKeepsObject(mode, mem, s, o, DecodePointer(p), data);
  }

  lemma AccessIsFlat(mode: Mode, mem: Memory, s: Slot, o: Object, p: uint64, op: Op)
    requires s.Describes(mem, o) && s.Mine(p) && o.WellPlaced() && o.upper < |mem|
    ensures Mapped(mem, p)
    ensures var (mem', out) := Access(mode, mem, p, op);
      && s.Describes(mem', o)
      && (View(mode, o, mem'), out) == FlatAccess(View(mode, o, mem), o.lower, s.tag, p, op)
  {
    hide Slot.Describes, Slot.Mine, Mapped, Chunk, FlatChunk, FirstPart, View;
    ChunkIsFlat(mode, mem, s, o, p, op);
    ChunkIsFlat(mode, mem, s, o, p, FirstPart(p, op));
  }

  lemma StoreKeepsObject(mode: Mode, mem: Memory, s: Slot, o: Placed, la: nat, data: seq<Byte>)
    requires s.Describes(mem, o) && o.InBounds(la, |data|) && o.upper < |mem|
    ensures s.Describes(StoreBytes(mode, o, mem, la, data), o)
  {
    hide Low, Slot.Describes, StoreBytes;
    forall x | o.meta <= x < o.meta + o.metaSize
      ensures StoreBytes(mode, o, mem, la, data)[x] == mem[x]
    {
      StoreKeepsOthers(mode, o, mem, la, data, x);
    }
    DescribesAgain(mem, StoreBytes(mode, o, mem, la, data), s, o);
  }

  /** An event elsewhere changes neither the object nor its metadata. */
  lemma ElsewhereKeepsObject(mode: Mode, mem: Memory, s: Slot, o: Object, ev: Event)
    requires s.Describes(mem, o) && o.WellPlaced() && o.upper < |mem|
    requires Possible(mem, ev) && Elsewhere(mem, ev, s, o)
    ensures var mem' := Step(mode, mem, ev).0;
      s.Describes(mem', o) && View(mode, o, mem') == View(mode, o, mem)
  {
    hide Low, Admits, Mapped, ObjectAt, View, Chunk, Slot.Describes, FirstPart, Slot.Mine;
    var mem' := Step(mode, mem, ev).0;
    if ev.Encoded? {
      ChunkElsewhere(mode, mem, ev.p, ev.op, o);
      ChunkElsewhere(mode, mem, ev.p, FirstPart(ev.p, ev.op), o);
    }
    SameObject(mode, mem, mem', s, o);
  }

  lemma ChunkElsewhere(mode: Mode, mem: Memory, p: uint64, op: Op, o: Object)
    requires Mapped(mem, p) && o.upper < |mem|
    requires Admits(mem, p) ==> ObjectAt(mem, p).upper < o.lower || o.upper < ObjectAt(mem, p).lower
    ensures forall x: nat | o.lower <= x <= o.upper :: Chunk(mode, mem, p, op).0[x] == mem[x]
  {
    hide Low, Admits, Mapped, ObjectAt, LoadBytes, StoreBytes;
    if Admits(mem, p) && op.Store? && ObjectAt(mem, p).InBounds(DecodePointer(p), op.Size()) {
      AdmittedIsPlaced(mem, p);
      forall x: nat | o.lower <= x <= o.upper
        ensures Chunk(mode, mem, p, op).0[x] == mem[x]
      {
        StoreKeepsOthers(mode, ObjectAt(mem, p), mem, DecodePointer(p), op.data, x);
      }
    }
  }

  lemma SameObject(mode: Mode, mem: Memory, mem': Memory, s: Slot, o: Object)
    requires s.Describes(mem, o) && o.WellPlaced() && o.upper < |mem| == |mem'|
    requires forall x: nat | o.lower <= x <= o.upper :: mem'[x] == mem[x]
    ensures s.Describes(mem', o) && View(mode, o, mem') == View(mode, o, mem)
  {
    hide Slot.Describes, Place;
    DescribesAgain(mem, mem', s, o);
    var v, v' := View(mode, o, mem), View(mode, o, mem');
    forall k | 0 <= k < |v|
      ensures v'[k] == v[k]
    {
      PlaceOwned(mode, o, o.lower + k);
    }
  }

  /** In either mode, over every run of accesses in and out of bounds, with right and wrong
      tags, mixed with anything that happens elsewhere: every access to the slot returns or
      faults as flat memory does, the object ends as flat memory ends, and the metadata still
      describe it. */
  lemma {:induction false} RunIsFlat(mode: Mode, mem: Memory, evs: seq<Event>, s: Slot, o: Object)
    requires s.Describes(mem, o) && o.WellPlaced() && o.upper < |mem|
    requires Apart(mode, mem, evs, s, o)
    ensures var (last, outs) := Run(mode, mem, evs, s, o);
      && (View(mode, o, last), outs) == FlatRun(View(mode, o, mem), o.lower, evs, s)
      && s.Describes(last, o)
    decreases |evs|
  {
    hide Low, Mapped, Access, View, Slot.Describes, FlatAccess, Slot.Mine;
    if evs != [] {
      if About(s, evs[0]) {
        AccessIsFlat(mode, mem, s, o, evs[0].p, evs[0].op);
      } else {
        ElsewhereKeepsObject(mode, mem, s, o, evs[0]);
      }
      RunIsFlat(mode, Step(mode, mem, evs[0]).0, evs[1..], s, o);
    }
  }

  /** A fresh allocation is such an object: its metadata give every byte that was asked for. */
  lemma AllocationIsDescribed(mem: Memory, ptr: uint64, dataSize: nat, metaSize: nat, tag: nat)
    requires Allocation(ptr, dataSize, metaSize) && tag < 16
    requires SlotEnd(ptr, CalculateEncodedSize(ptr, dataSize + metaSize).value) < |mem| <= WORDS
    ensures var e := CalculateEncodedSize(ptr, dataSize + metaSize).value;
      && SetMetadata(mem, ptr, dataSize, metaSize, tag).Some?
      && var mem' := SetMetadata(mem, ptr, dataSize, metaSize, tag).value;
      && var p := EncodePointer(ptr, e, tag);
      && Mapped(mem', p)
      && var o := ObjectAt(mem', p);
      && Slot(ptr, e, tag).Describes(mem', o)
      && o.lower == ptr && o.InBounds(ptr, dataSize) && o.upper < |mem'|
      && o.metaSize == metaSize && o.upper + 1 == BoundedEnd(MiddleAddress(ptr, e), ptr + dataSize + metaSize)
  {
    hide CalculateEncodedSize, SlotStart, SlotEnd, MiddleAddress, MetadataAddress, MetadataSize, MetadataBytes;
    hide Low, Shr, Pow2, SetMetadata, ComputeBounds, ChunkSize, DecodeMetadata, BoundedEnd, RoundUp8;
    hide EncodePointer, DecodePointer, EncodedTag, EncodedSizeOf;
    var e: nat := CalculateEncodedSize(ptr, dataSize + metaSize).value;
    MetadataRoundTrip(mem, ptr, dataSize, metaSize, tag);
    PointerFields(ptr, e, tag);
    SlotGeometry(ptr, e);
    ChunkStraddlesMiddle(ptr, dataSize + metaSize);
  }

  lemma DescribedObject(mem: Memory, s: Slot, o: Object)
    requires s.Describes(mem, o)
    ensures o.WellPlaced() && o.upper < |mem|
  {
  }

  /** An access is done if and only if it has the tag and all of it lies within the object. */
  lemma DoneExactly(mode: Mode, mem: Memory, s: Slot, o: Object, p: uint64, op: Op)
    requires s.Describes(mem, o) && s.Mine(p)
    ensures Mapped(mem, p)
    ensures Access(mode, mem, p, op).1.Done? <==>
      EncodedTag(p) == s.tag && DecodePointer(p) != 0 &&
      o.lower <= DecodePointer(p) && DecodePointer(p) + op.Size() <= o.upper + 1 - o.metaSize
  {
    hide Slot.Describes, Slot.Mine, Admits, Mapped, ObjectAt, LoadBytes, StoreBytes, Low, FirstPart;
    DescribedObject(mem, s, o);
    PointerFindsObject(mem, s, o, p);
    AccessIsPieces(mode, mem, p, op);
  }

  /** Whatever fields the metadata of the slot hold: an access is done if and only if both
      stored tags are the pointer's, the bounds keep to the two halves of the slot, and the
      access keeps between them. */
  lemma StoredFieldsDecide(mode: Mode, mem: Memory, p: uint64, op: Op, f: Fields)
    requires Mapped(mem, p)
    requires var la, e := DecodePointer(p), EncodedSizeOf(p);
      && f.lower < BoundLimit(MetadataSize(e)) && f.upper < BoundLimit(MetadataSize(e))
      && f.tagLeft < 16 && f.tagRight < 16 && (MetadataSize(e) == 1 ==> f.tagLeft == f.tagRight)
      && MetadataBytes(mem, la, e) == LittleEndian(PackFields(MetadataSize(e), f), MetadataSize(e))
    ensures var la, e := DecodePointer(p), EncodedSizeOf(p);
      var m, half := MiddleAddress(la, e), Pow2(e - 1);
      Access(mode, mem, p, op).1.Done? <==>
        && f.tagLeft == EncodedTag(p) && f.tagRight == EncodedTag(p)
        && 8 * (f.lower + 1) <= half && 8 * (f.upper + 1) <= half
        && la != 0 && m <= la + 8 * (f.lower + 1)
        && la + op.Size() + MetadataSize(e) <= m + 8 * (f.upper + 1)
  {
    hide SlotStart, SlotEnd, MiddleAddress, MetadataAddress, MetadataSize, MetadataBytes, Pow2, Low, Shr;
    hide PackFields, UnpackFields, LittleEndian, FromLittleEndian, DecodeMetadata, LoadBytes, StoreBytes, FirstPart;
    var la, e := DecodePointer(p), EncodedSizeOf(p);
    SlotGeometry(la, e);
    SlotBelow(la, e);
    StoredFields(MetadataSize(e), f, MiddleAddress(la, e));
    AccessIsPieces(mode, mem, p, op);
  }

  /** Packed fields decode to themselves, and a lower bound below 0 wraps far above the slot. */
  lemma StoredFields(metaSize: nat, f: Fields, m: nat)
    requires metaSize == 1 || metaSize == 2 || metaSize == 16
    requires f.lower < BoundLimit(metaSize) && f.upper < BoundLimit(metaSize)
    requires f.tagLeft < 16 && f.tagRight < 16 && (metaSize == 1 ==> f.tagLeft == f.tagRight)
    requires m < 0x100_0000_0000_0000
    ensures var d := DecodeMetadata(LittleEndian(PackFields(metaSize, f), metaSize), m);
      && d.tagLeft == f.tagLeft && d.tagRight == f.tagRight
      && (8 * (f.lower + 1) <= m ==> d.lowerLa == m - 8 * (f.lower + 1))
      && (8 * (f.lower + 1) > m ==> d.lowerLa >= 0x8000_0000_0000_0000)
      && d.upperLa == m + 8 * (f.upper + 1) - 1
  {
    hide PackFields, UnpackFields, LittleEndian, FromLittleEndian;
    UnpackInverse(metaSize, f);
    MetadataWidths();
    LittleEndianInverse(PackFields(metaSize, f), metaSize);
    WrapCases(m, DecodeBound(f.lower), DecodeBound(f.upper));
  }

  /** What LIM is for: after an allocation, an access through any pointer into the slot with the
      allocation's tag faults unless it keeps between the pointer that was returned and the
      bounded end, which for an allocation that reaches the middle of its slot is less than 8
      bytes past the data. */
  lemma AllocationIsGuarded(mode: Mode, mem: Memory, ptr: uint64, dataSize: nat, metaSize: nat, tag: nat,
                            p: uint64, op: Op)
    requires Allocation(ptr, dataSize, metaSize) && tag < 16
    requires SlotEnd(ptr, CalculateEncodedSize(ptr, dataSize + metaSize).value) < |mem| <= WORDS
    requires Slot(ptr, CalculateEncodedSize(ptr, dataSize + metaSize).value, tag).Mine(p)
    ensures var m := MiddleAddress(ptr, CalculateEncodedSize(ptr, dataSize + metaSize).value);
      var end := BoundedEnd(m, ptr + dataSize + metaSize) - metaSize;
      && SetMetadata(mem, ptr, dataSize, metaSize, tag).Some?
      && var mem' := SetMetadata(mem, ptr, dataSize, metaSize, tag).value;
      && Mapped(mem', p)
      && (Access(mode, mem', p, op).1.Done? <==>
            EncodedTag(p) == tag && DecodePointer(p) != 0 &&
            ptr <= DecodePointer(p) && DecodePointer(p) + op.Size() <= end)
      && ptr + dataSize <= end
      && (m < ptr + dataSize + metaSize ==> end < ptr + dataSize + 8)
  {
    hide CalculateEncodedSize, MiddleAddress, SlotEnd, SetMetadata, Mapped, Access, Slot.Describes, Slot.Mine;
    hide ObjectAt, EncodePointer, RoundUp8;
    AllocationIsDescribed(mem, ptr, dataSize, metaSize, tag);
    var e := CalculateEncodedSize(ptr, dataSize + metaSize).value;
    var mem' := SetMetadata(mem, ptr, dataSize, metaSize, tag).value;
    DoneExactly(mode, mem', Slot(ptr, e, tag), ObjectAt(mem', EncodePointer(ptr, e, tag)), p, op);
  }
}
