/** Memory seen through cryptographic addresses: loads and stores through the pointers into an
    object are loads and stores of flat plaintext memory
    (modules/common/ccsimics/c3_base_model.h, crypto/cc_encoding.h, malloc/try_box.h). */
module C3Memory {
  import opened Words
  import opened Buffers
  import opened Wrappers
  import opened BipBip
  import opened CryptoAddress
  import opened TryBox
  import opened Ascon
  import opened Keystream
  import opened C3Access

  // ------------------------------------------------------------------------
  // Objects
  // ------------------------------------------------------------------------

  /** The size bytes at linear address p, reached through the CA ca. */
  datatype Object = Object(ca: nat, p: nat, size: nat)

  /** Every byte of the object is reached by adding its offset to the CA. */
  ghost predicate Reached(c: Config, o: Object) {
    0 < o.p && o.ca + o.size < WORDS && o.p + o.size <= WORDS &&
    forall x: nat | o.ca <= x < o.ca + o.size ::
      IsEncodedCcPtr(x) && Linear(c, x) == o.p + (x - o.ca) && IsCanonical(o.p + (x - o.ca))
  }

  /** A region that try_box accepts is such an object: from allocation on, its pointer reaches
      all of it. */
  lemma RegionIsReached(c: Config, p: uint64, s: uint64, version: nat)
    requires c.ccEnabled && c.bc.Invertible() && 0 < p && IsCanonical(p) && version < 0x100
    requires p + RegionSize(s) <= WORDS && TryBox.TryBox(p, s).Some?
    ensures Reached(c, Object(EncodeRegion(c.bc, p, s, version), p, RegionSize(s)))
  {
    hide EncodeRegion, IsEncodedCcPtr, IsCanonical, DecodePointer;
    RegionPointer(c.bc, p, s, version);
    var e := EncodeRegion(c.bc, p, s, version);
    forall x: nat | e <= x < e + RegionSize(s)
      ensures x < WORDS && IsEncodedCcPtr(x) && Linear(c, x) == p + (x - e) && IsCanonical(p + (x - e))
    {
      assert ReachesByte(c.bc, e, p, x);
    }
  }

  // ------------------------------------------------------------------------
  // Loads and stores, as callbacks and processor do them
  // ------------------------------------------------------------------------

  datatype Op = Load(n: nat) | Store(data: seq<Byte>) {
    function Size(): nat {
      match this
      case Load(n) => n
      case Store(data) => |data|
    }
  }

  /** An access through a pointer, plain or encoded; cut is the length of its first chunk, 0
      when it lies within a page. */
  datatype Event = Event(la: uint64, op: Op, cut: nat)

  /** The pointer may be used, and memory holds the bytes it stands for. */
  predicate Possible(c: Config, size: nat, ev: Event) {
    Linear(c, ev.la) + ev.op.Size() <= size && Usable(c, ev.la, ev.op.Size()) &&
    (ev.cut > 0 ==> ev.cut < ev.op.Size() && Cuttable(c, ev.la, ev.cut))
  }

  /** The bytes on their way: those in memory for a load, the program's for a store. */
  function Moved(mem: seq<Byte>, a: nat, op: Op): (r: seq<Byte>)
    requires a + op.Size() <= |mem|
    ensures |r| == op.Size()
  {
    match op
    case Load(n) => mem[a..a + n]
    case Store(data) => data
  }

  /** The callbacks transform the bytes of one access; the processor then takes them, or
      stores them at the linear address. */
  function Step(c: Config, s: CallbackState, mem: seq<Byte>, ev: Event):
      (r: (CallbackState, seq<Byte>, seq<Byte>))
    requires FlagsClear(s) && Possible(c, |mem|, ev)
    ensures FlagsClear(r.0) && |r.1| == |mem|
  {
    var a := Linear(c, ev.la);
    var op := AccessOp(ev.la, Moved(mem, a, ev.op), ev.cut);
    PerformAlone(c, s, op);
    ExpectedLength(c, op.la, op.data);
    var (t, out) := Perform(c, s, op);
    if ev.op.Load? then (t, mem, out) else (t, Overwrite(mem, a, out), [])
  }

  lemma ExpectedLength(c: Config, la: uint64, data: seq<Byte>)
    ensures |Expected(c, la, data)| == |data|
  {
  }

  /** What a step amounts to, with no state: the keystream of the pointer's own address. */
  lemma StepAlone(c: Config, s: CallbackState, mem: seq<Byte>, ev: Event)
    requires FlagsClear(s) && Possible(c, |mem|, ev)
    ensures var a := Linear(c, ev.la);
      var out := Expected(c, ev.la, Moved(mem, a, ev.op));
      && |out| == ev.op.Size()
      && Step(c, s, mem, ev).1 == (if ev.op.Load? then mem else Overwrite(mem, a, out))
      && Step(c, s, mem, ev).2 == (if ev.op.Load? then out else [])
  {
    hide Perform, Expected, Overwrite, Usable, Cuttable, Linear;
    var a := Linear(c, ev.la);
    var op := AccessOp(ev.la, Moved(mem, a, ev.op), ev.cut);
    PerformAlone(c, s, op);
    ExpectedLength(c, op.la, op.data);
  }

  // ------------------------------------------------------------------------
  // Flat memory
  // ------------------------------------------------------------------------

  /** The plaintext that the object's CA shows. */
  function View(c: Config, o: Object, mem: seq<Byte>): (r: seq<Byte>)
    requires o.p + o.size <= |mem|
    ensures |r| == o.size
  {
    Transform(c.stream, o.ca, mem[o.p..o.p + o.size])
  }

  /** A store of transformed bytes is the store of the bytes themselves to the plaintext. */
  lemma StoreTransformed(stream: Stream, ca: nat, stored: seq<Byte>, off: nat, data: seq<Byte>)
    requires off + |data| <= |stored|
    ensures Transform(stream, ca, Overwrite(stored, off, Transform(stream, ca + off, data))) ==
      Overwrite(Transform(stream, ca, stored), off, data)
  {
    hide Transform;
    var enc := Transform(stream, ca + off, data);
    var head, tail := stored[..off], stored[off + |data|..];
    assert Overwrite(stored, off, enc) == head + (enc + tail);
    TransformSplit(stream, ca, head, enc + tail);
    TransformSplit(stream, ca + off, enc, tail);
    TransformTwice(stream, ca + off, data);
    TransformSlice(stream, ca, stored, 0, off);
    TransformSlice(stream, ca, stored, off + |data|, |stored|);
    assert stored[0..off] == head && stored[off + |data|..|stored|] == tail;
    var v := Transform(stream, ca, stored);
    assert v[0..off] == v[..off] && v[off + |data|..|stored|] == v[off + |data|..];
  }

  /** The access goes through the object's CA, moved by an offset within the object. */
  predicate Inside(o: Object, ev: Event) {
    o.ca <= ev.la < o.ca + o.size && ev.la + ev.op.Size() <= o.ca + o.size
  }

  /** The access touches no byte of the object. */
  predicate Outside(c: Config, o: Object, ev: Event) {
    Linear(c, ev.la) + ev.op.Size() <= o.p || o.p + o.size <= Linear(c, ev.la)
  }

  function FlatStep(v: seq<Byte>, off: nat, op: Op): (r: (seq<Byte>, seq<Byte>))
    requires off + op.Size() <= |v|
    ensures |r.0| == |v|
  {
    match op
    case Load(n) => (v, v[off..off + n])
    case Store(data) => (Overwrite(v, off, data), [])
  }

  /** A load or store through the object's pointer is that load or store of the plaintext. */
  lemma InsideIsFlat(c: Config, s: CallbackState, mem: seq<Byte>, o: Object, ev: Event)
    requires FlagsClear(s) && Possible(c, |mem|, ev)
    requires Reached(c, o) && o.p + o.size <= |mem| && Inside(o, ev)
    ensures var (t, mem', out) := Step(c, s, mem, ev);
      (View(c, o, mem'), out) == FlatStep(View(c, o, mem), ev.la - o.ca, ev.op)
  {
    hide Transform, Overwrite, Step, Usable, Cuttable, View, Expected, Reached, Linear;
    PointerInto(c, o, ev.la, Moved(mem, Linear(c, ev.la), ev.op));
    StepAlone(c, s, mem, ev);
    match ev.op
    case Load(n) =>
      LoadedPart(c, o, mem, ev.la - o.ca, n);
    case Store(data) =>
      StoredPart(c, o, mem, ev.la - o.ca, data);
  }

  lemma PointerInto(c: Config, o: Object, la: uint64, data: seq<Byte>)
    requires Reached(c, o) && o.ca <= la < o.ca + o.size
    ensures Linear(c, la) == o.p + (la - o.ca) && Expected(c, la, data) == Transform(c.stream, la, data)
  {
    hide Linear, IsCanonical;
    assert IsEncodedCcPtr(la);
  }

  lemma LoadedPart(c: Config, o: Object, mem: seq<Byte>, off: nat, n: nat)
    requires o.p + o.size <= |mem| && off + n <= o.size
    ensures Transform(c.stream, o.ca + off, mem[o.p + off..o.p + off + n]) == View(c, o, mem)[off..off + n]
  {
    hide Transform;
    var stored := mem[o.p..o.p + o.size];
    TransformSlice(c.stream, o.ca, stored, off, off + n);
    SliceOfSlice(mem, o.p, o.size, off, n);
  }

  lemma StoredPart(c: Config, o: Object, mem: seq<Byte>, off: nat, data: seq<Byte>)
    requires o.p + o.size <= |mem| && off + |data| <= o.size
    ensures View(c, o, Overwrite(mem, o.p + off, Transform(c.stream, o.ca + off, data))) ==
      Overwrite(View(c, o, mem), off, data)
  {
    hide Transform, Overwrite;
    OverwriteWithin(mem, o.p, o.size, off, Transform(c.stream, o.ca + off, data));
    StoreTransformed(c.stream, o.ca, mem[o.p..o.p + o.size], off, data);
  }

  lemma OverwriteWithin(mem: seq<Byte>, p: nat, n: nat, off: nat, d: seq<Byte>)
    requires p + n <= |mem| && off + |d| <= n
    ensures Overwrite(mem, p + off, d)[p..p + n] == Overwrite(mem[p..p + n], off, d)
  {
  }

  lemma OverwriteBeside(mem: seq<Byte>, p: nat, n: nat, at: nat, d: seq<Byte>)
    requires p + n <= |mem| && at + |d| <= |mem| && (at + |d| <= p || p + n <= at)
    ensures Overwrite(mem, at, d)[p..p + n] == mem[p..p + n]
  {
  }

  lemma OutsideKeepsObject(c: Config, s: CallbackState, mem: seq<Byte>, o: Object, ev: Event)
    requires FlagsClear(s) && Possible(c, |mem|, ev) && o.p + o.size <= |mem| && Outside(c, o, ev)
    ensures View(c, o, Step(c, s, mem, ev).1) == View(c, o, mem)
  {
    hide Transform, Overwrite, Step, Expected, Linear, Usable, Cuttable;
    StepAlone(c, s, mem, ev);
    if ev.op.Store? {
      ExpectedLength(c, ev.la, ev.op.data);
      OverwriteBeside(mem, o.p, o.size, Linear(c, ev.la), Expected(c, ev.la, ev.op.data));
    }
  }

  // ------------------------------------------------------------------------
  // Runs
  // ------------------------------------------------------------------------

  predicate RunOk(c: Config, size: nat, o: Object, evs: seq<Event>) {
    forall i | 0 <= i < |evs| :: Possible(c, size, evs[i]) && (Inside(o, evs[i]) || Outside(c, o, evs[i]))
  }

  /** Memory after the run, and what the loads through the object's pointers returned. */
  function Run(c: Config, s: CallbackState, mem: seq<Byte>, o: Object, evs: seq<Event>):
      (r: (seq<Byte>, seq<seq<Byte>>))
    requires FlagsClear(s) && RunOk(c, |mem|, o, evs)
    ensures |r.0| == |mem|
    decreases |evs|
  {
    hide Inside, Outside, Possible, Step;
    if evs == [] then (mem, [])
    else
      var (t, mem', out) := Step(c, s, mem, evs[0]);
      var (last, outs) := Run(c, t, mem', o, evs[1..]);
      (last, if Inside(o, evs[0]) then [out] + outs else outs)
  }

  function FlatRun(v: seq<Byte>, o: Object, evs: seq<Event>): (r: (seq<Byte>, seq<seq<Byte>>))
    requires |v| == o.size
    ensures |r.0| == |v|
    decreases |evs|
  {
    if evs == [] then (v, [])
    else if !Inside(o, evs[0]) then FlatRun(v, o, evs[1..])
    else
      var (v', out) := FlatStep(v, evs[0].la - o.ca, evs[0].op);
      var (last, outs) := FlatRun(v', o, evs[1..]);
      (last, [out] + outs)
  }

  /** Every run of loads and stores through the object's pointers, cut at pages or whole, mixed
      with plain and encoded accesses that touch none of its bytes, is a run of flat plaintext
      memory. */
  lemma {:induction false} RunIsFlat(c: Config, s: CallbackState, mem: seq<Byte>, o: Object, evs: seq<Event>)
    requires FlagsClear(s) && Reached(c, o) && o.p + o.size <= |mem| && RunOk(c, |mem|, o, evs)
    ensures var (last, outs) := Run(c, s, mem, o, evs);
      (View(c, o, last), outs) == FlatRun(View(c, o, mem), o, evs)
    decreases |evs|
  {
    hide Inside, Outside, Possible, Step, FlatStep, View, Reached, FlagsClear;
    if evs != [] {
      if Inside(o, evs[0]) {
        InsideIsFlat(c, s, mem, o, evs[0]);
      } else {
        OutsideKeepsObject(c, s, mem, o, evs[0]);
      }
      var (t, mem', _) := Step(c, s, mem, evs[0]);
      RunIsFlat(c, t, mem', o, evs[1..]);
    }
  }

  /** The configuration of the simulator: BipBip under a pointer key, the Ascon keystream under
      a data key. */
  function Keyed(ks: KeySchedule, k0: Word, k1: Word): Config {
    Config(BipBipCipher(ks), AsconStream(k0, k1), true)
  }

  /** From allocation on, under any keys: the pointer to a boxed region gives its program flat
      memory. */
  lemma RegionIsFlat(ks: KeySchedule, k0: Word, k1: Word, s: CallbackState, mem: seq<Byte>,
                     p: uint64, n: uint64, version: nat, evs: seq<Event>)
    requires FlagsClear(s) && 0 < p && IsCanonical(p) && version < 0x100
    requires p + RegionSize(n) <= WORDS && TryBox.TryBox(p, n).Some? && p + RegionSize(n) <= |mem|
    requires var c := Keyed(ks, k0, k1);
      RunOk(c, |mem|, Object(EncodeRegion(c.bc, p, n, version), p, RegionSize(n)), evs)
    ensures var c := Keyed(ks, k0, k1);
      var o := Object(EncodeRegion(c.bc, p, n, version), p, RegionSize(n));
      var (last, outs) := Run(c, s, mem, o, evs);
      (View(c, o, last), outs) == FlatRun(View(c, o, mem), o, evs)
  {
    hide EncodeRegion, Run, FlatRun, RunOk, View, BipBipCipher;
    var c := Keyed(ks, k0, k1);
    RegionIsReached(c, p, n, version);
    RunIsFlat(c, s, mem, Object(EncodeRegion(c.bc, p, n, version), p, RegionSize(n)), evs);
  }

  // ------------------------------------------------------------------------
  // The machine
  // ------------------------------------------------------------------------

  function Head(op: Op, i: nat): Op
    requires i <= op.Size()
  {
    match op
    case Load(_) => Load(i)
    case Store(data) => Store(data[..i])
  }

  function Tail(op: Op, i: nat): Op
    requires i <= op.Size()
  {
    match op
    case Load(n) => Load(n - i)
    case Store(data) => Store(data[i..])
  }

  /** Memory and result once the processor has the bytes the callback returned. */
  function Finish(mem: seq<Byte>, a: nat, op: Op, bytes: seq<Byte>): (r: (seq<Byte>, seq<Byte>))
    requires a + |bytes| <= |mem|
  {
    if op.Load? then (mem, bytes) else (Overwrite(mem, a, bytes), [])
  }

  /** One chunk: the address callback, then the data callback between processor and memory. */
  method Chunk(m: C3BaseModel, mem: array<Byte>, la: uint64, info: PageCrossing, op: Op)
      returns (a: uint64, out: seq<Byte>)
    requires op.Size() <= 64
    requires var (s, o) := AddressBefore(m.config, m.State(), la, info);
      && o.Address? && o.la + op.Size() <= mem.Length
      && (s.isEncodedPointer ==> s.laEncoded + op.Size() < WORDS)
    modifies m, mem
    ensures var (s, o) := AddressBefore(m.config, old(m.State()), la, info);
      var r := ModifyData(m.config, s, o.la, Moved(old(mem[..]), o.la, op));
      && a == o.la && m.State() == r.0 && |r.1| == op.Size()
      && (mem[..], out) == Finish(old(mem[..]), a, op, r.1)
  {
    hide AddressBefore, ModifyData, Overwrite;
    ghost var before := mem[..];
    var o := m.AddressBeforeCb(la, info);
    a := o.la;
    ghost var s := m.State();
    var bytes := Gather(mem, a, op);
    var buffer := m.ModifyDataCb(a, bytes);
    ghost var r := ModifyData(m.config, s, a, Moved(before, a, op));
    assert (m.State(), buffer[..]) == r;
    ModifiedLength(m.config, s, a, Moved(before, a, op));
    if op.Load? {
      out := buffer[..];
    } else {
      CopyBytes(buffer, 0, mem, a, buffer.Length);
      assert buffer[0..buffer.Length] == r.1;
      assert mem[..] == Overwrite(before, a, r.1);
      out := [];
    }
  }

  /** The processor's buffer: what it found in memory, or is about to store. */
  method Gather(mem: array<Byte>, a: nat, op: Op) returns (bytes: array<Byte>)
    requires a + op.Size() <= mem.Length
    ensures fresh(bytes) && bytes[..] == Moved(mem[..], a, op)
  {
    hide Overwrite;
    match op {
      case Load(n) =>
        bytes := new Byte[n](i => 0);
        OverwriteAll(bytes[..], mem[a..a + n]);
        CopyBytes(mem, a, bytes, 0, n);
      case Store(data) =>
        bytes := new Byte[|data|](i requires 0 <= i < |data| => data[i]);
    }
  }

  lemma OverwriteAll(b: seq<Byte>, d: seq<Byte>)
    requires |d| == |b|
    ensures Overwrite(b, 0, d) == d
  {
  }

  lemma ModifiedLength(c: Config, s: CallbackState, la: uint64, data: seq<Byte>)
    ensures |ModifyData(c, s, la, data).1| == |data|
  {
  }

  /** The address callback on a usable pointer: the linear address, and room for the data. */
  lemma AddressOf(c: Config, s: CallbackState, la: uint64, n: nat, info: PageCrossing)
    requires FlagsClear(s) && Usable(c, la, n)
    ensures var (t, o) := AddressBefore(c, s, la, info);
      o == Address(Linear(c, la)) && (t.isEncodedPointer ==> t.laEncoded + n < WORDS)
  {
    hide Decode, IsCanonical;
  }

  lemma StepUnsplit(c: Config, s: CallbackState, mem: seq<Byte>, ev: Event)
    requires FlagsClear(s) && Possible(c, |mem|, ev) && ev.cut == 0
    ensures var a := Linear(c, ev.la);
      var (t, o) := AddressBefore(c, s, ev.la, NoCrossing);
      var r := ModifyData(c, t, a, Moved(mem, a, ev.op));
      && o == Address(a) && |r.1| == ev.op.Size()
      && var f := Finish(mem, a, ev.op, r.1);
      Step(c, s, mem, ev) == (r.0, f.0, f.1)
  {
    hide Linear, Usable, Cuttable, AddressBefore, ModifyData, FlagsClear, Expected, Overwrite;
    var a := Linear(c, ev.la);
    AddressOf(c, s, ev.la, ev.op.Size(), NoCrossing);
    ModifiedLength(c, AddressBefore(c, s, ev.la, NoCrossing).0, a, Moved(mem, a, ev.op));
  }

  /** The state between the chunks: the second address callback lets the rest through. */
  lemma BetweenChunks(c: Config, s: CallbackState, la: uint64, a: seq<Byte>, n: nat)
    requires FlagsClear(s) && Usable(c, la, |a| + n) && Cuttable(c, la, |a|) && a != []
    ensures var p := Linear(c, la);
      var (s1, _) := AddressBefore(c, s, la, FirstChunk);
      var (s2, _) := ModifyData(c, s1, p, a);
      var (s3, o) := AddressBefore(c, s2, p + |a|, SecondChunk);
      o == Address(p + |a|) && (s3.isEncodedPointer ==> s3.laEncoded + n < WORDS)
  {
    hide Decode, IsCanonical, Transform;
  }

  lemma StepSplit(c: Config, s: CallbackState, mem: seq<Byte>, ev: Event)
    requires FlagsClear(s) && Possible(c, |mem|, ev) && ev.cut > 0
    ensures var a, k := Linear(c, ev.la), ev.cut;
      var (s1, o1) := AddressBefore(c, s, ev.la, FirstChunk);
      var r1 := ModifyData(c, s1, a, Moved(mem, a, Head(ev.op, k)));
      && o1 == Address(a) && |r1.1| == k && a + k < WORDS
      && var f1 := Finish(mem, a, Head(ev.op, k), r1.1);
      var (s3, o2) := AddressBefore(c, r1.0, a + k, SecondChunk);
      var r2 := ModifyData(c, s3, a + k, Moved(f1.0, a + k, Tail(ev.op, k)));
      && o2 == Address(a + k) && |r2.1| == ev.op.Size() - k
      && var f2 := Finish(f1.0, a + k, Tail(ev.op, k), r2.1);
      Step(c, s, mem, ev) == (r2.0, f2.0, f1.1 + f2.1)
  {
    hide Linear, Usable, Cuttable, AddressBefore, ModifyData, FlagsClear, Expected, Overwrite, Perform;
    var a, k := Linear(c, ev.la), ev.cut;
    var data := Moved(mem, a, ev.op);
    HeadAndTail(mem, a, ev.op, k);
    PerformSplit(c, s, ev.la, data, k);
    var r1 := ModifyData(c, AddressBefore(c, s, ev.la, FirstChunk).0, a, data[..k]);
    var r2 := ModifyData(c, AddressBefore(c, r1.0, a + k, SecondChunk).0, a + k, data[k..]);
    Extend(mem, a, r1.1, r2.1);
    assert Moved(Finish(mem, a, Head(ev.op, k), r1.1).0, a + k, Tail(ev.op, k)) == data[k..];
    assert ev.op.Store? ==> Step(c, s, mem, ev).2 == [] + [];
  }

  lemma PerformSplit(c: Config, s: CallbackState, la: uint64, data: seq<Byte>, k: nat)
    requires FlagsClear(s) && Usable(c, la, |data|) && 0 < k < |data| && Cuttable(c, la, k)
    ensures var a := Linear(c, la);
      var (s1, o1) := AddressBefore(c, s, la, FirstChunk);
      var r1 := ModifyData(c, s1, a, data[..k]);
      var (s3, o2) := AddressBefore(c, r1.0, a + k, SecondChunk);
      var r2 := ModifyData(c, s3, a + k, data[k..]);
      && o1 == Address(a) && |r1.1| == k && a + k < WORDS
      && o2 == Address(a + k) && |r2.1| == |data| - k
      && Perform(c, s, AccessOp(la, data, k)) == (r2.0, r1.1 + r2.1)
  {
    hide Linear, Usable, AddressBefore, ModifyData, FlagsClear;
    var a := Linear(c, la);
    AddressOf(c, s, la, |data|, FirstChunk);
    BetweenChunks(c, s, la, data[..k], |data| - k);
    var s1 := AddressBefore(c, s, la, FirstChunk).0;
    ModifiedLength(c, s1, a, data[..k]);
    var s3 := AddressBefore(c, ModifyData(c, s1, a, data[..k]).0, a + k, SecondChunk).0;
    ModifiedLength(c, s3, a + k, data[k..]);
    assert (a + k) % WORDS == a + k;
  }

  lemma HeadAndTail(mem: seq<Byte>, a: nat, op: Op, k: nat)
    requires a + op.Size() <= |mem| && k <= op.Size()
    ensures Moved(mem, a, Head(op, k)) == Moved(mem, a, op)[..k]
    ensures Moved(mem, a + k, Tail(op, k)) == Moved(mem, a, op)[k..]
    ensures op.Store? ==> forall mem': seq<Byte> | |mem'| == |mem| ::
      Moved(mem', a + k, Tail(op, k)) == Moved(mem, a, op)[k..]
  {
  }

  /** A load or store instruction on the callbacks and the bytes of memory. */
  method Execute(m: C3BaseModel, mem: array<Byte>, ev: Event) returns (out: seq<Byte>)
    requires FlagsClear(m.State()) && Possible(m.config, mem.Length, ev) && ev.op.Size() <= 64
    modifies m, mem
    ensures (m.State(), mem[..], out) == Step(m.config, old(m.State()), old(mem[..]), ev)
  {
    hide Linear, Usable, Cuttable, AddressBefore, ModifyData, Moved, Finish, FlagsClear, Step;
    var n, k := ev.op.Size(), ev.cut;
    var a;
    if k == 0 {
      StepUnsplit(m.config, m.State(), mem[..], ev);
      AddressOf(m.config, m.State(), ev.la, n, NoCrossing);
      a, out := Chunk(m, mem, ev.la, NoCrossing, ev.op);
    } else {
      StepSplit(m.config, m.State(), mem[..], ev);
      AddressOf(m.config, m.State(), ev.la, n, FirstChunk);
      BetweenChunks(m.config, m.State(), ev.la, Moved(mem[..], Linear(m.config, ev.la), Head(ev.op, k)), n - k);
      a, out := Chunk(m, mem, ev.la, FirstChunk, Head(ev.op, k));
      var rest;
      a, rest := Chunk(m, mem, a + k, SecondChunk, Tail(ev.op, k));
      out := out + rest;
    }
  }

  lemma RunStep(c: Config, s: CallbackState, mem: seq<Byte>, o: Object, evs: seq<Event>, i: nat)
    requires FlagsClear(s) && i < |evs| && RunOk(c, |mem|, o, evs[i..])
    ensures Possible(c, |mem|, evs[i])
    ensures var (t, mem', out) := Step(c, s, mem, evs[i]);
      && RunOk(c, |mem'|, o, evs[i + 1..])
      && var (last, outs) := Run(c, t, mem', o, evs[i + 1..]);
      Run(c, s, mem, o, evs[i..]) == (last, if Inside(o, evs[i]) then [out] + outs else outs)
  {
    hide Step, Possible, Inside, Outside, FlagsClear;
    assert evs[i..][0] == evs[i] && evs[i..][1..] == evs[i + 1..];
  }

  /** A run on the machine; about an object that its CA reaches, it is a run of flat plaintext
      memory. */
  method Session(m: C3BaseModel, mem: array<Byte>, evs: seq<Event>, o: Object) returns (outs: seq<seq<Byte>>)
    requires FlagsClear(m.State()) && RunOk(m.config, mem.Length, o, evs)
    requires forall i | 0 <= i < |evs| :: evs[i].op.Size() <= 64
    modifies m, mem
    ensures (mem[..], outs) == Run(m.config, old(m.State()), old(mem[..]), o, evs)
    ensures Reached(m.config, o) && o.p + o.size <= mem.Length ==>
      (View(m.config, o, mem[..]), outs) == FlatRun(View(m.config, o, old(mem[..])), o, evs)
  {
    hide Possible, Inside, Outside, Step, Run, FlatRun, View, Reached, RunOk, FlagsClear;
    outs := [];
    var i := 0;
    ghost var last := Run(m.config, m.State(), mem[..], o, evs);
    if Reached(m.config, o) && o.p + o.size <= mem.Length {
      RunIsFlat(m.config, m.State(), mem[..], o, evs);
    }
    assert evs[0..] == evs;
    while i < |evs|
      invariant i <= |evs| && FlagsClear(m.State()) && RunOk(m.config, mem.Length, o, evs[i..])
      invariant last.0 == Run(m.config, m.State(), mem[..], o, evs[i..]).0
      invariant last.1 == outs + Run(m.config, m.State(), mem[..], o, evs[i..]).1
    {
      RunStep(m.config, m.State(), mem[..], o, evs, i);
      var out := Execute(m, mem, evs[i]);
      if Inside(o, evs[i]) {
        outs := outs + [out];
      }
      i := i + 1;
    }
    RunEnd(m.config, m.State(), mem[..], o, evs);
    assert outs + [] == outs;
  }

  lemma RunEnd(c: Config, s: CallbackState, mem: seq<Byte>, o: Object, evs: seq<Event>)
    requires FlagsClear(s)
    ensures RunOk(c, |mem|, o, evs[|evs|..]) && Run(c, s, mem, o, evs[|evs|..]) == (mem, [])
  {
  }
}
