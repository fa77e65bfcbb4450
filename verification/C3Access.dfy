/** The address and data callbacks of the C3 model and their page-crossing state
    (modules/common/ccsimics/c3_base_model.h). */
module C3Access {
  import opened Words
  import opened CryptoAddress
  import opened Buffers
  import opened Keystream

  datatype PageCrossing = NoCrossing | FirstChunk | SecondChunk

  /** Everything the callbacks keep between calls. */
  datatype CallbackState = CallbackState(
    laEncoded: uint64, laDecoded: uint64, isEncodedPointer: bool,
    crossingFirst: bool, crossingSecond: bool, mismatchCount: nat)

  /** The configuration an access runs under: pointer cipher, data keystream, C3 enable bit. */
  datatype Config = Config(bc: BlockCipher, stream: Stream, ccEnabled: bool)

  datatype AddressOutcome = Address(la: uint64) | CrossPageFault

  function Decode(c: Config, la: uint64): uint64
    requires CaGetSize(la) != 0
  {
    if c.ccEnabled then DecodePointer(c.bc, la) else la
  }

  // ------------------------------------------------------------------------
  // The two callbacks as functions of the state
  // ------------------------------------------------------------------------

  function AddressBefore(c: Config, s: CallbackState, la: uint64, info: PageCrossing):
    (CallbackState, AddressOutcome)
  {
    if IsEncodedCcPtr(la) then
      var decoded := Decode(c, la);
      var kept := if IsCanonical(decoded) then s.(laDecoded := decoded, laEncoded := la) else s;
      (kept.(isEncodedPointer := true, crossingFirst := s.crossingFirst || info.FirstChunk?), Address(decoded))
    else if s.crossingSecond then
      if info.SecondChunk? then (s.(isEncodedPointer := true), Address(la)) else (s, CrossPageFault)
    else
      (s.(isEncodedPointer := false), Address(la))
  }

  /** An access to an address other than the decoded one: three times the state is
      cleared, after that the access is only ignored. */
  function Mismatch(s: CallbackState): CallbackState {
    if s.mismatchCount >= 3 then s
    else
      s.(mismatchCount := s.mismatchCount + 1, crossingFirst := false, crossingSecond := false,
         isEncodedPointer := false)
  }

  function ModifyData(c: Config, s: CallbackState, la: uint64, data: seq<Byte>): (CallbackState, seq<Byte>) {
    if !s.isEncodedPointer || la == 0 || data == [] then (s, data)
    else if la != s.laDecoded then (Mismatch(s), data)
    else
      var out := Transform(c.stream, s.laEncoded, data);
      if s.crossingFirst
      then (s.(laEncoded := (s.laEncoded + |data|) % WORDS, laDecoded := (s.laDecoded + |data|) % WORDS,
               crossingFirst := false, crossingSecond := true), out)
      else (s.(crossingSecond := false), out)
  }

  // ------------------------------------------------------------------------
  // Whole accesses
  // ------------------------------------------------------------------------

  predicate FlagsClear(s: CallbackState) {
    !s.crossingFirst && !s.crossingSecond
  }

  /** An access whose chunk lies in one page: one address callback, one data callback. */
  function Access(c: Config, s: CallbackState, la: uint64, data: seq<Byte>): (CallbackState, seq<Byte>) {
    var (s1, o) := AddressBefore(c, s, la, NoCrossing);
    match o
    case CrossPageFault => (s1, data)
    case Address(a) => ModifyData(c, s1, a, data)
  }

  /** An access cut at a page: the first chunk through the pointer of the program, the
      second at the plain address that follows. */
  function SplitAccess(c: Config, s: CallbackState, la: uint64, a: seq<Byte>, b: seq<Byte>):
    (CallbackState, seq<Byte>)
  {
    var (s1, o1) := AddressBefore(c, s, la, FirstChunk);
    match o1
    case CrossPageFault => (s1, a + b)
    case Address(p) =>
      var (s2, outA) := ModifyData(c, s1, p, a);
      var (s3, o2) := AddressBefore(c, s2, (p + |a|) % WORDS, SecondChunk);
      match o2
      case CrossPageFault => (s3, outA + b)
      case Address(q) =>
        var (s4, outB) := ModifyData(c, s3, q, b);
        (s4, outA + outB)
  }

  /** What an access does to its data, with no history: encrypted pointers give the
      keystream of their own address, plain pointers leave data alone. */
  function Expected(c: Config, la: uint64, data: seq<Byte>): seq<Byte> {
    if IsEncodedCcPtr(la) then Transform(c.stream, la, data) else data
  }

  /** The linear address a pointer stands for. */
  function Linear(c: Config, la: uint64): uint64 {
    if IsEncodedCcPtr(la) then Decode(c, la) else la
  }

  /** Any plain address, or a CA that decodes to a canonical address other than 0. */
  predicate Usable(c: Config, la: uint64, size: nat) {
    IsEncodedCcPtr(la) ==> la + size < WORDS && Linear(c, la) != 0 && IsCanonical(Linear(c, la))
  }

  /** The second chunk of an access starts at a plain address, as a linear address is, before
      the end of the address space. */
  predicate Cuttable(c: Config, la: uint64, cut: nat) {
    Linear(c, la) + cut < WORDS && !IsEncodedCcPtr(Linear(c, la) + cut)
  }

  lemma TransformNothing(stream: Stream, la: nat)
    ensures Transform(stream, la, []) == []
  {
  }

  /** A one-page access transforms exactly its own bytes and leaves no crossing flag. */
  lemma UnsplitAccess(c: Config, s: CallbackState, la: uint64, data: seq<Byte>)
    requires FlagsClear(s) && Usable(c, la, |data|)
    ensures Access(c, s, la, data).1 == Expected(c, la, data) && FlagsClear(Access(c, s, la, data).0)
  {
    hide Decode, Transform, IsCanonical;
    TransformNothing(c.stream, la);
  }

  /** After the first chunk the state stands at the byte after it, waiting for the second. */
  lemma FirstChunkEffect(c: Config, s: CallbackState, la: uint64, a: seq<Byte>)
    requires FlagsClear(s) && Usable(c, la, |a|) && IsEncodedCcPtr(la) && a != []
    requires Linear(c, la) + |a| < WORDS
    ensures var p := Linear(c, la);
      var (s1, o1) := AddressBefore(c, s, la, FirstChunk);
      o1 == Address(p) &&
      ModifyData(c, s1, p, a) ==
        (CallbackState(la + |a|, p + |a|, true, false, true, s.mismatchCount), Transform(c.stream, la, a))
  {
    hide Decode, Transform, IsCanonical;
  }

  lemma SecondChunkEffect(c: Config, s: CallbackState, b: seq<Byte>)
    requires s.crossingSecond && !s.crossingFirst && s.isEncodedPointer && b != []
    requires s.laDecoded != 0 && !IsEncodedCcPtr(s.laDecoded)
    ensures AddressBefore(c, s, s.laDecoded, SecondChunk) == (s, Address(s.laDecoded))
    ensures ModifyData(c, s, s.laDecoded, b) == (s.(crossingSecond := false), Transform(c.stream, s.laEncoded, b))
  {
    hide Transform, IsCanonical;
  }

  /** A CA access delivered as a first and a second chunk transforms the bytes of one
      unsplit access, and both crossing flags are clear afterwards. */
  lemma SplitEncodedIsWhole(c: Config, s: CallbackState, la: uint64, a: seq<Byte>, b: seq<Byte>)
    requires FlagsClear(s) && Usable(c, la, |a| + |b|) && Cuttable(c, la, |a|) && a != [] && b != []
    requires IsEncodedCcPtr(la)
    ensures SplitAccess(c, s, la, a, b).1 == Expected(c, la, a + b) && FlagsClear(SplitAccess(c, s, la, a, b).0)
  {
    hide Decode, Transform, IsCanonical, AddressBefore, ModifyData, IsEncodedCcPtr;
    var p := Linear(c, la);
    FirstChunkEffect(c, s, la, a);
    SecondChunkEffect(c, CallbackState(la + |a|, p + |a|, true, false, true, s.mismatchCount), b);
    TransformSplit(c.stream, la, a, b);
  }

  /** The same of every pointer: a plain access in two chunks leaves its data alone, and the
      flags clear. */
  lemma SplitAccessIsWhole(c: Config, s: CallbackState, la: uint64, a: seq<Byte>, b: seq<Byte>)
    requires FlagsClear(s) && Usable(c, la, |a| + |b|) && Cuttable(c, la, |a|) && a != [] && b != []
    ensures SplitAccess(c, s, la, a, b).1 == Expected(c, la, a + b) && FlagsClear(SplitAccess(c, s, la, a, b).0)
  {
    hide Decode, Transform, IsCanonical, IsEncodedCcPtr;
    if IsEncodedCcPtr(la) {
      SplitEncodedIsWhole(c, s, la, a, b);
    }
  }

  /** With C3 disabled no access changes its pointer or its data. */
  lemma DisabledIsTransparent(c: Config, s: CallbackState, la: uint64, data: seq<Byte>)
    requires !c.ccEnabled && FlagsClear(s) && IsCanonical(s.laDecoded)
    ensures AddressBefore(c, s, la, NoCrossing).1 == Address(la) && Access(c, s, la, data).1 == data
  {
    hide Transform, IsCanonical;
    if IsEncodedCcPtr(la) {
      CaIsNotCanonical(la);
    }
  }

  lemma CaIsNotCanonical(la: uint64)
    requires IsEncodedCcPtr(la)
    ensures !IsCanonical(la)
  {
    hide IsCanonical, GetCa;
    CanonicalFields(la);
  }

  /** While the second chunk of an access is due, any other plain access faults. */
  lemma LostSecondChunkFaults(c: Config, s: CallbackState, la: uint64, a: seq<Byte>, next: uint64, info: PageCrossing)
    requires FlagsClear(s) && Usable(c, la, |a|) && IsEncodedCcPtr(la) && a != [] && Linear(c, la) + |a| < WORDS
    requires !IsEncodedCcPtr(next) && !info.SecondChunk?
    ensures var s1 := AddressBefore(c, s, la, FirstChunk).0;
      var s2 := ModifyData(c, s1, Linear(c, la), a).0;
      AddressBefore(c, s2, next, info) == (s2, CrossPageFault)
  {
    hide Decode, Transform, IsCanonical;
    FirstChunkEffect(c, s, la, a);
  }

  /** Data at an address other than the one decoded are left alone, and the first three times
      the access under way is given up. */
  lemma StrayDataKept(c: Config, s: CallbackState, la: uint64, data: seq<Byte>)
    requires !s.isEncodedPointer || la != s.laDecoded
    ensures var r := ModifyData(c, s, la, data);
      && r.1 == data
      && (s.isEncodedPointer && la != 0 && data != [] && s.mismatchCount < 3 ==>
            FlagsClear(r.0) && !r.0.isEncodedPointer && r.0.mismatchCount == s.mismatchCount + 1)
  {
  }

  // ------------------------------------------------------------------------
  // Whole runs
  // ------------------------------------------------------------------------

  /** cut is the length of the first chunk; 0 for an access within a page. */
  datatype AccessOp = AccessOp(la: uint64, data: seq<Byte>, cut: nat)

  predicate OpOk(c: Config, op: AccessOp) {
    Usable(c, op.la, |op.data|) && (op.cut > 0 ==> op.cut < |op.data| && Cuttable(c, op.la, op.cut))
  }

  function Perform(c: Config, s: CallbackState, op: AccessOp): (r: (CallbackState, seq<Byte>))
  {
    if 0 < op.cut < |op.data|
    then SplitAccess(c, s, op.la, op.data[..op.cut], op.data[op.cut..])
    else Access(c, s, op.la, op.data)
  }

  function Run(c: Config, s: CallbackState, ops: seq<AccessOp>): seq<seq<Byte>>
    decreases |ops|
  {
    hide Perform;
    if ops == [] then []
    else
      var (t, out) := Perform(c, s, ops[0]);
      [out] + Run(c, t, ops[1..])
  }

  /** However accesses are cut and interleaved, each transforms its own bytes as if it
      were alone: no access sees the state an earlier one left. */
  lemma {:induction false} RunHasNoHistory(c: Config, s: CallbackState, ops: seq<AccessOp>, k: nat)
    requires FlagsClear(s) && (forall i | 0 <= i < |ops| :: OpOk(c, ops[i])) && k < |ops|
    ensures |Run(c, s, ops)| == |ops| && Run(c, s, ops)[k] == Expected(c, ops[k].la, ops[k].data)
    decreases ops
  {
    hide Expected, Access, SplitAccess, Usable, IsEncodedCcPtr;
    PerformAlone(c, s, ops[0]);
    var t := Perform(c, s, ops[0]).0;
    if |ops| > 1 {
      RunHasNoHistory(c, t, ops[1..], if k == 0 then 0 else k - 1);
    }
  }

  lemma PerformAlone(c: Config, s: CallbackState, op: AccessOp)
    requires FlagsClear(s) && OpOk(c, op)
    ensures Perform(c, s, op).1 == Expected(c, op.la, op.data) && FlagsClear(Perform(c, s, op).0)
  {
    hide Expected, Access, SplitAccess, Decode, IsEncodedCcPtr;
    if 0 < op.cut < |op.data| {
      var a, b := op.data[..op.cut], op.data[op.cut..];
      assert op.data == a + b;
      SplitAccessIsWhole(c, s, op.la, a, b);
    } else {
      UnsplitAccess(c, s, op.la, op.data);
    }
  }

  // ------------------------------------------------------------------------
  // The callback object
  // ------------------------------------------------------------------------

  class C3BaseModel {
    const config: Config
    var laEncoded: uint64
    var laDecoded: uint64
    var isEncodedPointer: bool
    var isCrossingPageFirst: bool
    var isCrossingPageSecond: bool
    var mismatchCount: nat

    ghost function State(): CallbackState
      reads this
    {
      CallbackState(laEncoded, laDecoded, isEncodedPointer, isCrossingPageFirst, isCrossingPageSecond, mismatchCount)
    }

    constructor (config: Config)
      ensures this.config == config && State() == CallbackState(0, 0, false, false, false, 0)
    {
      this.config := config;
      laEncoded, laDecoded, isEncodedPointer := 0, 0, false;
      isCrossingPageFirst, isCrossingPageSecond, mismatchCount := false, false, 0;
    }

    method AddressBeforeCb(la: uint64, info: PageCrossing) returns (o: AddressOutcome)
      modifies this
      ensures (State(), o) == AddressBefore(config, old(State()), la, info)
    {
      if IsEncodedCcPtr(la) {
        isEncodedPointer := true;
        var decoded := Decode(config, la);
        if IsCanonical(decoded) {
          laDecoded := decoded;
          laEncoded := la;
        }
        if info.FirstChunk? {
          isCrossingPageFirst := true;
        }
        return Address(decoded);
      }
      if isCrossingPageSecond {
        if !info.SecondChunk? {
          return CrossPageFault;
        }
        isEncodedPointer := true;
      } else {
        isEncodedPointer := false;
      }
      return Address(la);
    }

    /** Returns the buffer the access goes on with: the callback's own, or the given one. */
    method ModifyDataCb(la: uint64, bytes: array<Byte>) returns (out: array<Byte>)
      requires bytes.Length <= 64
      requires isEncodedPointer ==> laEncoded + bytes.Length < WORDS
      modifies this
      ensures (State(), out[..]) == ModifyData(config, old(State()), la, bytes[..])
      ensures out == bytes || fresh(out)
    {
      hide Transform;
      out := bytes;
      assert bytes.Length == 0 <==> bytes[..] == [];
      if !isEncodedPointer || la == 0 || bytes.Length == 0 {
        return;
      }
      if la != laDecoded {
        if mismatchCount < 3 {
          mismatchCount := mismatchCount + 1;
          isCrossingPageFirst := false;
          isCrossingPageSecond := false;
          isEncodedPointer := false;
        }
        return;
      }
      out := new Byte[bytes.Length];
      EncryptDecryptBytes(config.stream, laEncoded, bytes, 0, out, 0, bytes.Length);
      assert bytes[0..bytes.Length] == bytes[..];
      assert out[..] == Transform(config.stream, laEncoded, bytes[..]);
      if isCrossingPageSecond {
        isCrossingPageSecond := false;
      }
      if isCrossingPageFirst {
        laEncoded := (laEncoded + bytes.Length) % WORDS;
        laDecoded := (laDecoded + bytes.Length) % WORDS;
        isCrossingPageFirst := false;
        isCrossingPageSecond := true;
      }
    }
  }
}
