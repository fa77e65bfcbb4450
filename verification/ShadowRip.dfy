/** GSRIP, the shadow instruction pointer: how calls hide the caller's slot in the return
    address and returns recover it (modules/common/ccsimics/shadow_rip.h). */
module ShadowRip {
  import opened Words
  import opened CryptoAddress

  /** The simulated processor, the C3 context and the fix-up fields of the callbacks. */
  datatype Machine = Machine(
    gsrip: uint64, gsripEnabled: bool,
    rip: uint64, rsp: uint64, gpr: map<nat, uint64>, mem: map<nat, uint64>,
    needRaFixup: bool, oldGsrip: uint64, regFixup: int, regFixupVal: uint64)

  const REG_NOT_USED: int := -1

  function Load(m: map<nat, uint64>, k: nat): uint64 {
    if k in m then m[k] else 0
  }

  // ------------------------------------------------------------------------
  // Replacing and extracting the fixed bits
  // ------------------------------------------------------------------------

  /** The fixed bits of a CA: everything above its slot offset. */
  function NormalizeGsrip(ca: uint64): uint64
    requires CaGetSize(ca) != 0
  {
    High(ca, CaGetSize(ca) - 1)
  }

  /** la lies in the power slot that gsrip decodes to. */
  predicate InGsripSlot(bc: BlockCipher, la: uint64, gsrip: uint64)
    requires CaGetSize(gsrip) != 0
  {
    SameSlot(DecodePointer(bc, gsrip), la, CaGetSize(gsrip))
  }

  /** Low bits of one word under the high bits of another make a 64-bit word. */
  lemma MixedWordFits(la: uint64, g: uint64, k: nat)
    requires k <= 64
    ensures Shr(Low(la, k) + High(g, k), k) == Shr(g, k)
    ensures Low(la, k) + High(g, k) < 0x1_0000_0000_0000_0000
  {
    hide Low, Shr, Pow2;
    var n := Low(la, k) + High(g, k);
    ShrLow(g, k);
    ShrUnique(n, k, Shr(g, k), Low(la, k));
    ShrShr(n, k, 64 - k);
    ShrShr(g, k, 64 - k);
    Pow2Of64();
    ShrLow(n, 64);
    ShrUnique(g, 64, 0, g);
  }

  /** replace_shadow_rip for an address inside the slot; outside it the source faults. */
  function ReplaceShadowRip(la: uint64, gsrip: uint64): uint64
    requires CaGetSize(gsrip) != 0
  {
    MixedWordFits(la, gsrip, CaGetSize(gsrip) - 1);
    Low(la, CaGetSize(gsrip) - 1) + NormalizeGsrip(gsrip)
  }

  lemma LowBitsSurviveDecoding(bc: BlockCipher, g: uint64, k: nat)
    requires CaGetSize(g) != 0 && k <= 32
    ensures Low(DecodePointer(bc, g), k) == Low(g, k)
  {
    hide DecodePointer;
    SlotOfPlaintext(DecodePointer(bc, g), k);
    SlotOfPlaintext(g, k);
  }

  /** An address hidden behind GSRIP's fixed bits decodes to itself, and shows GSRIP's slot. */
  lemma ReplacedDecodes(bc: BlockCipher, la: uint64, g: uint64)
    requires 1 <= CaGetSize(g) <= 33 && InGsripSlot(bc, la, g)
    ensures var n := ReplaceShadowRip(la, g);
      && CaGetSize(n) == CaGetSize(g) && IsEncodedCcPtr(n)
      && DecodePointer(bc, n) == la
      && NormalizeGsrip(n) == NormalizeGsrip(g)
  {
    hide DecodePointer, Low, Shr, Pow2, CaGetSize;
    var k := CaGetSize(g) - 1;
    var n := ReplaceShadowRip(la, g);
    MixedWordFits(la, g, k);
    SameHigh(n, g, k);
    DecodeShift(bc, g, n);
    LowBitsSurviveDecoding(bc, g, k);
  }

  /** The slot is the right one: exactly the addresses that come back from being hidden. */
  lemma SlotExactly(bc: BlockCipher, la: uint64, g: uint64)
    requires 1 <= CaGetSize(g) <= 33
    ensures CaGetSize(ReplaceShadowRip(la, g)) == CaGetSize(g)
    ensures InGsripSlot(bc, la, g) <==> DecodePointer(bc, ReplaceShadowRip(la, g)) == la
  {
    hide DecodePointer, Low, Shr, Pow2, CaGetSize, ReplaceShadowRip;
    ReplacedStaysInSlot(bc, la, g);
    if InGsripSlot(bc, la, g) {
      ReplacedDecodes(bc, la, g);
    }
  }

  lemma ReplacedStaysInSlot(bc: BlockCipher, la: uint64, g: uint64)
    requires 1 <= CaGetSize(g) <= 33
    ensures CaGetSize(ReplaceShadowRip(la, g)) == CaGetSize(g)
    ensures InGsripSlot(bc, DecodePointer(bc, ReplaceShadowRip(la, g)), g)
  {
    hide DecodePointer, Low, Shr, Pow2, CaGetSize;
    var k := CaGetSize(g) - 1;
    var n := ReplaceShadowRip(la, g);
    MixedWordFits(la, g, k);
    SameHigh(n, g, k);
    DecodeShift(bc, g, n);
    LowBitsSurviveDecoding(bc, g, k);
    DecodedSlot(bc, n, g, k);
  }

  /** Two CAs of one slot decode into one slot. */
  lemma DecodedSlot(bc: BlockCipher, n: uint64, g: uint64, k: nat)
    requires CaGetSize(n) == CaGetSize(g) == k + 1 && k <= 32
    requires DecodePointer(bc, n) - n == DecodePointer(bc, g) - g && High(n, k) == High(g, k)
    ensures High(DecodePointer(bc, g), k) == High(DecodePointer(bc, n), k)
  {
    hide DecodePointer, Low, Shr, Pow2;
    LowBitsSurviveDecoding(bc, g, k);
    LowBitsSurviveDecoding(bc, n, k);
  }

  // ------------------------------------------------------------------------
  // The callbacks and the instructions around them
  // ------------------------------------------------------------------------

  datatype Outcome = Done(m: Machine) | GpFault(m: Machine)

  datatype Operand = Direct(target: uint64) | Register(r: nat)

  function Target(m: Machine, op: Operand): uint64 {
    match op
    case Direct(t) => t
    case Register(r) => Load(m.gpr, r)
  }

  /** instruction_before_cb: fix-ups never outlive their instruction. */
  function InstructionBefore(m: Machine): Machine {
    m.(needRaFixup := false, regFixup := REG_NOT_USED)
  }

  function DecodePtr(bc: BlockCipher, target: uint64): uint64 {
    if IsEncodedCcPtr(target) then DecodePointer(bc, target) else target
  }

  function GsripOf(target: uint64): uint64 {
    if IsEncodedCcPtr(target) then NormalizeGsrip(target) else 0
  }

  /** emul_call_or_jmp with a direct or a register operand. */
  function EmulCallOrJmp(bc: BlockCipher, m: Machine, op: Operand, isCall: bool): Machine {
    if !m.gsripEnabled then m
    else
      var saved := if isCall && m.gsrip != 0 then m.(oldGsrip := m.gsrip, needRaFixup := true) else m;
      match op
      case Direct(_) => saved
      case Register(r) =>
        var target := Load(m.gpr, r);
        var decoded := DecodePtr(bc, target);
        var updated := saved.(gsrip := GsripOf(target));
        if decoded != target
        then updated.(regFixup := r, regFixupVal := target, gpr := m.gpr[r := decoded])
        else updated
  }

  /** instruction_after_cb: give the pushed return address the caller's fixed bits and
      put back a register that held a CA. */
  function InstructionAfter(bc: BlockCipher, m: Machine): Outcome {
    var ra := Load(m.mem, m.rsp);
    if m.needRaFixup && !(CaGetSize(m.oldGsrip) != 0 && InGsripSlot(bc, ra, m.oldGsrip)) then
      GpFault(m.(gsripEnabled := false))
    else
      var fixed := if m.needRaFixup then m.(mem := m.mem[m.rsp := ReplaceShadowRip(ra, m.oldGsrip)]) else m;
      Done(if m.regFixup >= 0
           then fixed.(gpr := m.gpr[m.regFixup := m.regFixupVal], regFixup := REG_NOT_USED)
           else fixed)
  }

  function EmulRet(bc: BlockCipher, m: Machine): Machine {
    var ra := Load(m.mem, m.rsp);
    if !m.gsripEnabled then m
    else if IsEncodedCcPtr(ra) then m.(mem := m.mem[m.rsp := DecodePointer(bc, ra)], gsrip := NormalizeGsrip(ra))
    else m.(gsrip := 0)
  }

  /** Stack pointers are plain addresses, of either half, with a word above them. */
  predicate PlainStack(rsp: nat) {
    rsp + 8 < WORDS && !IsEncodedCcPtr(rsp)
  }

  /** The processor's own CALL: push the next address and go to the operand. */
  function CpuCall(m: Machine, op: Operand, next: uint64): Machine
    requires m.rsp >= 8
  {
    m.(rsp := m.rsp - 8, mem := m.mem[m.rsp - 8 := next], rip := Target(m, op))
  }

  function CpuJmp(m: Machine, op: Operand): Machine {
    m.(rip := Target(m, op))
  }

  function CpuRet(m: Machine): Machine
    requires PlainStack(m.rsp)
  {
    m.(rip := Load(m.mem, m.rsp), rsp := m.rsp + 8)
  }

  function ExecCall(bc: BlockCipher, m: Machine, op: Operand, next: uint64): Outcome
    requires m.rsp >= 8
  {
    InstructionAfter(bc, CpuCall(EmulCallOrJmp(bc, InstructionBefore(m), op, true), op, next))
  }

  function ExecJmp(bc: BlockCipher, m: Machine, op: Operand): Outcome {
    InstructionAfter(bc, CpuJmp(EmulCallOrJmp(bc, InstructionBefore(m), op, false), op))
  }

  function ExecRet(bc: BlockCipher, m: Machine): Outcome
    requires PlainStack(m.rsp)
  {
    InstructionAfter(bc, CpuRet(EmulRet(bc, InstructionBefore(m))))
  }

  // ------------------------------------------------------------------------
  // Well-nested runs
  // ------------------------------------------------------------------------

  /** A piece of a run: a call with everything up to its return, a jump, or an
      instruction that loads a register. */
  datatype Step = Call(op: Operand, next: uint64, body: seq<Step>) | Jump(op: Operand) | LoadReg(r: nat, v: uint64)

  /** GSRIP is clear or holds nothing but the fixed bits of a CA with a boxable slot. */
  predicate GsripOk(g: uint64) {
    g == 0 || (1 <= CaGetSize(g) <= 33 && NormalizeGsrip(g) == g)
  }

  predicate Running(m: Machine) {
    m.gsripEnabled && GsripOk(m.gsrip) && PlainStack(m.rsp)
  }

  /** A branch target is a plain address or a CA with a boxable slot. */
  predicate TargetOk(t: uint64) {
    !IsEncodedCcPtr(t) || CaGetSize(t) <= 33
  }

  /** The return address lies in the caller's slot; without GSRIP it is a plain address. */
  predicate ReturnAddressOk(bc: BlockCipher, g: uint64, next: uint64) {
    if CaGetSize(g) == 0 then g == 0 && !IsEncodedCcPtr(next) else InGsripSlot(bc, next, g)
  }

  predicate CallOk(bc: BlockCipher, m: Machine, op: Operand, next: uint64) {
    m.rsp >= 8 && PlainStack(m.rsp - 8) && TargetOk(Target(m, op)) && ReturnAddressOk(bc, m.gsrip, next)
  }

  function Exec(bc: BlockCipher, m: Machine, steps: seq<Step>): Outcome
    decreases steps, 1
  {
    if steps == [] then Done(m)
    else
      match ExecStep(bc, m, steps[0])
      case GpFault(f) => GpFault(f)
      case Done(n) => Exec(bc, n, steps[1..])
  }

  function ExecStep(bc: BlockCipher, m: Machine, step: Step): Outcome
    decreases step, 0
  {
    match step
    case Jump(op) => ExecJmp(bc, m, op)
    case LoadReg(r, v) => Done(InstructionBefore(m).(gpr := m.gpr[r := v]))
    case Call(op, next, body) =>
      if m.rsp < 8 then GpFault(m)
      else
        match ExecCall(bc, m, op, next)
        case GpFault(f) => GpFault(f)
        case Done(n) =>
          match Exec(bc, n, body)
          case GpFault(f) => GpFault(f)
          case Done(k) => if PlainStack(k.rsp) then ExecRet(bc, k) else GpFault(k)
  }

  /** Every call of the run has its return address in the slot that is current when it is made. */
  predicate Disciplined(bc: BlockCipher, m: Machine, steps: seq<Step>)
    decreases steps, 1
  {
    steps == [] ||
    (StepDisciplined(bc, m, steps[0]) &&
     (ExecStep(bc, m, steps[0]).Done? ==> Disciplined(bc, ExecStep(bc, m, steps[0]).m, steps[1..])))
  }

  predicate StepDisciplined(bc: BlockCipher, m: Machine, step: Step)
    decreases step, 0
  {
    match step
    case Jump(op) => TargetOk(Target(m, op))
    case LoadReg(_, _) => true
    case Call(op, next, body) =>
      CallOk(bc, m, op, next) &&
      (ExecCall(bc, m, op, next).Done? ==> Disciplined(bc, ExecCall(bc, m, op, next).m, body))
  }

  lemma NormalizedTarget(t: uint64)
    requires TargetOk(t)
    ensures GsripOk(GsripOf(t))
  {
    if IsEncodedCcPtr(t) {
      NormalizeKeepsSize(t);
    }
  }

  lemma NormalizeKeepsSize(t: uint64)
    requires 1 <= CaGetSize(t) <= 33
    ensures CaGetSize(NormalizeGsrip(t)) == CaGetSize(t)
    ensures NormalizeGsrip(NormalizeGsrip(t)) == NormalizeGsrip(t)
  {
    hide Low, Shr, Pow2, CaGetSize;
    var k := CaGetSize(t) - 1;
    var n := NormalizeGsrip(t);
    ShrLow(t, k);
    assert Pow2(k) > 0;
    ShrUnique(n, k, Shr(t, k), 0);
    SameSlotFields(t, n, k + 1);
    SizeOfFields(t, n);
  }

  lemma SizeOfFields(x: uint64, y: uint64)
    requires GetCa(y) == GetCa(x).(plaintext := y % 0x1_0000_0000)
    ensures CaGetSize(y) == CaGetSize(x)
  {
  }

  /** What one call leaves for its callee: the return address sits at the new stack top,
      hidden behind the caller's fixed bits when it had any, and no register has changed. */
  lemma CallEffect(bc: BlockCipher, m: Machine, op: Operand, next: uint64)
    requires Running(m) && CallOk(bc, m, op, next)
    ensures var o := ExecCall(bc, m, op, next);
      && o.Done? && Running(o.m) && o.m.rsp == m.rsp - 8 && o.m.gpr == m.gpr
      && o.m.mem == m.mem[m.rsp - 8 := if m.gsrip == 0 then next else ReplaceShadowRip(next, m.gsrip)]
      && (op.Register? ==> o.m.gsrip == GsripOf(Target(m, op)) && o.m.rip == DecodePtr(bc, Target(m, op)))
      && (op.Direct? ==> o.m.gsrip == m.gsrip && o.m.rip == op.target)
  {
    hide DecodePointer, NormalizeGsrip, ReplaceShadowRip, Low, CaGetSize;
    NormalizedTarget(Target(m, op));
    ZeroIsPlain();
    if m.gsrip != 0 {
      ReplacedDecodes(bc, next, m.gsrip);
    }
  }

  lemma ZeroIsPlain()
    ensures CaGetSize(0) == 0
  {
  }

  /** What the matching return does when the callee left the stack as it found it. */
  lemma ReturnEffect(bc: BlockCipher, m: Machine, k: Machine, next: uint64)
    requires Running(m) && m.rsp >= 8 && ReturnAddressOk(bc, m.gsrip, next)
    requires Running(k) && k.rsp == m.rsp - 8
    requires Load(k.mem, k.rsp) == if m.gsrip == 0 then next else ReplaceShadowRip(next, m.gsrip)
    ensures var o := ExecRet(bc, k);
      && o.Done? && Running(o.m) && o.m.gsrip == m.gsrip && o.m.rip == next && o.m.rsp == m.rsp
      && o.m.mem.Keys <= k.mem.Keys + {k.rsp} && o.m.gpr == k.gpr
      && forall a | a != k.rsp :: Load(o.m.mem, a) == Load(k.mem, a)
  {
    hide DecodePointer, NormalizeGsrip, ReplaceShadowRip, Low, CaGetSize;
    ZeroIsPlain();
    if m.gsrip != 0 {
      ReplacedDecodes(bc, next, m.gsrip);
    }
  }

  /** What a jump does: it goes to the target, decoded if it is a CA, and through a register it
      takes the target's fixed bits; a direct jump keeps GSRIP. Nothing else changes. */
  lemma JumpEffect(bc: BlockCipher, m: Machine, op: Operand)
    requires m.gsripEnabled
    ensures var o := ExecJmp(bc, m, op);
      && o.Done? && o.m.gsripEnabled && o.m.gpr == m.gpr && o.m.mem == m.mem && o.m.rsp == m.rsp
      && (op.Register? ==> o.m.gsrip == GsripOf(Target(m, op)) && o.m.rip == DecodePtr(bc, Target(m, op)))
      && (op.Direct? ==> o.m.gsrip == m.gsrip && o.m.rip == op.target)
  {
    hide DecodePointer, GsripOf, CaGetSize, Low;
    ZeroIsPlain();
  }

  /** A call from outside the caller's slot faults, and disables GSRIP. */
  lemma EscapeFaults(bc: BlockCipher, m: Machine, op: Operand, next: uint64)
    requires m.gsripEnabled && m.gsrip != 0 && m.rsp >= 8
    ensures var o := ExecCall(bc, m, op, next);
      o.GpFault? <==> !(CaGetSize(m.gsrip) != 0 && InGsripSlot(bc, next, m.gsrip))
    ensures var o := ExecCall(bc, m, op, next); o.GpFault? ==> !o.m.gsripEnabled
  {
    hide DecodePointer, GsripOf, CaGetSize, Low, InGsripSlot, ReplaceShadowRip;
  }

  /** With GSRIP disabled, calls, jumps and returns do what the processor does alone. */
  lemma DisabledIsTransparent(bc: BlockCipher, m: Machine, op: Operand, next: uint64)
    requires !m.gsripEnabled
    ensures m.rsp >= 8 ==> ExecCall(bc, m, op, next) == Done(CpuCall(InstructionBefore(m), op, next))
    ensures ExecJmp(bc, m, op) == Done(CpuJmp(InstructionBefore(m), op))
    ensures PlainStack(m.rsp) ==> ExecRet(bc, m) == Done(CpuRet(InstructionBefore(m)))
  {
    hide DecodePointer, CaGetSize, Low, ReplaceShadowRip;
  }

  /** The frame every piece of a run keeps: enabled, same stack pointer, nothing written
      at or above it. */
  ghost predicate Framed(m: Machine, n: Machine) {
    Running(n) && n.rsp == m.rsp && forall a: nat | a >= m.rsp :: Load(n.mem, a) == Load(m.mem, a)
  }

  /** Well-nested runs of any depth: no fault, and every call comes back to the pushed
      address with the caller's GSRIP. */
  lemma {:induction false} RunKeepsFrame(bc: BlockCipher, m: Machine, steps: seq<Step>)
    requires Running(m) && Disciplined(bc, m, steps)
    ensures Exec(bc, m, steps).Done? && Framed(m, Exec(bc, m, steps).m)
    decreases steps, 1
  {
    hide ExecStep, StepDisciplined, Running;
    if steps != [] {
      StepKeepsFrame(bc, m, steps[0]);
      RunKeepsFrame(bc, ExecStep(bc, m, steps[0]).m, steps[1..]);
    }
  }

  lemma {:induction false} StepKeepsFrame(bc: BlockCipher, m: Machine, step: Step)
    requires Running(m) && StepDisciplined(bc, m, step)
    ensures ExecStep(bc, m, step).Done? && Framed(m, ExecStep(bc, m, step).m)
    ensures step.Call? ==>
      var n := ExecStep(bc, m, step).m; n.gsrip == m.gsrip && n.rip == step.next
    decreases step, 0
  {
    hide CaGetSize, NormalizeGsrip, GsripOk, TargetOk;
    match step
    case Jump(op) => JumpKeepsFrame(bc, m, op);
    case LoadReg(_, _) =>
    case Call(op, next, body) =>
      hide ExecCall, ExecRet, ReturnAddressOk, ReplaceShadowRip;
      CallEffect(bc, m, op, next);
      var n := ExecCall(bc, m, op, next).m;
      RunKeepsFrame(bc, n, body);
      var k := Exec(bc, n, body).m;
      assert Load(k.mem, n.rsp) == Load(n.mem, n.rsp);
      ReturnEffect(bc, m, k, next);
  }

  lemma JumpKeepsFrame(bc: BlockCipher, m: Machine, op: Operand)
    requires Running(m) && TargetOk(Target(m, op))
    ensures ExecJmp(bc, m, op).Done? && Framed(m, ExecJmp(bc, m, op).m)
  {
    hide DecodePointer, GsripOf, CaGetSize, Low;
    NormalizedTarget(Target(m, op));
  }

  // ------------------------------------------------------------------------
  // System management mode
  // ------------------------------------------------------------------------

  function SmmEnter(bc: BlockCipher, m: Machine): Outcome {
    if !m.gsripEnabled || m.gsrip == 0 then Done(m.(gsrip := 0))
    else if CaGetSize(m.gsrip) != 0 && InGsripSlot(bc, m.rip, m.gsrip)
    then Done(m.(rip := ReplaceShadowRip(m.rip, m.gsrip), gsrip := 0))
    else GpFault(m.(gsripEnabled := false))
  }

  function SmmLeave(bc: BlockCipher, m: Machine): Machine {
    m.(rip := DecodePtr(bc, m.rip), gsrip := GsripOf(m.rip))
  }

  predicate SmmRestores(bc: BlockCipher, m: Machine) {
    var o := SmmEnter(bc, m);
    o.Done? && SmmLeave(bc, o.m).rip == m.rip && SmmLeave(bc, o.m).gsrip == m.gsrip
  }

  /** Entering and leaving SMM restores the instruction pointer and GSRIP exactly when there
      is no GSRIP to keep, or it is enabled and the instruction pointer lies in its slot. */
  lemma SmmRoundTrip(bc: BlockCipher, m: Machine)
    requires GsripOk(m.gsrip) && !IsEncodedCcPtr(m.rip)
    ensures SmmRestores(bc, m) <==>
      m.gsrip == 0 || (m.gsripEnabled && InGsripSlot(bc, m.rip, m.gsrip))
  {
    hide DecodePointer, NormalizeGsrip, ReplaceShadowRip, Low, CaGetSize, InGsripSlot;
    if m.gsrip != 0 && m.gsripEnabled && InGsripSlot(bc, m.rip, m.gsrip) {
      ReplacedDecodes(bc, m.rip, m.gsrip);
    }
  }

  /** In SMM there is no GSRIP: every entry that does not fault clears it, and an entry that
      does not fault leaves an instruction pointer that decodes to the old one. */
  lemma SmmEntered(bc: BlockCipher, m: Machine)
    requires GsripOk(m.gsrip) && !IsEncodedCcPtr(m.rip)
    ensures var o := SmmEnter(bc, m);
      && (o.Done? ==> o.m.gsrip == 0 && DecodePtr(bc, o.m.rip) == m.rip)
      && (o.GpFault? ==> !o.m.gsripEnabled && o.m.rip == m.rip)
      && (o.GpFault? <==> m.gsripEnabled && m.gsrip != 0 && !InGsripSlot(bc, m.rip, m.gsrip))
  {
    hide DecodePointer, NormalizeGsrip, ReplaceShadowRip, Low, CaGetSize, InGsripSlot;
    if m.gsrip != 0 && m.gsripEnabled && InGsripSlot(bc, m.rip, m.gsrip) {
      ReplacedDecodes(bc, m.rip, m.gsrip);
    }
  }

  /** A GSRIP that is set but disabled is lost: it is cleared on the way in and nothing brings
      it back. */
  lemma SmmLosesDisabledGsrip(bc: BlockCipher)
    ensures var m := Machine(0x200_0000_0000_0000, false, 0x1000, 0x2000, map[], map[], false, 0, REG_NOT_USED, 0);
      && GsripOk(m.gsrip) && !IsEncodedCcPtr(m.rip) && !SmmRestores(bc, m)
      && SmmEnter(bc, m).Done? && SmmLeave(bc, SmmEnter(bc, m).m).gsrip == 0
  {
    hide DecodePointer, ReplaceShadowRip, InGsripSlot;
    hide NormalizeGsrip;
    SomeSizes();
    hide CaGetSize;
    OneByteSlot(0x200_0000_0000_0000);
  }

  lemma SomeSizes()
    ensures CaGetSize(0x200_0000_0000_0000) == 1 && CaGetSize(0x1000) == 0
  {
  }

  /** A CA of a one-byte slot is all fixed bits. */
  lemma OneByteSlot(g: uint64)
    requires CaGetSize(g) == 1
    ensures NormalizeGsrip(g) == g
  {
    hide CaGetSize;
    assert Low(g, 0) == 0;
  }

  // ------------------------------------------------------------------------
  // The callback object
  // ------------------------------------------------------------------------

  class ShadowRip {
    const bc: BlockCipher
    var gsrip: uint64
    var gsripEnabled: bool
    var rip: uint64
    var rsp: uint64
    var gpr: map<nat, uint64>
    var mem: map<nat, uint64>
    var needRaFixup: bool
    var oldGsrip: uint64
    var regFixup: int
    var regFixupVal: uint64

    ghost function State(): Machine
      reads this
    {
      Machine(gsrip, gsripEnabled, rip, rsp, gpr, mem, needRaFixup, oldGsrip, regFixup, regFixupVal)
    }

    constructor (bc: BlockCipher, enabled: bool, rip: uint64, rsp: uint64)
      ensures this.bc == bc
      ensures State() == Machine(0, enabled, rip, rsp, map[], map[], false, 0, REG_NOT_USED, 0)
    {
      this.bc := bc;
      gsrip, gsripEnabled := 0, enabled;
      this.rip, this.rsp := rip, rsp;
      gpr, mem := map[], map[];
      needRaFixup, oldGsrip, regFixup, regFixupVal := false, 0, REG_NOT_USED, 0;
    }

    method InstructionBeforeCb()
      modifies this
      ensures State() == InstructionBefore(old(State()))
    {
      needRaFixup := false;
      regFixup := REG_NOT_USED;
    }

    method DecodePtrAndUpdateGsrip(target: uint64) returns (decoded: uint64)
      modifies this`gsrip
      ensures decoded == DecodePtr(bc, target) && gsrip == GsripOf(target)
    {
      var isCa := IsEncodedCcPtr(target);
      var newGsrip := if isCa then NormalizeGsrip(target) else 0;
      if newGsrip != gsrip {
        gsrip := newGsrip;
      }
      decoded := if isCa then DecodePointer(bc, target) else target;
    }

    method EmulCallOrJmpCb(op: Operand, isCall: bool)
      modifies this
      ensures State() == EmulCallOrJmp(bc, old(State()), op, isCall)
    {
      hide DecodePtr, GsripOf;
      if !gsripEnabled {
        return;
      }
      if isCall && gsrip != 0 {
        oldGsrip := gsrip;
        needRaFixup := true;
      }
      match op {
        case Direct(_) =>
        case Register(r) =>
          var callTarget := Load(gpr, r);
          var decoded := DecodePtrAndUpdateGsrip(callTarget);
          if decoded != callTarget {
            regFixup := r;
            regFixupVal := callTarget;
            gpr := gpr[r := decoded];
          }
      }
    }

    /** Returns true when the escape from the slot raised a fault. */
    method InstructionAfterCb() returns (fault: bool)
      modifies this
      ensures InstructionAfter(bc, old(State())) == if fault then GpFault(State()) else Done(State())
    {
      fault := false;
      if needRaFixup {
        var ra := Load(mem, rsp);
        if CaGetSize(oldGsrip) == 0 || !InGsripSlot(bc, ra, oldGsrip) {
          gsripEnabled := false;
          return true;
        }
        mem := mem[rsp := ReplaceShadowRip(ra, oldGsrip)];
      }
      if regFixup >= 0 {
        gpr := gpr[regFixup := regFixupVal];
        regFixup := REG_NOT_USED;
      }
    }

    method EmulRetCb()
      modifies this
      ensures State() == EmulRet(bc, old(State()))
    {
      if !gsripEnabled {
        return;
      }
      var ra := Load(mem, rsp);
      if IsEncodedCcPtr(ra) {
        mem := mem[rsp := DecodePointer(bc, ra)];
        var newGsrip := NormalizeGsrip(ra);
        if newGsrip != gsrip {
          gsrip := newGsrip;
        }
      } else {
        if gsrip != 0 {
          gsrip := 0;
        }
      }
    }

    method SmmEnterBeforeCb() returns (fault: bool)
      modifies this
      ensures SmmEnter(bc, old(State())) == if fault then GpFault(State()) else Done(State())
    {
      fault := false;
      if gsripEnabled && gsrip != 0 {
        if CaGetSize(gsrip) == 0 || !InGsripSlot(bc, rip, gsrip) {
          gsripEnabled := false;
          return true;
        }
        rip := ReplaceShadowRip(rip, gsrip);
      }
      gsrip := 0;
    }

    method SmmLeaveAfterCb()
      modifies this
      ensures State() == SmmLeave(bc, old(State()))
    {
      var newGsrip := GsripOf(rip);
      rip := DecodePtr(bc, rip);
      gsrip := newGsrip;
    }
  }
}
