/** M-profile exception entry and return, banked stack pointers and block transfers of the
    interpreter core (src/cpu.rs); ARMv7-M ARM (DDI 0403), sections B1.5.6 and B1.5.8.

    `Core` is the architectural state; `Enter`, `Leave`, `SetControl`, `WriteMsp`,
    `WritePsp` and the block transfers are its transitions, and class `Cpu` performs them
    in place.  The words the vector table holds are parameters, and stacks lie in RAM. */
module Exceptions {
  import opened Arithmetic
  import opened Memory

  const SP: nat := 13
  const LR: nat := 14

  datatype Flags = Flags(n: bool, z: bool, c: bool, v: bool, q: bool)

  datatype Core = Core(
    r: seq<u32>,
    pc: u32,
    flags: Flags,
    thread: bool,
    control: nat,
    ipsr: nat,
    msp: u32,
    psp: u32,
    spIsPsp: bool,
    itstate: nat,
    s: seq<u32>,
    fpscr: u32)
  {
    predicate WellFormed() {
      |r| == 16 && |s| == 32 && control < 8 && ipsr < 512 && itstate < 256
    }

    /** CONTROL.SPSEL and CONTROL.FPCA. */
    predicate Spsel() { control / 2 % 2 == 1 }
    predicate Fpca() { control / 4 % 2 == 1 }

    /** The active stack pointer is the process one exactly in Thread mode with SPSEL set. */
    predicate Banked() { spIsPsp <==> thread && Spsel() }
  }

  function Bit(b: bool, weight: nat): (r: nat) {
    if b then weight else 0
  }

  function EvenPc(v: u32): (r: u32) {
    v - v % 2
  }

  function ResetCore(): (r: Core) {
    Core(seq(16, i => 0), 0, Flags(false, false, false, false, false), true, 0, 0, 0, 0, false, 0,
         seq(32, i => 0), 0)
  }

  // ---- xPSR ------------------------------------------------------------------

  /** N, Z, C, V and Q as bits 31 to 27 of xPSR hold them. */
  function PackFlags(f: Flags): (k: nat)
    ensures k < 32
  {
    Bit(f.n, 16) + Bit(f.z, 8) + Bit(f.c, 4) + Bit(f.v, 2) + Bit(f.q, 1)
  }

  /** ITSTATE[7:2] goes to bits 15:10 and ITSTATE[1:0] to bits 26:25. */
  function BuildXpsr(f: Flags, itstate: nat, ipsr: nat): (r: u32)
    requires itstate < 256 && ipsr < 512
  {
    0x0800_0000 * PackFlags(f) + 0x0200_0000 * (itstate % 4) + 0x0100_0000 + 0x400 * (itstate / 4) + ipsr
  }

  predicate XpsrBit(x: u32, weight: nat)
    requires weight > 0
  {
    x / weight % 2 == 1
  }

  function XpsrFlags(x: u32): (r: Flags) {
    Flags(XpsrBit(x, 0x8000_0000), XpsrBit(x, 0x4000_0000), XpsrBit(x, 0x2000_0000),
          XpsrBit(x, 0x1000_0000), XpsrBit(x, 0x0800_0000))
  }

  function XpsrItstate(x: u32): (it: nat)
    ensures it < 256
  {
    x / 0x400 % 0x40 * 4 + x / 0x0200_0000 % 4
  }

  lemma TopBits(k: nat, mid: nat)
    requires k < 32 && mid < 0x0800_0000
    ensures var x := 0x0800_0000 * k + mid;
            && x / 0x0800_0000 == k && x / 0x1000_0000 == k / 2 && x / 0x2000_0000 == k / 4
            && x / 0x4000_0000 == k / 8 && x / 0x8000_0000 == k / 16
  {
    Quotient(k, 0x0800_0000, mid);
    Quotient(k / 2, 0x1000_0000, 0x0800_0000 * (k % 2) + mid);
    Quotient(k / 4, 0x2000_0000, 0x0800_0000 * (k % 4) + mid);
    Quotient(k / 8, 0x4000_0000, 0x0800_0000 * (k % 8) + mid);
    Quotient(k / 16, 0x8000_0000, 0x0800_0000 * (k % 16) + mid);
  }

  lemma LowFields(k: nat, itHi: nat, itLo: nat, ipsr: nat)
    requires k < 32 && itHi < 64 && itLo < 4 && ipsr < 512
    ensures var x := 0x0800_0000 * k + 0x0200_0000 * itLo + 0x0100_0000 + 0x400 * itHi + ipsr;
            x / 0x400 % 0x40 == itHi && x / 0x0200_0000 % 4 == itLo && x % 0x200 == ipsr
  {
    Quotient(4 * k + itLo, 0x0200_0000, 0x0100_0000 + 0x400 * itHi + ipsr);
    Quotient(0x2_0000 * k + 0x8000 * itLo + 0x4000 + itHi, 0x400, ipsr);
  }

  lemma PackedFlags(f: Flags)
    ensures var k := PackFlags(f);
            f == Flags(k / 16 % 2 == 1, k / 8 % 2 == 1, k / 4 % 2 == 1, k / 2 % 2 == 1, k % 2 == 1)
  {
  }

  /** Every field of a stacked xPSR comes back. */
  lemma XpsrRoundTrip(f: Flags, itstate: nat, ipsr: nat)
    requires itstate < 256 && ipsr < 512
    ensures var x := BuildXpsr(f, itstate, ipsr);
            XpsrFlags(x) == f && XpsrItstate(x) == itstate && x % 0x200 == ipsr
  {
    var k := PackFlags(f);
    var x := BuildXpsr(f, itstate, ipsr);
    LowFields(k, itstate / 4, itstate % 4, ipsr);
    TopBits(k, 0x0200_0000 * (itstate % 4) + 0x0100_0000 + 0x400 * (itstate / 4) + ipsr);
    PackedFlags(f);
  }

  // ---- exception entry and return ----------------------------------------------

  function FrameWords(c: Core): (r: nat) {
    if c.Fpca() then 26 else 8
  }

  function FrameBase(c: Core): (r: u32)
    requires c.WellFormed()
  {
    Add32(c.r[SP], -4 * FrameWords(c))
  }

  /** The basic frame, extended by S0-S15, FPSCR and a reserved word under FPCA. */
  function Frame(c: Core): (ws: seq<u32>)
    requires c.WellFormed()
    ensures |ws| == FrameWords(c)
  {
    [c.r[0], c.r[1], c.r[2], c.r[3], c.r[12], c.r[LR], c.pc, BuildXpsr(c.flags, c.itstate, c.ipsr)]
      + if c.Fpca() then c.s[..16] + [c.fpscr, 0] else []
  }

  function ExcReturn(c: Core): (r: u32) {
    (if !c.thread then 0xFFFF_FFF1 else if c.spIsPsp then 0xFFFF_FFFD else 0xFFFF_FFF9) - Bit(c.Fpca(), 0x10)
  }

  /** Stacks the frame, banks the stack pointer, and starts the handler at `target`. */
  function Enter(c: Core, m: Ram, vecnum: nat, target: u32): (r: (Core, Ram))
    requires c.WellFormed() && m.Holds(FrameBase(c), 4 * FrameWords(c))
  {
    var base := FrameBase(c);
    (c.(r := c.r[SP := if c.spIsPsp then c.msp else base][LR := ExcReturn(c)],
        pc := EvenPc(target), thread := false, ipsr := vecnum, itstate := 0, spIsPsp := false,
        msp := if c.spIsPsp then c.msp else base, psp := if c.spIsPsp then base else c.psp),
     m.WriteWords(base, Frame(c)))
  }

  /** EXC_RETURN bit 2: the frame is on the process stack; bit 3: return to Thread mode;
      bit 4 clear: the frame is extended. */
  predicate OnPsp(exc: u32) { exc / 4 % 2 == 1 }
  predicate ToThread(exc: u32) { exc / 8 % 2 == 1 }
  predicate Extended(exc: u32) { exc / 16 % 2 == 0 }

  function ReturnBase(c: Core, exc: u32): (r: u32) {
    if OnPsp(exc) then c.psp else c.msp
  }

  function ReturnWords(exc: u32): (r: nat) {
    if Extended(exc) then 26 else 8
  }

  /** The frame a return reads. */
  predicate CanLeave(c: Core, m: Ram, exc: u32) {
    c.WellFormed() && m.Holds(ReturnBase(c, exc), 4 * ReturnWords(exc))
  }

  function ReturnControl(control: nat, exc: u32): (r: nat)
    requires control < 8
  {
    control % 2
      + Bit(if ToThread(exc) then OnPsp(exc) else control / 2 % 2 == 1, 2)
      + Bit(Extended(exc), 4)
  }

  function UnstackRegs(r: seq<u32>, ws: seq<u32>, sp: u32): (r': seq<u32>)
    requires |r| == 16 && |ws| >= 8
    ensures |r'| == 16
  {
    r[0 := ws[0]][1 := ws[1]][2 := ws[2]][3 := ws[3]][12 := ws[4]][LR := ws[5]][SP := sp]
  }

  /** The core after a return that read `ws` from the frame. */
  function Unstack(c: Core, exc: u32, ws: seq<u32>): (r: Core)
    requires c.WellFormed() && |ws| == ReturnWords(exc)
  {
    var sp := Add32(ReturnBase(c, exc), 4 * ReturnWords(exc));
    var control := ReturnControl(c.control, exc);
    var psp := if OnPsp(exc) then sp else c.psp;
    var msp := if OnPsp(exc) then c.msp else sp;
    var spIsPsp := ToThread(exc) && control / 2 % 2 == 1;
    Core(UnstackRegs(c.r, ws, if spIsPsp then psp else msp),
         EvenPc(ws[6]), XpsrFlags(ws[7]), ToThread(exc), control, ws[7] % 0x200, msp, psp, spIsPsp,
         XpsrItstate(ws[7]),
         if Extended(exc) then ws[8..24] + c.s[16..] else c.s,
         if Extended(exc) then ws[24] else c.fpscr)
  }

  function Leave(c: Core, m: Ram, exc: u32): (r: Core)
    requires CanLeave(c, m, exc)
  {
    Unstack(c, exc, m.Words(ReturnBase(c, exc), ReturnWords(exc)))
  }

  // ---- the banked stack pointers -------------------------------------------------

  function SetControl(c: Core, v: nat): (r: Core)
    requires c.WellFormed()
  {
    var c' := c.(control := v % 8);
    var now := c.thread && c'.Spsel();
    if c.spIsPsp == now then c'
    else
      var psp := if c.spIsPsp then c.r[SP] else c.psp;
      var msp := if c.spIsPsp then c.msp else c.r[SP];
      c'.(psp := psp, msp := msp, r := c.r[SP := if now then psp else msp], spIsPsp := now)
  }

  function WriteMsp(c: Core, v: u32): (r: Core)
    requires c.WellFormed()
  {
    c.(msp := v, r := if c.spIsPsp then c.r else c.r[SP := v])
  }

  function WritePsp(c: Core, v: u32): (r: Core)
    requires c.WellFormed()
  {
    c.(psp := v, r := if c.spIsPsp then c.r[SP := v] else c.r)
  }

  // ---- what an interrupted thread gets back ---------------------------------------

  /** The state an interruption must not change: what the frame carries, the mode, the
      stack in use, and where its top is. */
  ghost predicate SameThread(c: Core, d: Core)
    requires c.WellFormed() && d.WellFormed()
  {
    && d.r[..4] == c.r[..4] && d.r[12..15] == c.r[12..15] && d.pc == EvenPc(c.pc)
    && d.flags == c.flags && d.itstate == c.itstate && d.ipsr == c.ipsr && d.thread == c.thread
    && (d.Spsel() <==> c.Spsel()) && (d.Fpca() <==> c.Fpca()) && d.spIsPsp == c.spIsPsp
    && (c.Fpca() ==> d.s[..16] == c.s[..16] && d.fpscr == c.fpscr)
  }

  lemma ExcReturnBits(c: Core)
    requires c.WellFormed() && c.thread && c.Banked()
    ensures var exc := ExcReturn(c);
            && (OnPsp(exc) <==> c.spIsPsp) && ToThread(exc) && (Extended(exc) <==> c.Fpca())
            && exc / 0x100_0000 == 0xFF
  {
  }

  lemma ReturnControlBits(control: nat, exc: u32)
    requires control < 8 && ToThread(exc)
    ensures var k := ReturnControl(control, exc);
            k < 8 && (k / 2 % 2 == 1 <==> OnPsp(exc)) && (k / 4 % 2 == 1 <==> Extended(exc))
  {
  }

  lemma FramePop(c: Core)
    requires c.WellFormed()
    ensures Add32(FrameBase(c), 4 * FrameWords(c)) == c.r[SP]
  {
  }

  lemma UnstackRestores(c: Core, d: Core)
    requires c.WellFormed() && c.thread && c.Banked()
    requires d.WellFormed() && ReturnBase(d, ExcReturn(c)) == FrameBase(c)
    requires ReturnWords(ExcReturn(c)) == FrameWords(c)
    ensures var e := Unstack(d, ExcReturn(c), Frame(c)); e.WellFormed() && e.Banked() && SameThread(c, e)
  {
    var exc, ws := ExcReturn(c), Frame(c);
    ExcReturnBits(c);
    ReturnControlBits(d.control, exc);
    FramePop(c);
    XpsrRoundTrip(c.flags, c.itstate, c.ipsr);
    var e := Unstack(d, exc, ws);
    assert e.r[..4] == c.r[..4];
    assert e.r[12] == c.r[12] && e.r[SP] == c.r[SP] && e.r[LR] == c.r[LR];
    assert e.r[12..15] == c.r[12..15];
    if c.Fpca() {
      assert ws[8..24] == c.s[..16];
      assert e.s[..16] == c.s[..16];
    }
  }

  /** The frame of a preempted thread is in memory. */
  ghost predicate Parked(m: Ram, c: Core) {
    && c.WellFormed() && c.thread && c.Banked()
    && m.Holds(FrameBase(c), 4 * FrameWords(c))
    && m.Words(FrameBase(c), FrameWords(c)) == Frame(c)
  }

  /** The frames of two threads do not overlap. */
  ghost predicate Apart(c: Core, d: Core)
    requires c.WellFormed() && d.WellFormed()
  {
    || FrameBase(c) + 4 * FrameWords(c) <= FrameBase(d)
    || FrameBase(d) + 4 * FrameWords(d) <= FrameBase(c)
  }

  lemma EnterParks(c: Core, m: Ram, vecnum: nat, target: u32)
    requires c.WellFormed() && c.thread && c.Banked()
    requires m.Holds(FrameBase(c), 4 * FrameWords(c))
    ensures Parked(Enter(c, m, vecnum, target).1, c)
  {
    WordsReadBack(m, FrameBase(c), Frame(c));
  }

  /** The round trip: any core whose bank points at a parked frame returns through that
      thread's EXC_RETURN to the thread itself. */
  lemma LeaveRestores(c: Core, d: Core, m: Ram)
    requires Parked(m, c) && d.WellFormed() && ReturnBase(d, ExcReturn(c)) == FrameBase(c)
    ensures CanLeave(d, m, ExcReturn(c))
    ensures var e := Leave(d, m, ExcReturn(c)); e.WellFormed() && e.Banked() && SameThread(c, e)
  {
    ExcReturnBits(c);
    UnstackRestores(c, d);
  }

  // ---- runs ---------------------------------------------------------------------

  /** What the core does between an entry and a return.  `Execute` is any instruction that
      leaves the mode and the banking alone: it may change every register, the flags, the
      FP state and memory. */
  datatype Step =
    | Execute(next: Core, mem: Ram)
    | MsrPsp(v: u32)
    | MsrMsp(v: u32)
    | MsrControl(v: u32)
    | Take(vecnum: nat, target: u32)
    | Return(exc: u32)

  ghost predicate CanStep(c: Core, m: Ram, st: Step) {
    c.WellFormed() &&
    match st
    case Execute(c', m') =>
      && c'.WellFormed() && m'.base == m.base && |m'.data| == |m.data|
      && c'.thread == c.thread && c'.ipsr == c.ipsr && c'.spIsPsp == c.spIsPsp
      && c'.msp == c.msp && c'.psp == c.psp && c'.control % 4 == c.control % 4
    case Take(vecnum, _) => vecnum < 512 && m.Holds(FrameBase(c), 4 * FrameWords(c))
    case Return(exc) => CanLeave(c, m, exc)
    case _ => true
  }

  function DoStep(c: Core, m: Ram, st: Step): (r: (Core, Ram))
    requires CanStep(c, m, st)
  {
    match st
    case Execute(c', m') => (c', m')
    case MsrPsp(v) => (WritePsp(c, v), m)
    case MsrMsp(v) => (WriteMsp(c, v), m)
    case MsrControl(v) => (SetControl(c, v), m)
    case Take(vecnum, target) => Enter(c, m, vecnum, target)
    case Return(exc) => (Leave(c, m, exc), m)
  }

  /** The step writes nothing in [lo, lo + n). */
  ghost predicate Spares(c: Core, m: Ram, st: Step, lo: int, n: nat)
    requires CanStep(c, m, st)
  {
    match st
    case Execute(_, m') => m.Holds(lo, n) ==> Agree(m, m', lo, n)
    case Take(_, _) => FrameBase(c) + 4 * FrameWords(c) <= lo || lo + n <= FrameBase(c)
    case _ => true
  }

  /** A run from (c, m) to (d, m') that spares the frame of `p`. */
  ghost predicate RunSparing(p: Core, c: Core, m: Ram, steps: seq<Step>, d: Core, m': Ram)
    requires p.WellFormed()
    decreases |steps|
  {
    if steps == [] then d == c && m' == m
    else
      && CanStep(c, m, steps[0]) && Spares(c, m, steps[0], FrameBase(p), 4 * FrameWords(p))
      && var (c1, m1) := DoStep(c, m, steps[0]); RunSparing(p, c1, m1, steps[1..], d, m')
  }

  lemma SetControlBanked(c: Core, v: nat)
    requires c.WellFormed() && c.Banked()
    ensures SetControl(c, v).WellFormed() && SetControl(c, v).Banked()
  {
  }

  lemma ReturnControlRange(control: nat, exc: u32)
    requires control < 8
    ensures ReturnControl(control, exc) < 8
  {
  }

  /** Every step keeps the core well formed and the active stack pointer the right one. */
  lemma StepKeepsBanked(c: Core, m: Ram, st: Step)
    requires CanStep(c, m, st) && c.Banked()
    ensures var (d, m') := DoStep(c, m, st); d.WellFormed() && d.Banked()
  {
    match st
    case MsrControl(v) => SetControlBanked(c, v);
    case Return(exc) => ReturnControlRange(c.control, exc);
    case Execute(c', _) => assert c'.control / 2 % 2 == c'.control % 4 / 2;
    case _ =>
  }

  lemma AgreeKeepsParked(m: Ram, m': Ram, p: Core)
    requires Parked(m, p) && Agree(m, m', FrameBase(p), 4 * FrameWords(p))
    ensures Parked(m', p)
  {
    AgreeWords(m, m', FrameBase(p), FrameWords(p));
  }

  lemma StepKeepsParked(p: Core, c: Core, m: Ram, st: Step)
    requires Parked(m, p) && CanStep(c, m, st) && Spares(c, m, st, FrameBase(p), 4 * FrameWords(p))
    ensures Parked(DoStep(c, m, st).1, p)
  {
    if st.Take? {
      WordsReadBack(m, FrameBase(c), Frame(c));
    }
    AgreeKeepsParked(m, DoStep(c, m, st).1, p);
  }

  lemma {:induction false} RunKeepsParked(p: Core, c: Core, m: Ram, steps: seq<Step>, d: Core, m': Ram)
    requires c.WellFormed() && c.Banked() && Parked(m, p) && RunSparing(p, c, m, steps, d, m')
    ensures d.WellFormed() && d.Banked() && Parked(m', p)
    decreases |steps|
  {
    if steps != [] {
      StepKeepsBanked(c, m, steps[0]);
      StepKeepsParked(p, c, m, steps[0]);
      var (c1, m1) := DoStep(c, m, steps[0]);
      RunKeepsParked(p, c1, m1, steps[1..], d, m');
    }
  }

  // ---- context switches -----------------------------------------------------------

  /** MSR PSP to the frame of `p`, then its EXC_RETURN. */
  ghost predicate CanResume(d: Core, m: Ram, p: Core) {
    && p.WellFormed() && d.WellFormed()
    && CanLeave(WritePsp(d, FrameBase(p)), m, ExcReturn(p))
  }

  function Resume(d: Core, m: Ram, p: Core): (r: Core)
    requires CanResume(d, m, p)
  {
    Leave(WritePsp(d, FrameBase(p)), m, ExcReturn(p))
  }

  lemma ResumeRestores(d: Core, m: Ram, p: Core)
    requires Parked(m, p) && p.spIsPsp && d.WellFormed()
    ensures CanResume(d, m, p)
    ensures var e := Resume(d, m, p); e.WellFormed() && e.Banked() && SameThread(p, e)
  {
    ExcReturnBits(p);
    LeaveRestores(p, WritePsp(d, FrameBase(p)), m);
  }

  /** One task: interrupted, then anything at all that spares its frame, any number of
      other tasks and nested exceptions included; once PSP points at its frame again, its
      EXC_RETURN restores it. */
  lemma ContextSwitch(a: Core, m: Ram, vecnum: nat, target: u32, steps: seq<Step>, d: Core, m': Ram)
    requires a.WellFormed() && a.thread && a.spIsPsp && a.Banked()
    requires CanStep(a, m, Take(vecnum, target))
    requires var (h, mh) := Enter(a, m, vecnum, target); RunSparing(a, h, mh, steps, d, m')
    ensures d.Banked() && CanResume(d, m', a)
    ensures var e := Resume(d, m', a); e.WellFormed() && e.Banked() && SameThread(a, e)
  {
    var (h, mh) := Enter(a, m, vecnum, target);
    EnterParks(a, m, vecnum, target);
    RunKeepsParked(a, h, mh, steps, d, m');
    ResumeRestores(d, m', a);
  }

  /** Two tasks: A is preempted while B is parked, the handler resumes B by MSR PSP and its
      EXC_RETURN, B runs and is preempted, and the handler resumes A.  Each resumption gives
      back the task that was parked, and B's second frame is still there to resume. */
  lemma TwoTaskSwitch(a: Core, b: Core, m: Ram, vec1: nat, vec2: nat, target: u32,
                      inA: seq<Step>, g: Core, mg: Ram, inB: seq<Step>, b2: Core, mb: Ram,
                      in2: seq<Step>, k: Core, mk: Ram)
    requires a.WellFormed() && a.thread && a.spIsPsp && a.Banked()
    requires CanStep(a, m, Take(vec1, target))
    requires Parked(m, b) && b.spIsPsp && Apart(a, b)
    // the handler, entered from A, spares both frames
    requires var (h, mh) := Enter(a, m, vec1, target);
             RunSparing(a, h, mh, inA, g, mg) && RunSparing(b, h, mh, inA, g, mg)
    // B runs from where it resumes, and spares A's frame
    requires CanResume(g, mg, b) && RunSparing(a, Resume(g, mg, b), mg, inB, b2, mb)
    // B is preempted in turn, and that handler spares both frames
    requires CanStep(b2, mb, Take(vec2, target)) && b2.thread && b2.spIsPsp && Apart(a, b2)
    requires var (h, mh) := Enter(b2, mb, vec2, target);
             RunSparing(a, h, mh, in2, k, mk) && RunSparing(b2, h, mh, in2, k, mk)
    ensures SameThread(b, Resume(g, mg, b))
    ensures CanResume(k, mk, a) && SameThread(a, Resume(k, mk, a))
    ensures Parked(mk, b2)
  {
    ResumedWhileParked(a, b, m, vec1, target, inA, g, mg);
    RunKeepsParked(a, Resume(g, mg, b), mg, inB, b2, mb);
    ResumedWhileParked(b2, a, mb, vec2, target, in2, k, mk);
  }

  /** One switch: the task that enters is parked, and the one that was parked comes back. */
  lemma ResumedWhileParked(a: Core, b: Core, m: Ram, vecnum: nat, target: u32, steps: seq<Step>, g: Core, mg: Ram)
    requires a.WellFormed() && a.thread && a.Banked() && CanStep(a, m, Take(vecnum, target))
    requires Parked(m, b) && b.spIsPsp && Apart(a, b)
    requires var (h, mh) := Enter(a, m, vecnum, target);
             RunSparing(a, h, mh, steps, g, mg) && RunSparing(b, h, mh, steps, g, mg)
    ensures Parked(mg, a) && CanResume(g, mg, b)
    ensures var e := Resume(g, mg, b); e.WellFormed() && e.Banked() && SameThread(b, e)
  {
    var (h, mh) := Enter(a, m, vecnum, target);
    EnterParks(a, m, vecnum, target);
    StepKeepsParked(b, a, m, Take(vecnum, target));
    RunKeepsParked(a, h, mh, steps, g, mg);
    RunKeepsParked(b, h, mh, steps, g, mg);
    ResumeRestores(g, mg, b);
  }

  /** The shortest such run, for any two tasks with separate frames: there and straight back. */
  lemma ThereAndBack(a: Core, b: Core, m: Ram, vec1: nat, vec2: nat, target: u32)
    requires a.WellFormed() && a.thread && a.spIsPsp && a.Banked() && vec2 < 512
    requires CanStep(a, m, Take(vec1, target))
    requires Parked(m, b) && b.spIsPsp && Apart(a, b)
    ensures var (h, mh) := Enter(a, m, vec1, target);
            && CanResume(h, mh, b)
            && var b2 := Resume(h, mh, b);
               && SameThread(b, b2) && CanStep(b2, mh, Take(vec2, target))
               && var (h2, mh2) := Enter(b2, mh, vec2, target);
                  CanResume(h2, mh2, a) && SameThread(a, Resume(h2, mh2, a)) && Parked(mh2, b2)
  {
    hide SameThread, Leave, Ram.WriteWords, Ram.Words, XpsrFlags, BuildXpsr;
    var (h, mh) := Enter(a, m, vec1, target);
    ResumedWhileParked(a, b, m, vec1, target, [], h, mh);
    var b2 := Resume(h, mh, b);
    SameFrame(b, b2);
    var (h2, mh2) := Enter(b2, mh, vec2, target);
    TwoTaskSwitch(a, b, m, vec1, vec2, target, [], h, mh, [], b2, mh, [], h2, mh2);
  }

  lemma SameFrame(c: Core, d: Core)
    requires c.WellFormed() && d.WellFormed() && c.thread && d.Banked() && SameThread(c, d)
    ensures FrameBase(d) == FrameBase(c) && FrameWords(d) == FrameWords(c) && d.thread
  {
    assert d.r[SP] == d.r[12..15][1] == c.r[12..15][1] == c.r[SP];
  }

  /** Switching stacks in Thread mode loses neither pointer: switching back gives the register
      file as it was, whatever CONTROL was in between. */
  lemma ControlRoundTrip(c: Core, v: nat)
    requires c.WellFormed() && c.Banked() && c.control < 8
    ensures var d := SetControl(SetControl(c, v), c.control);
            d.r == c.r && d.spIsPsp == c.spIsPsp && d.control == c.control
    ensures SetControl(c, v).spIsPsp <==> c.thread && v / 2 % 2 == 1
  {
    var k := v % 8;
    assert k / 2 % 2 == v / 2 % 2;
    assert c.control % 8 == c.control;
    if c.thread && k / 2 % 2 != c.control / 2 % 2 {
      assert SetControl(SetControl(c, v), c.control).r == c.r;
    }
  }

  // ---- block transfers ---------------------------------------------------------------

  /** A register list: bit i of the encoding. */
  type Mask = s: seq<bool> | |s| == 16 witness seq(16, i => false)

  /** How many listed registers come before `i`: the word slot of register `i`. */
  function Rank(mask: Mask, i: nat): (r: nat)
    requires i <= 16
  {
    if i == 0 then 0 else Rank(mask, i - 1) + Bit(mask[i - 1], 1)
  }

  function Count(mask: Mask): (r: nat) { Rank(mask, 16) }

  lemma {:induction false} RankStep(mask: Mask, i: nat, j: nat)
    requires i < j <= 16
    ensures Rank(mask, i) + Bit(mask[i], 1) <= Rank(mask, j)
    decreases j
  {
    if i + 1 < j {
      RankStep(mask, i, j - 1);
    }
  }

  /** The listed registers among the first `i`, in the order they are stored. */
  function Listed(r: seq<u32>, mask: Mask, i: nat): (ws: seq<u32>)
    requires |r| == 16 && i <= 16
    ensures |ws| == Rank(mask, i)
  {
    if i == 0 then [] else Listed(r, mask, i - 1) + if mask[i - 1] then [r[i - 1]] else []
  }

  lemma {:induction false} ListedAt(r: seq<u32>, mask: Mask, i: nat, n: nat)
    requires |r| == 16 && i < n <= 16 && mask[i]
    ensures Rank(mask, i) < Rank(mask, n)
    ensures Listed(r, mask, n)[Rank(mask, i)] == r[i]
    decreases n
  {
    RankStep(mask, i, n);
    if i + 1 < n {
      RankStep(mask, i, n - 1);
      ListedAt(r, mask, i, n - 1);
    }
  }

  function PushBase(c: Core, mask: Mask): (r: u32)
    requires c.WellFormed()
  {
    Add32(c.r[SP], -(4 * Count(mask)))
  }

  predicate CanPush(c: Core, m: Ram, mask: Mask) {
    c.WellFormed() && !mask[SP] && !mask[15] && m.Holds(PushBase(c, mask), 4 * Count(mask))
  }

  /** STMDB SP!, {mask}: the prologue's PUSH. */
  function Push(c: Core, m: Ram, mask: Mask): (r: (Core, Ram))
    requires CanPush(c, m, mask)
  {
    (c.(r := c.r[SP := PushBase(c, mask)]), m.WriteWords(PushBase(c, mask), Listed(c.r, mask, 16)))
  }

  /** An EXC_RETURN value in the PC slot of a load. */
  predicate IsExcReturn(v: u32) {
    v / 0x100_0000 == 0xFF
  }

  /** The register file after a load list has taken its words, the PC's aside. */
  function Unlist(r: seq<u32>, mask: Mask, ws: seq<u32>): (r': seq<u32>)
    requires |r| == 16 && |ws| == Count(mask)
    ensures |r'| == 16
    ensures forall i :: 0 <= i < 15 ==>
              r'[i] == if mask[i] then (RankStep(mask, i, 16); ws[Rank(mask, i)]) else r[i]
    ensures r'[15] == r[15]
  {
    seq(16, i requires 0 <= i < 16 => if i < 15 && mask[i] then (RankStep(mask, i, 16); ws[Rank(mask, i)]) else r[i])
  }

  /** The core after LDMIA SP!, {mask} has loaded and written back, the PC still pending. */
  function PopRegs(c: Core, m: Ram, mask: Mask): (r: Core)
    requires c.WellFormed() && !mask[SP]
    requires m.Holds(c.r[SP], 4 * Count(mask))
  {
    c.(r := Unlist(c.r, mask, m.Words(c.r[SP], Count(mask)))[SP := Add32(c.r[SP], 4 * Count(mask))])
  }

  function PoppedPc(c: Core, m: Ram, mask: Mask): (r: u32)
    requires c.WellFormed() && mask[15]
    requires m.Holds(c.r[SP], 4 * Count(mask))
  {
    RankStep(mask, 15, 16);
    m.Words(c.r[SP], Count(mask))[Rank(mask, 15)]
  }

  /** The epilogue's POP {.., pc}: the writeback lands before the bank can switch. */
  predicate CanPop(c: Core, m: Ram, mask: Mask) {
    && c.WellFormed() && !mask[SP] && mask[15] && m.Holds(c.r[SP], 4 * Count(mask))
    && (IsExcReturn(PoppedPc(c, m, mask)) ==> CanLeave(PopRegs(c, m, mask), m, PoppedPc(c, m, mask)))
  }

  function Pop(c: Core, m: Ram, mask: Mask): (r: Core)
    requires CanPop(c, m, mask)
  {
    var d, pc := PopRegs(c, m, mask), PoppedPc(c, m, mask);
    if IsExcReturn(pc) then Leave(d, m, pc) else d.(pc := EvenPc(pc))
  }

  /** The epilogue list of a prologue list: LR's slot is popped into PC. */
  function Epilogue(mask: Mask): (r: Mask) {
    mask[LR := false][15 := true]
  }

  lemma EpilogueRank(mask: Mask)
    requires !mask[SP] && mask[LR] && !mask[15]
    ensures Count(Epilogue(mask)) == Count(mask)
    ensures Rank(Epilogue(mask), 15) == Rank(mask, LR)
    ensures forall i :: 0 <= i <= LR ==> Rank(Epilogue(mask), i) == Rank(mask, i)
  {
    RankPrefix(mask, Epilogue(mask), LR);
    forall i | 0 <= i <= LR
      ensures Rank(Epilogue(mask), i) == Rank(mask, i)
    {
      RankPrefix(mask, Epilogue(mask), i);
    }
    assert Rank(mask, 15) == Rank(mask, LR) + 1;
    assert Rank(Epilogue(mask), 15) == Rank(Epilogue(mask), LR);
  }

  lemma {:induction false} RankPrefix(mask: Mask, mask': Mask, i: nat)
    requires i <= 16 && forall j :: 0 <= j < i ==> mask[j] == mask'[j]
    ensures Rank(mask, i) == Rank(mask', i)
    decreases i
  {
    if i > 0 {
      RankPrefix(mask, mask', i - 1);
    }
  }

  lemma UnlistListed(r: seq<u32>, r': seq<u32>, mask: Mask)
    requires |r| == 16 && |r'| == 16 && !mask[SP] && mask[LR] && !mask[15]
    ensures Count(Epilogue(mask)) == Count(mask)
    ensures var ws := Listed(r, mask, 16);
            && Rank(Epilogue(mask), 15) < |ws| && ws[Rank(Epilogue(mask), 15)] == r[LR]
            && (forall i :: 0 <= i < 15 ==>
                  Unlist(r', Epilogue(mask), ws)[i] == if i < SP && mask[i] then r[i] else r'[i])
  {
    EpilogueRank(mask);
    ListedAt(r, mask, LR, 16);
    forall i | 0 <= i < SP && mask[i]
      ensures Unlist(r', Epilogue(mask), Listed(r, mask, 16))[i] == r[i]
    {
      ListedAt(r, mask, i, 16);
    }
  }

  /** PUSH {list, lr}, then anything that leaves the block and SP as they were, then
      POP {list, pc}: every listed register is back, SP is back, and the value popped into
      PC is the LR that was pushed. */
  lemma PushPop(c: Core, m: Ram, mask: Mask, d: Core, m': Ram)
    requires mask[LR] && CanPush(c, m, mask)
    requires d.WellFormed() && d.r[SP] == Push(c, m, mask).0.r[SP]
    requires Agree(Push(c, m, mask).1, m', d.r[SP], 4 * Count(mask))
    ensures Count(Epilogue(mask)) == Count(mask)
    ensures var e := PopRegs(d, m', Epilogue(mask));
            && e.r[SP] == c.r[SP]
            && (forall i :: 0 <= i < SP && mask[i] ==> e.r[i] == c.r[i])
            && (forall i :: 0 <= i < SP && !mask[i] ==> e.r[i] == d.r[i])
            && e == d.(r := e.r)
    ensures PoppedPc(d, m', Epilogue(mask)) == c.r[LR]
  {
    EpilogueRank(mask);
    AddSub(c.r[SP], 4 * Count(mask));
    var ws := Listed(c.r, mask, 16);
    assert m'.Words(d.r[SP], Count(mask)) == ws by {
      WordsReadBack(m, d.r[SP], ws);
      AgreeWords(m.WriteWords(d.r[SP], ws), m', d.r[SP], |ws|);
    }
    UnlistListed(c.r, d.r, mask);
  }

  /** The pushed block lies clear of a parked frame. */
  ghost predicate Clear(p: Core, lo: int, n: nat)
    requires p.WellFormed()
  {
    FrameBase(p) + 4 * FrameWords(p) <= lo || lo + n <= FrameBase(p)
  }

  lemma PushKeepsParked(a: Core, c: Core, m: Ram, mask: Mask)
    requires Parked(m, a) && CanPush(c, m, mask) && Clear(a, PushBase(c, mask), 4 * Count(mask))
    ensures Parked(Push(c, m, mask).1, a)
  {
    WordsReadBack(m, PushBase(c, mask), Listed(c.r, mask, 16));
    AgreeKeepsParked(m, Push(c, m, mask).1, a);
  }

  lemma EnterBanks(a: Core, m: Ram, vecnum: nat, target: u32)
    requires a.thread && a.Banked() && CanStep(a, m, Take(vecnum, target))
    ensures var h := Enter(a, m, vecnum, target).0;
            && h.WellFormed() && h.r[LR] == ExcReturn(a) && h.r[4..12] == a.r[4..12]
            && ReturnBase(h, ExcReturn(a)) == FrameBase(a)
  {
    ExcReturnBits(a);
  }

  /** A POP whose PC slot holds a parked thread's EXC_RETURN. */
  lemma PopLeaves(a: Core, d: Core, m: Ram, mask: Mask)
    requires Parked(m, a) && d.WellFormed() && !mask[SP] && mask[15]
    requires m.Holds(d.r[SP], 4 * Count(mask)) && PoppedPc(d, m, mask) == ExcReturn(a)
    requires ReturnBase(d, ExcReturn(a)) == FrameBase(a)
    ensures CanPop(d, m, mask)
    ensures var e := Pop(d, m, mask);
            && e.WellFormed() && e.Banked() && SameThread(a, e)
            && e.r[4..12] == PopRegs(d, m, mask).r[4..12]
  {
    ExcReturnBits(a);
    LeaveRestores(a, PopRegs(d, m, mask), m);
  }

  /** The whole handler.  A thread is interrupted; its handler pushes {list, lr}, runs a body
      that spares the pushed block and the thread's frame and leaves the stack pointers where
      the prologue put them, and pops {list, pc}.  The pop is an exception return and the
      thread is back, with every listed register. */
  lemma HandlerRestoresThread(a: Core, m: Ram, vecnum: nat, target: u32, mask: Mask,
                              h: Core, mh: Ram, p: Core, mp: Ram, d: Core, m': Ram)
    requires a.thread && a.Banked() && CanStep(a, m, Take(vecnum, target))
    requires (h, mh) == Enter(a, m, vecnum, target)
    requires mask[LR] && CanPush(h, mh, mask) && (p, mp) == Push(h, mh, mask)
    requires Clear(a, p.r[SP], 4 * Count(mask))
    requires d.WellFormed() && d.r[SP] == p.r[SP] && d.msp == p.msp && d.psp == p.psp
    requires Agree(mp, m', p.r[SP], 4 * Count(mask)) && Agree(mp, m', FrameBase(a), 4 * FrameWords(a))
    ensures CanPop(d, m', Epilogue(mask))
    ensures var e := Pop(d, m', Epilogue(mask));
            && e.WellFormed() && e.Banked() && SameThread(a, e)
            && forall i :: 4 <= i < 12 && mask[i] ==> e.r[i] == a.r[i]
  {
    EnterParks(a, m, vecnum, target);
    EnterBanks(a, m, vecnum, target);
    PushKeepsParked(a, h, mh, mask);
    AgreeKeepsParked(mp, m', a);
    PushPop(h, mh, mask, d, m');
    PopLeaves(a, d, m', Epilogue(mask));
    var e := Pop(d, m', Epilogue(mask));
    forall i | 4 <= i < 12 && mask[i]
      ensures e.r[i] == a.r[i]
    {
      assert e.r[4..12][i - 4] == PopRegs(d, m', Epilogue(mask)).r[4..12][i - 4];
      assert h.r[4..12][i - 4] == a.r[4..12][i - 4];
    }
  }

  /** Returning to `a` by its EXC_RETURN is possible and gives back `a`. */
  ghost predicate Restores(c: Core, m: Ram, a: Core) {
    && a.WellFormed() && CanLeave(c, m, ExcReturn(a))
    && Leave(c, m, ExcReturn(a)).WellFormed() && SameThread(a, Leave(c, m, ExcReturn(a)))
  }

  /** A return finds a thread parked on the main stack exactly when MSP points at its frame: from
      anywhere else SP itself comes back wrong. */
  lemma RestoresExactly(c: Core, m: Ram, a: Core)
    requires Parked(m, a) && !a.spIsPsp && c.WellFormed()
    ensures Restores(c, m, a) <==> c.msp == FrameBase(a)
  {
    ExcReturnBits(a);
    if c.msp == FrameBase(a) {
      LeaveRestores(a, c, m);
    } else if CanLeave(c, m, ExcReturn(a)) && Leave(c, m, ExcReturn(a)).WellFormed() {
      hide Leave;
      LeaveSp(c, m, a);
      FramePop(a);
      AddInjective(c.msp, FrameBase(a), 4 * FrameWords(a));
      SameSp(a, Leave(c, m, ExcReturn(a)));
    }
  }

  lemma SameSp(c: Core, d: Core)
    requires c.WellFormed() && d.WellFormed()
    ensures SameThread(c, d) ==> d.r[SP] == c.r[SP]
  {
    assert d.r[SP] == d.r[12..15][1] && c.r[SP] == c.r[12..15][1];
  }

  lemma LeaveSp(c: Core, m: Ram, a: Core)
    requires a.WellFormed() && a.thread && a.Banked() && !a.spIsPsp && CanLeave(c, m, ExcReturn(a))
    ensures Leave(c, m, ExcReturn(a)).r[SP] == Add32(c.msp, 4 * FrameWords(a))
  {
    hide Ram.Words, XpsrFlags, XpsrItstate, BuildXpsr, Add32, EvenPc;
    ExcReturnBits(a);
    ReturnControlBits(c.control, ExcReturn(a));
  }

  lemma AddInjective(x: u32, y: u32, n: nat)
    ensures Add32(x, n) == Add32(y, n) ==> x == y
  {
    var k: int := n;
    AddSub(x, -k);
    AddSub(y, -k);
  }

  /** A handler `h` is interrupted in turn and the nested handler, at `d` and `md` about to
      return, has its SP back where it started.  `h` gets its own SP back, but MSP is left
      at it. */
  lemma NestedReturn(h: Core, m: Ram, vecnum: nat, target: u32, d: Core, md: Ram)
    requires !h.thread && h.Banked() && CanStep(h, m, Take(vecnum, target))
    requires d.WellFormed() && d.msp == Enter(h, m, vecnum, target).0.msp && CanLeave(d, md, ExcReturn(h))
    ensures var e := Leave(d, md, ExcReturn(h)); e.WellFormed() && e.r[SP] == e.msp == h.r[SP]
  {
    hide Add32, UnstackRegs, XpsrFlags, XpsrItstate, Ram.WriteWords, Ram.Words, BuildXpsr, EvenPc;
    var exc := ExcReturn(h);
    HandlerExcBits(h);
    assert d.msp == FrameBase(h) == ReturnBase(d, exc);
    FramePop(h);
    UnstackSp(d, exc, md.Words(ReturnBase(d, exc), ReturnWords(exc)));
    LeaveKeepsForm(d, md, exc);
  }

  /** Entries from a handler.  Thread `a` is parked on the main stack, its handler `h` is
      interrupted in turn, and the nested handler spares `a`'s frame: the return to `a` that is
      still to come restores `a` if and only if `h` had pushed nothing. */
  lemma NestedEntryMovesMsp(a: Core, h: Core, m: Ram, vecnum: nat, target: u32, d: Core, md: Ram)
    requires a.WellFormed() && !a.spIsPsp && !h.thread && h.Banked() && h.msp == FrameBase(a)
    requires CanStep(h, m, Take(vecnum, target))
    requires d.WellFormed() && d.msp == Enter(h, m, vecnum, target).0.msp
    requires Parked(md, a) && CanLeave(d, md, ExcReturn(h))
    ensures var e := Leave(d, md, ExcReturn(h));
            && e.r[SP] == h.r[SP]
            && (Restores(e, md, a) <==> h.r[SP] == h.msp)
  {
    NestedReturn(h, m, vecnum, target, d, md);
    hide Restores, Leave;
    RestoresExactly(Leave(d, md, ExcReturn(h)), md, a);
  }

  /** MSP after the return to `a`. */
  ghost function LeftMsp(o: Core, mo: Ram, a: Core): (msp: u32)
    requires a.WellFormed() && CanLeave(o, mo, ExcReturn(a))
  {
    Leave(o, mo, ExcReturn(a)).msp
  }

  /** The same for a thread on the process stack.  Its frame is not on the main stack, so the
      outer return, from any core `o` that finds the frame and has MSP as the nested return left
      it, always restores the thread; but the main stack is back where it was if and only if
      `h` had pushed nothing. */
  lemma NestedEntryLeaksMsp(a: Core, h: Core, m: Ram, vecnum: nat, target: u32, d: Core, md: Ram, o: Core, mo: Ram)
    requires !h.thread && h.Banked() && h.msp == a.msp && CanStep(h, m, Take(vecnum, target))
    requires d.WellFormed() && d.msp == Enter(h, m, vecnum, target).0.msp && CanLeave(d, md, ExcReturn(h))
    requires o.WellFormed() && o.msp == Leave(d, md, ExcReturn(h)).msp
    requires Parked(mo, a) && a.spIsPsp && o.psp == FrameBase(a)
    ensures Restores(o, mo, a)
    ensures LeftMsp(o, mo, a) == a.msp <==> h.r[SP] == h.msp
  {
    NestedReturn(h, m, vecnum, target, d, md);
    hide Restores, Leave, LeftMsp;
    LeaveKeepsMsp(o, mo, a);
  }

  /** A return to the process stack restores the thread parked there and leaves MSP alone. */
  lemma LeaveKeepsMsp(o: Core, mo: Ram, a: Core)
    requires Parked(mo, a) && a.spIsPsp && o.WellFormed() && o.psp == FrameBase(a)
    ensures Restores(o, mo, a) && LeftMsp(o, mo, a) == o.msp
  {
    ExcReturnBits(a);
    LeaveRestores(a, o, mo);
  }

  lemma LeaveKeepsForm(c: Core, m: Ram, exc: u32)
    requires CanLeave(c, m, exc)
    ensures Leave(c, m, exc).WellFormed()
  {
    hide Ram.Words, XpsrFlags, BuildXpsr, Add32;
    ReturnControlRange(c.control, exc);
  }

  /** A core whose active and only stack is the main one, at `sp`. */
  function OnMain(sp: u32, msp: u32, thread: bool, ipsr: nat): (c: Core) {
    ResetCore().(r := ResetCore().r[SP := sp], msp := msp, thread := thread, ipsr := ipsr)
  }

  /** The closed case: a thread with SP 0x100 is preempted, its handler pushes one word and is
      interrupted in turn.  The nested return goes through, and the thread does not come back. */
  lemma OneWordBreaksOuter() returns (a: Core, m: Ram, h: Core, n: Core, mn: Ram)
    ensures a == OnMain(0x100, 0, true, 0) && h == OnMain(0xDC, 0xE0, false, 11) && FrameBase(a) == h.msp
    ensures CanStep(h, m, Take(12, 0)) && (n, mn) == Enter(h, m, 12, 0)
    ensures Parked(m, a) && Parked(mn, a) && CanLeave(n, mn, ExcReturn(h))
    ensures !Restores(Leave(n, mn, ExcReturn(h)), mn, a)
  {
    hide Ram.WriteWords, Ram.Words, BuildXpsr, XpsrFlags, XpsrItstate, Restores, SameThread;
    a, h := OnMain(0x100, 0, true, 0), OnMain(0xDC, 0xE0, false, 11);
    var m0 := Ram(0, seq(0x100, i => 0));
    assert FrameBase(a) == 0xE0 && FrameBase(h) == 0xBC && FrameWords(a) == FrameWords(h) == 8;
    EnterParks(a, m0, 11, 0);
    m := Enter(a, m0, 11, 0).1;
    StepKeepsParked(a, h, m, Take(12, 0));
    n, mn := Enter(h, m, 12, 0).0, Enter(h, m, 12, 0).1;
    HandlerExcBits(h);
    NestedEntryMovesMsp(a, h, m, 12, 0, n, mn);
  }

  lemma HandlerExcBits(h: Core)
    requires !h.thread
    ensures var exc := ExcReturn(h);
            !OnPsp(exc) && !ToThread(exc) && (Extended(exc) <==> h.Fpca()) && ReturnWords(exc) == FrameWords(h)
  {
  }

  lemma UnstackSp(c: Core, exc: u32, ws: seq<u32>)
    requires c.WellFormed() && |ws| == ReturnWords(exc) && !OnPsp(exc) && !ToThread(exc)
    ensures var e := Unstack(c, exc, ws);
            e.r[SP] == e.msp == Add32(c.msp, 4 * ReturnWords(exc))
  {
  }

  lemma RankZero(mask: Mask)
    ensures Rank(mask, 0) == 0
  {
  }

  lemma RankNext(mask: Mask, i: nat)
    requires i < 16
    ensures Rank(mask, i + 1) == Rank(mask, i) + if mask[i] then 1 else 0
  {
  }

  lemma WriteNoWords(m: Ram, a: int)
    requires m.Holds(a, 0)
    ensures m.WriteWords(a, []) == m
  {
  }

  lemma WriteWordsNext(m: Ram, a: int, ws: seq<u32>)
    requires ws != [] && m.Holds(a, 4 * |ws|)
    ensures m.WriteWords(a, ws) == m.Write32(a, ws[0]).WriteWords(a + 4, ws[1..])
  {
    hide Ram.Write32, Ram.Read32;
  }

  // ---- the core in place ---------------------------------------------------------------

  class Cpu {
    const ram: RamRegion
    var r: seq<u32>
    var s: seq<u32>
    var pc: u32
    var flags: Flags
    var thread: bool
    var control: nat
    var ipsr: nat
    var msp: u32
    var psp: u32
    var spIsPsp: bool
    var itstate: nat
    var fpscr: u32

    ghost predicate Valid()
      reads this
    {
      Value().WellFormed()
    }

    ghost function Value(): (r: Core)
      reads this
    {
      Core(r, pc, flags, thread, control, ipsr, msp, psp, spIsPsp, itstate, s, fpscr)
    }

    ghost function Mem(): (r: Ram)
      reads ram
    {
      ram.Value()
    }

    constructor (ram: RamRegion)
      ensures Valid() && this.ram == ram
      ensures Value() == ResetCore()
    {
      this.ram := ram;
      r, s := seq(16, i => 0), seq(32, i => 0);
      pc, flags, thread, control, ipsr := 0, Flags(false, false, false, false, false), true, 0, 0;
      msp, psp, spIsPsp, itstate, fpscr := 0, 0, false, 0, 0;
    }

    method ExceptionEntry(vecnum: nat, target: u32)
      requires Valid() && vecnum < 512
      requires Mem().Holds(FrameBase(Value()), 4 * FrameWords(Value()))
      modifies this, ram
      ensures Valid() && (Value(), Mem()) == Enter(old(Value()), old(Mem()), vecnum, target)
    {
      hide Ram.WriteWords, BuildXpsr, Add32;
      var fpca := control / 4 % 2 == 1;
      var base: u32 := Add32(r[SP], -4 * if fpca then 26 else 8);
      var words := [r[0], r[1], r[2], r[3], r[12], r[LR], pc, BuildXpsr(flags, itstate, ipsr)]
                     + if fpca then s[..16] + [fpscr, 0] else [];
      assert words == Frame(Value());
      StackWords(base, words);
      StartHandler(base, vecnum, target);
    }

    /** The register half of an entry: EXC_RETURN, the switch to the main stack, the vector. */
    method StartHandler(base: u32, vecnum: nat, target: u32)
      requires |r| == 16
      modifies this
      ensures var c := old(Value());
              Value() == c.(r := c.r[SP := if c.spIsPsp then c.msp else base][LR := ExcReturn(c)],
                            pc := EvenPc(target), thread := false, ipsr := vecnum, itstate := 0, spIsPsp := false,
                            msp := if c.spIsPsp then c.msp else base, psp := if c.spIsPsp then base else c.psp)
    {
      hide EvenPc;
      var fpca := control / 4 % 2 == 1;
      var exc := (if !thread then 0xFFFF_FFF1 else if spIsPsp then 0xFFFF_FFFD else 0xFFFF_FFF9) - Bit(fpca, 0x10);
      var sp := if spIsPsp then msp else base;
      if spIsPsp {
        psp := base;
        spIsPsp := false;
      } else {
        msp := base;
      }
      thread, ipsr, itstate := false, vecnum, 0;
      r := r[SP := sp][LR := exc];
      pc := EvenPc(target);
    }

    method StackWords(start: int, ws: seq<u32>)
      requires Mem().Holds(start, 4 * |ws|)
      modifies ram
      ensures Mem() == old(Mem()).WriteWords(start, ws)
      ensures unchanged(this)
    {
      hide Ram.Write32, Ram.Read32;
      var a := start;
      for i := 0 to |ws|
        invariant a == start + 4 * i && Mem().Holds(a, 4 * (|ws| - i))
        invariant Mem().WriteWords(a, ws[i..]) == old(Mem()).WriteWords(start, ws)
      {
        assert ws[i..][1..] == ws[i + 1..];
        ram.Write32(a, ws[i]);
        a := a + 4;
      }
    }

    method ExceptionReturn(exc: u32)
      requires Valid() && CanLeave(Value(), Mem(), exc)
      modifies this
      ensures Valid() && Value() == Leave(old(Value()), Mem(), exc)
    {
      hide Ram.Words, Unstack, ReturnControl;
      ReturnControlRange(control, exc);
      var base := if OnPsp(exc) then psp else msp;
      var ws := ReadWords(base, ReturnWords(exc));
      Restore(exc, ws);
    }

    method Restore(exc: u32, ws: seq<u32>)
      requires Valid() && |ws| == ReturnWords(exc)
      modifies this
      ensures Valid() && Value() == Unstack(old(Value()), exc, ws)
    {
      hide XpsrFlags, XpsrItstate, OnPsp, ToThread, ReturnControl, EvenPc, Add32, UnstackRegs;
      ReturnControlRange(control, exc);
      RestoreFp(exc, ws);
      RestoreStacks(exc);
      pc, flags, itstate, ipsr := EvenPc(ws[6]), XpsrFlags(ws[7]), XpsrItstate(ws[7]), ws[7] % 0x200;
      r := UnstackRegs(r, ws, if spIsPsp then psp else msp);
    }

    /** The stack the frame was on is popped; EXC_RETURN says which one is active again. */
    method RestoreStacks(exc: u32)
      requires control < 8
      modifies this`msp, this`psp, this`thread, this`control, this`spIsPsp
      ensures control == ReturnControl(old(control), exc) && thread == ToThread(exc)
      ensures spIsPsp == (thread && control / 2 % 2 == 1)
      ensures var sp := Add32(if OnPsp(exc) then old(psp) else old(msp), 4 * ReturnWords(exc));
              if OnPsp(exc) then psp == sp && msp == old(msp) else msp == sp && psp == old(psp)
    {
      hide OnPsp, ToThread, ReturnControl, Add32;
      var sp := Add32(if OnPsp(exc) then psp else msp, 4 * ReturnWords(exc));
      thread, control := ToThread(exc), ReturnControl(control, exc);
      if OnPsp(exc) {
        psp := sp;
      } else {
        msp := sp;
      }
      spIsPsp := thread && control / 2 % 2 == 1;
    }

    method RestoreFp(exc: u32, ws: seq<u32>)
      requires |s| == 32 && |ws| == ReturnWords(exc)
      modifies this`s, this`fpscr
      ensures s == if Extended(exc) then ws[8..24] + old(s)[16..] else old(s)
      ensures fpscr == if Extended(exc) then ws[24] else old(fpscr)
    {
      if Extended(exc) {
        s := ws[8..24] + s[16..];
        fpscr := ws[24];
      }
    }

    method ReadWords(a: int, n: nat) returns (ws: seq<u32>)
      requires Mem().Holds(a, 4 * n)
      ensures ws == Mem().Words(a, n)
    {
      hide Ram.Read32;
      ws := [];
      for i := 0 to n
        invariant |ws| == i && forall k :: 0 <= k < i ==> ws[k] == Mem().Read32(a + 4 * k)
      {
        var w := ram.Read32(a + 4 * i);
        ws := ws + [w];
      }
    }

    method MsrControl(v: u32)
      requires Valid()
      modifies this
      ensures Valid() && Value() == SetControl(old(Value()), v)
    {
      var wasPsp := spIsPsp;
      control := v % 8;
      var nowPsp := thread && control / 2 % 2 == 1;
      if wasPsp != nowPsp {
        if wasPsp {
          psp := r[SP];
        } else {
          msp := r[SP];
        }
        r := r[SP := if nowPsp then psp else msp];
        spIsPsp := nowPsp;
      }
    }

    method MsrMsp(v: u32)
      requires Valid()
      modifies this
      ensures Valid() && Value() == WriteMsp(old(Value()), v)
    {
      msp := v;
      if !spIsPsp {
        r := r[SP := v];
      }
    }

    method MsrPsp(v: u32)
      requires Valid()
      modifies this
      ensures Valid() && Value() == WritePsp(old(Value()), v)
    {
      psp := v;
      if spIsPsp {
        r := r[SP := v];
      }
    }

    /** Register by register, ascending, upwards from `base`. */
    method StoreListed(base: int, mask: Mask)
      requires |r| == 16 && Mem().Holds(base, 4 * Count(mask))
      modifies ram
      ensures Mem() == old(Mem()).WriteWords(base, Listed(r, mask, 16))
      ensures unchanged(this)
    {
      hide Ram.Write32, Ram.Read32, Ram.WriteWords, Listed, Rank;
      ghost var ws := Listed(r, mask, 16);
      var addr := base;
      RankZero(mask);
      assert ws[0..] == ws;
      for i := 0 to 16
        invariant addr == base + 4 * Rank(mask, i) && Rank(mask, i) <= |ws|
        invariant Mem().Holds(addr, 4 * (|ws| - Rank(mask, i)))
        invariant Mem().WriteWords(addr, ws[Rank(mask, i)..]) == old(Mem()).WriteWords(base, ws)
        invariant unchanged(this)
      {
        RankNext(mask, i);
        RankStep(mask, i, 16);
        if mask[i] {
          ListedAt(r, mask, i, 16);
          WriteWordsNext(Mem(), addr, ws[Rank(mask, i)..]);
          assert ws[Rank(mask, i)..][1..] == ws[Rank(mask, i) + 1..];
          ram.Write32(addr, r[i]);
          addr := addr + 4;
        }
      }
      WriteNoWords(Mem(), addr);
    }

    method StmdbSp(mask: Mask)
      requires Valid() && CanPush(Value(), Mem(), mask)
      modifies this, ram
      ensures Valid() && (Value(), Mem()) == Push(old(Value()), old(Mem()), mask)
    {
      hide Ram.WriteWords, Add32, Listed;
      var base := Add32(r[SP], -(4 * Count(mask)));
      StoreListed(base, mask);
      r := r[SP := base];
    }

    method LdmiaSp(mask: Mask)
      requires Valid() && CanPop(Value(), Mem(), mask)
      modifies this
      ensures Valid() && Value() == Pop(old(Value()), Mem(), mask)
    {
      hide Add32, Leave, CanLeave, Ram.Read32;
      var base := r[SP];
      var loaded := LoadListed(base, mask);
      var pcVal := PoppedPcAt(base, mask);
      r := loaded[SP := Add32(base, 4 * Count(mask))];
      if IsExcReturn(pcVal) {
        ExceptionReturn(pcVal);
      } else {
        pc := EvenPc(pcVal);
      }
    }

    method LoadListed(base: int, mask: Mask) returns (r': seq<u32>)
      requires |r| == 16 && Mem().Holds(base, 4 * Count(mask))
      ensures r' == Unlist(r, mask, Mem().Words(base, Count(mask)))
    {
      hide Ram.Read32;
      r' := r;
      var addr := base;
      for i := 0 to 15
        invariant |r'| == 16 && addr == base + 4 * Rank(mask, i)
        invariant forall k :: 0 <= k < i ==>
                    r'[k] == if mask[k]
                               then (RankStep(mask, k, 16); Mem().Words(base, Count(mask))[Rank(mask, k)])
                               else r[k]
        invariant forall k :: i <= k < 16 ==> r'[k] == r[k]
      {
        if mask[i] {
          RankStep(mask, i, 16);
          var w := ram.Read32(addr);
          r' := r'[i := w];
          addr := addr + 4;
        }
      }
    }

    method PoppedPcAt(base: int, mask: Mask) returns (v: u32)
      requires mask[15] && Mem().Holds(base, 4 * Count(mask))
      ensures Rank(mask, 15) < Count(mask)
      ensures v == Mem().Words(base, Count(mask))[Rank(mask, 15)]
    {
      RankStep(mask, 15, 16);
      v := ram.Read32(base + 4 * Rank(mask, 15));
    }
  }
}
