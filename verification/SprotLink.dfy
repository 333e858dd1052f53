/** The two-thread sprot link and its waits inside the guarded block (src/sprot.rs, the PE4 chip-select write of
    src/soc.rs, and the RoT thread's check-then-park in src/gdb.rs).

    `Wires` is the mutex-guarded block.  Each function from `Wires` to `Wires` is one
    critical section of the source; class `LinkCell` performs the same sections in place.
    `Sys` puts an SP thread and a RoT thread around the wires: every step is one critical
    section, one notify, one wake-up, or one expired wait, so a list of actions is an
    interleaving of the two threads. */
module SprotLink {

  type Byte = bv8

  /** The depth of the FLEXCOMM8 receive FIFO in bytes. */
  const FIFO_BYTES: nat := 16
  /** Waits in one stall budget: 2000 ms in steps of 5 ms. */
  const STALL_BUDGET: nat := 400

  datatype Wires = Wires(
    mosi: seq<Byte>,
    miso: seq<Byte>,
    cs: bool,
    rotIrq: bool,
    ssa: bool,
    ssd: bool,
    sotPending: bool,
    requestInFlight: bool,
    spResetPint: bool,
    jtagPint: bool,
    rotLive: bool)

  // ---- critical sections of the SP thread ----------------------------------

  /** TXDR once its waits are over: the byte is dropped when the FIFO is full, and an
      empty reply buffer clocks in a zero. */
  function ClockByte(k: Wires, v: Byte): (r: (Wires, Byte)) {
    (k.(mosi := if |k.mosi| < FIFO_BYTES then k.mosi + [v] else k.mosi,
        miso := if k.miso == [] then [] else k.miso[1..]),
     if k.miso == [] then 0 else k.miso[0])
  }

  function AssertCs(k: Wires): (r: Wires) {
    k.(mosi := if k.rotLive then [] else k.mosi, ssa := true, sotPending := true, cs := true)
  }

  function DeassertCs(k: Wires): (r: Wires) {
    k.(ssd := true, cs := false)
  }

  // ---- critical sections of the RoT thread ---------------------------------

  datatype Frame = Frame(hi: Byte, lo: Byte, sot: bool)

  function PopOr0(q: seq<Byte>): (r: (Byte, seq<Byte>))
    ensures q != [] ==> [r.0] + r.1 == q
    ensures q == [] ==> r == (0, [])
  {
    if q == [] then (0, []) else (q[0], q[1..])
  }

  function ReadFrame(k: Wires): (r: (Wires, Frame)) {
    var (hi, rest) := PopOr0(k.mosi);
    var (lo, rest') := PopOr0(rest);
    (k.(mosi := rest', requestInFlight := true, sotPending := false), Frame(hi, lo, k.sotPending))
  }

  function WriteFrame(k: Wires, hi: Byte, lo: Byte): (r: Wires) {
    k.(miso := k.miso + [hi, lo])
  }

  function ClearLatches(k: Wires, clrSsa: bool, clrSsd: bool): (r: Wires) {
    k.(ssa := k.ssa && !clrSsa, ssd := k.ssd && !clrSsd)
  }

  function EmptyFifos(k: Wires, tx: bool, rx: bool): (r: Wires) {
    k.(miso := if tx then [] else k.miso, mosi := if rx then [] else k.mosi)
  }

  function DriveRotIrq(k: Wires, asserted: bool): (r: Wires) {
    k.(requestInFlight := k.requestInFlight && !asserted, rotIrq := asserted)
  }

  /** What the RoT thread checks, under the guard it then waits on. */
  predicate Quiet(k: Wires) {
    !(k.ssa || k.cs || k.rotIrq || k.requestInFlight || k.spResetPint || k.jtagPint)
  }

  /** The same critical sections on the shared block itself. */
  class LinkCell {
    var mosi: seq<Byte>
    var miso: seq<Byte>
    var cs: bool
    var rotIrq: bool
    var ssa: bool
    var ssd: bool
    var sotPending: bool
    var requestInFlight: bool
    var spResetPint: bool
    var jtagPint: bool
    var rotLive: bool

    ghost function Value(): (r: Wires)
      reads this
    {
      Wires(mosi, miso, cs, rotIrq, ssa, ssd, sotPending, requestInFlight, spResetPint, jtagPint, rotLive)
    }

    constructor ()
      ensures Value() == IdleWires(false)
    {
      mosi, miso, cs, rotIrq, ssa, ssd := [], [], false, false, false, false;
      sotPending, requestInFlight, spResetPint, jtagPint, rotLive := false, false, false, false, false;
    }

    method Txdr(v: Byte) returns (inb: Byte)
      modifies this
      ensures (Value(), inb) == ClockByte(old(Value()), v)
    {
      if |mosi| < FIFO_BYTES {
        mosi := mosi + [v];
      }
      inb := 0;
      if miso != [] {
        inb := miso[0];
        miso := miso[1..];
      }
    }

    /** The PE4 write after the pacing wait: `edge` says whether a parked RoT is woken. */
    method ChipSelect(newCs: bool) returns (edge: bool)
      modifies this
      ensures edge <==> newCs != old(cs)
      ensures Value() == if !edge then old(Value())
                         else if newCs then AssertCs(old(Value())) else DeassertCs(old(Value()))
    {
      edge := newCs != cs;
      if edge {
        if newCs {
          if rotLive {
            mosi := [];
          }
          ssa := true;
          sotPending := true;
        } else {
          ssd := true;
        }
      }
      cs := newCs;
    }

    method FifoRd() returns (f: Frame)
      modifies this
      ensures (Value(), f) == ReadFrame(old(Value()))
    {
      requestInFlight := true;
      var hi, lo := 0, 0;
      if mosi != [] {
        hi := mosi[0];
        mosi := mosi[1..];
      }
      if mosi != [] {
        lo := mosi[0];
        mosi := mosi[1..];
      }
      var sot := false;
      if sotPending {
        sotPending := false;
        sot := true;
      }
      f := Frame(hi, lo, sot);
    }

    method FifoWr(hi: Byte, lo: Byte)
      modifies this
      ensures Value() == WriteFrame(old(Value()), hi, lo)
    {
      miso := miso + [hi];
      miso := miso + [lo];
    }

    method StatWrite(clrSsa: bool, clrSsd: bool)
      modifies this
      ensures Value() == ClearLatches(old(Value()), clrSsa, clrSsd)
    {
      if clrSsa {
        ssa := false;
      }
      if clrSsd {
        ssd := false;
      }
    }

    method FifoCfg(emptyTx: bool, emptyRx: bool)
      modifies this
      ensures Value() == EmptyFifos(old(Value()), emptyTx, emptyRx)
    {
      if emptyTx {
        miso := [];
      }
      if emptyRx {
        mosi := [];
      }
    }

    method Refresh(asserted: bool) returns (changed: bool)
      modifies this
      ensures Value() == DriveRotIrq(old(Value()), asserted)
      ensures changed <==> asserted != old(rotIrq)
    {
      if asserted {
        requestInFlight := false;
      }
      changed := asserted != rotIrq;
      rotIrq := asserted;
    }
  }

  // ---- the two threads ------------------------------------------------------

  /** What the SP thread waits for: the RoT's slave-select acknowledgements before a new
      transfer, a refilled reply before a byte is clocked, room for that byte. */
  datatype Wait = ForAck | ForReply(v: Byte) | ForRoom(w: Byte)

  datatype SpPc = SpRun | SpWait(wait: Wait, budget: nat, asleep: bool) | SpNotify
  datatype RotPc = RotRun | RotNotify | RotParked

  /** What has happened on the wires: `clocked`, `taken` and `frames` since the last
      chip-select assert (bytes the SP clocked, bytes the RoT read, the frames it read
      them in); `strained` when a byte of this window was clocked after an expired wait or
      with rot-irq asserted; `flushed` when the RoT emptied its receive FIFO or read it
      short in this window; `late` when some assert went ahead on an expired wait;
      `queued` and `drained` since the last EMPTYTX. */
  datatype History = History(
    clocked: seq<Byte>,
    taken: seq<Byte>,
    frames: seq<Frame>,
    strained: bool,
    flushed: bool,
    late: bool,
    asserts: nat,
    acks: nat,
    queued: seq<Byte>,
    drained: seq<Byte>)

  datatype Sys = Sys(k: Wires, sp: SpPc, rot: RotPc, h: History)

  datatype Action =
    // the SP thread
    | CsWrite(newCs: bool)
    | StartTxdr(v: Byte)
    | RaiseReset
    | RaiseJtag
    | Evaluate            // holds the mutex: test the wait's condition, sleep or go ahead
    | SpExpire            // a bounded wait ran out
    | WakeRot
    // the RoT thread
    | ReadFifo
    | WriteFifo(hi: Byte, lo: Byte)
    | WriteStat(clrSsa: bool, clrSsd: bool)
    | WriteFifoCfg(emptyTx: bool, emptyRx: bool)
    | DriveIrq(asserted: bool)
    | TakeReset
    | TakeJtag
    | CheckAndPark
    | RotExpire
    | WakeSp

  function IdleWires(rotLive: bool): (r: Wires) {
    Wires([], [], false, false, false, false, false, false, false, false, rotLive)
  }

  function Init(): (r: Sys) {
    Sys(IdleWires(true), SpRun, RotRun, History([], [], [], false, false, false, 0, 0, [], []))
  }

  predicate Blocked(w: Wait, k: Wires) {
    match w
    case ForAck => k.ssa || k.ssd
    case ForReply(_) => k.rotIrq && k.cs && k.miso == []
    case ForRoom(_) => !k.rotIrq && |k.mosi| >= FIFO_BYTES
  }

  predicate Enabled(s: Sys, a: Action) {
    match a
    case CsWrite(_) | StartTxdr(_) | RaiseReset | RaiseJtag => s.sp.SpRun?
    case Evaluate => s.sp.SpWait? && !s.sp.asleep
    case SpExpire => s.sp.SpWait? && s.sp.asleep
    case WakeRot => s.sp.SpNotify?
    case ReadFifo | WriteFifo(_, _) | WriteStat(_, _) | WriteFifoCfg(_, _) | DriveIrq(_)
       | TakeReset | TakeJtag | CheckAndPark => s.rot.RotRun?
    case RotExpire => s.rot.RotParked?
    case WakeSp => s.rot.RotNotify?
  }

  /** An SP wait that ends, by notification or by time, has used one unit of its budget. */
  function Awake(sp: SpPc): (r: SpPc) {
    if sp.SpWait? && sp.asleep then SpWait(sp.wait, if sp.budget > 0 then sp.budget - 1 else 0, false) else sp
  }

  function FinishAssert(s: Sys): (r: Sys) {
    Sys(AssertCs(s.k), SpNotify, s.rot,
        s.h.(clocked := [], taken := [], frames := [], strained := false, flushed := false,
             late := s.h.late || Blocked(ForAck, s.k), asserts := s.h.asserts + 1))
  }

  function FinishTxdr(s: Sys, v: Byte): (r: Sys) {
    Sys(ClockByte(s.k, v).0, SpNotify, s.rot,
        s.h.(clocked := s.h.clocked + [v],
             strained := s.h.strained || s.k.rotIrq || Blocked(ForRoom(v), s.k),
             drained := if s.k.miso == [] then s.h.drained else s.h.drained + [s.k.miso[0]]))
  }

  function WaitForRoom(s: Sys, v: Byte, budget: nat): (r: Sys) {
    if Blocked(ForRoom(v), s.k) && budget > 0 then s.(sp := SpWait(ForRoom(v), budget, true))
    else FinishTxdr(s, v)
  }

  function Eval(s: Sys): (r: Sys)
    requires s.sp.SpWait?
  {
    var budget := s.sp.budget;
    match s.sp.wait
    case ForAck =>
      if Blocked(ForAck, s.k) && budget > 0 then s.(sp := SpWait(ForAck, budget, true)) else FinishAssert(s)
    case ForReply(v) =>
      if Blocked(ForReply(v), s.k) && budget > 0 then s.(sp := SpWait(ForReply(v), budget, true))
      else WaitForRoom(s, v, STALL_BUDGET)
    case ForRoom(v) =>
      WaitForRoom(s, v, budget)
  }

  function Apply(s: Sys, a: Action): (r: Sys)
    requires Enabled(s, a)
  {
    match a
    case CsWrite(newCs) =>
      if newCs == s.k.cs then s
      else if newCs then s.(sp := SpWait(ForAck, STALL_BUDGET, false))
      else s.(k := DeassertCs(s.k), sp := SpNotify)
    case StartTxdr(v) => s.(sp := SpWait(ForReply(v), STALL_BUDGET, false))
    case RaiseReset => s.(k := s.k.(spResetPint := true), sp := SpNotify)
    case RaiseJtag => s.(k := s.k.(jtagPint := true), sp := SpNotify)
    case Evaluate => Eval(s)
    case SpExpire => s.(sp := Awake(s.sp))
    case WakeRot => s.(sp := SpRun, rot := if s.rot.RotParked? then RotRun else s.rot)
    case ReadFifo =>
      var (k', f) := ReadFrame(s.k);
      Sys(k', s.sp, RotNotify,
          s.h.(taken := s.h.taken + [f.hi, f.lo], frames := s.h.frames + [f],
               flushed := s.h.flushed || |s.k.mosi| < 2))
    case WriteFifo(hi, lo) =>
      Sys(WriteFrame(s.k, hi, lo), s.sp, RotNotify, s.h.(queued := s.h.queued + [hi, lo]))
    case WriteStat(clrSsa, clrSsd) =>
      Sys(ClearLatches(s.k, clrSsa, clrSsd), s.sp, RotNotify,
          s.h.(acks := if clrSsa && s.k.ssa then s.h.acks + 1 else s.h.acks))
    case WriteFifoCfg(tx, rx) =>
      Sys(EmptyFifos(s.k, tx, rx), s.sp, RotNotify,
          s.h.(flushed := s.h.flushed || rx,
               queued := if tx then [] else s.h.queued, drained := if tx then [] else s.h.drained))
    case DriveIrq(asserted) =>
      s.(k := DriveRotIrq(s.k, asserted), rot := if asserted != s.k.rotIrq then RotNotify else RotRun)
    case TakeReset => s.(k := s.k.(spResetPint := false))
    case TakeJtag => s.(k := s.k.(jtagPint := false))
    case CheckAndPark => s.(rot := if Quiet(s.k) then RotParked else RotRun)
    case RotExpire => s.(rot := RotRun)
    case WakeSp => s.(sp := Awake(s.sp), rot := RotRun)
  }

  /** The states a list of actions passes through, disabled actions being refused. */
  ghost predicate Run(s: Sys, acts: seq<Action>, t: Sys)
    decreases |acts|
  {
    if acts == [] then s == t
    else Enabled(s, acts[0]) && Run(Apply(s, acts[0]), acts[1..], t)
  }

  ghost predicate Reachable(s: Sys) {
    exists acts :: Run(Init(), acts, s)
  }

  // ---- invariants ------------------------------------------------------------

  function Head(q: seq<Byte>): (r: seq<Byte>) {
    if |q| <= FIFO_BYTES then q else q[..FIFO_BYTES]
  }

  /** Frames carry their bytes in pairs, and only the first of a window is marked. */
  ghost predicate PairedFrames(frames: seq<Frame>, bytes: seq<Byte>) {
    && |bytes| == 2 * |frames|
    && forall i :: 0 <= i < |frames| ==> frames[i] == Frame(bytes[2 * i], bytes[2 * i + 1], i == 0)
  }

  predicate SameStart(a: seq<Byte>, b: seq<Byte>) {
    |a| >= 2 && |b| >= 2 && a[0] == b[0] && a[1] == b[1]
  }

  ghost predicate WindowInv(k: Wires, h: History) {
    && (k.sotPending <==> h.frames == [])
    && PairedFrames(h.frames, h.taken)
    && (h.taken == [] ==> k.mosi == Head(h.clocked))
    && (h.taken != [] ==> SameStart(h.taken, h.clocked))
    && (!h.strained ==> h.taken + k.mosi == h.clocked)
  }

  ghost predicate FifoInv(k: Wires, h: History) {
    && |k.mosi| <= FIFO_BYTES
    && k.rotLive
    && (h.asserts > 0 && !h.flushed ==> WindowInv(k, h))
    && h.drained + k.miso == h.queued
  }

  ghost predicate LatchInv(k: Wires, h: History) {
    !h.late ==> h.asserts == h.acks + if k.ssa then 1 else 0
  }

  /** A thread is asleep only while its condition stands or a notify is still to come. */
  ghost predicate WakeInv(s: Sys) {
    && (s.rot.RotParked? && !Quiet(s.k) ==> s.sp.SpNotify?)
    && (s.rot.RotParked? ==> !s.k.rotIrq && !s.k.requestInFlight)
    && (s.sp.SpWait? && s.sp.asleep && !Blocked(s.sp.wait, s.k) ==> s.rot.RotNotify?)
  }

  ghost predicate Inv(s: Sys) {
    FifoInv(s.k, s.h) && LatchInv(s.k, s.h) && WakeInv(s)
  }

  lemma PairedAppend(frames: seq<Frame>, bytes: seq<Byte>, hi: Byte, lo: Byte)
    requires PairedFrames(frames, bytes)
    ensures PairedFrames(frames + [Frame(hi, lo, frames == [])], bytes + [hi, lo])
  {
    var frames', bytes' := frames + [Frame(hi, lo, frames == [])], bytes + [hi, lo];
    forall i | 0 <= i < |frames'|
      ensures frames'[i] == Frame(bytes'[2 * i], bytes'[2 * i + 1], i == 0)
    {
      if i < |frames| {
        assert frames[i] == Frame(bytes[2 * i], bytes[2 * i + 1], i == 0);
      }
    }
  }

  lemma ReadKeepsWindow(k: Wires, h: History)
    requires WindowInv(k, h) && |k.mosi| >= 2
    ensures var (k', f) := ReadFrame(k);
            WindowInv(k', h.(taken := h.taken + [f.hi, f.lo], frames := h.frames + [f]))
  {
    var (k', f) := ReadFrame(k);
    assert k.mosi == [f.hi, f.lo] + k'.mosi;
    assert (h.taken + [f.hi, f.lo]) + k'.mosi == h.taken + k.mosi;
    PairedAppend(h.frames, h.taken, f.hi, f.lo);
  }

  lemma ClockKeepsWindow(k: Wires, h: History, v: Byte, d: seq<Byte>)
    requires WindowInv(k, h) && |k.mosi| <= FIFO_BYTES
    ensures WindowInv(ClockByte(k, v).0,
                      h.(clocked := h.clocked + [v], drained := d,
                         strained := h.strained || k.rotIrq || Blocked(ForRoom(v), k)))
  {
    if !h.strained && |k.mosi| < FIFO_BYTES {
      assert h.taken + (k.mosi + [v]) == (h.taken + k.mosi) + [v];
    }
  }

  lemma ClockKeepsReply(s: Sys, v: Byte)
    requires s.h.drained + s.k.miso == s.h.queued
    ensures FinishTxdr(s, v).h.drained + FinishTxdr(s, v).k.miso == s.h.queued
  {
    if s.k.miso != [] {
      assert (s.h.drained + [s.k.miso[0]]) + s.k.miso[1..] == s.h.drained + s.k.miso;
    }
  }

  lemma ClockKeepsFifo(s: Sys, v: Byte)
    requires FifoInv(s.k, s.h)
    ensures FifoInv(FinishTxdr(s, v).k, FinishTxdr(s, v).h)
  {
    ClockKeepsReply(s, v);
    if s.h.asserts > 0 && !s.h.flushed {
      ClockKeepsWindow(s.k, s.h, v, FinishTxdr(s, v).h.drained);
    }
  }

  /** Evaluating a wait sleeps, or finishes the assert, or finishes the byte. */
  lemma EvaluateCases(s: Sys) returns (v: Byte)
    requires Enabled(s, Evaluate)
    ensures var t := Apply(s, Evaluate);
            || (t.k == s.k && t.h == s.h)
            || (s.sp.wait.ForAck? && t == FinishAssert(s))
            || (!s.sp.wait.ForAck? && t == FinishTxdr(s, v))
  {
    v := match s.sp.wait case ForAck => 0 case ForReply(x) => x case ForRoom(x) => x;
  }

  lemma ReadKeepsFifo(s: Sys)
    requires FifoInv(s.k, s.h) && Enabled(s, ReadFifo)
    ensures FifoInv(Apply(s, ReadFifo).k, Apply(s, ReadFifo).h)
  {
    var t := Apply(s, ReadFifo);
    if t.h.asserts > 0 && !t.h.flushed {
      ReadKeepsWindow(s.k, s.h);
      var (k', f) := ReadFrame(s.k);
      assert t.k == k' && t.h == s.h.(taken := s.h.taken + [f.hi, f.lo], frames := s.h.frames + [f]);
    }
  }

  lemma EvaluateKeepsFifo(s: Sys)
    requires FifoInv(s.k, s.h) && Enabled(s, Evaluate)
    ensures FifoInv(Apply(s, Evaluate).k, Apply(s, Evaluate).h)
  {
    var v := EvaluateCases(s);
    ClockKeepsFifo(s, v);
    assert FifoInv(FinishAssert(s).k, FinishAssert(s).h);
  }

  lemma WriteKeepsFifo(s: Sys, a: Action)
    requires FifoInv(s.k, s.h) && Enabled(s, a) && (a.WriteFifo? || a.WriteFifoCfg?)
    ensures FifoInv(Apply(s, a).k, Apply(s, a).h)
  {
    if a.WriteFifo? {
      assert s.h.drained + (s.k.miso + [a.hi, a.lo]) == (s.h.drained + s.k.miso) + [a.hi, a.lo];
    }
  }

  /** The other steps leave both FIFOs and what happened to them alone. */
  lemma OtherKeepsFifo(s: Sys, a: Action)
    requires FifoInv(s.k, s.h) && Enabled(s, a)
    requires !(a.ReadFifo? || a.Evaluate? || a.WriteFifo? || a.WriteFifoCfg?)
    ensures FifoInv(Apply(s, a).k, Apply(s, a).h)
  {
    var t := Apply(s, a);
    assert t.k.mosi == s.k.mosi && t.k.miso == s.k.miso && t.k.sotPending == s.k.sotPending;
    assert t.k.rotLive == s.k.rotLive && t.h == s.h.(acks := t.h.acks);
  }

  lemma StepKeepsFifo(s: Sys, a: Action)
    requires FifoInv(s.k, s.h) && Enabled(s, a)
    ensures FifoInv(Apply(s, a).k, Apply(s, a).h)
  {
    match a
    case ReadFifo => ReadKeepsFifo(s);
    case Evaluate => EvaluateKeepsFifo(s);
    case WriteFifo(_, _) => WriteKeepsFifo(s, a);
    case WriteFifoCfg(_, _) => WriteKeepsFifo(s, a);
    case _ => OtherKeepsFifo(s, a);
  }

  lemma StepKeepsLatch(s: Sys, a: Action)
    requires LatchInv(s.k, s.h) && Enabled(s, a)
    ensures LatchInv(Apply(s, a).k, Apply(s, a).h)
  {
    match a
    case Evaluate => var v := EvaluateCases(s);
    case WriteStat(clrSsa, clrSsd) =>
    case _ =>
      var t := Apply(s, a);
      assert t.k.ssa == s.k.ssa && t.h.late == s.h.late && t.h.asserts == s.h.asserts && t.h.acks == s.h.acks;
  }

  lemma StepKeepsWake(s: Sys, a: Action)
    requires WakeInv(s) && Enabled(s, a)
    ensures WakeInv(Apply(s, a))
  {
  }

  lemma {:induction false} RunKeepsInv(s: Sys, acts: seq<Action>, t: Sys)
    requires Inv(s) && Run(s, acts, t)
    ensures Inv(t)
    decreases |acts|
  {
    if acts != [] {
      StepKeepsFifo(s, acts[0]);
      StepKeepsLatch(s, acts[0]);
      StepKeepsWake(s, acts[0]);
      RunKeepsInv(Apply(s, acts[0]), acts[1..], t);
    }
  }

  lemma ReachableInv(s: Sys)
    requires Reachable(s)
    ensures Inv(s)
  {
    var acts :| Run(Init(), acts, s);
    RunKeepsInv(Init(), acts, s);
  }

  lemma {:induction false} ExtendRun(s: Sys, acts: seq<Action>, t: Sys, a: Action)
    requires Run(s, acts, t) && Enabled(t, a)
    ensures Run(s, acts + [a], Apply(t, a))
    decreases |acts|
  {
    if acts == [] {
      assert [a][1..] == [];
      assert Run(Apply(t, a), [], Apply(t, a));
      assert acts + [a] == [a];
    } else {
      ExtendRun(Apply(s, acts[0]), acts[1..], t, a);
      assert (acts + [a])[1..] == acts[1..] + [a];
    }
  }

  lemma ExtendReachable(s: Sys, a: Action)
    requires Reachable(s) && Enabled(s, a)
    ensures Reachable(Apply(s, a))
  {
    var acts :| Run(Init(), acts, s);
    ExtendRun(Init(), acts, s, a);
  }

  // ---- what every interleaving guarantees --------------------------------------

  /** The receive FIFO never holds more than its depth; and with no expired wait and
      rot-irq low in this chip-select window, nothing the SP clocked in it is lost,
      reordered or doubled: the frames the RoT read are the window's bytes in pairs, only
      the first marked, and the FIFO holds the rest. */
  lemma WindowIsLossless(s: Sys)
    requires Reachable(s)
    ensures |s.k.mosi| <= FIFO_BYTES
    ensures s.h.asserts > 0 && !s.h.flushed && !s.h.strained ==>
              && s.h.taken + s.k.mosi == s.h.clocked
              && PairedFrames(s.h.frames, s.h.taken)
  {
    ReachableInv(s);
  }

  /** Expired waits and rot-irq may lose bytes, but never the start of a window: a marked
      frame is the window's first frame and carries its first two bytes. */
  lemma MarkedFrameStartsWindow(s: Sys, i: nat)
    requires Reachable(s) && s.h.asserts > 0 && !s.h.flushed
    requires i < |s.h.frames|
    ensures s.h.frames[i].sot <==> i == 0
    ensures |s.h.clocked| >= 2 && s.h.frames[0] == Frame(s.h.clocked[0], s.h.clocked[1], true)
  {
    ReachableInv(s);
  }

  /** Reading only on RXNOTEMPTY is exactly what the marked frame needs: the read that
      consumes the mark returns the window's first two bytes if and only if two bytes are
      there to read. */
  lemma MarkedReadExact(s: Sys)
    requires Reachable(s) && s.h.asserts > 0 && !s.h.flushed && s.k.sotPending
    ensures (|s.h.clocked| >= 2 && ReadFrame(s.k).1 == Frame(s.h.clocked[0], s.h.clocked[1], true))
            <==> |s.k.mosi| >= 2
  {
    ReachableInv(s);
  }

  /** With no assert that went ahead on an expired wait, every assert has been
      acknowledged except possibly the last, and SSA says whether it has. */
  lemma AssertsMatchAcks(s: Sys)
    requires Reachable(s) && !s.h.late
    ensures s.h.asserts - s.h.acks == if s.k.ssa then 1 else 0
  {
    ReachableInv(s);
  }

  /** The reply side: what the SP has taken from the wire is a prefix of what the RoT
      queued, and inside a reply a byte is only made up when the stall budget is spent. */
  lemma ReplyIsPrefix(s: Sys)
    requires Reachable(s)
    ensures s.h.drained <= s.h.queued
    ensures Enabled(s, Evaluate) && s.sp.wait.ForReply? && s.k.rotIrq && s.k.cs
            && Apply(s, Evaluate).sp.SpNotify? && s.sp.budget > 0 ==>
              Apply(s, Evaluate).h.drained == s.h.drained + [s.k.miso[0]]
  {
    ReachableInv(s);
  }

  /** No lost wake-up in either direction: a parked RoT that owes work has an SP notify
      still to come, and an SP asleep on a condition that no longer holds has a RoT notify
      still to come. */
  lemma NoLostWakeup(s: Sys)
    requires Reachable(s)
    ensures s.rot.RotParked? && (s.k.ssa || s.k.cs || s.k.spResetPint || s.k.jtagPint) ==> s.sp.SpNotify?
    ensures s.sp.SpWait? && s.sp.asleep && !Blocked(s.sp.wait, s.k) ==> s.rot.RotNotify?
  {
    ReachableInv(s);
  }

  /** Both threads asleep at once, each left to its timer. */
  predicate BothAsleep(s: Sys) {
    s.rot.RotParked? && s.sp.SpWait? && s.sp.asleep
  }

  /** Inside a transfer the threads never sleep on each other.  They can outside one:
      the park test does not look at SSD, nor at bytes clocked with no chip select. */
  lemma BothAsleepOnlyBetweenTransfers(s: Sys)
    requires Reachable(s) && BothAsleep(s)
    ensures !s.k.cs && !s.k.ssa && !s.k.rotIrq && !s.k.requestInFlight
    ensures (s.sp.wait.ForAck? && s.k.ssd) || (s.sp.wait.ForRoom? && |s.k.mosi| == FIFO_BYTES)
  {
    ReachableInv(s);
  }

  /** One transfer whose SSA is acknowledged and whose SSD is not. */
  lemma UnackedSsdReachable(s: Sys)
    requires s == Sys(IdleWires(true).(ssd := true, sotPending := true), SpRun, RotRun,
                      Init().h.(asserts := 1, acks := 1))
    ensures Reachable(s)
  {
    assert Run(Init(), [], Init());
    var k, h := IdleWires(true), Init().h.(asserts := 1);
    ExtendReachable(Init(), CsWrite(true));
    ExtendReachable(Sys(k, SpWait(ForAck, STALL_BUDGET, false), RotRun, Init().h), Evaluate);
    var k2 := k.(ssa := true, sotPending := true, cs := true);
    ExtendReachable(Sys(k2, SpNotify, RotRun, h), WakeRot);
    ExtendReachable(Sys(k2, SpRun, RotRun, h), CsWrite(false));
    var k3 := k2.(ssd := true, cs := false);
    ExtendReachable(Sys(k3, SpNotify, RotRun, h), WakeRot);
    ExtendReachable(Sys(k3, SpRun, RotRun, h), WriteStat(true, false));
    ExtendReachable(Sys(s.k, SpRun, RotNotify, s.h), WakeSp);
  }

  /** The park test misses an unacknowledged SSD: both threads can fall asleep on it. */
  lemma BothAsleepReachable()
    ensures exists s :: Reachable(s) && BothAsleep(s) && s.k.ssd
  {
    var s := Sys(IdleWires(true).(ssd := true, sotPending := true), SpRun, RotRun,
                 Init().h.(asserts := 1, acks := 1));
    UnackedSsdReachable(s);
    ExtendReachable(s, CsWrite(true));
    ExtendReachable(s.(sp := SpWait(ForAck, STALL_BUDGET, false)), Evaluate);
    var t := s.(sp := SpWait(ForAck, STALL_BUDGET, true));
    ExtendReachable(t, CheckAndPark);
    assert BothAsleep(t.(rot := RotParked));
  }

  /** Exactly when: once the park test finds the link quiet, an SP that opens a transfer and the
      RoT that goes on to park sleep on each other if and only if SSD is unacknowledged, the
      latch the test leaves out. */
  lemma OpeningSleepsExactly(s: Sys)
    requires Reachable(s) && s.sp.SpRun? && s.rot.RotRun? && Quiet(s.k)
    ensures BothAsleep(RunOn(s, [CsWrite(true), Evaluate, CheckAndPark])) <==> s.k.ssd
  {
    ThreeActions(s, CsWrite(true), Evaluate, CheckAndPark);
  }

  /** And an SP that clocks a byte with no transfer open, if and only if the FIFO is full. */
  lemma ClockingSleepsExactly(s: Sys, v: Byte)
    requires Reachable(s) && s.sp.SpRun? && s.rot.RotRun? && Quiet(s.k)
    ensures BothAsleep(RunOn(s, [StartTxdr(v), Evaluate, CheckAndPark])) <==> |s.k.mosi| == FIFO_BYTES
  {
    ReachableInv(s);
    ThreeActions(s, StartTxdr(v), Evaluate, CheckAndPark);
  }

  /** The state after actions that are taken where they are enabled and skipped elsewhere. */
  function RunOn(s: Sys, acts: seq<Action>): (t: Sys)
    decreases |acts|
  {
    if acts == [] then s else RunOn(if Enabled(s, acts[0]) then Apply(s, acts[0]) else s, acts[1..])
  }

  lemma ThreeActions(s: Sys, a: Action, b: Action, c: Action)
    ensures var s1 := if Enabled(s, a) then Apply(s, a) else s;
            var s2 := if Enabled(s1, b) then Apply(s1, b) else s1;
            RunOn(s, [a, b, c]) == if Enabled(s2, c) then Apply(s2, c) else s2
  {
    hide Apply, Enabled;
    assert [a, b, c][1..] == [b, c] && [b, c][1..] == [c] && [c][1..] == [];
    var s1 := if Enabled(s, a) then Apply(s, a) else s;
    var s2 := if Enabled(s1, b) then Apply(s1, b) else s1;
    var s3 := if Enabled(s2, c) then Apply(s2, c) else s2;
    assert RunOn(s3, []) == s3 && RunOn(s2, [c]) == s3 && RunOn(s1, [b, c]) == s3;
  }

  /** In every reachable state: with the RoT parked, a waiting SP joins it in sleep if and only if
      it waits for an acknowledgement of SSD, or for room in a full FIFO, with budget left. */
  lemma BothAsleepExactly(s: Sys)
    requires Reachable(s) && s.rot.RotParked? && s.sp.SpWait?
    ensures BothAsleep(Settled(s))
            <==> (s.sp.wait.ForAck? && s.k.ssd && (s.sp.asleep || s.sp.budget > 0))
                 || (!s.sp.wait.ForAck? && |s.k.mosi| == FIFO_BYTES
                     && (s.sp.asleep || s.sp.wait.ForReply? || s.sp.budget > 0))
  {
    ReachableInv(s);
  }

  /** The SP's next evaluation of its wait, if it is awake. */
  function Settled(s: Sys): (t: Sys)
    requires s.sp.SpWait?
  {
    if s.sp.asleep then s else Eval(s)
  }
}
