/** The resumable boot-ROM call (src/romapi.rs, rom_dispatch; src/cpu.rs, the trap in step):
    `skboot_authenticate` parks at its trap address for a fixed number of steps, so that
    interrupts run meanwhile, and its state rides on the core. */
module RomCall {
  import opened Memory

  const SETTLE_STEPS: nat := 1024
  const AUTH_TRAP: u32 := 0x0300_0100
  const HASHCRYPT_TRAP: u32 := 0x0300_0104
  const SECURE_TRACKER_VERIFIED: u32 := 0x55AA_CC33
  const SECURE_FALSE: u32 := 0x5AA5_5AA5
  const SKBOOT_SUCCESS: u32 := 0x5AC3_C35A
  const SKBOOT_FAIL: u32 := 0xC35A_C35A

  datatype Call = Idle | Settling(left: nat, ptr: u32, ok: bool)

  /** The registers an exception saves and restores, as far as the call is concerned. */
  datatype Regs = Regs(pc: u32, r0: u32, r1: u32, lr: u32)

  type Words = int -> u32

  datatype Core = Core(regs: Regs, call: Call, mem: Words)

  /** Any verdict on the image at an address, given what memory and flash hold. */
  type Verifier = (Words, u32) -> bool

  function Even(a: u32): (r: u32) {
    a - a % 2
  }

  function Stored(m: Words, a: int, w: u32): (r: Words) {
    x => if x == a then w else m(x)
  }

  function Return(c: Core): (r: Core) {
    c.(regs := c.regs.(pc := Even(c.regs.lr)))
  }

  /** Only the authenticate trap drives the call; any other returns at once. */
  function Dispatch(c: Core, verify: Verifier): (r: Core) {
    if c.regs.pc != AUTH_TRAP then Return(c)
    else
      match c.call
      case Idle => c.(call := Settling(SETTLE_STEPS, c.regs.r1, verify(c.mem, c.regs.r0)))
      case Settling(left, ptr, ok) =>
        if left > 0 then c.(call := Settling(left - 1, ptr, ok))
        else
          var mem := Stored(c.mem, ptr, if ok then SECURE_TRACKER_VERIFIED else SECURE_FALSE);
          Return(c.(call := Idle, mem := mem, regs := c.regs.(r0 := if ok then SKBOOT_SUCCESS else SKBOOT_FAIL)))
  }

  // ---- the core, with exceptions ------------------------------------------------------------

  /** Handlers interrupt the caller and each other; each has a saved context to return to. */
  datatype Sys = Sys(core: Core, saved: seq<Regs>)

  datatype Action =
    | Trap                                    // a step at a trap address
    | Interrupt(handler: u32, excReturn: u32)
    | HandlerStep(regs: Regs, mem: Words)     // any other instruction of a handler
    | ExceptionReturn

  predicate AtTrap(pc: u32) {
    pc == AUTH_TRAP || pc == HASHCRYPT_TRAP
  }

  function Apply(s: Sys, a: Action, verify: Verifier): (r: Sys) {
    match a
    case Trap => if AtTrap(s.core.regs.pc) then s.(core := Dispatch(s.core, verify)) else s
    case Interrupt(handler, excReturn) =>
      Sys(s.core.(regs := s.core.regs.(pc := handler, lr := excReturn)), s.saved + [s.core.regs])
    case HandlerStep(regs, mem) => if s.saved == [] then s else s.(core := s.core.(regs := regs, mem := mem))
    case ExceptionReturn =>
      if s.saved == [] then s
      else Sys(s.core.(regs := s.saved[|s.saved| - 1]), s.saved[..|s.saved| - 1])
  }

  function Run(s: Sys, actions: seq<Action>, verify: Verifier): (r: Sys)
    decreases |actions|
  {
    if actions == [] then s else Run(Apply(s, actions[0], verify), actions[1..], verify)
  }

  /** The one caller is the interrupted thread: handlers go anywhere but into the authenticate
      trap.  They may trap into the other ROM entry. */
  predicate SingleCaller(s: Sys, actions: seq<Action>, verify: Verifier)
    decreases |actions|
  {
    actions == [] ||
      (var t := Apply(s, actions[0], verify);
       (t.saved != [] ==> t.core.regs.pc != AUTH_TRAP) && SingleCaller(t, actions[1..], verify))
  }

  /** Steps at the authenticate trap. */
  function AuthSteps(s: Sys, actions: seq<Action>, verify: Verifier): (r: nat)
    decreases |actions|
  {
    if actions == [] then 0
    else
      (if actions[0].Trap? && s.core.regs.pc == AUTH_TRAP then 1 else 0)
      + AuthSteps(Apply(s, actions[0], verify), actions[1..], verify)
  }

  // ---- the call in flight ------------------------------------------------------------------------

  /** The context the caller will have once every handler has returned. */
  function Caller(s: Sys): (r: Regs) {
    if s.saved == [] then s.core.regs else s.saved[0]
  }

  /** What the call holds after `n` steps at the trap; `ok` is the verdict of the first. */
  function CallAfter(n: nat, ptr: u32, ok: bool): (r: Call) {
    if n == 0 || n > SETTLE_STEPS + 1 then Idle else Settling(SETTLE_STEPS + 1 - n, ptr, ok)
  }

  /** The caller is parked; every handler's own code is elsewhere. */
  ghost predicate InFlight(s: Sys, a: Regs, n: nat, ok: bool) {
    && a.pc == AUTH_TRAP && Caller(s) == a
    && n <= SETTLE_STEPS + 1 && s.core.call == CallAfter(n, a.r1, ok)
    && (s.saved != [] ==> s.core.regs.pc != AUTH_TRAP)
    && forall i :: 0 < i < |s.saved| ==> s.saved[i].pc != AUTH_TRAP
  }

  lemma ActionKeeps(s: Sys, act: Action, verify: Verifier, a: Regs, n: nat, ok: bool)
    requires InFlight(s, a, n, ok)
    requires var t := Apply(s, act, verify); t.saved != [] ==> t.core.regs.pc != AUTH_TRAP
    requires var steps := if act.Trap? && s.core.regs.pc == AUTH_TRAP then 1 else 0; n + steps <= SETTLE_STEPS + 1
    ensures var steps := if act.Trap? && s.core.regs.pc == AUTH_TRAP then 1 else 0;
            InFlight(Apply(s, act, verify), a, n + steps, if n == 0 && steps == 1 then verify(s.core.mem, a.r0) else ok)
  {
  }

  /** However handlers interrupt, nest, trap and return, the call only counts its own steps: its
      verdict and its pointer are those of the first step, and its caller's context is kept. */
  lemma {:induction false} CallRuns(s: Sys, actions: seq<Action>, verify: Verifier, a: Regs, n: nat, ok: bool)
    requires InFlight(s, a, n, ok) && SingleCaller(s, actions, verify)
    requires n + AuthSteps(s, actions, verify) <= SETTLE_STEPS + 1
    requires n > 0 || AuthSteps(s, actions, verify) == 0
    ensures InFlight(Run(s, actions, verify), a, n + AuthSteps(s, actions, verify), ok)
    decreases |actions|
  {
    hide InFlight, Apply;
    if actions != [] {
      var act := actions[0];
      ActionKeeps(s, act, verify, a, n, ok);
      var steps := if act.Trap? && s.core.regs.pc == AUTH_TRAP then 1 else 0;
      CallRuns(Apply(s, act, verify), actions[1..], verify, a, n + steps, ok);
    }
  }

  lemma {:induction false} RunConcat(s: Sys, x: seq<Action>, y: seq<Action>, verify: Verifier)
    ensures Run(s, x + y, verify) == Run(Run(s, x, verify), y, verify)
    ensures AuthSteps(s, x + y, verify) == AuthSteps(s, x, verify) + AuthSteps(Run(s, x, verify), y, verify)
    ensures SingleCaller(s, x + y, verify) ==> SingleCaller(s, x, verify) && SingleCaller(Run(s, x, verify), y, verify)
    decreases |x|
  {
    hide Apply;
    if x == [] {
      assert x + y == y;
    } else {
      assert (x + y)[1..] == x[1..] + y && (x + y)[0] == x[0];
      RunConcat(Apply(s, x[0], verify), x[1..], y, verify);
    }
  }

  /** The whole call.  `before` brings no step at the trap, the next action does, `middle` brings
      exactly SETTLE_STEPS more, and then the caller steps once more: after SETTLE_STEPS + 2
      steps, and not before, it is back at its return address, with the status in r0 and the
      verdict at the pointer it passed; both as of the first step, whatever handlers did in
      between. */
  lemma Authenticate(s: Sys, before: seq<Action>, middle: seq<Action>, verify: Verifier)
    requires s.saved == [] && s.core.regs.pc == AUTH_TRAP && s.core.call == Idle
    requires SingleCaller(s, before + [Trap] + middle, verify)
    requires AuthSteps(s, before, verify) == 0 && Run(s, before, verify).saved == []
    requires AuthSteps(s, before + [Trap] + middle, verify) == SETTLE_STEPS + 1
    requires Run(s, before + [Trap] + middle, verify).saved == []
    ensures var a := s.core.regs;
            var ok := verify(Run(s, before, verify).core.mem, a.r0);
            var parked := Run(s, before + [Trap] + middle, verify);
            var t := Apply(parked, Trap, verify);
            && parked.core.regs == a && parked.core.call == Settling(0, a.r1, ok)
            && t.core.call == Idle && t.saved == []
            && t.core.regs == a.(pc := Even(a.lr), r0 := if ok then SKBOOT_SUCCESS else SKBOOT_FAIL)
            && t.core.mem(a.r1) == (if ok then SECURE_TRACKER_VERIFIED else SECURE_FALSE)
            && forall x: int :: x != a.r1 ==> t.core.mem(x) == parked.core.mem(x)
  {
    var a := s.core.regs;
    RunConcat(s, before + [Trap], middle, verify);
    RunConcat(s, before, [Trap], verify);
    CallRuns(s, before, verify, a, 0, false);
    var s1 := Run(s, before, verify);
    var ok := verify(s1.core.mem, a.r0);
    OneAction(s1, Trap, verify);
    var s2 := Apply(s1, Trap, verify);
    assert InFlight(s2, a, 1, ok);
    CallRuns(s2, middle, verify, a, 1, ok);
  }

  lemma OneAction(s: Sys, act: Action, verify: Verifier)
    ensures Run(s, [act], verify) == Apply(s, act, verify)
    ensures AuthSteps(s, [act], verify) == if act.Trap? && s.core.regs.pc == AUTH_TRAP then 1 else 0
  {
    hide Apply;
    assert [act][1..] == [];
    var t := Apply(s, act, verify);
    assert Run(t, [], verify) == t && AuthSteps(t, [], verify) == 0;
  }

  /** Short of that, at every point of the run, the caller has not returned: it is still parked
      at the trap, or will be once the handlers are done. */
  lemma NotBefore(s: Sys, actions: seq<Action>, verify: Verifier)
    requires s.saved == [] && s.core.regs.pc == AUTH_TRAP && s.core.call == Idle
    requires SingleCaller(s, actions, verify) && AuthSteps(s, actions, verify) <= SETTLE_STEPS + 1
    ensures Caller(Run(s, actions, verify)) == s.core.regs
  {
    StillParked(s, actions, verify, s.core.regs, 0, false);
  }

  lemma {:induction false} StillParked(s: Sys, actions: seq<Action>, verify: Verifier, a: Regs, n: nat, ok: bool)
    requires InFlight(s, a, n, ok) && SingleCaller(s, actions, verify)
    requires n + AuthSteps(s, actions, verify) <= SETTLE_STEPS + 1
    ensures Caller(Run(s, actions, verify)) == a
    decreases |actions|
  {
    if actions != [] {
      hide InFlight, Apply;
      var act := actions[0];
      ActionKeeps(s, act, verify, a, n, ok);
      var steps := if act.Trap? && s.core.regs.pc == AUTH_TRAP then 1 else 0;
      StillParked(Apply(s, act, verify), actions[1..], verify, a, n + steps,
                  if n == 0 && steps == 1 then verify(s.core.mem, a.r0) else ok);
    }
  }

  function Traps(n: nat): (acts: seq<Action>)
    ensures |acts| == n
  {
    seq(n, i => Trap)
  }

  /** A settling call at the trap, whoever is there, counts down. */
  lemma {:induction false} TrapsCount(s: Sys, n: nat, verify: Verifier)
    requires s.core.regs.pc == AUTH_TRAP && s.core.call.Settling? && n <= s.core.call.left
    ensures Run(s, Traps(n), verify)
         == s.(core := s.core.(call := s.core.call.(left := s.core.call.left - n)))
    decreases n
  {
    if n > 0 {
      var t := s.(core := s.core.(call := s.core.call.(left := s.core.call.left - 1)));
      assert Apply(s, Trap, verify) == t;
      assert Traps(n)[0] == Trap && Traps(n)[1..] == Traps(n - 1);
      TrapsCount(t, n - 1, verify);
    }
  }

  /** The thread starts a call and steps `n` times, 1 to SETTLE_STEPS + 1; an interrupt is taken, and
      its handler, having done whatever it did, enters the trap with arguments `second`, and
      steps until it is back. */
  function TwoCallers(n: nat, handler: u32, excReturn: u32, second: Regs, mem: Words): (acts: seq<Action>)
    requires 1 <= n <= SETTLE_STEPS + 1
  {
    Traps(n) + [Interrupt(handler, excReturn), HandlerStep(second, mem)] + Traps(SETTLE_STEPS + 2 - n)
  }

  lemma FirstSteps(s: Sys, n: nat, verify: Verifier)
    requires s.core.regs.pc == AUTH_TRAP && s.core.call == Idle && 1 <= n <= SETTLE_STEPS + 1
    ensures Run(s, Traps(n), verify)
         == s.(core := s.core.(call := Settling(SETTLE_STEPS + 1 - n, s.core.regs.r1,
                                                verify(s.core.mem, s.core.regs.r0))))
  {
    assert Traps(n)[0] == Trap && Traps(n)[1..] == Traps(n - 1);
    var t := Apply(s, Trap, verify);
    assert Run(s, Traps(n), verify) == Run(t, Traps(n - 1), verify);
    TrapsCount(t, n - 1, verify);
  }

  lemma LastSteps(s: Sys, n: nat, verify: Verifier)
    requires s.core.regs.pc == AUTH_TRAP && s.core.call.Settling? && s.core.call.left == n
    ensures Run(s, Traps(n + 1), verify) == Apply(s.(core := s.core.(call := s.core.call.(left := 0))), Trap, verify)
  {
    hide Apply;
    assert Traps(n + 1) == Traps(n) + [Trap];
    RunConcat(s, Traps(n), [Trap], verify);
    TrapsCount(s, n, verify);
    OneAction(Run(s, Traps(n), verify), Trap, verify);
  }

  /** One caller is needed.  A handler that calls the routine while the thread's call is in flight
      does not start a call: its steps finish the thread's.  It is back early, with the verdict
      on the thread's image, written through the thread's pointer; its own image was never
      looked at and its own pointer never written.  The thread is left parked with no call, and
      its next step begins one anew. */
  lemma SecondCallerIsAbsorbed(s: Sys, n: nat, handler: u32, excReturn: u32, second: Regs, mem: Words, verify: Verifier)
    requires s.saved == [] && s.core.regs.pc == AUTH_TRAP && s.core.call == Idle
    requires 1 <= n <= SETTLE_STEPS + 1 && second.pc == AUTH_TRAP
    ensures var a := s.core.regs;
            var ok := verify(s.core.mem, a.r0);
            var t := Run(s, TwoCallers(n, handler, excReturn, second, mem), verify);
            && t.core.regs == second.(pc := Even(second.lr), r0 := if ok then SKBOOT_SUCCESS else SKBOOT_FAIL)
            && t.core.mem(a.r1) == (if ok then SECURE_TRACKER_VERIFIED else SECURE_FALSE)
            && (second.r1 != a.r1 ==> t.core.mem(second.r1) == mem(second.r1))
            && t.saved == [a] && t.core.call == Idle
            && var again := Apply(Apply(t, ExceptionReturn, verify), Trap, verify);
               again.core.call == Settling(SETTLE_STEPS, a.r1, verify(t.core.mem, a.r0))
  {
    hide Run, Traps;
    var a := s.core.regs;
    var ok := verify(s.core.mem, a.r0);
    FirstSteps(s, n, verify);
    var s1 := Run(s, Traps(n), verify);
    var mid := [Interrupt(handler, excReturn), HandlerStep(second, mem)];
    assert mid == [Interrupt(handler, excReturn)] + [HandlerStep(second, mem)];
    RunConcat(s1, [Interrupt(handler, excReturn)], [HandlerStep(second, mem)], verify);
    OneAction(s1, Interrupt(handler, excReturn), verify);
    var s2 := Run(s1, [Interrupt(handler, excReturn)], verify);
    OneAction(s2, HandlerStep(second, mem), verify);
    var s3 := Run(s1, mid, verify);
    assert s3 == Sys(Core(second, Settling(SETTLE_STEPS + 1 - n, a.r1, ok), mem), [a]);
    RunConcat(s, Traps(n), mid, verify);
    LastSteps(s3, SETTLE_STEPS + 1 - n, verify);
    RunConcat(s, Traps(n) + mid, Traps(SETTLE_STEPS + 2 - n), verify);
  }

  // ---- the core, updated in place --------------------------------------------------------------------

  class RomCore {
    var pc: u32
    var r0: u32
    var r1: u32
    var lr: u32
    var romCall: Call
    var mem: Words

    constructor (pc: u32, r0: u32, r1: u32, lr: u32, mem: Words)
      ensures Value() == Core(Regs(pc, r0, r1, lr), Idle, mem)
    {
      this.pc, this.r0, this.r1, this.lr, romCall, this.mem := pc, r0, r1, lr, Idle, mem;
    }

    ghost function Value(): (r: Core)
      reads this
    {
      Core(Regs(pc, r0, r1, lr), romCall, mem)
    }

    method RomDispatch(verify: Verifier)
      requires AtTrap(pc)
      modifies this
      ensures Value() == Dispatch(old(Value()), verify)
    {
      if pc != AUTH_TRAP {
        pc := Even(lr);
        return;
      }
      var taken := romCall;
      romCall := Idle;
      match taken
      case Idle =>
        var ok := verify(mem, r0);
        romCall := Settling(SETTLE_STEPS, r1, ok);
      case Settling(left, ptr, ok) =>
        if left > 0 {
          romCall := Settling(left - 1, ptr, ok);
        } else {
          mem := Stored(mem, ptr, if ok then SECURE_TRACKER_VERIFIED else SECURE_FALSE);
          r0 := if ok then SKBOOT_SUCCESS else SKBOOT_FAIL;
          pc := Even(lr);
        }
    }
  }
}
