/** Time across the two cores.  A coupled core's SysTick is frozen and moves only on credit
    that the other core's progress earned (src/cpu.rs, the WFI arm and maybe_tick; src/gdb.rs,
    endoscope_credit and the two coupling blocks); the ARMv7-M ARM (DDI 0403), B3.3, is the
    reference for SysTick itself. */
module Clock {
  import opened Arithmetic

  const CREDIT_CAP: nat := 5000
  const TWO32: nat := 0x1_0000_0000

  /** The part of a core that time is made of. */
  datatype Clk = Clk(
    csr: nat,                // cached SYST_CSR: bit 0 enables, bit 1 arms the interrupt
    rvr: nat,                // cached SYST_RVR
    systick: nat,
    frozen: bool,
    credit: nat,
    ticks: nat,              // underflows so far
    throttle: bool,
    idleSkip: nat,
    wfiIdle: bool)

  /** What executing code does to the clock: a WFI, and the tick after every instruction.
      Once in 256 instructions the tick reads SYST_CSR and SYST_RVR afresh. */
  datatype Op = Wfi(pending: bool) | Tick(cycles: nat, busCsr: nat, busRvr: nat)

  function Min(a: nat, b: nat): (r: nat) {
    if a < b then a else b
  }

  function Refreshed(c: Clk, cycles: nat, busCsr: nat, busRvr: nat): (r: Clk) {
    if cycles % 256 == 0 then c.(csr := busCsr, rvr := if busRvr < 1 then 1 else busRvr) else c
  }

  predicate Enabled(c: Clk) {
    c.csr % 2 == 1
  }

  /** One decrement of a running counter; reaching zero reloads it and counts a tick. */
  function CountDown(c: Clk): (r: Clk) {
    var n := if c.systick == 0 then c.rvr else c.systick;
    if n <= 1 then c.(systick := c.rvr, ticks := c.ticks + 1) else c.(systick := n - 1)
  }

  function MaybeTick(c: Clk, cycles: nat, busCsr: nat, busRvr: nat): (r: Clk) {
    var d := Refreshed(c, cycles, busCsr, busRvr);
    if !Enabled(d) || (d.frozen && d.systick != 1) then d else CountDown(d)
  }

  function WaitForInterrupt(c: Clk, pending: bool): (r: Clk) {
    var d := c.(wfiIdle := c.wfiIdle || !pending);
    if !(d.throttle && d.systick > 1 && !pending) then d
    else if d.credit > 0 then d.(credit := d.credit - 1, systick := 1)
    else if d.frozen then d.(idleSkip := 1)
    else d.(idleSkip := d.systick, systick := 1)
  }

  function Apply(c: Clk, op: Op): (r: Clk) {
    match op
    case Wfi(pending) => WaitForInterrupt(c, pending)
    case Tick(cycles, csr, rvr) => MaybeTick(c, cycles, csr, rvr)
  }

  // ---- the law of the frozen clock ---------------------------------------------------------

  /** Time already counted, plus time owed: unspent credit and a tick that is armed. */
  function Owed(c: Clk): (r: nat) {
    c.ticks + c.credit + if c.systick == 1 then 1 else 0
  }

  /** The one operation that makes time out of nothing: an armed tick whose reload arms the
      next. */
  predicate Rearms(c: Clk, op: Op) {
    && op.Tick?
    && var d := Refreshed(c, op.cycles, op.busCsr, op.busRvr);
       Enabled(d) && d.systick == 1 && d.rvr == 1
  }

  /** While frozen every operation conserves the time owed, exactly unless it re-arms; and
      no operation thaws the clock. */
  lemma FrozenLaw(c: Clk, op: Op)
    requires c.frozen && c.rvr >= 1
    ensures Apply(c, op).frozen && Apply(c, op).rvr >= 1
    ensures Owed(Apply(c, op)) == Owed(c) <==> !Rearms(c, op)
  {
    match op
    case Wfi(pending) =>
    case Tick(cycles, csr, rvr) =>
      var d := Refreshed(c, cycles, csr, rvr);
      assert Owed(d) == Owed(c);
  }

  /** A reload value of at least 2, cached and on the bus, rules the exception out. */
  predicate LongReload(c: Clk, op: Op) {
    c.rvr >= 2 && (op.Tick? ==> op.busRvr >= 2)
  }

  lemma LongReloadNeverRearms(c: Clk, op: Op)
    requires LongReload(c, op)
    ensures !Rearms(c, op) && Apply(c, op).rvr >= 2
  {
  }

  /** The cached registers are what the bus holds, so the refresh that falls on every 256th
      instruction finds nothing new. */
  predicate Settled(c: Clk, busCsr: nat, busRvr: nat) {
    c.csr == busCsr && c.rvr == if busRvr < 1 then 1 else busRvr
  }

  /** Idling on credit: each WFI and the tick after it turn one unit of credit into one tick,
      until the credit is gone; then the clock stands still. */
  function IdleRounds(c: Clk, cycles: nat, busCsr: nat, busRvr: nat, n: nat): (r: Clk)
    decreases n
  {
    if n == 0 then c
    else
      var d := MaybeTick(WaitForInterrupt(c, false), cycles, busCsr, busRvr);
      IdleRounds(d, cycles + 1, busCsr, busRvr, n - 1)
  }

  lemma {:induction false} CreditDrains(c: Clk, cycles: nat, busCsr: nat, busRvr: nat, n: nat)
    requires Settled(c, busCsr, busRvr)
    requires c.frozen && c.throttle && Enabled(c) && c.rvr >= 2 && c.systick >= 2
    ensures var d := IdleRounds(c, cycles, busCsr, busRvr, n);
            && d.ticks == c.ticks + Min(n, c.credit)
            && d.credit == c.credit - Min(n, c.credit)
    decreases n
  {
    if n > 0 {
      var d := MaybeTick(WaitForInterrupt(c, false), cycles, busCsr, busRvr);
      CreditDrains(d, cycles + 1, busCsr, busRvr, n - 1);
    }
  }

  /** `n` instructions of a running clock, from any instruction count. */
  function Running(c: Clk, cycles: nat, busCsr: nat, busRvr: nat, n: nat): (r: Clk)
    decreases n
  {
    if n == 0 then c else Running(MaybeTick(c, cycles, busCsr, busRvr), cycles + 1, busCsr, busRvr, n - 1)
  }

  lemma {:induction false} SettledAfter(c: Clk, cycles: nat, busCsr: nat, busRvr: nat, n: nat, at: nat)
    requires Settled(c, busCsr, busRvr) || (cycles <= at < cycles + n && at % 256 == 0)
    ensures Settled(Running(c, cycles, busCsr, busRvr, n), busCsr, busRvr)
    decreases n
  {
    if n > 0 {
      SettledAfter(MaybeTick(c, cycles, busCsr, busRvr), cycles + 1, busCsr, busRvr, n - 1, at);
    }
  }

  /** A change of SYST_CSR or SYST_RVR is noticed within 256 instructions, and kept. */
  lemma ChangeIsNoticed(c: Clk, cycles: nat, busCsr: nat, busRvr: nat, n: nat)
    requires n >= 256
    ensures Settled(Running(c, cycles, busCsr, busRvr, n), busCsr, busRvr)
  {
    hide Running, Settled;
    SettledAfter(c, cycles, busCsr, busRvr, n, (cycles + 255) / 256 * 256);
  }

  /** Unfrozen, the counter underflows exactly once in every reload period, wherever in the
      period it starts. */
  lemma {:induction false} OneTickAPeriod(c: Clk, cycles: nat, busCsr: nat, busRvr: nat, n: nat)
    requires Settled(c, busCsr, busRvr)
    requires !c.frozen && Enabled(c) && 1 <= c.systick <= c.rvr
    ensures Running(c, cycles, busCsr, busRvr, n).ticks == c.ticks + (n + (c.rvr - c.systick)) / c.rvr
    decreases n
  {
    var past := c.rvr - c.systick;
    if n == 0 {
      Quotient(0, c.rvr, past);
    } else {
      OneTickAPeriod(MaybeTick(c, cycles, busCsr, busRvr), cycles + 1, busCsr, busRvr, n - 1);
      if c.systick == 1 {
        DivStep(1, c.rvr, n - 1);
        assert n + past == 1 * c.rvr + (n - 1);
      }
    }
  }

  // ---- the SP under an accepted request -------------------------------------------------------

  /** The SP's serve loop: the core's clock and the RoT tick count it last saw. */
  datatype Sp = Sp(clk: Clk, prevRot: nat)

  /** Between bursts the loop observes the RoT's tick count.  `freeze` and `couple` are the two
      readings of "an accepted request is in flight and the SP is not halted": the drain of
      the debug link lies between them and may halt the SP. */
  datatype SpStep = Exec(op: Op) | Observe(rotTicks: nat, freeze: bool, couple: bool)

  function SpApply(s: Sp, e: SpStep): (r: Sp) {
    match e
    case Exec(op) => s.(clk := Apply(s.clk, op))
    case Observe(cur, freeze, couple) =>
      var d := if cur > s.prevRot then cur - s.prevRot else 0;
      var credit := if couple then Min(s.clk.credit + Min(d, CREDIT_CAP), CREDIT_CAP) else 0;
      Sp(s.clk.(frozen := freeze, credit := credit), cur)
  }

  function SpRun(s: Sp, es: seq<SpStep>): (r: Sp)
    decreases |es|
  {
    if es == [] then s else SpRun(SpApply(s, es[0]), es[1..])
  }

  /** Within a window every observation keeps the clock frozen, the RoT's count never runs
      back, and the reload value stays at least 2. */
  predicate InWindow(s: Sp, e: SpStep) {
    && s.clk.rvr >= 2
    && match e
       case Exec(op) => s.clk.frozen && LongReload(s.clk, op)
       case Observe(cur, freeze, _) => freeze && cur >= s.prevRot
  }

  /** An observation that the cap does not cut off and that is not uncoupled. */
  predicate Counts(s: Sp, e: SpStep) {
    e.Observe? ==> e.couple && s.clk.credit + (e.rotTicks - s.prevRot) <= CREDIT_CAP
  }

  predicate Window(s: Sp, es: seq<SpStep>)
    decreases |es|
  {
    es == [] || (InWindow(s, es[0]) && Window(SpApply(s, es[0]), es[1..]))
  }

  predicate Uncapped(s: Sp, es: seq<SpStep>)
    decreases |es|
  {
    es == [] || (Counts(s, es[0]) && Uncapped(SpApply(s, es[0]), es[1..]))
  }

  lemma SpStepLaw(s: Sp, e: SpStep)
    requires InWindow(s, e)
    ensures var t := SpApply(s, e);
            && Owed(t.clk) - Owed(s.clk) <= t.prevRot - s.prevRot
            && (Counts(s, e) ==> Owed(t.clk) - Owed(s.clk) == t.prevRot - s.prevRot)
  {
    if e.Exec? {
      FrozenLaw(s.clk, e.op);
      LongReloadNeverRearms(s.clk, e.op);
    }
  }

  /** Over a whole window, however the observations fall among the instructions, the SP's
      time owed grows by at most the RoT ticks observed; by exactly those when no observation
      was capped. */
  lemma {:induction false} WindowLaw(s: Sp, es: seq<SpStep>)
    requires Window(s, es)
    ensures var t := SpRun(s, es);
            && Owed(t.clk) - Owed(s.clk) <= t.prevRot - s.prevRot
            && (Uncapped(s, es) ==> Owed(t.clk) - Owed(s.clk) == t.prevRot - s.prevRot)
    decreases |es|
  {
    hide SpApply, Owed, InWindow, Counts;
    if es != [] {
      SpStepLaw(s, es[0]);
      WindowLaw(SpApply(s, es[0]), es[1..]);
    }
  }

  /** The sprot timeout is paced by the RoT: entering a window without credit, the SP counts at
      most one tick more than the RoT ticks observed. */
  lemma CoupledTicks(s: Sp, es: seq<SpStep>)
    requires s.clk.credit == 0 && Window(s, es)
    ensures var t := SpRun(s, es); t.clk.ticks - s.clk.ticks <= t.prevRot - s.prevRot + 1
  {
    WindowLaw(s, es);
  }

  // ---- endoscope credit --------------------------------------------------------------------------

  /** Whole milliseconds of credit for `delta` cycles, and the remainder carried on. */
  function EndoscopeCredit(acc: nat, delta: nat, divisor: nat, cap: nat): (r: (nat, nat))
    requires divisor > 0
    ensures r.0 <= cap && r.1 < divisor
    ensures r.0 * divisor + r.1 <= acc + delta
  {
    var total := acc + delta;
    assert total / divisor * divisor + total % divisor == total;
    assert Min(total / divisor, cap) * divisor <= total / divisor * divisor by {
      MulMono(Min(total / divisor, cap), total / divisor, divisor);
    }
    (Min(total / divisor, cap), total % divisor)
  }

  lemma MulMono(a: nat, b: nat, k: nat)
    requires a <= b
    ensures a * k <= b * k
  {
  }

  function Sum(ds: seq<nat>): (r: nat)
    decreases |ds|
  {
    if ds == [] then 0 else ds[0] + Sum(ds[1..])
  }

  /** All the credit a list of deltas earns, and the last remainder. */
  function TotalCredit(acc: nat, ds: seq<nat>, divisor: nat, cap: nat): (r: (nat, nat))
    requires divisor > 0
    decreases |ds|
  {
    if ds == [] then (0, acc)
    else
      var c := EndoscopeCredit(acc, ds[0], divisor, cap);
      var rest := TotalCredit(c.1, ds[1..], divisor, cap);
      (c.0 + rest.0, rest.1)
  }

  predicate Capped(acc: nat, ds: seq<nat>, divisor: nat, cap: nat)
    requires divisor > 0
    decreases |ds|
  {
    ds != [] && ((acc + ds[0]) / divisor > cap || Capped((acc + ds[0]) % divisor, ds[1..], divisor, cap))
  }

  lemma DivStep(q: nat, divisor: nat, rest: nat)
    requires divisor > 0
    ensures (q * divisor + rest) / divisor == q + rest / divisor
    ensures (q * divisor + rest) % divisor == rest % divisor
  {
    var a, b := rest / divisor, rest % divisor;
    assert (q + a) * divisor == q * divisor + a * divisor;
    Quotient(q + a, divisor, b);
  }

  /** Long runs accumulate exactly.  However the cycles are cut into iterations the remainder
      is that of the sum, the credit never exceeds the quotient, and it is the quotient exactly
      when no iteration hit the cap. */
  lemma {:induction false} CreditIsExact(acc: nat, ds: seq<nat>, divisor: nat, cap: nat)
    requires divisor > 0 && acc < divisor
    ensures var r := TotalCredit(acc, ds, divisor, cap);
            && r.1 == (acc + Sum(ds)) % divisor
            && r.0 <= (acc + Sum(ds)) / divisor
            && (r.0 == (acc + Sum(ds)) / divisor <==> !Capped(acc, ds, divisor, cap))
    decreases |ds|
  {
    if ds == [] {
      Quotient(0, divisor, acc);
    } else {
      hide TotalCredit, Capped, EndoscopeCredit;
      var q, a, tail := (acc + ds[0]) / divisor, (acc + ds[0]) % divisor, ds[1..];
      CreditIsExact(a, tail, divisor, cap);
      CreditSplits(acc, ds, divisor, cap);
      var more := Sum(tail);
      SumSplits(acc, ds[0], more, divisor);
      Combine(q, cap, TotalCredit(a, tail, divisor, cap).0, (a + more) / divisor, Capped(a, tail, divisor, cap));
    }
  }

  lemma Combine(q: nat, cap: nat, x: nat, y: nat, k: bool)
    requires x <= y && (x == y <==> !k)
    ensures Min(q, cap) + x <= q + y && (Min(q, cap) + x == q + y <==> !(q > cap || k))
  {
  }

  lemma CreditSplits(acc: nat, ds: seq<nat>, divisor: nat, cap: nat)
    requires divisor > 0 && ds != []
    ensures var q, a := (acc + ds[0]) / divisor, (acc + ds[0]) % divisor;
            var rest := TotalCredit(a, ds[1..], divisor, cap);
            && TotalCredit(acc, ds, divisor, cap) == (Min(q, cap) + rest.0, rest.1)
            && Capped(acc, ds, divisor, cap) == (q > cap || Capped(a, ds[1..], divisor, cap))
  {
  }

  lemma SumSplits(acc: nat, d: nat, more: nat, divisor: nat)
    requires divisor > 0
    ensures var q, a := (acc + d) / divisor, (acc + d) % divisor;
            && (acc + (d + more)) / divisor == q + (a + more) / divisor
            && (acc + (d + more)) % divisor == (a + more) % divisor
  {
    var q, a := (acc + d) / divisor, (acc + d) % divisor;
    assert acc + (d + more) == q * divisor + (a + more);
    DivStep(q, divisor, a + more);
  }

  // ---- the RoT under endoscope, across the two threads ------------------------------------------------

  /** The SP thread publishes credit in a 32-bit atomic; the RoT thread swaps it out and
      spends it. */
  datatype Pair = Pair(acc: nat, mailbox: nat, rot: Clk)

  datatype Action = Publish(delta: nat) | Take | RotExec(op: Op)

  function PairApply(p: Pair, a: Action, divisor: nat): (r: Pair)
    requires divisor > 0
  {
    match a
    case Publish(delta) =>
      var c := EndoscopeCredit(p.acc, delta, divisor, CREDIT_CAP);
      p.(acc := c.1, mailbox := (p.mailbox + c.0) % TWO32)
    case Take =>
      var credit := if p.mailbox == 0 then p.rot.credit else Min(p.rot.credit + p.mailbox, CREDIT_CAP);
      p.(mailbox := 0, rot := p.rot.(frozen := true, credit := credit))
    case RotExec(op) => p.(rot := Apply(p.rot, op))
  }

  function PairRun(p: Pair, actions: seq<Action>, divisor: nat): (r: Pair)
    requires divisor > 0
    decreases |actions|
  {
    if actions == [] then p else PairRun(PairApply(p, actions[0], divisor), actions[1..], divisor)
  }

  predicate PairWindow(p: Pair, actions: seq<Action>, divisor: nat)
    requires divisor > 0
    decreases |actions|
  {
    && p.rot.frozen && p.rot.rvr >= 2
    && (actions == [] ||
        ((actions[0].RotExec? ==> LongReload(p.rot, actions[0].op))
         && PairWindow(PairApply(p, actions[0], divisor), actions[1..], divisor)))
  }

  function Cycles(actions: seq<Action>): (r: nat)
    decreases |actions|
  {
    if actions == [] then 0
    else (if actions[0].Publish? then actions[0].delta else 0) + Cycles(actions[1..])
  }

  /** In SP cycles: what the RoT has counted or is owed, and what is still in the mailbox or
      the accumulator. */
  function Account(p: Pair, divisor: nat): (r: nat) {
    (Owed(p.rot) + p.mailbox) * divisor + p.acc
  }

  lemma PairStep(p: Pair, a: Action, divisor: nat)
    requires divisor > 0 && p.rot.frozen && p.rot.rvr >= 2 && (a.RotExec? ==> LongReload(p.rot, a.op))
    ensures Account(PairApply(p, a, divisor), divisor) <= Account(p, divisor) + if a.Publish? then a.delta else 0
  {
    var q := PairApply(p, a, divisor);
    match a
    case Publish(delta) =>
      var c := EndoscopeCredit(p.acc, delta, divisor, CREDIT_CAP);
      MulMono(Owed(q.rot) + q.mailbox, Owed(p.rot) + p.mailbox + c.0, divisor);
      assert (Owed(p.rot) + p.mailbox + c.0) * divisor == (Owed(p.rot) + p.mailbox) * divisor + c.0 * divisor;
    case Take => MulMono(Owed(q.rot) + q.mailbox, Owed(p.rot) + p.mailbox, divisor);
    case RotExec(op) =>
      FrozenLaw(p.rot, op);
      LongReloadNeverRearms(p.rot, op);
  }

  lemma {:induction false} PairLaw(p: Pair, actions: seq<Action>, divisor: nat)
    requires divisor > 0 && PairWindow(p, actions, divisor)
    ensures Account(PairRun(p, actions, divisor), divisor) <= Account(p, divisor) + Cycles(actions)
    decreases |actions|
  {
    hide Account, PairApply, LongReload;
    if actions != [] {
      PairStep(p, actions[0], divisor);
      PairLaw(PairApply(p, actions[0], divisor), actions[1..], divisor);
    }
  }

  /** The RoT's poll timeout follows the SP's progress in every interleaving of the two threads:
      from an empty account the RoT counts at most one tick more than the whole milliseconds
      of SP execution. */
  lemma EndoscopeTicks(p: Pair, actions: seq<Action>, divisor: nat)
    requires divisor > 0 && PairWindow(p, actions, divisor)
    requires p.acc == 0 && p.mailbox == 0 && p.rot.credit == 0
    ensures PairRun(p, actions, divisor).rot.ticks - p.rot.ticks <= Cycles(actions) / divisor + 1
  {
    PairLaw(p, actions, divisor);
    var q := PairRun(p, actions, divisor);
    MulMono(q.rot.ticks, Owed(q.rot) + q.mailbox, divisor);
    MulMono(Owed(p.rot), p.rot.ticks + 1, divisor);
    TicksFromCycles(q.rot.ticks, p.rot.ticks + 1, divisor, Cycles(actions));
  }

  lemma TicksFromCycles(now: nat, before: nat, divisor: nat, cycles: nat)
    requires divisor > 0 && now * divisor <= before * divisor + cycles
    ensures now - before <= cycles / divisor
  {
    if now > before {
      var gain := now - before;
      assert gain * divisor == now * divisor - before * divisor;
      DivStep(gain, divisor, cycles - gain * divisor);
    }
  }

  // ---- the core, updated in place ------------------------------------------------------------------------

  class SysTick {
    var csr: nat
    var rvr: nat
    var systick: nat
    var frozen: bool
    var credit: nat
    var ticks: nat
    var throttle: bool
    var idleSkip: nat
    var wfiIdle: bool

    ghost function Value(): (r: Clk)
      reads this
    {
      Clk(csr, rvr, systick, frozen, credit, ticks, throttle, idleSkip, wfiIdle)
    }

    /** `deliver`: the tick is due as exception 15.  It is counted whether or not it is. */
    method Advance(cycles: nat, busCsr: nat, busRvr: nat, thread: bool, primask: bool) returns (deliver: bool)
      requires rvr >= 1
      modifies this
      ensures Value() == MaybeTick(old(Value()), cycles, busCsr, busRvr)
      ensures deliver <==> ticks > old(ticks) && csr / 2 % 2 == 1 && thread && !primask
    {
      deliver := false;
      if cycles % 256 == 0 {
        csr := busCsr;
        rvr := if busRvr < 1 then 1 else busRvr;
      }
      if csr % 2 == 0 { return; }
      if frozen && systick != 1 { return; }
      if systick == 0 { systick := rvr; }
      systick := systick - 1;
      if systick == 0 {
        systick := rvr;
        ticks := ticks + 1;
        if csr / 2 % 2 == 1 && thread && !primask { deliver := true; }
      }
    }

    method Wfi(pending: bool)
      modifies this
      ensures Value() == WaitForInterrupt(old(Value()), pending)
    {
      if !pending { wfiIdle := true; }
      if throttle && systick > 1 && !pending {
        if credit > 0 {
          credit := credit - 1;
          systick := 1;
        } else if frozen {
          idleSkip := 1;
        } else {
          idleSkip := systick;
          systick := 1;
        }
      }
    }

    /** The serve loop's coupling block. */
    method Observe(prevRot: nat, rotTicks: nat, freeze: bool, couple: bool)
      modifies this
      ensures Sp(Value(), rotTicks) == SpApply(Sp(old(Value()), prevRot), SpStep.Observe(rotTicks, freeze, couple))
    {
      frozen := freeze;
      var d := if rotTicks > prevRot then rotTicks - prevRot else 0;
      if couple {
        var add := Min(d, CREDIT_CAP);
        credit := Min(Min(credit + add, TWO32 - 1), CREDIT_CAP);
      } else {
        credit := 0;
      }
    }
  }
}
