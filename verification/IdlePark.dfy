/** The SP thread's idle park (src/gdb.rs, serve: the drain of the debug link, the release of the
    SP's reset, the sampling of rot-irq and the park at the end of the loop) against the RoT
    thread's notifies (src/sprot.rs, LpcGpio::refresh; src/rotswd.rs, fifowr).

    Unlike the waits of the link and the RoT thread's own park, this one does not test under
    the guard it waits on: it drains, takes the release and samples first, each under a guard
    of its own, and waits later.  A notify that falls between wakes nobody. */
module IdlePark {

  /** Where the SP thread is in its loop. */
  datatype SpPc = Burst | Drained | Released | Sampled | Parked

  /** What the park's interrupt test reads.  Line 9 is the one a rot-irq edge pends; a pending
      line counts only while it is enabled, and every reset disables and unpends them all. */
  datatype Irqs = Irqs(
    line9: bool,             // line 9 is enabled
    pend9: bool,             // line 9 is pending
    other: bool)             // some other enabled line, or PendSV, is pending

  datatype Sys = Sys(
    rotIrq: bool,
    requests: nat,           // debug-port transactions queued
    release: bool,           // the SP's reset has been released, and the SP has not seen to it
    seen: bool,              // rot-irq as last sampled
    irqs: Irqs,
    sp: SpPc,
    notify: bool)            // the RoT thread has accessed the link and not notified yet

  datatype Action =
    // the RoT thread: an access to the link, then its notify
    | Gpio(toggle: bool, release: bool)  // one port write: a rot-irq edge, the SP's reset, or both
    | Request
    | Touch                  // a link access that changes nothing the SP thread looks at here
    | Notify
    // the SP thread, in the order of its loop
    | Execute(irqs: Irqs)    // a burst of instructions, which may do anything to the interrupts
    | Drain(irqs: Irqs)      // and so may the transactions it runs
    | TakeRelease
    | Sample
    | Park
    | GoOn                   // the burst did not end in a WFI
    | Expire

  const OFF := Irqs(false, false, false)

  predicate Awake(i: Irqs) {
    i.other || (i.line9 && i.pend9)
  }

  /** An access of the RoT thread, which its notify follows.  A port write that changes neither
      line notifies nobody, and is no action here. */
  predicate IsAccess(a: Action) {
    (a.Gpio? && (a.toggle || a.release)) || a.Request? || a.Touch?
  }

  predicate Enabled(s: Sys, a: Action) {
    match a
    case Gpio(_, _) | Request | Touch => IsAccess(a) && !s.notify
    case Notify => s.notify
    case Execute(_) => s.sp.Burst?
    case Drain(irqs) => s.sp.Burst? && (s.requests == 0 ==> irqs == s.irqs)
    case TakeRelease => s.sp.Drained?
    case Sample => s.sp.Released?
    case Park | GoOn => s.sp.Sampled?
    case Expire => s.sp.Parked?
  }

  function Apply(s: Sys, a: Action): (t: Sys)
    requires Enabled(s, a)
  {
    match a
    case Gpio(toggle, release) =>
      s.(rotIrq := s.rotIrq != toggle, release := s.release || release, notify := true)
    case Request => s.(requests := s.requests + 1, notify := true)
    case Touch => s.(notify := true)
    case Notify => s.(notify := false, sp := if s.sp.Parked? then Burst else s.sp)
    case Execute(irqs) => s.(irqs := irqs)
    case Drain(irqs) => s.(requests := 0, irqs := irqs, sp := Drained)
    case TakeRelease => s.(release := false, irqs := if s.release then OFF else s.irqs, sp := Released)
    case Sample =>
      s.(seen := s.rotIrq, irqs := s.irqs.(pend9 := s.irqs.pend9 || s.rotIrq != s.seen), sp := Sampled)
    case Park => s.(sp := if Awake(s.irqs) then Burst else Parked)
    case GoOn | Expire => s.(sp := Burst)
  }

  predicate CanRun(s: Sys, acts: seq<Action>)
    decreases |acts|
  {
    acts == [] || (Enabled(s, acts[0]) && CanRun(Apply(s, acts[0]), acts[1..]))
  }

  function Run(s: Sys, acts: seq<Action>): (t: Sys)
    requires CanRun(s, acts)
    decreases |acts|
  {
    if acts == [] then s else Run(Apply(s, acts[0]), acts[1..])
  }

  /** Something the SP thread should look at: a queued transaction, a released reset, or a
      rot-irq edge. */
  predicate Owed(s: Sys) {
    s.requests > 0 || s.release || s.rotIrq != s.seen
  }

  /** Parked on something owed with no notify to come: only the timer ends it. */
  predicate Lost(s: Sys) {
    s.sp.Parked? && Owed(s) && !s.notify
  }

  // ---- what the RoT does while the SP is on its way to the park ----------------------------

  predicate RotOnly(acts: seq<Action>) {
    forall i :: 0 <= i < |acts| ==> IsAccess(acts[i]) || acts[i].Notify?
  }

  function Requests(acts: seq<Action>): (n: nat) {
    if acts == [] then 0 else (if acts[0].Request? then 1 else 0) + Requests(acts[1..])
  }

  predicate Releases(acts: seq<Action>) {
    acts != [] && ((acts[0].Gpio? && acts[0].release) || Releases(acts[1..]))
  }

  predicate OddToggles(acts: seq<Action>) {
    acts != [] && ((acts[0].Gpio? && acts[0].toggle) != OddToggles(acts[1..]))
  }

  /** An access made and not notified yet once `acts` are done. */
  predicate Outstanding(before: bool, acts: seq<Action>)
    decreases |acts|
  {
    if acts == [] then before else Outstanding(IsAccess(acts[0]), acts[1..])
  }

  lemma {:induction false} GapRuns(s: Sys, gap: seq<Action>)
    requires CanRun(s, gap) && RotOnly(gap) && !s.sp.Parked?
    ensures Run(s, gap) == s.(rotIrq := s.rotIrq != OddToggles(gap), requests := s.requests + Requests(gap),
                              release := s.release || Releases(gap), notify := Outstanding(s.notify, gap))
    decreases |gap|
  {
    if gap != [] {
      assert IsAccess(gap[0]) || gap[0].Notify?;
      assert RotOnly(gap[1..]) by {
        assert forall i :: 0 <= i < |gap[1..]| ==> gap[1..][i] == gap[i + 1];
      }
      GapRuns(Apply(s, gap[0]), gap[1..]);
    }
  }

  lemma {:induction false} RunConcat(s: Sys, a: seq<Action>, b: seq<Action>)
    requires CanRun(s, a + b)
    ensures CanRun(s, a) && CanRun(Run(s, a), b) && Run(s, a + b) == Run(Run(s, a), b)
    decreases |a|
  {
    hide Apply, Enabled;
    if a == [] {
      assert a + b == b;
    } else {
      assert (a + b)[0] == a[0] && (a + b)[1..] == a[1..] + b;
      RunConcat(Apply(s, a[0]), a[1..], b);
    }
  }

  lemma RunOne(s: Sys, a: Action)
    requires CanRun(s, [a])
    ensures Enabled(s, a) && Run(s, [a]) == Apply(s, a)
  {
    hide Apply, Enabled;
    assert [a][0] == a && [a][1..] == [];
    assert Run(Apply(s, a), []) == Apply(s, a);
  }

  /** What the RoT thread does during one pass of the loop: after the drain, after the release
      is taken, and after the sampling. */
  datatype Gaps = Gaps(drained: seq<Action>, released: seq<Action>, sampled: seq<Action>)

  predicate RotGaps(g: Gaps) {
    RotOnly(g.drained) && RotOnly(g.released) && RotOnly(g.sampled)
  }

  /** One pass of the loop up to the sampling; `irqs` is what the transactions drained leave. */
  function ToSample(irqs: Irqs, g: Gaps): (acts: seq<Action>) {
    [Drain(irqs)] + g.drained + [TakeRelease] + g.released + [Sample]
  }

  /** And on into the park. */
  function Pass(irqs: Irqs, g: Gaps): (acts: seq<Action>) {
    ToSample(irqs, g) + g.sampled + [Park]
  }

  /** rot-irq when it is sampled. */
  predicate LevelSampled(s: Sys, g: Gaps) {
    (s.rotIrq != OddToggles(g.drained)) != OddToggles(g.released)
  }

  /** The interrupts once the release, if there is one, has been taken. */
  function IrqsReleased(s: Sys, irqs: Irqs, g: Gaps): (i: Irqs) {
    if s.release || Releases(g.drained) then OFF else irqs
  }

  lemma SampleRuns(s: Sys, irqs: Irqs, g: Gaps)
    requires CanRun(s, ToSample(irqs, g)) && RotGaps(g)
    ensures s.sp.Burst?
    ensures var i, level := IrqsReleased(s, irqs, g), LevelSampled(s, g);
            Run(s, ToSample(irqs, g))
            == Sys(level, Requests(g.drained) + Requests(g.released), Releases(g.released), level,
                   i.(pend9 := i.pend9 || level != s.seen), Sampled,
                   Outstanding(Outstanding(s.notify, g.drained), g.released))
  {
    hide CanRun, Run, Requests, Releases, OddToggles, Outstanding, RotOnly;
    RunConcat(s, [Drain(irqs)] + g.drained + [TakeRelease] + g.released, [Sample]);
    RunConcat(s, [Drain(irqs)] + g.drained + [TakeRelease], g.released);
    RunConcat(s, [Drain(irqs)] + g.drained, [TakeRelease]);
    RunConcat(s, [Drain(irqs)], g.drained);
    RunOne(s, Drain(irqs));
    var s1 := Run(s, [Drain(irqs)]);
    GapRuns(s1, g.drained);
    var s2 := Run(s1, g.drained);
    RunOne(s2, TakeRelease);
    var s3 := Run(s2, [TakeRelease]);
    GapRuns(s3, g.released);
    RunOne(Run(s3, g.released), Sample);
  }

  /** The pass parks: once the release is taken nothing else is pending, and line 9 is disabled or
      neither pending nor about to be. */
  predicate Parks(s: Sys, irqs: Irqs, g: Gaps) {
    var i := IrqsReleased(s, irqs, g);
    !i.other && (!i.line9 || (!i.pend9 && LevelSampled(s, g) == s.seen))
  }

  /** Exactly when a pass parks the SP on a wake-up it has lost: it parks, and the RoT queued a
      transaction since the drain, released the SP's reset since the last release was taken,
      or changed rot-irq since the sample, and has finished notifying. */
  lemma LostExactly(s: Sys, irqs: Irqs, g: Gaps)
    requires CanRun(s, Pass(irqs, g)) && RotGaps(g)
    ensures Lost(Run(s, Pass(irqs, g))) <==>
              && Parks(s, irqs, g)
              && (Requests(g.drained) + Requests(g.released) + Requests(g.sampled) > 0
                  || Releases(g.released) || Releases(g.sampled) || OddToggles(g.sampled))
              && !Outstanding(Outstanding(Outstanding(s.notify, g.drained), g.released), g.sampled)
  {
    hide CanRun, Run, Requests, Releases, OddToggles, Outstanding, RotOnly, ToSample;
    var acts := ToSample(irqs, g);
    RunConcat(s, acts + g.sampled, [Park]);
    RunConcat(s, acts, g.sampled);
    SampleRuns(s, irqs, g);
    var t := Run(s, acts);
    GapRuns(t, g.sampled);
    RunOne(Run(t, g.sampled), Park);
  }

  // ---- it does happen -----------------------------------------------------------------------

  /** A transaction queued and notified between the drain and the park. */
  const QUIET_REQUEST := [Request, Notify, TakeRelease, Sample, Park]

  lemma StepInto(s: Sys, t: Sys, acts: seq<Action>)
    requires acts == [] ==> s == t
    requires acts != [] ==> Enabled(s, acts[0]) && Apply(s, acts[0]) == t && CanRun(t, acts[1..])
    ensures CanRun(s, acts)
    ensures Run(s, acts) == if acts == [] then s else Run(t, acts[1..])
  {
  }

  lemma RequestThenPark(s: Sys, edge: bool)
    requires s == Sys(edge, 0, false, false, OFF.(line9 := !edge), Drained, false)
    ensures CanRun(s, QUIET_REQUEST) && Lost(Run(s, QUIET_REQUEST))
  {
    var s2 := s.(requests := 1, notify := true);
    var s3 := s.(requests := 1);
    var s4 := s3.(sp := Released);
    var s5 := s4.(sp := Sampled, seen := edge, irqs := s.irqs.(pend9 := edge));
    var s6 := s5.(sp := Parked);
    StepInto(s6, s6, []);
    StepInto(s5, s6, [Park]);
    StepInto(s4, s5, [Sample, Park]);
    StepInto(s3, s4, [TakeRelease, Sample, Park]);
    StepInto(s2, s3, [Notify, TakeRelease, Sample, Park]);
    StepInto(s, s2, QUIET_REQUEST);
  }

  /** From an idle SP with line 9 enabled: a transaction queued and notified right after the
      drain. */
  lemma LostWitness()
    ensures var s := Sys(false, 0, false, false, OFF.(line9 := true), Burst, false);
            var acts := Pass(s.irqs, Gaps([Request, Notify], [], []));
            CanRun(s, acts) && Lost(Run(s, acts))
  {
    var s := Sys(false, 0, false, false, OFF.(line9 := true), Burst, false);
    var acts := Pass(s.irqs, Gaps([Request, Notify], [], []));
    assert acts == [Drain(s.irqs)] + QUIET_REQUEST;
    RequestThenPark(s.(sp := Drained), false);
    hide Lost, CanRun, Run, Awake;
    StepInto(s, s.(sp := Drained), acts);
  }

  /** With line 9 disabled the SP parks even on a rot-irq edge sampled on the way. */
  lemma LostOnAnEdge()
    ensures var s := Sys(false, 0, false, false, OFF, Burst, false);
            var acts := Pass(OFF, Gaps([Gpio(true, false), Notify, Request, Notify], [], []));
            CanRun(s, acts) && Lost(Run(s, acts))
  {
    var s := Sys(false, 0, false, false, OFF, Burst, false);
    var acts := Pass(OFF, Gaps([Gpio(true, false), Notify, Request, Notify], [], []));
    assert acts == [Drain(OFF), Gpio(true, false), Notify] + QUIET_REQUEST;
    var s1 := s.(sp := Drained);
    var s2 := s1.(rotIrq := true, notify := true);
    var s3 := s1.(rotIrq := true);
    RequestThenPark(s3, true);
    hide Lost, CanRun, Run, Awake;
    StepInto(s2, s3, [Notify] + QUIET_REQUEST);
    StepInto(s1, s2, [Gpio(true, false), Notify] + QUIET_REQUEST);
    StepInto(s, s1, acts);
  }

  // ---- what is never lost -------------------------------------------------------------------

  /** Once parked without a loss, the SP thread stays without one: whatever the RoT changes from
      then on, its notify ends the park. */
  lemma {:induction false} ParkedIsWoken(s: Sys, acts: seq<Action>)
    requires !Lost(s) && CanRun(s, acts) && forall i :: 0 <= i < |acts| ==> !acts[i].Park?
    ensures !Lost(Run(s, acts))
    decreases |acts|
  {
    if acts != [] {
      ParkedIsWoken(Apply(s, acts[0]), acts[1..]);
    }
  }

  /** A loss costs at most the timer.  Whatever the burst after it and the RoT do, by the next
      sampling everything owed has been seen to: what is left is what the RoT did during that
      very pass.  An edge that was owed and still stands pends line 9, which keeps the SP from
      parking again exactly when line 9 is enabled or something else is pending. */
  lemma TimerRecovers(s: Sys, burst: Irqs, irqs: Irqs, g: Gaps)
    requires Lost(s) && RotGaps(g) && CanRun(s, [Expire, Execute(burst)] + ToSample(irqs, g))
    ensures var t := Run(s, [Expire, Execute(burst)] + ToSample(irqs, g));
            && t.sp.Sampled?
            && t.requests == Requests(g.drained) + Requests(g.released)
            && t.release == Releases(g.released)
            && t.seen == t.rotIrq
            && (t.rotIrq != s.seen ==>
                  (Apply(t, Park).sp.Burst? <==> var i := IrqsReleased(s, irqs, g); i.line9 || i.other))
  {
    hide CanRun, Run, Requests, Releases, OddToggles, Outstanding, RotOnly, ToSample;
    RunConcat(s, [Expire, Execute(burst)], ToSample(irqs, g));
    assert [Expire, Execute(burst)] == [Expire] + [Execute(burst)];
    RunConcat(s, [Expire], [Execute(burst)]);
    RunOne(s, Expire);
    RunOne(Run(s, [Expire]), Execute(burst));
    SampleRuns(Run(s, [Expire, Execute(burst)]), irqs, g);
  }
}
