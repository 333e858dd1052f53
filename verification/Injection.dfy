/** The RoT's SWD link driving the real debug port: words the RoT clocks out as raw bits land in
    the SP's RAM, and are read back (src/rotswd.rs, src/gdb.rs and src/debugport.rs together). */
module Injection {
  import opened Arithmetic
  import opened Memory
  import DebugPort
  import RotSwd

  type Dp<!S> = DebugPort.Dp<S>
  type Command = DebugPort.Command
  type Req = RotSwd.Req

  /** The debug port as the link's serving side. */
  function Port<S>(t: DebugPort.Target<S>): (exec: RotSwd.Exec<Dp<S>>) {
    (d: Dp<S>, q: Req) => DebugPort.Transfer(d, q.ap, q.rnw, q.a, WordOf(q), t)
  }

  function WordOf(q: Req): (w: u32) {
    if q.wdata < TWO32 then q.wdata else 0
  }

  lemma PortAnswers<S(!new)>(t: DebugPort.Target<S>)
    ensures RotSwd.Answers(Port(t))
  {
    forall d: Dp<S>, q: Req
      ensures Port(t)(d, q).1.Some? <==> q.rnw
    {
      DebugPort.ReadsAnswer(d, q.ap, q.rnw, q.a, WordOf(q), t);
    }
  }

  function ReqOf(c: Command): (q: Req) {
    RotSwd.Req(c.ap, c.rnw, c.a, c.w)
  }

  function Reqs(cs: seq<Command>): (rs: seq<Req>)
    ensures |rs| == |cs|
  {
    seq(|cs|, i requires 0 <= i < |cs| => ReqOf(cs[i]))
  }

  /** Serving requests one after another is running the commands. */
  lemma {:induction false} SequentialIsRun<S>(d: Dp<S>, cs: seq<Command>, t: DebugPort.Target<S>)
    ensures RotSwd.PortAfter(d, Reqs(cs), Port(t)) == DebugPort.Run(d, cs, t).0
    ensures RotSwd.Results(d, Reqs(cs), Port(t)) == DebugPort.Run(d, cs, t).1
    decreases |cs|
  {
    if cs != [] {
      hide DebugPort.Transfer, DebugPort.Run;
      var before, last := cs[..|cs| - 1], cs[|cs| - 1];
      SequentialIsRun(d, before, t);
      assert Reqs(cs)[..|cs| - 1] == Reqs(before) && Reqs(cs)[|cs| - 1] == ReqOf(last);
      assert cs == before + [last];
      DebugPort.RunConcat(d, before, [last], t);
      var e := DebugPort.Run(d, before, t).0;
      DebugPort.OneCommand(e, last, t);
      PortIs(e, last, t);
    }
  }

  lemma PortIs<S>(d: Dp<S>, c: Command, t: DebugPort.Target<S>)
    ensures Port(t)(d, ReqOf(c)) == DebugPort.Transfer(d, c.ap, c.rnw, c.a, c.w, t)
  {
    hide DebugPort.Transfer;
    assert WordOf(ReqOf(c)) == c.w;
  }

  /** What the RoT injects is what it reads back.  In every interleaving with the serve loop, the SP
      halted, once the requests of a block transfer have been issued: the words handed back are,
      after one stale word, a prefix of the block, and all of it when no read is outstanding. */
  lemma InjectedReadsBack<S(!new)>(d: Dp<S>, a: u32, ws: seq<u32>, t: DebugPort.Target<S>,
                                   actions: seq<RotSwd.Action<Dp<S>>>)
    requires ws != [] && DebugPort.WordMode(d.(tar := a), |ws|) && RotSwd.NoBursts(actions)
    requires RotSwd.Run(RotSwd.Fresh(d), actions, Port(t)).issued == Reqs(DebugPort.BlockOps(a, ws))
    ensures var l := RotSwd.Run(RotSwd.Fresh(d), actions, Port(t));
            && l.supplied <= [d.posted] + ws
            && (l.dev.phase != RotSwd.ReadData ==> l.supplied == [d.posted] + ws)
  {
    hide RotSwd.Run, RotSwd.Answers, RotSwd.Results, Port, DebugPort.Run, DebugPort.BlockOps;
    PortAnswers(t);
    RotSwd.HaltedReadsInOrder(d, actions, Port(t));
    SequentialIsRun(d, DebugPort.BlockOps(a, ws), t);
    DebugPort.BlockTransfer(d, a, ws, t);
    ResultsCount(d, Reqs(DebugPort.BlockOps(a, ws)), t);
  }

  lemma {:induction false} ResultsCount<S(!new)>(d: Dp<S>, rs: seq<Req>, t: DebugPort.Target<S>)
    ensures |RotSwd.Results(d, rs, Port(t))| == RotSwd.Reads(rs)
    decreases |rs|
  {
    hide DebugPort.Transfer;
    if rs != [] {
      var before := rs[..|rs| - 1];
      ResultsCount(d, before, t);
      PortAnswers(t);
      assert Port(t)(RotSwd.PortAfter(d, before, Port(t)), rs[|rs| - 1]).1.Some? <==> rs[|rs| - 1].rnw;
    }
  }

  // ---- over raw bits ------------------------------------------------------------------------

  /** One write as clocked: the request's parity bit, the turnaround and data-parity bits, and how
      the 34 bits are cut into frames. */
  datatype Clocked = Clocked(c: Command, reqParity: bool, trn: bool, parity: bool, fs: seq<RotSwd.Frame>)

  ghost predicate WellClocked(w: Clocked) {
    && !w.c.rnw && (w.c.a == 0 || w.c.a == 4 || w.c.a == 8 || w.c.a == 12)
    && (forall f :: f in w.fs ==> f.Ok())
    && RotSwd.WireOf(w.fs) == RotSwd.WriteWire(w.trn, RotSwd.LsbBits(32, w.c.w), w.parity)
  }

  function FramesOf(w: Clocked): (fs: seq<RotSwd.Frame>) {
    [RotSwd.Frame(8, RotSwd.RequestByte(w.c.ap, false, w.c.a, w.reqParity))] + w.fs
  }

  function AllFrames(ws: seq<Clocked>): (fs: seq<RotSwd.Frame>)
    decreases |ws|
  {
    if ws == [] then [] else FramesOf(ws[0]) + AllFrames(ws[1..])
  }

  function Commands(ws: seq<Clocked>): (cs: seq<Command>)
    ensures |cs| == |ws|
  {
    seq(|ws|, i requires 0 <= i < |ws| => ws[i].c)
  }

  lemma {:induction false} FeedConcat(d: RotSwd.Dev, a: seq<RotSwd.Frame>, b: seq<RotSwd.Frame>)
    ensures var x := RotSwd.Feed(d, a);
            var y := RotSwd.Feed(x.0, b);
            RotSwd.Feed(d, a + b) == (y.0, x.1 + y.1)
    decreases |a|
  {
    hide RotSwd.FifoWr;
    if a == [] {
      RotSwd.FeedNothing(d);
      assert a + b == b && [] + RotSwd.Feed(d, b).1 == RotSwd.Feed(d, b).1;
    } else {
      assert (a + b)[0] == a[0] && (a + b)[1..] == a[1..] + b;
      var r := RotSwd.FifoWr(d, a[0]);
      FeedConcat(r.0, a[1..], b);
      var x := RotSwd.Feed(r.0, a[1..]);
      var y := RotSwd.Feed(x.0, b);
      assert RotSwd.Queued(r.1) + (x.1 + y.1) == (RotSwd.Queued(r.1) + x.1) + y.1;
    }
  }

  lemma WordBits(w: u32)
    ensures RotSwd.Lsb(RotSwd.LsbBits(32, w)) == w
  {
    RotSwd.Powers();
    assert Pow2(32) == 0x1_0000_0000 by { TopPower(); }
    RotSwd.LsbOfBits(32, w);
  }

  lemma TopPower()
    ensures Pow2(32) == 0x1_0000_0000
  {
    RotSwd.Powers();
    assert Pow2(28) == 0x1000_0000;
  }

  /** Each write, however clocked, decodes to its request. */
  lemma {:induction false} ClockedDecodes(rx: seq<nat>, ws: seq<Clocked>)
    requires forall i :: 0 <= i < |ws| ==> WellClocked(ws[i])
    ensures var r := RotSwd.Feed(RotSwd.Dev(rx, RotSwd.Idle), AllFrames(ws));
            r.0.phase == RotSwd.Idle && r.1 == Reqs(Commands(ws))
    decreases |ws|
  {
    hide RotSwd.Feed, RotSwd.RequestByte, RotSwd.Lsb, RotSwd.LsbBits, RotSwd.WriteWire, RotSwd.WireOf;
    var d := RotSwd.Dev(rx, RotSwd.Idle);
    if ws == [] {
      RotSwd.FeedNothing(d);
    } else {
      var w := ws[0];
      assert WellClocked(w);
      WordBits(w.c.w);
      RotSwd.WriteDecodes(rx, w.c.ap, w.c.a, w.reqParity, w.fs, w.trn, RotSwd.LsbBits(32, w.c.w), w.parity);
      FeedConcat(d, FramesOf(w), AllFrames(ws[1..]));
      var rx1 := rx + [RotSwd.ACK_OK];
      ClockedDecodes(rx1, ws[1..]);
      assert Reqs(Commands(ws)) == [ReqOf(w.c)] + Reqs(Commands(ws[1..]));
    }
  }

  /** Injection end to end.  The RoT sets TAR and writes the words, each write's bits cut into frames
      in any way, its frames interleaved with polls and with the serve loop in any way, the SP
      halted: once the queue has been served, the SP's RAM holds exactly the words, and nothing
      else of the system has changed. */
  lemma InjectedOverBits<S(!new)>(d: Dp<S>, a: u32, ws: seq<u32>, t: DebugPort.Target<S>,
                                  clocked: seq<Clocked>, actions: seq<RotSwd.Action<Dp<S>>>)
    requires ws != [] && DebugPort.WordMode(d.(tar := a), |ws|) && RotSwd.NoBursts(actions)
    requires forall i :: 0 <= i < |clocked| ==> WellClocked(clocked[i])
    requires Commands(clocked) == WriteBlock(a, ws)
    requires RotSwd.FramesOf(actions) == AllFrames(clocked)
    ensures d.ram.Holds(a, 4 * |ws|)
    ensures var l := RotSwd.Run(RotSwd.Fresh(d), actions, Port(t));
            && l.issued == Reqs(WriteBlock(a, ws))
            && (l.req == [] && l.running.None? ==> l.port.ram == d.ram.WriteWords(a, ws) && l.port.rest == d.rest)
  {
    hide RotSwd.Run, RotSwd.Feed, RotSwd.FramesOf, RotSwd.Answers, AllFrames, WellClocked, Port, DebugPort.Run;
    hide RotSwd.PortAfter, RotSwd.Results, RotSwd.Executed, RotSwd.Answered, WriteBlock, RotSwd.Apply;
    var f := RotSwd.Fresh(d);
    ClockedDecodes([], clocked);
    BlockHasNoReads(a, ws);
    RotSwd.WritesIssue(f, actions, Port(t));
    var l := RotSwd.Run(f, actions, Port(t));
    assert f.issued + Reqs(WriteBlock(a, ws)) == Reqs(WriteBlock(a, ws));
    PortAnswers(t);
    RotSwd.FreshInv(d, Port(t));
    RotSwd.LinkRuns(f, actions, Port(t));
    RotSwd.FreshSequential(d, Port(t));
    RotSwd.StaysSequential(f, d, actions, Port(t));
    SequentialIsRun(d, WriteBlock(a, ws), t);
    WriteBlockRuns(d, a, ws, t);
    if l.req == [] && l.running.None? {
      assert RotSwd.Executed(l.ran) + [] + [] == RotSwd.Executed(l.ran);
    }
  }

  function WriteBlock(a: u32, ws: seq<u32>): (cs: seq<Command>) {
    [DebugPort.Cmd(true, false, DebugPort.SET_TAR, a)] + DebugPort.Writes(ws)
  }

  lemma {:induction false} WritesAreWrites(ws: seq<u32>)
    ensures forall i :: 0 <= i < |ws| ==> DebugPort.Writes(ws)[i] == DebugPort.Cmd(true, false, DebugPort.DRW, ws[i])
  {
    if ws != [] {
      WritesAreWrites(ws[1..]);
    }
  }

  lemma BlockHasNoReads(a: u32, ws: seq<u32>)
    ensures RotSwd.NoReads(Reqs(WriteBlock(a, ws)))
  {
    WritesAreWrites(ws);
  }

  lemma WriteBlockRuns<S>(d: Dp<S>, a: u32, ws: seq<u32>, t: DebugPort.Target<S>)
    requires ws != [] && DebugPort.WordMode(d.(tar := a), |ws|)
    ensures d.ram.Holds(a, 4 * |ws|)
    ensures var r := DebugPort.Run(d, WriteBlock(a, ws), t).0; r.ram == d.ram.WriteWords(a, ws) && r.rest == d.rest
  {
    hide DebugPort.Transfer, DebugPort.Run, Ram.Write32, Ram.Read32;
    DebugPort.SetTar(d, a, t);
    DebugPort.WritesRun(d.(tar := a), ws, t);
    DebugPort.RunConcat(d, [DebugPort.Cmd(true, false, DebugPort.SET_TAR, a)], DebugPort.Writes(ws), t);
  }
}
