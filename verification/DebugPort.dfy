/** The SW-DP and MEM-AP, and the command stream that drives them (src/debugport.rs;
    src/glasgow.rs, process_swd and the serve loop); ARM IHI 0031, chapters B4 and C2.
    Everything behind the port but RAM (the core's debug registers, devices) is any state with
    any reaction to reads and writes. */
module DebugPort {
  import opened Arithmetic
  import opened Memory
  import opened Wrappers
  import Cobs

  type Bytes = seq<u8>

  const DPIDR: u32 := 0x6BA0_2477
  const AP_IDR: u32 := 0x8477_0001
  const CORE_DEBUG: set<int> := {0xE000_ED30, 0xE000_EDF0, 0xE000_EDF4, 0xE000_EDF8, 0xE000_EDFC, 0xE000_ED0C}

  datatype Dp<!S> = Dp(select: u32, ctrl: u32, posted: u32, csw: u32, tar: u32, ram: Ram, rest: S)

  /** How the rest of the system answers: reads may have side effects; `run` is what the core
      does between two passes of the server. */
  datatype Target<!S> = Target(
    read: (S, u32, nat) -> (S, u32),
    write: (S, u32, nat, u32) -> S,
    run: (Ram, S) -> (Ram, S),
    halted: S -> bool)

  // ---- the MEM-AP -------------------------------------------------------------------------

  function AccessSize(csw: u32): (n: nat)
    ensures n == 1 || n == 2 || n == 4
  {
    if csw % 8 == 0 then 1 else if csw % 8 == 1 then 2 else 4
  }

  function AutoInc(tar: u32, csw: u32): (r: u32) {
    if csw / 0x10 % 4 == 1 then Add32(tar, AccessSize(csw)) else tar
  }

  /** Word accesses to the core's debug registers never reach memory. */
  predicate InRam(ram: Ram, a: u32, n: nat) {
    ram.Holds(a, n) && !(n == 4 && a in CORE_DEBUG)
  }

  /** The weight of byte lane `k` in a word. */
  function Lane(k: nat): (w: nat)
    ensures w >= 1
  {
    if k == 0 then 1 else if k == 1 then 0x100 else if k == 2 then 0x1_0000 else 0x100_0000
  }

  /** The lane a narrow access at `tar` uses: bytes have four, halfwords two. */
  function LaneOf(tar: u32, n: nat): (r: nat) {
    if n == 1 then tar % 4 else if n == 2 then 2 * (tar / 2 % 2) else 0
  }

  function RamRead(ram: Ram, a: u32, n: nat): (v: u32)
    requires ram.Holds(a, n) && (n == 1 || n == 2 || n == 4)
    ensures n == 1 ==> v < 0x100
    ensures n == 2 ==> v < 0x1_0000
  {
    if n == 1 then ram.Byte(a) else if n == 2 then ram.Byte(a) + 0x100 * ram.Byte(a + 1) else ram.Read32(a)
  }

  function WithByte(ram: Ram, a: int, b: u8): (m: Ram)
    requires ram.Holds(a, 1)
    ensures m.base == ram.base && |m.data| == |ram.data|
  {
    ram.(data := ram.data[a - ram.base := b])
  }

  function RamWrite(ram: Ram, a: u32, n: nat, v: nat): (m: Ram)
    requires ram.Holds(a, n) && (n == 1 || n == 2 || n == 4) && v < TWO32
    ensures m.base == ram.base && |m.data| == |ram.data|
  {
    if n == 1 then WithByte(ram, a, v % 0x100)
    else if n == 2 then WithByte(WithByte(ram, a, v % 0x100), a + 1, v / 0x100 % 0x100)
    else ram.Write32(a, v)
  }

  function Shifted(v: nat, tar: u32, n: nat): (w: u32)
    requires (n == 1 && v < 0x100) || (n == 2 && v < 0x1_0000) || (n == 4 && v < TWO32)
  {
    v * Lane(LaneOf(tar, n))
  }

  function DrwRead<S>(d: Dp<S>, t: Target<S>): (r: (Dp<S>, u32)) {
    var n := AccessSize(d.csw);
    var tar := AutoInc(d.tar, d.csw);
    if InRam(d.ram, d.tar, n) then (d.(tar := tar), Shifted(RamRead(d.ram, d.tar, n), d.tar, n))
    else
      var r := t.read(d.rest, d.tar, n);
      (d.(tar := tar, rest := r.0), r.1)
  }

  function DrwWrite<S>(d: Dp<S>, w: u32, t: Target<S>): (e: Dp<S>) {
    var n := AccessSize(d.csw);
    var tar := AutoInc(d.tar, d.csw);
    if InRam(d.ram, d.tar, n) then d.(tar := tar, ram := RamWrite(d.ram, d.tar, n, w / Lane(LaneOf(d.tar, n))))
    else d.(tar := tar, rest := t.write(d.rest, d.tar, n, w))
  }

  /** Reads are posted: each returns the word latched by the one before. */
  function ApTransfer<S>(d: Dp<S>, rnw: bool, a: nat, w: u32, t: Target<S>): (r: (Dp<S>, Option<u32>)) {
    var reg := d.select / 0x10 % 16 * 0x10 + a / 4 % 4 * 4;
    if rnw then
      if reg == 0x0C then
        var r := DrwRead(d, t);
        (r.0.(posted := r.1), Some(d.posted))
      else
        var v: u32 := if reg == 0 then d.csw else if reg == 4 then d.tar else if reg == 0xFC then AP_IDR else 0;
        (d.(posted := v), Some(d.posted))
    else if reg == 0 then (d.(csw := w), None)
    else if reg == 4 then (d.(tar := w), None)
    else if reg == 0x0C then (DrwWrite(d, w, t), None)
    else (d, None)
  }

  /** CTRL/STAT echoes each power-up request as its acknowledgement. */
  function CtrlStat(c: u32): (v: u32) {
    var v := if c / 0x1000_0000 % 2 == 1 && c / 0x2000_0000 % 2 == 0 then c + 0x2000_0000 else c;
    if c / 0x4000_0000 % 2 == 1 && c / 0x8000_0000 % 2 == 0 then Add32(v, 0x8000_0000) else v
  }

  /** Power-up: each request bit reads back with its acknowledgement set, and no other bit of
      what was written changes. */
  lemma PowerUpAcknowledged(c: u32)
    ensures var v := CtrlStat(c);
            && (c / 0x1000_0000 % 2 == 1 ==> v / 0x2000_0000 % 2 == 1)
            && (c / 0x4000_0000 % 2 == 1 ==> v / 0x8000_0000 % 2 == 1)
            && v % 0x2000_0000 == c % 0x2000_0000 && v / 0x4000_0000 % 2 == c / 0x4000_0000 % 2
  {
    var low := c % 0x1000_0000;
    var b28, b29, b30, b31 := c / 0x1000_0000 % 2, c / 0x2000_0000 % 2, c / 0x4000_0000 % 2, c / 0x8000_0000;
    assert c == low + 0x1000_0000 * b28 + 0x2000_0000 * b29 + 0x4000_0000 * b30 + 0x8000_0000 * b31;
  }

  function DpTransfer<S>(d: Dp<S>, rnw: bool, a: nat, w: u32): (r: (Dp<S>, Option<u32>)) {
    var reg := a / 4 % 4;
    if rnw then
      var v: u32 := if reg == 0 then DPIDR else if reg == 1 then CtrlStat(d.ctrl) else if reg == 2 then 0 else d.posted;
      (d, Some(v))
    else if reg == 1 then (d.(ctrl := w), None)
    else if reg == 2 then (d.(select := w), None)
    else (d, None)
  }

  function Transfer<S>(d: Dp<S>, ap: bool, rnw: bool, a: nat, w: u32, t: Target<S>): (r: (Dp<S>, Option<u32>)) {
    if ap then ApTransfer(d, rnw, a, w, t) else DpTransfer(d, rnw, a, w)
  }

  /** Exactly the reads answer with data. */
  lemma ReadsAnswer<S>(d: Dp<S>, ap: bool, rnw: bool, a: nat, w: u32, t: Target<S>)
    ensures Transfer(d, ap, rnw, a, w, t).1.Some? <==> rnw
  {
    hide DrwRead, DrwWrite;
  }

  // ---- narrow accesses ---------------------------------------------------------------------------

  /** What a narrow write stored comes back in its own lane, with the other lanes clear. */
  lemma LaneRoundTrip<S>(d: Dp<S>, w: u32, t: Target<S>)
    requires AccessSize(d.csw) < 4 && InRam(d.ram, d.tar, AccessSize(d.csw))
    ensures var n, lane := AccessSize(d.csw), Lane(LaneOf(d.tar, AccessSize(d.csw)));
            var back := DrwRead(DrwWrite(d, w, t).(tar := d.tar), t).1;
            back == w / lane % (if n == 1 then 0x100 else 0x1_0000) * lane
  {
    hide Lane, LaneOf;
    var n, lane := AccessSize(d.csw), Lane(LaneOf(d.tar, AccessSize(d.csw)));
    var v := w / lane;
    if n == 2 { TwoBytes(v); }
  }

  lemma TwoBytes(v: nat)
    ensures v % 0x100 + 0x100 * (v / 0x100 % 0x100) == v % 0x1_0000
  {
    var q := v / 0x100;
    var low := v % 0x100 + 0x100 * (q % 0x100);
    assert v == q / 0x100 * 0x1_0000 + low;
    Quotient(q / 0x100, 0x1_0000, low);
  }

  // ---- block transfer ------------------------------------------------------------------------------

  datatype Command = Cmd(ap: bool, rnw: bool, a: nat, w: u32)

  function Run<S>(d: Dp<S>, cs: seq<Command>, t: Target<S>): (r: (Dp<S>, seq<u32>))
    decreases |cs|
  {
    if cs == [] then (d, [])
    else
      var x := Transfer(d, cs[0].ap, cs[0].rnw, cs[0].a, cs[0].w, t);
      var rest := Run(x.0, cs[1..], t);
      (rest.0, (if x.1.Some? then [x.1.value] else []) + rest.1)
  }

  lemma {:induction false} RunConcat<S>(d: Dp<S>, a: seq<Command>, b: seq<Command>, t: Target<S>)
    ensures var x := Run(d, a, t); var y := Run(x.0, b, t); Run(d, a + b, t) == (y.0, x.1 + y.1)
    decreases |a|
  {
    hide Transfer;
    if a == [] {
      assert a + b == b && [] + Run(d, b, t).1 == Run(d, b, t).1;
    } else {
      assert (a + b)[0] == a[0] && (a + b)[1..] == a[1..] + b;
      var x := Transfer(d, a[0].ap, a[0].rnw, a[0].a, a[0].w, t);
      RunConcat(x.0, a[1..], b, t);
      var out := if x.1.Some? then [x.1.value] else [];
      assert out + (Run(x.0, a[1..], t).1 + Run(Run(x.0, a[1..], t).0, b, t).1)
          == (out + Run(x.0, a[1..], t).1) + Run(Run(x.0, a[1..], t).0, b, t).1;
    }
  }

  const SET_TAR: nat := 4
  const DRW: nat := 12

  function Writes(ws: seq<u32>): (cs: seq<Command>)
    ensures |cs| == |ws|
  {
    if ws == [] then [] else [Cmd(true, false, DRW, ws[0])] + Writes(ws[1..])
  }

  function Reads(n: nat): (cs: seq<Command>)
    ensures |cs| == n
  {
    if n == 0 then [] else [Cmd(true, true, DRW, 0)] + Reads(n - 1)
  }

  /** Word size, single increment, AP bank 0, and `n` words of plain RAM from `tar` on. */
  predicate WordMode<S>(d: Dp<S>, n: nat) {
    && d.select / 0x10 % 16 == 0 && AccessSize(d.csw) == 4 && d.csw / 0x10 % 4 == 1
    && (n > 0 ==> d.ram.Holds(d.tar, 4 * n))
    && d.ram.base + |d.ram.data| <= 0xE000_0000
  }

  lemma {:induction false} WritesRun<S>(d: Dp<S>, ws: seq<u32>, t: Target<S>)
    requires WordMode(d, |ws|)
    ensures d.tar + 4 * |ws| < TWO32 || ws == []
    ensures ws != [] ==> d.ram.Holds(d.tar, 4 * |ws|)
    ensures Run(d, Writes(ws), t)
         == (if ws == [] then d else d.(tar := d.tar + 4 * |ws|, ram := d.ram.WriteWords(d.tar, ws)), [])
    decreases |ws|
  {
    hide Ram.Write32, Ram.Read32, Ram.WriteWords, Transfer;
    if ws != [] {
      var cs := Writes(ws);
      assert cs[1..] == Writes(ws[1..]);
      var e := d.(tar := d.tar + 4, ram := d.ram.Write32(d.tar, ws[0]));
      OneWrite(d, ws, t);
      WritesRun(e, ws[1..], t);
      assert Run(d, cs, t) == Run(e, cs[1..], t) by { RunCons(d, cs, t); }
      WriteWordsUnfold(d.ram, d.tar, ws);
      if ws[1..] == [] {
        WriteNothing(e.ram, e.tar);
      }
    }
  }

  lemma WriteNothing(m: Ram, a: int)
    requires m.Holds(a, 0)
    ensures m.WriteWords(a, []) == m
  {
  }

  lemma WriteWordsUnfold(m: Ram, a: u32, ws: seq<u32>)
    requires ws != [] && m.Holds(a, 4 * |ws|)
    ensures m.WriteWords(a, ws) == m.Write32(a, ws[0]).WriteWords(a + 4, ws[1..])
  {
    hide Ram.Write32, Ram.Read32;
  }

  lemma OneWrite<S>(d: Dp<S>, ws: seq<u32>, t: Target<S>)
    requires ws != [] && WordMode(d, |ws|)
    ensures d.tar + 4 * |ws| < TWO32
    ensures Transfer(d, true, false, DRW, ws[0], t) == (d.(tar := d.tar + 4, ram := d.ram.Write32(d.tar, ws[0])), None)
  {
    hide Ram.Write32, Ram.Read32;
    assert Add32(d.tar, 4) == d.tar + 4;
  }

  lemma RunCons<S>(d: Dp<S>, cs: seq<Command>, t: Target<S>)
    requires cs != []
    ensures var x := Transfer(d, cs[0].ap, cs[0].rnw, cs[0].a, cs[0].w, t);
            var rest := Run(x.0, cs[1..], t);
            Run(d, cs, t) == (rest.0, if x.1.Some? then [x.1.value] + rest.1 else rest.1)
  {
    hide Transfer;
    var x := Transfer(d, cs[0].ap, cs[0].rnw, cs[0].a, cs[0].w, t);
    assert [] + Run(x.0, cs[1..], t).1 == Run(x.0, cs[1..], t).1;
  }

  lemma OneRead<S>(d: Dp<S>, n: nat, t: Target<S>)
    requires n > 0 && WordMode(d, n)
    ensures d.tar + 4 * n < TWO32
    ensures Transfer(d, true, true, DRW, 0, t) == (d.(tar := d.tar + 4, posted := d.ram.Read32(d.tar)), Some(d.posted))
  {
    hide Ram.Write32, Ram.Read32;
    assert Add32(d.tar, 4) == d.tar + 4;
  }

  /** `n` reads return what was posted, then all but the last of the words; the last stays
      posted. */
  lemma {:induction false} ReadsRun<S>(d: Dp<S>, n: nat, t: Target<S>)
    requires WordMode(d, n) && n > 0
    ensures d.ram.Holds(d.tar, 4 * n) && d.tar + 4 * n < TWO32
    ensures var ws := d.ram.Words(d.tar, n);
            Run(d, Reads(n), t) == (d.(tar := d.tar + 4 * n, posted := ws[n - 1]), [d.posted] + ws[..n - 1])
    decreases n
  {
    hide Ram.Write32, Ram.Read32, Ram.Words, Transfer;
    var ws := d.ram.Words(d.tar, n);
    WordsUnfold(d.ram, d.tar, n);
    var e := d.(tar := d.tar + 4, posted := ws[0]);
    OneRead(d, n, t);
    var cs := Reads(n);
    assert cs[1..] == Reads(n - 1);
    RunCons(d, cs, t);
    if n > 1 {
      ReadsRun(e, n - 1, t);
      assert [ws[0]] + ws[1..][..n - 2] == ws[..n - 1];
    } else {
      assert Run(e, Reads(0), t) == (e, []);
    }
  }

  lemma WordsUnfold(m: Ram, a: int, n: nat)
    requires n > 0 && m.Holds(a, 4 * n)
    ensures m.Words(a, n)[0] == m.Read32(a) && m.Words(a, n)[1..] == m.Words(a + 4, n - 1)
  {
    hide Ram.Read32;
  }

  /** TAR, the words, TAR again, as many reads, and RDBUFF. */
  function BlockOps(a: u32, ws: seq<u32>): (r: seq<Command>) {
    [Cmd(true, false, SET_TAR, a)] + Writes(ws)
      + [Cmd(true, false, SET_TAR, a)] + Reads(|ws|) + [Cmd(false, true, 12, 0)]
  }

  lemma OneCommand<S>(d: Dp<S>, c: Command, t: Target<S>)
    ensures var x := Transfer(d, c.ap, c.rnw, c.a, c.w, t);
            Run(d, [c], t) == (x.0, if x.1.Some? then [x.1.value] else [])
  {
    hide Transfer;
    RunCons(d, [c], t);
    assert [c][1..] == [];
    var x := Transfer(d, c.ap, c.rnw, c.a, c.w, t);
    assert Run(x.0, [], t) == (x.0, []);
    assert x.1.Some? ==> [x.1.value] + [] == [x.1.value];
  }

  /** Any number of words written to any plain RAM that holds them and read back: the reads
      return, after the one stale posted word, exactly the words, in order, delayed by one;
      RAM holds them and is otherwise as before; nothing behind the port noticed. */
  lemma BlockTransfer<S>(d: Dp<S>, a: u32, ws: seq<u32>, t: Target<S>)
    requires ws != [] && WordMode(d.(tar := a), |ws|)
    ensures d.ram.Holds(a, 4 * |ws|)
    ensures var r := Run(d, BlockOps(a, ws), t);
            && r.1 == [d.posted] + ws
            && r.0.ram == d.ram.WriteWords(a, ws) && r.0.rest == d.rest
  {
    hide Transfer, Run, Ram.Write32, Ram.Read32;
    var aim := [Cmd(true, false, SET_TAR, a)];
    var n := |ws|;
    var d0 := d.(tar := a);
    SetTar(d, a, t);
    WritesRun(d0, ws, t);
    var d1 := Run(d0, Writes(ws), t).0;
    SetTar(d1, a, t);
    var d2 := d1.(tar := a);
    ReadsRun(d2, n, t);
    WordsReadBack(d.ram, a, ws);
    var d3 := Run(d2, Reads(n), t).0;
    ReadBuffer(d3, t);
    RunConcat(d, aim, Writes(ws), t);
    RunConcat(d, aim + Writes(ws), aim, t);
    RunConcat(d, aim + Writes(ws) + aim, Reads(n), t);
    RunConcat(d, aim + Writes(ws) + aim + Reads(n), [Cmd(false, true, 12, 0)], t);
    assert [d.posted] + ws[..n - 1] + [ws[n - 1]] == [d.posted] + ws;
  }

  lemma SetTar<S>(d: Dp<S>, a: u32, t: Target<S>)
    requires d.select / 0x10 % 16 == 0
    ensures Run(d, [Cmd(true, false, SET_TAR, a)], t) == (d.(tar := a), [])
  {
    OneCommand(d, Cmd(true, false, SET_TAR, a), t);
  }

  lemma ReadBuffer<S>(d: Dp<S>, t: Target<S>)
    ensures Run(d, [Cmd(false, true, 12, 0)], t) == (d, [d.posted])
  {
    OneCommand(d, Cmd(false, true, 12, 0), t);
  }

  // ---- the command stream ---------------------------------------------------------------------------

  /** How many bytes a command takes: a line sequence and a write carry four more. */
  function Need(cmd: u8): (n: nat)
    ensures n == 1 || n == 5
  {
    if cmd / 0x20 % 2 == 1 then 5 else if cmd / 2 % 2 == 1 then 1 else 5
  }

  function Le(w: u32): (b: Bytes)
    ensures |b| == 4
  {
    [ByteOf(w, 0), ByteOf(w, 1), ByteOf(w, 2), ByteOf(w, 3)]
  }

  /** A read answers with a status and the word, a write with a status, a sequence not at all. */
  function Reply(o: Option<u32>): (r: Bytes) {
    if o.Some? then [0x01] + Le(o.value) else [0x11]
  }

  function CommandOf(c: Bytes): (r: Command)
    requires c != [] && |c| == Need(c[0])
  {
    var rnw := c[0] / 2 % 2 == 1;
    Cmd(c[0] % 2 == 1, rnw, c[0] / 4 % 4 * 4, if |c| == 5 then Le32(c[1], c[2], c[3], c[4]) else 0)
  }

  function Execute<S>(d: Dp<S>, c: Bytes, t: Target<S>): (r: (Dp<S>, Bytes))
    requires c != [] && |c| == Need(c[0])
  {
    if c[0] / 0x20 % 2 == 1 then (d, [])
    else
      var cmd := CommandOf(c);
      var x := Transfer(d, cmd.ap, cmd.rnw, cmd.a, cmd.w, t);
      (x.0, Reply(x.1))
  }

  datatype Pass<!S> = Pass(dp: Dp<S>, out: Bytes, left: Bytes)

  /** Executes every complete command and leaves a partial one for the next pass. */
  function Process<S>(d: Dp<S>, inp: Bytes, t: Target<S>): (r: Pass<S>)
    decreases |inp|
  {
    if inp == [] || |inp| < Need(inp[0]) then Pass(d, [], inp)
    else
      var n := Need(inp[0]);
      var x := Execute(d, inp[..n], t);
      var rest := Process(x.0, inp[n..], t);
      rest.(out := x.1 + rest.out)
  }

  /** Executing what has come and then what comes later is executing it all at once. */
  lemma {:induction false} ProcessConcat<S>(d: Dp<S>, a: Bytes, b: Bytes, t: Target<S>)
    ensures var x := Process(d, a, t);
            var y := Process(x.dp, x.left + b, t);
            Process(d, a + b, t) == Pass(y.dp, x.out + y.out, y.left)
    decreases |a|
  {
    hide Execute, Need;
    if a == [] || |a| < Need(a[0]) {
      assert [] + Process(d, a + b, t).out == Process(d, a + b, t).out;
    } else {
      var n := Need(a[0]);
      assert (a + b)[0] == a[0] && (a + b)[..n] == a[..n] && (a + b)[n..] == a[n..] + b;
      var x := Execute(d, a[..n], t);
      ProcessConcat(x.0, a[n..], b, t);
      var p := Process(x.0, a[n..], t);
      var q := Process(p.dp, p.left + b, t);
      assert x.1 + (p.out + q.out) == (x.1 + p.out) + q.out;
    }
  }

  // ---- the server: chunks in, replies out ----------------------------------------------------------------

  datatype Server<!S> = Server(demux: Cobs.Demux, dp: Dp<S>)

  /** One pass of the server loop: take a chunk off the socket, execute, then let the core run
      unless it is halted.  The reply bytes go out. */
  function Serve<S>(s: Server<S>, chunk: Bytes, t: Target<S>): (r: (Server<S>, Bytes)) {
    var d := Cobs.Receive(s.demux, chunk);
    var p := Process(s.dp, d.swd, t);
    var dp := if t.halted(p.dp.rest) then p.dp
              else var r := t.run(p.dp.ram, p.dp.rest); p.dp.(ram := r.0, rest := r.1);
    (Server(d.(swd := p.left), dp), p.out)
  }

  function ServeAll<S>(s: Server<S>, chunks: seq<Bytes>, t: Target<S>): (r: (Server<S>, Bytes))
    decreases |chunks|
  {
    if chunks == [] then (s, [])
    else
      var x := Serve(s, chunks[0], t);
      var rest := ServeAll(x.0, chunks[1..], t);
      (rest.0, x.1 + rest.1)
  }

  /** The core is halted at the end of every pass. */
  predicate StaysHalted<S>(s: Server<S>, chunks: seq<Bytes>, t: Target<S>)
    decreases |chunks|
  {
    chunks == [] ||
      (t.halted(Process(s.dp, Cobs.Receive(s.demux, chunks[0]).swd, t).dp.rest)
       && StaysHalted(Serve(s, chunks[0], t).0, chunks[1..], t))
  }

  lemma DeliverAppends(d: Cobs.Demux, payload: Bytes, p: Bytes)
    ensures Cobs.Deliver(d.(swd := p + d.swd), payload)
         == Cobs.Deliver(d, payload).(swd := p + Cobs.Deliver(d, payload).swd)
  {
    hide Cobs.Decode;
    match Cobs.Decode(payload)
    case None =>
    case Some(dec) =>
      if dec != [] && dec[0] == Cobs.TGT_SWD {
        assert p + d.swd + dec[1..] == p + (d.swd + dec[1..]);
      }
  }

  /** The demultiplexer only ever appends: what was taken out of a stream does not matter. */
  lemma {:induction false} DrainedAppends(d: Cobs.Demux, p: Bytes)
    ensures Cobs.Drained(d.(swd := p + d.swd)) == Cobs.Drained(d).(swd := p + Cobs.Drained(d).swd)
    decreases |d.raw|
  {
    hide Cobs.Deliver;
    match Cobs.FirstZero(d.raw)
    case None =>
    case Some(z) =>
      var e := d.(raw := d.raw[z + 1..]);
      DeliverAppends(e, d.raw[..z], p);
      Cobs.DeliverKeepsRaw(e, d.raw[..z], []);
      DrainedAppends(Cobs.Deliver(e, d.raw[..z]), p);
  }

  /** What the server has put out and holds after `done` passes of a halted core: as if the
      whole stream had arrived at once, at a server with nothing buffered. */
  lemma {:induction false} ServedAtOnce<S>(s: Server<S>, chunks: seq<Bytes>, t: Target<S>)
    requires Cobs.NoZero(s.demux.raw) && StaysHalted(s, chunks, t)
    ensures var d := Cobs.Receive(s.demux, Cobs.Joined(chunks));
            var p := Process(s.dp, d.swd, t);
            chunks != [] ==> ServeAll(s, chunks, t) == (Server(d.(swd := p.left), p.dp), p.out)
    decreases |chunks|
  {
    hide Cobs.Drained, Process;
    if chunks != [] {
      var c, more := chunks[0], Cobs.Joined(chunks[1..]);
      var d1 := Cobs.Receive(s.demux, c);
      var p1 := Process(s.dp, d1.swd, t);
      var s1 := Serve(s, c, t).0;
      assert s1 == Server(d1.(swd := p1.left), p1.dp);
      Cobs.DrainedIsUndelimited(s.demux.(raw := s.demux.raw + c));
      if chunks[1..] == [] {
        assert c + more == c && p1.out + [] == p1.out;
      } else {
        ServedAtOnce(s1, chunks[1..], t);
        TwoReceives(s.demux, c, more, d1, p1.left);
        var rest := Cobs.Receive(d1.(swd := []), more);
        ProcessConcat(s.dp, d1.swd, rest.swd, t);
      }
    }
  }

  lemma TwoReceives(d: Cobs.Demux, c: Bytes, more: Bytes, d1: Cobs.Demux, left: Bytes)
    requires d1 == Cobs.Receive(d, c)
    ensures var rest := Cobs.Receive(d1.(swd := []), more);
            && Cobs.Receive(d, c + more) == rest.(swd := d1.swd + rest.swd)
            && Cobs.Receive(d1.(swd := left), more) == rest.(swd := left + rest.swd)
  {
    hide Cobs.Drained;
    Cobs.DrainThenMore(d.(raw := d.raw + c), more);
    assert d.raw + c + more == d.raw + (c + more);
    var e := d1.(raw := d1.raw + more, swd := []);
    DrainedAppends(e, d1.swd);
    DrainedAppends(e, left);
    assert d1.swd + [] == d1.swd && left + [] == left;
  }

  /** The core is halted after every prefix of the command stream: no command in it resumes it. */
  ghost predicate HaltedThroughout<S>(d: Dp<S>, stream: Bytes, t: Target<S>) {
    forall k :: 0 <= k <= |stream| ==> t.halted(Process(d, stream[..k], t).dp.rest)
  }

  /** A server that has demultiplexed `done` so far, of `whole` in the end, and executed what was
      complete of it. */
  ghost predicate Midway<S>(s: Server<S>, d: Dp<S>, done: Bytes, chunks: seq<Bytes>, whole: Bytes, t: Target<S>) {
    && Cobs.NoZero(s.demux.raw)
    && s.dp == Process(d, done, t).dp && s.demux.swd == Process(d, done, t).left
    && whole == done + Cobs.Receive(s.demux.(swd := []), Cobs.Joined(chunks)).swd
  }

  /** One pass from midway: the port has executed a longer prefix of the whole stream. */
  lemma PassesOn<S>(s: Server<S>, d: Dp<S>, done: Bytes, chunks: seq<Bytes>, whole: Bytes, t: Target<S>)
    requires chunks != [] && Midway(s, d, done, chunks, whole, t) && HaltedThroughout(d, whole, t)
    ensures var got := Cobs.Receive(s.demux.(swd := []), chunks[0]).swd;
            && t.halted(Process(s.dp, Cobs.Receive(s.demux, chunks[0]).swd, t).dp.rest)
            && Midway(Serve(s, chunks[0], t).0, d, done + got, chunks[1..], whole, t)
  {
    hide Cobs.Drained, Process, Cobs.Joined;
    var c, more := chunks[0], Cobs.Joined(chunks[1..]);
    assert Cobs.Joined(chunks) == c + more by { JoinedCons(chunks); }
    var e := s.demux.(swd := []);
    var got := Cobs.Receive(e, c).swd;
    var left := s.demux.swd;
    AppendsTo(e, c, left);
    ProcessConcat(d, done, got, t);
    var d1 := Cobs.Receive(s.demux, c);
    var p1 := Process(s.dp, d1.swd, t);
    assert p1.dp == Process(d, done + got, t).dp && p1.left == Process(d, done + got, t).left;
    var e1 := Cobs.Receive(e, c);
    TwoReceives(e, c, more, e1, []);
    var rest := Cobs.Receive(e1.(swd := []), more);
    assert whole == (done + got) + rest.swd;
    assert whole[..|done + got|] == done + got;
    Cobs.DrainedIsUndelimited(s.demux.(raw := s.demux.raw + c));
    assert d1 == e1.(swd := left + got);
    assert d1.(swd := []) == e1.(swd := []);
  }

  lemma JoinedCons(chunks: seq<Bytes>)
    requires chunks != []
    ensures Cobs.Joined(chunks) == chunks[0] + Cobs.Joined(chunks[1..])
  {
  }

  lemma AppendsTo(e: Cobs.Demux, c: Bytes, left: Bytes)
    requires e.swd == []
    ensures Cobs.Receive(e.(swd := left), c) == Cobs.Receive(e, c).(swd := left + Cobs.Receive(e, c).swd)
  {
    hide Cobs.Drained;
    DrainedAppends(e.(raw := e.raw + c), left);
    assert left + [] == left;
  }

  lemma {:induction false} MidwayStaysHalted<S>(s: Server<S>, d: Dp<S>, done: Bytes, chunks: seq<Bytes>, whole: Bytes,
                                                t: Target<S>)
    requires Midway(s, d, done, chunks, whole, t) && HaltedThroughout(d, whole, t)
    ensures StaysHalted(s, chunks, t)
    decreases |chunks|
  {
    hide Midway, HaltedThroughout, Serve;
    if chunks != [] {
      PassesOn(s, d, done, chunks, whole, t);
      var got := Cobs.Receive(s.demux.(swd := []), chunks[0]).swd;
      MidwayStaysHalted(Serve(s, chunks[0], t).0, d, done + got, chunks[1..], whole, t);
    }
  }

  /** A stream that keeps the core halted does so however it is cut. */
  lemma HaltedHoweverCut<S>(dp: Dp<S>, chunks: seq<Bytes>, t: Target<S>)
    requires HaltedThroughout(dp, Cobs.Receive(Cobs.Demux([], [], []), Cobs.Joined(chunks)).swd, t)
    ensures StaysHalted(Server(Cobs.Demux([], [], []), dp), chunks, t)
  {
    hide Cobs.Receive, HaltedThroughout;
    var d := Cobs.Demux([], [], []);
    var whole := Cobs.Receive(d, Cobs.Joined(chunks)).swd;
    assert Process(dp, [], t) == Pass(dp, [], []);
    assert [] + whole == whole;
    MidwayStaysHalted(Server(d, dp), dp, [], chunks, whole, t);
  }

  /** The replies and the port that `chunks` lead to are those of the stream executed at once. */
  ghost predicate ServesAsWhole<S>(dp: Dp<S>, stream: Bytes, chunks: seq<Bytes>, t: Target<S>) {
    var p := Process(dp, stream, t);
    var r := ServeAll(Server(Cobs.Demux([], [], []), dp), chunks, t);
    r.1 == p.out && r.0.dp == p.dp && r.0.demux.swd == p.left
  }

  /** End to end.  A probe frames commands for the debug port, mixed with frames for the other
      endpoint.  If no command resumes the core, a condition on the command bytes alone, then
      however the socket cuts the stream, inside frames and inside commands, the port ends in
      the state, and the replies are the bytes, that executing the command bytes at once
      gives. */
  lemma ChunksDoNotMatter<S>(dp: Dp<S>, ms: seq<Cobs.Message>, t: Target<S>)
    requires HaltedThroughout(dp, Cobs.StreamTo(ms, Cobs.TGT_SWD), t)
    ensures forall chunks: seq<Bytes> :: chunks != [] && Cobs.Joined(chunks) == Cobs.Wire(ms) ==>
              ServesAsWhole(dp, Cobs.StreamTo(ms, Cobs.TGT_SWD), chunks, t)
  {
    forall chunks: seq<Bytes> | chunks != [] && Cobs.Joined(chunks) == Cobs.Wire(ms)
      ensures ServesAsWhole(dp, Cobs.StreamTo(ms, Cobs.TGT_SWD), chunks, t)
    {
      OneCut(dp, ms, chunks, t);
    }
  }

  lemma OneCut<S>(dp: Dp<S>, ms: seq<Cobs.Message>, chunks: seq<Bytes>, t: Target<S>)
    requires HaltedThroughout(dp, Cobs.StreamTo(ms, Cobs.TGT_SWD), t)
    requires chunks != [] && Cobs.Joined(chunks) == Cobs.Wire(ms)
    ensures ServesAsWhole(dp, Cobs.StreamTo(ms, Cobs.TGT_SWD), chunks, t)
  {
    hide Cobs.Drained, Process, ServeAll, StaysHalted, Cobs.Receive, Cobs.ReceiveAll, HaltedThroughout;
    var d := Cobs.Demux([], [], []);
    Cobs.ChunksDoNotMatter(d, chunks);
    Cobs.DemuxIsExact(ms, chunks);
    HaltedHoweverCut(dp, chunks, t);
    ServedAtOnce(Server(d, dp), chunks, t);
  }

  // ---- what a probe writes for a list of commands ------------------------------------------------------------

  function Encoded(c: Command): (b: Bytes)
    requires c.a % 4 == 0 && c.a < 16
    ensures |b| >= 1 && |b| == Need(b[0]) && b[0] / 0x20 % 2 == 0
  {
    var cmd: u8 := (if c.ap then 1 else 0) + (if c.rnw then 2 else 0) + c.a;
    if c.rnw then [cmd] else [cmd] + Le(c.w)
  }

  predicate Encodable(cs: seq<Command>) {
    forall c :: c in cs ==> c.a % 4 == 0 && c.a < 16 && (c.rnw ==> c.w == 0)
  }

  function EncodedAll(cs: seq<Command>): (r: Bytes)
    requires Encodable(cs)
    decreases |cs|
  {
    if cs == [] then [] else Encoded(cs[0]) + EncodedAll(cs[1..])
  }

  function Replies(cs: seq<Command>, words: seq<u32>): (r: Bytes)
    decreases |cs|
  {
    if cs == [] then []
    else if !cs[0].rnw then [0x11] + Replies(cs[1..], words)
    else if words == [] then []
    else [0x01] + Le(words[0]) + Replies(cs[1..], words[1..])
  }

  lemma DecodesBack(c: Command)
    requires c.a % 4 == 0 && c.a < 16 && (c.rnw ==> c.w == 0)
    ensures CommandOf(Encoded(c)) == c
  {
    hide ByteOf;
    if !c.rnw { Le32Bytes(c.w); }
  }

  /** The command bytes of any list of commands drive the port as the commands do, and the reply
      bytes are a status for each write and a status and the word for each read, in order. */
  lemma {:induction false} StreamRunsCommands<S>(d: Dp<S>, cs: seq<Command>, t: Target<S>)
    requires Encodable(cs)
    ensures var r := Run(d, cs, t); Process(d, EncodedAll(cs), t) == Pass(r.0, Replies(cs, r.1), [])
    decreases |cs|
  {
    hide Transfer, Le;
    if cs != [] {
      var c := cs[0];
      var e := Encoded(c);
      DecodesBack(c);
      ReadsAnswer(d, c.ap, c.rnw, c.a, c.w, t);
      RunCons(d, cs, t);
      var x := Transfer(d, c.ap, c.rnw, c.a, c.w, t);
      StreamRunsCommands(x.0, cs[1..], t);
      ProcessOne(d, e, EncodedAll(cs[1..]), t);
      assert Execute(d, e, t) == (x.0, Reply(x.1));
    }
  }

  lemma ProcessOne<S>(d: Dp<S>, c: Bytes, more: Bytes, t: Target<S>)
    requires c != [] && |c| == Need(c[0])
    ensures var x := Execute(d, c, t);
            var rest := Process(x.0, more, t);
            Process(d, c + more, t) == WithOutput(x.1, rest)
  {
    hide Execute, Need;
    assert (c + more)[..|c|] == c && (c + more)[|c|..] == more;
  }

  class SwdServer<!S> {
    var select: u32
    var ctrl: u32
    var posted: u32
    var csw: u32
    var tar: u32
    var ram: Ram
    var rest: S
    var swdIn: Bytes

    ghost function Value(): (r: Dp<S>)
      reads this
    {
      Dp(select, ctrl, posted, csw, tar, ram, rest)
    }

    constructor (ram: Ram, rest: S)
      ensures Value() == Dp(0, 0, 0, 0, 0, ram, rest) && swdIn == []
    {
      select, ctrl, posted, csw, tar := 0, 0, 0, 0, 0;
      this.ram, this.rest, swdIn := ram, rest, [];
    }

    method Read(t: Target<S>) returns (v: u32)
      modifies this
      ensures (Value(), v) == DrwRead(old(Value()), t) && swdIn == old(swdIn)
    {
      hide Shifted, RamRead;
      var n := AccessSize(csw);
      if InRam(ram, tar, n) {
        v := Shifted(RamRead(ram, tar, n), tar, n);
      } else {
        var r := t.read(rest, tar, n);
        rest, v := r.0, r.1;
      }
      tar := AutoInc(tar, csw);
    }

    method Write(w: u32, t: Target<S>)
      modifies this
      ensures Value() == DrwWrite(old(Value()), w, t) && swdIn == old(swdIn)
    {
      hide RamWrite, Lane;
      var n := AccessSize(csw);
      if InRam(ram, tar, n) {
        ram := RamWrite(ram, tar, n, w / Lane(LaneOf(tar, n)));
      } else {
        rest := t.write(rest, tar, n, w);
      }
      tar := AutoInc(tar, csw);
    }

    method Access(rnw: bool, a: nat, w: u32, t: Target<S>) returns (r: Option<u32>)
      modifies this
      ensures (Value(), r) == ApTransfer(old(Value()), rnw, a, w, t) && swdIn == old(swdIn)
    {
      hide DrwRead, DrwWrite;
      var reg := select / 0x10 % 16 * 0x10 + a / 4 % 4 * 4;
      if rnw {
        var out := posted;
        if reg == 0x0C {
          var v := Read(t);
          posted := v;
        } else {
          posted := if reg == 0 then csw else if reg == 4 then tar else if reg == 0xFC then AP_IDR else 0;
        }
        r := Some(out);
      } else {
        if reg == 0 {
          csw := w;
        } else if reg == 4 {
          tar := w;
        } else if reg == 0x0C {
          Write(w, t);
        }
        r := None;
      }
    }

    method DoTransfer(ap: bool, rnw: bool, a: nat, w: u32, t: Target<S>) returns (r: Option<u32>)
      modifies this
      ensures (Value(), r) == Transfer(old(Value()), ap, rnw, a, w, t) && swdIn == old(swdIn)
    {
      hide ApTransfer, CtrlStat;
      if ap {
        r := Access(rnw, a, w, t);
      } else {
        var reg := a / 4 % 4;
        if rnw {
          var v: u32 := if reg == 0 then DPIDR else if reg == 1 then CtrlStat(ctrl) else if reg == 2 then 0 else posted;
          r := Some(v);
        } else {
          if reg == 1 { ctrl := w; }
          if reg == 2 { select := w; }
          r := None;
        }
      }
    }

    method ExecuteCommand(c: Bytes, t: Target<S>) returns (reply: Bytes)
      requires c != [] && |c| == Need(c[0])
      modifies this
      ensures (Value(), reply) == Execute(old(Value()), c, t) && swdIn == old(swdIn)
    {
      hide Transfer, Reply;
      if c[0] / 0x20 % 2 == 1 { return []; }
      var cmd := CommandOf(c);
      var r := DoTransfer(cmd.ap, cmd.rnw, cmd.a, cmd.w, t);
      reply := Reply(r);
    }

    /** Consumes every complete command of the buffered stream. */
    method ProcessSwd(t: Target<S>) returns (out: Bytes)
      modifies this
      ensures Pass(Value(), out, swdIn) == Process(old(Value()), old(swdIn), t)
    {
      hide Execute, Process, Need;
      out := [];
      var i := 0;
      ghost var whole := Process(Value(), swdIn, t);
      assert swdIn[0..] == swdIn && WithOutput([], whole) == whole by { WithNoOutput(whole); }
      while i < |swdIn|
        invariant 0 <= i <= |swdIn| && swdIn == old(swdIn)
        invariant whole == WithOutput(out, Process(Value(), swdIn[i..], t))
      {
        var n := Need(swdIn[i]);
        if i + n > |swdIn| { break; }
        var c := swdIn[i..i + n];
        assert swdIn[i..] == c + swdIn[i + n..];
        ProcessOne(Value(), c, swdIn[i + n..], t);
        i := i + n;
        var reply := ExecuteCommand(c, t);
        WithOutputTwice(out, reply, Process(Value(), swdIn[i..], t));
        out := out + reply;
      }
      Incomplete(Value(), swdIn[i..], t);
      swdIn := swdIn[i..];
    }
  }

  function WithOutput<S>(out: Bytes, p: Pass<S>): (r: Pass<S>) {
    p.(out := out + p.out)
  }

  lemma WithNoOutput<S>(p: Pass<S>)
    ensures WithOutput([], p) == p
  {
    assert [] + p.out == p.out;
  }

  lemma WithOutputTwice<S>(a: Bytes, b: Bytes, p: Pass<S>)
    ensures WithOutput(a, WithOutput(b, p)) == WithOutput(a + b, p)
  {
    assert a + (b + p.out) == (a + b) + p.out;
  }

  lemma Incomplete<S>(d: Dp<S>, inp: Bytes, t: Target<S>)
    requires inp == [] || |inp| < Need(inp[0])
    ensures Process(d, inp, t) == Pass(d, [], inp)
  {
  }
}
