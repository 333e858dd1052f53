/** The RoT's raw SWD bit stream and the link that carries it to the SP's debug port
    (src/rotswd.rs; src/gdb.rs, the drain in the serve loop); ARM IHI 0031, chapter B4. */
module RotSwd {
  import opened Arithmetic
  import opened Wrappers

  datatype Req = Req(ap: bool, rnw: bool, a: nat, wdata: nat)

  // ---- bits ----------------------------------------------------------------------------

  type Bits = seq<bool>

  function B(x: bool): (r: nat) {
    if x then 1 else 0
  }

  /** The value of bits sent most significant first. */
  function Msb(b: Bits): (v: nat)
    ensures v < Pow2(|b|)
  {
    if b == [] then 0 else 2 * Msb(b[..|b| - 1]) + B(b[|b| - 1])
  }

  /** The value of bits sent least significant first. */
  function Lsb(b: Bits): (v: nat)
    ensures v < Pow2(|b|)
  {
    if b == [] then 0 else B(b[0]) + 2 * Lsb(b[1..])
  }

  /** The low `n` bits of a value, least significant first. */
  function LsbBits(n: nat, v: nat): (b: Bits)
    ensures |b| == n
  {
    if n == 0 then [] else [v % 2 == 1] + LsbBits(n - 1, v / 2)
  }

  /** The low `n` bits of a value, most significant first. */
  function MsbBits(n: nat, v: nat): (b: Bits)
    ensures |b| == n
  {
    if n == 0 then [] else MsbBits(n - 1, v / 2) + [v % 2 == 1]
  }

  /** u8::reverse_bits and u32::reverse_bits. */
  function ReverseBits(n: nat, v: nat): (r: nat) {
    Msb(LsbBits(n, v))
  }

  function Ones(b: Bits): (r: nat) {
    if b == [] then 0 else B(b[0]) + Ones(b[1..])
  }

  lemma {:induction false} LsbRoundTrip(b: Bits)
    ensures LsbBits(|b|, Lsb(b)) == b
  {
    if b != [] {
      LsbRoundTrip(b[1..]);
      assert Lsb(b) % 2 == B(b[0]) && Lsb(b) / 2 == Lsb(b[1..]);
    }
  }

  lemma {:induction false} LsbOfBits(n: nat, v: nat)
    requires v < Pow2(n)
    ensures Lsb(LsbBits(n, v)) == v
  {
    if n > 0 {
      LsbOfBits(n - 1, v / 2);
      assert LsbBits(n, v)[1..] == LsbBits(n - 1, v / 2);
    }
  }

  lemma {:induction false} MsbRoundTrip(b: Bits)
    ensures MsbBits(|b|, Msb(b)) == b
  {
    if b != [] {
      var c := b[..|b| - 1];
      MsbRoundTrip(c);
      assert Msb(b) % 2 == B(b[|b| - 1]) && Msb(b) / 2 == Msb(c);
      assert b == c + [b[|b| - 1]];
    }
  }

  // Shifts and masks by recursion, so that bits can be followed one at a time; each is the
  // product, quotient or remainder by a power of two.

  function Shl(v: nat, n: nat): (r: nat) {
    if n == 0 then v else 2 * Shl(v, n - 1)
  }

  function Shr(v: nat, n: nat): (r: nat) {
    if n == 0 then v else Shr(v / 2, n - 1)
  }

  function Low(v: nat, n: nat): (r: nat) {
    if n == 0 then 0 else 2 * Low(v / 2, n - 1) + v % 2
  }

  lemma Doubled(m: nat, p: nat)
    ensures 2 * (m * p) == m * (2 * p)
  {
  }

  lemma {:induction false} ShlIsProduct(v: nat, n: nat)
    ensures Shl(v, n) == v * Pow2(n)
  {
    if n > 0 {
      ShlIsProduct(v, n - 1);
      Doubled(v, Pow2(n - 1));
    }
  }

  /** Halving before dividing by a power of two. */
  lemma HalfMod(v: nat, p: nat)
    requires p >= 1
    ensures v % (2 * p) == 2 * (v / 2 % p) + v % 2
    ensures v / (2 * p) == v / 2 / p
  {
    var h := v / 2;
    var q, r := h / p, h % p;
    Doubled(q, p);
    assert v == q * (2 * p) + (2 * r + v % 2);
    Quotient(q, 2 * p, 2 * r + v % 2);
  }

  lemma {:induction false} ShrAndLow(v: nat, n: nat)
    ensures Shr(v, n) == v / Pow2(n) && Low(v, n) == v % Pow2(n)
  {
    if n > 0 {
      ShrAndLow(v / 2, n - 1);
      HalfMod(v, Pow2(n - 1));
    }
  }

  lemma {:induction false} MsbConcat(a: Bits, b: Bits)
    ensures Msb(a + b) == Shl(Msb(a), |b|) + Msb(b)
    ensures Low(Msb(a + b), |b|) == Msb(b)
    decreases |b|
  {
    if b == [] {
      assert a + b == a;
    } else {
      var c := b[..|b| - 1];
      MsbConcat(a, c);
      MsbConcatStep(a, c, b[|b| - 1]);
      assert b == c + [b[|b| - 1]];
    }
  }

  lemma MsbConcatStep(a: Bits, c: Bits, x: bool)
    requires Msb(a + c) == Shl(Msb(a), |c|) + Msb(c) && Low(Msb(a + c), |c|) == Msb(c)
    ensures Msb(a + (c + [x])) == Shl(Msb(a), |c| + 1) + Msb(c + [x])
    ensures Low(Msb(a + (c + [x])), |c| + 1) == Msb(c + [x])
  {
    hide Msb, Low, Shl;
    assert a + (c + [x]) == (a + c) + [x];
    MsbSnoc(a + c, a + (c + [x]), x);
    MsbSnoc(c, c + [x], x);
    OneMore(Msb(a), Msb(a + c), B(x), |c|);
  }

  lemma OneMore(hi: nat, m: nat, x: nat, n: nat)
    requires x <= 1
    ensures Shl(hi, n + 1) == 2 * Shl(hi, n) && Low(2 * m + x, n + 1) == 2 * Low(m, n) + x
  {
    assert (2 * m + x) / 2 == m && (2 * m + x) % 2 == x;
  }

  lemma MsbSnoc(c: Bits, b: Bits, x: bool)
    requires b == c + [x]
    ensures Msb(b) == 2 * Msb(c) + B(x)
  {
    assert b[..|b| - 1] == c;
  }

  /** Reading the bits of a value backwards: reverse_bits of what was sent MSB first is what
      was meant LSB first. */
  lemma {:induction false} ReverseIsLsb(b: Bits)
    ensures ReverseBits(|b|, Msb(b)) == Lsb(b)
  {
    MsbReversed(b);
    BitsReversed(|b|, Msb(b));
    MsbRoundTrip(b);
  }

  function Reversed(b: Bits): (r: Bits)
    ensures |r| == |b|
  {
    if b == [] then [] else Reversed(b[1..]) + [b[0]]
  }

  lemma {:induction false} MsbReversed(b: Bits)
    ensures Msb(Reversed(b)) == Lsb(b)
  {
    if b != [] {
      MsbReversed(b[1..]);
      assert Reversed(b)[..|b| - 1] == Reversed(b[1..]);
    }
  }

  lemma {:induction false} ReversedSnoc(b: Bits, x: bool)
    ensures Reversed(b + [x]) == [x] + Reversed(b)
  {
    if b != [] {
      assert (b + [x])[1..] == b[1..] + [x];
      ReversedSnoc(b[1..], x);
    }
  }

  lemma {:induction false} BitsReversed(n: nat, v: nat)
    ensures Reversed(MsbBits(n, v)) == LsbBits(n, v)
  {
    if n > 0 {
      BitsReversed(n - 1, v / 2);
      ReversedSnoc(MsbBits(n - 1, v / 2), v % 2 == 1);
    }
  }

  // ---- frames and the decoder ----------------------------------------------------------------

  /** One FIFOWR: a frame of 1 to 16 bits. */
  datatype Frame = Frame(len: nat, data: nat) {
    predicate Ok() {
      1 <= len <= 16 && data < 0x1_0000
    }

    function Wire(): (b: Bits)
      ensures |b| == len
    {
      MsbBits(len, data)
    }
  }

  function FrameOf(val: nat): (f: Frame)
    ensures f.Ok()
  {
    Frame(val / 0x100_0000 % 16 + 1, val % 0x1_0000)
  }

  datatype Phase = Idle | ReadData | WriteData(acc: nat, bits: nat, ap: bool, a: nat)

  datatype Dev = Dev(rx: seq<nat>, phase: Phase)

  const ACK_OK: nat := 4

  /** Start (bit 7), not stop (bit 1), park (bit 0), in eight bits. */
  predicate IsRequest(f: Frame) {
    f.len == 8 && f.data / 128 % 2 == 1 && f.data / 2 % 2 == 0 && f.data % 2 == 1
  }

  function RequestOf(data: nat): (r: Req) {
    Req(data / 64 % 2 == 1, data / 32 % 2 == 1, 4 * (data / 16 % 2) + 8 * (data / 8 % 2), 0)
  }

  /** A frame, and the request it completes, if any. */
  function FifoWr(d: Dev, f: Frame): (r: (Dev, Option<Req>)) {
    match d.phase
    case Idle =>
      if IsRequest(f) then
        var q := RequestOf(f.data);
        var rx := d.rx + [ACK_OK];
        if q.rnw then (Dev(rx, ReadData), Some(q)) else (Dev(rx, WriteData(0, 0, q.ap, q.a)), None)
      else (d, None)
    case ReadData => (d, None)
    case WriteData(acc, bits, ap, a) =>
      if f.len == 4 then (d, None)
      else
        var acc' := acc * Pow2(f.len) + f.data % Pow2(f.len);
        var bits' := bits + f.len;
        if bits' >= 34 then
          (d.(phase := Idle), Some(Req(ap, false, a, ReverseBits(32, acc' / 2 % Pow2(32)))))
        else (d.(phase := WriteData(acc', bits', ap, a)), None)
  }

  function Feed(d: Dev, fs: seq<Frame>): (r: (Dev, seq<Req>))
    decreases |fs|
  {
    if fs == [] then (d, [])
    else
      var r := FifoWr(d, fs[0]);
      var rest := Feed(r.0, fs[1..]);
      (rest.0, Queued(r.1) + rest.1)
  }

  function Queued(o: Option<Req>): (r: seq<Req>) {
    if o.Some? then [o.value] else []
  }

  lemma FeedStep(d: Dev, fs: seq<Frame>)
    requires fs != []
    ensures var r := FifoWr(d, fs[0]); var rest := Feed(r.0, fs[1..]);
            Feed(d, fs) == (rest.0, if r.1.Some? then [r.1.value] + rest.1 else rest.1)
  {
    hide FifoWr;
    var r := FifoWr(d, fs[0]);
    var rest := Feed(r.0, fs[1..]);
    assert [] + rest.1 == rest.1;
    assert Feed(d, fs) == (rest.0, Queued(r.1) + rest.1);
  }

  // ---- what the initiator sends -------------------------------------------------------------------

  /** A request byte: start, APnDP, RnW, A2, A3, a parity bit, stop, park. */
  function RequestByte(ap: bool, rnw: bool, a: nat, parity: bool): (r: nat) {
    128 + 64 * B(ap) + 32 * B(rnw) + 16 * (a / 4 % 2) + 8 * (a / 8 % 2) + 4 * B(parity) + 1
  }

  /** Every request of the four fields is recognized and decodes to those fields. */
  lemma RequestDecodes(ap: bool, rnw: bool, a: nat, parity: bool)
    requires a == 0 || a == 4 || a == 8 || a == 12
    ensures var f := Frame(8, RequestByte(ap, rnw, a, parity));
            f.Ok() && IsRequest(f) && RequestOf(f.data) == Req(ap, rnw, a, 0)
  {
  }

  /** The 34 bits after the ACK of a write: turnaround, the word LSB first, parity. */
  function WriteWire(trn: bool, word: Bits, parity: bool): (r: Bits) {
    [trn] + word + [parity]
  }

  /** What a list of frames puts on the wire, ACK-read dummies aside. */
  function WireOf(fs: seq<Frame>): (r: Bits)
    decreases |fs|
  {
    if fs == [] then [] else (if fs[0].len == 4 then [] else fs[0].Wire()) + WireOf(fs[1..])
  }

  lemma AccGrows(done: Bits, f: Frame)
    requires f.Ok()
    ensures Msb(done) * Pow2(f.len) + f.data % Pow2(f.len) == Msb(done + f.Wire())
  {
    hide Msb, Pow2;
    MsbConcat(done, f.Wire());
    MsbOfBits(f.len, f.data);
    ShlIsProduct(Msb(done), f.len);
    ShrAndLow(f.data, f.len);
  }

  lemma {:induction false} MsbOfBits(n: nat, v: nat)
    ensures Msb(MsbBits(n, v)) == Low(v, n)
  {
    if n > 0 {
      MsbOfBits(n - 1, v / 2);
      assert MsbBits(n, v)[..n - 1] == MsbBits(n - 1, v / 2);
    }
  }

  /** The middle 32 of 34 bits, read back as the decoder does. */
  lemma WordFromWire(trn: bool, word: Bits, parity: bool)
    ensures ReverseBits(|word|, Msb(WriteWire(trn, word, parity)) / 2 % Pow2(|word|)) == Lsb(word)
  {
    hide ReverseBits, Msb, Lsb, Pow2;
    MsbSnoc([trn] + word, WriteWire(trn, word, parity), parity);
    MsbConcat([trn], word);
    assert Msb(WriteWire(trn, word, parity)) / 2 == Msb([trn] + word);
    ShrAndLow(Msb([trn] + word), |word|);
    ReverseIsLsb(word);
  }

  /** Halfway through a write: `done` has been clocked, `fs` is still to come. */
  lemma {:induction false} WriteCompletes(d: Dev, done: Bits, fs: seq<Frame>, trn: bool, word: Bits, parity: bool)
    requires |word| == 32 && (forall f :: f in fs ==> f.Ok())
    requires done + WireOf(fs) == WriteWire(trn, word, parity) && |done| < 34
    requires d.phase.WriteData? && d.phase.acc == Msb(done) && d.phase.bits == |done|
    ensures Feed(d, fs) == (d.(phase := Idle), [Req(d.phase.ap, false, d.phase.a, Lsb(word))])
    decreases |fs|
  {
    hide ReverseBits, Msb, Lsb, Pow2;
    hide Feed;
    assert fs != [];
    FeedStep(d, fs);
    var f := fs[0];
    var d1 := FifoWr(d, f).0;
    if f.len == 4 {
      assert done + WireOf(fs[1..]) == done + WireOf(fs);
      WriteCompletes(d, done, fs[1..], trn, word, parity);
    } else {
      AccGrows(done, f);
      var more := done + f.Wire();
      assert more + WireOf(fs[1..]) == done + WireOf(fs);
      if |more| < 34 {
        WriteCompletes(d1, more, fs[1..], trn, word, parity);
      } else {
        assert more == WriteWire(trn, word, parity) && WireOf(fs[1..]) == [];
        WordFromWire(trn, word, parity);
        assert d1 == d.(phase := Idle);
        OnlyDummies(d1, fs[1..]);
        var q := Req(d.phase.ap, false, d.phase.a, Lsb(word));
        assert FifoWr(d, f).1 == Some(q);
        assert [q] + [] == [q];
      }
    }
  }

  lemma WireLen(fs: seq<Frame>)
    requires fs != [] && fs[0].Ok()
    ensures fs[0].len != 4 ==> |WireOf(fs)| >= 1
  {
  }

  lemma {:induction false} OnlyDummies(d: Dev, fs: seq<Frame>)
    requires d.phase == Idle && WireOf(fs) == [] && forall f :: f in fs ==> f.Ok()
    ensures Feed(d, fs) == (d, [])
    decreases |fs|
  {
    if fs != [] {
      WireLen(fs);
      OnlyDummies(d, fs[1..]);
    }
  }

  /** A write, from an idle decoder: for every word, turnaround and parity bit, and every way of
      cutting the 34 bits into frames of 1 to 16 bits other than 4, with 4-bit dummies put
      anywhere, exactly one request is queued and it carries the word. */
  lemma WriteDecodes(rx: seq<nat>, ap: bool, a: nat, parity: bool, fs: seq<Frame>, trn: bool, word: Bits, p: bool)
    requires a == 0 || a == 4 || a == 8 || a == 12
    requires |word| == 32 && (forall f :: f in fs ==> f.Ok()) && WireOf(fs) == WriteWire(trn, word, p)
    ensures Feed(Dev(rx, Idle), [Frame(8, RequestByte(ap, false, a, parity))] + fs)
         == (Dev(rx + [ACK_OK], Idle), [Req(ap, false, a, Lsb(word))])
  {
    hide RequestByte, IsRequest, RequestOf, Lsb, WireOf, Pow2, ReverseBits, Feed;
    var f := Frame(8, RequestByte(ap, false, a, parity));
    RequestDecodes(ap, false, a, parity);
    assert ([f] + fs)[1..] == fs;
    var d := Dev(rx + [ACK_OK], WriteData(0, 0, ap, a));
    assert [] + WireOf(fs) == WriteWire(trn, word, p);
    assert Msb([]) == 0;
    assert FifoWr(Dev(rx, Idle), f) == (d, None);
    FeedStep(Dev(rx, Idle), [f] + fs);
    WriteCompletes(d, [], fs, trn, word, p);
  }

  // ---- read data ---------------------------------------------------------------------------------------

  /** The four frames of a read, and their lengths. */
  function ReadFrames(data: nat): (r: seq<nat>) {
    [ReverseBits(8, data % 0x100), ReverseBits(8, data / 0x100 % 0x100), ReverseBits(8, data / 0x1_0000 % 0x100),
     2 * ReverseBits(8, data / 0x100_0000 % 0x100) + Ones(LsbBits(32, data)) % 2]
  }

  lemma {:induction false} LsbBitsConcat(m: nat, n: nat, v: nat)
    ensures LsbBits(m + n, v) == LsbBits(m, v) + LsbBits(n, Shr(v, m))
  {
    if m > 0 {
      LsbBitsConcat(m - 1, n, v / 2);
    }
  }

  lemma {:induction false} LsbBitsLow(n: nat, v: nat)
    ensures LsbBits(n, Low(v, n)) == LsbBits(n, v)
  {
    if n > 0 {
      LsbBitsLow(n - 1, v / 2);
      assert Low(v, n) / 2 == Low(v / 2, n - 1);
    }
  }

  /** A reversed byte, sent MSB first, is the byte LSB first. */
  lemma ByteOnWire(v: nat)
    ensures MsbBits(8, ReverseBits(8, v % 0x100)) == LsbBits(8, v)
  {
    hide LsbBits, MsbBits, Msb;
    MsbRoundTrip(LsbBits(8, v % 0x100));
    Powers();
    ShrAndLow(v, 8);
    LsbBitsLow(8, v);
  }

  lemma Powers()
    ensures Pow2(8) == 0x100 && Pow2(16) == 0x1_0000 && Pow2(24) == 0x100_0000
  {
    assert Pow2(8) == 0x100;
    assert Pow2(16) == 0x1_0000;
  }

  lemma Slices(data: nat)
    ensures LsbBits(32, data)
         == LsbBits(8, data) + LsbBits(8, data / 0x100) + LsbBits(8, data / 0x1_0000) + LsbBits(8, data / 0x100_0000)
  {
    hide LsbBits, Pow2, Shr;
    Powers();
    ShrAndLow(data, 8);
    ShrAndLow(data, 16);
    ShrAndLow(data, 24);
    LsbBitsConcat(24, 8, data);
    LsbBitsConcat(16, 8, data);
    LsbBitsConcat(8, 8, data);
  }

  lemma ParityFrame(hi: nat, p: nat)
    requires p < 2
    ensures MsbBits(9, 2 * hi + p) == MsbBits(8, hi) + [p == 1]
  {
    assert (2 * hi + p) / 2 == hi && (2 * hi + p) % 2 == p;
  }

  /** The frames a read clocks back, 8, 8, 8 and 9 bits, are the word LSB first and then the
      bit that makes its parity even. */
  lemma ReadOnWire(data: nat)
    requires data < Pow2(32)
    ensures var f := ReadFrames(data);
            && MsbBits(8, f[0]) + MsbBits(8, f[1]) + MsbBits(8, f[2]) + MsbBits(9, f[3])
            == LsbBits(32, data) + [Ones(LsbBits(32, data)) % 2 == 1]
  {
    hide ReverseBits, LsbBits, MsbBits, Ones, Pow2;
    ByteOnWire(data);
    ByteOnWire(data / 0x100);
    ByteOnWire(data / 0x1_0000);
    ByteOnWire(data / 0x100_0000);
    Slices(data);
    ParityFrame(ReverseBits(8, data / 0x100_0000 % 0x100), Ones(LsbBits(32, data)) % 2);
  }

  // ---- the two threads ---------------------------------------------------------------------

  /** The SP's debug port as the link sees it: any function of its state and the request that
      answers reads, and only reads, with data. */
  datatype Link<!S> = Link(
    dev: Dev,
    req: seq<Req>,
    resp: Option<nat>,
    running: Option<Req>,    // popped by the serve loop, not yet executed
    port: S,
    issued: seq<Req>,        // history: every request ever queued, in order
    ran: seq<(S, Req)>,      // history: every request executed, and what the port was then
    supplied: seq<nat>)      // history: every word handed back as read data

  /** A burst of SP instructions may leave the SP's state as anything. */
  datatype Action<!S> = RotWrite(f: Frame) | RotPoll | RotPop | SpPop | SpExecute | SpBurst(port: S)

  type Exec<!S> = (S, Req) -> (S, Option<nat>)

  ghost predicate Answers<S(!new)>(exec: Exec<S>) {
    forall s: S, q: Req {:trigger exec(s, q)} :: exec(s, q).1.Some? <==> q.rnw
  }

  /** Read data goes out once the ACK has been read. */
  function Supply<S>(l: Link<S>): (r: Link<S>) {
    if l.dev.phase == ReadData && l.dev.rx == [] && l.resp.Some? then
      l.(dev := Dev(ReadFrames(l.resp.value), Idle), resp := None, supplied := l.supplied + [l.resp.value])
    else l
  }

  function Apply<S>(l: Link<S>, a: Action<S>, exec: Exec<S>): (t: Link<S>) {
    match a
    case RotWrite(f) =>
      var r := FifoWr(l.dev, f);
      l.(dev := r.0, req := l.req + Queued(r.1), issued := l.issued + Queued(r.1))
    case RotPoll => Supply(l)
    case RotPop =>
      var m := Supply(l);
      if m.dev.rx == [] then m else m.(dev := m.dev.(rx := m.dev.rx[1..]))
    case SpPop => if l.running.Some? || l.req == [] then l else l.(running := Some(l.req[0]), req := l.req[1..])
    case SpExecute =>
      if l.running.None? then l
      else
        var r := exec(l.port, l.running.value);
        l.(running := None, port := r.0, resp := if r.1.Some? then r.1 else l.resp,
           ran := l.ran + [(l.port, l.running.value)])
    case SpBurst(port) => if l.running.None? then l.(port := port) else l
  }

  function Run<S>(l: Link<S>, actions: seq<Action<S>>, exec: Exec<S>): (t: Link<S>)
    decreases |actions|
  {
    if actions == [] then l else Run(Apply(l, actions[0], exec), actions[1..], exec)
  }

  function Fresh<S>(port: S): (l: Link<S>) {
    Link(Dev([], Idle), [], None, None, port, [], [], [])
  }

  // ---- what was executed, and with what result ----------------------------------------------

  /** The requests executed, in order. */
  function Executed<S>(ran: seq<(S, Req)>): (rs: seq<Req>)
    ensures |rs| == |ran|
    decreases |ran|
  {
    if ran == [] then [] else Executed(ran[..|ran| - 1]) + [ran[|ran| - 1].1]
  }

  /** The words the reads among them were answered with, each by the port as it was then. */
  function Answered<S>(ran: seq<(S, Req)>, exec: Exec<S>): (ws: seq<nat>)
    decreases |ran|
  {
    if ran == [] then []
    else
      var (port, q) := ran[|ran| - 1];
      Answered(ran[..|ran| - 1], exec) + Pending(exec(port, q).1)
  }

  function Reads(rs: seq<Req>): (n: nat)
    decreases |rs|
  {
    if rs == [] then 0 else Reads(rs[..|rs| - 1]) + if rs[|rs| - 1].rnw then 1 else 0
  }

  function Pending(o: Option<nat>): (ws: seq<nat>) {
    if o.Some? then [o.value] else []
  }

  /** Everything issued is executed, being executed or queued, in that order; the words answered
      are handed back, or wait to be; and while a read is outstanding, and only then, one of
      the three places holds it. */
  ghost predicate Inv<S>(l: Link<S>, exec: Exec<S>) {
    && l.issued == Executed(l.ran) + Queued(l.running) + l.req
    && Answered(l.ran, exec) == l.supplied + Pending(l.resp)
    && Reads(Queued(l.running)) + Reads(l.req) + |Pending(l.resp)| == if l.dev.phase == ReadData then 1 else 0
  }

  lemma {:induction false} ReadsConcat(a: seq<Req>, b: seq<Req>)
    ensures Reads(a + b) == Reads(a) + Reads(b)
    decreases |b|
  {
    if b == [] {
      assert a + b == a;
    } else {
      ReadsConcat(a, b[..|b| - 1]);
      assert (a + b)[..|a + b| - 1] == a + b[..|b| - 1];
    }
  }

  lemma ReadsOne(q: Req)
    ensures Reads([q]) == if q.rnw then 1 else 0
  {
    assert [q][..0] == [] && Reads([]) == 0;
  }

  /** A read is queued only from idle, and puts the decoder to waiting; nothing else does. */
  lemma FifoWrPhase(d: Dev, f: Frame)
    ensures var r := FifoWr(d, f);
            match r.1
            case None => r.0.phase == ReadData <==> d.phase == ReadData
            case Some(q) => d.phase != ReadData && (q.rnw <==> r.0.phase == ReadData)
  {
    hide ReverseBits, Pow2, RequestOf, IsRequest;
  }

  lemma RotWriteKeeps<S>(l: Link<S>, f: Frame, exec: Exec<S>)
    requires Inv(l, exec)
    ensures Inv(Apply(l, RotWrite(f), exec), exec)
  {
    hide FifoWr, Answered, Executed;
    var r := FifoWr(l.dev, f);
    FifoWrPhase(l.dev, f);
    ReadsConcat(l.req, Queued(r.1));
    if r.1.Some? { ReadsOne(r.1.value); }
    assert Executed(l.ran) + Queued(l.running) + (l.req + Queued(r.1)) == l.issued + Queued(r.1);
  }

  lemma SupplyKeeps<S>(l: Link<S>, exec: Exec<S>)
    requires Inv(l, exec)
    ensures Inv(Supply(l), exec)
  {
    hide Answered, Executed;
    if l.resp.Some? {
      assert l.supplied + [l.resp.value] == l.supplied + [l.resp.value] + [];
    }
  }

  lemma SpPopKeeps<S>(l: Link<S>, exec: Exec<S>)
    requires Inv(l, exec)
    ensures Inv(Apply(l, SpPop, exec), exec)
  {
    hide Answered, Executed;
    if l.running.None? && l.req != [] {
      ReadsConcat([l.req[0]], l.req[1..]);
      assert [l.req[0]] + l.req[1..] == l.req;
      assert Executed(l.ran) + [l.req[0]] + l.req[1..] == Executed(l.ran) + [] + l.req;
    }
  }

  lemma RanMore<S>(ran: seq<(S, Req)>, port: S, q: Req, exec: Exec<S>)
    ensures Executed(ran + [(port, q)]) == Executed(ran) + [q]
    ensures Answered(ran + [(port, q)], exec) == Answered(ran, exec) + Pending(exec(port, q).1)
  {
    assert (ran + [(port, q)])[..|ran|] == ran;
  }

  lemma SpExecuteKeeps<S(!new)>(l: Link<S>, exec: Exec<S>)
    requires Inv(l, exec) && l.running.Some? && Answers(exec)
    ensures Inv(Apply(l, SpExecute, exec), exec)
  {
    hide Answered, Executed;
    var q := l.running.value;
    RanMore(l.ran, l.port, q, exec);
    ReadsOne(q);
    var r := exec(l.port, q);
    assert r.1.Some? <==> q.rnw;
    if q.rnw {
      assert l.resp.None?;
      assert l.supplied + [] == l.supplied;
    }
    assert Answered(l.ran, exec) + [] == Answered(l.ran, exec);
    assert Executed(l.ran) + [q] + l.req == (Executed(l.ran) + [q]) + [] + l.req;
  }

  lemma PopKeeps<S>(l: Link<S>, exec: Exec<S>)
    requires Inv(Supply(l), exec)
    ensures Inv(Apply(l, RotPop, exec), exec)
  {
    hide Supply;
  }

  /** The invariant over every interleaving of the RoT's register accesses with the serve loop. */
  lemma {:induction false} LinkRuns<S(!new)>(l: Link<S>, actions: seq<Action<S>>, exec: Exec<S>)
    requires Inv(l, exec) && Answers(exec)
    ensures Inv(Run(l, actions, exec), exec)
    decreases |actions|
  {
    hide Inv, FifoWr, Supply;
    if actions != [] {
      var a := actions[0];
      match a {
        case RotWrite(f) => RotWriteKeeps(l, f, exec);
        case RotPoll => SupplyKeeps(l, exec);
        case RotPop =>
          SupplyKeeps(l, exec);
          PopKeeps(l, exec);
        case SpPop => SpPopKeeps(l, exec);
        case SpExecute => if l.running.Some? { SpExecuteKeeps(l, exec); }
        case SpBurst(_) => BurstKeeps(l, a, exec);
      }
      LinkRuns(Apply(l, a, exec), actions[1..], exec);
    }
  }

  lemma BurstKeeps<S>(l: Link<S>, a: Action<S>, exec: Exec<S>)
    requires Inv(l, exec) && a.SpBurst?
    ensures Inv(Apply(l, a, exec), exec)
  {
  }

  lemma {:induction false} AnsweredCount<S(!new)>(ran: seq<(S, Req)>, exec: Exec<S>)
    requires Answers(exec)
    ensures |Answered(ran, exec)| == Reads(Executed(ran))
    decreases |ran|
  {
    if ran != [] {
      AnsweredCount(ran[..|ran| - 1], exec);
      var (port, q) := ran[|ran| - 1];
      assert exec(port, q).1.Some? <==> q.rnw;
      ReadsConcat(Executed(ran[..|ran| - 1]), [q]);
      ReadsOne(q);
    }
  }

  lemma FreshInv<S>(port: S, exec: Exec<S>)
    ensures Inv(Fresh(port), exec)
  {
  }

  /** In every interleaving of the RoT's register accesses with the serve loop, SP bursts between
      its steps included: requests are executed in issue order, each once; at most one read is
      outstanding, and it is while the decoder waits; and the k-th word handed back is what the
      k-th read issued was answered with, by the port as it was when that read was executed. */
  lemma ReadsInOrder<S(!new)>(s0: S, actions: seq<Action<S>>, exec: Exec<S>)
    requires Answers(exec)
    ensures var l := Run(Fresh(s0), actions, exec);
            && Executed(l.ran) <= l.issued
            && l.supplied <= Answered(l.ran, exec)
            && |Answered(l.ran, exec)| == Reads(Executed(l.ran))
            && Reads(l.issued) == |l.supplied| + if l.dev.phase == ReadData then 1 else 0
  {
    hide Apply, Answered, Executed, Answers;
    var l := Run(Fresh(s0), actions, exec);
    FreshInv(s0, exec);
    LinkRuns(Fresh(s0), actions, exec);
    AnsweredCount(l.ran, exec);
    ReadsConcat(Executed(l.ran) + Queued(l.running), l.req);
    ReadsConcat(Executed(l.ran), Queued(l.running));
    assert Executed(l.ran) <= Executed(l.ran) + (Queued(l.running) + l.req);
    assert Executed(l.ran) + Queued(l.running) + l.req == Executed(l.ran) + (Queued(l.running) + l.req);
  }

  // ---- a halted SP: executing one request after another, on one thread ------------------------------

  function PortAfter<S>(s: S, rs: seq<Req>, exec: Exec<S>): (t: S)
    decreases |rs|
  {
    if rs == [] then s else exec(PortAfter(s, rs[..|rs| - 1], exec), rs[|rs| - 1]).0
  }

  /** The results of the reads among `rs`, in order. */
  function Results<S>(s: S, rs: seq<Req>, exec: Exec<S>): (ws: seq<nat>)
    decreases |rs|
  {
    if rs == [] then []
    else
      var before := rs[..|rs| - 1];
      Results(s, before, exec) + Pending(exec(PortAfter(s, before, exec), rs[|rs| - 1]).1)
  }

  predicate NoBursts<S>(actions: seq<Action<S>>) {
    forall i :: 0 <= i < |actions| ==> !actions[i].SpBurst?
  }

  /** While the SP does not run, what was executed left the port, and was answered, as on one
      thread. */
  ghost predicate Sequential<S>(l: Link<S>, s0: S, exec: Exec<S>) {
    && l.port == PortAfter(s0, Executed(l.ran), exec)
    && Answered(l.ran, exec) == Results(s0, Executed(l.ran), exec)
  }

  lemma {:induction false} StaysSequential<S>(l: Link<S>, s0: S, actions: seq<Action<S>>, exec: Exec<S>)
    requires Sequential(l, s0, exec) && NoBursts(actions)
    ensures Sequential(Run(l, actions, exec), s0, exec)
    decreases |actions|
  {
    hide FifoWr, Supply, Sequential;
    if actions != [] {
      var a := actions[0];
      assert !a.SpBurst?;
      StepStaysSequential(l, s0, a, exec);
      StaysSequential(Apply(l, a, exec), s0, actions[1..], exec);
    }
  }

  lemma StepStaysSequential<S>(l: Link<S>, s0: S, a: Action<S>, exec: Exec<S>)
    requires Sequential(l, s0, exec) && !a.SpBurst?
    ensures Sequential(Apply(l, a, exec), s0, exec)
  {
    hide FifoWr, Executed, Answered, PortAfter, Results;
    if a.SpExecute? && l.running.Some? {
      var q := l.running.value;
      RanMore(l.ran, l.port, q, exec);
      RunsOneMore(s0, Executed(l.ran), q, exec);
    }
  }

  lemma RunsOneMore<S>(s0: S, rs: seq<Req>, q: Req, exec: Exec<S>)
    ensures PortAfter(s0, rs + [q], exec) == exec(PortAfter(s0, rs, exec), q).0
    ensures Results(s0, rs + [q], exec) == Results(s0, rs, exec) + Pending(exec(PortAfter(s0, rs, exec), q).1)
  {
    assert (rs + [q])[..|rs|] == rs;
  }

  lemma {:induction false} ResultsPrefix<S>(s0: S, done: seq<Req>, more: seq<Req>, exec: Exec<S>)
    ensures Results(s0, done, exec) <= Results(s0, done + more, exec)
    decreases |more|
  {
    if more != [] {
      ResultsPrefix(s0, done, more[..|more| - 1], exec);
      assert (done + more)[..|done + more| - 1] == done + more[..|more| - 1];
    } else {
      assert done + more == done;
    }
  }

  /** With the SP halted throughout, the k-th word handed back is the result the k-th read issued
      has when all requests run one after another. */
  lemma HaltedReadsInOrder<S(!new)>(s0: S, actions: seq<Action<S>>, exec: Exec<S>)
    requires Answers(exec) && NoBursts(actions)
    ensures var l := Run(Fresh(s0), actions, exec);
            && l.supplied <= Results(s0, l.issued, exec)
            && Reads(l.issued) == |l.supplied| + if l.dev.phase == ReadData then 1 else 0
  {
    hide Apply, Answered, Executed, Answers, Results, PortAfter;
    var l := Run(Fresh(s0), actions, exec);
    ReadsInOrder(s0, actions, exec);
    FreshSequential(s0, exec);
    StaysSequential(Fresh(s0), s0, actions, exec);
    var rest := l.issued[|Executed(l.ran)|..];
    assert l.issued == Executed(l.ran) + rest;
    ResultsPrefix(s0, Executed(l.ran), rest, exec);
  }

  lemma FreshSequential<S>(s0: S, exec: Exec<S>)
    ensures Sequential(Fresh(s0), s0, exec)
  {
  }

  // ---- a write, clocked while the serve loop runs ------------------------------------------------------

  /** The frames the RoT writes, in order. */
  function FramesOf<S>(actions: seq<Action<S>>): (fs: seq<Frame>)
    decreases |actions|
  {
    if actions == [] then []
    else (if actions[0].RotWrite? then [actions[0].f] else []) + FramesOf(actions[1..])
  }

  lemma FifoWrIgnoresRx(d: Dev, rx: seq<nat>, f: Frame)
    ensures FifoWr(d.(rx := rx), f).1 == FifoWr(d, f).1
    ensures FifoWr(d.(rx := rx), f).0.phase == FifoWr(d, f).0.phase
  {
    hide ReverseBits, Pow2, IsRequest, RequestOf;
  }

  lemma {:induction false} FeedIgnoresRx(d: Dev, rx: seq<nat>, fs: seq<Frame>)
    ensures Feed(d.(rx := rx), fs).1 == Feed(d, fs).1
    ensures Feed(d.(rx := rx), fs).0.phase == Feed(d, fs).0.phase
    decreases |fs|
  {
    hide FifoWr;
    if fs != [] {
      FifoWrIgnoresRx(d, rx, fs[0]);
      var a, b := FifoWr(d, fs[0]).0, FifoWr(d.(rx := rx), fs[0]).0;
      FeedIgnoresRx(a, b.rx, fs[1..]);
      assert b == a.(rx := b.rx);
    }
  }

  predicate NoReads(rs: seq<Req>) {
    forall i :: 0 <= i < |rs| ==> !rs[i].rnw
  }

  /** Whatever the RoT polls and pops, and whatever the serve loop does, between the frames of
      writes: the requests issued are the ones the frames decode to. */
  lemma {:induction false} WritesIssue<S>(l: Link<S>, actions: seq<Action<S>>, exec: Exec<S>)
    requires l.dev.phase != ReadData && NoReads(Feed(l.dev, FramesOf(actions)).1)
    ensures var t := Run(l, actions, exec);
            && t.issued == l.issued + Feed(l.dev, FramesOf(actions)).1
            && t.dev.phase == Feed(l.dev, FramesOf(actions)).0.phase
    decreases |actions|
  {
    hide FifoWr, Feed;
    if actions == [] {
      FeedNothing(l.dev);
      assert l.issued + [] == l.issued;
    } else {
      var a, rest := actions[0], actions[1..];
      var t := Apply(l, a, exec);
      if a.RotWrite? {
        var fs := FramesOf(actions);
        assert fs[0] == a.f && fs[1..] == FramesOf(rest);
        FeedStep(l.dev, fs);
        FifoWrPhase(l.dev, a.f);
        var r := FifoWr(l.dev, a.f);
        var more := Feed(r.0, FramesOf(rest)).1;
        assert Feed(l.dev, fs).1 == Queued(r.1) + more;
        if r.1.Some? { assert !Feed(l.dev, fs).1[0].rnw; }
        assert NoReads(more) by {
          assert forall i :: 0 <= i < |more| ==> more[i] == Feed(l.dev, fs).1[i + |Queued(r.1)|];
        }
        WritesIssue(t, rest, exec);
        assert (l.issued + Queued(r.1)) + more == l.issued + (Queued(r.1) + more);
      } else {
        assert [] + FramesOf(rest) == FramesOf(rest);
        OtherPhase(l, a, exec);
        FeedIgnoresRx(l.dev, t.dev.rx, FramesOf(rest));
        assert t.dev == l.dev.(rx := t.dev.rx);
        WritesIssue(t, rest, exec);
      }
    }
  }

  lemma FeedNothing(d: Dev)
    ensures Feed(d, []) == (d, [])
  {
  }

  lemma OtherPhase<S>(l: Link<S>, a: Action<S>, exec: Exec<S>)
    requires l.dev.phase != ReadData && !a.RotWrite?
    ensures Apply(l, a, exec).dev.phase == l.dev.phase && Apply(l, a, exec).issued == l.issued
  {
  }

  // ---- the device and the link, updated in place -----------------------------------------------------------------

  class SwdLink {
    var req: seq<Req>
    var resp: Option<nat>

    constructor ()
      ensures req == [] && resp == None
    {
      req, resp := [], None;
    }
  }

  class RotSwdSpi {
    const link: SwdLink
    var rx: seq<nat>
    var phase: Phase

    constructor (link: SwdLink)
      ensures this.link == link && rx == [] && phase == Idle
    {
      this.link := link;
      rx, phase := [], Idle;
    }

    ghost function Value(): (r: Dev)
      reads this
    {
      Dev(rx, phase)
    }

    /** Pushes the request a frame completes onto the shared queue. */
    method Fifowr(val: nat)
      modifies this, link
      ensures Value() == FifoWr(old(Value()), FrameOf(val)).0
      ensures link.req == old(link.req) + Queued(FifoWr(old(Value()), FrameOf(val)).1)
      ensures link.resp == old(link.resp)
    {
      hide ReverseBits, Pow2, IsRequest, RequestOf;
      var f := FrameOf(val);
      match phase
      case Idle =>
        if IsRequest(f) {
          var q := RequestOf(f.data);
          rx := rx + [ACK_OK];
          if q.rnw {
            link.req := link.req + [q];
            phase := ReadData;
          } else {
            phase := WriteData(0, 0, q.ap, q.a);
          }
        }
      case ReadData =>
      case WriteData(acc, bits, ap, a) =>
        if f.len != 4 {
          var acc' := acc * Pow2(f.len) + f.data % Pow2(f.len);
          var bits' := bits + f.len;
          if bits' >= 34 {
            var wdata := ReverseBits(32, acc' / 2 % Pow2(32));
            link.req := link.req + [Req(ap, false, a, wdata)];
            phase := Idle;
          } else {
            phase := WriteData(acc', bits', ap, a);
          }
        }
    }

    method MaybeSupplyReadData()
      modifies this, link
      ensures phase == (if old(phase == ReadData && rx == [] && link.resp.Some?) then Idle else old(phase))
      ensures rx == (if old(phase == ReadData && rx == [] && link.resp.Some?) then ReadFrames(old(link.resp).value)
                     else old(rx))
      ensures link.resp == (if old(phase == ReadData && rx == [] && link.resp.Some?) then None else old(link.resp))
      ensures link.req == old(link.req)
    {
      hide ReadFrames;
      if phase != ReadData || rx != [] { return; }
      if link.resp.Some? {
        rx := ReadFrames(link.resp.value);
        link.resp := None;
        phase := Idle;
      }
    }
  }
}
