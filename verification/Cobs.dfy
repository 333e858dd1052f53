/** COBS framing and the endpoint demultiplexer of the debug transport (src/glasgow.rs). */
module Cobs {
  import opened Memory
  import opened Wrappers

  const TGT_ROOT: u8 := 0
  const TGT_SWD: u8 := 1

  type Bytes = seq<u8>

  predicate NoZero(b: Bytes) {
    forall i :: 0 <= i < |b| ==> b[i] != 0
  }

  // ---- what a frame is --------------------------------------------------------------------

  /** A finished block: its code byte, one more than its length, and its bytes. */
  function Block(blk: Bytes): (b: Bytes)
    requires |blk| <= 254
    ensures |b| == |blk| + 1
  {
    [|blk| + 1] + blk
  }

  /** The rest of the encoding once `blk` has been collected for the open block. */
  function EncodeFrom(blk: Bytes, data: Bytes): (e: Bytes)
    requires |blk| < 254
    ensures |e| > 0
    decreases |data|
  {
    if data == [] then Block(blk)
    else if data[0] == 0 then Block(blk) + EncodeFrom([], data[1..])
    else if |blk| == 253 then Block(blk + [data[0]]) + EncodeFrom([], data[1..])
    else EncodeFrom(blk + [data[0]], data[1..])
  }

  function Encode(data: Bytes): (r: Bytes) {
    EncodeFrom([], data)
  }

  function Decode(e: Bytes): (r: Option<Bytes>)
    decreases |e|
  {
    if e == [] then Some([])
    else if e[0] == 0 || |e| < e[0] then None
    else
      var rest := e[e[0]..];
      match Decode(rest)
      case None => None
      case Some(tail) => Some(e[1..e[0]] + (if e[0] < 0xFF && rest != [] then [0] else []) + tail)
  }

  lemma DecodeBlock(blk: Bytes, rest: Bytes)
    requires |blk| <= 254 && Decode(rest).Some?
    ensures Decode(Block(blk) + rest)
         == Some(blk + (if |blk| < 254 && rest != [] then [0] else []) + Decode(rest).value)
  {
    var e := Block(blk) + rest;
    assert e[e[0]..] == rest && e[1..e[0]] == blk;
  }

  lemma {:induction false} DecodeEncodeFrom(blk: Bytes, data: Bytes)
    requires |blk| < 254
    ensures Decode(EncodeFrom(blk, data)) == Some(blk + data)
    decreases |data|
  {
    hide Decode;
    if data == [] {
      assert Decode([]) == Some([]) by { DecodeNothing(); }
      DecodeBlock(blk, []);
      assert Block(blk) + [] == Block(blk) && blk + [] + [] == blk + data;
    } else if data[0] == 0 {
      DecodeEncodeFrom([], data[1..]);
      DecodeBlock(blk, EncodeFrom([], data[1..]));
      assert blk + [0] + ([] + data[1..]) == blk + data;
    } else if |blk| == 253 {
      DecodeEncodeFrom([], data[1..]);
      DecodeBlock(blk + [data[0]], EncodeFrom([], data[1..]));
      assert (blk + [data[0]]) + [] + ([] + data[1..]) == blk + data;
    } else {
      DecodeEncodeFrom(blk + [data[0]], data[1..]);
      assert (blk + [data[0]]) + data[1..] == blk + data;
    }
  }

  lemma DecodeNothing()
    ensures Decode([]) == Some([])
  {
  }

  /** Every byte string survives framing. */
  lemma RoundTrip(data: Bytes)
    ensures Decode(Encode(data)) == Some(data)
  {
    DecodeEncodeFrom([], data);
    assert [] + data == data;
  }

  /** The encoding has no zero byte, so a zero delimits it. */
  lemma {:induction false} EncodeFromNoZero(blk: Bytes, data: Bytes)
    requires |blk| < 254 && NoZero(blk)
    ensures NoZero(EncodeFrom(blk, data))
    decreases |data|
  {
    if data != [] {
      if data[0] == 0 || |blk| == 253 {
        EncodeFromNoZero([], data[1..]);
      } else {
        EncodeFromNoZero(blk + [data[0]], data[1..]);
      }
    }
  }

  /** One byte of overhead for every 254, and one more. */
  lemma {:induction false} EncodeFromLength(blk: Bytes, data: Bytes)
    requires |blk| < 254
    ensures |EncodeFrom(blk, data)| <= |blk| + |data| + (|blk| + |data|) / 254 + 1
    decreases |data|
  {
    if data != [] {
      if data[0] == 0 || |blk| == 253 {
        EncodeFromLength([], data[1..]);
      } else {
        EncodeFromLength(blk + [data[0]], data[1..]);
      }
    }
  }

  lemma EncodeShape(data: Bytes)
    ensures NoZero(Encode(data)) && |Encode(data)| <= |data| + |data| / 254 + 1
  {
    EncodeFromNoZero([], data);
    EncodeFromLength([], data);
  }

  // ---- the loops ---------------------------------------------------------------------------------

  lemma EncodeNext(blk: Bytes, data: Bytes, i: nat)
    requires |blk| < 254 && i < |data|
    ensures EncodeFrom(blk, data[i..])
         == if data[i] == 0 then Block(blk) + EncodeFrom([], data[i + 1..])
            else if |blk| == 253 then Block(blk + [data[i]]) + EncodeFrom([], data[i + 1..])
            else EncodeFrom(blk + [data[i]], data[i + 1..])
  {
    assert data[i..][1..] == data[i + 1..];
  }

  lemma CloseBlock(done: Bytes, x: u8, blk: Bytes)
    requires |blk| <= 254
    ensures (done + [x] + blk)[|done| := |blk| + 1] == done + Block(blk)
  {
  }

  /** The open block's code byte is a placeholder until the block ends. */
  method CobsEncode(data: Bytes) returns (out: Bytes)
    ensures out == Encode(data)
  {
    hide EncodeFrom, Block;
    var codeIdx := 0;
    out := [0];
    var code: u8 := 1;
    var i := 0;
    ghost var done: Bytes, blk: Bytes := [], [];
    assert data[0..] == data && [] + EncodeFrom([], data) == EncodeFrom([], data);
    while i < |data|
      invariant 0 <= i <= |data| && codeIdx == |done| && code == |blk| + 1 && |blk| < 254
      invariant out == done + [0] + blk
      invariant done + EncodeFrom(blk, data[i..]) == Encode(data)
    {
      var b := data[i];
      EncodeNext(blk, data, i);
      if b != 0 {
        out := out + [b];
        code := code + 1;
        blk := blk + [b];
        if code == 0xFF {
          CloseBlock(done, 0, blk);
          out := out[codeIdx := code];
          codeIdx := |out|;
          done, blk := done + Block(blk), [];
          out := out + [0];
          code := 1;
        }
      } else {
        CloseBlock(done, 0, blk);
        out := out[codeIdx := code];
        codeIdx := |out|;
        done, blk := done + Block(blk), [];
        out := out + [0];
        code := 1;
      }
      i := i + 1;
    }
    assert data[i..] == [];
    LastBlock(blk);
    CloseBlock(done, 0, blk);
    out := out[codeIdx := code];
  }

  lemma LastBlock(blk: Bytes)
    requires |blk| < 254
    ensures EncodeFrom(blk, []) == Block(blk)
  {
  }

  /** Copies `n` bytes of one block, or finds it cut short. */
  method CopyBlock(out: Bytes, data: Bytes, start: nat, n: nat) returns (r: Option<Bytes>)
    requires start <= |data|
    ensures r == if start + n <= |data| then Some(out + data[start..start + n]) else None
  {
    var o := out;
    var i := start;
    assert out + data[start..start] == out;
    while i < start + n
      invariant start <= i <= start + n && i <= |data|
      invariant o == out + data[start..i]
    {
      if i >= |data| { return None; }
      assert data[start..i + 1] == data[start..i] + [data[i]];
      o := o + [data[i]];
      i := i + 1;
    }
    return Some(o);
  }

  /** A zero code byte or a block cut short is malformed. */
  method CobsDecode(data: Bytes) returns (r: Option<Bytes>)
    ensures r == Decode(data)
  {
    hide Decode, Prefixed, Implicit;
    var out: Bytes := [];
    var i := 0;
    assert data[0..] == data;
    PrefixedNothing(Decode(data));
    while i < |data|
      invariant 0 <= i <= |data|
      invariant Decode(data) == Prefixed(out, Decode(data[i..]))
    {
      var code := data[i];
      DecodeAt(data, i, out);
      if code == 0 { return None; }
      var blk := CopyBlock(out, data, i + 1, code - 1);
      if blk.None? { return None; }
      i := i + code;
      out := blk.value + Implicit(code, i < |data|);
    }
    assert data[i..] == [];
    DecodeNothing();
    PrefixedSome(out);
    return Some(out);
  }

  /** The zero that a short block stands for, unless it is the last. */
  function Implicit(code: u8, more: bool): (r: Bytes) {
    if code < 0xFF && more then [0] else []
  }

  lemma DecodeAt(data: Bytes, i: nat, out: Bytes)
    requires i < |data|
    ensures var code := data[i];
            Prefixed(out, Decode(data[i..]))
            == if code == 0 || i + code > |data| then None
               else Prefixed(out + data[i + 1..i + code] + Implicit(code, i + code < |data|), Decode(data[i + code..]))
  {
    var e, code := data[i..], data[i];
    DecodeUnfold(e);
    if code != 0 && i + code <= |data| {
      assert e[1..code] == data[i + 1..i + code] && e[code..] == data[i + code..];
      var blk := data[i + 1..i + code] + Implicit(code, i + code < |data|);
      PrefixedTwice(out, blk, Decode(data[i + code..]));
      assert out + blk == out + data[i + 1..i + code] + Implicit(code, i + code < |data|);
    }
  }

  lemma PrefixedSome(out: Bytes)
    ensures Prefixed(out, Some([])) == Some(out)
  {
    assert out + [] == out;
  }

  function Prefixed(p: Bytes, r: Option<Bytes>): (res: Option<Bytes>) {
    match r
    case None => None
    case Some(b) => Some(p + b)
  }

  lemma PrefixedNothing(r: Option<Bytes>)
    ensures Prefixed([], r) == r
  {
    if r.Some? {
      assert [] + r.value == r.value;
    }
  }

  lemma PrefixedTwice(p: Bytes, q: Bytes, r: Option<Bytes>)
    ensures Prefixed(p, Prefixed(q, r)) == Prefixed(p + q, r)
  {
    if r.Some? {
      assert p + (q + r.value) == (p + q) + r.value;
    }
  }

  lemma DecodeUnfold(e: Bytes)
    requires e != []
    ensures e[0] == 0 || |e| < e[0] ==> Decode(e).None?
    ensures e[0] != 0 && |e| >= e[0] ==>
              Decode(e) == Prefixed(e[1..e[0]] + (if e[0] < 0xFF && e[e[0]..] != [] then [0] else []),
                                    Decode(e[e[0]..]))
  {
  }

  // ---- the demultiplexer ----------------------------------------------------------------------------

  /** Undelimited input, and the two endpoint streams. */
  datatype Demux = Demux(raw: Bytes, root: Bytes, swd: Bytes)

  datatype Message = Message(target: u8, data: Bytes)

  function Framed(m: Message): (r: Bytes) {
    Encode([m.target] + m.data) + [0]
  }

  /** A frame goes to its endpoint; empty, malformed or foreign ones go nowhere. */
  function Deliver(d: Demux, payload: Bytes): (r: Demux) {
    if payload == [] then d
    else
      match Decode(payload)
      case None => d
      case Some(dec) =>
        if dec == [] then d
        else if dec[0] == TGT_ROOT then d.(root := d.root + dec[1..])
        else if dec[0] == TGT_SWD then d.(swd := d.swd + dec[1..])
        else d
  }

  function FirstZero(b: Bytes): (r: Option<nat>)
    ensures match r
            case None => NoZero(b)
            case Some(p) => p < |b| && b[p] == 0 && NoZero(b[..p])
  {
    if b == [] then None
    else if b[0] == 0 then Some(0)
    else
      match FirstZero(b[1..])
      case None => None
      case Some(p) =>
        assert b[..p + 1] == [b[0]] + b[1..][..p];
        Some(p + 1)
  }

  function Drained(d: Demux): (r: Demux)
    decreases |d.raw|
  {
    match FirstZero(d.raw)
    case None => d
    case Some(p) => Drained(Deliver(d.(raw := d.raw[p + 1..]), d.raw[..p]))
  }

  /** One read from the socket. */
  function Receive(d: Demux, chunk: Bytes): (r: Demux) {
    Drained(d.(raw := d.raw + chunk))
  }

  function ReceiveAll(d: Demux, chunks: seq<Bytes>): (r: Demux)
    decreases |chunks|
  {
    if chunks == [] then d else ReceiveAll(Receive(d, chunks[0]), chunks[1..])
  }

  function Joined(chunks: seq<Bytes>): (r: Bytes)
    decreases |chunks|
  {
    if chunks == [] then [] else chunks[0] + Joined(chunks[1..])
  }

  lemma {:induction false} FirstZeroAt(b: Bytes, p: nat)
    requires p < |b| && b[p] == 0 && NoZero(b[..p])
    ensures FirstZero(b) == Some(p)
  {
    if p > 0 {
      assert b[..p][0] != 0 && b[1..][..p - 1] == b[..p][1..];
      FirstZeroAt(b[1..], p - 1);
    }
  }

  lemma DeliverKeepsRaw(d: Demux, payload: Bytes, r: Bytes)
    ensures Deliver(d, payload).raw == d.raw
    ensures Deliver(d.(raw := r), payload) == Deliver(d, payload).(raw := r)
  {
  }

  lemma {:induction false} DrainedIsUndelimited(d: Demux)
    ensures NoZero(Drained(d).raw)
    decreases |d.raw|
  {
    hide Deliver;
    var z := FirstZero(d.raw);
    if z.Some? {
      DeliverKeepsRaw(d.(raw := d.raw[z.value + 1..]), d.raw[..z.value], []);
      DrainedIsUndelimited(Deliver(d.(raw := d.raw[z.value + 1..]), d.raw[..z.value]));
    }
  }

  /** Bytes that arrive later change nothing about the frames already there. */
  lemma {:induction false} DrainThenMore(d: Demux, more: Bytes)
    ensures Drained(d.(raw := d.raw + more)) == Drained(Drained(d).(raw := Drained(d).raw + more))
    decreases |d.raw|
  {
    hide Deliver;
    match FirstZero(d.raw)
    case None =>
    case Some(p) =>
      var whole := d.raw + more;
      assert whole[..p] == d.raw[..p] && whole[p + 1..] == d.raw[p + 1..] + more;
      FirstZeroAt(whole, p);
      var e := d.(raw := d.raw[p + 1..]);
      DeliverKeepsRaw(e, d.raw[..p], whole[p + 1..]);
      DrainThenMore(Deliver(e, d.raw[..p]), more);
  }

  /** However the socket cuts the stream, the endpoints see what they would see had it arrived
      whole. */
  lemma {:induction false} ChunksDoNotMatter(d: Demux, chunks: seq<Bytes>)
    requires NoZero(d.raw)
    ensures ReceiveAll(d, chunks) == Receive(d, Joined(chunks))
    decreases |chunks|
  {
    hide Deliver;
    if chunks == [] {
      assert d.raw + [] == d.raw;
    } else {
      var e := Receive(d, chunks[0]);
      DrainedIsUndelimited(d.(raw := d.raw + chunks[0]));
      ChunksDoNotMatter(e, chunks[1..]);
      DrainThenMore(d.(raw := d.raw + chunks[0]), Joined(chunks[1..]));
      assert d.raw + chunks[0] + Joined(chunks[1..]) == d.raw + Joined(chunks);
    }
  }

  function Wire(ms: seq<Message>): (r: Bytes)
    decreases |ms|
  {
    if ms == [] then [] else Framed(ms[0]) + Wire(ms[1..])
  }

  /** The data sent to one endpoint, in order. */
  function StreamTo(ms: seq<Message>, target: u8): (r: Bytes)
    decreases |ms|
  {
    if ms == [] then [] else (if ms[0].target == target then ms[0].data else []) + StreamTo(ms[1..], target)
  }

  function Sent(d: Demux, m: Message): (r: Demux) {
    d.(root := d.root + (if m.target == TGT_ROOT then m.data else []),
       swd := d.swd + (if m.target == TGT_SWD then m.data else []))
  }

  lemma FrameArrives(d: Demux, m: Message, more: Bytes)
    requires d.raw == Framed(m) + more
    ensures Drained(d) == Drained(Sent(d, m).(raw := more))
  {
    hide Encode, Decode;
    var e := Encode([m.target] + m.data);
    EncodeShape([m.target] + m.data);
    RoundTrip([m.target] + m.data);
    EncodeNotEmpty([m.target] + m.data);
    assert d.raw[..|e|] == e && d.raw[|e| + 1..] == more;
    FirstZeroAt(d.raw, |e|);
    assert ([m.target] + m.data)[1..] == m.data;
    assert d.root + [] == d.root && d.swd + [] == d.swd;
    assert Deliver(d.(raw := more), e) == Sent(d, m).(raw := more);
  }

  lemma EncodeNotEmpty(data: Bytes)
    ensures Encode(data) != []
  {
  }

  lemma {:induction false} WireArrives(d: Demux, ms: seq<Message>)
    requires d.raw == Wire(ms)
    ensures Drained(d) == Demux([], d.root + StreamTo(ms, TGT_ROOT), d.swd + StreamTo(ms, TGT_SWD))
    decreases |ms|
  {
    hide Drained;
    if ms == [] {
      assert d.root + [] == d.root && d.swd + [] == d.swd;
      NothingToDrain(d);
    } else {
      FrameArrives(d, ms[0], Wire(ms[1..]));
      var e := Sent(d, ms[0]).(raw := Wire(ms[1..]));
      WireArrives(e, ms[1..]);
      assert e.root + StreamTo(ms[1..], TGT_ROOT) == d.root + StreamTo(ms, TGT_ROOT);
      assert e.swd + StreamTo(ms[1..], TGT_SWD) == d.swd + StreamTo(ms, TGT_SWD);
    }
  }

  lemma NothingToDrain(d: Demux)
    requires d.raw == []
    ensures Drained(d) == d
  {
  }

  /** Any list of frames for the endpoints, cut into any socket chunks, demultiplexes back to
      exactly the two byte streams. */
  lemma DemuxIsExact(ms: seq<Message>, chunks: seq<Bytes>)
    requires Joined(chunks) == Wire(ms)
    ensures ReceiveAll(Demux([], [], []), chunks) == Demux([], StreamTo(ms, TGT_ROOT), StreamTo(ms, TGT_SWD))
  {
    var d := Demux([], [], []);
    ChunksDoNotMatter(d, chunks);
    assert d.raw + Joined(chunks) == Wire(ms);
    WireArrives(d.(raw := Wire(ms)), ms);
    assert [] + StreamTo(ms, TGT_ROOT) == StreamTo(ms, TGT_ROOT);
    assert [] + StreamTo(ms, TGT_SWD) == StreamTo(ms, TGT_SWD);
  }

  method CobsFrame(target: u8, data: Bytes) returns (framed: Bytes)
    ensures framed == Framed(Message(target, data))
  {
    framed := CobsEncode([target] + data);
    framed := framed + [0];
  }

  class Transport {
    var raw: Bytes
    var rootIn: Bytes
    var swdIn: Bytes

    constructor ()
      ensures Value() == Demux([], [], [])
    {
      raw, rootIn, swdIn := [], [], [];
    }

    ghost function Value(): (r: Demux)
      reads this
    {
      Demux(raw, rootIn, swdIn)
    }

    method DeliverPayload(payload: Bytes)
      modifies this`rootIn, this`swdIn
      ensures Value() == Deliver(old(Value()), payload)
    {
      hide Decode;
      if payload == [] { return; }
      var dec := CobsDecode(payload);
      if dec.Some? && dec.value != [] {
        if dec.value[0] == TGT_ROOT {
          rootIn := rootIn + dec.value[1..];
        } else if dec.value[0] == TGT_SWD {
          swdIn := swdIn + dec.value[1..];
        }
      }
    }

    /** Takes every complete frame off the input and keeps the rest for the next read. */
    method ReceiveChunk(chunk: Bytes)
      modifies this
      ensures Value() == Receive(old(Value()), chunk)
    {
      hide Deliver;
      raw := raw + chunk;
      var pos := FirstZero(raw);
      while pos.Some?
        invariant pos == FirstZero(raw)
        invariant Drained(Value()) == Receive(old(Value()), chunk)
        decreases |raw|
      {
        var payload := raw[..pos.value];
        raw := raw[pos.value + 1..];
        DeliverKeepsRaw(Value(), payload, []);
        DeliverPayload(payload);
        pos := FirstZero(raw);
      }
    }
  }
}
