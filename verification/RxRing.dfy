/** The Ethernet receive DMA (src/mem.rs, pump_eth, eth_rx_has_space, eth_rx_inject): frames
    from the host fill the descriptors the driver has handed over, in ring order. */
module RxRing {
  import opened Arithmetic
  import opened Memory
  import opened Wrappers
  import Checksum

  const BUFSZ: nat := 1536
  const VLAN_TPID: nat := 0x8100
  const OWN: nat := 0x8000_0000
  const DONE: nat := 0x3200_0000   // FD, LD and RS0V: bits 29, 28 and 25

  type Frame = seq<u8>

  datatype Rx = Rx(ram: Ram, base: nat, len: nat, next: nat)

  // ---- layout ----------------------------------------------------------------------------

  function Desc(s: Rx, i: nat): (r: nat) {
    s.base + 16 * i
  }

  predicate Apart(a: int, n: nat, b: int, m: nat) {
    a + n <= b || b + m <= a
  }

  /** What the driver sets up: a ring in RAM, one buffer a descriptor, none overlapping another
      or the ring. */
  ghost predicate Placed(s: Rx, bufs: seq<nat>) {
    && s.base > 0 && s.next < s.len == |bufs|
    && s.ram.base + |s.ram.data| <= TWO32
    && s.ram.Holds(s.base, 16 * s.len)
    && (forall i :: 0 <= i < s.len ==> s.ram.Holds(bufs[i], BUFSZ) && Apart(bufs[i], BUFSZ, s.base, 16 * s.len))
    && (forall i, j :: 0 <= i < j < s.len ==> Apart(bufs[i], BUFSZ, bufs[j], BUFSZ))
  }

  predicate DescInRam(s: Rx, i: nat) {
    s.ram.Holds(Desc(s, i), 16)
  }

  function Word(s: Rx, i: nat, k: nat): (r: u32)
    requires DescInRam(s, i) && k < 4
  {
    s.ram.Read32(Desc(s, i) + 4 * k)
  }

  /** The DMA owns descriptor `i`. */
  predicate Owned(s: Rx, i: nat)
    requires DescInRam(s, i)
  {
    Word(s, i, 3) >= OWN
  }

  lemma PlacedDesc(s: Rx, bufs: seq<nat>, i: nat)
    requires Placed(s, bufs) && i < s.len
    ensures DescInRam(s, i)
  {
  }

  /** A descriptor the driver handed over points at its buffer. */
  ghost predicate Ready(s: Rx, bufs: seq<nat>)
    requires Placed(s, bufs)
  {
    forall i :: 0 <= i < s.len && DescInRam(s, i) && Owned(s, i) ==> Word(s, i, 0) == bufs[i]
  }

  // ---- one frame ----------------------------------------------------------------------------

  predicate Tagged(f: Frame) {
    |f| >= 16 && Checksum.Be16(f[12], f[13]) == VLAN_TPID
  }

  /** The VLAN id, and the frame as the driver reads it. */
  function Vid(f: Frame): (v: u32)
    ensures v < 0x1000
  {
    if Tagged(f) then Checksum.Be16(f[14], f[15]) % 0x1000 else 0
  }

  function Untagged(f: Frame): (r: Frame) {
    if Tagged(f) then f[..12] + f[16..] else f
  }

  /** The bytes that fit the buffer. */
  function Payload(f: Frame): (d: Frame)
    ensures |d| <= BUFSZ
  {
    var u := Untagged(f);
    if |u| <= BUFSZ then u else u[..BUFSZ]
  }

  function WriteBytes(m: Ram, a: nat, d: Frame): (r: Ram)
    requires m.Holds(a, |d|)
    ensures r.base == m.base && |r.data| == |m.data|
    ensures forall x :: m.Holds(x, 1) ==> r.Byte(x) == if a <= x < a + |d| then d[x - a] else m.Byte(x)
  {
    Ram(m.base, seq(|m.data|, k requires 0 <= k < |m.data| =>
      if a <= m.base + k < a + |d| then d[m.base + k - a] else m.data[k]))
  }

  predicate HasSpace(s: Rx) {
    s.base != 0 && DescInRam(s, s.next) && Owned(s, s.next)
  }

  /** The buffer address is whatever RDES0 of the descriptor says. */
  predicate CanInject(s: Rx, f: Frame) {
    HasSpace(s) && s.len > 0 && s.ram.Holds(Word(s, s.next, 0), |Payload(f)|)
  }

  function Inject(s: Rx, f: Frame): (t: Rx)
    requires CanInject(s, f)
    ensures t.base == s.base && t.len == s.len && t.next == (s.next + 1) % s.len
    ensures t.ram.base == s.ram.base && |t.ram.data| == |s.ram.data|
  {
    var d := Desc(s, s.next);
    var m1 := WriteBytes(s.ram, Word(s, s.next, 0), Payload(f));
    var m2 := m1.Write32(d, Vid(f));
    var m3 := m2.Write32(d + 12, DONE + |Payload(f)|);
    s.(ram := m3, next := (s.next + 1) % s.len)
  }

  /** Descriptor `i` and its buffer hold the frame, and the driver owns them. */
  ghost predicate Holding(s: Rx, i: nat, buf: nat, f: Frame) {
    && DescInRam(s, i) && s.ram.Holds(buf, |Payload(f)|)
    && Word(s, i, 0) == Vid(f) && Word(s, i, 3) == DONE + |Payload(f)|
    && forall k :: 0 <= k < |Payload(f)| ==> s.ram.Byte(buf + k) == Payload(f)[k]
  }

  /** Nothing of descriptor `i` or its buffer differs between the two. */
  ghost predicate SameSlot(s: Rx, t: Rx, i: nat, buf: nat) {
    && DescInRam(s, i) && s.ram.Holds(buf, BUFSZ)
    && t.base == s.base && t.ram.base == s.ram.base && |t.ram.data| == |s.ram.data|
    && (forall x :: Desc(s, i) <= x < Desc(s, i) + 16 ==> t.ram.Byte(x) == s.ram.Byte(x))
    && (forall x :: buf <= x < buf + BUFSZ ==> t.ram.Byte(x) == s.ram.Byte(x))
  }

  lemma SameSlotWords(s: Rx, t: Rx, i: nat, buf: nat, k: nat)
    requires SameSlot(s, t, i, buf) && k < 4
    ensures Word(t, i, k) == Word(s, i, k)
  {
    AgreeReads(s.ram, t.ram, Desc(s, i) + 4 * k);
  }

  lemma SameSlotHolds(s: Rx, t: Rx, i: nat, buf: nat, f: Frame)
    requires SameSlot(s, t, i, buf) && Holding(s, i, buf, f)
    ensures Holding(t, i, buf, f)
  {
    hide Word, Payload;
    SameSlotWords(s, t, i, buf, 0);
    SameSlotWords(s, t, i, buf, 3);
  }

  /** Which bytes an injection writes. */
  lemma InjectWrites(s: Rx, f: Frame, x: nat)
    requires CanInject(s, f) && s.ram.Holds(x, 1)
    requires var d, buf := Desc(s, s.next), Word(s, s.next, 0);
             !(buf <= x < buf + |Payload(f)|) && !(d <= x < d + 4) && !(d + 12 <= x < d + 16)
    ensures Inject(s, f).ram.Byte(x) == s.ram.Byte(x)
  {
    hide Payload, Vid, Word;
  }

  lemma InjectDescriptor(s: Rx, f: Frame, bufs: seq<nat>)
    requires Placed(s, bufs) && Ready(s, bufs) && HasSpace(s)
    ensures CanInject(s, f)
    ensures Holding(Inject(s, f), s.next, bufs[s.next], f)
  {
    hide Payload, Vid, Ram.Read32, Ram.Write32, WriteBytes;
    var d, buf, p := Desc(s, s.next), bufs[s.next], Payload(f);
    assert Word(s, s.next, 0) == buf;
    var m1 := WriteBytes(s.ram, buf, p);
    var m2 := m1.Write32(d, Vid(f));
    var m3 := m2.Write32(d + 12, DONE + |p|);
    AgreeReads(m2, m3, d);
    assert Apart(buf, BUFSZ, s.base, 16 * s.len);
    forall k | 0 <= k < |p|
      ensures m3.Byte(buf + k) == p[k]
    {
      assert m1.Holds(buf + k, 1);
    }
  }

  lemma InjectElsewhere(s: Rx, f: Frame, bufs: seq<nat>, i: nat)
    requires Placed(s, bufs) && Ready(s, bufs) && CanInject(s, f) && i < s.len && i != s.next
    ensures SameSlot(s, Inject(s, f), i, bufs[i])
  {
    hide Payload, Vid, Inject;
    var d, buf, t := Desc(s, s.next), bufs[s.next], Inject(s, f);
    assert Word(s, s.next, 0) == buf;
    assert Apart(buf, BUFSZ, s.base, 16 * s.len) && Apart(bufs[i], BUFSZ, s.base, 16 * s.len);
    assert Apart(buf, BUFSZ, bufs[i], BUFSZ);
    forall x | Desc(s, i) <= x < Desc(s, i) + 16
      ensures t.ram.Byte(x) == s.ram.Byte(x)
    {
      InjectWrites(s, f, x);
    }
    forall x | bufs[i] <= x < bufs[i] + BUFSZ
      ensures t.ram.Byte(x) == s.ram.Byte(x)
    {
      InjectWrites(s, f, x);
    }
  }

  lemma InjectKeeps(s: Rx, f: Frame, bufs: seq<nat>)
    requires Placed(s, bufs) && Ready(s, bufs) && CanInject(s, f)
    ensures Placed(Inject(s, f), bufs) && Ready(Inject(s, f), bufs)
    ensures DescInRam(Inject(s, f), s.next) && !Owned(Inject(s, f), s.next)
  {
    hide Payload, Word, Inject;
    var t := Inject(s, f);
    InjectDescriptor(s, f, bufs);
    forall i | 0 <= i < t.len && DescInRam(t, i) && Owned(t, i)
      ensures Word(t, i, 0) == bufs[i]
    {
      if i != s.next {
        InjectElsewhere(s, f, bufs, i);
        SameSlotWords(s, t, i, bufs[i], 0);
        SameSlotWords(s, t, i, bufs[i], 3);
      }
    }
  }

  // ---- the pump ---------------------------------------------------------------------------------

  /** How many of the first `n` descriptors the DMA owns. */
  ghost function OwnCount(s: Rx, n: nat): (c: nat)
    requires s.ram.Holds(s.base, 16 * n)
    ensures c <= n
  {
    if n == 0 then 0
    else OwnCount(s, n - 1) + if DescInRam(s, n - 1) && Owned(s, n - 1) then 1 else 0
  }

  lemma {:induction false} OwnCountDrops(s: Rx, f: Frame, bufs: seq<nat>, n: nat)
    requires Placed(s, bufs) && Ready(s, bufs) && CanInject(s, f) && n <= s.len
    ensures Inject(s, f).ram.Holds(s.base, 16 * n)
    ensures OwnCount(Inject(s, f), n) == OwnCount(s, n) - if s.next < n then 1 else 0
  {
    hide Inject, Word, Ready;
    if n > 0 {
      OwnCountDrops(s, f, bufs, n - 1);
      if n - 1 == s.next {
        InjectKeeps(s, f, bufs);
      } else {
        InjectElsewhere(s, f, bufs, n - 1);
        SameSlotWords(s, Inject(s, f), n - 1, bufs[n - 1], 3);
      }
    }
  }

  ghost predicate Live(s: Rx, bufs: seq<nat>) {
    Placed(s, bufs) && Ready(s, bufs)
  }

  /** Deliver while there is space and the host has a frame; `supply(k)` is its answer to the
      k-th call, and it may never run dry.  Each pass takes one descriptor from a finite ring. */
  ghost function Pump(s: Rx, bufs: seq<nat>, supply: nat -> Option<Frame>, k: nat): (r: (Rx, nat))
    requires Live(s, bufs)
    ensures r.1 >= k
    decreases OwnCount(s, s.len)
  {
    if HasSpace(s) && supply(k).Some? then
      InjectDescriptor(s, supply(k).value, bufs);
      InjectKeeps(s, supply(k).value, bufs);
      OwnCountDrops(s, supply(k).value, bufs, s.len);
      Pump(Inject(s, supply(k).value), bufs, supply, k + 1)
    else (s, k)
  }

  /** Ring position `j` steps on. */
  function Slot(s: Rx, j: nat): (i: nat)
    requires s.len > 0
    ensures i < s.len
  {
    (s.next + j) % s.len
  }

  lemma SlotNext(s: Rx, t: Rx, j: nat)
    requires s.len > 0 && t.len == s.len && s.next < s.len && t.next == (s.next + 1) % s.len
    ensures Slot(t, j) == Slot(s, j + 1)
  {
    if s.next + 1 == s.len {
      assert t.next == 0 && s.next + (j + 1) == s.len + j;
      ModPlus(j, s.len);
    } else {
      Quotient(0, s.len, s.next + 1);
      assert t.next + j == s.next + (j + 1);
    }
  }

  lemma ModPlus(j: nat, n: nat)
    requires n > 0
    ensures (n + j) % n == j % n
  {
    assert n + j == (1 + j / n) * n + j % n by {
      assert j == j / n * n + j % n;
      assert (1 + j / n) * n == n + j / n * n;
    }
    Quotient(1 + j / n, n, j % n);
  }

  lemma SlotZero(s: Rx)
    requires s.next < s.len
    ensures Slot(s, 0) == s.next
  {
  }

  /** The frames delivered from call `k` on sit in consecutive slots. */
  ghost predicate Delivered(s: Rx, t: Rx, bufs: seq<nat>, supply: nat -> Option<Frame>, k: nat, end: nat)
    requires s.len > 0 && |bufs| == s.len
  {
    forall j :: 0 <= j < end - k ==>
      supply(k + j).Some? && Holding(t, Slot(s, j), bufs[Slot(s, j)], supply(k + j).value)
  }

  ghost predicate Untouched(s: Rx, t: Rx, bufs: seq<nat>, i: nat)
    requires i < |bufs|
  {
    SameSlot(s, t, i, bufs[i])
  }

  lemma UntouchedTrans(s: Rx, t: Rx, u: Rx, bufs: seq<nat>, i: nat)
    requires i < |bufs| && Untouched(s, t, bufs, i) && Untouched(t, u, bufs, i)
    ensures Untouched(s, u, bufs, i)
  {
    forall x | bufs[i] <= x < bufs[i] + BUFSZ
      ensures u.ram.Byte(x) == s.ram.Byte(x)
    {
      assert t.ram.Byte(x) == s.ram.Byte(x);
    }
    forall x | Desc(s, i) <= x < Desc(s, i) + 16
      ensures u.ram.Byte(x) == s.ram.Byte(x)
    {
      assert t.ram.Byte(x) == s.ram.Byte(x);
    }
  }

  lemma UntouchedRefl(s: Rx, bufs: seq<nat>, i: nat)
    requires Placed(s, bufs) && i < s.len
    ensures Untouched(s, s, bufs, i)
  {
    PlacedDesc(s, bufs, i);
  }

  /** A slot the DMA does not own is not touched by a pump, however long it goes on. */
  lemma {:induction false} DriverSlotsUntouched(s: Rx, bufs: seq<nat>, supply: nat -> Option<Frame>, k: nat, i: nat)
    requires Live(s, bufs) && i < s.len && DescInRam(s, i) && !Owned(s, i)
    ensures Untouched(s, Pump(s, bufs, supply, k).0, bufs, i)
    decreases OwnCount(s, s.len)
  {
    hide Placed, Ready, Inject, Word, SameSlot;
    if HasSpace(s) && supply(k).Some? {
      var f := supply(k).value;
      InjectDescriptor(s, f, bufs);
      InjectKeeps(s, f, bufs);
      LiveLen(s, bufs);
      OwnCountDrops(s, f, bufs, s.len);
      var t := Inject(s, f);
      InjectElsewhere(s, f, bufs, i);
      SameSlotWords(s, t, i, bufs[i], 3);
      DriverSlotsUntouched(t, bufs, supply, k + 1, i);
      UntouchedTrans(s, t, Pump(t, bufs, supply, k + 1).0, bufs, i);
    } else {
      UntouchedRefl(s, bufs, i);
    }
  }

  lemma LiveLen(s: Rx, bufs: seq<nat>)
    requires Live(s, bufs)
    ensures s.len == |bufs| && s.next < s.len && s.ram.Holds(s.base, 16 * s.len)
  {
  }

  /** No frame is lost or reordered.  Whatever the host offers, the pump ends; every frame it
      took sits in the next descriptor in ring order, whole or cut at 1536 bytes, its VLAN tag
      moved to RDES0, and is the driver's; it stopped because the host had no more, having
      taken none it could not place, or because the next descriptor is the driver's. */
  lemma {:induction false} PumpDelivers(s: Rx, bufs: seq<nat>, supply: nat -> Option<Frame>, k: nat)
    requires Live(s, bufs)
    ensures s.len == |bufs| && s.len > 0
    ensures var (t, end) := Pump(s, bufs, supply, k);
            && Live(t, bufs) && Delivered(s, t, bufs, supply, k, end)
            && (supply(end).None? || !HasSpace(t))
    decreases OwnCount(s, s.len)
  {
    hide Placed, Ready, Inject, Word, SameSlot, Holding;
    LiveLen(s, bufs);
    if HasSpace(s) && supply(k).Some? {
      var f := supply(k).value;
      InjectDescriptor(s, f, bufs);
      InjectKeeps(s, f, bufs);
      OwnCountDrops(s, f, bufs, s.len);
      var t := Inject(s, f);
      PumpDelivers(t, bufs, supply, k + 1);
      var u, end := Pump(t, bufs, supply, k + 1).0, Pump(t, bufs, supply, k + 1).1;
      DriverSlotsUntouched(t, bufs, supply, k + 1, s.next);
      SameSlotHolds(t, u, s.next, bufs[s.next], f);
      forall j | 0 <= j < end - k
        ensures supply(k + j).Some? && Holding(u, Slot(s, j), bufs[Slot(s, j)], supply(k + j).value)
      {
        if j == 0 {
          SlotZero(s);
        } else {
          SlotNext(s, t, j - 1);
          assert supply(k + 1 + (j - 1)) == supply(k + j);
        }
      }
    }
  }

  /** Space always suffices: a popped frame is never dropped. */
  lemma SpaceSuffices(s: Rx, bufs: seq<nat>, f: Frame)
    requires Live(s, bufs) && HasSpace(s)
    ensures CanInject(s, f)
  {
    InjectDescriptor(s, f, bufs);
  }

  /** A frame the bridge builds arrives as the untagged frame, with its VLAN id beside it. */
  lemma BuiltIsUntagged(p: Checksum.Packet)
    requires Checksum.Sized(p) && 0 < p.vid < 0x1000
    ensures Vid(Checksum.Built(p)) == p.vid
    ensures Untagged(Checksum.Built(p)) == Checksum.Built(p.(vid := 0))
  {
    hide Checksum.Ipv6, Checksum.Be16;
    var f := Checksum.Built(p);
    BuiltTag(p);
    Checksum.WordRoundTrip(p.vid);
    VidNotInIpv6(p);
    var head := p.dstMac + p.srcMac;
    var rest := Checksum.Bytes16(Checksum.ETHERTYPE_IPV6) + Checksum.Ipv6(p);
    assert f == head + Checksum.Tag(p.vid) + rest;
    assert f[..12] == head && f[16..] == rest;
    assert head + [] + rest == head + rest;
  }

  lemma BuiltTag(p: Checksum.Packet)
    requires Checksum.Sized(p) && 0 < p.vid < 0x1000
    ensures var f := Checksum.Built(p);
            && |f| >= 16 && Checksum.Be16(f[12], f[13]) == VLAN_TPID
            && f[14] == p.vid / 0x100 && f[15] == p.vid % 0x100
  {
    hide Checksum.Ipv6;
  }

  lemma VidNotInIpv6(p: Checksum.Packet)
    requires Checksum.Sized(p)
    ensures Checksum.Ipv6(p) == Checksum.Ipv6(p.(vid := 0))
  {
  }

  // ---- the DMA, updated in place ------------------------------------------------------------------

  class RxDma {
    var ram: Ram
    var base: nat
    var len: nat
    var next: nat
    var irq: bool

    ghost function Value(): (r: Rx)
      reads this
    {
      Rx(ram, base, len, next)
    }

    constructor (ram: Ram, base: nat, len: nat)
      ensures Value() == Rx(ram, base, len, 0) && !irq
    {
      this.ram, this.base, this.len, next, irq := ram, base, len, 0, false;
    }

    /** Byte by byte into the descriptor's buffer. */
    method Fill(buf: nat, data: Frame)
      requires ram.Holds(buf, |data|)
      modifies this`ram
      ensures ram == WriteBytes(old(ram), buf, data)
    {
      var i := 0;
      while i < |data|
        invariant 0 <= i <= |data| && ram.base == old(ram).base && |ram.data| == |old(ram).data|
        invariant forall k :: 0 <= k < |ram.data| ==>
                    ram.data[k] == if buf <= ram.base + k < buf + i then data[ram.base + k - buf] else old(ram).data[k]
      {
        ram := ram.(data := ram.data[buf + i - ram.base := data[i]]);
        i := i + 1;
      }
      assert ram.data == WriteBytes(old(ram), buf, data).data;
    }

    /** Drops the frame only when the driver owns the next descriptor. */
    method EthRxInject(f: Frame) returns (ok: bool)
      requires DescInRam(Value(), next) && (HasSpace(Value()) ==> CanInject(Value(), f))
      modifies this
      ensures ok <==> HasSpace(old(Value()))
      ensures Value() == (if ok then Inject(old(Value()), f) else old(Value()))
      ensures irq == (ok || old(irq))
    {
      hide Payload, Vid, WriteBytes, Ram.Read32, Ram.Write32;
      if base == 0 { return false; }
      var d := base + next * 16;
      if ram.Read32(d + 12) < OWN { return false; }
      var p := Payload(f);
      var buf := ram.Read32(d);
      Fill(buf, p);
      ram := ram.Write32(d, Vid(f));
      ram := ram.Write32(d + 12, DONE + |p|);
      next := (next + 1) % len;
      irq := true;
      return true;
    }

    /** The pump polls for space before it pops a frame. */
    method PumpEth(supply: nat -> Option<Frame>, ghost bufs: seq<nat>) returns (taken: nat)
      requires Live(Value(), bufs)
      modifies this
      ensures (Value(), taken) == Pump(old(Value()), bufs, supply, 0)
    {
      hide Inject, Live, HasSpace, Pump, OwnCount, CanInject;
      taken := 0;
      ghost var done := Pump(Value(), bufs, supply, 0);
      Sized(Value(), bufs);
      while true
        invariant Live(Value(), bufs) && Pump(Value(), bufs, supply, taken) == done
        invariant next < len && ram.Holds(base, 16 * len) && DescInRam(Value(), next)
        decreases OwnCount(Value(), len)
      {
        PumpStep(Value(), bufs, supply, taken);
        SpaceIs(Value());
        var space := base != 0 && ram.Read32(base + next * 16 + 12) >= OWN;
        if !space { break; }
        var r := supply(taken);
        if r.None? { break; }
        var ok := EthRxInject(r.value);
        Sized(Value(), bufs);
        taken := taken + 1;
      }
    }
  }

  lemma PumpStep(s: Rx, bufs: seq<nat>, supply: nat -> Option<Frame>, k: nat)
    requires Live(s, bufs) && s.ram.Holds(s.base, 16 * s.len)
    ensures HasSpace(s) && supply(k).Some? ==>
              var f := supply(k).value;
              && CanInject(s, f) && Live(Inject(s, f), bufs)
              && Inject(s, f).ram.Holds(s.base, 16 * s.len) && OwnCount(Inject(s, f), s.len) < OwnCount(s, s.len)
              && Pump(s, bufs, supply, k) == Pump(Inject(s, f), bufs, supply, k + 1)
    ensures !(HasSpace(s) && supply(k).Some?) ==> Pump(s, bufs, supply, k) == (s, k)
  {
    hide Inject, Placed, Ready, HasSpace;
    if HasSpace(s) && supply(k).Some? {
      var f := supply(k).value;
      InjectDescriptor(s, f, bufs);
      InjectKeeps(s, f, bufs);
      LiveLen(s, bufs);
      OwnCountDrops(s, f, bufs, s.len);
    }
  }

  lemma Sized(s: Rx, bufs: seq<nat>)
    requires Live(s, bufs)
    ensures s.next < s.len && s.ram.Holds(s.base, 16 * s.len) && DescInRam(s, s.next)
  {
  }

  lemma SpaceIs(s: Rx)
    requires DescInRam(s, s.next)
    ensures HasSpace(s) <==> s.base != 0 && s.ram.Read32(s.base + s.next * 16 + 12) >= OWN
  {
  }
}
