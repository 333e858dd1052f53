/** The PC-keyed decode cache against fresh decoding (src/cpu.rs, step, fetch_decode,
    invalidate_decode, flush_decode_cache; src/debugport.rs, drw_write; src/gdb.rs, the reset
    edge).  Decoding itself is any function of the four fetched bytes. */
module DecodeCache {
  import opened Memory

  const ITCM_HI: nat := 0x1_0000

  /** Every byte of the address space. */
  type Space = int -> u8

  function Stored(m: Space, a: int, bytes: seq<u8>): (r: Space) {
    x => if a <= x < a + |bytes| then bytes[x - a] else m(x)
  }

  /** Two halfword reads, the second address wrapping around. */
  function Fetched(m: Space, pc: u32): (b: seq<u8>)
    ensures |b| == 4
  {
    [m(pc), m(Add32(pc, 1)), m(Add32(pc, 2)), m(Add32(pc, 3))]
  }

  /** Whether the instruction fetched at `pc` includes address `x`. */
  predicate Covers(pc: u32, x: int) {
    x == pc || x == Add32(pc, 1) || x == Add32(pc, 2) || x == Add32(pc, 3)
  }

  predicate Overlaps(pc: u32, a: int, n: nat) {
    exists x :: a <= x < a + n && Covers(pc, x)
  }

  /** The entries a debug-port write drops. */
  function Dropped(tar: u32): (r: set<int>) {
    {Add32(tar, -2), tar, Add32(tar, 2)}
  }

  datatype Core<!D> = Core(
    mem: Space,
    cache: map<int, D>,
    debugEn: bool,
    lo: int,                 // this core's own flash
    hi: int)

  /** What may happen to code and cache.  A reset that latches a bank swap replaces what the
      address space holds and flushes the cache. */
  datatype Op =
    | Exec(pc: u32)
    | CoreStore(a: u32, bytes: seq<u8>)
    | DebugWrite(tar: u32, bytes: seq<u8>)
    | SetDebug(on: bool)
    | SwapReset(mem: Space)

  predicate Cacheable<D>(c: Core<D>, pc: u32) {
    c.lo <= pc < c.hi || (c.debugEn && pc < ITCM_HI)
  }

  /** Fetch and decode through the cache. */
  function Lookup<D>(c: Core<D>, pc: u32, decode: seq<u8> -> D): (r: D) {
    if Cacheable(c, pc) && pc in c.cache then c.cache[pc] else decode(Fetched(c.mem, pc))
  }

  function Apply<D>(c: Core<D>, op: Op, decode: seq<u8> -> D): (r: Core<D>) {
    match op
    case Exec(pc) => if Cacheable(c, pc) then c.(cache := c.cache[pc := Lookup(c, pc, decode)]) else c
    case CoreStore(a, bytes) => c.(mem := Stored(c.mem, a, bytes))
    case DebugWrite(tar, bytes) =>
      c.(mem := Stored(c.mem, tar, bytes), cache := if tar < ITCM_HI then c.cache - Dropped(tar) else c.cache)
    case SetDebug(on) => c.(debugEn := on)
    case SwapReset(m) => c.(mem := m, cache := map[])
  }

  // ---- which PCs a debug write touches -------------------------------------------------

  predicate Even(pc: int) {
    pc % 2 == 0
  }

  lemma OverlapWindow(pc: u32, tar: u32, n: nat)
    requires Even(pc) && Even(tar) && n <= 4 && tar < ITCM_HI && Overlaps(pc, tar, n)
    ensures pc in Dropped(tar)
  {
    hide Add32;
    var x :| tar <= x < tar + n && Covers(pc, x);
    Wraps(pc);
    Wraps(tar);
    if pc + 3 < TWO32 {
      assert pc <= x <= pc + 3;
    } else {
      assert pc == TWO32 - 2;
    }
  }

  lemma Wraps(a: u32)
    ensures forall k :: 0 <= k < 4 ==> Add32(a, k) == if a + k < TWO32 then a + k else a + k - TWO32
    ensures Add32(a, -2) == if a >= 2 then a - 2 else a - 2 + TWO32
  {
  }

  /** The three dropped addresses are every instruction address whose fetch a write of 1, 2
      or 4 bytes touches, exactly when TAR is even. */
  lemma DroppedCoversExact(tar: u32, n: nat)
    requires tar < ITCM_HI && (n == 1 || n == 2 || n == 4)
    ensures (forall pc: u32 :: Even(pc) && Overlaps(pc, tar, n) ==> pc in Dropped(tar)) <==> Even(tar)
  {
    if Even(tar) {
      forall pc: u32 | Even(pc) && Overlaps(pc, tar, n)
        ensures pc in Dropped(tar)
      {
        OverlapWindow(pc, tar, n);
      }
    } else {
      var pc: u32 := tar - 1;
      assert Covers(pc, tar);
      assert Even(pc) && Overlaps(pc, tar, n) && pc !in Dropped(tar);
    }
  }

  // ---- coherence --------------------------------------------------------------------------

  /** Every cached entry is what fetching and decoding its address now would give. */
  ghost predicate Coherent<D>(c: Core<D>, decode: seq<u8> -> D) {
    forall pc :: pc in c.cache ==> 0 <= pc < TWO32 && Even(pc) && c.cache[pc] == decode(Fetched(c.mem, pc))
  }

  /** What the run must respect: instructions sit at even addresses; the program does not
      store over instructions that are cached; the debug port writes even addresses, and
      above the ITCM only where nothing is cached. */
  ghost predicate Proper<D>(c: Core<D>, op: Op) {
    match op
    case Exec(pc) => Even(pc)
    case CoreStore(a, bytes) => forall pc :: pc in c.cache ==> 0 <= pc < TWO32 && !Overlaps(pc, a, |bytes|)
    case DebugWrite(tar, bytes) =>
      if tar < ITCM_HI then Even(tar) && |bytes| <= 4
      else forall pc :: pc in c.cache ==> 0 <= pc < TWO32 && !Overlaps(pc, tar, |bytes|)
    case _ => true
  }

  lemma StoreElsewhere(m: Space, pc: u32, a: int, bytes: seq<u8>)
    requires !Overlaps(pc, a, |bytes|)
    ensures Fetched(Stored(m, a, bytes), pc) == Fetched(m, pc)
  {
    assert Covers(pc, pc) && Covers(pc, Add32(pc, 1)) && Covers(pc, Add32(pc, 2)) && Covers(pc, Add32(pc, 3));
  }

  lemma OpKeepsCoherent<D>(c: Core<D>, op: Op, decode: seq<u8> -> D)
    requires Coherent(c, decode) && Proper(c, op)
    ensures Coherent(Apply(c, op, decode), decode)
  {
    hide Fetched, Overlaps;
    var d := Apply(c, op, decode);
    match op
    case CoreStore(a, bytes) =>
      forall pc | pc in d.cache
        ensures d.cache[pc] == decode(Fetched(d.mem, pc))
      {
        StoreElsewhere(c.mem, pc, a, bytes);
      }
    case DebugWrite(tar, bytes) =>
      forall pc | pc in d.cache
        ensures d.cache[pc] == decode(Fetched(d.mem, pc))
      {
        if tar < ITCM_HI && Overlaps(pc, tar, |bytes|) {
          OverlapWindow(pc, tar, |bytes|);
        }
        StoreElsewhere(c.mem, pc, tar, bytes);
      }
    case _ =>
  }

  // ---- the cached machine refines the uncached one ---------------------------------------------

  ghost predicate ProperRun<D>(c: Core<D>, ops: seq<Op>, decode: seq<u8> -> D)
    decreases |ops|
  {
    ops == [] || (Proper(c, ops[0]) && ProperRun(Apply(c, ops[0], decode), ops[1..], decode))
  }

  /** The instructions a run decodes, through the cache. */
  function Trace<D>(c: Core<D>, ops: seq<Op>, decode: seq<u8> -> D): (r: seq<D>)
    decreases |ops|
  {
    if ops == [] then []
    else
      (if ops[0].Exec? then [Lookup(c, ops[0].pc, decode)] else [])
      + Trace(Apply(c, ops[0], decode), ops[1..], decode)
  }

  /** The machine without a cache: every instruction is fetched and decoded from memory. */
  function FreshTrace<D>(m: Space, ops: seq<Op>, decode: seq<u8> -> D): (r: seq<D>)
    decreases |ops|
  {
    if ops == [] then []
    else
      match ops[0]
      case Exec(pc) => [decode(Fetched(m, pc))] + FreshTrace(m, ops[1..], decode)
      case CoreStore(a, bytes) => FreshTrace(Stored(m, a, bytes), ops[1..], decode)
      case DebugWrite(tar, bytes) => FreshTrace(Stored(m, tar, bytes), ops[1..], decode)
      case SetDebug(_) => FreshTrace(m, ops[1..], decode)
      case SwapReset(m') => FreshTrace(m', ops[1..], decode)
  }

  lemma LookupIsFresh<D>(c: Core<D>, pc: u32, decode: seq<u8> -> D)
    requires Coherent(c, decode)
    ensures Lookup(c, pc, decode) == decode(Fetched(c.mem, pc))
  {
  }

  /** Whatever is executed, stored, injected and swapped, in whatever order, every instruction
      executed is the one memory holds at that moment. */
  lemma {:induction false} CacheRefinesFetch<D>(c: Core<D>, ops: seq<Op>, decode: seq<u8> -> D)
    requires Coherent(c, decode) && ProperRun(c, ops, decode)
    ensures Trace(c, ops, decode) == FreshTrace(c.mem, ops, decode)
    decreases |ops|
  {
    hide Coherent, Proper, Fetched, Stored;
    if ops != [] {
      var d := Apply(c, ops[0], decode);
      if ops[0].Exec? { LookupIsFresh(c, ops[0].pc, decode); }
      OpKeepsCoherent(c, ops[0], decode);
      CacheRefinesFetch(d, ops[1..], decode);
    }
  }

  // ---- a condition on the run alone -------------------------------------------------------------

  /** The run's own history decides: `done` holds the addresses executed so far (and not dropped
      or flushed since).  Instructions sit at even addresses, the debug port writes even ones,
      and no store touches an instruction already executed. */
  ghost predicate SparesHistory(done: set<int>, ops: seq<Op>)
    decreases |ops|
  {
    ops == [] ||
      (match ops[0]
       case Exec(pc) => Even(pc) && SparesHistory(done + {pc}, ops[1..])
       case CoreStore(a, bytes) => Spared(done, a, |bytes|) && SparesHistory(done, ops[1..])
       case DebugWrite(tar, bytes) =>
         if tar < ITCM_HI then Even(tar) && |bytes| <= 4 && SparesHistory(done - Dropped(tar), ops[1..])
         else Spared(done, tar, |bytes|) && SparesHistory(done, ops[1..])
       case SetDebug(_) => SparesHistory(done, ops[1..])
       case SwapReset(_) => SparesHistory({}, ops[1..]))
  }

  ghost predicate Spared(done: set<int>, a: int, n: nat) {
    forall pc: u32 :: pc in done ==> !Overlaps(pc, a, n)
  }

  lemma {:induction false} HistoryIsProper<D>(c: Core<D>, done: set<int>, ops: seq<Op>, decode: seq<u8> -> D)
    requires Coherent(c, decode) && c.cache.Keys <= done && SparesHistory(done, ops)
    ensures ProperRun(c, ops, decode)
    decreases |ops|
  {
    hide Overlaps, Fetched, Stored;
    if ops != [] {
      var d := Apply(c, ops[0], decode);
      OpKeepsCoherent(c, ops[0], decode);
      match ops[0] {
        case Exec(pc) => HistoryIsProper(d, done + {pc}, ops[1..], decode);
        case DebugWrite(tar, bytes) =>
          HistoryIsProper(d, if tar < ITCM_HI then done - Dropped(tar) else done, ops[1..], decode);
        case SwapReset(_) => HistoryIsProper(d, {}, ops[1..], decode);
        case _ => HistoryIsProper(d, done, ops[1..], decode);
      }
    }
  }

  /** From an empty cache, a run that never stores over an instruction it has executed (a debug
      write to the ITCM may: it drops what it touches) decodes exactly what memory holds.  The
      condition reads the run, not the cache. */
  lemma HistoryRefinesFetch<D>(c: Core<D>, ops: seq<Op>, decode: seq<u8> -> D)
    requires c.cache == map[] && SparesHistory({}, ops)
    ensures Trace(c, ops, decode) == FreshTrace(c.mem, ops, decode)
  {
    HistoryIsProper(c, {}, ops, decode);
    CacheRefinesFetch(c, ops, decode);
  }

  // ---- the two ways a stale instruction can run ---------------------------------------------------

  /** A byte write at an odd TAR drops nothing at even addresses: the instruction it changed
      is still served from the cache. */
  lemma OddTarIsStale<D>(c: Core<D>, tar: u32, b: u8, decode: seq<u8> -> D)
    requires Coherent(c, decode) && c.debugEn && !Even(tar) && tar < ITCM_HI
    requires decode(Fetched(Stored(c.mem, tar, [b]), tar - 1)) != decode(Fetched(c.mem, tar - 1))
    ensures var pc: u32 := tar - 1;
            var ops := [Exec(pc), DebugWrite(tar, [b]), Exec(pc)];
            Trace(c, ops, decode) != FreshTrace(c.mem, ops, decode)
  {
    hide Fetched, Stored, Coherent;
    var pc: u32 := tar - 1;
    LookupIsFresh(c, pc, decode);
    var c1 := Apply(c, Exec(pc), decode);
    var c2 := Apply(c1, DebugWrite(tar, [b]), decode);
    assert pc !in Dropped(tar);
    assert Lookup(c2, pc, decode) == decode(Fetched(c.mem, pc));
    Trace3(c, Exec(pc), DebugWrite(tar, [b]), Exec(pc), decode);
  }

  /** Keeping the ITCM uncached outside debug is not enough: what was cached under debug stays,
      and is served again after the program has overwritten it in between. */
  lemma DebugGapIsStale<D>(c: Core<D>, pc: u32, b: u8, decode: seq<u8> -> D)
    requires Coherent(c, decode) && c.debugEn && pc < ITCM_HI
    requires decode(Fetched(Stored(c.mem, pc, [b]), pc)) != decode(Fetched(c.mem, pc))
    ensures var c1 := Apply(c, Exec(pc), decode);
            var ops := [SetDebug(false), CoreStore(pc, [b]), SetDebug(true)];
            var c2 := Apply(Apply(Apply(c1, ops[0], decode), ops[1], decode), ops[2], decode);
            Lookup(c2, pc, decode) != decode(Fetched(c2.mem, pc))
  {
    hide Fetched, Stored, Coherent;
    LookupIsFresh(c, pc, decode);
  }

  /** The debug gap: an instruction cached under debug, a store of `bytes` by the program while
      debug is off, and the instruction again under debug. */
  function GapOps(pc: u32, a: u32, bytes: seq<u8>): (ops: seq<Op>) {
    [Exec(pc), SetDebug(false), CoreStore(a, bytes), SetDebug(true), Exec(pc)]
  }

  /** The gap decodes as the uncached machine does. */
  ghost predicate GapIsFresh<D(!new)>(c: Core<D>, pc: u32, a: u32, bytes: seq<u8>, decode: seq<u8> -> D) {
    Trace(c, GapOps(pc, a, bytes), decode) == FreshTrace(c.mem, GapOps(pc, a, bytes), decode)
  }

  lemma GapTraces<D>(c: Core<D>, pc: u32, a: u32, bytes: seq<u8>, decode: seq<u8> -> D)
    requires Coherent(c, decode) && c.debugEn && pc < ITCM_HI
    ensures Trace(c, GapOps(pc, a, bytes), decode) == [decode(Fetched(c.mem, pc)), decode(Fetched(c.mem, pc))]
    ensures FreshTrace(c.mem, GapOps(pc, a, bytes), decode)
         == [decode(Fetched(c.mem, pc)), decode(Fetched(Stored(c.mem, a, bytes), pc))]
  {
    hide Fetched, Stored, Coherent;
    LookupIsFresh(c, pc, decode);
    var ops := GapOps(pc, a, bytes);
    assert ops[1..] == [SetDebug(false), CoreStore(a, bytes), SetDebug(true), Exec(pc)];
    assert ops[1..][1..] == [CoreStore(a, bytes), SetDebug(true), Exec(pc)];
    assert ops[1..][1..][1..] == [SetDebug(true), Exec(pc)];
    assert ops[1..][1..][1..][1..] == [Exec(pc)] && [Exec(pc)][1..] == [];
    var d := decode(Fetched(c.mem, pc));
    var c1 := Apply(c, Exec(pc), decode);
    assert c1 == c.(cache := c.cache[pc := d]);
    var c2 := Apply(c1, SetDebug(false), decode);
    var c3 := Apply(c2, CoreStore(a, bytes), decode);
    var c4 := Apply(c3, SetDebug(true), decode);
    assert Lookup(c4, pc, decode) == d;
    TraceCons(c, ops, decode);
    TraceCons(c1, ops[1..], decode);
    TraceCons(c2, ops[1..][1..], decode);
    TraceCons(c3, [SetDebug(true), Exec(pc)], decode);
    TraceCons(c4, [Exec(pc)], decode);
    FreshCons(c.mem, ops, decode);
    FreshCons(c.mem, ops[1..], decode);
    FreshCons(c.mem, ops[1..][1..], decode);
    FreshCons(c3.mem, [SetDebug(true), Exec(pc)], decode);
    FreshCons(c3.mem, [Exec(pc)], decode);
    assert FreshTrace(c3.mem, [], decode) == [] && Trace(Apply(c4, Exec(pc), decode), [], decode) == [];
  }

  lemma TraceCons<D>(c: Core<D>, ops: seq<Op>, decode: seq<u8> -> D)
    requires ops != []
    ensures var rest := Trace(Apply(c, ops[0], decode), ops[1..], decode);
            Trace(c, ops, decode) == if ops[0].Exec? then [Lookup(c, ops[0].pc, decode)] + rest else rest
  {
    hide Apply, Lookup;
    var rest := Trace(Apply(c, ops[0], decode), ops[1..], decode);
    assert [] + rest == rest;
  }

  lemma FreshCons<D>(m: Space, ops: seq<Op>, decode: seq<u8> -> D)
    requires ops != []
    ensures FreshTrace(m, ops, decode)
         == match ops[0]
            case Exec(pc) => [decode(Fetched(m, pc))] + FreshTrace(m, ops[1..], decode)
            case CoreStore(a, bytes) => FreshTrace(Stored(m, a, bytes), ops[1..], decode)
            case DebugWrite(tar, bytes) => FreshTrace(Stored(m, tar, bytes), ops[1..], decode)
            case SetDebug(_) => FreshTrace(m, ops[1..], decode)
            case SwapReset(m') => FreshTrace(m', ops[1..], decode)
  {
    hide Fetched, Stored;
  }

  /** A store leaves the instruction at `pc` as it was, whatever memory held and whatever is stored,
      exactly when its range misses the four bytes fetched. */
  lemma StoreSparesExactly(pc: u32, a: int, n: nat)
    ensures (forall m: Space, bytes: seq<u8> :: |bytes| == n ==> Fetched(Stored(m, a, bytes), pc) == Fetched(m, pc))
            <==> !Overlaps(pc, a, n)
  {
    if Overlaps(pc, a, n) {
      var x :| a <= x < a + n && Covers(pc, x);
      var m: Space := y => 0;
      var bytes: seq<u8> := seq(n, i => 1);
      var k := if x == pc then 0 else if x == Add32(pc, 1) then 1 else if x == Add32(pc, 2) then 2 else 3;
      assert Fetched(Stored(m, a, bytes), pc)[k] == 1 && Fetched(m, pc)[k] == 0;
    } else {
      forall m: Space, bytes: seq<u8> | |bytes| == n
        ensures Fetched(Stored(m, a, bytes), pc) == Fetched(m, pc)
      {
        StoreElsewhere(m, pc, a, bytes);
      }
    }
  }

  /** Exactly when the debug gap is safe: for every coherent core under debug, every `n` bytes stored
      and every decoder, the gap decodes what memory holds, if and only if the store's range
      misses the four bytes of the instruction. */
  lemma DebugGapExactly(pc: u32, a: u32, n: nat)
    requires Even(pc) && pc < ITCM_HI
    ensures (forall c: Core<seq<u8>>, bytes: seq<u8>, decode: seq<u8> -> seq<u8> ::
               Coherent(c, decode) && c.debugEn && |bytes| == n ==> GapIsFresh(c, pc, a, bytes, decode))
            <==> !Overlaps(pc, a, n)
  {
    hide Fetched, Stored, Overlaps, Coherent, GapIsFresh;
    StoreSparesExactly(pc, a, n);
    if Overlaps(pc, a, n) {
      var m: Space, bytes: seq<u8> :| |bytes| == n && Fetched(Stored(m, a, bytes), pc) != Fetched(m, pc);
      var decode := (b: seq<u8>) => b;
      var c := Core(m, map[], true, 0, 0);
      assert Coherent(c, decode) by { EmptyIsCoherent(c, decode); }
      GapFreshIs(c, pc, a, bytes, decode);
      assert !GapIsFresh(c, pc, a, bytes, decode);
    } else {
      forall c: Core<seq<u8>>, bytes: seq<u8>, decode: seq<u8> -> seq<u8> |
        Coherent(c, decode) && c.debugEn && |bytes| == n
        ensures GapIsFresh(c, pc, a, bytes, decode)
      {
        GapFreshIs(c, pc, a, bytes, decode);
      }
    }
  }

  lemma GapFreshIs<D(!new)>(c: Core<D>, pc: u32, a: u32, bytes: seq<u8>, decode: seq<u8> -> D)
    requires Coherent(c, decode) && c.debugEn && pc < ITCM_HI
    ensures GapIsFresh(c, pc, a, bytes, decode)
            <==> decode(Fetched(Stored(c.mem, a, bytes), pc)) == decode(Fetched(c.mem, pc))
  {
    hide Fetched, Stored, Coherent, GapOps, Trace, FreshTrace;
    GapTraces(c, pc, a, bytes, decode);
  }

  lemma EmptyIsCoherent<D>(c: Core<D>, decode: seq<u8> -> D)
    requires c.cache == map[]
    ensures Coherent(c, decode)
  {
  }

  /** The two stale runs, closed: memory of zeros, the byte 1, and instructions shown as their own
      bytes.  A byte written at TAR 1, and a byte stored at 0 with debug off. */
  lemma StaleWitness()
    ensures var c := Core(x => 0, map[], true, 0, 0);
            var show := (b: seq<u8>) => b;
            var odd := [Exec(0), DebugWrite(1, [1]), Exec(0)];
            && Trace(c, odd, show) != FreshTrace(c.mem, odd, show)
            && !GapIsFresh(c, 0, 0, [1], show)
  {
    var c := Core(x => 0, map[], true, 0, 0);
    var show := (b: seq<u8>) => b;
    assert Fetched(c.mem, 0)[1] == 0 && Fetched(Stored(c.mem, 1, [1]), 0)[1] == 1;
    assert Fetched(c.mem, 0)[0] == 0 && Fetched(Stored(c.mem, 0, [1]), 0)[0] == 1;
    OddTarIsStale(c, 1, 1, show);
    GapFreshIs(c, 0, 0, [1], show);
  }

  lemma Trace3<D>(c: Core<D>, a: Op, b: Op, e: Op, decode: seq<u8> -> D)
    requires a.Exec? && b.DebugWrite? && e.Exec?
    ensures var c2 := Apply(Apply(c, a, decode), b, decode);
            Trace(c, [a, b, e], decode) == [Lookup(c, a.pc, decode), Lookup(c2, e.pc, decode)]
    ensures FreshTrace(c.mem, [a, b, e], decode)
         == [decode(Fetched(c.mem, a.pc)), decode(Fetched(Stored(c.mem, b.tar, b.bytes), e.pc))]
  {
    hide Lookup, Fetched, Stored;
    assert [a, b, e][1..] == [b, e] && [b, e][1..] == [e] && [e][1..] == [];
    var c1 := Apply(c, a, decode);
    var c2 := Apply(c1, b, decode);
    var c3 := Apply(c2, e, decode);
    assert Trace(c3, [], decode) == [];
    assert Trace(c2, [e], decode) == [Lookup(c2, e.pc, decode)] + Trace(c3, [], decode);
    assert Trace(c1, [b, e], decode) == Trace(c2, [e], decode);
    var m := Stored(c.mem, b.tar, b.bytes);
    assert FreshTrace(m, [e], decode) == [decode(Fetched(m, e.pc))] + FreshTrace(m, [], decode);
    assert FreshTrace(c.mem, [b, e], decode) == FreshTrace(m, [e], decode);
  }

  // ---- the cache, updated in place ------------------------------------------------------------------

  /** The addresses one write invalidates, in the order they are visited. */
  function DroppedAt(addr: u32): (at: seq<u32>)
    ensures |at| == 3
  {
    [Add32(addr, -2), addr, Add32(addr, 2)]
  }

  function Before(at: seq<u32>, n: nat): (r: set<int>)
    requires n <= |at|
  {
    if n == 0 then {} else Before(at, n - 1) + {at[n - 1]}
  }

  lemma AllDropped(addr: u32)
    ensures Before(DroppedAt(addr), 3) == Dropped(addr)
  {
    hide Add32;
    var at := DroppedAt(addr);
    assert Before(at, 1) == Before(at, 0) + {at[0]};
    assert Before(at, 2) == Before(at, 1) + {at[1]};
  }

  lemma RemoveMore<D>(m: map<int, D>, gone: set<int>, x: int)
    ensures (m - gone) - {x} == m - (gone + {x})
  {
  }

  class Cache<!D> {
    var dcache: map<int, D>
    const lo: int
    const hi: int

    constructor (lo: int, hi: int)
      ensures dcache == map[] && this.lo == lo && this.hi == hi
    {
      this.lo, this.hi, dcache := lo, hi, map[];
    }

    ghost function Value(mem: Space, debugEn: bool): (r: Core<D>)
      reads this
    {
      Core(mem, dcache, debugEn, lo, hi)
    }

    method FetchDecode(mem: Space, debugEn: bool, pc: u32, decode: seq<u8> -> D) returns (d: D)
      modifies this
      ensures d == old(Lookup(Value(mem, debugEn), pc, decode))
      ensures Value(mem, debugEn) == old(Apply(Value(mem, debugEn), Exec(pc), decode))
    {
      var cacheable := lo <= pc < hi || (debugEn && pc < ITCM_HI);
      if cacheable {
        if pc in dcache {
          d := dcache[pc];
          assert dcache == dcache[pc := d];
        } else {
          d := decode(Fetched(mem, pc));
          dcache := dcache[pc := d];
        }
      } else {
        d := decode(Fetched(mem, pc));
      }
    }

    method InvalidateDecode(addr: u32)
      modifies this
      ensures dcache == old(dcache) - Dropped(addr)
    {
      hide Dropped, DroppedAt;
      if |dcache| == 0 {
        assert dcache == dcache - Dropped(addr);
        return;
      }
      var at := DroppedAt(addr);
      var i := 0;
      while i < |at|
        invariant 0 <= i <= |at|
        invariant dcache == old(dcache) - Before(at, i)
      {
        RemoveMore(old(dcache), Before(at, i), at[i]);
        dcache := dcache - {at[i]};
        i := i + 1;
      }
      AllDropped(addr);
    }

    method FlushDecodeCache()
      modifies this
      ensures dcache == map[]
    {
      dcache := map[];
    }
  }
}
