/** The receive backlog of the network bridge (src/bridge.rs, push_rx and eth_rx): bounded, and
    fair to flows.  Flow 0 is the bridge's own control traffic.  When several flows tie for
    busiest, the source takes whichever its hash map yields; here it is any of them. */
module Backlog {
  import opened Wrappers

  const CAP: nat := 32

  datatype Item<F> = Item(flow: nat, frame: F)

  // ---- counting ---------------------------------------------------------------------------

  function Count<F>(q: seq<Item<F>>, flow: nat): (n: nat)
    ensures n <= |q|
  {
    if q == [] then 0 else Count(q[..|q| - 1], flow) + if q[|q| - 1].flow == flow then 1 else 0
  }

  /** The frames of one flow, in order. */
  function OfFlow<F>(q: seq<Item<F>>, flow: nat): (r: seq<Item<F>>)
    decreases |q|
  {
    if q == [] then [] else (if q[0].flow == flow then [q[0]] else []) + OfFlow(q[1..], flow)
  }

  predicate IsFirst<F>(q: seq<Item<F>>, p: nat)
    requires p < |q|
  {
    forall i :: 0 <= i < p ==> q[i].flow != q[p].flow
  }

  function Removed<F>(q: seq<Item<F>>, p: nat): (r: seq<Item<F>>)
    requires p < |q|
    ensures |r| == |q| - 1
  {
    q[..p] + q[p + 1..]
  }

  predicate HasClient<F>(q: seq<Item<F>>) {
    exists i :: 0 <= i < |q| && q[i].flow != 0
  }

  /** A position an overflowing queue may evict: the oldest frame of some busiest client flow,
      or, when no client frame is queued, the oldest frame. */
  ghost predicate Evictable<F(!new)>(q: seq<Item<F>>, p: nat)
    requires p < |q|
  {
    && IsFirst(q, p)
    && (if HasClient(q) then q[p].flow != 0 && forall f: nat :: f != 0 ==> Count(q, f) <= Count(q, q[p].flow)
        else p == 0)
  }

  // ---- the queue and its history -------------------------------------------------------------

  datatype State<!F> = State(
    rx: seq<Item<F>>,
    evicted: nat,
    popped: nat,
    arrived: seq<Item<F>>)   // history: every frame ever pushed, in order

  /** A push names the position it evicts, should the queue overflow. */
  datatype Event<!F> = Push(item: Item<F>, at: nat) | Pop

  function FirstControl<F>(q: seq<Item<F>>): (r: Option<nat>)
    ensures match r
            case Some(p) => p < |q| && q[p].flow == 0 && forall i :: 0 <= i < p ==> q[i].flow != 0
            case None => forall i :: 0 <= i < |q| ==> q[i].flow != 0
  {
    if q == [] then None
    else if q[0].flow == 0 then Some(0)
    else match FirstControl(q[1..]) case None => None case Some(p) => Some(p + 1)
  }

  /** Control frames are served first, oldest first; then the oldest frame. */
  function PopAt<F>(q: seq<Item<F>>): (p: nat)
    requires q != []
    ensures p < |q| && IsFirst(q, p)
  {
    match FirstControl(q) case Some(p) => p case None => 0
  }

  /** What a pop takes: the oldest control frame when there is one, else the oldest frame; a
      client frame never goes before a control frame. */
  lemma PopOrder<F>(q: seq<Item<F>>, i: nat)
    requires i < |q|
    ensures q[i].flow == 0 ==> q[PopAt(q)].flow == 0 && PopAt(q) <= i
    ensures q[PopAt(q)].flow != 0 ==> PopAt(q) == 0
  {
  }

  ghost predicate CanApply<F(!new)>(s: State<F>, e: Event<F>) {
    e.Push? && |s.rx| >= CAP ==> e.at <= |s.rx| && Evictable(s.rx + [e.item], e.at)
  }

  ghost function Apply<F(!new)>(s: State<F>, e: Event<F>): (t: State<F>)
    requires CanApply(s, e)
  {
    match e
    case Push(item, at) =>
      var q := s.rx + [item];
      if |q| <= CAP then s.(rx := q, arrived := s.arrived + [item])
      else s.(rx := Removed(q, at), evicted := s.evicted + 1, arrived := s.arrived + [item])
    case Pop =>
      if s.rx == [] then s else s.(rx := Removed(s.rx, PopAt(s.rx)), popped := s.popped + 1)
  }

  ghost predicate CanRun<F(!new)>(s: State<F>, es: seq<Event<F>>)
    decreases |es|
  {
    es == [] || (CanApply(s, es[0]) && CanRun(Apply(s, es[0]), es[1..]))
  }

  ghost function Run<F(!new)>(s: State<F>, es: seq<Event<F>>): (t: State<F>)
    requires CanRun(s, es)
    decreases |es|
  {
    if es == [] then s else Run(Apply(s, es[0]), es[1..])
  }

  // ---- what every event keeps -----------------------------------------------------------------

  predicate SuffixOf<T(==)>(a: seq<T>, b: seq<T>) {
    |a| <= |b| && b[|b| - |a|..] == a
  }

  ghost predicate Inv<F(!new)>(s: State<F>) {
    && |s.rx| <= CAP
    && |s.arrived| == |s.rx| + s.popped + s.evicted
    && forall f: nat :: SuffixOf(OfFlow(s.rx, f), OfFlow(s.arrived, f))
  }

  lemma {:induction false} OfFlowConcat<F>(a: seq<Item<F>>, b: seq<Item<F>>, f: nat)
    ensures OfFlow(a + b, f) == OfFlow(a, f) + OfFlow(b, f)
    decreases |a|
  {
    if a == [] {
      assert a + b == b;
    } else {
      assert (a + b)[1..] == a[1..] + b;
      OfFlowConcat(a[1..], b, f);
    }
  }

  lemma {:induction false} OfFlowAbsent<F>(q: seq<Item<F>>, f: nat)
    requires forall i :: 0 <= i < |q| ==> q[i].flow != f
    ensures OfFlow(q, f) == []
    decreases |q|
  {
    if q != [] {
      OfFlowAbsent(q[1..], f);
    }
  }

  /** Taking out the first frame of its flow drops the head of that flow and touches no other. */
  lemma RemoveFirst<F>(q: seq<Item<F>>, p: nat, f: nat)
    requires p < |q| && IsFirst(q, p)
    ensures f == q[p].flow ==> OfFlow(q, f) == [q[p]] + OfFlow(Removed(q, p), f)
    ensures f != q[p].flow ==> OfFlow(q, f) == OfFlow(Removed(q, p), f)
  {
    var a, b := q[..p], q[p + 1..];
    assert q == a + ([q[p]] + b);
    OfFlowConcat(a, [q[p]] + b, f);
    OfFlowConcat(a, b, f);
    assert ([q[p]] + b)[1..] == b;
    if f == q[p].flow {
      OfFlowAbsent(a, f);
    } else {
      assert [] + OfFlow(b, f) == OfFlow(b, f);
    }
  }

  lemma RemovedKeepsSuffix<F>(q: seq<Item<F>>, p: nat, arrived: seq<Item<F>>, f: nat)
    requires p < |q| && IsFirst(q, p) && SuffixOf(OfFlow(q, f), OfFlow(arrived, f))
    ensures SuffixOf(OfFlow(Removed(q, p), f), OfFlow(arrived, f))
  {
    RemoveFirst(q, p, f);
    var a, b := OfFlow(q, f), OfFlow(arrived, f);
    if f == q[p].flow {
      assert b[|b| - |a| + 1..] == a[1..];
    }
  }

  lemma LongerSuffix<T>(a: seq<T>, b: seq<T>, x: seq<T>)
    requires SuffixOf(a, b)
    ensures SuffixOf(a + x, b + x)
  {
    assert (b + x)[|b| - |a|..] == b[|b| - |a|..] + x;
  }

  lemma EventKeepsInv<F(!new)>(s: State<F>, e: Event<F>)
    requires Inv(s) && CanApply(s, e)
    ensures Inv(Apply(s, e))
  {
    hide SuffixOf, OfFlow;
    var t := Apply(s, e);
    forall f: nat
      ensures SuffixOf(OfFlow(t.rx, f), OfFlow(t.arrived, f))
    {
      match e
      case Push(item, at) =>
        var q := s.rx + [item];
        OfFlowConcat(s.rx, [item], f);
        OfFlowConcat(s.arrived, [item], f);
        LongerSuffix(OfFlow(s.rx, f), OfFlow(s.arrived, f), OfFlow([item], f));
        if |q| > CAP { RemovedKeepsSuffix(q, at, t.arrived, f); }
      case Pop =>
        if s.rx != [] { RemovedKeepsSuffix(s.rx, PopAt(s.rx), s.arrived, f); }
    }
  }

  /** Over every run of pushes and pops, however ties are broken: at most 32 frames are queued;
      every frame pushed is queued, popped or evicted, and counted once; and what is queued
      of a flow is exactly the newest of its arrivals, in order. */
  lemma {:induction false} BacklogRuns<F(!new)>(s: State<F>, es: seq<Event<F>>)
    requires Inv(s) && CanRun(s, es)
    ensures Inv(Run(s, es))
    decreases |es|
  {
    hide Inv, Apply, CanApply;
    if es != [] {
      EventKeepsInv(s, es[0]);
      BacklogRuns(Apply(s, es[0]), es[1..]);
    }
  }

  /** A control frame is only ever evicted when no client frame is queued. */
  lemma ControlIsLast<F(!new)>(s: State<F>, e: Event<F>, i: nat)
    requires CanApply(s, e) && e.Push? && |s.rx| >= CAP && (s.rx + [e.item])[e.at].flow == 0
    requires i <= |s.rx|
    ensures (s.rx + [e.item])[i].flow == 0
  {
    var q := s.rx + [e.item];
    assert q[i].flow != 0 ==> HasClient(q);
  }

  // ---- a fair share ----------------------------------------------------------------------------

  function CountIn<F>(q: seq<Item<F>>, flows: set<nat>): (r: nat) {
    if q == [] then 0 else CountIn(q[..|q| - 1], flows) + if q[|q| - 1].flow in flows then 1 else 0
  }

  lemma {:induction false} CountInSplits<F>(q: seq<Item<F>>, flows: set<nat>, f: nat)
    requires f in flows
    ensures CountIn(q, flows) == Count(q, f) + CountIn(q, flows - {f})
  {
    if q != [] {
      CountInSplits(q[..|q| - 1], flows, f);
    }
  }

  lemma {:induction false} CountInNone<F>(q: seq<Item<F>>)
    ensures CountIn(q, {}) == 0
  {
    if q != [] {
      CountInNone(q[..|q| - 1]);
    }
  }

  /** The flow that loses a frame holds at least its share: with `k` client flows queued, at
      least a k-th of the client frames.  A flow below its share never loses one. */
  lemma {:induction false} VictimHasItsShare<F(!new)>(q: seq<Item<F>>, p: nat, flows: set<nat>)
    requires p < |q| && Evictable(q, p) && HasClient(q) && 0 !in flows
    ensures CountIn(q, flows) <= |flows| * Count(q, q[p].flow)
    decreases |flows|
  {
    if flows == {} {
      CountInNone(q);
    } else {
      var f :| f in flows;
      CountInSplits(q, flows, f);
      VictimHasItsShare(q, p, flows - {f});
      var c := Count(q, q[p].flow);
      assert |flows - {f}| == |flows| - 1;
      assert (|flows| - 1) * c + c == |flows| * c;
    }
  }

  // ---- the queue, updated in place ----------------------------------------------------------------

  lemma {:induction false} CountPositive<F>(q: seq<Item<F>>, i: nat)
    requires i < |q|
    ensures Count(q, q[i].flow) > 0
  {
    if i < |q| - 1 {
      CountPositive(q[..|q| - 1], i);
    }
  }

  lemma {:induction false} CountFinds<F>(q: seq<Item<F>>, f: nat) returns (i: nat)
    requires Count(q, f) > 0
    ensures i < |q| && q[i].flow == f
  {
    if q[|q| - 1].flow == f {
      i := |q| - 1;
    } else {
      i := CountFinds(q[..|q| - 1], f);
    }
  }

  /** How many frames each flow has queued. */
  method Counts<F>(q: seq<Item<F>>) returns (counts: map<nat, nat>)
    ensures forall f: nat :: (f in counts <==> Count(q, f) > 0) && (f in counts ==> counts[f] == Count(q, f))
  {
    counts := map[];
    var i := 0;
    assert q[..0] == [];
    while i < |q|
      invariant 0 <= i <= |q|
      invariant forall f: nat ::
                  (f in counts <==> Count(q[..i], f) > 0) && (f in counts ==> counts[f] == Count(q[..i], f))
    {
      var f := q[i].flow;
      assert q[..i + 1][..i] == q[..i];
      counts := counts[f := (if f in counts then counts[f] else 0) + 1];
      i := i + 1;
    }
    assert q[..i] == q;
  }

  /** Some busiest client flow: the flows are visited in no particular order. */
  method Busiest(counts: map<nat, nat>) returns (best: Option<nat>)
    ensures best.Some? ==> best.value in counts && best.value != 0
    ensures best.Some? ==> forall f :: f in counts && f != 0 ==> counts[f] <= counts[best.value]
    ensures best.None? ==> forall f :: f in counts ==> f == 0
  {
    best := None;
    var todo := counts.Keys;
    while todo != {}
      invariant todo <= counts.Keys
      invariant best.Some? ==> best.value in counts && best.value != 0
      invariant best.Some? ==> forall f :: f in counts && f !in todo && f != 0 ==> counts[f] <= counts[best.value]
      invariant best.None? ==> forall f :: f in counts && f !in todo ==> f == 0
      decreases |todo|
    {
      var f :| f in todo;
      todo := todo - {f};
      if f != 0 && (best.None? || counts[f] >= counts[best.value]) {
        best := Some(f);
      }
    }
  }

  method Position<F>(q: seq<Item<F>>, flow: nat) returns (p: nat)
    requires exists i :: 0 <= i < |q| && q[i].flow == flow
    ensures p < |q| && q[p].flow == flow && IsFirst(q, p)
  {
    p := 0;
    while q[p].flow != flow
      invariant p < |q| && forall i :: 0 <= i < p ==> q[i].flow != flow
      decreases |q| - p
    {
      p := p + 1;
    }
  }

  class Queue<!F(!new)> {
    var rx: seq<Item<F>>
    var nEvict: nat
    var nPop: nat

    constructor ()
      ensures rx == [] && nEvict == 0 && nPop == 0
    {
      rx, nEvict, nPop := [], 0, 0;
    }

    ghost function Value(arrived: seq<Item<F>>): (r: State<F>)
      reads this
    {
      State(rx, nEvict, nPop, arrived)
    }

    method Victim() returns (p: nat)
      requires rx != []
      ensures p < |rx| && Evictable(rx, p)
    {
      var counts := Counts(rx);
      var best := Busiest(counts);
      match best
      case Some(f) =>
        var i := CountFinds(rx, f);
        p := Position(rx, f);
        assert forall g: nat :: g != 0 ==> Count(rx, g) <= Count(rx, f);
      case None =>
        p := 0;
        forall i | 0 <= i < |rx|
          ensures rx[i].flow == 0
        {
          CountPositive(rx, i);
        }
    }

    /** `at` is the position evicted, if one was. */
    method PushRx(item: Item<F>, ghost arrived: seq<Item<F>>) returns (ghost at: nat)
      requires |rx| <= CAP
      modifies this
      ensures CanApply(old(Value(arrived)), Push(item, at))
      ensures Value(arrived + [item]) == Apply(old(Value(arrived)), Push(item, at))
    {
      hide Evictable;
      rx := rx + [item];
      at := 0;
      if |rx| > CAP {
        var p := Victim();
        at := p;
        rx := rx[..p] + rx[p + 1..];
        nEvict := nEvict + 1;
      }
    }

    method EthRx(ghost arrived: seq<Item<F>>) returns (r: Option<F>)
      modifies this
      ensures Value(arrived) == Apply(old(Value(arrived)), Pop)
      ensures r == if old(rx) == [] then None else Some(old(rx)[PopAt(old(rx))].frame)
    {
      if rx == [] { return None; }
      var p := PopAt(rx);
      nPop := nPop + 1;
      r := Some(rx[p].frame);
      rx := rx[..p] + rx[p + 1..];
    }
  }
}
