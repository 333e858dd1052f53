/** The SP's external NOR flash behind QUADSPI (src/soc.rs, Qspi): a command is spread over
    several register writes, needs the write-enable latch, and is written through to a backing
    file that is created on the first change. */
module Qspi {
  import opened Arithmetic
  import opened Nor
  import opened Wrappers

  const SIZE: nat := 0x200_0000
  const SECTOR: nat := 0x1_0000

  const RDSR: nat := 0x05
  const RDID: nat := 0x9F
  const WREN: nat := 0x06
  const WRDI: nat := 0x04
  const BULK_ERASE: nat := 0xC7
  const SECTOR_ERASE: nat := 0xDC
  const PAGE_PROGRAM: nat := 0x12
  const READ: nat := 0x13

  /** A transfer that still needs its address or its data. */
  datatype Xfer =
    | Idle
    | ReadAtAddr(len: nat)
    | WriteAtAddr(instruction: nat, data: bool)
    | WriteData(remaining: nat)

  datatype State = State(
    dlr: nat,
    ar: nat,
    resp: seq<bv8>,
    pos: nat,
    modeRead: bool,
    tcf: bool,
    wel: bool,
    xfer: Xfer,
    buf: seq<bv8>,
    mem: seq<bv8>,
    file: Option<seq<bv8>>)

  /** Register accesses.  CCR is written as its instruction and three of its mode fields. */
  datatype Op =
    | WriteDlr(val: nat)
    | WriteCcr(instruction: nat, admode: nat, dmode: nat, fmode: nat)
    | WriteAr(addr: nat)
    | WriteDr(byte: bv8)
    | ClearTcf
    | ReadDr
    | ReadSr

  predicate Valid(s: State) {
    && |s.mem| == SIZE && s.pos <= |s.resp|
    && (s.file.Some? ==> |s.file.value| == SIZE)
  }

  // ---- the array -----------------------------------------------------------------------

  /** How far array byte `j` lies past `base`, around the end. */
  function Ahead(base: nat, j: nat): (i: nat)
    requires base < SIZE && j < SIZE
    ensures i < SIZE && (base + i) % SIZE == j
  {
    if j >= base then j - base else j + SIZE - base
  }

  /** A byte after byte `i` of a program, if there is one. */
  function Once(b: bv8, buf: seq<bv8>, i: nat): (r: bv8) {
    if i < |buf| then Cleared(b, buf[i]) else b
  }

  /** NOR: bits only clear; past the end programming goes on at the start, and comes round again
      when there is more than an arrayful. */
  function Programmed(mem: seq<bv8>, base: nat, buf: seq<bv8>): (m: seq<bv8>)
    requires |mem| == SIZE && base < SIZE && |buf| <= 2 * SIZE
    ensures |m| == SIZE
  {
    seq(SIZE, j requires 0 <= j < SIZE =>
      Once(Once(mem[j], buf, Ahead(base, j)), buf, Ahead(base, j) + SIZE))
  }

  /** What the source demands of the data: the second segment it writes through starts at 0 and
      may not run past the end of the array. */
  predicate FitsTwoSegments(addr: nat, len: nat) {
    len <= 2 * SIZE - addr % SIZE
  }

  function Filled(mem: seq<bv8>, base: nat, len: nat): (m: seq<bv8>)
    ensures |m| == |mem|
  {
    seq(|mem|, j requires 0 <= j < |mem| => if base <= j < base + len then ERASED else mem[j])
  }

  function ReadMem(mem: seq<bv8>, addr: nat, len: nat): (v: seq<bv8>)
    requires |mem| == SIZE
    ensures |v| == len
  {
    seq(len, i requires 0 <= i < len => mem[(addr + i) % SIZE])
  }

  /** A change goes to the file, which the first change creates as a copy of the array. */
  function Persisted(file: Option<seq<bv8>>, mem: seq<bv8>, off: nat, len: nat): (f: Option<seq<bv8>>)
    requires file.Some? ==> |file.value| == |mem|
    ensures f.Some? ==> |f.value| == |mem|
  {
    if len == 0 then file
    else Some(WrittenThrough(if file.Some? then file.value else mem, mem, off, len))
  }

  function SectorOf(addr: nat): (b: nat)
    ensures b + SECTOR <= SIZE && b % SECTOR == 0
  {
    addr % SIZE / SECTOR * SECTOR
  }

  function DoErase(s: State, instruction: nat): (t: State)
    requires Valid(s)
    ensures Valid(t)
  {
    if !s.wel then s.(tcf := true)
    else
      var base := if instruction == BULK_ERASE then 0 else SectorOf(s.ar);
      var len := if instruction == BULK_ERASE then SIZE else SECTOR;
      var mem := Filled(s.mem, base, len);
      s.(wel := false, mem := mem, file := Persisted(s.file, mem, base, len), tcf := true)
  }

  function DoProgram(s: State): (t: State)
    requires Valid(s) && (s.wel ==> FitsTwoSegments(s.ar, |s.buf|))
    ensures Valid(t)
  {
    if !s.wel then s.(buf := [], tcf := true)
    else
      var base := s.ar % SIZE;
      var mem := Programmed(s.mem, base, s.buf);
      var first := if |s.buf| < SIZE - base then |s.buf| else SIZE - base;
      var file := Persisted(Persisted(s.file, mem, base, first), mem, 0, |s.buf| - first);
      s.(wel := false, buf := [], mem := mem, file := file, tcf := true)
  }

  function Response(wel: bool, instruction: nat, len: nat): (v: seq<bv8>)
    ensures |v| == len
  {
    if instruction == RDID then
      seq(len, i requires 0 <= i < len => if i == 0 then 0x20 else if i == 1 then 0xBA else if i == 2 then 0x19 else 0)
    else if instruction == RDSR then seq(len, i requires 0 <= i < len => if i == 0 && wel then 2 else 0)
    else seq(len, i => ERASED)
  }

  /** Writing CCR starts a transfer, and ends it too when it needs neither address nor data. */
  function StartTransfer(s: State, instruction: nat, admode: nat, dmode: nat, fmode: nat): (t: State)
    requires Valid(s)
    ensures Valid(t)
  {
    var len := s.dlr + 1;
    if fmode == 1 then
      var r := s.(pos := 0, modeRead := true, tcf := false);
      if admode != 0 then r.(resp := [], xfer := ReadAtAddr(len))
      else r.(resp := Response(s.wel, instruction, len), xfer := Idle)
    else
      var w := s.(modeRead := false, buf := []);
      if instruction == WREN then w.(wel := true, xfer := Idle, tcf := true)
      else if instruction == WRDI then w.(wel := false, xfer := Idle, tcf := true)
      else if instruction == BULK_ERASE then DoErase(w.(xfer := Idle), instruction)
      else if admode != 0 then w.(xfer := WriteAtAddr(instruction, dmode != 0), tcf := false)
      else w.(xfer := Idle, tcf := true)
  }

  function Address(s: State, addr: nat): (t: State)
    requires Valid(s)
    ensures Valid(t)
  {
    var a := s.(ar := addr);
    match s.xfer
    case ReadAtAddr(len) => a.(resp := ReadMem(s.mem, addr, len), pos := 0, xfer := Idle)
    case WriteAtAddr(instruction, data) =>
      if data then a.(xfer := WriteData(s.dlr + 1)) else DoErase(a.(xfer := Idle), instruction)
    case _ => a
  }

  function DataByte(s: State, b: bv8): (t: State)
    requires CanApply(s, WriteDr(b))
    ensures Valid(t)
  {
    if s.xfer.WriteData? then
      var w := s.(buf := s.buf + [b]);
      if |w.buf| >= s.xfer.remaining then DoProgram(w.(xfer := Idle)) else w
    else s
  }

  /** Only the byte that completes a write-enabled program can ask for too much. */
  predicate CanApply(s: State, op: Op) {
    && Valid(s)
    && (op.WriteDr? && s.xfer.WriteData? && s.wel && |s.buf| + 1 >= s.xfer.remaining ==>
          FitsTwoSegments(s.ar, |s.buf| + 1))
  }

  function Apply(s: State, op: Op): (t: State)
    requires CanApply(s, op)
    ensures Valid(t)
  {
    match op
    case WriteDlr(val) => s.(dlr := val)
    case WriteCcr(instruction, admode, dmode, fmode) => StartTransfer(s, instruction, admode, dmode, fmode)
    case WriteAr(addr) => Address(s, addr)
    case WriteDr(b) => DataByte(s, b)
    case ClearTcf => s.(tcf := false)
    case ReadDr => if s.pos < |s.resp| then s.(pos := s.pos + 1) else s
    case ReadSr => s.(tcf := s.tcf || (s.modeRead && s.pos == |s.resp|))
  }

  function LowByte(val: nat): (b: bv8) {
    (val % 0x100) as bv8
  }

  /** The register a write addresses, low offset bits ignored, and the fields of its word: CCR holds
      the instruction in bits 7:0, ADMODE in 11:10, DMODE in 25:24 and FMODE in 27:26.  Writes
      to the other registers change nothing modelled here. */
  function Decoded(off: nat, val: nat): (op: Option<Op>)
    requires val < 0x1_0000_0000
  {
    var reg := off / 4 * 4;
    if reg == 0x0C then if val / 2 % 2 == 1 then Some(ClearTcf) else None
    else if reg == 0x10 then Some(WriteDlr(val))
    else if reg == 0x14 then
      Some(WriteCcr(val % 0x100, val / 0x400 % 4, val / 0x100_0000 % 4, val / 0x400_0000 % 4))
    else if reg == 0x18 then Some(WriteAr(val))
    else if reg == 0x20 then Some(WriteDr(LowByte(val)))
    else None
  }

  /** The word a driver writes for the four fields. */
  function CcrWord(instruction: nat, admode: nat, dmode: nat, fmode: nat): (w: nat) {
    instruction + 0x400 * admode + 0x100_0000 * dmode + 0x400_0000 * fmode
  }

  /** Every combination of the fields comes out of the word it was put into. */
  lemma CcrFields(instruction: nat, admode: nat, dmode: nat, fmode: nat)
    requires instruction < 0x100 && admode < 4 && dmode < 4 && fmode < 4
    ensures CcrWord(instruction, admode, dmode, fmode) < 0x1_0000_0000
    ensures Decoded(0x14, CcrWord(instruction, admode, dmode, fmode))
         == Some(WriteCcr(instruction, admode, dmode, fmode))
  {
    hide LowByte, CcrWord;
    CcrInstruction(instruction, admode, dmode, fmode);
    CcrModes(instruction, admode, dmode, fmode);
  }

  lemma CcrInstruction(instruction: nat, admode: nat, dmode: nat, fmode: nat)
    requires instruction < 0x100 && admode < 4 && dmode < 4 && fmode < 4
    ensures CcrWord(instruction, admode, dmode, fmode) < 0x1_0000_0000
    ensures CcrWord(instruction, admode, dmode, fmode) % 0x100 == instruction
  {
    Quotient(4 * admode + 0x1_0000 * dmode + 0x4_0000 * fmode, 0x100, instruction);
  }

  lemma CcrModes(instruction: nat, admode: nat, dmode: nat, fmode: nat)
    requires instruction < 0x100 && admode < 4 && dmode < 4 && fmode < 4
    ensures var w := CcrWord(instruction, admode, dmode, fmode);
            w / 0x400 % 4 == admode && w / 0x100_0000 % 4 == dmode && w / 0x400_0000 % 4 == fmode
  {
    var w := CcrWord(instruction, admode, dmode, fmode);
    Field(w, 0x1000 * dmode + 0x4000 * fmode, 4, admode, 0x400, instruction);
    Field(w, fmode, 4, dmode, 0x100_0000, instruction + 0x400 * admode);
    Field(w, 0, 4, fmode, 0x400_0000, instruction + 0x400 * admode + 0x100_0000 * dmode);
  }

  /** A field `f` of `n` values at weight `unit`, below `hi` and above `lo`. */
  lemma Field(w: nat, hi: nat, n: nat, f: nat, unit: nat, lo: nat)
    requires f < n && lo < unit && w == (hi * n + f) * unit + lo
    ensures w / unit % n == f
  {
    Quotient(hi * n + f, unit, lo);
    Quotient(hi, n, f);
  }

  predicate CanRun(s: State, ops: seq<Op>)
    decreases |ops|
  {
    Valid(s) && (ops == [] || (CanApply(s, ops[0]) && CanRun(Apply(s, ops[0]), ops[1..])))
  }

  function Run(s: State, ops: seq<Op>): (t: State)
    requires CanRun(s, ops)
    ensures Valid(t)
    decreases |ops|
  {
    if ops == [] then s else Run(Apply(s, ops[0]), ops[1..])
  }

  /** A process finds the file of its predecessor, or none and an erased part. */
  function New(file: Option<seq<bv8>>): (s: State)
    requires file.Some? ==> |file.value| == SIZE
    ensures Valid(s)
  {
    State(0, 0, [], 0, false, false, false, Idle, [], if file.Some? then file.value else seq(SIZE, i => ERASED), file)
  }

  // ---- durability ------------------------------------------------------------------------

  predicate Synced(s: State) {
    && Valid(s)
    && (match s.file
        case Some(f) => f == s.mem
        case None => forall j :: 0 <= j < SIZE ==> s.mem[j] == ERASED)
  }

  /** A change confined to [off, off+len) of a synced array, written through, is synced. */
  lemma PersistSyncs(file: Option<seq<bv8>>, old': seq<bv8>, mem: seq<bv8>, off: nat, len: nat)
    requires |old'| == |mem| && (file.Some? ==> file.value == old')
    requires forall j :: 0 <= j < |mem| && !(off <= j < off + len) ==> mem[j] == old'[j]
    ensures len > 0 ==> Persisted(file, mem, off, len) == Some(mem)
    ensures len == 0 ==> mem == old'
  {
    if len > 0 {
      WrittenThroughSyncs(if file.Some? then file.value else mem, mem, off, len);
    } else {
      assert mem == old';
    }
  }

  lemma EraseKeepsSynced(s: State, instruction: nat)
    requires Synced(s)
    ensures Synced(DoErase(s, instruction))
  {
    hide Persisted;
    if s.wel {
      var base := if instruction == BULK_ERASE then 0 else SectorOf(s.ar);
      var len := if instruction == BULK_ERASE then SIZE else SECTOR;
      PersistSyncs(s.file, s.mem, Filled(s.mem, base, len), base, len);
    }
  }

  /** What lies between: the first segment is written, the second not yet. */
  function Half(old': seq<bv8>, mem: seq<bv8>, base: nat): (m: seq<bv8>)
    requires |old'| == |mem| == SIZE && base <= SIZE
    ensures |m| == SIZE
  {
    old'[..base] + mem[base..]
  }

  /** The two segments of a program that wraps leave the file equal to the array. */
  lemma ProgramPersists(file: Option<seq<bv8>>, old': seq<bv8>, base: nat, buf: seq<bv8>)
    requires |old'| == SIZE && base < SIZE && 0 < |buf| <= 2 * SIZE - base && (file.Some? ==> file.value == old')
    ensures var mem := Programmed(old', base, buf);
            var first := if |buf| < SIZE - base then |buf| else SIZE - base;
            Persisted(Persisted(file, mem, base, first), mem, 0, |buf| - first) == Some(mem)
  {
    var mem := Programmed(old', base, buf);
    if |buf| <= SIZE - base {
      PersistSyncs(file, old', mem, base, |buf|);
    } else {
      SegmentsSync(file, old', mem, base, |buf| - (SIZE - base));
    }
  }

  lemma SegmentsSync(file: Option<seq<bv8>>, old': seq<bv8>, mem: seq<bv8>, base: nat, low: nat)
    requires |old'| == |mem| == SIZE && base < SIZE && 0 < low <= SIZE && (file.Some? ==> file.value == old')
    requires forall j :: low <= j < base ==> mem[j] == old'[j]
    ensures Persisted(Persisted(file, mem, base, SIZE - base), mem, 0, low) == Some(mem)
  {
    var f1 := Persisted(file, mem, base, SIZE - base);
    if file.Some? {
      var h := Half(old', mem, base);
      assert f1.value == h;
      PersistSyncs(f1, h, mem, 0, low);
    } else {
      assert f1.value == mem;
      PersistSyncs(f1, mem, mem, 0, low);
    }
  }

  lemma ProgramKeepsSynced(s: State)
    requires Synced(s) && s.buf != [] && (s.wel ==> FitsTwoSegments(s.ar, |s.buf|))
    ensures Synced(DoProgram(s))
  {
    hide Persisted, Programmed;
    if s.wel {
      ProgramPersists(s.file, s.mem, s.ar % SIZE, s.buf);
    }
  }

  lemma OpKeepsSynced(s: State, op: Op)
    requires CanApply(s, op) && Synced(s)
    ensures Synced(Apply(s, op))
  {
    hide DoErase, DoProgram, Response, ReadMem;
    match op
    case WriteCcr(instruction, _, _, _) =>
      EraseKeepsSynced(s.(modeRead := false, buf := [], xfer := Idle), instruction);
    case WriteAr(addr) =>
      if s.xfer.WriteAtAddr? {
        EraseKeepsSynced(s.(ar := addr, xfer := Idle), s.xfer.instruction);
      }
    case WriteDr(b) =>
      if s.xfer.WriteData? && |s.buf| + 1 >= s.xfer.remaining {
        ProgramKeepsSynced(s.(buf := s.buf + [b], xfer := Idle));
      }
    case _ =>
  }

  /** Cut off after any register access of any run, a new process finds the array as it was;
      a part never written leaves no file behind and is found erased. */
  lemma {:induction false} Durable(s: State, ops: seq<Op>)
    requires Synced(s) && CanRun(s, ops)
    ensures var t := Run(s, ops); Synced(t) && New(t.file).mem == t.mem && Synced(New(t.file))
    decreases |ops|
  {
    hide Apply;
    if ops == [] {
      assert New(s.file).mem == s.mem;
    } else {
      OpKeepsSynced(s, ops[0]);
      Durable(Apply(s, ops[0]), ops[1..]);
    }
  }

  // ---- the write-enable latch -------------------------------------------------------------------

  predicate IsWren(op: Op) {
    op.WriteCcr? && op.fmode != 1 && op.instruction == WREN
  }

  lemma OpNeedsWel(s: State, op: Op)
    requires CanApply(s, op) && !s.wel && !IsWren(op)
    ensures Apply(s, op).mem == s.mem && Apply(s, op).file == s.file && !Apply(s, op).wel
  {
    hide Response, ReadMem, Filled, Programmed, Persisted;
  }

  /** Without a write-enable no run of register accesses changes array or file; and each
      program or erase uses the latch up, so the next needs its own. */
  lemma {:induction false} NothingWithoutWren(s: State, ops: seq<Op>)
    requires CanRun(s, ops) && !s.wel && forall i :: 0 <= i < |ops| ==> !IsWren(ops[i])
    ensures var t := Run(s, ops); t.mem == s.mem && t.file == s.file && !t.wel
    decreases |ops|
  {
    hide Apply;
    if ops != [] {
      OpNeedsWel(s, ops[0]);
      NothingWithoutWren(Apply(s, ops[0]), ops[1..]);
    }
  }

  // ---- program and read back -------------------------------------------------------------------------

  function DataOps(data: seq<bv8>): (ops: seq<Op>)
    ensures |ops| == |data|
  {
    seq(|data|, i requires 0 <= i < |data| => WriteDr(data[i]))
  }

  /** Write enable, length, command, address, and the data byte by byte. */
  function ProgramOps(addr: nat, data: seq<bv8>): (r: seq<Op>)
    requires data != []
  {
    [WriteCcr(WREN, 0, 0, 0), WriteDlr(|data| - 1), WriteCcr(PAGE_PROGRAM, 3, 3, 0), WriteAr(addr)] + DataOps(data)
  }

  function ReadOps(addr: nat, len: nat): (r: seq<Op>)
    requires len > 0
  {
    [WriteDlr(len - 1), WriteCcr(READ, 3, 3, 1), WriteAr(addr)]
  }

  /** The bytes `n` reads of DR return. */
  function Drained(s: State, n: nat): (d: seq<bv8>)
    requires Valid(s)
    ensures |d| == n
    decreases n
  {
    if n == 0 then []
    else [if s.pos < |s.resp| then s.resp[s.pos] else ERASED] + Drained(Apply(s, ReadDr), n - 1)
  }

  lemma {:induction false} DrainedIs(s: State, n: nat)
    requires Valid(s) && s.pos + n <= |s.resp|
    ensures Drained(s, n) == s.resp[s.pos..s.pos + n]
    decreases n
  {
    hide DoErase, DoProgram, StartTransfer, Address;
    if n > 0 {
      var t := s.(pos := s.pos + 1);
      assert Apply(s, ReadDr) == t;
      DrainedIs(t, n - 1);
      assert s.resp[s.pos..s.pos + n] == [s.resp[s.pos]] + s.resp[s.pos + 1..s.pos + n];
    }
  }

  lemma {:induction false} RunConcat(s: State, a: seq<Op>, b: seq<Op>)
    requires CanRun(s, a) && CanRun(Run(s, a), b)
    ensures CanRun(s, a + b) && Run(s, a + b) == Run(Run(s, a), b)
    decreases |a|
  {
    hide Apply, CanApply;
    if a == [] {
      assert a + b == b && Run(s, a) == s;
    } else {
      assert (a + b)[1..] == a[1..] + b && (a + b)[0] == a[0];
      assert Run(s, a) == Run(Apply(s, a[0]), a[1..]);
      RunConcat(Apply(s, a[0]), a[1..], b);
    }
  }

  lemma RunOne(s: State, op: Op)
    requires CanApply(s, op)
    ensures CanRun(s, [op]) && Run(s, [op]) == Apply(s, op)
  {
    hide Apply;
    assert [op][1..] == [];
    assert Run(Apply(s, op), []) == Apply(s, op);
  }

  lemma RunThree(s: State, a: Op, b: Op, c: Op)
    requires CanApply(s, a) && CanApply(Apply(s, a), b) && CanApply(Apply(Apply(s, a), b), c)
    ensures CanRun(s, [a, b, c]) && Run(s, [a, b, c]) == Apply(Apply(Apply(s, a), b), c)
  {
    hide Apply, CanApply;
    var s1 := Apply(s, a);
    RunOne(s, a);
    RunOne(s1, b);
    RunOne(Apply(s1, b), c);
    RunConcat(s, [a], [b]);
    RunConcat(s, [a] + [b], [c]);
    assert [a] + [b] + [c] == [a, b, c];
  }

  /** Collecting the data: the last byte starts the program. */
  lemma {:induction false} DataRuns(s: State, data: seq<bv8>)
    requires Valid(s) && data != [] && s.xfer == WriteData(|s.buf| + |data|)
    requires FitsTwoSegments(s.ar, |s.buf| + |data|)
    ensures CanRun(s, DataOps(data))
    ensures Run(s, DataOps(data)) == DoProgram(s.(buf := s.buf + data, xfer := Idle))
    decreases |data|
  {
    hide DoProgram;
    var ops := DataOps(data);
    assert ops[0] == WriteDr(data[0]) && ops[1..] == DataOps(data[1..]);
    var t := Apply(s, ops[0]);
    if |data| == 1 {
      assert data == [data[0]] && ops[1..] == [];
      assert Run(t, []) == t;
    } else {
      assert t == s.(buf := s.buf + [data[0]]);
      DataRuns(t, data[1..]);
      assert s.buf + [data[0]] + data[1..] == s.buf + data;
    }
    assert Run(s, ops) == Run(t, ops[1..]);
  }

  /** A page program, from any state: the array is as programming all the bytes at once leaves
      it, the latch is used up, and the transfer shows as complete. */
  lemma ProgramRuns(s: State, addr: nat, data: seq<bv8>)
    requires Valid(s) && data != [] && FitsTwoSegments(addr, |data|)
    ensures CanRun(s, ProgramOps(addr, data))
    ensures var t := Run(s, ProgramOps(addr, data));
            && t.mem == Programmed(s.mem, addr % SIZE, data)
            && t.xfer == Idle && !t.wel && t.tcf
  {
    hide Run, CanRun, DataOps, Programmed, Persisted, DoErase;
    var a, b, c := WriteCcr(WREN, 0, 0, 0), WriteDlr(|data| - 1), WriteCcr(PAGE_PROGRAM, 3, 3, 0);
    RunThree(s, a, b, c);
    var s3 := s.(modeRead := false, buf := [], wel := true, xfer := WriteAtAddr(PAGE_PROGRAM, true),
                 tcf := false, dlr := |data| - 1);
    assert Run(s, [a, b, c]) == s3;
    RunOne(s3, WriteAr(addr));
    RunConcat(s, [a, b, c], [WriteAr(addr)]);
    var s4 := s3.(ar := addr, xfer := WriteData(|data|));
    DataRuns(s4, data);
    assert [a, b, c] + [WriteAr(addr)] == [a, b, c, WriteAr(addr)];
    RunConcat(s, [a, b, c, WriteAr(addr)], DataOps(data));
    assert s4.buf + data == data;
  }

  lemma ReadRuns(s: State, addr: nat, len: nat)
    requires Valid(s) && len > 0
    ensures CanRun(s, ReadOps(addr, len))
    ensures Drained(Run(s, ReadOps(addr, len)), len) == ReadMem(s.mem, addr, len)
  {
    hide Run, CanRun, DoErase, ReadMem, Drained;
    RunThree(s, WriteDlr(len - 1), WriteCcr(READ, 3, 3, 1), WriteAr(addr));
    var t := Run(s, ReadOps(addr, len));
    assert t.resp == ReadMem(s.mem, addr, len) && t.pos == 0;
    DrainedIs(t, len);
    assert t.resp[0..len] == t.resp;
  }

  /** Programming over erased bytes, from any state, at any address, across the end of the array
      too, reads back as exactly the data; every other byte is as it was. */
  lemma ProgramReadsBack(s: State, addr: nat, data: seq<bv8>)
    requires Valid(s) && 0 < |data| <= SIZE
    requires forall i :: 0 <= i < |data| ==> ReadMem(s.mem, addr, |data|)[i] == ERASED
    ensures CanRun(s, ProgramOps(addr, data)) && CanRun(Run(s, ProgramOps(addr, data)), ReadOps(addr, |data|))
    ensures var t := Run(s, ProgramOps(addr, data));
            && Drained(Run(t, ReadOps(addr, |data|)), |data|) == data
            && forall j :: 0 <= j < SIZE && Ahead(addr % SIZE, j) >= |data| ==> t.mem[j] == s.mem[j]
  {
    hide Run, CanRun, ProgramOps, ReadOps, Drained;
    ProgramRuns(s, addr, data);
    var t := Run(s, ProgramOps(addr, data));
    ReadRuns(t, addr, |data|);
    hide Programmed, ReadMem, Ahead;
    forall i | 0 <= i < |data|
      ensures ReadMem(t.mem, addr, |data|)[i] == data[i]
    {
      ByteReadsBack(s.mem, addr, data, i);
    }
    forall j | 0 <= j < SIZE && Ahead(addr % SIZE, j) >= |data|
      ensures t.mem[j] == s.mem[j]
    {
      ByteKept(s.mem, addr % SIZE, data, j);
    }
  }

  lemma ByteReadsBack(mem: seq<bv8>, addr: nat, data: seq<bv8>, i: nat)
    requires |mem| == SIZE && |data| <= SIZE && i < |data|
    requires ReadMem(mem, addr, |data|)[i] == ERASED
    ensures ReadMem(Programmed(mem, addr % SIZE, data), addr, |data|)[i] == data[i]
  {
    hide Ahead;
    WrapIndex(addr, i);
    AndErased(data[i]);
    assert Once(Once(ERASED, data, i), data, i + SIZE) == data[i];
  }

  lemma ByteKept(mem: seq<bv8>, base: nat, data: seq<bv8>, j: nat)
    requires |mem| == SIZE && base < SIZE && j < SIZE && |data| <= SIZE && Ahead(base, j) >= |data|
    ensures Programmed(mem, base, data)[j] == mem[j]
  {
    hide Ahead;
  }

  lemma WrapIndex(addr: nat, i: nat)
    requires i < SIZE
    ensures Ahead(addr % SIZE, (addr + i) % SIZE) == i
  {
  }

  function EraseOps(addr: nat): (r: seq<Op>) {
    [WriteCcr(WREN, 0, 0, 0), WriteCcr(SECTOR_ERASE, 3, 0, 0), WriteAr(addr)]
  }

  /** A sector erase, from any state, clears exactly the 64 KiB sector the address lies in. */
  lemma EraseRuns(s: State, addr: nat)
    requires Valid(s)
    ensures CanRun(s, EraseOps(addr))
    ensures Run(s, EraseOps(addr)).mem == Filled(s.mem, SectorOf(addr), SECTOR) && Run(s, EraseOps(addr)).tcf
  {
    hide Run, CanRun, Filled, Persisted, SectorOf;
    RunThree(s, WriteCcr(WREN, 0, 0, 0), WriteCcr(SECTOR_ERASE, 3, 0, 0), WriteAr(addr));
  }

  /** Updating within a sector: erase it, program, read back.  Whatever the sector held, the data
      is there, and outside the sector nothing changed. */
  lemma SectorUpdate(s: State, addr: nat, data: seq<bv8>)
    requires Valid(s) && data != [] && addr % SIZE - SectorOf(addr) + |data| <= SECTOR
    ensures var ops := EraseOps(addr);
            && CanRun(s, ops) && CanRun(Run(s, ops), ProgramOps(addr, data))
            && var t := Run(Run(s, ops), ProgramOps(addr, data));
               && CanRun(t, ReadOps(addr, |data|))
               && Drained(Run(t, ReadOps(addr, |data|)), |data|) == data
               && forall j :: 0 <= j < SIZE && !(SectorOf(addr) <= j < SectorOf(addr) + SECTOR) ==> t.mem[j] == s.mem[j]
  {
    hide Run, CanRun, EraseOps, ProgramOps, ReadOps, Drained, ReadMem, Filled, SectorOf, Ahead;
    EraseRuns(s, addr);
    var e := Run(s, EraseOps(addr));
    var base := SectorOf(addr);
    InSector(addr);
    forall i | 0 <= i < |data|
      ensures ReadMem(e.mem, addr, |data|)[i] == ERASED
    {
      ErasedInSector(s.mem, addr, |data|, i);
    }
    ProgramReadsBack(e, addr, data);
    var t := Run(e, ProgramOps(addr, data));
    forall j | 0 <= j < SIZE && !(base <= j < base + SECTOR)
      ensures t.mem[j] == s.mem[j]
    {
      OutsideSector(s.mem, addr, |data|, j);
    }
  }

  lemma ErasedInSector(mem: seq<bv8>, addr: nat, n: nat, i: nat)
    requires |mem| == SIZE && addr % SIZE - SectorOf(addr) + n <= SECTOR && i < n
    ensures ReadMem(Filled(mem, SectorOf(addr), SECTOR), addr, n)[i] == ERASED
  {
    hide SectorOf;
    InSector(addr);
    NoWrap(addr, i);
  }

  lemma OutsideSector(mem: seq<bv8>, addr: nat, n: nat, j: nat)
    requires |mem| == SIZE && j < SIZE && addr % SIZE - SectorOf(addr) + n <= SECTOR
    requires !(SectorOf(addr) <= j < SectorOf(addr) + SECTOR)
    ensures Filled(mem, SectorOf(addr), SECTOR)[j] == mem[j] && Ahead(addr % SIZE, j) >= n
  {
    hide SectorOf;
    InSector(addr);
  }

  lemma InSector(addr: nat)
    ensures SectorOf(addr) <= addr % SIZE < SectorOf(addr) + SECTOR <= SIZE
  {
  }

  lemma NoWrap(addr: nat, i: nat)
    requires addr % SIZE + i < SIZE
    ensures (addr + i) % SIZE == addr % SIZE + i
  {
  }

  function AfterReads(s: State, n: nat): (t: State)
    requires Valid(s)
    ensures Valid(t)
    decreases n
  {
    if n == 0 then s else AfterReads(Apply(s, ReadDr), n - 1)
  }

  lemma {:induction false} AfterReadsIs(s: State, n: nat)
    requires Valid(s) && s.pos + n <= |s.resp|
    ensures AfterReads(s, n) == s.(pos := s.pos + n)
    decreases n
  {
    hide DoErase, DoProgram, StartTransfer, Address;
    if n > 0 {
      var t := s.(pos := s.pos + 1);
      assert Apply(s, ReadDr) == t;
      AfterReadsIs(t, n - 1);
    }
  }

  /** A read shows as complete exactly when all its bytes have been taken. */
  lemma ReadCompletes(s: State, addr: nat, len: nat, n: nat)
    requires Valid(s) && len > 0 && n <= len
    ensures CanRun(s, ReadOps(addr, len))
    ensures Apply(AfterReads(Run(s, ReadOps(addr, len)), n), ReadSr).tcf <==> n == len
  {
    hide Run, CanRun, DoErase, ReadMem, AfterReads;
    RunThree(s, WriteDlr(len - 1), WriteCcr(READ, 3, 3, 1), WriteAr(addr));
    AfterReadsIs(Run(s, ReadOps(addr, len)), n);
  }

  /** What the drivers check: the status register shows the latch, and the id is the part's. */
  lemma StatusAndId(s: State)
    requires Valid(s)
    ensures var ops := [WriteDlr(0), WriteCcr(RDSR, 0, 1, 1)];
            CanRun(s, ops) && Drained(Run(s, ops), 1) == [if s.wel then 2 else 0]
    ensures var ops := [WriteDlr(2), WriteCcr(RDID, 0, 1, 1)];
            CanRun(s, ops) && Drained(Run(s, ops), 3) == [0x20, 0xBA, 0x19]
  {
    hide Run, CanRun, Drained, DoErase;
    RunTwo(s, WriteDlr(0), WriteCcr(RDSR, 0, 1, 1));
    RunTwo(s, WriteDlr(2), WriteCcr(RDID, 0, 1, 1));
    DrainedIs(Run(s, [WriteDlr(0), WriteCcr(RDSR, 0, 1, 1)]), 1);
    DrainedIs(Run(s, [WriteDlr(2), WriteCcr(RDID, 0, 1, 1)]), 3);
  }

  lemma RunTwo(s: State, a: Op, b: Op)
    requires CanApply(s, a) && CanApply(Apply(s, a), b)
    ensures CanRun(s, [a, b]) && Run(s, [a, b]) == Apply(Apply(s, a), b)
  {
    hide Apply, CanApply;
    RunOne(s, a);
    RunOne(Apply(s, a), b);
    RunConcat(s, [a], [b]);
    assert [a] + [b] == [a, b];
  }

  /** Programming can only clear bits: repeated, or over old data, it never sets one. */
  lemma ProgramOnlyClears(mem: seq<bv8>, base: nat, buf: seq<bv8>, j: nat)
    requires |mem| == SIZE && base < SIZE && j < SIZE && |buf| <= 2 * SIZE
    ensures Programmed(mem, base, buf)[j] & mem[j] == Programmed(mem, base, buf)[j]
    ensures Programmed(Programmed(mem, base, buf), base, buf)[j] == Programmed(mem, base, buf)[j]
  {
    hide Ahead, Once;
    OnceOrTwice(mem[j], buf, Ahead(base, j));
  }

  lemma OnceOrTwice(b: bv8, buf: seq<bv8>, i: nat)
    ensures var c := Once(Once(b, buf, i), buf, i + SIZE);
            c & b == c && Once(Once(c, buf, i), buf, i + SIZE) == c
  {
    hide Cleared;
    if i + SIZE < |buf| {
      ClearedLaws(b, buf[i], buf[i + SIZE]);
    } else if i < |buf| {
      ClearedLaws(b, buf[i], buf[i]);
    } else {
      ClearedLaws(b, b, b);
    }
  }

  lemma ClearedLaws(b: bv8, x: bv8, y: bv8)
    ensures b & b == b && Cleared(b, x) & b == Cleared(b, x) && Cleared(Cleared(b, x), x) == Cleared(b, x)
    ensures var c := Cleared(Cleared(b, x), y); c & b == c && Cleared(Cleared(c, x), y) == c
  {
    hide Cleared;
    ClearedOnce(b, x);
    ClearedTwice(b, x, y);
    ClearedAgain(b, x, y);
  }

  lemma ClearedOnce(b: bv8, x: bv8)
    ensures b & b == b && Cleared(b, x) & b == Cleared(b, x) && Cleared(Cleared(b, x), x) == Cleared(b, x)
  {
  }

  lemma ClearedTwice(b: bv8, x: bv8, y: bv8)
    ensures Cleared(Cleared(b, x), y) & b == Cleared(Cleared(b, x), y)
  {
  }

  lemma ClearedAgain(b: bv8, x: bv8, y: bv8)
    ensures var c := Cleared(Cleared(b, x), y); Cleared(Cleared(c, x), y) == c
  {
  }

  // ---- the device, updated in place --------------------------------------------------------------------

  /** A program of which one more byte is in. */
  lemma ProgrammedNext(mem: seq<bv8>, base: nat, buf: seq<bv8>, n: nat)
    requires |mem| == SIZE && base < SIZE && n < |buf| <= 2 * SIZE
    ensures var m, at := Programmed(mem, base, buf[..n]), (base + n) % SIZE;
            Programmed(mem, base, buf[..n + 1]) == m[at := Cleared(m[at], buf[n])]
  {
    hide Ahead, Cleared;
    var m, at := Programmed(mem, base, buf[..n]), (base + n) % SIZE;
    var u := m[at := Cleared(m[at], buf[n])];
    AheadOf(base, n);
    forall j | 0 <= j < SIZE
      ensures Programmed(mem, base, buf[..n + 1])[j] == u[j]
    {
      NextByte(mem[j], buf, n, Ahead(base, j));
      if j != at {
        assert (base + Ahead(base, j)) % SIZE == j;
        OtherAhead(base, n, j);
      }
    }
  }

  lemma AheadOf(base: nat, n: nat)
    requires base < SIZE && n < 2 * SIZE
    ensures Ahead(base, (base + n) % SIZE) == if n < SIZE then n else n - SIZE
  {
  }

  lemma OtherAhead(base: nat, n: nat, j: nat)
    requires base < SIZE && n < 2 * SIZE && j < SIZE && j != (base + n) % SIZE
    ensures Ahead(base, j) != n && Ahead(base, j) + SIZE != n
  {
  }

  /** One byte of the array: `i` is how far ahead it lies. */
  lemma NextByte(b: bv8, buf: seq<bv8>, n: nat, i: nat)
    requires n < |buf| <= 2 * SIZE && i < SIZE
    ensures var before := Once(Once(b, buf[..n], i), buf[..n], i + SIZE);
            Once(Once(b, buf[..n + 1], i), buf[..n + 1], i + SIZE)
            == if i == n || i + SIZE == n then Cleared(before, buf[n]) else before
  {
    hide Cleared;
    OnceNext(b, buf, n, i);
    OnceNext(Once(b, buf[..n], i), buf, n, i + SIZE);
    if i == n {
      assert Once(Once(b, buf[..n], i), buf[..n], i + SIZE) == b;
    }
  }

  lemma OnceNext(b: bv8, buf: seq<bv8>, n: nat, i: nat)
    requires n < |buf|
    ensures Once(b, buf[..n + 1], i) == if i == n then Cleared(b, buf[n]) else Once(b, buf[..n], i)
  {
  }

  class QspiDevice {
    var dlr: nat
    var ar: nat
    var resp: seq<bv8>
    var pos: nat
    var modeRead: bool
    var tcf: bool
    var wel: bool
    var xfer: Xfer
    var buf: seq<bv8>
    var mem: seq<bv8>
    var file: Option<seq<bv8>>

    ghost function Value(): (r: State)
      reads this
    {
      State(dlr, ar, resp, pos, modeRead, tcf, wel, xfer, buf, mem, file)
    }

    constructor (file: Option<seq<bv8>>)
      requires file.Some? ==> |file.value| == SIZE
      ensures Value() == New(file)
    {
      dlr, ar, resp, pos := 0, 0, [], 0;
      modeRead, tcf, wel, xfer, buf := false, false, false, Idle, [];
      mem := if file.Some? then file.value else seq(SIZE, i => ERASED);
      this.file := file;
    }

    /** The first change creates the file as a copy of the array. */
    method WriteThrough(off: nat, len: nat)
      requires |mem| == SIZE && off + len <= SIZE && (file.Some? ==> |file.value| == SIZE)
      modifies this`file
      ensures file == Persisted(old(file), mem, off, len)
    {
      if len == 0 { return; }
      var f := if file.Some? then file.value else mem;
      file := Some(f[..off] + mem[off..off + len] + f[off + len..]);
      assert file.value == WrittenThrough(f, mem, off, len);
    }

    /** Bit by bit, a program only clears, wrapping at the end of the array. */
    method ClearBits(base: nat, data: seq<bv8>)
      requires |mem| == SIZE && base < SIZE && |data| <= 2 * SIZE
      modifies this`mem
      ensures mem == Programmed(old(mem), base, data)
    {
      hide Programmed;
      var i := 0;
      assert mem == Programmed(mem, base, data[..0]) by { ProgrammedNone(mem, base); }
      while i < |data|
        invariant 0 <= i <= |data| && |mem| == SIZE
        invariant mem == Programmed(old(mem), base, data[..i])
      {
        ProgrammedNext(old(mem), base, data, i);
        var at := (base + i) % SIZE;
        mem := mem[at := Cleared(mem[at], data[i])];
        i := i + 1;
      }
      assert data[..i] == data;
    }

    /** Consumes the latch. */
    method Erase(instruction: nat)
      requires Valid(Value())
      modifies this`wel, this`mem, this`file, this`tcf
      ensures Value() == DoErase(old(Value()), instruction)
    {
      hide Persisted;
      if wel {
        wel := false;
        var base, len := 0, SIZE;
        if instruction != BULK_ERASE {
          base, len := SectorOf(ar), SECTOR;
        }
        mem := mem[..base] + seq(len, i => ERASED) + mem[base + len..];
        assert mem == Filled(old(mem), base, len);
        WriteThrough(base, len);
      }
      tcf := true;
    }

    /** Consumes the collected bytes and, if they are programmed, the latch. */
    method Program()
      requires Valid(Value()) && (wel ==> FitsTwoSegments(ar, |buf|))
      modifies this`wel, this`mem, this`file, this`tcf, this`buf
      ensures Value() == DoProgram(old(Value()))
    {
      hide WrittenThrough, Programmed;
      var data := buf;
      buf := [];
      if wel {
        wel := false;
        var base := ar % SIZE;
        ClearBits(base, data);
        var first := if |data| < SIZE - base then |data| else SIZE - base;
        WriteThrough(base, first);
        if first < |data| {
          WriteThrough(0, |data| - first);
        }
      }
      tcf := true;
    }

    method SetCcr(instruction: nat, admode: nat, dmode: nat, fmode: nat)
      requires Valid(Value())
      modifies this
      ensures Value() == StartTransfer(old(Value()), instruction, admode, dmode, fmode)
    {
      hide DoErase, Response;
      if fmode == 1 {
        if admode != 0 {
          resp := [];
          xfer := ReadAtAddr(dlr + 1);
        } else {
          resp := Response(wel, instruction, dlr + 1);
          xfer := Idle;
        }
        pos := 0;
        modeRead := true;
        tcf := false;
      } else {
        modeRead := false;
        buf := [];
        if instruction == WREN {
          wel, xfer, tcf := true, Idle, true;
        } else if instruction == WRDI {
          wel, xfer, tcf := false, Idle, true;
        } else if instruction == BULK_ERASE {
          xfer := Idle;
          Erase(instruction);
        } else if admode != 0 {
          xfer := WriteAtAddr(instruction, dmode != 0);
          tcf := false;
        } else {
          xfer, tcf := Idle, true;
        }
      }
    }

    method SetAr(addr: nat)
      requires Valid(Value())
      modifies this
      ensures Value() == Address(old(Value()), addr)
    {
      hide DoErase, ReadMem;
      ar := addr;
      match xfer
      case ReadAtAddr(len) =>
        resp := ReadMem(mem, addr, len);
        pos := 0;
        xfer := Idle;
      case WriteAtAddr(instruction, data) =>
        if data {
          xfer := WriteData(dlr + 1);
        } else {
          xfer := Idle;
          Erase(instruction);
        }
      case _ =>
    }

    method PutDr(b: bv8)
      requires CanApply(Value(), WriteDr(b))
      modifies this
      ensures Value() == DataByte(old(Value()), b)
    {
      hide DoProgram;
      if xfer.WriteData? {
        buf := buf + [b];
        if |buf| >= xfer.remaining {
          xfer := Idle;
          Program();
        }
      }
    }

    /** TCF latches once a read is drained; FLEVEL, up to 32, is what is left of it. */
    method GetSr() returns (complete: bool, flevel: nat)
      requires Valid(Value())
      modifies this`tcf
      ensures Value() == Apply(old(Value()), ReadSr) && complete == tcf
      ensures flevel == if modeRead && |resp| - pos <= 32 then |resp| - pos else if modeRead then 32 else 0
    {
      var remaining := |resp| - pos;
      if modeRead && remaining == 0 { tcf := true; }
      complete := tcf;
      flevel := if !modeRead then 0 else if remaining < 32 then remaining else 32;
    }

    /** A register write, as the bus makes it: the offset, and the word. */
    method RegWrite(off: nat, val: nat)
      requires val < 0x1_0000_0000 && Valid(Value())
      requires var op := Decoded(off, val); op.Some? ==> CanApply(Value(), op.value)
      modifies this
      ensures var op := Decoded(off, val);
              Value() == if op.Some? then Apply(old(Value()), op.value) else old(Value())
    {
      hide StartTransfer, Address, DataByte, LowByte;
      var reg := off / 4 * 4;
      if reg == 0x0C {
        if val / 2 % 2 == 1 { tcf := false; }
      } else if reg == 0x10 {
        dlr := val;
      } else if reg == 0x14 {
        SetCcr(val % 0x100, val / 0x400 % 4, val / 0x100_0000 % 4, val / 0x400_0000 % 4);
      } else if reg == 0x18 {
        SetAr(val);
      } else if reg == 0x20 {
        PutDr(LowByte(val));
      }
    }

    method GetDr() returns (b: bv8)
      requires Valid(Value())
      modifies this`pos
      ensures [b] == Drained(old(Value()), 1) && Value() == Apply(old(Value()), ReadDr)
    {
      if pos < |resp| {
        b := resp[pos];
        pos := pos + 1;
      } else {
        b := ERASED;
      }
    }
  }

  lemma ProgrammedNone(mem: seq<bv8>, base: nat)
    requires |mem| == SIZE && base < SIZE
    ensures Programmed(mem, base, []) == mem
  {
  }
}
