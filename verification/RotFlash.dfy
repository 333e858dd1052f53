/** The RoT's flash and its command engine (src/rot_flash.rs); UM11126, flash command table
    171.  Flash changes only through commands: a 512-byte page buffer is filled row by row and
    programmed as a whole, and a packed bitset says which pages are erased. */
module RotFlash {
  import opened Nor
  import opened Wrappers

  const SIZE: nat := 0x10_0000
  const PAGE: nat := 512
  const WORD: nat := 16
  const ROWS: nat := 32
  const NPAGES: nat := 2048
  const BITS: nat := 256

  const CMD_READ: u32 := 3
  const CMD_ERASE: u32 := 4
  const CMD_BLANK: u32 := 5
  const CMD_WRITE: u32 := 8
  const CMD_PROGRAM: u32 := 12

  const ST_FAIL: u32 := 1
  const ST_DONE: u32 := 4
  const ST_ECC: u32 := 8

  datatype State = State(
    mem: seq<bv8>,
    erased: seq<bv8>,        // one bit a page
    pageBuf: seq<bv8>,
    start: nat,              // STARTA and STOPA, in 16-byte words
    stop: nat,
    dataw: seq<u32>,
    status: u32,
    file: seq<bv8>,          // the two backing files
    bitFile: seq<bv8>)

  /** A register write, by the register it addresses, or a direct image load. */
  datatype Op =
    | SetStart(word: nat)
    | SetStop(word: nat)
    | SetData(i: nat, value: u32)
    | ClearStatus(bits: u32)
    | SetStatus(bits: u32)
    | Command(cmd: u32)
    | LoadImage(off: nat, bytes: seq<bv8>)

  // ---- the erased bitset -------------------------------------------------------------

  function Bit(k: nat): (r: bv8)
    requires k < 8
  {
    if k == 0 then 1 else if k == 1 then 2 else if k == 2 then 4 else if k == 3 then 8
    else if k == 4 then 0x10 else if k == 5 then 0x20 else if k == 6 then 0x40 else 0x80
  }

  predicate HasBit(b: bv8, k: nat)
    requires k < 8
  {
    b & Bit(k) != 0
  }

  function WithBit(b: bv8, k: nat, e: bool): (r: bv8)
    requires k < 8
  {
    if e then b | Bit(k) else b & !Bit(k)
  }

  lemma WithBitLaw(b: bv8, i: nat, e: bool, j: nat)
    requires i < 8 && j < 8
    ensures HasBit(WithBit(b, i, e), j) == if j == i then e else HasBit(b, j)
  {
  }

  predicate IsErased(bits: seq<bv8>, page: nat)
    requires |bits| == BITS && page < NPAGES
  {
    HasBit(bits[page / 8], page % 8)
  }

  function SetErased(bits: seq<bv8>, page: nat, e: bool): (r: seq<bv8>)
    requires |bits| == BITS && page < NPAGES
    ensures |r| == BITS
  {
    bits[page / 8 := WithBit(bits[page / 8], page % 8, e)]
  }

  /** One page's flag is set and no other's, although eight share a byte. */
  lemma SetErasedLaw(bits: seq<bv8>, page: nat, e: bool, q: nat)
    requires |bits| == BITS && page < NPAGES && q < NPAGES
    ensures IsErased(SetErased(bits, page, e), q) == if q == page then e else IsErased(bits, q)
  {
    hide HasBit, WithBit;
    WithBitLaw(bits[page / 8], page % 8, e, q % 8);
  }

  function SetRange(bits: seq<bv8>, first: nat, end: nat, e: bool): (r: seq<bv8>)
    requires |bits| == BITS && end <= NPAGES
    ensures |r| == BITS
    decreases end - first
  {
    if first >= end then bits else SetRange(SetErased(bits, first, e), first + 1, end, e)
  }

  lemma {:induction false} SetRangeLaw(bits: seq<bv8>, first: nat, end: nat, e: bool, q: nat)
    requires |bits| == BITS && end <= NPAGES && q < NPAGES
    ensures IsErased(SetRange(bits, first, end, e), q) == if first <= q < end then e else IsErased(bits, q)
    decreases end - first
  {
    hide IsErased, SetErased;
    if first < end {
      SetRangeLaw(SetErased(bits, first, e), first + 1, end, e, q);
      SetErasedLaw(bits, first, e, q);
    }
  }

  // ---- status bits are set and cleared, never assigned -----------------------------------

  function Raised(status: u32, bits: u32): (r: u32) {
    status | bits
  }

  function Lowered(status: u32, bits: u32): (r: u32) {
    status & !bits
  }

  // ---- commands ------------------------------------------------------------------------

  predicate Valid(s: State) {
    && |s.mem| == SIZE && |s.file| == SIZE && |s.erased| == BITS && |s.bitFile| == BITS
    && |s.pageBuf| == PAGE && |s.dataw| == 8
  }

  function PageOf(word: nat): (r: nat) {
    word * WORD / PAGE
  }

  function Filled(mem: seq<bv8>, lo: nat, hi: nat): (m: seq<bv8>)
    ensures |m| == |mem|
  {
    seq(|mem|, j requires 0 <= j < |mem| => if lo <= j < hi then ERASED else mem[j])
  }

  /** The pages an erase command clears are [EraseFirst, EraseEnd). */
  function EraseEnd(s: State): (e: nat)
    ensures e <= NPAGES
  {
    if PageOf(s.stop) < NPAGES then PageOf(s.stop) + 1 else NPAGES
  }

  /** What the source demands of STARTA and STOPA: an inverted or out-of-window range makes
      the write-through slice the array the wrong way round. */
  predicate CanErase(s: State) {
    PageOf(s.start) <= EraseEnd(s)
  }

  function Erase(s: State): (t: State)
    requires Valid(s) && CanErase(s)
    ensures Valid(t)
  {
    var lo, hi := PageOf(s.start) * PAGE, EraseEnd(s) * PAGE;
    var mem := Filled(s.mem, lo, hi);
    var bits := SetRange(s.erased, PageOf(s.start), EraseEnd(s), true);
    s.(mem := mem, erased := bits, file := WrittenThrough(s.file, mem, lo, hi - lo), bitFile := bits,
       status := Raised(s.status, ST_DONE))
  }

  /** DATAW0..3 laid into one 16-byte row of the page buffer. */
  function RowWritten(buf: seq<bv8>, row: nat, dataw: seq<u32>): (b: seq<bv8>)
    requires |buf| == PAGE && row < ROWS && |dataw| == 8
    ensures |b| == PAGE
  {
    var o := row * WORD;
    seq(PAGE, j requires 0 <= j < PAGE => if o <= j < o + WORD then LeByte(dataw[(j - o) / 4], (j - o) % 4) else buf[j])
  }

  function WriteRow(s: State): (t: State)
    requires Valid(s)
    ensures Valid(t)
  {
    s.(pageBuf := RowWritten(s.pageBuf, s.start % ROWS, s.dataw), status := Raised(s.status, ST_DONE))
  }

  function BlankBuffer(): (b: seq<bv8>)
    ensures |b| == PAGE
  {
    seq(PAGE, j => ERASED)
  }

  /** NOR: bits only clear. */
  function Committed(mem: seq<bv8>, base: nat, buf: seq<bv8>): (m: seq<bv8>)
    requires |buf| == PAGE
    ensures |m| == |mem|
  {
    seq(|mem|, j requires 0 <= j < |mem| => if base <= j < base + PAGE then mem[j] & buf[j - base] else mem[j])
  }

  function Program(s: State): (t: State)
    requires Valid(s)
    ensures Valid(t)
  {
    var page := PageOf(s.start);
    var t := s.(pageBuf := BlankBuffer(), status := Raised(s.status, ST_DONE));
    if page >= NPAGES then t
    else
      var mem := Committed(s.mem, page * PAGE, s.pageBuf);
      var bits := SetErased(s.erased, page, false);
      t.(mem := mem, erased := bits, file := WrittenThrough(s.file, mem, page * PAGE, PAGE), bitFile := bits)
  }

  /** A word wholly inside the array whose page is programmed. */
  predicate NotBlank(bits: seq<bv8>, w: nat)
    requires |bits| == BITS
  {
    w * WORD + WORD <= SIZE && !IsErased(bits, PageOf(w))
  }

  /** The scan of a blank check: it stops at STOPA, or past the end of the array. */
  function FirstNotBlank(bits: seq<bv8>, w: nat, stop: nat): (r: Option<nat>)
    requires |bits| == BITS
    ensures r.Some? ==> r.value * WORD + WORD <= SIZE
    decreases stop - w + 1
  {
    if w > stop || w * WORD + WORD > SIZE then None
    else if !IsErased(bits, PageOf(w)) then Some(w)
    else FirstNotBlank(bits, w + 1, stop)
  }

  function Blank(s: State): (t: State)
    requires Valid(s)
    ensures Valid(t)
  {
    match FirstNotBlank(s.erased, s.start, s.stop)
    case None => s.(status := Raised(s.status, ST_DONE))
    case Some(w) => s.(dataw := s.dataw[0 := w as u32], status := Raised(s.status, ST_DONE | ST_FAIL))
  }

  function Word(mem: seq<bv8>, o: nat): (r: u32)
    requires o + 4 <= |mem|
  {
    LeWord(mem[o], mem[o + 1], mem[o + 2], mem[o + 3])
  }

  function Row(mem: seq<bv8>, o: nat): (ws: seq<u32>)
    requires o + WORD <= |mem|
    ensures |ws| == 4
  {
    [Word(mem, o), Word(mem, o + 4), Word(mem, o + 8), Word(mem, o + 12)]
  }

  function Read(s: State): (t: State)
    requires Valid(s)
    ensures Valid(t)
  {
    if PageOf(s.start) >= NPAGES || IsErased(s.erased, PageOf(s.start)) then
      s.(status := Raised(s.status, ST_DONE | ST_ECC))
    else
      s.(dataw := Row(s.mem, s.start * WORD) + s.dataw[4..], status := Raised(s.status, ST_DONE))
  }

  function DoCmd(s: State, cmd: u32): (t: State)
    requires Valid(s) && (cmd & 0xF == CMD_ERASE ==> CanErase(s))
    ensures Valid(t)
  {
    var c := cmd & 0xF;
    if c == CMD_ERASE then Erase(s)
    else if c == CMD_WRITE then WriteRow(s)
    else if c == CMD_PROGRAM then Program(s)
    else if c == CMD_BLANK then Blank(s)
    else if c == CMD_READ then Read(s)
    else s.(status := Raised(s.status, ST_DONE | ST_FAIL))
  }

  /** Bytes copied straight in; every page touched counts as programmed. */
  function Load(s: State, off: nat, bytes: seq<bv8>): (t: State)
    requires Valid(s)
    ensures Valid(t)
  {
    var n := if off >= SIZE then 0 else if SIZE - off < |bytes| then SIZE - off else |bytes|;
    if n == 0 then s.(file := s.mem, bitFile := s.erased)
    else
      var mem := s.mem[..off] + bytes[..n] + s.mem[off + n..];
      var bits := SetRange(s.erased, off / PAGE, (off + n - 1) / PAGE + 1, false);
      s.(mem := mem, erased := bits, file := mem, bitFile := bits)
  }

  predicate CanApply(s: State, op: Op) {
    && Valid(s)
    && (op.SetData? ==> op.i < 8)
    && (op.Command? && op.cmd & 0xF == CMD_ERASE ==> CanErase(s))
  }

  function Apply(s: State, op: Op): (t: State)
    requires CanApply(s, op)
    ensures Valid(t)
  {
    match op
    case SetStart(w) => s.(start := w)
    case SetStop(w) => s.(stop := w)
    case SetData(i, v) => s.(dataw := s.dataw[i := v])
    case ClearStatus(b) => s.(status := Lowered(s.status, b))
    case SetStatus(b) => s.(status := Raised(s.status, b))
    case Command(cmd) => DoCmd(s, cmd)
    case LoadImage(off, bytes) => Load(s, off, bytes)
  }

  /** A word number, as a register holds it. */
  function WordNumber(val: u32): (n: nat) {
    val as nat
  }

  /** The register at an offset; offsets with none are ignored. */
  function Decoded(off: nat, val: u32): (op: Option<Op>) {
    if off == 0x00 then Some(Command(val))
    else if off == 0x10 then Some(SetStart(WordNumber(val)))
    else if off == 0x14 then Some(SetStop(WordNumber(val)))
    else if off == 0xFE8 then Some(ClearStatus(val))
    else if off == 0xFEC then Some(SetStatus(val))
    else if 0x80 <= off < 0xA0 then Some(SetData((off - 0x80) / 4, val))
    else None
  }

  predicate CanRun(s: State, ops: seq<Op>)
    decreases |ops|
  {
    Valid(s) && (ops == [] || (CanApply(s, ops[0]) && CanRun(Apply(s, ops[0]), ops[1..])))
  }

  function Run(s: State, ops: seq<Op>): (t: State)
    requires CanRun(s, ops)
    ensures Valid(t)
    decreases |ops|
  {
    if ops == [] then s else Run(Apply(s, ops[0]), ops[1..])
  }

  /** A part nobody has written: seeding is a run of loads from here. */
  function Factory(): (s: State)
    ensures Valid(s)
  {
    var mem := seq(SIZE, j => ERASED);
    var bits := seq(BITS, j => 0xFF as bv8);
    State(mem, bits, BlankBuffer(), 0, 0, seq(8, i => 0 as u32), 0, mem, bits)
  }

  // ---- blank check ------------------------------------------------------------------------

  /** Blank check reports exactly the least in-range word that lies on a programmed page. */
  lemma {:induction false} LeastNotBlank(bits: seq<bv8>, w: nat, stop: nat)
    requires |bits| == BITS
    ensures match FirstNotBlank(bits, w, stop)
            case Some(x) => w <= x <= stop && NotBlank(bits, x) && forall y :: w <= y < x ==> !NotBlank(bits, y)
            case None => forall y :: w <= y <= stop ==> !NotBlank(bits, y)
    decreases stop - w + 1
  {
    hide IsErased;
    if w <= stop && w * WORD + WORD <= SIZE && IsErased(bits, PageOf(w)) {
      LeastNotBlank(bits, w + 1, stop);
    }
  }

  lemma StatusBits()
    ensures Raised(0, ST_DONE) & ST_DONE != 0 && Raised(0, ST_DONE) & ST_FAIL == 0 && Raised(0, ST_DONE) & ST_ECC == 0
    ensures var f := Raised(0, ST_DONE | ST_FAIL); f & ST_DONE != 0 && f & ST_FAIL != 0 && f & ST_ECC == 0
    ensures var e := Raised(0, ST_DONE | ST_ECC); e & ST_DONE != 0 && e & ST_FAIL == 0 && e & ST_ECC != 0
  {
  }

  /** What the driver reads after any command, from a cleared status: it always completes; ECC
      means a read of an erased page or past the array, and nothing else; FAIL means a blank
      check that found a word, or a command there is no such thing as. */
  lemma CommandStatus(s: State, cmd: u32)
    requires CanApply(s, Command(cmd)) && s.status == 0
    ensures var t, c := DoCmd(s, cmd), cmd & 0xF;
            && t.status & ST_DONE != 0
            && (t.status & ST_ECC != 0 <==>
                  c == CMD_READ && (PageOf(s.start) >= NPAGES || IsErased(s.erased, PageOf(s.start))))
            && (t.status & ST_FAIL != 0 <==>
                  (c == CMD_BLANK && exists w :: s.start <= w <= s.stop && NotBlank(s.erased, w))
                  || c !in {CMD_READ, CMD_ERASE, CMD_BLANK, CMD_WRITE, CMD_PROGRAM})
  {
    hide Raised, IsErased, FirstNotBlank, SetRange, SetErased, RowWritten, Committed, Filled, WrittenThrough, Row;
    StatusBits();
    LeastNotBlank(s.erased, s.start, s.stop);
  }

  // ---- programming an image ------------------------------------------------------------------

  lemma {:induction false} RunConcat(s: State, a: seq<Op>, b: seq<Op>)
    requires CanRun(s, a) && CanRun(Run(s, a), b)
    ensures CanRun(s, a + b) && Run(s, a + b) == Run(Run(s, a), b)
    decreases |a|
  {
    hide Apply, CanApply;
    if a == [] {
      assert a + b == b && Run(s, a) == s;
    } else {
      assert (a + b)[1..] == a[1..] + b && (a + b)[0] == a[0];
      assert Run(s, a) == Run(Apply(s, a[0]), a[1..]);
      RunConcat(Apply(s, a[0]), a[1..], b);
    }
  }

  lemma Run1(s: State, a: Op)
    requires CanApply(s, a)
    ensures CanRun(s, [a]) && Run(s, [a]) == Apply(s, a)
  {
    hide Apply;
    assert [a][1..] == [];
    assert Run(Apply(s, a), []) == Apply(s, a);
  }

  lemma Run2(s: State, a: Op, b: Op)
    requires CanApply(s, a) && CanApply(Apply(s, a), b)
    ensures CanRun(s, [a, b]) && Run(s, [a, b]) == Apply(Apply(s, a), b)
  {
    hide Apply, CanApply;
    Run1(s, a);
    Run1(Apply(s, a), b);
    RunConcat(s, [a], [b]);
    assert [a] + [b] == [a, b];
  }

  /** STARTA, the four data words and Write, for row `r` of page `p`. */
  function DataOps(ws: seq<u32>): (ops: seq<Op>)
    requires |ws| == 4
  {
    [SetData(0, ws[0]), SetData(1, ws[1])] + [SetData(2, ws[2]), SetData(3, ws[3])]
  }

  function RowOps(p: nat, image: seq<bv8>, r: nat): (res: seq<Op>)
    requires |image| == PAGE && r < ROWS
  {
    [SetStart(p * ROWS + r)] + DataOps(Row(image, r * WORD)) + [Command(CMD_WRITE)]
  }

  function RowsOps(p: nat, image: seq<bv8>, r: nat): (res: seq<Op>)
    requires |image| == PAGE && r <= ROWS
    decreases ROWS - r
  {
    if r == ROWS then [] else RowOps(p, image, r) + RowsOps(p, image, r + 1)
  }

  /** Erase the page, fill the buffer row by row, program it. */
  function PageOps(p: nat, image: seq<bv8>): (r: seq<Op>)
    requires |image| == PAGE
  {
    EraseOps(p) + RowsOps(p, image, 0) + [SetStart(p * ROWS), Command(CMD_PROGRAM)]
  }

  function EraseOps(p: nat): (r: seq<Op>) {
    [SetStart(p * ROWS), SetStop(p * ROWS + (ROWS - 1))] + [Command(CMD_ERASE)]
  }

  /** A whole image from page `p` on. */
  function ImageOps(p: nat, image: seq<bv8>): (r: seq<Op>)
    decreases |image|
  {
    if |image| < PAGE then [] else PageOps(p, image[..PAGE]) + ImageOps(p + 1, image[PAGE..])
  }

  lemma DataRuns(s: State, ws: seq<u32>)
    requires Valid(s) && |ws| == 4
    ensures CanRun(s, DataOps(ws)) && Run(s, DataOps(ws)) == s.(dataw := ws + s.dataw[4..])
  {
    hide Run, CanRun;
    Run2(s, SetData(0, ws[0]), SetData(1, ws[1]));
    var s1 := s.(dataw := s.dataw[0 := ws[0]][1 := ws[1]]);
    Run2(s1, SetData(2, ws[2]), SetData(3, ws[3]));
    RunConcat(s, DataOps(ws)[..2], DataOps(ws)[2..]);
    assert DataOps(ws) == [SetData(0, ws[0]), SetData(1, ws[1])] + [SetData(2, ws[2]), SetData(3, ws[3])];
    assert DataOps(ws)[..2] == [SetData(0, ws[0]), SetData(1, ws[1])];
    assert DataOps(ws)[2..] == [SetData(2, ws[2]), SetData(3, ws[3])];
    assert s.dataw[0 := ws[0]][1 := ws[1]][2 := ws[2]][3 := ws[3]] == ws + s.dataw[4..];
  }

  /** A word read out of the image and split again gives the image's bytes back. */
  lemma RowBytes(image: seq<bv8>, r: nat, j: nat)
    requires |image| == PAGE && r < ROWS && r * WORD <= j < r * WORD + WORD
    ensures LeByte(Row(image, r * WORD)[(j - r * WORD) / 4], (j - r * WORD) % 4) == image[j]
  {
    hide LeByte, LeWord;
    var o := r * WORD;
    var q := (j - o) / 4;
    assert j == o + 4 * q + (j - o) % 4;
    LeRoundTrip(image[o + 4 * q], image[o + 4 * q + 1], image[o + 4 * q + 2], image[o + 4 * q + 3]);
  }

  lemma RowFills(buf: seq<bv8>, image: seq<bv8>, r: nat, dataw: seq<u32>)
    requires |buf| == PAGE && |image| == PAGE && r < ROWS && |dataw| == 8 && dataw[..4] == Row(image, r * WORD)
    requires buf[..r * WORD] == image[..r * WORD]
    ensures RowWritten(buf, r, dataw)[..r * WORD + WORD] == image[..r * WORD + WORD]
  {
    hide LeByte, Row;
    var b := RowWritten(buf, r, dataw);
    forall j | 0 <= j < r * WORD + WORD
      ensures b[j] == image[j]
    {
      if j < r * WORD {
        assert buf[..r * WORD][j] == image[..r * WORD][j];
      } else {
        RowBytes(image, r, j);
        assert dataw[..4][(j - r * WORD) / 4] == dataw[(j - r * WORD) / 4];
      }
    }
  }

  /** A run that works on the buffer only. */
  ghost predicate KeepsFlash(s: State, t: State) {
    && Valid(s) && Valid(t)
    && t == s.(pageBuf := t.pageBuf, start := t.start, dataw := t.dataw, status := t.status)
    && t.dataw[4..] == s.dataw[4..]
  }

  lemma WriteCommand()
    ensures CMD_WRITE & 0xF == CMD_WRITE && CMD_PROGRAM & 0xF == CMD_PROGRAM && CMD_ERASE & 0xF == CMD_ERASE
    ensures CMD_READ & 0xF == CMD_READ && CMD_BLANK & 0xF == CMD_BLANK
  {
  }

  lemma RowRuns(s: State, p: nat, image: seq<bv8>, r: nat)
    requires Valid(s) && |image| == PAGE && r < ROWS
    ensures CanRun(s, RowOps(p, image, r))
    ensures var t := Run(s, RowOps(p, image, r));
            KeepsFlash(s, t) && t.pageBuf == RowWritten(s.pageBuf, r, Row(image, r * WORD) + s.dataw[4..])
  {
    hide Run, CanRun, Row, RowWritten, Erase, Program, Blank, Read;
    var ws := Row(image, r * WORD);
    Run1(s, SetStart(p * ROWS + r));
    var s1 := s.(start := p * ROWS + r);
    DataRuns(s1, ws);
    RunConcat(s, [SetStart(p * ROWS + r)], DataOps(ws));
    var s2 := s1.(dataw := ws + s.dataw[4..]);
    WriteCommand();
    assert s2.start % ROWS == r;
    Run1(s2, Command(CMD_WRITE));
    RunConcat(s, [SetStart(p * ROWS + r)] + DataOps(ws), [Command(CMD_WRITE)]);
  }

  lemma {:induction false} RowsRun(s: State, p: nat, image: seq<bv8>, r: nat)
    requires Valid(s) && |image| == PAGE && r <= ROWS && s.pageBuf[..r * WORD] == image[..r * WORD]
    ensures CanRun(s, RowsOps(p, image, r))
    ensures var t := Run(s, RowsOps(p, image, r)); KeepsFlash(s, t) && t.pageBuf == image
    decreases ROWS - r
  {
    hide RowOps, Row, RowWritten;
    if r == ROWS {
      assert s.pageBuf == s.pageBuf[..r * WORD] == image;
    } else {
      RowRuns(s, p, image, r);
      var t := Run(s, RowOps(p, image, r));
      RowFills(s.pageBuf, image, r, Row(image, r * WORD) + s.dataw[4..]);
      RowsRun(t, p, image, r + 1);
      RunConcat(s, RowOps(p, image, r), RowsOps(p, image, r + 1));
    }
  }

  function PageReplaced(mem: seq<bv8>, p: nat, image: seq<bv8>): (m: seq<bv8>)
    requires |mem| == SIZE && p < NPAGES && |image| == PAGE
    ensures |m| == SIZE
  {
    mem[..p * PAGE] + image + mem[p * PAGE + PAGE..]
  }

  /** Erasing a page and committing a buffer over it leaves exactly the buffer there. */
  lemma EraseThenCommit(mem: seq<bv8>, p: nat, image: seq<bv8>)
    requires |mem| == SIZE && p < NPAGES && |image| == PAGE
    ensures Committed(Filled(mem, p * PAGE, p * PAGE + PAGE), p * PAGE, image) == PageReplaced(mem, p, image)
  {
    var m := Committed(Filled(mem, p * PAGE, p * PAGE + PAGE), p * PAGE, image);
    forall j | 0 <= j < SIZE
      ensures m[j] == PageReplaced(mem, p, image)[j]
    {
      if p * PAGE <= j < p * PAGE + PAGE {
        AndErased(image[j - p * PAGE]);
      }
    }
  }

  lemma EraseRuns(s: State, p: nat)
    requires Valid(s) && p < NPAGES
    ensures CanRun(s, EraseOps(p))
    ensures var t := Run(s, EraseOps(p));
            && t.mem == Filled(s.mem, p * PAGE, p * PAGE + PAGE)
            && t.erased == SetErased(s.erased, p, true)
            && t.pageBuf == s.pageBuf
  {
    hide Run, CanRun, Filled, SetErased, WriteRow, Program, Blank, Read;
    var a, b := SetStart(p * ROWS), SetStop(p * ROWS + (ROWS - 1));
    Run2(s, a, b);
    var s1 := s.(start := p * ROWS, stop := p * ROWS + (ROWS - 1));
    WriteCommand();
    assert PageOf(s1.start) == p && PageOf(s1.stop) == p;
    assert SetRange(s.erased, p, p + 1, true) == SetErased(s.erased, p, true);
    Run1(s1, Command(CMD_ERASE));
    RunConcat(s, [a, b], [Command(CMD_ERASE)]);
  }

  lemma CommitRuns(s: State, p: nat)
    requires Valid(s) && p < NPAGES
    ensures var ops := [SetStart(p * ROWS), Command(CMD_PROGRAM)];
            && CanRun(s, ops)
            && var t := Run(s, ops);
               && t.mem == Committed(s.mem, p * PAGE, s.pageBuf)
               && t.erased == SetErased(s.erased, p, false)
  {
    hide Run, CanRun, Committed, SetErased, WriteRow, Erase, Blank, Read;
    WriteCommand();
    var s1 := s.(start := p * ROWS);
    assert PageOf(s1.start) == p;
    Run2(s, SetStart(p * ROWS), Command(CMD_PROGRAM));
  }

  /** One page, whatever it and the page buffer held: afterwards it holds the image, and
      every other byte and every other page's flag is as it was. */
  lemma PageRuns(s: State, p: nat, image: seq<bv8>)
    requires Valid(s) && p < NPAGES && |image| == PAGE
    ensures CanRun(s, PageOps(p, image))
    ensures var t := Run(s, PageOps(p, image));
            && t.mem == PageReplaced(s.mem, p, image)
            && forall q :: 0 <= q < NPAGES ==> IsErased(t.erased, q) == (q != p && IsErased(s.erased, q))
  {
    hide Run, CanRun, EraseOps, RowsOps, Filled, Committed, SetErased, IsErased, PageReplaced;
    EraseRuns(s, p);
    var s1 := Run(s, EraseOps(p));
    RowsRun(s1, p, image, 0);
    RunConcat(s, EraseOps(p), RowsOps(p, image, 0));
    var s2 := Run(s1, RowsOps(p, image, 0));
    CommitRuns(s2, p);
    var c := [SetStart(p * ROWS), Command(CMD_PROGRAM)];
    RunConcat(s, EraseOps(p) + RowsOps(p, image, 0), c);
    EraseThenCommit(s.mem, p, image);
    var t := Run(s2, c);
    forall q | 0 <= q < NPAGES
      ensures IsErased(t.erased, q) == (q != p && IsErased(s.erased, q))
    {
      SetErasedLaw(s.erased, p, true, q);
      SetErasedLaw(s1.erased, p, false, q);
    }
  }

  /** The memory with a page-aligned image laid over it. */
  function Imaged(mem: seq<bv8>, p: nat, image: seq<bv8>): (m: seq<bv8>)
    requires |mem| == SIZE && p * PAGE + |image| <= SIZE
    ensures |m| == SIZE
  {
    mem[..p * PAGE] + image + mem[p * PAGE + |image|..]
  }

  lemma ImagedStep(mem: seq<bv8>, p: nat, image: seq<bv8>)
    requires |mem| == SIZE && p * PAGE + |image| <= SIZE && |image| >= PAGE
    ensures Imaged(PageReplaced(mem, p, image[..PAGE]), p + 1, image[PAGE..]) == Imaged(mem, p, image)
  {
  }

  /** Updating an image of any number of pages, from any state: the array holds the image
      there and is unchanged elsewhere; just those pages became programmed. */
  lemma {:induction false} ImageRuns(s: State, p: nat, image: seq<bv8>)
    requires Valid(s) && |image| % PAGE == 0 && p * PAGE + |image| <= SIZE
    ensures CanRun(s, ImageOps(p, image))
    ensures var t := Run(s, ImageOps(p, image));
            && t.mem == Imaged(s.mem, p, image)
            && forall q :: 0 <= q < NPAGES ==>
                 IsErased(t.erased, q) == (!(p <= q < p + |image| / PAGE) && IsErased(s.erased, q))
    decreases |image|
  {
    hide Apply, PageOps, IsErased, PageReplaced;
    if |image| < PAGE {
      assert image == [] && Imaged(s.mem, p, image) == s.mem;
    } else {
      var head, tail := image[..PAGE], image[PAGE..];
      PageRuns(s, p, head);
      var s1 := Run(s, PageOps(p, head));
      ImageRuns(s1, p + 1, tail);
      RunConcat(s, PageOps(p, head), ImageOps(p + 1, tail));
      ImagedStep(s.mem, p, image);
      assert |image| / PAGE == |tail| / PAGE + 1;
    }
  }

  lemma ReadRuns(s: State, w: nat)
    requires Valid(s) && PageOf(w) < NPAGES && !IsErased(s.erased, PageOf(w))
    ensures var ops := [SetStart(w), Command(CMD_READ)];
            && CanRun(s, ops)
            && var t := Run(s, ops); t.dataw[..4] == Row(s.mem, w * WORD) && t.status == Raised(s.status, ST_DONE)
  {
    hide Run, CanRun, IsErased, Row, WriteRow, Erase, Blank, Program;
    WriteCommand();
    Run2(s, SetStart(w), Command(CMD_READ));
  }

  lemma ImagedRow(mem: seq<bv8>, p: nat, image: seq<bv8>, o: nat)
    requires |mem| == SIZE && p * PAGE + |image| <= SIZE && o + WORD <= |image|
    ensures Row(Imaged(mem, p, image), p * PAGE + o) == Row(image, o)
  {
    hide LeWord;
    var m := Imaged(mem, p, image);
    assert forall j :: p * PAGE + o <= j < p * PAGE + o + WORD ==> m[j] == image[j - p * PAGE];
  }

  /** After the update every single-word read of the image succeeds and returns its words. */
  lemma ImageReadsBack(s: State, p: nat, image: seq<bv8>, k: nat)
    requires Valid(s) && |image| % PAGE == 0 && p * PAGE + |image| <= SIZE && k * WORD + WORD <= |image|
    ensures CanRun(s, ImageOps(p, image))
    ensures var t := Run(s, ImageOps(p, image));
            var read := [SetStart(p * ROWS + k), Command(CMD_READ)];
            && CanRun(t, read)
            && Run(t, read).dataw[..4] == Row(image, k * WORD) && Run(t, read).status == Raised(t.status, ST_DONE)
  {
    hide Run, CanRun, ImageOps, IsErased, Row, Imaged;
    ImageRuns(s, p, image);
    var t := Run(s, ImageOps(p, image));
    var q := PageOf(p * ROWS + k);
    assert p <= q < p + |image| / PAGE;
    ReadRuns(t, p * ROWS + k);
    ImagedRow(s.mem, p, image, k * WORD);
  }

  // ---- erased pages are blank ---------------------------------------------------------------------

  /** Every byte of a page marked erased is 0xFF. */
  ghost predicate ErasedIsBlank(mem: seq<bv8>, bits: seq<bv8>)
    requires |mem| == SIZE && |bits| == BITS
  {
    forall j :: 0 <= j < SIZE && IsErased(bits, j / PAGE) ==> mem[j] == ERASED
  }

  lemma EraseKeepsBlank(s: State)
    requires Valid(s) && CanErase(s) && ErasedIsBlank(s.mem, s.erased)
    ensures ErasedIsBlank(Erase(s).mem, Erase(s).erased)
  {
    hide IsErased, SetRange, WrittenThrough;
    var t := Erase(s);
    forall j | 0 <= j < SIZE && IsErased(t.erased, j / PAGE)
      ensures t.mem[j] == ERASED
    {
      SetRangeLaw(s.erased, PageOf(s.start), EraseEnd(s), true, j / PAGE);
    }
  }

  lemma ProgramKeepsBlank(s: State)
    requires Valid(s) && ErasedIsBlank(s.mem, s.erased)
    ensures ErasedIsBlank(Program(s).mem, Program(s).erased)
  {
    hide IsErased, SetErased, WrittenThrough;
    var t := Program(s);
    var p := PageOf(s.start);
    if p < NPAGES {
      forall j | 0 <= j < SIZE && IsErased(t.erased, j / PAGE)
        ensures t.mem[j] == ERASED
      {
        SetErasedLaw(s.erased, p, false, j / PAGE);
      }
    }
  }

  lemma LoadKeepsBlank(s: State, off: nat, bytes: seq<bv8>)
    requires Valid(s) && ErasedIsBlank(s.mem, s.erased)
    ensures ErasedIsBlank(Load(s, off, bytes).mem, Load(s, off, bytes).erased)
  {
    hide IsErased, SetRange;
    var t := Load(s, off, bytes);
    var n := if off >= SIZE then 0 else if SIZE - off < |bytes| then SIZE - off else |bytes|;
    if n > 0 {
      forall j | 0 <= j < SIZE && IsErased(t.erased, j / PAGE)
        ensures t.mem[j] == ERASED
      {
        SetRangeLaw(s.erased, off / PAGE, (off + n - 1) / PAGE + 1, false, j / PAGE);
      }
    }
  }

  // ---- durability -----------------------------------------------------------------------------------

  predicate Synced(s: State) {
    Valid(s) && s.file == s.mem && s.bitFile == s.erased
  }

  lemma EraseKeepsSynced(s: State)
    requires Synced(s) && CanErase(s)
    ensures Synced(Erase(s))
  {
    hide SetRange, WrittenThrough;
    var lo, hi := PageOf(s.start) * PAGE, EraseEnd(s) * PAGE;
    WrittenThroughSyncs(s.file, Filled(s.mem, lo, hi), lo, hi - lo);
  }

  lemma ProgramKeepsSynced(s: State)
    requires Synced(s)
    ensures Synced(Program(s))
  {
    hide SetErased, WrittenThrough;
    var page := PageOf(s.start);
    if page < NPAGES {
      WrittenThroughSyncs(s.file, Committed(s.mem, page * PAGE, s.pageBuf), page * PAGE, PAGE);
    }
  }

  /** What every operation keeps. */
  ghost predicate Good(s: State) {
    Synced(s) && ErasedIsBlank(s.mem, s.erased)
  }

  lemma OpKeepsGood(s: State, op: Op)
    requires CanApply(s, op) && Good(s)
    ensures Good(Apply(s, op))
  {
    hide IsErased, SetErased, SetRange, Filled, Committed, WrittenThrough, Erase, Program, ErasedIsBlank;
    hide Row, RowWritten, Load;
    match op
    case Command(cmd) =>
      if cmd & 0xF == CMD_ERASE {
        EraseKeepsBlank(s);
        EraseKeepsSynced(s);
      } else {
        ProgramKeepsBlank(s);
        ProgramKeepsSynced(s);
      }
    case LoadImage(off, bytes) => LoadGood(s, off, bytes);
    case _ =>
  }

  lemma LoadGood(s: State, off: nat, bytes: seq<bv8>)
    requires Good(s)
    ensures Good(Load(s, off, bytes))
  {
    hide ErasedIsBlank, IsErased, SetRange;
    LoadKeepsBlank(s, off, bytes);
  }

  /** A process started on the two files: their contents, and registers as at power-on. */
  function Reload(s: State): (t: State)
    requires Valid(s)
    ensures Valid(t)
  {
    Factory().(mem := s.file, erased := s.bitFile, file := s.file, bitFile := s.bitFile)
  }

  /** What a run keeps, and what a process started on the files after it finds. */
  lemma {:induction false} RunKeepsGood(s: State, ops: seq<Op>)
    requires Good(s) && CanRun(s, ops)
    ensures var t := Run(s, ops);
            Good(t) && Good(Reload(t)) && Reload(t).mem == t.mem && Reload(t).erased == t.erased
    decreases |ops|
  {
    hide Apply, ErasedIsBlank;
    if ops != [] {
      OpKeepsGood(s, ops[0]);
      RunKeepsGood(Apply(s, ops[0]), ops[1..]);
    }
  }

  /** From the factory on, over any loads, commands and restarts in any order, cut anywhere:
      every page marked erased is blank, and a restart finds the contents and the flags.  `lives`
      holds what each process did. */
  lemma {:induction false} AnyLife(s: State, lives: seq<seq<Op>>)
    requires Good(s) && CanLive(s, lives)
    ensures var t := Lived(s, lives);
            Good(t) && Reload(t).mem == t.mem && Reload(t).erased == t.erased
    ensures Good(Factory())
    decreases |lives|
  {
    hide ErasedIsBlank, Run, CanRun;
    FactoryIsGood();
    if lives == [] {
      GoodReloads(s);
    } else {
      RunKeepsGood(s, lives[0]);
      AnyLife(Reload(Run(s, lives[0])), lives[1..]);
    }
  }

  lemma FactoryIsGood()
    ensures Good(Factory())
  {
  }

  lemma GoodReloads(s: State)
    requires Good(s)
    ensures Good(Reload(s)) && Reload(s).mem == s.mem && Reload(s).erased == s.erased
  {
    hide ErasedIsBlank;
  }

  predicate CanLive(s: State, lives: seq<seq<Op>>)
    decreases |lives|
  {
    Valid(s) && (lives == [] || (CanRun(s, lives[0]) && CanLive(Reload(Run(s, lives[0])), lives[1..])))
  }

  function Lived(s: State, lives: seq<seq<Op>>): (t: State)
    requires CanLive(s, lives)
    ensures Valid(t)
    decreases |lives|
  {
    if lives == [] then s else Lived(Reload(Run(s, lives[0])), lives[1..])
  }

  /** Blank check can be trusted: when it finds nothing on a part with that invariant, every
      whole word of the range inside the array reads 0xFF. */
  lemma BlankIsBlank(s: State, w: nat, i: nat)
    requires Good(s) && FirstNotBlank(s.erased, s.start, s.stop).None?
    requires s.start <= w <= s.stop && w * WORD + WORD <= SIZE && i < WORD
    ensures s.mem[w * WORD + i] == ERASED
  {
    hide IsErased, FirstNotBlank;
    LeastNotBlank(s.erased, s.start, s.stop);
    assert !NotBlank(s.erased, w);
    assert (w * WORD + i) / PAGE == PageOf(w);
  }

  // ---- the device, updated in place -------------------------------------------------------------------

  lemma SetRangeNone(bits: seq<bv8>, first: nat, e: bool)
    requires |bits| == BITS && first <= NPAGES
    ensures SetRange(bits, first, first, e) == bits
  {
  }

  lemma {:induction false} SetRangeNext(bits: seq<bv8>, first: nat, page: nat, e: bool)
    requires |bits| == BITS && first <= page < NPAGES
    ensures SetRange(bits, first, page + 1, e) == SetErased(SetRange(bits, first, page, e), page, e)
    decreases page - first
  {
    hide SetErased;
    if first < page {
      SetRangeNext(SetErased(bits, first, e), first + 1, page, e);
    }
  }

  lemma FilledNext(mem: seq<bv8>, lo: nat, page: nat)
    requires lo <= page * PAGE && page * PAGE + PAGE <= |mem|
    ensures var m := Filled(mem, lo, page * PAGE);
            Filled(mem, lo, page * PAGE + PAGE) == m[..page * PAGE] + seq(PAGE, i => ERASED) + m[page * PAGE + PAGE..]
  {
  }

  /** A row of which the first `n` words are in. */
  function PartRow(buf: seq<bv8>, o: nat, dataw: seq<u32>, n: nat): (b: seq<bv8>)
    requires |buf| == PAGE && |dataw| == 8 && n <= 4
    ensures |b| == PAGE
  {
    seq(PAGE, j requires 0 <= j < PAGE =>
      if o <= j < o + 4 * n then LeByte(dataw[(j - o) / 4], (j - o) % 4) else buf[j])
  }

  /** The bytes of a word, low first. */
  function Bytes(w: u32): (b: seq<bv8>)
    ensures |b| == 4
  {
    [LeByte(w, 0), LeByte(w, 1), LeByte(w, 2), LeByte(w, 3)]
  }

  lemma PartRowNext(buf: seq<bv8>, o: nat, dataw: seq<u32>, n: nat)
    requires |buf| == PAGE && |dataw| == 8 && n < 4 && o + 4 * n + 4 <= PAGE
    ensures var b, at, w := PartRow(buf, o, dataw, n), o + 4 * n, dataw[n];
            PartRow(buf, o, dataw, n + 1) == b[..at] + Bytes(w) + b[at + 4..]
  {
    hide LeByte;
    var b, at, w := PartRow(buf, o, dataw, n), o + 4 * n, dataw[n];
    var c := b[..at] + Bytes(w) + b[at + 4..];
    forall j | 0 <= j < PAGE
      ensures PartRow(buf, o, dataw, n + 1)[j] == c[j]
    {
      if at <= j < at + 4 {
        assert (j - o) / 4 == n && (j - o) % 4 == j - at;
      }
    }
  }

  class RotFlashDevice {
    var mem: seq<bv8>
    var erased: seq<bv8>
    var pageBuf: seq<bv8>
    var start: nat
    var stop: nat
    var dataw: seq<u32>
    var status: u32
    var file: seq<bv8>
    var bitFile: seq<bv8>

    ghost function Value(): (r: State)
      reads this
    {
      State(mem, erased, pageBuf, start, stop, dataw, status, file, bitFile)
    }

    constructor ()
      ensures Value() == Factory()
    {
      mem := seq(SIZE, j => ERASED);
      erased := seq(BITS, j => 0xFF as bv8);
      pageBuf := seq(PAGE, j => ERASED);
      start, stop, dataw, status := 0, 0, seq(8, i => 0 as u32), 0;
      file := seq(SIZE, j => ERASED);
      bitFile := seq(BITS, j => 0xFF as bv8);
    }

    /** The pages [first, end) and the whole bitset go to the files. */
    method PersistPages(first: nat, end: nat)
      requires Valid(Value()) && first <= end <= NPAGES
      modifies this`file, this`bitFile
      ensures file == WrittenThrough(old(file), mem, first * PAGE, (end - first) * PAGE)
      ensures bitFile == erased
    {
      file := file[..first * PAGE] + mem[first * PAGE..end * PAGE] + file[end * PAGE..];
      bitFile := erased;
    }

    /** Page by page: fill with 0xFF and mark erased. */
    method ErasePages(first: nat, end: nat)
      requires |mem| == SIZE && |erased| == BITS && first <= end <= NPAGES
      modifies this`mem, this`erased
      ensures mem == Filled(old(mem), first * PAGE, end * PAGE)
      ensures erased == SetRange(old(erased), first, end, true)
    {
      hide SetErased, SetRange;
      var page := first;
      assert SetRange(erased, first, first, true) == erased by { SetRangeNone(erased, first, true); }
      assert mem == Filled(mem, first * PAGE, first * PAGE);
      while page < end
        invariant first <= page <= end && |mem| == SIZE && |erased| == BITS
        invariant mem == Filled(old(mem), first * PAGE, page * PAGE)
        invariant erased == SetRange(old(erased), first, page, true)
      {
        FilledNext(old(mem), first * PAGE, page);
        SetRangeNext(old(erased), first, page, true);
        mem := mem[..page * PAGE] + seq(PAGE, i => ERASED) + mem[page * PAGE + PAGE..];
        erased := SetErased(erased, page, true);
        page := page + 1;
      }
    }

    method CmdErase()
      requires Valid(Value()) && CanErase(Value())
      modifies this
      ensures Value() == Erase(old(Value()))
    {
      hide Filled, SetRange, WrittenThrough;
      var first, last := start * WORD / PAGE, stop * WORD / PAGE;
      var end := if last < NPAGES then last + 1 else NPAGES;
      ErasePages(first, end);
      PersistPages(first, end);
      status := Raised(status, ST_DONE);
    }

    /** Word by word into the page-buffer row. */
    method FillRow(row: nat)
      requires row < ROWS && |pageBuf| == PAGE && |dataw| == 8
      modifies this`pageBuf
      ensures pageBuf == RowWritten(old(pageBuf), row, dataw)
    {
      hide LeByte;
      var o := row * WORD;
      var i := 0;
      while i < 4
        invariant 0 <= i <= 4 && |pageBuf| == PAGE
        invariant pageBuf == PartRow(old(pageBuf), o, dataw, i)
      {
        PartRowNext(old(pageBuf), o, dataw, i);
        var w := dataw[i];
        var at := o + 4 * i;
        pageBuf := pageBuf[..at] + Bytes(w) + pageBuf[at + 4..];
        i := i + 1;
      }
    }

    method CmdWrite()
      requires Valid(Value())
      modifies this`pageBuf, this`status
      ensures Value() == WriteRow(old(Value()))
    {
      hide RowWritten;
      FillRow(start % ROWS);
      status := Raised(status, ST_DONE);
    }

    /** Byte by byte: the page keeps only the bits set in the buffer too. */
    method CommitPage(base: nat)
      requires |mem| == SIZE && |pageBuf| == PAGE && base + PAGE <= SIZE
      modifies this`mem
      ensures mem == Committed(old(mem), base, pageBuf)
    {
      var i := 0;
      while i < PAGE
        invariant 0 <= i <= PAGE && |mem| == SIZE
        invariant forall j :: 0 <= j < SIZE ==>
                    mem[j] == if base <= j < base + i then old(mem)[j] & pageBuf[j - base] else old(mem)[j]
      {
        mem := mem[base + i := mem[base + i] & pageBuf[i]];
        i := i + 1;
      }
    }

    method CmdProgram()
      requires Valid(Value())
      modifies this
      ensures Value() == Program(old(Value()))
    {
      hide Committed, SetErased, WrittenThrough;
      var page := start * WORD / PAGE;
      if page < NPAGES {
        CommitPage(page * PAGE);
        erased := SetErased(erased, page, false);
        PersistPages(page, page + 1);
      }
      pageBuf := seq(PAGE, j => ERASED);
      assert pageBuf == BlankBuffer();
      status := Raised(status, ST_DONE);
    }

    /** The scan returns on the first programmed word, and always ends: at STOPA, or past
        the end of the array. */
    method Scan() returns (r: Option<nat>)
      requires |erased| == BITS
      ensures r == FirstNotBlank(erased, start, stop)
    {
      hide IsErased;
      var w := start;
      while w <= stop
        invariant start <= w
        invariant FirstNotBlank(erased, w, stop) == FirstNotBlank(erased, start, stop)
        decreases stop - w + 1
      {
        if w * WORD + WORD > SIZE { return None; }
        if !IsErased(erased, w * WORD / PAGE) { return Some(w); }
        w := w + 1;
      }
      return None;
    }

    method CmdBlank()
      requires Valid(Value())
      modifies this`dataw, this`status
      ensures Value() == Blank(old(Value()))
    {
      hide FirstNotBlank;
      var r := Scan();
      match r
      case Some(w) =>
        dataw := dataw[0 := w as u32];
        status := Raised(status, ST_DONE | ST_FAIL);
      case None => status := Raised(status, ST_DONE);
    }

    method FetchRow(base: nat)
      requires base + WORD <= |mem| && |dataw| == 8
      modifies this`dataw
      ensures dataw == Row(mem, base) + old(dataw)[4..]
    {
      hide Word;
      var k := 0;
      while k < 4
        invariant 0 <= k <= 4 && |dataw| == 8
        invariant forall i :: 0 <= i < k ==> dataw[i] == Word(mem, base + i * 4)
        invariant forall i :: k <= i < 8 ==> dataw[i] == old(dataw)[i]
      {
        dataw := dataw[k := Word(mem, base + k * 4)];
        k := k + 1;
      }
    }

    method CmdRead()
      requires Valid(Value())
      modifies this`dataw, this`status
      ensures Value() == Read(old(Value()))
    {
      hide IsErased, Row, Word, LeWord, Raised;
      var base := start * WORD;
      if base / PAGE >= NPAGES || IsErased(erased, base / PAGE) {
        status := Raised(status, ST_DONE | ST_ECC);
      } else {
        FetchRow(base);
        status := Raised(status, ST_DONE);
      }
    }

    method DoCommand(cmd: u32)
      requires CanApply(Value(), Command(cmd))
      modifies this
      ensures Value() == DoCmd(old(Value()), cmd)
    {
      hide Erase, WriteRow, Program, Blank, Read;
      var c := cmd & 0xF;
      if c == CMD_ERASE {
        CmdErase();
      } else if c == CMD_WRITE {
        CmdWrite();
      } else if c == CMD_PROGRAM {
        CmdProgram();
      } else if c == CMD_BLANK {
        CmdBlank();
      } else if c == CMD_READ {
        CmdRead();
      } else {
        status := Raised(status, ST_DONE | ST_FAIL);
      }
    }

    /** A write to a register that is plain state. */
    method SetControl(op: Op)
      requires CanApply(Value(), op) && !op.LoadImage? && !op.Command?
      modifies this`start, this`stop, this`dataw, this`status
      ensures Value() == Apply(old(Value()), op)
    {
      hide DoCmd, Load, Raised, Lowered;
      match op
      case SetStart(w) => start := w;
      case SetStop(w) => stop := w;
      case SetData(i, v) => dataw := dataw[i := v];
      case ClearStatus(b) => status := Lowered(status, b);
      case SetStatus(b) => status := Raised(status, b);
    }

    /** A write to the register that `op` names. */
    method Write(op: Op)
      requires CanApply(Value(), op) && !op.LoadImage?
      modifies this
      ensures Value() == Apply(old(Value()), op)
    {
      hide DoCmd, Load;
      if op.Command? {
        DoCommand(op.cmd);
      } else {
        SetControl(op);
      }
    }

    /** A register write, as the bus makes it: the offset, and the word. */
    method RegWrite(off: nat, val: u32)
      requires Valid(Value())
      requires var op := Decoded(off, val); op.Some? ==> CanApply(Value(), op.value)
      modifies this
      ensures var op := Decoded(off, val);
              Value() == if op.Some? then Apply(old(Value()), op.value) else old(Value())
    {
      hide Apply, CanErase, Valid, WordNumber;
      var op := Decoded(off, val);
      if op.Some? {
        Write(op.value);
      }
    }
  }
}
