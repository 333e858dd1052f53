/** The SP's dual-bank flash and its controller (src/flash.rs); RM0433, sections 4.9.2 and
    4.9.3.  `State` is the controller, the array, the backing file and the persisted swap
    bit; `Apply` is one operation on it, and class `FlashDevice` performs it in place. */
module Flash {
  import opened Arithmetic
  import opened Nor

  const FLASH_BASE: nat := 0x0800_0000
  const BANK_SIZE: nat := 0x10_0000
  const TOTAL: nat := 0x20_0000
  const UPPER_BASE: nat := FLASH_BASE + BANK_SIZE
  const FLASH_END: nat := FLASH_BASE + TOTAL

  const REG_OPTKEYR: nat := 0x08
  const REG_OPTCR: nat := 0x18
  const REG_OPTSR_PRG: nat := 0x20
  const REG_OPTCCR: nat := 0x24
  const REG_KEYR2: nat := 0x104
  const REG_CR2: nat := 0x10C
  const REG_SR2: nat := 0x110
  const REG_CCR2: nat := 0x114

  const CR_LOCK: u32 := 0x1
  const CR_PG: u32 := 0x2
  const CR_BER: u32 := 0x8
  const CR_START: u32 := 0x80
  const CR_EOPIE: u32 := 0x1_0000
  const SR_EOP: u32 := 0x1_0000
  const OPTCR_OPTLOCK: u32 := 0x1
  const OPTCR_OPTSTART: u32 := 0x2
  const OPT_SWAP_BANK: u32 := 0x8000_0000
  const KEY1: u32 := 0x4567_0123
  const KEY2: u32 := 0xCDEF_89AB
  const OPTKEY1: u32 := 0x0819_2A3B
  const OPTKEY2: u32 := 0x4C5D_6E7F

  datatype State = State(
    mem: seq<bv8>,
    file: seq<bv8>,          // the backing file
    nvSwap: bool,            // the persisted swap bit
    effective: bool,
    committed: bool,
    staged: bool,
    locked: bool,
    optLocked: bool,
    key2: nat,
    optkey: nat,
    cr2: u32,
    sr2: u32,
    eraseIrq: bool,
    regs: map<nat, u32>)

  datatype Op =
    | WriteReg(off: nat, val: u32)
    | Store(addr: nat, word: u32, size: nat)
    | Load(at: nat, bytes: seq<bv8>)
    | TakeIrq
    | ForceSwap(swap: bool)
    | ResetLatch

  // ---- the aperture ------------------------------------------------------------

  /** An address the bus routes to the aperture. */
  predicate InWindow(addr: nat) {
    FLASH_BASE <= addr < FLASH_END
  }

  function PhysOff(swap: bool, addr: nat): (o: nat)
    requires InWindow(addr)
    ensures o < TOTAL
  {
    var rel := addr - FLASH_BASE;
    if !swap then rel else if rel < BANK_SIZE then rel + BANK_SIZE else rel - BANK_SIZE
  }

  // The source computes the swap as one exclusive or, which the model unfolds by cases.

  /** Exclusive or, bit by bit. */
  function Xor(a: nat, b: nat): (x: nat)
    decreases a + b
  {
    if a == 0 && b == 0 then 0 else 2 * Xor(a / 2, b / 2) + (a % 2 + b % 2) % 2
  }

  lemma {:induction false} XorNothing(a: nat)
    ensures Xor(a, 0) == a
  {
    if a > 0 {
      XorNothing(a / 2);
    }
  }

  /** Below 2^(k+1), flipping bit k adds 2^k or takes it away. */
  lemma {:induction false} XorPow2(a: nat, k: nat)
    requires a < 2 * Pow2(k)
    ensures Xor(a, Pow2(k)) == if a < Pow2(k) then a + Pow2(k) else a - Pow2(k)
    decreases k
  {
    if k == 0 {
      XorNothing(a / 2);
    } else {
      XorPow2(a / 2, k - 1);
      assert Pow2(k) / 2 == Pow2(k - 1) && Pow2(k) % 2 == 0;
    }
  }

  lemma BankIsBit20()
    ensures BANK_SIZE == Pow2(20)
  {
    assert Pow2(5) == 0x20;
    assert Pow2(10) == 0x400;
    assert Pow2(15) == 0x8000;
  }

  /** BANK_SIZE is bit 20 of the window, so the offset of a swapped address is its offset in the
      window with that bit flipped. */
  lemma SwapIsXor(swap: bool, addr: nat)
    requires InWindow(addr)
    ensures PhysOff(swap, addr) == Xor(addr - FLASH_BASE, if swap then BANK_SIZE else 0)
  {
    BankIsBit20();
    if swap {
      XorPow2(addr - FLASH_BASE, 20);
    } else {
      XorNothing(addr - FLASH_BASE);
    }
  }

  function Read8(s: State, addr: nat): (r: bv8)
    requires InWindow(addr) && |s.mem| == TOTAL
  {
    s.mem[PhysOff(s.effective, addr)]
  }

  /** `n` bytes from one physical offset on; past the array they read as erased. */
  function ReadBytes(s: State, addr: nat, n: nat): (b: seq<bv8>)
    requires InWindow(addr) && |s.mem| == TOTAL
    ensures |b| == n
  {
    var o := PhysOff(s.effective, addr);
    seq(n, i requires 0 <= i < n => if o + i < TOTAL then s.mem[o + i] else ERASED)
  }

  // ---- programming, erasing, loading -------------------------------------------

  /** NOR programming: bits only clear, and a store off the end writes nothing more. */
  function Programmed(mem: seq<bv8>, o: nat, word: u32, size: nat): (m: seq<bv8>)
    ensures |m| == |mem|
  {
    seq(|mem|, j requires 0 <= j < |mem| => if o <= j < o + size then mem[j] & LeByte(word, j - o) else mem[j])
  }

  function Erased(mem: seq<bv8>, base: nat): (m: seq<bv8>)
    ensures |m| == |mem|
  {
    seq(|mem|, j requires 0 <= j < |mem| => if base <= j < base + BANK_SIZE then ERASED else mem[j])
  }

  function Loaded(mem: seq<bv8>, o: nat, bytes: seq<bv8>): (m: seq<bv8>)
    ensures |m| == |mem|
  {
    seq(|mem|, j requires 0 <= j < |mem| => if o <= j < o + |bytes| then bytes[j - o] else mem[j])
  }

  // ---- operations ----------------------------------------------------------------

  predicate Valid(s: State) {
    |s.mem| == TOTAL && |s.file| == TOTAL
  }

  function Lower(s: State): (b: seq<bv8>)
    requires Valid(s)
    ensures |b| == BANK_SIZE
  {
    if s.effective then s.mem[BANK_SIZE..] else s.mem[..BANK_SIZE]
  }

  function Upper(s: State): (b: seq<bv8>)
    requires Valid(s)
    ensures |b| == BANK_SIZE
  {
    if s.effective then s.mem[..BANK_SIZE] else s.mem[BANK_SIZE..]
  }

  predicate Programmable(s: State) {
    !s.locked && s.cr2 & CR_PG != 0
  }

  function WriteMem(s: State, addr: nat, word: u32, size: nat): (t: State)
    requires Valid(s) && InWindow(addr) && size <= 4
    ensures Valid(t)
  {
    if !Programmable(s) then s
    else
      var o := PhysOff(s.effective, addr);
      var mem := Programmed(s.mem, o, word, size);
      s.(mem := mem, file := WrittenThrough(s.file, mem, o, size))
  }

  /** An operation that changes neither the running image nor the mapping. */
  ghost predicate KeepsLower(s: State, t: State) {
    Valid(s) && Valid(t) && t.effective == s.effective && Lower(t) == Lower(s)
  }

  /** An operation that leaves the array and the mapping alone, and never parts the committed
      swap bit from the persisted one. */
  predicate SameArray(s: State, t: State) {
    && t.mem == s.mem && t.file == s.file && t.effective == s.effective
    && (s.committed == s.nvSwap ==> t.committed == t.nvSwap)
  }

  function EraseBank2(s: State): (t: State)
    requires Valid(s)
    ensures KeepsLower(s, t)
  {
    var base := PhysOff(s.effective, UPPER_BASE);
    var mem := Erased(s.mem, base);
    s.(mem := mem, file := WrittenThrough(s.file, mem, base, BANK_SIZE))
  }

  /** A bank erase completes at once: it raises EOP and, when armed, its interrupt. */
  function FinishErase(s: State, interrupt: bool): (t: State)
    requires Valid(s)
    ensures KeepsLower(s, t)
  {
    EraseBank2(s).(sr2 := s.sr2 | SR_EOP, eraseIrq := s.eraseIrq || interrupt)
  }

  /** A CR2 write can lock the bank and never unlocks it; the rest of the word is kept. */
  function Command(s: State, val: u32): (t: State)
    requires Valid(s)
    ensures SameArray(s, t)
  {
    s.(cr2 := val & !CR_LOCK, locked := s.locked || val & CR_LOCK != 0)
  }

  function WriteCr2(s: State, val: u32): (t: State)
    requires Valid(s)
    ensures KeepsLower(s, t)
  {
    var s1 := Command(s, val);
    if val & CR_BER != 0 && val & CR_START != 0 && !s1.locked then FinishErase(s1, val & CR_EOPIE != 0) else s1
  }

  function WriteKeyr2(s: State, val: u32): (t: State)
    requires Valid(s)
    ensures SameArray(s, t)
  {
    if s.key2 == 0 && val == KEY1 then s.(key2 := 1)
    else if s.key2 == 1 && val == KEY2 then s.(locked := false, key2 := 0)
    else s.(key2 := 0)
  }

  function WriteOptkeyr(s: State, val: u32): (t: State)
    requires Valid(s)
    ensures SameArray(s, t)
  {
    if s.optkey == 0 && val == OPTKEY1 then s.(optkey := 1)
    else if s.optkey == 1 && val == OPTKEY2 then s.(optLocked := false, optkey := 0)
    else s.(optkey := 0)
  }

  function WriteOptcr(s: State, val: u32): (t: State)
    requires Valid(s)
    ensures SameArray(s, t)
  {
    var s1 := s.(optLocked := s.optLocked || val & OPTCR_OPTLOCK != 0);
    if val & OPTCR_OPTSTART != 0 && !s1.optLocked then s1.(committed := s.staged, nvSwap := s.staged) else s1
  }

  /** SR2 is plain storage; CCR2 clears the bits written as one. */
  function WriteSr2(s: State, off: nat, val: u32): (t: State)
    requires Valid(s)
    ensures SameArray(s, t)
  {
    s.(sr2 := if off == REG_SR2 then val else s.sr2 & !val)
  }

  /** OPTSR_PRG stages the swap bit and, like the registers with no effect, is stored. */
  function WriteOther(s: State, off: nat, val: u32): (t: State)
    requires Valid(s)
    ensures SameArray(s, t)
  {
    s.(staged := if off == REG_OPTSR_PRG then val & OPT_SWAP_BANK != 0 else s.staged, regs := s.regs[off := val])
  }

  /** Every register but CR2 leaves the array alone. */
  function WriteControl(s: State, off: nat, val: u32): (t: State)
    requires Valid(s)
    ensures SameArray(s, t)
  {
    if off == REG_KEYR2 then WriteKeyr2(s, val)
    else if off == REG_OPTKEYR then WriteOptkeyr(s, val)
    else if off == REG_SR2 || off == REG_CCR2 then WriteSr2(s, off, val)
    else if off == REG_OPTCR then WriteOptcr(s, val)
    else if off == REG_OPTCCR then s
    else WriteOther(s, off, val)
  }

  function RegWrite(s: State, off: nat, val: u32): (t: State)
    requires Valid(s)
    ensures KeepsLower(s, t)
  {
    if off == REG_CR2 then WriteCr2(s, val) else WriteControl(s, off, val)
  }

  /** Memory operations carry an address the bus routes to the aperture. */
  predicate Routed(op: Op) {
    match op
    case Store(addr, _, size) => InWindow(addr) && size <= 4
    case Load(at, _) => InWindow(at)
    case _ => true
  }

  predicate CanApply(s: State, op: Op) {
    Valid(s) && Routed(op)
  }

  function Apply(s: State, op: Op): (t: State)
    requires CanApply(s, op)
    ensures Valid(t)
  {
    match op
    case WriteReg(off, val) => RegWrite(s, off, val)
    case Store(addr, word, size) => WriteMem(s, addr, word, size)
    case Load(at, bytes) =>
      var o := PhysOff(s.effective, at);
      var mem := Loaded(s.mem, o, bytes);
      s.(mem := mem, file := WrittenThrough(s.file, mem, o, |bytes|))
    case TakeIrq => s.(eraseIrq := false)
    case ForceSwap(swap) => s.(effective := swap, committed := swap, staged := swap)
    case ResetLatch => s.(effective := s.committed)
  }

  /** A flash built from an image and a persisted swap bit; the file is seeded whole. */
  function New(image: seq<bv8>, swap: bool): (s: State)
    ensures Valid(s) && s.file == s.mem
  {
    var mem := seq(TOTAL, i requires 0 <= i < TOTAL => if i < |image| then image[i] else ERASED);
    State(mem, mem, swap, swap, swap, swap, true, true, 0, 0, 0, 0, false, map[])
  }

  predicate Window(ops: seq<Op>) {
    forall i :: 0 <= i < |ops| ==> Routed(ops[i])
  }

  function Run(s: State, ops: seq<Op>): (t: State)
    requires Valid(s) && Window(ops)
    ensures Valid(t)
    decreases |ops|
  {
    if ops == [] then s else Run(Apply(s, ops[0]), ops[1..])
  }

  // ---- the two apertures -----------------------------------------------------------

  /** The two views are what byte reads of the two apertures return. */
  lemma ViewsAreReads(s: State, i: nat)
    requires Valid(s) && i < BANK_SIZE
    ensures Read8(s, FLASH_BASE + i) == Lower(s)[i]
    ensures Read8(s, UPPER_BASE + i) == Upper(s)[i]
  {
  }

  /** A wide read is the byte reads side by side, for every content of the array, exactly
      when no swap puts a bank edge inside it; every aligned read is. */
  lemma WideReadExact(addr: nat, n: nat, swap: bool)
    requires InWindow(addr) && addr + n <= FLASH_END
    ensures (forall s: State :: Valid(s) && s.effective == swap ==>
               forall i :: 0 <= i < n ==> ReadBytes(s, addr, n)[i] == Read8(s, addr + i))
            <==> !(swap && addr < UPPER_BASE < addr + n)
  {
    if swap && addr < UPPER_BASE < addr + n {
      // physical: the lower aperture's last byte is the array's last, so the read runs off
      // the array, while the next byte of the window is physical byte 0
      var mem := seq(TOTAL, i => 0 as bv8);
      var s := New(mem, true);
      var i := UPPER_BASE - addr;
      assert ReadBytes(s, addr, n)[i] == ERASED;
      assert Read8(s, addr + i) == 0;
    }
  }

  // ---- the running image is never touched -------------------------------------------

  /** An operation that cannot reach the lower aperture of a flash swapped as `swap`. */
  predicate Harmless(op: Op, swap: bool) {
    match op
    case Store(addr, _, size) => UPPER_BASE <= addr && (swap ==> addr + size <= FLASH_END)
    case Load(_, _) | ForceSwap(_) | ResetLatch => false
    case _ => true
  }

  lemma OpKeepsLower(s: State, op: Op)
    requires CanApply(s, op) && Harmless(op, s.effective)
    ensures KeepsLower(s, Apply(s, op))
  {
    hide RegWrite;
  }

  /** Safety of an update: whatever is erased, programmed, staged or committed, and in
      whatever order, no operation but a reset (or a boot-time override) changes one byte
      of the running image. */
  lemma {:induction false} RunningImageUntouched(s: State, ops: seq<Op>)
    requires Valid(s) && Window(ops)
    requires forall i :: 0 <= i < |ops| ==> Harmless(ops[i], s.effective)
    ensures KeepsLower(s, Run(s, ops))
    decreases |ops|
  {
    if ops != [] {
      OpKeepsLower(s, ops[0]);
      RunningImageUntouched(Apply(s, ops[0]), ops[1..]);
    }
  }

  /** A store leaves the running image alone, whatever it stores and whatever is there,
      exactly when it starts in the upper aperture and, with the banks swapped, does not
      run off the top of the window. */
  lemma StoreHarmlessExact(addr: nat, size: nat, swap: bool)
    requires InWindow(addr) && 1 <= size <= 4
    ensures (forall s: State, w: u32 ::
               Valid(s) && s.effective == swap ==> Lower(WriteMem(s, addr, w, size)) == Lower(s))
            <==> Harmless(Store(addr, 0, size), swap)
  {
    if Harmless(Store(addr, 0, size), swap) {
      forall s: State, w: u32 | Valid(s) && s.effective == swap
        ensures Lower(WriteMem(s, addr, w, size)) == Lower(s)
      {
        OpKeepsLower(s, Store(addr, w, size));
      }
    } else {
      var s := New([], swap).(locked := false, cr2 := CR_PG);
      var t := WriteMem(s, addr, 0, size);
      var i := if addr < UPPER_BASE then addr - FLASH_BASE else 0;
      assert LeByte(0, 0) == LeByte(0, 1) == LeByte(0, 2) == LeByte(0, 3) == 0;
      assert Lower(s)[i] == ERASED;
      assert Lower(t)[i] == 0;
    }
  }

  /** The key pair unlocks exactly from an idle key sequencer. */
  lemma UnlockExact(s: State)
    requires Valid(s) && s.locked
    ensures !Run(s, [WriteReg(REG_KEYR2, KEY1), WriteReg(REG_KEYR2, KEY2)]).locked <==> s.key2 == 0
  {
    var ops := [WriteReg(REG_KEYR2, KEY1), WriteReg(REG_KEYR2, KEY2)];
    var s1 := RegWrite(s, REG_KEYR2, KEY1);
    assert ops[1..] == [WriteReg(REG_KEYR2, KEY2)] && ops[1..][1..] == [];
    assert Run(s, ops) == Run(s1, ops[1..]) == Run(RegWrite(s1, REG_KEYR2, KEY2), []);
  }

  predicate EopSet(sr2: u32) {
    sr2 & SR_EOP != 0
  }

  lemma EopBits(x: u32)
    ensures EopSet(x | SR_EOP) && !EopSet(x & !SR_EOP)
  {
  }

  /** The erase handshake the driver blocks on: on an unlocked bank an armed erase raises EOP and
      the interrupt; on a locked one it does nothing. */
  lemma EraseSignals(s: State)
    requires Valid(s)
    ensures var t := WriteCr2(s, CR_BER | CR_START | CR_EOPIE);
            && (!s.locked ==> EopSet(t.sr2) && t.eraseIrq)
            && (s.locked ==> t.sr2 == s.sr2 && t.eraseIrq == s.eraseIrq && t.mem == s.mem)
  {
    hide KeepsLower, EraseBank2;
    CrBits();
    EopBits(s.sr2);
  }

  /** Writing EOP to the clear register clears it, and the interrupt is handed out once. */
  lemma SignalsClear(s: State)
    requires Valid(s)
    ensures !EopSet(RegWrite(s, REG_CCR2, SR_EOP).sr2)
    ensures !Apply(s, TakeIrq).eraseIrq && Apply(s, TakeIrq).sr2 == s.sr2
  {
    hide KeepsLower, WriteCr2, RegWrite;
    EopBits(s.sr2);
    ClearWrites(s, SR_EOP);
  }

  lemma ClearWrites(s: State, val: u32)
    requires Valid(s)
    ensures RegWrite(s, REG_CCR2, val).sr2 == s.sr2 & !val
  {
    hide KeepsLower, WriteCr2;
  }

  // ---- a firmware update ---------------------------------------------------------------

  /** The image, then erased bytes up to the end of the bank. */
  function Padded(image: seq<bv8>): (b: seq<bv8>)
    ensures |b| == BANK_SIZE
  {
    seq(BANK_SIZE, j requires 0 <= j < BANK_SIZE => if j < |image| then image[j] else ERASED)
  }

  function ImageWord(image: seq<bv8>, k: nat): (r: u32)
    requires 4 * k + 4 <= BANK_SIZE
  {
    var b := Padded(image);
    LeWord(b[4 * k], b[4 * k + 1], b[4 * k + 2], b[4 * k + 3])
  }

  /** The image as word stores into the upper aperture, from word `k` on. */
  function Stores(image: seq<bv8>, k: nat): (ops: seq<Op>)
    requires |image| <= BANK_SIZE
    ensures forall i :: 0 <= i < |ops| ==> ops[i].Store? && Harmless(ops[i], true) && ops[i].size == 4
    decreases |image| - 4 * k
  {
    if 4 * k >= |image| then []
    else [Store(UPPER_BASE + 4 * k, ImageWord(image, k), 4)] + Stores(image, k + 1)
  }

  function Unlock(): (r: seq<Op>) {
    [WriteReg(REG_KEYR2, KEY1), WriteReg(REG_KEYR2, KEY2)]
  }

  function EraseAndOpen(): (r: seq<Op>) {
    [WriteReg(REG_CR2, CR_BER | CR_START | CR_EOPIE), TakeIrq, WriteReg(REG_CR2, CR_PG)]
  }

  function CloseAndUnlockOptions(): (r: seq<Op>) {
    [WriteReg(REG_CR2, CR_LOCK), WriteReg(REG_OPTKEYR, OPTKEY1), WriteReg(REG_OPTKEYR, OPTKEY2)]
  }

  function StageAndCommit(swap: bool): (r: seq<Op>) {
    [WriteReg(REG_OPTSR_PRG, if swap then OPT_SWAP_BANK else 0), WriteReg(REG_OPTCR, OPTCR_OPTSTART)]
  }

  /** A whole update: unlock, erase the bank, program the image, stage the swap `swap` and
      commit it. */
  function UpdateOps(image: seq<bv8>, swap: bool): (r: seq<Op>)
    requires |image| <= BANK_SIZE
  {
    Unlock() + EraseAndOpen() + Stores(image, 0) + CloseAndUnlockOptions() + StageAndCommit(swap)
  }

  lemma {:induction false} RunConcat(s: State, a: seq<Op>, b: seq<Op>)
    requires Valid(s) && Window(a) && Window(b)
    ensures Window(a + b) && Run(s, a + b) == Run(Run(s, a), b)
    decreases |a|
  {
    if a == [] {
      assert a + b == b;
    } else {
      assert (a + b)[1..] == a[1..] + b;
      RunConcat(Apply(s, a[0]), a[1..], b);
    }
  }

  lemma ImageWordBytes(image: seq<bv8>, k: nat, j: nat)
    requires 4 * k + 4 <= BANK_SIZE && 4 * k <= j < 4 * k + 4
    ensures LeByte(ImageWord(image, k), j - 4 * k) == Padded(image)[j]
    ensures ERASED & LeByte(ImageWord(image, k), j - 4 * k) == Padded(image)[j]
  {
    hide LeWord, LeByte;
    var b := Padded(image);
    LeRoundTrip(b[4 * k], b[4 * k + 1], b[4 * k + 2], b[4 * k + 3]);
    AndErased(b[j]);
  }

  lemma ProgrammedAt(mem: seq<bv8>, o: nat, w: u32, j: nat)
    requires j < |mem|
    ensures Programmed(mem, o, w, 4)[j] == if o <= j < o + 4 then mem[j] & LeByte(w, j - o) else mem[j]
  {
  }

  lemma UpperStored(s: State, k: nat, w: u32)
    requires Valid(s) && Programmable(s) && 4 * k + 4 <= BANK_SIZE
    ensures var t := WriteMem(s, UPPER_BASE + 4 * k, w, 4);
            && t.mem == Programmed(s.mem, (if s.effective then 0 else BANK_SIZE) + 4 * k, w, 4)
            && t.effective == s.effective
  {
    hide Programmed, WrittenThrough, Programmable;
  }

  lemma ProgrammedByte(s: State, image: seq<bv8>, k: nat, j: nat)
    requires Valid(s) && Programmable(s) && 4 * k + 4 <= BANK_SIZE && 4 * k <= j < 4 * k + 4
    requires Upper(s)[j] == ERASED
    ensures Upper(WriteMem(s, UPPER_BASE + 4 * k, ImageWord(image, k), 4))[j] == Padded(image)[j]
  {
    hide ImageWord, LeByte, Padded, Programmed, WriteMem;
    var base := if s.effective then 0 else BANK_SIZE;
    UpperStored(s, k, ImageWord(image, k));
    ProgrammedAt(s.mem, base + 4 * k, ImageWord(image, k), base + j);
    ImageWordBytes(image, k, j);
  }

  lemma UnprogrammedByte(s: State, k: nat, w: u32, j: nat)
    requires Valid(s) && Programmable(s) && 4 * k + 4 <= BANK_SIZE && j < BANK_SIZE && !(4 * k <= j < 4 * k + 4)
    ensures Upper(WriteMem(s, UPPER_BASE + 4 * k, w, 4))[j] == Upper(s)[j]
  {
    hide LeByte, Programmed, WriteMem;
    var base := if s.effective then 0 else BANK_SIZE;
    UpperStored(s, k, w);
    ProgrammedAt(s.mem, base + 4 * k, w, base + j);
  }

  lemma ProgramWord(s: State, image: seq<bv8>, k: nat)
    requires Valid(s) && Programmable(s) && 4 * k + 4 <= BANK_SIZE
    requires forall j :: 4 * k <= j < 4 * k + 4 ==> Upper(s)[j] == ERASED
    ensures var t := WriteMem(s, UPPER_BASE + 4 * k, ImageWord(image, k), 4);
            && t == s.(mem := t.mem, file := t.file)
            && forall j :: 0 <= j < BANK_SIZE ==>
                 Upper(t)[j] == if 4 * k <= j < 4 * k + 4 then Padded(image)[j] else Upper(s)[j]
  {
    hide ImageWord, LeByte, Padded, WrittenThrough, Programmed, Upper;
    forall j | 0 <= j < BANK_SIZE
      ensures Upper(WriteMem(s, UPPER_BASE + 4 * k, ImageWord(image, k), 4))[j]
           == if 4 * k <= j < 4 * k + 4 then Padded(image)[j] else Upper(s)[j]
    {
      if 4 * k <= j < 4 * k + 4 {
        ProgrammedByte(s, image, k, j);
      } else {
        UnprogrammedByte(s, k, ImageWord(image, k), j);
      }
    }
  }

  lemma PaddedTail(image: seq<bv8>)
    ensures forall j :: |image| <= j < BANK_SIZE ==> Padded(image)[j] == ERASED
  {
  }

  lemma {:induction false} StoresProgram(s: State, image: seq<bv8>, k: nat)
    requires Valid(s) && Programmable(s) && |image| <= BANK_SIZE
    requires forall j :: 0 <= j < BANK_SIZE ==> Upper(s)[j] == if j < 4 * k then Padded(image)[j] else ERASED
    ensures var t := Run(s, Stores(image, k));
            Upper(t) == Padded(image) && t == s.(mem := t.mem, file := t.file)
    decreases |image| - 4 * k
  {
    hide WriteMem, Padded, ImageWord, RegWrite, Upper;
    PaddedTail(image);
    if 4 * k < |image| {
      ProgramWord(s, image, k);
      var t := Apply(s, Stores(image, k)[0]);
      assert Stores(image, k)[1..] == Stores(image, k + 1);
      StoresProgram(t, image, k + 1);
    }
  }

  lemma EraseClearsUpper(s: State)
    requires Valid(s)
    ensures forall j :: 0 <= j < BANK_SIZE ==> Upper(EraseBank2(s))[j] == ERASED
  {
  }

  lemma Run2(s: State, a: Op, b: Op)
    requires Valid(s) && Routed(a) && Routed(b)
    ensures Run(s, [a, b]) == Apply(Apply(s, a), b)
  {
    hide Apply, Routed;
    assert [a, b][1..] == [b] && [b][1..] == [];
    assert Run(Apply(s, a), [b]) == Run(Apply(Apply(s, a), b), []);
  }

  lemma Run3(s: State, a: Op, b: Op, c: Op)
    requires Valid(s) && Routed(a) && Routed(b) && Routed(c)
    ensures Run(s, [a, b, c]) == Apply(Apply(Apply(s, a), b), c)
  {
    hide Apply, Routed;
    assert [a, b, c][1..] == [b, c];
    Run2(Apply(s, a), b, c);
  }

  lemma CrBits()
    ensures var erase := CR_BER | CR_START | CR_EOPIE;
            && erase & CR_BER != 0 && erase & CR_START != 0 && erase & CR_EOPIE != 0 && erase & CR_LOCK == 0
    ensures CR_PG & CR_BER == 0 && CR_PG & CR_LOCK == 0 && CR_PG & !CR_LOCK == CR_PG && CR_PG & CR_PG != 0
    ensures OPT_SWAP_BANK & OPT_SWAP_BANK != 0 && 0 & OPT_SWAP_BANK == 0
    ensures OPTCR_OPTSTART & OPTCR_OPTLOCK == 0 && OPTCR_OPTSTART & OPTCR_OPTSTART != 0
  {
  }

  lemma UnlockRuns(s: State)
    requires Valid(s) && s.key2 == 0
    ensures Run(s, Unlock()) == s.(locked := false)
  {
    hide EraseBank2, Run;
    Run2(s, WriteReg(REG_KEYR2, KEY1), WriteReg(REG_KEYR2, KEY2));
  }

  lemma EraseAndOpenRuns(s: State)
    requires Valid(s) && !s.locked
    ensures var t := Run(s, EraseAndOpen());
            && Programmable(t) && KeepsLower(s, t)
            && t == s.(mem := t.mem, file := t.file, cr2 := CR_PG, sr2 := t.sr2, eraseIrq := false)
            && forall j :: 0 <= j < BANK_SIZE ==> Upper(t)[j] == ERASED
  {
    hide EraseBank2, Run;
    CrBits();
    var erase := CR_BER | CR_START | CR_EOPIE;
    Run3(s, WriteReg(REG_CR2, erase), TakeIrq, WriteReg(REG_CR2, CR_PG));
    var s1 := s.(cr2 := erase & !CR_LOCK);
    EraseClearsUpper(s1);
    EraseFrame(s1);
    var s2 := WriteCr2(s, erase);
    assert s2.mem == EraseBank2(s1).mem && s2.eraseIrq;
    var t := Run(s, EraseAndOpen());
    assert t == WriteCr2(s2.(eraseIrq := false), CR_PG) == s2.(eraseIrq := false, cr2 := CR_PG);
    assert Upper(t) == Upper(EraseBank2(s1)) && Lower(t) == Lower(EraseBank2(s1));
  }

  lemma EraseFrame(s: State)
    requires Valid(s)
    ensures var t := EraseBank2(s); t == s.(mem := t.mem, file := t.file)
  {
  }

  lemma CloseRuns(s: State)
    requires Valid(s) && s.optkey == 0 && s.cr2 == CR_PG
    ensures Run(s, CloseAndUnlockOptions()) == s.(cr2 := 0, locked := true, optLocked := false)
  {
    hide EraseBank2, Run;
    Run3(s, WriteReg(REG_CR2, CR_LOCK), WriteReg(REG_OPTKEYR, OPTKEY1), WriteReg(REG_OPTKEYR, OPTKEY2));
  }

  lemma StageRuns(s: State, swap: bool)
    requires Valid(s) && !s.optLocked
    ensures var t := Run(s, StageAndCommit(swap));
            t == s.(staged := swap, committed := swap, nvSwap := swap, regs := t.regs)
  {
    hide EraseBank2, Run;
    CrBits();
    Run2(s, StageAndCommit(swap)[0], StageAndCommit(swap)[1]);
    var s1 := Apply(s, StageAndCommit(swap)[0]);
    assert s1 == s.(staged := swap, regs := s1.regs);
  }

  lemma UpdateIsWindowed(image: seq<bv8>, swap: bool)
    requires |image| <= BANK_SIZE
    ensures Window(UpdateOps(image, swap)) && Window(Stores(image, 0))
    ensures forall i :: 0 <= i < |UpdateOps(image, swap)| ==> Harmless(UpdateOps(image, swap)[i], true)
  {
  }

  /** The firmware update, from any state whose key sequencers are idle, for any image that
      fits a bank.  Until the reset the lower aperture still reads the running image; the
      reset that follows swaps the banks: the lower aperture reads the new image then erased
      bytes, and the upper the bank that was running.  The choice is already persistent. */
  lemma FirmwareUpdate(s: State, image: seq<bv8>)
    requires Valid(s) && s.key2 == 0 && s.optkey == 0 && |image| <= BANK_SIZE
    ensures Window(UpdateOps(image, !s.effective))
    ensures var t := Run(s, UpdateOps(image, !s.effective));
            var u := Apply(t, ResetLatch);
            && KeepsLower(s, t) && Upper(t) == Padded(image)
            && Lower(u) == Padded(image) && Upper(u) == Lower(s)
            && u.nvSwap == u.effective == !s.effective
  {
    hide Run, RegWrite, EraseBank2, WriteMem;
    var swap := !s.effective;
    UpdateIsWindowed(image, swap);
    var a, b, c, d, e := Unlock(), EraseAndOpen(), Stores(image, 0), CloseAndUnlockOptions(), StageAndCommit(swap);
    RunConcat(s, a + b + c + d, e);
    RunConcat(s, a + b + c, d);
    RunConcat(s, a + b, c);
    RunConcat(s, a, b);
    UnlockRuns(s);
    var s1 := s.(locked := false);
    EraseAndOpenRuns(s1);
    var s2 := Run(s1, b);
    StoresProgram(s2, image, 0);
    var s3 := Run(s2, c);
    CloseRuns(s3);
    StageRuns(Run(s3, d), swap);
    RunningImageUntouched(s2, c);
  }

  // ---- durability ------------------------------------------------------------------------

  predicate Synced(s: State) {
    Valid(s) && s.file == s.mem
  }

  lemma EraseKeepsSynced(s: State)
    requires Synced(s)
    ensures Synced(EraseBank2(s))
  {
    var base := PhysOff(s.effective, UPPER_BASE);
    WrittenThroughSyncs(s.file, Erased(s.mem, base), base, BANK_SIZE);
  }

  lemma WriteCr2KeepsSynced(s: State, val: u32)
    requires Synced(s)
    ensures Synced(WriteCr2(s, val))
  {
    hide EraseBank2, KeepsLower;
    EraseKeepsSynced(Command(s, val));
  }

  lemma RegWriteKeepsSynced(s: State, off: nat, val: u32)
    requires Synced(s)
    ensures Synced(RegWrite(s, off, val))
  {
    hide EraseBank2, KeepsLower, WriteCr2, WriteControl;
    if off == REG_CR2 {
      WriteCr2KeepsSynced(s, val);
    }
  }

  lemma OpKeepsSynced(s: State, op: Op)
    requires CanApply(s, op) && Synced(s)
    ensures Synced(Apply(s, op))
  {
    hide RegWrite, WrittenThrough;
    match op
    case WriteReg(off, val) => RegWriteKeepsSynced(s, off, val);
    case Store(addr, word, size) =>
      var o := PhysOff(s.effective, addr);
      WrittenThroughSyncs(s.file, Programmed(s.mem, o, word, size), o, size);
    case Load(at, bytes) =>
      var o := PhysOff(s.effective, at);
      WrittenThroughSyncs(s.file, Loaded(s.mem, o, bytes), o, |bytes|);
    case _ =>
  }

  /** The next process: it loads the file and the persisted swap bit. */
  function Reboot(s: State): (t: State)
    requires Valid(s)
    ensures Valid(t)
  {
    New(s.file, s.nvSwap)
  }

  /** Killed after any operation of any run, the next process finds the very contents the
      flash held, in the bank order the firmware last committed. */
  lemma {:induction false} Durable(s: State, ops: seq<Op>)
    requires Synced(s) && Window(ops)
    ensures var t := Run(s, ops); var u := Reboot(t);
            Synced(t) && u.mem == t.mem && u.effective == u.committed == t.nvSwap
    decreases |ops|
  {
    if ops == [] {
      assert Reboot(s).mem == s.mem;
    } else {
      OpKeepsSynced(s, ops[0]);
      Durable(Apply(s, ops[0]), ops[1..]);
    }
  }

  lemma Cr2Nv(s: State, val: u32)
    requires Valid(s)
    ensures WriteCr2(s, val).committed == s.committed && WriteCr2(s, val).nvSwap == s.nvSwap
  {
    hide KeepsLower, EraseBank2;
    EraseFrame(Command(s, val));
  }

  lemma NvFollows(s: State, op: Op)
    requires CanApply(s, op) && !op.ForceSwap? && s.committed == s.nvSwap
    ensures Apply(s, op).committed == Apply(s, op).nvSwap
  {
    hide WriteCr2, WriteControl, KeepsLower, WrittenThrough, Programmed, Loaded;
    if op.WriteReg? {
      if op.off == REG_CR2 {
        Cr2Nv(s, op.val);
      } else {
        assert SameArray(s, WriteControl(s, op.off, op.val));
      }
    }
  }

  /** When no slot was forced, a fresh process and a warm reset see the same two banks: the
      reset takes the committed bit and the process the persisted one, and no run of
      operations parts them. */
  lemma {:induction false} RebootIsReset(s: State, ops: seq<Op>)
    requires Synced(s) && Window(ops) && s.committed == s.nvSwap
    requires forall i :: 0 <= i < |ops| ==> !ops[i].ForceSwap?
    ensures var t := Run(s, ops); var u := Apply(t, ResetLatch);
            Lower(Reboot(t)) == Lower(u) && Upper(Reboot(t)) == Upper(u)
    decreases |ops|
  {
    hide RegWrite;
    if ops == [] {
      assert Run(s, ops) == s;
      assert Reboot(s).mem == s.mem;
      assert Reboot(s).effective == Apply(s, ResetLatch).effective;
    } else {
      OpKeepsSynced(s, ops[0]);
      NvFollows(s, ops[0]);
      RebootIsReset(Apply(s, ops[0]), ops[1..]);
    }
  }

  // ---- programming byte by byte ---------------------------------------------------------------

  lemma ProgrammedNone(mem: seq<bv8>, o: nat, w: u32)
    ensures Programmed(mem, o, w, 0) == mem
  {
    hide LeByte;
  }

  lemma ProgrammedNext(mem: seq<bv8>, o: nat, w: u32, n: nat)
    requires o + n < |mem|
    ensures var m := Programmed(mem, o, w, n);
            Programmed(mem, o, w, n + 1) == m[o + n := m[o + n] & LeByte(w, n)]
  {
    hide LeByte;
  }

  lemma ProgrammedOffEnd(mem: seq<bv8>, o: nat, w: u32, n: nat, size: nat)
    requires n == size || (n < size && o + n == |mem|)
    ensures Programmed(mem, o, w, n) == Programmed(mem, o, w, size)
  {
    hide LeByte;
  }

  lemma WrittenOffEnd(file: seq<bv8>, mem: seq<bv8>, o: nat, n: nat, size: nat)
    requires |file| == |mem| && (n == size || (n < size && o + n == |mem|))
    ensures WrittenThrough(file, mem, o, n) == WrittenThrough(file, mem, o, size)
  {
  }

  // ---- the device, updated in place ---------------------------------------------------------

  class FlashDevice {
    var mem: seq<bv8>
    var file: seq<bv8>
    var nvSwap: bool
    var effective: bool
    var committed: bool
    var staged: bool
    var locked: bool
    var optLocked: bool
    var key2: nat
    var optkey: nat
    var cr2: u32
    var sr2: u32
    var eraseIrq: bool
    var regs: map<nat, u32>

    ghost function Value(): (r: State)
      reads this
    {
      State(mem, file, nvSwap, effective, committed, staged, locked, optLocked, key2, optkey, cr2, sr2, eraseIrq, regs)
    }

    constructor (image: seq<bv8>, swap: bool)
      ensures Value() == New(image, swap)
    {
      var full := image[..if |image| < TOTAL then |image| else TOTAL];
      mem := full + seq(TOTAL - |full|, i => ERASED);
      file := mem;
      nvSwap, effective, committed, staged := swap, swap, swap, swap;
      locked, optLocked := true, true;
      key2, optkey := 0, 0;
      cr2, sr2, eraseIrq, regs := 0, 0, false, map[];
    }

    method WriteThrough(off: nat, len: nat)
      requires Valid(Value()) && off + len <= TOTAL
      modifies this
      ensures Value() == old(Value().(file := WrittenThrough(file, mem, off, len)))
    {
      file := file[..off] + mem[off..off + len] + file[off + len..];
    }

    method ReadAt(addr: nat, n: nat) returns (b: seq<bv8>)
      requires Valid(Value()) && InWindow(addr)
      ensures b == ReadBytes(Value(), addr, n)
    {
      var o := PhysOff(effective, addr);
      var k := if TOTAL - o < n then TOTAL - o else n;
      b := mem[o..o + k] + seq(n - k, i => ERASED);
    }

    /** Clears bits byte by byte, and stops at the end of the array. */
    method ClearBits(o: nat, word: u32, size: nat) returns (n: nat)
      requires o < |mem| && size <= 4
      modifies this`mem
      ensures mem == Programmed(old(mem), o, word, size)
      ensures |mem| == |old(mem)| && o + n <= |mem| && (n == size || (n < size && o + n == |mem|))
    {
      hide LeByte, Programmed;
      n := 0;
      ProgrammedNone(mem, o, word);
      while n < size && o + n < |mem|
        invariant n <= size && o + n <= |mem| && |mem| == |old(mem)|
        invariant mem == Programmed(old(mem), o, word, n)
      {
        ProgrammedNext(old(mem), o, word, n);
        mem := mem[o + n := mem[o + n] & LeByte(word, n)];
        n := n + 1;
      }
      ProgrammedOffEnd(old(mem), o, word, n, size);
    }

    /** A store is honoured only while programming is open. */
    method StoreAt(addr: nat, word: u32, size: nat)
      requires Valid(Value()) && InWindow(addr) && size <= 4
      modifies this
      ensures Value() == WriteMem(old(Value()), addr, word, size)
    {
      hide LeByte, Programmed, WrittenThrough;
      if locked || cr2 & CR_PG == 0 { return; }
      var o := PhysOff(effective, addr);
      var n := ClearBits(o, word, size);
      WrittenOffEnd(file, mem, o, n, size);
      WriteThrough(o, n);
    }

    method LoadImageAt(at: nat, bytes: seq<bv8>)
      requires Valid(Value()) && InWindow(at)
      modifies this
      ensures Value() == Apply(old(Value()), Load(at, bytes))
    {
      var o := PhysOff(effective, at);
      var n := if TOTAL - o < |bytes| then TOTAL - o else |bytes|;
      mem := mem[..o] + bytes[..n] + mem[o + n..];
      assert mem == Loaded(old(mem), o, bytes);
      WriteThrough(o, n);
      assert file == WrittenThrough(old(file), mem, o, |bytes|);
    }

    method Erase()
      requires Valid(Value())
      modifies this
      ensures Value() == EraseBank2(old(Value()))
    {
      var base := PhysOff(effective, UPPER_BASE);
      mem := mem[..base] + seq(BANK_SIZE, i => ERASED) + mem[base + BANK_SIZE..];
      assert mem == Erased(old(mem), base);
      WriteThrough(base, BANK_SIZE);
    }

    method SetCommand(val: u32)
      requires Valid(Value())
      modifies this`cr2, this`locked
      ensures Value() == Command(old(Value()), val)
    {
      cr2 := val & !CR_LOCK;
      if val & CR_LOCK != 0 { locked := true; }
    }

    method SetCr2(val: u32)
      requires Valid(Value())
      modifies this
      ensures Value() == WriteCr2(old(Value()), val)
    {
      hide FinishErase, KeepsLower, Command;
      SetCommand(val);
      if val & CR_BER != 0 && val & CR_START != 0 && !locked {
        StartErase(val & CR_EOPIE != 0);
      }
    }

    method StartErase(interrupt: bool)
      requires Valid(Value())
      modifies this
      ensures Value() == FinishErase(old(Value()), interrupt)
    {
      hide Erased, WrittenThrough, KeepsLower;
      Erase();
      sr2 := sr2 | SR_EOP;
      if interrupt { eraseIrq := true; }
    }

    method SetKey(off: nat, val: u32)
      requires Valid(Value()) && (off == REG_KEYR2 || off == REG_OPTKEYR)
      modifies this
      ensures Value() == WriteControl(old(Value()), off, val)
    {
      if off == REG_KEYR2 {
        if key2 == 0 && val == KEY1 {
          key2 := 1;
        } else if key2 == 1 && val == KEY2 {
          locked := false;
          key2 := 0;
        } else {
          key2 := 0;
        }
      } else {
        if optkey == 0 && val == OPTKEY1 {
          optkey := 1;
        } else if optkey == 1 && val == OPTKEY2 {
          optLocked := false;
          optkey := 0;
        } else {
          optkey := 0;
        }
      }
    }

    method SetOptcr(val: u32)
      requires Valid(Value())
      modifies this
      ensures Value() == WriteOptcr(old(Value()), val)
    {
      if val & OPTCR_OPTLOCK != 0 { optLocked := true; }
      if val & OPTCR_OPTSTART != 0 && !optLocked {
        committed := staged;
        nvSwap := committed;
      }
    }

    method SetReg(off: nat, val: u32)
      requires Valid(Value())
      modifies this
      ensures Value() == RegWrite(old(Value()), off, val)
    {
      hide WriteCr2, EraseBank2, KeepsLower, WriteOptcr, WriteKeyr2, WriteOptkeyr;
      if off == REG_KEYR2 || off == REG_OPTKEYR {
        SetKey(off, val);
      } else if off == REG_CR2 {
        SetCr2(val);
      } else if off == REG_SR2 {
        sr2 := val;
      } else if off == REG_CCR2 {
        sr2 := sr2 & !val;
      } else if off == REG_OPTSR_PRG {
        staged := val & OPT_SWAP_BANK != 0;
        regs := regs[off := val];
      } else if off == REG_OPTCR {
        SetOptcr(val);
      } else if off != REG_OPTCCR {
        regs := regs[off := val];
      }
    }

    method TakeEraseIrq() returns (irq: bool)
      modifies this
      ensures irq == old(eraseIrq)
      ensures Valid(old(Value())) ==> Value() == Apply(old(Value()), TakeIrq)
    {
      irq := eraseIrq;
      eraseIrq := false;
    }

    method SetSlot(swap: bool)
      modifies this
      ensures Valid(old(Value())) ==> Value() == Apply(old(Value()), ForceSwap(swap))
    {
      effective, committed, staged := swap, swap, swap;
    }

    method Reset()
      modifies this
      ensures Valid(old(Value())) ==> Value() == Apply(old(Value()), ResetLatch)
    {
      effective := committed;
    }
  }
}
