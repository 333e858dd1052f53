/** Plain RAM as the bus sees it: bytes, read and written as little-endian words
    (src/mem.rs, the RAM arm of read32 and write32). */
module Memory {

  const TWO32: int := 0x1_0000_0000

  type u8 = b: int | 0 <= b < 0x100
  type u32 = w: int | 0 <= w < 0x1_0000_0000

  function Add32(a: int, b: int): (r: u32) {
    (a + b) % TWO32
  }

  lemma AddSub(x: u32, n: int)
    ensures Add32(Add32(x, -n), n) == x
  {
  }

  /** Byte `i` of a word, least significant first. */
  function ByteOf(w: u32, i: nat): (r: u8)
    requires i < 4
  {
    var h := w / 0x100;
    var g := h / 0x100;
    if i == 0 then w % 0x100 else if i == 1 then h % 0x100 else if i == 2 then g % 0x100 else g / 0x100
  }

  function Le32(b0: u8, b1: u8, b2: u8, b3: u8): (r: u32) {
    b0 + 0x100 * b1 + 0x1_0000 * b2 + 0x100_0000 * b3
  }

  lemma Digits(w: int, h: int, g: int)
    requires 0 <= w < 0x1_0000_0000 && h == w / 0x100 && g == h / 0x100
    ensures w % 0x100 + 0x100 * (h % 0x100) + 0x1_0000 * (g % 0x100) + 0x100_0000 * (g / 0x100) == w
  {
    assert w == 0x100 * h + w % 0x100;
    assert h == 0x100 * g + h % 0x100;
    assert g == 0x100 * (g / 0x100) + g % 0x100;
  }

  lemma Le32Bytes(w: u32)
    ensures Le32(ByteOf(w, 0), ByteOf(w, 1), ByteOf(w, 2), ByteOf(w, 3)) == w
  {
    Digits(w, w / 0x100, w / 0x100 / 0x100);
  }

  /** A RAM region. */
  datatype Ram = Ram(base: nat, data: seq<u8>) {
    predicate Holds(a: int, n: nat) {
      base <= a && a + n <= base + |data|
    }

    function Byte(a: int): (r: u8)
      requires Holds(a, 1)
    {
      data[a - base]
    }

    function Read32(a: int): (r: u32)
      requires Holds(a, 4)
    {
      Le32(Byte(a), Byte(a + 1), Byte(a + 2), Byte(a + 3))
    }

    function Write32(a: int, w: u32): (m: Ram)
      requires Holds(a, 4)
      ensures m.base == base && |m.data| == |data|
      ensures m.Read32(a) == w
      ensures forall x :: Holds(x, 1) && !(a <= x < a + 4) ==> m.Byte(x) == Byte(x)
    {
      Le32Bytes(w);
      var o := a - base;
      Ram(base, data[o := ByteOf(w, 0)][o + 1 := ByteOf(w, 1)][o + 2 := ByteOf(w, 2)][o + 3 := ByteOf(w, 3)])
    }

    function Words(a: int, n: nat): (ws: seq<u32>)
      requires Holds(a, 4 * n)
      ensures |ws| == n
    {
      seq(n, i requires 0 <= i < n => Read32(a + 4 * i))
    }

    /** Consecutive words, as an exception frame or a block store lays them down. */
    function WriteWords(a: int, ws: seq<u32>): (m: Ram)
      requires Holds(a, 4 * |ws|)
      ensures m.base == base && |m.data| == |data|
      decreases |ws|
    {
      if ws == [] then this else Write32(a, ws[0]).WriteWords(a + 4, ws[1..])
    }
  }

  /** The two memories agree on [a, a + n). */
  ghost predicate Agree(m: Ram, m': Ram, a: int, n: nat) {
    && m.base == m'.base && |m.data| == |m'.data| && m.Holds(a, n)
    && forall x :: a <= x < a + n ==> m.Byte(x) == m'.Byte(x)
  }

  lemma AgreeReads(m: Ram, m': Ram, a: int)
    requires m.base == m'.base && |m.data| == |m'.data| && m.Holds(a, 4)
    requires forall x :: a <= x < a + 4 ==> m.Byte(x) == m'.Byte(x)
    ensures m.Read32(a) == m'.Read32(a)
  {
  }

  lemma AgreeWords(m: Ram, m': Ram, a: int, n: nat)
    requires Agree(m, m', a, 4 * n)
    ensures m'.Words(a, n) == m.Words(a, n)
  {
    forall i | 0 <= i < n
      ensures m'.Read32(a + 4 * i) == m.Read32(a + 4 * i)
    {
      AgreeReads(m, m', a + 4 * i);
    }
  }

  lemma {:induction false} WriteWordsAt(m: Ram, a: int, ws: seq<u32>)
    requires m.Holds(a, 4 * |ws|)
    ensures var m' := m.WriteWords(a, ws);
            && (forall i :: 0 <= i < |ws| ==> m'.Read32(a + 4 * i) == ws[i])
            && (forall x :: m.Holds(x, 1) && !(a <= x < a + 4 * |ws|) ==> m'.Byte(x) == m.Byte(x))
    decreases |ws|
  {
    if ws != [] {
      var m1 := m.Write32(a, ws[0]);
      var m' := m.WriteWords(a, ws);
      WriteWordsAt(m1, a + 4, ws[1..]);
      forall i | 0 <= i < |ws|
        ensures m'.Read32(a + 4 * i) == ws[i]
      {
        if i == 0 {
          assert m'.Byte(a) == m1.Byte(a) && m'.Byte(a + 1) == m1.Byte(a + 1);
          assert m'.Byte(a + 2) == m1.Byte(a + 2) && m'.Byte(a + 3) == m1.Byte(a + 3);
        } else {
          assert m'.Read32((a + 4) + 4 * (i - 1)) == ws[1..][i - 1];
        }
      }
    }
  }

  /** What a block of words reads back as, and what it leaves alone. */
  lemma WordsReadBack(m: Ram, a: int, ws: seq<u32>)
    requires m.Holds(a, 4 * |ws|)
    ensures m.WriteWords(a, ws).Words(a, |ws|) == ws
    ensures forall x :: m.Holds(x, 1) && !(a <= x < a + 4 * |ws|) ==> m.WriteWords(a, ws).Byte(x) == m.Byte(x)
  {
    WriteWordsAt(m, a, ws);
  }

  /** The RAM the bus owns, updated in place. */
  class RamRegion {
    const base: nat
    var data: seq<u8>

    ghost function Value(): (r: Ram)
      reads this
    {
      Ram(base, data)
    }

    constructor (base: nat, size: nat)
      ensures Value() == Ram(base, seq(size, i => 0))
    {
      this.base := base;
      this.data := seq(size, i => 0);
    }

    method Read32(a: int) returns (w: u32)
      requires Value().Holds(a, 4)
      ensures w == Value().Read32(a)
    {
      var o := a - base;
      w := Le32(data[o], data[o + 1], data[o + 2], data[o + 3]);
    }

    method Write32(a: int, w: u32)
      requires Value().Holds(a, 4)
      modifies this
      ensures Value() == old(Value()).Write32(a, w)
    {
      var o := a - base;
      data := data[o := ByteOf(w, 0)];
      data := data[o + 1 := ByteOf(w, 1)];
      data := data[o + 2 := ByteOf(w, 2)];
      data := data[o + 3 := ByteOf(w, 3)];
    }
  }
}
