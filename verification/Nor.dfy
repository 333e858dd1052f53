/** Bytes of NOR flash: programming only clears bits, words are little endian, and every
    change is written through to a backing file at its own offset (src/flash.rs,
    src/rot_flash.rs, src/soc.rs). */
module Nor {

  type u32 = bv32

  const ERASED: bv8 := 0xFF

  function LeByte(w: u32, i: nat): (r: bv8) {
    if i == 0 then (w & 0xFF) as bv8
    else if i == 1 then ((w >> 8) & 0xFF) as bv8
    else if i == 2 then ((w >> 16) & 0xFF) as bv8
    else ((w >> 24) & 0xFF) as bv8
  }

  function LeWord(b0: bv8, b1: bv8, b2: bv8, b3: bv8): (r: u32) {
    b0 as u32 | (b1 as u32 << 8) | (b2 as u32 << 16) | (b3 as u32 << 24)
  }

  lemma LeRoundTrip(b0: bv8, b1: bv8, b2: bv8, b3: bv8)
    ensures var w := LeWord(b0, b1, b2, b3);
            LeByte(w, 0) == b0 && LeByte(w, 1) == b1 && LeByte(w, 2) == b2 && LeByte(w, 3) == b3
  {
  }

  /** What programming `bits` over a byte leaves. */
  function Cleared(byte: bv8, bits: bv8): (r: bv8) {
    byte & bits
  }

  lemma AndErased(x: bv8)
    ensures ERASED & x == x
  {
  }

  /** The file after mem[off..off+len] has been written through at its own offset. */
  function WrittenThrough(file: seq<bv8>, mem: seq<bv8>, off: nat, len: nat): (f: seq<bv8>)
    requires |file| == |mem|
    ensures |f| == |file|
  {
    seq(|file|, j requires 0 <= j < |file| => if off <= j < off + len then mem[j] else file[j])
  }

  lemma WrittenThroughSyncs(file: seq<bv8>, mem: seq<bv8>, off: nat, len: nat)
    requires |file| == |mem|
    requires forall j :: 0 <= j < |mem| && !(off <= j < off + len) ==> mem[j] == file[j]
    ensures WrittenThrough(file, mem, off, len) == mem
  {
    var f := WrittenThrough(file, mem, off, len);
    assert forall j :: 0 <= j < |f| ==> f[j] == mem[j];
  }
}
