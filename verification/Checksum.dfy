/** The Internet checksum over the IPv6 pseudo-header, and the frames built around it
    (src/bridge.rs); RFC 1071, section 8.1 of RFC 8200, section 2.3 of RFC 4443. */
module Checksum {
  import opened Memory
  import opened Wrappers

  const UDP: u8 := 17
  const ICMPV6: u8 := 58
  const VLAN_TPID: nat := 0x8100
  const ETHERTYPE_IPV6: nat := 0x86DD
  const NEIGHBOR_ADVERT: u8 := 136
  const ECHO_REPLY: u8 := 129

  type u16 = w: int | 0 <= w < 0x1_0000

  function Be16(hi: u8, lo: u8): (r: u16) {
    0x100 * hi + lo
  }

  function Bytes16(w: u16): (b: seq<u8>)
    ensures |b| == 2
  {
    [w / 0x100, w % 0x100]
  }

  // ---- sums ------------------------------------------------------------------------------

  /** Big-endian 16-bit words summed; an odd last byte is the high half of a word. */
  function Sum(b: seq<u8>): (s: nat)
    decreases |b|
  {
    if b == [] then 0 else if |b| == 1 then 0x100 * b[0] else Be16(b[0], b[1]) + Sum(b[2..])
  }

  lemma {:induction false} SumBound(b: seq<u8>)
    ensures Sum(b) <= 0xFFFF * ((|b| + 1) / 2)
    decreases |b|
  {
    if |b| >= 2 {
      SumBound(b[2..]);
    }
  }

  /** Changing the word at an even offset changes the sum by the difference of the words. */
  lemma {:induction false} SumWithWord(b: seq<u8>, at: nat, w: u16)
    requires at % 2 == 0 && at + 2 <= |b|
    ensures Sum(b[at := w / 0x100][at + 1 := w % 0x100]) == Sum(b) - Be16(b[at], b[at + 1]) + w
    decreases |b|
  {
    var c := b[at := w / 0x100][at + 1 := w % 0x100];
    if at == 0 {
      assert c[2..] == b[2..];
    } else {
      SumWithWord(b[2..], at - 2, w);
      assert c[2..] == b[2..][at - 2 := w / 0x100][at - 1 := w % 0x100];
    }
  }

  /** The sum the checksum is taken of: pseudo-header and upper-layer data. */
  function Raw(src: seq<u8>, dst: seq<u8>, next: u8, data: seq<u8>): (r: nat) {
    Sum(src) + Sum(dst) + |data| + next + Sum(data)
  }

  /** Carries folded back in until 16 bits are left. */
  function Fold(s: nat): (f: u16)
    decreases s
  {
    if s < 0x1_0000 then s else Fold(s % 0x1_0000 + s / 0x1_0000)
  }

  /** Folding is one's complement addition: it keeps the residue mod 65535, and of the two
      ways of writing zero it gives 0 only for the sum 0. */
  lemma {:induction false} FoldIsResidue(s: nat)
    ensures Fold(s) % 0xFFFF == s % 0xFFFF && (Fold(s) == 0 <==> s == 0)
    decreases s
  {
    if s >= 0x1_0000 {
      var t := s % 0x1_0000 + s / 0x1_0000;
      FoldIsResidue(t);
      assert s == t + 0xFFFF * (s / 0x1_0000);
    }
  }

  predicate Verifies(src: seq<u8>, dst: seq<u8>, next: u8, data: seq<u8>) {
    Fold(Raw(src, dst, next, data)) == 0xFFFF
  }

  function Checksum6(src: seq<u8>, dst: seq<u8>, next: u8, data: seq<u8>): (r: u16) {
    var ck := 0xFFFF - Fold(Raw(src, dst, next, data));
    if ck == 0 && next == UDP then 0xFFFF else ck
  }

  /** `data` with a checksum in the field at `at`. */
  function WithField(data: seq<u8>, at: nat, ck: u16): (d: seq<u8>)
    requires at + 2 <= |data|
    ensures |d| == |data|
  {
    data[at := ck / 0x100][at + 1 := ck % 0x100]
  }

  /** With the field filled in by `v`, the sum folds to 0xFFFF for just these `v`. */
  lemma Complement(raw: nat, v: u16)
    requires raw > 0
    ensures var c := 0xFFFF - Fold(raw); Fold(raw + v) == 0xFFFF <==> v == c || (c == 0 && v == 0xFFFF)
  {
    FoldIsResidue(raw);
    FoldIsResidue(raw + v);
    AddResidue(raw, Fold(raw), v);
    ZeroResidue(Fold(raw) + v);
    ZeroResidue(Fold(raw + v));
  }

  lemma AddResidue(a: nat, b: nat, v: nat)
    requires a % 0xFFFF == b % 0xFFFF
    ensures (a + v) % 0xFFFF == (b + v) % 0xFFFF
  {
    assert a + v == 0xFFFF * (a / 0xFFFF) + (a % 0xFFFF + v);
    assert b + v == 0xFFFF * (b / 0xFFFF) + (b % 0xFFFF + v);
  }

  lemma ZeroResidue(n: nat)
    requires n <= 2 * 0xFFFF
    ensures n % 0xFFFF == 0 <==> n == 0 || n == 0xFFFF || n == 2 * 0xFFFF
  {
  }

  /** Exactly which field values a receiver accepts, for every address pair, protocol and data
      (of odd length too) whose checksum field, at an even offset, was zero: the complement
      of the sum, and, when that is zero, 0xFFFF as well. */
  lemma AcceptedExactly(src: seq<u8>, dst: seq<u8>, next: u8, data: seq<u8>, at: nat, v: u16)
    requires at % 2 == 0 && at + 2 <= |data| && data[at] == 0 && data[at + 1] == 0
    ensures var c := 0xFFFF - Fold(Raw(src, dst, next, data));
            Verifies(src, dst, next, WithField(data, at, v)) <==> v == c || (c == 0 && v == 0xFFFF)
  {
    SumWithWord(data, at, v);
    Complement(Raw(src, dst, next, data), v);
  }

  /** The checksum the bridge fills in is accepted; over UDP it is never zero, and it is the
      only non-zero value that is accepted. */
  lemma ChecksumAccepted(src: seq<u8>, dst: seq<u8>, next: u8, data: seq<u8>, at: nat)
    requires at % 2 == 0 && at + 2 <= |data| && data[at] == 0 && data[at + 1] == 0
    ensures var ck := Checksum6(src, dst, next, data);
            && Verifies(src, dst, next, WithField(data, at, ck))
            && (next == UDP ==>
                  forall v: u16 :: v != 0 ==> (Verifies(src, dst, next, WithField(data, at, v)) <==> v == ck))
  {
    hide Verifies, Raw, WithField;
    var ck := Checksum6(src, dst, next, data);
    AcceptedExactly(src, dst, next, data, at, ck);
    if next == UDP {
      forall v: u16 | v != 0
        ensures Verifies(src, dst, next, WithField(data, at, v)) <==> v == ck
      {
        AcceptedExactly(src, dst, next, data, at, v);
        FoldIsResidue(Raw(src, dst, next, data));
      }
    }
  }

  // ---- the loops ----------------------------------------------------------------------------

  lemma {:induction false} SumAppend(b: seq<u8>, i: nat)
    requires i % 2 == 0 && i <= |b|
    ensures Sum(b[..i]) + Sum(b[i..]) == Sum(b)
    decreases i
  {
    if i == 0 {
      assert b[0..] == b;
    } else {
      SumAppend(b[2..], i - 2);
      assert b[..i][2..] == b[2..][..i - 2] && b[2..][i - 2..] == b[i..];
    }
  }

  /** Adds the words of `bytes` to a 32-bit sum that has room for them. */
  method AddWords(sum: u32, bytes: seq<u8>) returns (r: u32)
    requires sum + Sum(bytes) < TWO32
    ensures r == sum + Sum(bytes)
  {
    r := sum;
    var i := 0;
    while i + 1 < |bytes|
      invariant 0 <= i <= |bytes| && i % 2 == 0
      invariant r + Sum(bytes[i..]) == sum + Sum(bytes)
      decreases |bytes| - i
    {
      assert bytes[i..][2..] == bytes[i + 2..];
      r := r + Be16(bytes[i], bytes[i + 1]);
      i := i + 2;
    }
    if i < |bytes| {
      assert bytes[i..] == [bytes[i]];
      r := r + Be16(bytes[i], 0);
    } else {
      assert bytes[i..] == [];
    }
  }

  lemma RawFits(src: seq<u8>, dst: seq<u8>, next: u8, data: seq<u8>)
    requires |src| == 16 && |dst| == 16 && |data| < 0x1_0000
    ensures Raw(src, dst, next, data) < TWO32
  {
    SumBound(src);
    SumBound(dst);
    SumBound(data);
  }

  /** No intermediate value leaves 32 bits, and the folding loop ends. */
  method ComputeChecksum6(src: seq<u8>, dst: seq<u8>, next: u8, data: seq<u8>) returns (ck: u16)
    requires |src| == 16 && |dst| == 16 && |data| < 0x1_0000
    ensures ck == Checksum6(src, dst, next, data)
  {
    RawFits(src, dst, next, data);
    var sum: u32 := 0;
    sum := AddWords(sum, src);
    sum := AddWords(sum, dst);
    sum := sum + |data|;
    sum := sum + next;
    sum := AddWords(sum, data);
    while sum / 0x1_0000 != 0
      invariant Fold(sum) == Fold(Raw(src, dst, next, data))
      decreases sum
    {
      sum := sum % 0x1_0000 + sum / 0x1_0000;
    }
    ck := 0xFFFF - sum;
    if ck == 0 && next == UDP { ck := 0xFFFF; }
  }

  // ---- frames ---------------------------------------------------------------------------------

  datatype Packet = Packet(
    vid: u16,
    dstMac: seq<u8>,
    srcMac: seq<u8>,
    next: u8,
    hop: u8,
    src: seq<u8>,
    dst: seq<u8>,
    payload: seq<u8>)

  predicate Sized(p: Packet) {
    && |p.dstMac| == 6 && |p.srcMac| == 6 && |p.src| == 16 && |p.dst| == 16 && |p.payload| < 0x1_0000
  }

  /** Ethernet, tagged when the VLAN id is not zero, and IPv6. */
  function Built(p: Packet): (r: seq<u8>)
    requires Sized(p)
  {
    p.dstMac + p.srcMac + Tag(p.vid) + Bytes16(ETHERTYPE_IPV6) + Ipv6(p)
  }

  function Tag(vid: u16): (r: seq<u8>) {
    if vid == 0 then [] else Bytes16(VLAN_TPID) + Bytes16(vid)
  }

  function Ipv6(p: Packet): (r: seq<u8>)
    requires Sized(p)
  {
    [0x60, 0, 0, 0] + Bytes16(|p.payload|) + [p.next, p.hop] + p.src + p.dst + p.payload
  }

  function WordAt(b: seq<u8>, i: nat): (r: u16)
    requires i + 2 <= |b|
  {
    Be16(b[i], b[i + 1])
  }

  /** What a station makes of a frame. */
  function Parse(f: seq<u8>): (r: Option<Packet>) {
    if |f| < 14 then None
    else if WordAt(f, 12) == VLAN_TPID then
      if |f| < 18 then None else ParseIpv6(f[..6], f[6..12], WordAt(f, 14), f[16..])
    else ParseIpv6(f[..6], f[6..12], 0, f[12..])
  }

  /** `b` starts at the EtherType. */
  function ParseIpv6(dstMac: seq<u8>, srcMac: seq<u8>, vid: u16, b: seq<u8>): (r: Option<Packet>) {
    if |b| < 42 || WordAt(b, 0) != ETHERTYPE_IPV6 || b[2] / 16 != 6 || |b| != 42 + WordAt(b, 6) then None
    else Some(Packet(vid, dstMac, srcMac, b[8], b[9], b[10..26], b[26..42], b[42..]))
  }

  lemma WordRoundTrip(w: u16)
    ensures Be16(w / 0x100, w % 0x100) == w
  {
  }

  lemma Ipv6RoundTrip(p: Packet)
    requires Sized(p)
    ensures ParseIpv6(p.dstMac, p.srcMac, p.vid, Bytes16(ETHERTYPE_IPV6) + Ipv6(p)) == Some(p)
  {
    var b := Bytes16(ETHERTYPE_IPV6) + Ipv6(p);
    WordRoundTrip(|p.payload|);
    assert b[10..26] == p.src && b[26..42] == p.dst && b[42..] == p.payload;
  }

  /** Every frame the bridge builds parses back to its fields; a VLAN id of zero is the
      untagged form. */
  lemma BuiltParses(p: Packet)
    requires Sized(p)
    ensures Parse(Built(p)) == Some(p)
  {
    hide Ipv6, ParseIpv6;
    var f := Built(p);
    assert f[..6] == p.dstMac && f[6..12] == p.srcMac;
    Ipv6RoundTrip(p);
    if p.vid == 0 {
      assert f[12..] == Bytes16(ETHERTYPE_IPV6) + Ipv6(p);
      assert f[12] == 0x86 && f[13] == 0xDD;
    } else {
      WordRoundTrip(p.vid);
      assert f[12] == 0x81 && f[13] == 0 && f[14] == p.vid / 0x100 && f[15] == p.vid % 0x100;
      assert f[16..] == Bytes16(ETHERTYPE_IPV6) + Ipv6(p);
    }
  }

  /** A UDP datagram with a zero checksum field. */
  function UdpUnsummed(srcPort: u16, dstPort: u16, data: seq<u8>): (u: seq<u8>)
    requires |data| + 8 < 0x1_0000
    ensures |u| == 8 + |data| && u[6] == 0 && u[7] == 0
  {
    Bytes16(srcPort) + Bytes16(dstPort) + Bytes16(8 + |data|) + [0, 0] + data
  }

  /** An ICMPv6 neighbour advertisement with a zero checksum field. */
  function AdvertUnsummed(ip: seq<u8>, mac: seq<u8>): (m: seq<u8>)
    requires |ip| == 16 && |mac| == 6
    ensures |m| == 32 && m[2] == 0 && m[3] == 0
  {
    [NEIGHBOR_ADVERT, 0, 0, 0, 0x60, 0, 0, 0] + ip + [2, 1] + mac
  }

  /** An echo request turned into its reply, checksum field zeroed. */
  function ReplyUnsummed(req: seq<u8>): (m: seq<u8>)
    requires |req| >= 4
    ensures |m| == |req| && m[2] == 0 && m[3] == 0
  {
    req[0 := ECHO_REPLY][2 := 0][3 := 0]
  }

  method BuildUdp6(vid: u16, dstMac: seq<u8>, dstIp: seq<u8>, dstPort: u16, srcPort: u16, data: seq<u8>,
                   myMac: seq<u8>, myIp: seq<u8>) returns (frame: seq<u8>)
    requires |dstMac| == 6 && |myMac| == 6 && |dstIp| == 16 && |myIp| == 16 && |data| + 8 < 0x1_0000
    ensures var u := UdpUnsummed(srcPort, dstPort, data);
            var ck := Checksum6(myIp, dstIp, UDP, u);
            frame == Built(Packet(vid, dstMac, myMac, UDP, 64, myIp, dstIp, WithField(u, 6, ck)))
  {
    hide Checksum6, Ipv6, Tag;
    var u := UdpUnsummed(srcPort, dstPort, data);
    var ck := ComputeChecksum6(myIp, dstIp, UDP, u);
    u := u[6 := ck / 0x100][7 := ck % 0x100];
    frame := dstMac + myMac;
    if vid != 0 {
      frame := frame + (Bytes16(VLAN_TPID) + Bytes16(vid));
    }
    frame := frame + Bytes16(ETHERTYPE_IPV6);
    frame := frame + Ipv6(Packet(vid, dstMac, myMac, UDP, 64, myIp, dstIp, u));
    assert Tag(vid) == if vid == 0 then [] else Bytes16(VLAN_TPID) + Bytes16(vid) by { TagIs(vid); }
    assert dstMac + myMac + [] == dstMac + myMac;
  }

  lemma TagIs(vid: u16)
    ensures Tag(vid) == if vid == 0 then [] else Bytes16(VLAN_TPID) + Bytes16(vid)
  {
  }

  /** The peer of a request: for every VLAN, address, port pair and data (of odd length too), the
      frame parses to a UDP datagram whose checksum verifies, is not zero, and whose ports,
      length and data are those given. */
  lemma UdpArrives(vid: u16, dstMac: seq<u8>, dstIp: seq<u8>, dstPort: u16, srcPort: u16, data: seq<u8>,
                   myMac: seq<u8>, myIp: seq<u8>)
    requires |dstMac| == 6 && |myMac| == 6 && |dstIp| == 16 && |myIp| == 16 && |data| + 8 < 0x1_0000
    ensures var u := UdpUnsummed(srcPort, dstPort, data);
            var ck := Checksum6(myIp, dstIp, UDP, u);
            var p := Packet(vid, dstMac, myMac, UDP, 64, myIp, dstIp, WithField(u, 6, ck));
            && Parse(Built(p)) == Some(p)
            && Verifies(p.src, p.dst, UDP, p.payload) && WordAt(p.payload, 6) != 0
            && WordAt(p.payload, 0) == srcPort && WordAt(p.payload, 2) == dstPort
            && WordAt(p.payload, 4) == |p.payload| && p.payload[8..] == data
  {
    hide Built, Parse, Verifies;
    var u := UdpUnsummed(srcPort, dstPort, data);
    var ck := Checksum6(myIp, dstIp, UDP, u);
    var p := Packet(vid, dstMac, myMac, UDP, 64, myIp, dstIp, WithField(u, 6, ck));
    BuiltParses(p);
    ChecksumAccepted(myIp, dstIp, UDP, u, 6);
    assert ck != 0;
    WordRoundTrip(srcPort);
    WordRoundTrip(dstPort);
    WordRoundTrip(8 + |data|);
    WordRoundTrip(ck);
    assert p.payload[8..] == data;
  }

  /** A neighbour advertisement and an echo reply are accepted too. */
  lemma ControlArrives(myIp: seq<u8>, myMac: seq<u8>, dstIp: seq<u8>, req: seq<u8>)
    requires |myIp| == 16 && |myMac| == 6 && |dstIp| == 16 && 4 <= |req| < 0x1_0000
    ensures var m := AdvertUnsummed(myIp, myMac);
            Verifies(myIp, dstIp, ICMPV6, WithField(m, 2, Checksum6(myIp, dstIp, ICMPV6, m)))
    ensures var m := ReplyUnsummed(req);
            var sent := WithField(m, 2, Checksum6(myIp, dstIp, ICMPV6, m));
            Verifies(myIp, dstIp, ICMPV6, sent) && sent[4..] == req[4..]
  {
    ChecksumAccepted(myIp, dstIp, ICMPV6, AdvertUnsummed(myIp, myMac), 2);
    ChecksumAccepted(myIp, dstIp, ICMPV6, ReplyUnsummed(req), 2);
  }
}
