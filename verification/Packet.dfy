/**
 internal/bypass/packet_linux.go: IPv4 and TCP headers without options (section 3.1 of RFC 791,
 section 3.1 of RFC 9293), written field by field into byte slices; and the packet of
 internal/bypass/desync.go whose TCP checksum is inverted in place.
 */
module Packet {
  import opened Bytes
  import opened InternetSum

  type Quad = b: bytes | |b| == 4 witness [0, 0, 0, 0]

  datatype IpHeader = IpHeader(versionIhl: u8, tos: u8, totalLength: u16, id: u16, flagsFragment: u16,
                               ttl: u8, protocol: u8, src: Quad, dst: Quad)

  datatype TcpHeader = TcpHeader(srcPort: u16, dstPort: u16, seqNum: u32, ackNum: u32, dataOffset: u8,
                                 flags: u8, window: u16, urgent: u16)

  const TCP: u8 := 6

  function Be32(v: u32): (b: bytes)
    ensures |b| == 4
  {
    Be16(v / 0x1_0000) + Be16(v % 0x1_0000)
  }

  // ---- what marshal writes ----

  /** The header before and after its checksum field. */
  function IpHead(h: IpHeader): (b: bytes)
    ensures |b| == 10
  {
    [h.versionIhl, h.tos] + Be16(h.totalLength) + Be16(h.id) + Be16(h.flagsFragment) + [h.ttl, h.protocol]
  }

  function IpTail(h: IpHeader): bytes { h.src + h.dst }

  function IpBytes(h: IpHeader): bytes
  {
    IpHead(h) + (Be16(Checksum(IpHead(h) + (Be16(0) + IpTail(h)))) + IpTail(h))
  }

  function TcpHead(h: TcpHeader): (b: bytes)
    ensures |b| == 16
  {
    Be16(h.srcPort) + Be16(h.dstPort) + Be32(h.seqNum) + Be32(h.ackNum) + [h.dataOffset, h.flags] + Be16(h.window)
  }

  function TcpTail(h: TcpHeader, payload: bytes): bytes { Be16(h.urgent) + payload }

  /** The pseudo header the TCP checksum also covers; its length field keeps 16 bits. */
  function Pseudo(src: Quad, dst: Quad, length: nat): (b: bytes)
    ensures |b| == 12
  {
    src + dst + [0, TCP] + Be16(Low16(length))
  }

  function TcpChecksum(src: Quad, dst: Quad, segment: bytes): u16
  {
    Checksum(Pseudo(src, dst, |segment|) + segment)
  }

  function TcpField(src: Quad, dst: Quad, h: TcpHeader, payload: bytes): u16
  {
    TcpChecksum(src, dst, TcpHead(h) + (Be16(0) + TcpTail(h, payload)))
  }

  function TcpBytes(src: Quad, dst: Quad, h: TcpHeader, payload: bytes): bytes
  {
    TcpHead(h) + (Be16(TcpField(src, dst, h, payload)) + TcpTail(h, payload))
  }

  // ---- marshal ----

  function Zeros(n: nat): bytes { seq(n, _ => 0) }

  /** A zeroed array filled from the front: `done` is written, the rest is still zero. */
  ghost predicate Filled(b: array<u8>, done: bytes)
    reads b
  {
    |done| <= b.Length && b[..] == done + Zeros(b.Length - |done|)
  }

  /** PutUint16, PutUint32 and copy: overwrite a run of bytes. */
  method Write(b: array<u8>, at: nat, v: bytes)
    requires at + |v| <= b.Length
    modifies b
    ensures b[..] == old(b[..at]) + (v + old(b[at + |v|..]))
  {
    forall i | 0 <= i < |v| { b[at + i] := v[i]; }
  }

  method Put(b: array<u8>, at: nat, v: bytes, ghost done: bytes)
    requires at == |done| && at + |v| <= b.Length && Filled(b, done)
    modifies b
    ensures Filled(b, done + v)
  {
    Write(b, at, v);
    assert old(b[..at]) == done;
    assert old(b[at + |v|..]) == Zeros(b.Length - |done| - |v|);
  }

  /** Leaving a field zero is writing zeros. */
  lemma Skip(b: array<u8>, done: bytes, n: nat)
    requires Filled(b, done) && |done| + n <= b.Length
    ensures Filled(b, done + Zeros(n))
  {
    assert Zeros(b.Length - |done|) == Zeros(n) + Zeros(b.Length - |done| - n);
  }

  lemma ZeroField()
    ensures Zeros(2) == Be16(0)
  {
    assert Zeros(2) == [0, 0];
    assert Be16(0) == [0, 0];
  }

  method MarshalIp(h: IpHeader) returns (b: array<u8>)
    ensures fresh(b) && b[..] == IpBytes(h)
  {
    hide Be16, Checksum, Zeros, Filled;
    b := new u8[20](_ => 0);
    NewIsZero(b);
    ghost var d: bytes := [];
    Put(b, 0, [h.versionIhl, h.tos], d);
    d := d + [h.versionIhl, h.tos];
    Put(b, 2, Be16(h.totalLength), d);
    d := d + Be16(h.totalLength);
    Put(b, 4, Be16(h.id), d);
    d := d + Be16(h.id);
    Put(b, 6, Be16(h.flagsFragment), d);
    d := d + Be16(h.flagsFragment);
    Put(b, 8, [h.ttl, h.protocol], d);
    d := d + [h.ttl, h.protocol];
    ghost var head := IpHead(h);
    assert d == head;
    ZeroField();
    Skip(b, head, 2);
    Put(b, 12, h.src, head + Be16(0));
    Put(b, 16, h.dst, head + Be16(0) + h.src);
    Full(b, head + Be16(0) + h.src + h.dst);
    assert b[..] == head + (Be16(0) + IpTail(h));
    var cs, _ := InternetChecksum(b[..]);
    SetField(b, 10, head, cs, IpTail(h));
  }

  lemma NewIsZero(b: array<u8>)
    requires forall i :: 0 <= i < b.Length ==> b[i] == 0
    ensures Filled(b, [])
  {
    assert b[..] == [] + Zeros(b.Length);
  }

  lemma Full(b: array<u8>, done: bytes)
    requires Filled(b, done) && |done| == b.Length
    ensures b[..] == done
  {
  }

  /** The checksum is stored last, into the field left zero. */
  method SetField(b: array<u8>, at: nat, ghost a: bytes, cs: u16, ghost c: bytes)
    requires |a| == at && b[..] == a + (Be16(0) + c)
    modifies b
    ensures b[..] == a + (Be16(cs) + c)
  {
    hide Be16;
    assert b.Length == |b[..]| == at + 2 + |c|;
    Write(b, at, Be16(cs));
    assert old(b[..])[..at] == a && old(b[..])[at + 2..] == c;
  }

  method TcpChecksumOf(src: Quad, dst: Quad, segment: bytes) returns (cs: u16)
    ensures cs == TcpChecksum(src, dst, segment)
  {
    hide Be16, Checksum, Zeros, Low16, Filled;
    var pseudo := new u8[12 + |segment|](_ => 0);
    NewIsZero(pseudo);
    Put(pseudo, 0, src, []);
    Put(pseudo, 4, dst, [] + src);
    assert [] + src == src;
    Put(pseudo, 8, [0, TCP], src + dst);
    Put(pseudo, 10, Be16(Low16(|segment|)), src + dst + [0, TCP]);
    Put(pseudo, 12, segment, Pseudo(src, dst, |segment|));
    Full(pseudo, Pseudo(src, dst, |segment|) + segment);
    ghost var rounds;
    cs, rounds := InternetChecksum(pseudo[..]);
  }

  method MarshalTcp(h: TcpHeader, src: Quad, dst: Quad, payload: bytes) returns (b: array<u8>)
    ensures fresh(b) && b[..] == TcpBytes(src, dst, h, payload)
  {
    hide Be16, Be32, Checksum, Zeros, TcpChecksum, Filled;
    b := new u8[20 + |payload|](_ => 0);
    NewIsZero(b);
    Put(b, 0, Be16(h.srcPort), []);
    ghost var d := Be16(h.srcPort);
    assert [] + Be16(h.srcPort) == d;
    Put(b, 2, Be16(h.dstPort), d);
    d := d + Be16(h.dstPort);
    Put(b, 4, Be32(h.seqNum), d);
    d := d + Be32(h.seqNum);
    Put(b, 8, Be32(h.ackNum), d);
    d := d + Be32(h.ackNum);
    Put(b, 12, [h.dataOffset, h.flags], d);
    d := d + [h.dataOffset, h.flags];
    Put(b, 14, Be16(h.window), d);
    d := d + Be16(h.window);
    ghost var head := TcpHead(h);
    assert d == head;
    ZeroField();
    Skip(b, head, 2);
    Put(b, 18, Be16(h.urgent), head + Be16(0));
    Put(b, 20, payload, head + Be16(0) + Be16(h.urgent));
    Full(b, head + Be16(0) + Be16(h.urgent) + payload);
    assert b[..] == head + (Be16(0) + TcpTail(h, payload));
    var cs := TcpChecksumOf(src, dst, b[..]);
    SetField(b, 16, head, cs, TcpTail(h, payload));
  }

  // ---- CraftPacket ----

  /** src and dst are what To4 gives: None for an address that is not IPv4. */
  datatype Params = Params(src: Option<Quad>, dst: Option<Quad>, srcPort: u16, dstPort: u16, seqNum: u32,
                           ackNum: u32, flags: u8, ttl: u8, window: u16, payload: bytes)

  function TcpHeaderOf(p: Params): TcpHeader
  {
    TcpHeader(p.srcPort, p.dstPort, p.seqNum, p.ackNum, 0x50, p.flags, if p.window == 0 then 65535 else p.window, 0)
  }

  function IpHeaderOf(p: Params, randomTtl: u8, id: u16): IpHeader
    requires p.src.Some? && p.dst.Some?
  {
    IpHeader(0x45, 0, Low16(20 + (20 + |p.payload|)), id, 0x4000, if p.ttl == 0 then randomTtl else p.ttl, TCP,
             p.src.value, p.dst.value)
  }

  function Crafted(p: Params, randomTtl: u8, id: u16): (packet: bytes)
    requires p.src.Some? && p.dst.Some?
    ensures |packet| == 40 + |p.payload|
  {
    IpSize(IpHeaderOf(p, randomTtl, id));
    TcpSize(p.src.value, p.dst.value, TcpHeaderOf(p), p.payload);
    IpBytes(IpHeaderOf(p, randomTtl, id)) + TcpBytes(p.src.value, p.dst.value, TcpHeaderOf(p), p.payload)
  }

  method CraftPacket(p: Params, randomTtl: u8, id: u16) returns (packet: Option<bytes>)
    ensures packet == if p.src.None? || p.dst.None? then None else Some(Crafted(p, randomTtl, id))
    ensures packet.Some? ==> Carries(packet.value, p, randomTtl, id, OriginalChecksum(p))
  {
    hide IpBytes, TcpBytes, Carries, OriginalChecksum;
    if p.src.None? || p.dst.None? { return None; }
    var tcpBytes := MarshalTcp(TcpHeaderOf(p), p.src.value, p.dst.value, p.payload);
    assert tcpBytes.Length == 20 + |p.payload| by { TcpSize(p.src.value, p.dst.value, TcpHeaderOf(p), p.payload); }
    var ipBytes := MarshalIp(IpHeaderOf(p, randomTtl, id));
    CraftedFields(p, randomTtl, id);
    return Some(ipBytes[..] + tcpBytes[..]);
  }

  lemma TcpSize(src: Quad, dst: Quad, h: TcpHeader, payload: bytes)
    ensures |TcpBytes(src, dst, h, payload)| == 20 + |payload|
  {
    hide TcpField, Be32;
  }

  lemma IpSize(h: IpHeader)
    ensures |IpBytes(h)| == 20
  {
    hide Checksum;
  }

  /** The twenty bytes of the IP header, field by field. */
  lemma IpFields(h: IpHeader)
    ensures var b := IpBytes(h);
            && |b| == 20 && b[0] == h.versionIhl && b[1] == h.tos && U16At(b, 2) == h.totalLength && U16At(b, 4) == h.id
            && U16At(b, 6) == h.flagsFragment && b[8] == h.ttl && b[9] == h.protocol
            && b[12..16] == h.src && b[16..20] == h.dst
  {
    hide Be16, Checksum;
    var head := IpHead(h);
    var b := IpBytes(h);
    assert b[..10] == head;
    BigEndianAt(b, 2, h.totalLength);
    BigEndianAt(b, 4, h.id);
    BigEndianAt(b, 6, h.flagsFragment);
  }

  lemma BigEndianAt(b: bytes, at: nat, v: u16)
    requires at + 2 <= |b| && b[at] == Be16(v)[0] && b[at + 1] == Be16(v)[1]
    ensures U16At(b, at) == v
  {
  }

  lemma BigEndian32At(b: bytes, at: nat, v: u32)
    requires at + 4 <= |b|
    requires b[at] == Be32(v)[0] && b[at + 1] == Be32(v)[1] && b[at + 2] == Be32(v)[2] && b[at + 3] == Be32(v)[3]
    ensures U32At(b, at) == v
  {
    hide Be16;
    BigEndianAt(b, at, v / 0x1_0000);
    BigEndianAt(b, at + 2, v % 0x1_0000);
  }

  /** The TCP header and payload, field by field. */
  lemma TcpFields(src: Quad, dst: Quad, h: TcpHeader, payload: bytes)
    ensures var b := TcpBytes(src, dst, h, payload);
            && |b| == 20 + |payload| && U16At(b, 0) == h.srcPort && U16At(b, 2) == h.dstPort
            && U32At(b, 4) == h.seqNum && U32At(b, 8) == h.ackNum && b[12] == h.dataOffset && b[13] == h.flags
            && U16At(b, 14) == h.window && U16At(b, 16) == TcpField(src, dst, h, payload)
            && U16At(b, 18) == h.urgent && b[20..] == payload
  {
    hide Be16, Be32, TcpField, U16At, U32At;
    var head := TcpHead(h);
    var field := TcpField(src, dst, h, payload);
    var b := TcpBytes(src, dst, h, payload);
    assert b[..16] == head;
    assert b[16] == Be16(field)[0] && b[17] == Be16(field)[1];
    assert b[18] == Be16(h.urgent)[0] && b[19] == Be16(h.urgent)[1] && b[20..] == payload;
    BigEndianAt(b, 0, h.srcPort);
    BigEndianAt(b, 2, h.dstPort);
    BigEndian32At(b, 4, h.seqNum);
    BigEndian32At(b, 8, h.ackNum);
    BigEndianAt(b, 14, h.window);
    BigEndianAt(b, 16, field);
    BigEndianAt(b, 18, h.urgent);
  }

  /** What a crafted packet holds at its offsets, in numbers. */
  ghost predicate Carries(packet: bytes, p: Params, randomTtl: u8, id: u16, cs: u16)
    requires p.src.Some? && p.dst.Some?
  {
    && |packet| == 40 + |p.payload|
    && packet[0] == 0x45 && packet[1] == 0 && U16At(packet, 2) == (40 + |p.payload|) % 65536
    && U16At(packet, 4) == id && U16At(packet, 6) == 0x4000
    && packet[8] == (if p.ttl == 0 then randomTtl else p.ttl) && packet[9] == 6
    && packet[12..16] == p.src.value && packet[16..20] == p.dst.value
    && U16At(packet, 20) == p.srcPort && U16At(packet, 22) == p.dstPort
    && U32At(packet, 24) == p.seqNum && U32At(packet, 28) == p.ackNum
    && packet[32] == 0x50 && packet[33] == p.flags
    && U16At(packet, 34) == (if p.window == 0 then 65535 else p.window)
    && U16At(packet, 36) == cs && U16At(packet, 38) == 0 && packet[40..] == p.payload
  }

  lemma Shifted(a: bytes, b: bytes, at: nat)
    ensures at + 2 <= |b| ==> U16At(a + b, |a| + at) == U16At(b, at)
    ensures at + 4 <= |b| ==> U32At(a + b, |a| + at) == U32At(b, at)
  {
  }

  lemma KeptInFront(a: bytes, b: bytes, at: nat)
    requires at + 2 <= |a|
    ensures U16At(a + b, at) == U16At(a, at)
  {
  }

  /** Every field of a crafted packet lies at its offset. */
  lemma CraftedFields(p: Params, randomTtl: u8, id: u16)
    requires p.src.Some? && p.dst.Some?
    ensures Carries(Crafted(p, randomTtl, id), p, randomTtl, id, OriginalChecksum(p))
  {
    hide IpBytes, TcpBytes, TcpField, U16At, U32At;
    var ih, th := IpHeaderOf(p, randomTtl, id), TcpHeaderOf(p);
    var a, b := IpBytes(ih), TcpBytes(p.src.value, p.dst.value, th, p.payload);
    IpFields(ih);
    TcpFields(p.src.value, p.dst.value, th, p.payload);
    KeptInFront(a, b, 2);
    KeptInFront(a, b, 4);
    KeptInFront(a, b, 6);
    Shifted(a, b, 0);
    Shifted(a, b, 2);
    Shifted(a, b, 4);
    Shifted(a, b, 8);
    Shifted(a, b, 14);
    Shifted(a, b, 16);
    Shifted(a, b, 18);
    var packet := a + b;
    assert packet[12..16] == a[12..16] && packet[16..20] == a[16..20] && packet[40..] == b[20..];
    assert packet[32] == b[12] && packet[33] == b[13];
  }

  // ---- what a receiver computes ----

  ghost predicate IpVerifies(packet: bytes)
    requires |packet| >= 20
  {
    Checksum(packet[..20]) == 0
  }

  /** With the addresses the packet itself carries. */
  ghost predicate TcpVerifies(packet: bytes)
    requires |packet| >= 20
  {
    TcpChecksum(packet[12..16], packet[16..20], packet[20..]) == 0
  }

  /** The numbers at even offsets, added up; an odd last byte counts 256-fold. */
  function PlainSum(b: bytes, i: nat): nat
    decreases |b| - i
  {
    if i + 1 < |b| then U16At(b, i) + PlainSum(b, i + 2)
    else if i < |b| then b[i] as int * 256
    else 0
  }

  /** Section 3.1 of RFC 791: the header words, checksum included, add up to 0 modulo 65535. */
  ghost predicate IpValid(packet: bytes)
    requires |packet| >= 20
  {
    PlainSum(packet[..20], 0) % 65535 == 0
  }

  /** Section 3.1 of RFC 9293: so do addresses, protocol, length and segment together. */
  ghost predicate TcpValid(packet: bytes)
    requires |packet| >= 20
  {
    (PlainSum(packet[12..20], 0) + 6 + (|packet| - 20) + PlainSum(packet[20..], 0)) % 65535 == 0
  }

  lemma {:induction false} PlainSumIsWordSum(b: bytes, i: nat)
    requires i <= |b|
    ensures PlainSum(b, i) == WordSum(b[i..])
    decreases |b| - i
  {
    hide Word;
    if i + 1 < |b| {
      PlainSumIsWordSum(b, i + 2);
      PairStep(b, i);
      NumberIsWord(b, i);
    }
  }

  lemma NumberIsWord(b: bytes, i: nat)
    requires i + 1 < |b|
    ensures U16At(b, i) == Word(b[i], b[i + 1])
  {
  }

  lemma ZeroChecksum(data: bytes)
    requires |data| <= 131074
    ensures Checksum(data) == 0 <==> WordSum(data) > 0 && WordSum(data) % 65535 == 0
  {
    hide WordSum;
    NoOverflow(data);
    FoldedFull(WordSum(data));
    InvertedZero(Folded(WordSum(data)));
  }

  /** The source's own check agrees with the standard's on every IP header. */
  lemma IpVerifiesIsValid(packet: bytes)
    requires |packet| >= 20 && packet[0] > 0
    ensures IpVerifies(packet) <==> IpValid(packet)
  {
    hide Checksum, WordSum;
    var head := packet[..20];
    ZeroChecksum(head);
    PlainSumIsWordSum(head, 0);
    assert head[0..] == head;
    assert WordSum(head) > 0 by { PairStep(head, 0); }
  }

  /** And on every segment that a 16-bit length can describe. */
  lemma TcpVerifiesIsValid(packet: bytes)
    requires 20 <= |packet| < 20 + 65536
    ensures TcpVerifies(packet) <==> TcpValid(packet)
  {
    hide Checksum, WordSum, Be16, PlainSum;
    var src, dst, segment := packet[12..16], packet[16..20], packet[20..];
    var addresses := packet[12..20];
    assert src + dst == addresses;
    var length := Be16(Low16(|segment|));
    assert Pseudo(src, dst, |segment|) + segment == (addresses + [0, TCP]) + (length + segment);
    ZeroChecksum(Pseudo(src, dst, |segment|) + segment);
    WordSumAppend(addresses + [0, TCP], length + segment);
    WordSumAppend(addresses, [0, TCP]);
    WordSumAppend(length, segment);
    LowIsItself(|segment|);
    WordSumOfWord(|segment|);
    ProtocolSum();
    PlainSumIsWordSum(addresses, 0);
    assert addresses[0..] == addresses;
    PlainSumIsWordSum(segment, 0);
    assert segment[0..] == segment;
  }

  lemma ProtocolSum()
    ensures WordSum([0, TCP]) == 6
  {
    var w: bytes := [0, TCP];
    assert w[2..] == [];
  }

  lemma TcpBytesVerify(src: Quad, dst: Quad, h: TcpHeader, payload: bytes)
    ensures TcpChecksum(src, dst, TcpBytes(src, dst, h, payload)) == 0
  {
    hide Be16, Be32, Checksum, Pseudo, Low16;
    var head, tail := TcpHead(h), TcpTail(h, payload);
    var pseudo := Pseudo(src, dst, 20 + |payload|);
    var field := TcpField(src, dst, h, payload);
    Assoc(pseudo, head, Be16(0) + tail);
    Assoc(pseudo, head, Be16(field) + tail);
    Verifies(pseudo + head, tail);
  }

  /** Every crafted packet verifies at both levels, whatever its length. */
  lemma CraftedVerifies(p: Params, randomTtl: u8, id: u16)
    requires p.src.Some? && p.dst.Some?
    ensures var packet := Crafted(p, randomTtl, id);
            |packet| == 40 + |p.payload| && IpVerifies(packet) && TcpVerifies(packet)
  {
    hide IpBytes, TcpBytes, TcpChecksum, Checksum, IpHeaderOf, TcpHeaderOf, Carries;
    CraftedAddresses(p, randomTtl, id);
    var ih, th := IpHeaderOf(p, randomTtl, id), TcpHeaderOf(p);
    var packet := Crafted(p, randomTtl, id);
    IpSize(ih);
    TcpSize(p.src.value, p.dst.value, th, p.payload);
    assert packet[..20] == IpBytes(ih);
    assert packet[20..] == TcpBytes(p.src.value, p.dst.value, th, p.payload);
    IpBytesVerify(ih);
    TcpBytesVerify(p.src.value, p.dst.value, th, p.payload);
  }

  lemma CraftedAddresses(p: Params, randomTtl: u8, id: u16)
    requires p.src.Some? && p.dst.Some?
    ensures var packet := Crafted(p, randomTtl, id);
            packet[0] == 0x45 && packet[12..16] == p.src.value && packet[16..20] == p.dst.value
  {
    hide Crafted, U16At, U32At;
    CraftedFields(p, randomTtl, id);
  }

  /** A packet of its declared length whose two checksums are right by the standards' own rule. */
  ghost predicate ValidPacket(packet: bytes)
  {
    |packet| >= 20 && U16At(packet, 2) == |packet| && IpValid(packet) && TcpValid(packet)
  }

  /** Every crafted packet that its length fields can describe is one. */
  lemma CraftedIsValid(p: Params, randomTtl: u8, id: u16)
    requires p.src.Some? && p.dst.Some? && |p.payload| <= 65495
    ensures ValidPacket(Crafted(p, randomTtl, id))
  {
    hide Crafted, IpVerifies, TcpVerifies, IpValid, TcpValid, OriginalChecksum;
    CraftedFields(p, randomTtl, id);
    CraftedVerifies(p, randomTtl, id);
    IpVerifiesIsValid(Crafted(p, randomTtl, id));
    TcpVerifiesIsValid(Crafted(p, randomTtl, id));
  }

  lemma IpBytesVerify(h: IpHeader)
    ensures Checksum(IpBytes(h)) == 0
  {
    hide Be16, Checksum, IpHead, IpTail;
    Verifies(IpHead(h), IpTail(h));
  }

  // ---- desync: inverted TCP checksum ----

  /** Exclusive or on the low n bits. */
  function Xor(a: nat, b: nat, n: nat): nat
  {
    if n == 0 then 0 else 2 * Xor(a / 2, b / 2, n - 1) + (a % 2 + b % 2) % 2
  }

  /** All n bits set. */
  function Ones(n: nat): nat { if n == 0 then 0 else 2 * Ones(n - 1) + 1 }

  lemma {:induction false} XorIsComplement(a: nat, n: nat)
    requires a <= Ones(n)
    ensures Xor(a, Ones(n), n) == Ones(n) - a
  {
    if n > 0 {
      assert Ones(n) / 2 == Ones(n - 1) && Ones(n) % 2 == 1;
      XorIsComplement(a / 2, n - 1);
      assert a == 2 * (a / 2) + a % 2;
    }
  }

  function Xor8(a: u8, b: u8): nat { Xor(a, b, 8) }

  lemma FlipByte(a: u8)
    ensures Xor8(a, 0xFF) == 0xFF - a
  {
    assert Ones(8) == 0xFF;
    XorIsComplement(a, 8);
  }

  /** badChecksum's two in-place exclusive ors. */
  method FlipChecksum(packet: array<u8>)
    modifies packet
    ensures packet[..] == Flipped(old(packet[..]))
  {
    hide Xor8;
    if packet.Length >= 38 {
      FlipByte(packet[36]);
      packet[36] := Xor8(packet[36], 0xFF);
      FlipByte(packet[37]);
      packet[37] := Xor8(packet[37], 0xFF);
    }
  }

  function Flipped(packet: bytes): (flipped: bytes)
    ensures |flipped| == |packet|
  {
    if |packet| >= 38 then packet[36 := 0xFF - packet[36]][37 := 0xFF - packet[37]] else packet
  }

  lemma FlippedField(a: bytes, v: u16, c: bytes)
    requires |a| == 36
    ensures Flipped(a + (Be16(v) + c)) == a + (Be16(Inverted(v)) + c)
  {
    var b, h := a + (Be16(v) + c), Be16(v);
    assert b[36] == h[0] && b[37] == h[1];
    assert Be16(Inverted(v)) == [0xFF - h[0], 0xFF - h[1]] by { InvertedBytes(v); }
    assert Flipped(b)[..36] == a && Flipped(b)[38..] == c;
    assert Flipped(b) == Flipped(b)[..36] + Flipped(b)[36..38] + Flipped(b)[38..];
  }

  lemma InvertedBytes(v: u16)
    ensures Be16(Inverted(v)) == [0xFF - Be16(v)[0], 0xFF - Be16(v)[1]]
  {
    hide Be16;
    var h := Be16(v);
    assert Word(0xFF - h[0], 0xFF - h[1]) == Inverted(v);
    WordInverse(0xFF - h[0], 0xFF - h[1]);
  }

  /** The original TCP checksum of a crafted packet. */
  function OriginalChecksum(p: Params): u16
    requires p.src.Some? && p.dst.Some?
  {
    TcpField(p.src.value, p.dst.value, TcpHeaderOf(p), p.payload)
  }

  lemma FlippedTcp(p: Params, randomTtl: u8, id: u16)
    requires p.src.Some? && p.dst.Some?
    ensures var h := TcpHeaderOf(p);
            Flipped(Crafted(p, randomTtl, id))
            == IpBytes(IpHeaderOf(p, randomTtl, id))
               + (TcpHead(h) + (Be16(Inverted(OriginalChecksum(p))) + TcpTail(h, p.payload)))
  {
    hide IpBytes, TcpHead, TcpTail, TcpField, Be16, IpHeaderOf, TcpHeaderOf, Flipped, Inverted;
    var ip, h := IpBytes(IpHeaderOf(p, randomTtl, id)), TcpHeaderOf(p);
    IpSize(IpHeaderOf(p, randomTtl, id));
    var a, tail := ip + TcpHead(h), TcpTail(h, p.payload);
    Assoc(ip, TcpHead(h), Be16(OriginalChecksum(p)) + tail);
    FlippedField(a, OriginalChecksum(p), tail);
    Assoc(ip, TcpHead(h), Be16(Inverted(OriginalChecksum(p))) + tail);
  }

  /** The sum of everything the TCP checksum covers but the checksum itself. */
  function RestSum(p: Params): nat
    requires p.src.Some? && p.dst.Some?
  {
    var h := TcpHeaderOf(p);
    WordSum(Pseudo(p.src.value, p.dst.value, 20 + |p.payload|) + TcpHead(h)) + WordSum(TcpTail(h, p.payload))
  }

  /**
   The packet with its TCP checksum bytes inverted passes TCP verification exactly when its checksum
   was 0x0000 and the 32-bit sum of the rest is not all ones, which needs more than 131042 bytes of
   payload. The IP header still verifies.
   */
  lemma FlippedFails(p: Params, randomTtl: u8, id: u16)
    requires p.src.Some? && p.dst.Some?
    ensures var packet := Flipped(Crafted(p, randomTtl, id));
            && |packet| == 40 + |p.payload| && IpVerifies(packet)
            && (TcpVerifies(packet)
                <==> OriginalChecksum(p) == 0 && Wrap32(RestSum(p)) != 0xFFFF_FFFF)
            && (|p.payload| <= 131042 ==>
                  (TcpVerifies(packet) <==> OriginalChecksum(p) == 0))
  {
    hide IpBytes, TcpHead, TcpTail, TcpField, Be16, IpHeaderOf, TcpHeaderOf, Flipped, Inverted, Pseudo, Checksum,
         RestSum, Wrap32;
    var ih, h := IpHeaderOf(p, randomTtl, id), TcpHeaderOf(p);
    var packet := Flipped(Crafted(p, randomTtl, id));
    var segment := TcpHead(h) + (Be16(Inverted(OriginalChecksum(p))) + TcpTail(h, p.payload));
    FlippedTcp(p, randomTtl, id);
    IpSize(ih);
    IpBytesVerify(ih);
    TailSize(h, p.payload);
    assert packet[..20] == IpBytes(ih) && packet[20..] == segment;
    FlippedAddresses(p, randomTtl, id);
    FlippedSegment(p);
    if |p.payload| <= 131042 { NeverAllOnes(p); }
  }

  lemma FlippedAddresses(p: Params, randomTtl: u8, id: u16)
    requires p.src.Some? && p.dst.Some?
    ensures var packet := Flipped(Crafted(p, randomTtl, id));
            packet[0] == 0x45 && packet[12..16] == p.src.value && packet[16..20] == p.dst.value
  {
    hide Crafted;
    CraftedAddresses(p, randomTtl, id);
    var packet := Crafted(p, randomTtl, id);
    assert Flipped(packet)[12..16] == packet[12..16] && Flipped(packet)[16..20] == packet[16..20];
  }

  /** The packet with bytes 36 and 37 inverted is valid exactly if those bytes are zero; its header always is. */
  ghost predicate DroppedUnlessZero(packet: bytes)
  {
    |packet| >= 40 && IpValid(Flipped(packet)) && (TcpValid(Flipped(packet)) <==> packet[36] == 0 && packet[37] == 0)
  }

  /** So is every crafted packet that its length fields can describe, by the standards' own rule. */
  lemma FlippedIsInvalid(p: Params, randomTtl: u8, id: u16)
    requires p.src.Some? && p.dst.Some? && |p.payload| <= 65495
    ensures DroppedUnlessZero(Crafted(p, randomTtl, id))
  {
    hide Crafted, Flipped, IpVerifies, TcpVerifies, IpValid, TcpValid, RestSum, OriginalChecksum;
    var packet := Crafted(p, randomTtl, id);
    FlippedFails(p, randomTtl, id);
    FlippedAddresses(p, randomTtl, id);
    IpVerifiesIsValid(Flipped(packet));
    TcpVerifiesIsValid(Flipped(packet));
    CraftedFields(p, randomTtl, id);
  }

  lemma TailSize(h: TcpHeader, payload: bytes)
    ensures |TcpTail(h, payload)| == 2 + |payload|
  {
  }

  lemma FlippedSegment(p: Params)
    requires p.src.Some? && p.dst.Some?
    ensures var h := TcpHeaderOf(p);
            TcpChecksum(p.src.value, p.dst.value,
                        TcpHead(h) + (Be16(Inverted(OriginalChecksum(p))) + TcpTail(h, p.payload))) == 0
            <==> OriginalChecksum(p) == 0 && Wrap32(RestSum(p)) != 0xFFFF_FFFF
  {
    hide Be16, Be32, Checksum, Pseudo, Low16, TcpHeaderOf, TcpHead, TcpTail, WordSum, Wrap32, Inverted;
    var src, dst, h := p.src.value, p.dst.value, TcpHeaderOf(p);
    var head, tail := TcpHead(h), TcpTail(h, p.payload);
    TailSize(h, p.payload);
    var pseudo := Pseudo(src, dst, 20 + |p.payload|);
    Assoc(pseudo, head, Be16(0) + tail);
    Assoc(pseudo, head, Be16(Inverted(OriginalChecksum(p))) + tail);
    FlippedVerifies(pseudo + head, tail);
  }

  /** Without its checksum word a segment within the bound cannot sum to all ones. */
  lemma NeverAllOnes(p: Params)
    requires p.src.Some? && p.dst.Some? && |p.payload| <= 131042
    ensures Wrap32(RestSum(p)) != 0xFFFF_FFFF
  {
    hide Be16, Be32, TcpHead, Pseudo, TcpTail, WordSum;
    var h := TcpHeaderOf(p);
    var a, c := Pseudo(p.src.value, p.dst.value, 20 + |p.payload|) + TcpHead(h), TcpTail(h, p.payload);
    TailSize(h, p.payload);
    WordSumBound(a);
    WordSumBound(c);
  }

  // ---- a packet whose inverted checksum is right ----

  const ZERO_ADDRESS: Quad := [0, 0, 0, 0]

  /** Two zero bytes between zero addresses, from port 0xAFCB, with PSH and ACK set. */
  predicate Unlucky(p: Params)
  {
    && p.src == p.dst == Some(ZERO_ADDRESS) && p.srcPort == 0xAFCB && p.dstPort == 0
    && p.seqNum == 0 && p.ackNum == 0 && p.flags == 0x18 && p.window == 0 && p.payload == [0, 0]
  }

  lemma PseudoSum()
    ensures WordSum(Pseudo(ZERO_ADDRESS, ZERO_ADDRESS, 22)) == 0x1C
  {
    hide Be16;
    var b: bytes := [0, 0, 0, 0, 0, 0, 0, 0, 0, TCP];
    var w: bytes := [0, TCP];
    assert Pseudo(ZERO_ADDRESS, ZERO_ADDRESS, 22) == b + Be16(22);
    WordSumAppend(b, Be16(22));
    WordSumOfWord(22);
    ZeroSum(4);
    WordSumAppend(Zeros(8), w);
    assert b == Zeros(8) + w;
    assert WordSum(w) == TCP by { assert w[2..] == []; }
    assert Low16(22) == 22;
  }

  lemma {:induction false} ZeroSum(n: nat)
    ensures WordSum(Zeros(2 * n)) == 0
  {
    if n > 0 {
      assert Zeros(2 * n)[2..] == Zeros(2 * (n - 1));
      ZeroSum(n - 1);
    }
  }

  /** Its checksum is zero, so the inverted one verifies as well. */
  lemma FlippedCanVerify(p: Params, randomTtl: u8, id: u16)
    requires Unlucky(p)
    ensures OriginalChecksum(p) == 0
    ensures var packet := Flipped(Crafted(p, randomTtl, id));
            |packet| == 42 && TcpVerifies(packet)
  {
    hide Flipped, Crafted, WordSum, Checksum, RestSum, OriginalChecksum, TcpVerifies;
    UnluckySum(p);
    OriginalBySum(p);
    FlippedFails(p, randomTtl, id);
  }

  lemma UnluckySum(p: Params)
    requires Unlucky(p)
    ensures RestSum(p) == 0x1_FFFE
  {
    hide Be16, Pseudo, WordSum, TcpHead;
    var h := TcpHeaderOf(p);
    var pseudo := Pseudo(ZERO_ADDRESS, ZERO_ADDRESS, 22);
    PseudoSum();
    WordSumAppend(pseudo, TcpHead(h));
    HeadSum(h);
    WordSumAppend(Be16(0), p.payload);
    WordSumOfWord(0);
    assert WordSum(p.payload) == 0 by { ZeroSum(1); assert Zeros(2) == [0, 0]; }
  }

  lemma HeadSum(h: TcpHeader)
    requires h.seqNum == 0 && h.ackNum == 0
    ensures WordSum(TcpHead(h)) == h.srcPort + h.dstPort + Word(h.dataOffset, h.flags) + h.window
  {
    hide Be16, WordSum;
    var z := Be16(0);
    assert Be32(0) == z + z;
    var b := Be16(h.srcPort) + Be16(h.dstPort);
    WordSumAppend(Be16(h.srcPort), Be16(h.dstPort));
    WordSumOfWord(h.srcPort);
    WordSumOfWord(h.dstPort);
    WordSumAppend(z, z);
    WordSumOfWord(0);
    WordSumAppend(b, z + z);
    WordSumAppend(b + (z + z), z + z);
    var c := b + (z + z) + (z + z);
    WordSumAppend(c, [h.dataOffset, h.flags]);
    WordInverse(h.dataOffset, h.flags);
    WordSumOfWord(Word(h.dataOffset, h.flags));
    WordSumAppend(c + [h.dataOffset, h.flags], Be16(h.window));
    WordSumOfWord(h.window);
  }

  lemma OriginalBySum(p: Params)
    requires p.src.Some? && p.dst.Some?
    ensures OriginalChecksum(p) == Inverted(Folded(Wrap32(RestSum(p))))
  {
    hide Be16, Be32, Checksum, Pseudo, Low16, TcpHead, TcpTail, WordSum, Wrap32, Inverted, Folded, TcpHeaderOf;
    var h := TcpHeaderOf(p);
    var pseudo, head, tail := Pseudo(p.src.value, p.dst.value, 20 + |p.payload|), TcpHead(h), TcpTail(h, p.payload);
    TailSize(h, p.payload);
    Assoc(pseudo, head, Be16(0) + tail);
    FieldChecksum(pseudo + head, 0, tail);
  }
}
