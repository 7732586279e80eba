/**
 Injected payloads below the real stream: internal/bypass/fragment.go in full, and the single
 segments of internal/bypass/wrongseq.go and internal/bypass/desync.go that share its base.
 Sequence numbers are 32-bit and wrap (section 3.4 of RFC 9293).
 */
module Segments {
  import opened Bytes
  import opened Packet
  import opened Seqs

  const ACK: u8 := 0x10
  const PSH_ACK: u8 := 0x18

  datatype Segment = Segment(seqNum: u32, ackNum: u32, flags: u8, payload: bytes)

  // ---- cutting the payload ----

  function SniSplitPoint(data: bytes): nat { if |data| < 10 then |data| / 2 else 1 }

  /** The fragment size used for a payload; 0 only for a payload of one byte. */
  function FragmentSize(payload: bytes, wanted: int): nat
  {
    var f := if wanted <= 0 then SniSplitPoint(payload) else wanted;
    if f <= 0 || f >= |payload| then |payload| / 2 else f
  }

  function Chunks(data: bytes, size: nat): seq<bytes>
    requires size > 0
  {
    if data == [] then [] else
    if size >= |data| then [data] else [data[..size]] + Chunks(data[size..], size)
  }

  method ChunkBytes(data: bytes, size: int) returns (out: seq<bytes>)
    ensures out == if size <= 0 then [data] else Chunks(data, size)
  {
    if size <= 0 { return [data]; }
    out := [];
    var rest := data;
    while |rest| > 0
      invariant out + Chunks(rest, size) == Chunks(data, size)
      decreases |rest|
    {
      var n := size;
      if n > |rest| { n := |rest|; }
      ghost var tail := Chunks(rest[n..], size);
      assert Chunks(rest, size) == [rest[..n]] + tail by {
        if n == |rest| { assert rest[..n] == rest && rest[n..] == []; }
      }
      out := out + [rest[..n]];
      rest := rest[n..];
    }
  }

  /** The chunks are nonempty, at most `size` long, all but the last exactly so, and make up the data. */
  lemma {:induction false} ChunksPartition(data: bytes, size: nat)
    requires size > 0
    ensures Flat(Chunks(data, size)) == data
    ensures forall i :: 0 <= i < |Chunks(data, size)| ==> 0 < |Chunks(data, size)[i]| <= size
    ensures forall i :: 0 <= i < |Chunks(data, size)| - 1 ==> |Chunks(data, size)[i]| == size
  {
    if data == [] {
    } else if size >= |data| {
      FlatCons(data, []);
      assert [data] + [] == [data];
    } else {
      ChunksPartition(data[size..], size);
      FlatCons(data[..size], Chunks(data[size..], size));
      SplitAt(data, size);
    }
  }

  /** What Inject sends the payload as. */
  function Fragments(payload: bytes, wanted: int): seq<bytes>
  {
    var f := FragmentSize(payload, wanted);
    if f <= 0 then [payload] else Chunks(payload, f)
  }

  lemma FragmentsPartition(payload: bytes, wanted: int)
    requires payload != []
    ensures var cs := Fragments(payload, wanted);
            cs != [] && Flat(cs) == payload && forall i :: 0 <= i < |cs| ==> |cs[i]| > 0
  {
    var f := FragmentSize(payload, wanted);
    if f > 0 {
      ChunksPartition(payload, f);
    } else {
      FlatCons(payload, []);
      assert [payload] + [] == [payload];
    }
  }

  /**
   The cut in numbers: pieces of the wanted size if that is below the payload's, else single bytes
   when no size is asked for a payload of ten bytes or more, else halves; a lone byte stays whole.
   */
  lemma FragmentsInNumbers(payload: bytes, wanted: int)
    requires payload != []
    ensures var n, cs := |payload|, Fragments(payload, wanted);
            var size := if 1 <= wanted < n then wanted else if wanted <= 0 && n >= 10 then 1 else n / 2;
            && cs != [] && Flat(cs) == payload
            && (forall i :: 0 <= i < |cs| - 1 ==> |cs[i]| == size)
            && 0 < |cs[|cs| - 1]| <= (if n == 1 then 1 else size)
  {
    hide Flat, Chunks;
    FragmentsPartition(payload, wanted);
    var f := FragmentSize(payload, wanted);
    if f > 0 { ChunksPartition(payload, f); }
  }

  // ---- the segments ----

  /** The first sequence number: the payload ends where the real stream starts. */
  function BaseSeq(synSeq: u32, length: nat): u32 { Wrap32(synSeq + 1 - Wrap32(length)) }

  /** All segments of a cut payload. */
  function Planned(chunks: seq<bytes>, base: u32, ack: u32): (r: seq<Segment>)
    ensures |r| == |chunks|
  {
    seq(|chunks|, i requires 0 <= i < |chunks| =>
      Segment(Wrap32(base + |Flat(chunks[..i])|), ack, if i == |chunks| - 1 then PSH_ACK else ACK, chunks[i]))
  }

  // ---- the packets that carry them ----

  /** Where injected packets claim to come from and go to; To4 gives None for other addresses. */
  datatype Flow = Flow(src: Option<Quad>, dst: Option<Quad>, srcPort: u16, dstPort: u16)
  {
    predicate Ipv4() { src.Some? && dst.Some? }
  }

  /** The draws that go into one packet: the asked TTL (0 for none), the one used then, and the id. */
  datatype Luck = Luck(ttl: u8, randomTtl: u8, id: u16)

  function ParamsOf(flow: Flow, s: Segment, ttl: u8): Params
  {
    Params(flow.src, flow.dst, flow.srcPort, flow.dstPort, s.seqNum, s.ackNum, s.flags, ttl, 0, s.payload)
  }

  function OnWire(flow: Flow, s: Segment, luck: Luck): bytes
    requires flow.Ipv4()
  {
    Crafted(ParamsOf(flow, s, luck.ttl), luck.randomTtl, luck.id)
  }

  function AllOnWire(flow: Flow, plan: seq<Segment>, luck: nat -> Luck): (packets: seq<bytes>)
    requires flow.Ipv4()
    ensures |packets| == |plan|
  {
    seq(|plan|, i requires 0 <= i < |plan| => OnWire(flow, plan[i], luck(i)))
  }

  /** A packet between the flow's ends that shows this segment and this TTL. */
  ghost predicate Shows(packet: bytes, flow: Flow, s: Segment, ttl: u8)
    requires flow.Ipv4()
  {
    && |packet| == 40 + |s.payload| && packet[8] == ttl && packet[9] == 6
    && packet[12..16] == flow.src.value && packet[16..20] == flow.dst.value
    && U16At(packet, 20) == flow.srcPort && U16At(packet, 22) == flow.dstPort
    && U32At(packet, 24) == s.seqNum && U32At(packet, 28) == s.ackNum && packet[33] == s.flags
    && packet[40..] == s.payload
  }

  /** What goes on the wire shows its segment, and verifies at both levels. */
  lemma PacketCarriesSegment(flow: Flow, s: Segment, luck: Luck)
    requires flow.Ipv4()
    ensures var packet := OnWire(flow, s, luck);
            && Shows(packet, flow, s, if luck.ttl == 0 then luck.randomTtl else luck.ttl)
            && IpVerifies(packet) && TcpVerifies(packet)
            && (|s.payload| <= 65495 ==> ValidPacket(packet))
  {
    hide Crafted, IpVerifies, TcpVerifies, U16At, U32At, OriginalChecksum, ValidPacket;
    var p := ParamsOf(flow, s, luck.ttl);
    CraftedVerifies(p, luck.randomTtl, luck.id);
    CraftedFields(p, luck.randomTtl, luck.id);
    if |s.payload| <= 65495 { CraftedIsValid(p, luck.randomTtl, luck.id); }
  }

  /** How sending one packet ends. */
  datatype Fate = Sent | Cancelled | SendFailed

  datatype Stats = Stats(ok: nat, fail: nat)

  class Counters {
    var stats: Stats

    constructor ()
      ensures stats == Stats(0, 0)
    {
      stats := Stats(0, 0);
    }

    method Ok()
      modifies this
      ensures stats == old(stats).(ok := old(stats).ok + 1)
    {
      stats := stats.(ok := stats.ok + 1);
    }

    method Fail()
      modifies this
      ensures stats == old(stats).(fail := old(stats).fail + 1)
    {
      stats := stats.(fail := stats.fail + 1);
    }
  }

  /**
   FragmentBypass.Inject. `early` says the context ended during the initial delay, `fate` how each
   fragment's sending ends. The packets sent carry the plan up to the first fragment that is not
   sent, or nothing when there is no IPv4 packet to send; success means all of it. An empty payload
   is the one failure that is not counted.
   */
  method InjectFragments(counters: Counters, flow: Flow, payload: bytes, wanted: int, synSeq: u32, synAckSeq: u32,
                         early: bool, fate: nat -> Fate, luck: nat -> Luck) returns (packets: seq<bytes>, ok: bool)
    modifies counters
    ensures var plan := Planned(Fragments(payload, wanted), BaseSeq(synSeq, |payload|), Wrap32(synAckSeq + 1));
            && |packets| <= |plan|
            && (packets != [] ==> flow.Ipv4() && packets == AllOnWire(flow, plan[..|packets|], luck))
            && (forall i :: 0 <= i < |packets| ==> fate(i) == Sent)
            && (ok <==> payload != [] && |packets| == |plan|)
            && (!ok && payload != [] && !early && flow.Ipv4() ==> fate(|packets|) != Sent)
            && (early || !flow.Ipv4() ==> packets == [])
    ensures counters.stats == if payload == [] then old(counters.stats)
                              else if ok then old(counters.stats).(ok := old(counters.stats).ok + 1)
                              else old(counters.stats).(fail := old(counters.stats).fail + 1)
  {
    hide Wrap32, Chunks, Flat, Crafted, Carries, OriginalChecksum, Planned, AllOnWire;
    packets := [];
    if |payload| == 0 { EmptyPlan(wanted); return packets, false; }
    FragmentsPartition(payload, wanted);
    var fragSize: int := wanted;
    if fragSize <= 0 { fragSize := SniSplitPoint(payload); }
    if fragSize <= 0 || fragSize >= |payload| { fragSize := |payload| / 2; }
    if early { counters.Fail(); return packets, false; }
    var cur := BaseSeq(synSeq, |payload|);
    ghost var base := cur;
    var frags := ChunkBytes(payload, fragSize);
    ghost var plan := Planned(frags, base, Wrap32(synAckSeq + 1));
    FirstCur(frags, base);
    for i := 0 to |frags|
      invariant counters.stats == old(counters.stats)
      invariant |packets| == i && cur == Wrap32(base + |Flat(frags[..i])|)
      invariant i > 0 ==> flow.Ipv4()
      invariant flow.Ipv4() ==> packets == AllOnWire(flow, plan[..i], luck)
      invariant forall j :: 0 <= j < i ==> fate(j) == Sent
    {
      if fate(i) == Cancelled { counters.Fail(); return packets, false; }
      var flags := if i == |frags| - 1 then PSH_ACK else ACK;
      var s := Segment(cur, Wrap32(synAckSeq + 1), flags, frags[i]);
      var packet := CraftPacket(ParamsOf(flow, s, luck(i).ttl), luck(i).randomTtl, luck(i).id);
      if packet.None? { counters.Fail(); return packets, false; }
      if fate(i) == SendFailed { counters.Fail(); return packets, false; }
      PlannedAt(frags, base, Wrap32(synAckSeq + 1), i);
      assert plan[..i + 1] == plan[..i] + [s];
      WireSnoc(flow, plan[..i], s, luck);
      packets := packets + [packet.value];
      NextCur(frags, base, i);
      cur := Wrap32(cur + Wrap32(|frags[i]|));
    }
    assert plan[..|plan|] == plan;
    counters.Ok();
    return packets, true;
  }

  lemma PlannedAt(chunks: seq<bytes>, base: u32, ack: u32, i: nat)
    requires i < |chunks|
    ensures Planned(chunks, base, ack)[i]
         == Segment(Wrap32(base + |Flat(chunks[..i])|), ack, if i == |chunks| - 1 then PSH_ACK else ACK, chunks[i])
  {
    hide Wrap32, Flat;
  }

  lemma EmptyPlan(wanted: int)
    ensures |Fragments([], wanted)| == 1
  {
  }

  lemma WireSnoc(flow: Flow, plan: seq<Segment>, s: Segment, luck: nat -> Luck)
    requires flow.Ipv4()
    ensures AllOnWire(flow, plan + [s], luck) == AllOnWire(flow, plan, luck) + [OnWire(flow, s, luck(|plan|))]
  {
    hide OnWire;
  }

  lemma FirstCur(chunks: seq<bytes>, base: u32)
    ensures Wrap32(base + |Flat(chunks[..0])|) == base
  {
  }

  lemma NextCur(chunks: seq<bytes>, base: u32, i: nat)
    requires i < |chunks|
    ensures Wrap32(Wrap32(base + |Flat(chunks[..i])|) + Wrap32(|chunks[i]|)) == Wrap32(base + |Flat(chunks[..i + 1])|)
  {
    hide Flat, Wrap32;
    assert chunks[..i + 1] == chunks[..i] + [chunks[i]];
    FlatSnoc(chunks[..i], chunks[i]);
    WrapPlus(base + |Flat(chunks[..i])|, |chunks[i]|);
  }

  // ---- where the bytes lie ----

  /** The sequence number of the k-th byte of a segment. */
  function ByteSeq(s: Segment, k: nat): u32 { Wrap32(s.seqNum + k) }

  predicate InWindow(x: u32, start: u32, window: nat) { Wrap32(x - start) < window }

  /** The planned segments are contiguous modulo 2^32, from synSeq + 1 - N up to synSeq + 1. */
  lemma PlanIsContiguous(chunks: seq<bytes>, synSeq: u32, ack: u32, i: nat)
    requires i < |chunks|
    ensures var plan := Planned(chunks, BaseSeq(synSeq, |Flat(chunks)|), ack);
            && plan[0].seqNum == Wrap32(synSeq + 1 - |Flat(chunks)|)
            && Wrap32(plan[i].seqNum + |plan[i].payload|)
               == (if i + 1 < |plan| then plan[i + 1].seqNum else Wrap32(synSeq + 1))
            && plan[i].flags == (if i == |plan| - 1 then 0x18 else 0x10) && plan[i].ackNum == ack
  {
    hide Flat, Wrap32;
    var n := |Flat(chunks)|;
    var base := BaseSeq(synSeq, n);
    BaseIsBelow(synSeq, n);
    FirstCur(chunks, base);
    NextCur(chunks, base, i);
    WrapPlus(base + |Flat(chunks[..i])|, |chunks[i]|);
    assert chunks[..|chunks|] == chunks;
  }

  lemma WrapPlus(a: int, b: int)
    ensures Wrap32(Wrap32(a) + b) == Wrap32(a + b) && Wrap32(Wrap32(a) + Wrap32(b)) == Wrap32(a + b)
  {
  }

  lemma BaseIsBelow(synSeq: u32, n: nat)
    ensures BaseSeq(synSeq, n) == Wrap32(synSeq + 1 - n) && Wrap32(BaseSeq(synSeq, n) + n) == Wrap32(synSeq + 1)
  {
    var q := n / 0x1_0000_0000;
    assert Wrap32(n) == n - 0x1_0000_0000 * q;
    Shift(synSeq + 1 - n, q);
    hide Wrap32;
    WrapPlus(synSeq + 1 - n, n);
  }

  /** Byte `offset` of the payload, and how far it is ahead of the window start on the 32-bit circle. */
  lemma ByteDistance(synSeq: u32, n: nat, offset: nat)
    requires offset < n <= 0x1_0000_0000
    ensures Wrap32(Wrap32(BaseSeq(synSeq, n) + offset) - Wrap32(synSeq + 1)) == 0x1_0000_0000 - n + offset
  {
    BaseIsBelow(synSeq, n);
    WrapDifference(synSeq + 1 - n, offset, synSeq + 1);
    Shift(offset - n, 1);
    WrapSmall(0x1_0000_0000 - n + offset);
  }

  lemma WrapSmall(x: int)
    requires 0 <= x < 0x1_0000_0000
    ensures Wrap32(x) == x
  {
  }

  lemma WrapDifference(a: int, offset: int, b: int)
    ensures Wrap32(Wrap32(Wrap32(a) + offset) - Wrap32(b)) == Wrap32(a + offset - b)
  {
    var p, q := a / 0x1_0000_0000, b / 0x1_0000_0000;
    assert Wrap32(a) == a - 0x1_0000_0000 * p && Wrap32(b) == b - 0x1_0000_0000 * q;
    var r := (Wrap32(a) + offset) / 0x1_0000_0000;
    assert Wrap32(Wrap32(a) + offset) == Wrap32(a) + offset - 0x1_0000_0000 * r;
    Shift(a + offset - b, q - p - r);
  }

  lemma Shift(x: int, k: int)
    ensures Wrap32(x + 0x1_0000_0000 * k) == Wrap32(x)
  {
    var q, r := x / 0x1_0000_0000, x % 0x1_0000_0000;
    assert x + 0x1_0000_0000 * k == 0x1_0000_0000 * (q + k) + r;
  }

  /**
   No byte of any planned segment lies in the receive window [synSeq + 1, synSeq + 1 + window), also
   across wraparound, exactly when payload and window together fit the sequence space.
   */
  lemma OutsideWindowIff(payload: bytes, wanted: int, synSeq: u32, ack: u32, window: nat)
    requires 1 <= |payload| <= 0x1_0000_0000 && 1 <= window <= 0x1_0000_0000
    ensures var plan := Planned(Fragments(payload, wanted), BaseSeq(synSeq, |payload|), ack);
            (forall i, k :: 0 <= i < |plan| && 0 <= k < |plan[i].payload| ==>
               !InWindow(ByteSeq(plan[i], k), Wrap32(synSeq + 1), window))
            <==> |payload| + window <= 0x1_0000_0000
  {
    hide Fragments, Wrap32, Flat;
    FragmentsPartition(payload, wanted);
    var chunks := Fragments(payload, wanted);
    var n := |payload|;
    var base := BaseSeq(synSeq, n);
    var plan := Planned(chunks, base, ack);
    forall i, k | 0 <= i < |plan| && 0 <= k < |plan[i].payload|
      ensures Wrap32(ByteSeq(plan[i], k) - Wrap32(synSeq + 1)) == 0x1_0000_0000 - n + (|Flat(chunks[..i])| + k)
    {
      FlatGrows(chunks, i);
      WrapPlus(base + |Flat(chunks[..i])|, k);
      ByteDistance(synSeq, n, |Flat(chunks[..i])| + k);
    }
    assert |Flat(chunks[..0])| == 0 by { EmptyFlat(); }
    assert |plan[0].payload| > 0;
    assert InWindow(ByteSeq(plan[0], 0), Wrap32(synSeq + 1), window) <==> 0x1_0000_0000 - n < window;
  }

  lemma EmptyFlat()
    ensures Flat<u8>([]) == []
  {
  }

  // ---- the single segments ----

  /** The fake hello of wrong_seq and of the TTL-limited desync: one segment at the same base. */
  function Single(payload: bytes, synSeq: u32, ack: u32): Segment
  {
    Segment(BaseSeq(synSeq, |payload|), ack, PSH_ACK, payload)
  }

  /** It too ends at synSeq + 1 and stays outside the window exactly under the same bound. */
  lemma SingleOutsideWindowIff(payload: bytes, synSeq: u32, ack: u32, window: nat)
    requires 1 <= |payload| <= 0x1_0000_0000 && 1 <= window <= 0x1_0000_0000
    ensures var s := Single(payload, synSeq, ack);
            && Wrap32(s.seqNum + |payload|) == Wrap32(synSeq + 1)
            && ((forall k :: 0 <= k < |payload| ==> !InWindow(ByteSeq(s, k), Wrap32(synSeq + 1), window))
                <==> |payload| + window <= 0x1_0000_0000)
  {
    hide Wrap32;
    BaseIsBelow(synSeq, |payload|);
    var s := Single(payload, synSeq, ack);
    forall k | 0 <= k < |payload|
      ensures Wrap32(ByteSeq(s, k) - Wrap32(synSeq + 1)) == 0x1_0000_0000 - |payload| + k
    {
      ByteDistance(synSeq, |payload|, k);
    }
    assert InWindow(ByteSeq(s, 0), Wrap32(synSeq + 1), window) <==> 0x1_0000_0000 - |payload| < window;
  }

  ghost predicate CountedOnce(before: Stats, after: Stats, ok: bool)
  {
    after == if ok then before.(ok := before.ok + 1) else before.(fail := before.fail + 1)
  }

  /**
   WrongSeqBypass.Inject: `hello` is None when building it fails, `waiting` and `late` say whether the
   context ends during the delay (if there is one) and just after it.
   */
  method InjectWrongSeq(counters: Counters, flow: Flow, hello: Option<bytes>, synSeq: u32, delay: int,
                        waiting: bool, late: bool, sendFails: bool, luck: Luck)
    returns (sent: Option<bytes>, ok: bool)
    modifies counters
    ensures CountedOnce(old(counters.stats), counters.stats, ok)
    ensures ok <==> hello.Some? && !(delay > 0 && waiting) && !late && flow.Ipv4() && !sendFails
    ensures sent == if ok then Some(OnWire(flow, Single(hello.value, synSeq, 0), luck)) else None
  {
    hide Crafted, Carries, OriginalChecksum;
    if hello.None? { counters.Fail(); return None, false; }
    if delay > 0 {
      if waiting { counters.Fail(); return None, false; }
    }
    if late { counters.Fail(); return None, false; }
    var fakeSeq := Wrap32(synSeq + 1 - Wrap32(|hello.value|));
    var s := Segment(fakeSeq, 0, PSH_ACK, hello.value);
    var packet := CraftPacket(ParamsOf(flow, s, luck.ttl), luck.randomTtl, luck.id);
    if packet.None? { counters.Fail(); return None, false; }
    if sendFails { counters.Fail(); return None, false; }
    counters.Ok();
    return packet, true;
  }

  /** The packet of wrong_seq: flags 0x18, acknowledgement 0, and the hello ending where the window starts. */
  lemma WrongSeqPacket(flow: Flow, hello: bytes, synSeq: u32, luck: Luck)
    requires flow.Ipv4()
    ensures var packet := OnWire(flow, Single(hello, synSeq, 0), luck);
            && |packet| == 40 + |hello| && packet[33] == 0x18 && U32At(packet, 28) == 0 && packet[40..] == hello
            && (U32At(packet, 24) + |hello| - synSeq - 1) % 0x1_0000_0000 == 0
            && IpVerifies(packet) && TcpVerifies(packet)
  {
    hide OnWire, U16At, U32At, ValidPacket, IpVerifies, TcpVerifies, Wrap32;
    var s := Single(hello, synSeq, 0);
    PacketCarriesSegment(flow, s, luck);
    BaseIsBelow(synSeq, |hello|);
    WrapInverse(s.seqNum + |hello|, synSeq + 1);
  }

  const RST: u8 := 0x04

  datatype Method = BadChecksum | Reset | TtlLimited | Other

  /** The one segment of a desync method; an unknown method is a bad checksum. */
  function DesyncSegment(m: Method, payload: bytes, synSeq: u32, synAckSeq: u32): Segment
  {
    match m
    case Reset => Segment(Wrap32(synSeq + 1 - 65536), 0, RST, [])
    case TtlLimited => Single(payload, synSeq, Wrap32(synAckSeq + 1))
    case _ => Segment(Wrap32(synSeq + 1), Wrap32(synAckSeq + 1), PSH_ACK, payload)
  }

  /** And the packet that carries it: one hop to live, or an inverted checksum. */
  function DesyncPacket(flow: Flow, m: Method, payload: bytes, synSeq: u32, synAckSeq: u32, luck: Luck): bytes
    requires flow.Ipv4()
  {
    var s := DesyncSegment(m, payload, synSeq, synAckSeq);
    match m
    case Reset => OnWire(flow, s, luck)
    case TtlLimited => OnWire(flow, s, luck.(ttl := 1))
    case _ => Flipped(OnWire(flow, s, luck))
  }

  method CraftDesync(flow: Flow, m: Method, payload: bytes, synSeq: u32, synAckSeq: u32, luck: Luck)
    returns (packet: Option<bytes>)
    ensures packet == if flow.Ipv4() then Some(DesyncPacket(flow, m, payload, synSeq, synAckSeq, luck)) else None
  {
    hide Crafted, Flipped, Carries, OriginalChecksum;
    match m {
      case Reset =>
        var s := Segment(Wrap32(synSeq + 1 - 65536), 0, RST, []);
        packet := CraftPacket(ParamsOf(flow, s, luck.ttl), luck.randomTtl, luck.id);
      case TtlLimited =>
        var s := Segment(Wrap32(synSeq + 1 - Wrap32(|payload|)), Wrap32(synAckSeq + 1), PSH_ACK, payload);
        packet := CraftPacket(ParamsOf(flow, s, 1), luck.randomTtl, luck.id);
      case _ =>
        var s := Segment(Wrap32(synSeq + 1), Wrap32(synAckSeq + 1), PSH_ACK, payload);
        packet := CraftPacket(ParamsOf(flow, s, luck.ttl), luck.randomTtl, luck.id);
        if packet.Some? {
          var pkt := new u8[|packet.value|](i requires 0 <= i < |packet.value| => packet.value[i]);
          assert pkt[..] == packet.value;
          FlipChecksum(pkt);
          packet := Some(pkt[..]);
        }
    }
  }

  method InjectDesync(counters: Counters, flow: Flow, m: Method, payload: bytes, synSeq: u32, synAckSeq: u32,
                      waiting: bool, late: bool, sendFails: bool, luck: Luck)
    returns (sent: Option<bytes>, ok: bool)
    modifies counters
    ensures CountedOnce(old(counters.stats), counters.stats, ok)
    ensures ok <==> !waiting && !late && flow.Ipv4() && !sendFails
    ensures sent == if ok then Some(DesyncPacket(flow, m, payload, synSeq, synAckSeq, luck)) else None
  {
    hide DesyncPacket;
    if waiting { counters.Fail(); return None, false; }
    if late { counters.Fail(); return None, false; }
    var packet := CraftDesync(flow, m, payload, synSeq, synAckSeq, luck);
    if packet.None? || sendFails { counters.Fail(); return None, false; }
    counters.Ok();
    return packet, true;
  }

  /** The reset: below the window by 65535, without payload, RST (4) alone, and valid. */
  lemma ResetPacket(flow: Flow, payload: bytes, synSeq: u32, synAckSeq: u32, luck: Luck)
    requires flow.Ipv4()
    ensures var packet := DesyncPacket(flow, Reset, payload, synSeq, synAckSeq, luck);
            && |packet| == 40 && packet[33] == 4 && U32At(packet, 28) == 0
            && (U32At(packet, 24) + 65535 - synSeq) % 0x1_0000_0000 == 0
            && ValidPacket(packet)
  {
    hide OnWire, U16At, U32At, ValidPacket, IpVerifies, TcpVerifies;
    PacketCarriesSegment(flow, DesyncSegment(Reset, payload, synSeq, synAckSeq), luck);
  }

  /** The TTL-limited packet lives for one hop, whatever is drawn, and carries the payload up to the window. */
  lemma TtlLimitedPacket(flow: Flow, payload: bytes, synSeq: u32, synAckSeq: u32, luck: Luck)
    requires flow.Ipv4()
    ensures var packet := DesyncPacket(flow, TtlLimited, payload, synSeq, synAckSeq, luck);
            && |packet| == 40 + |payload| && packet[8] == 1 && packet[33] == 0x18 && packet[40..] == payload
            && (U32At(packet, 24) + |payload| - synSeq - 1) % 0x1_0000_0000 == 0
            && (U32At(packet, 28) - synAckSeq - 1) % 0x1_0000_0000 == 0
            && IpVerifies(packet) && TcpVerifies(packet)
  {
    hide OnWire, U16At, U32At, ValidPacket, IpVerifies, TcpVerifies, Wrap32;
    var s := DesyncSegment(TtlLimited, payload, synSeq, synAckSeq);
    PacketCarriesSegment(flow, s, luck.(ttl := 1));
    BaseIsBelow(synSeq, |payload|);
    WrapInverse(s.seqNum + |payload|, synSeq + 1);
    WrapIsCongruent(synAckSeq + 1);
  }

  lemma WrapIsCongruent(a: int)
    ensures (Wrap32(a) - a) % 0x1_0000_0000 == 0
  {
  }

  lemma WrapInverse(a: int, b: int)
    requires Wrap32(a) == Wrap32(b)
    ensures (a - b) % 0x1_0000_0000 == 0
  {
  }

  /**
   The bad-checksum packet, end to end: its bytes start on the first byte of the window, and a
   receiver that checks drops it exactly unless the right checksum was 0x0000 (or over 131042 bytes
   of payload make the 32-bit sum all ones).
   */
  lemma BadChecksumPacket(flow: Flow, m: Method, payload: bytes, synSeq: u32, synAckSeq: u32, luck: Luck,
                          window: nat, k: nat)
    requires flow.Ipv4() && (m.BadChecksum? || m.Other?) && k < |payload| && k < 0x1_0000_0000
    ensures var packet := DesyncPacket(flow, m, payload, synSeq, synAckSeq, luck);
            var p := ParamsOf(flow, DesyncSegment(m, payload, synSeq, synAckSeq), luck.ttl);
            && Shows(packet, flow, DesyncSegment(m, payload, synSeq, synAckSeq),
                     if luck.ttl == 0 then luck.randomTtl else luck.ttl)
            && packet[33] == 0x18 && packet[40..] == payload && U32At(packet, 24) == (synSeq + 1) % 0x1_0000_0000
            && IpVerifies(packet)
            && (InWindow(Wrap32(U32At(packet, 24) + k), Wrap32(synSeq + 1), window) <==> k < window)
            && (TcpVerifies(packet) <==> OriginalChecksum(p) == 0 && Wrap32(RestSum(p)) != 0xFFFF_FFFF)
  {
    hide Crafted, IpVerifies, TcpVerifies, OriginalChecksum, RestSum, InWindow, U16At, U32At;
    var s := DesyncSegment(m, payload, synSeq, synAckSeq);
    var p := ParamsOf(flow, s, luck.ttl);
    FlippedFails(p, luck.randomTtl, luck.id);
    CraftedFields(p, luck.randomTtl, luck.id);
    FlippedShows(flow, s, luck);
    FirstOfWindow(synSeq, window, k);
  }

  /** Inverting bytes 36 and 37 touches no field but the checksum. */
  lemma FlippedShows(flow: Flow, s: Segment, luck: Luck)
    requires flow.Ipv4()
    ensures Shows(Flipped(OnWire(flow, s, luck)), flow, s, if luck.ttl == 0 then luck.randomTtl else luck.ttl)
  {
    hide OnWire, IpVerifies, TcpVerifies, ValidPacket;
    PacketCarriesSegment(flow, s, luck);
    var packet := OnWire(flow, s, luck);
    var flipped := Flipped(packet);
    assert flipped[..36] == packet[..36] && flipped[38..] == packet[38..];
    assert flipped[40..] == packet[40..];
    assert flipped[12..16] == packet[12..16] && flipped[16..20] == packet[16..20];
  }

  lemma FirstOfWindow(synSeq: u32, window: nat, k: nat)
    requires k < 0x1_0000_0000
    ensures InWindow(Wrap32(Wrap32(synSeq + 1) + k), Wrap32(synSeq + 1), window) <==> k < window
  {
    WrapDifference(synSeq + 1, k, synSeq + 1);
  }

  /** There is a connection on which the injected bytes pass as valid, whatever is drawn. */
  lemma BadChecksumCanVerify() returns (flow: Flow, payload: bytes, synSeq: u32, synAckSeq: u32)
    ensures flow.Ipv4() && payload != []
    ensures forall luck :: var packet := DesyncPacket(flow, BadChecksum, payload, synSeq, synAckSeq, luck);
              |packet| == 42 && TcpVerifies(packet)
  {
    hide Crafted, Flipped, TcpVerifies, OriginalChecksum;
    flow, payload := Flow(Some(ZERO_ADDRESS), Some(ZERO_ADDRESS), 0xAFCB, 0), [0, 0];
    synSeq, synAckSeq := 0xFFFF_FFFF, 0xFFFF_FFFF;
    var s := DesyncSegment(BadChecksum, payload, synSeq, synAckSeq);
    forall luck: Luck
      ensures var packet := DesyncPacket(flow, BadChecksum, payload, synSeq, synAckSeq, luck);
              |packet| == 42 && TcpVerifies(packet)
    {
      FlippedCanVerify(ParamsOf(flow, s, luck.ttl), luck.randomTtl, luck.id);
    }
  }
}
