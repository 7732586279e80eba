/**
 internal/proxy/relay.go: the second SNI reader, the peek that feeds it from a connection, and the
 copy loop that forwards the client's bytes.
 */
module Relay {
  import opened Bytes
  import opened Seqs
  import opened Wire
  import opened Sni

  // ---- parseSNI ----

  /** The length field of a complete-enough handshake record. */
  function RecordLength(data: bytes): nat
    requires |data| >= 5
  {
    Word(data[3], data[4])
  }

  /** A handshake record longer than the 16384 bytes section 5.1 of RFC 8446 allows. */
  predicate Oversized(data: bytes)
  {
    |data| >= 5 && data[0] == 0x16 && RecordLength(data) > 16384
  }

  /** parseSNI in terms of the locator: it gives up on oversized records and ignores the name_type. */
  function Parse(data: bytes): Answer
  {
    if Oversized(data) then Answer([], |data| >= 5 + RecordLength(data)) else
    match Locate(data)
    case NeedMore => Answer([], false)
    case Absent => Answer([], true)
    case Found(body) => Answer(AnyName(body), true)
  }

  // parseSNI is one Go function; here it is cut at the hello and at the extension block.

  method ParseBlock(block: bytes) returns (sni: bytes)
    ensures sni == match LocateInBlock(block) case Found(body) => AnyName(body) case _ => []
  {
    var ext := block;
    while |ext| >= 4
      invariant LocateInBlock(ext) == LocateInBlock(block)
      decreases |ext|
    {
      LoopStep(ext);
      var et: int := Word(ext[0], ext[1]);
      var el: int := Word(ext[2], ext[3]);
      ext := ext[4..];
      if el > |ext| { break; }
      var body := ext[..el];
      ext := ext[el..];
      if et != 0x0000 { continue; }
      if |body| < 5 { return []; }
      var nameLen: int := Word(body[3], body[4]);
      if 5 + nameLen > |body| { return []; }
      return body[5..5 + nameLen];
    }
    return [];
  }

  /** A hello of fewer than 38 bytes has no extension block. */
  lemma ShortHello(hello: bytes)
    requires |hello| < 38
    ensures Extensions(hello) == None
  {
    hide Word, Cut8, Cut16;
    if |hello| >= 34 {
      TooShort(hello, 34);
      if |hello| > 34 {
        Cursor8(hello, 34);
        var p: int := 35 + hello[34] as int;
        TooShort(hello, p);
        if p + 2 <= |hello| {
          Cursor16(hello, p);
          TooShort(hello, p + 2 + Word(hello[p], hello[p + 1]) as int);
        }
      }
    }
  }

  method ParseExtensions(hello: bytes) returns (block: Option<bytes>)
    ensures block == Extensions(hello)
  {
    hide Word, Cut8, Cut16;
    if |hello| < 38 { ShortHello(hello); return None; }
    var pos: int := 34;
    TooShort(hello, pos);
    if pos >= |hello| { return None; }
    var sessLen: int := hello[pos];
    Cursor8(hello, pos);
    pos := pos + 1;
    if pos + sessLen > |hello| { return None; }
    pos := pos + sessLen;
    TooShort(hello, pos);
    if pos + 2 > |hello| { return None; }
    var csLen: int := Word(hello[pos], hello[pos + 1]);
    Cursor16(hello, pos);
    pos := pos + 2;
    if pos + csLen > |hello| { return None; }
    pos := pos + csLen;
    TooShort(hello, pos);
    if pos >= |hello| { return None; }
    var compLen: int := hello[pos];
    Cursor8(hello, pos);
    pos := pos + 1;
    if pos + compLen > |hello| { return None; }
    pos := pos + compLen;
    TooShort(hello, pos);
    if pos + 2 > |hello| { return None; }
    var extTotalLen: int := Word(hello[pos], hello[pos + 1]);
    Cursor16(hello, pos);
    pos := pos + 2;
    if pos + extTotalLen > |hello| { return None; }
    return Some(hello[pos..pos + extTotalLen]);
  }

  /** parseSNI waits exactly then: a complete record is final when it exceeds 16384 bytes. */
  predicate ParseWaits(data: bytes)
  {
    || RecordIncomplete(data)
    || (HelloExceedsRecord(data) && U16At(data, 3) <= 16384)
  }

  lemma ParseWaitsExactly(data: bytes)
    ensures !Parse(data).done <==> ParseWaits(data)
  {
    hide Locate;
    UnfinishedExactly(data);
  }

  method ParseSNI(data: bytes) returns (sni: bytes, done: bool)
    ensures Answer(sni, done) == Parse(data)
    ensures !done <==> ParseWaits(data)
  {
    ParseWaitsExactly(data);
    hide ParseWaits;
    hide Word, Word24, Cut16, Cut24;
    if |data| < 5 { return [], false; }
    if data[0] != 0x16 { return [], true; }
    var recLen: int := Word(data[3], data[4]);
    Cursor16(data, 3);
    if recLen > 16384 || |data| < 5 + recLen { return [], |data| >= 5 + recLen; }
    var payload := data[5..5 + recLen];
    if |payload| < 4 || payload[0] != 0x01 { return [], true; }
    var hsLen: int := Word24(payload[1], payload[2], payload[3]);
    Cursor24(payload, 1);
    if hsLen > 16384 || |payload| < 4 + hsLen { return [], |payload| >= 4 + hsLen; }
    var hello := payload[4..4 + hsLen];
    var block := ParseExtensions(hello);
    if block == None { return [], true; }
    sni := ParseBlock(block.value);
    done := true;
  }

  /** What a caller can check on the bytes: the two readers answer the same exactly then. */
  predicate ReadersAgreeOn(data: bytes)
  {
    var cut := Oversized(data) && |data| >= 5 + RecordLength(data);
    match Locate(data)
    case NeedMore => !cut
    case Absent => true
    case Found(body) =>
      || |body| < 5 || Word(body[3], body[4]) == 0 || |body| < 5 + Word(body[3], body[4]) as int
      || (cut <==> body[2] != 0)
  }

  /** ExtractSNI and parseSNI differ only on oversized records and on non-host_name entries. */
  lemma ReadersAgree(data: bytes)
    ensures Extract(data) == Parse(data) <==> ReadersAgreeOn(data)
    ensures !Oversized(data) && (Locate(data).Found? && |Locate(data).body| >= 5 ==> Locate(data).body[2] == 0)
            ==> Extract(data) == Parse(data)
  {
    hide Word, Cut16, LocateInPayload;
    if |data| >= 5 { Cursor16(data, 3); }
  }

  /** A disagreement on length: parseSNI is final on a 16385-byte record, ExtractSNI still waits. */
  lemma ReadersDisagreeOnLength() returns (data: bytes)
    ensures !ReadersAgreeOn(data) && Extract(data) == Answer([], false) && Parse(data) == Answer([], true)
  {
    hide LocateInHello;
    var tail: bytes := [1, 0xFF, 0xFF, 0xFF] + seq(0x3FFD, _ => 0);
    data := [0x16, 3, 1, 0x40, 1] + tail;
    var b := data[3..];
    assert b[0] == 0x40 && b[1] == 1 && b[2..] == tail;
    assert |tail| == 0x4001 == Word(b[0], b[1]);
    assert tail[..0x4001] == tail && tail[0x4001..] == [];
    assert Cut16(b) == Some(Cut(tail, []));
    assert tail[1..][0] == tail[1..][1] == tail[1..][2] == 0xFF;
    assert LocateInPayload(tail) == NeedMore;
  }

  lemma OtherTypeIsRead(p: Parts)
    requires Proper(p) && p.body == [0, 4, 1, 0, 1, 0x61] && !Oversized(Assemble(p))
    ensures Extract(Assemble(p)) == Answer([], true) && Parse(Assemble(p)) == Answer([0x61], true)
    ensures !ReadersAgreeOn(Assemble(p))
  {
    hide Locate, Assemble, Proper, Oversized;
    AssembledIsLocated(p);
    assert AnyName(p.body) == [0x61];
  }

  /** A disagreement on the entry's type: ExtractSNI wants a host_name, parseSNI takes any name. */
  lemma ReadersDisagreeOnType() returns (data: bytes)
    ensures !ReadersAgreeOn(data) && Extract(data) == Answer([], true) && Parse(data) == Answer([0x61], true)
  {
    var head: bytes := seq(34, _ => 0);
    var p := Parts([3, 1], head, [], [], [], [], [0, 4, 1, 0, 1, 0x61], [], [], [], []);
    SmallRecord(p);
    OtherTypeIsRead(p);
    data := Assemble(p);
  }

  lemma SmallRecord(p: Parts)
    requires |p.version| == 2 && |p.head| == 34 && p.before == [] && |p.body| <= 100
    requires p.session == p.ciphers == p.compression == p.after == p.trailer == p.slack == p.rest == []
    ensures Proper(p) && !Oversized(Assemble(p))
  {
    hide Be16, Be24, Low16;
    var payload := Handshake(HelloBody(p), p.slack);
    assert |Block(p)| <= 104;
    assert |payload| <= 200;
    assert Low16(|payload|) == |payload| by { LowIsItself(|payload|); }
    assert Assemble(p)[3..] == Vec16(payload) + p.rest;
    assert Assemble(p)[3] == Vec16(payload)[0] && Assemble(p)[4] == Vec16(payload)[1];
  }

  lemma ParseIsStable(data: bytes, more: bytes)
    ensures Parse(data).done ==> Parse(data + more) == Parse(data)
  {
    if Parse(data).done && !Oversized(data) { LocateIsStable(data, more); }
  }

  /** With the whole record at hand, an unfinished answer can never become final. */
  lemma CompleteRecordDecides(data: bytes, more: bytes)
    requires |data| >= 5 && |data| >= 5 + RecordLength(data)
    ensures Parse(data + more) == Parse(data)
  {
    hide Word, Cut16, LocateInPayload;
    var n := RecordLength(data);
    Cursor16(data, 3);
    Cursor16(data + more, 3);
    assert (data + more)[5..5 + n] == data[5..5 + n];
  }

  // ---- connections ----

  datatype ReadErr = Fine | Eof | Timeout | Broken

  /** What the peer's side of a connection does next: deliver bytes, and possibly fail with them. */
  datatype Chunk = Chunk(data: bytes, err: ReadErr)

  /** A write takes everything, or fails after `taken` bytes. */
  datatype Outcome = Whole | Partial(taken: nat)

  datatype Delivery = Delivery(chunk: bytes, err: ReadErr, rest: seq<Chunk>)

  /** One Read into a buffer of `room` bytes; a long chunk is delivered in pieces. */
  function Deliver(incoming: seq<Chunk>, room: nat): Delivery
  {
    if incoming == [] then Delivery([], Eof, []) else
    var head := incoming[0];
    if |head.data| <= room then Delivery(head.data, head.err, incoming[1..])
    else Delivery(head.data[..room], Fine, [head.(data := head.data[room..])] + incoming[1..])
  }

  /** Every byte the script can still deliver. */
  function All(incoming: seq<Chunk>): bytes
  {
    if incoming == [] then [] else incoming[0].data + All(incoming[1..])
  }

  /** The bytes up to and including the first failing read. */
  function UpToError(incoming: seq<Chunk>): bytes
  {
    if incoming == [] then [] else
    if incoming[0].err == Fine then incoming[0].data + UpToError(incoming[1..]) else incoming[0].data
  }

  /** The first error the script reports; it ends with end of file. */
  function FirstError(incoming: seq<Chunk>): ReadErr
  {
    if incoming == [] then Eof else
    if incoming[0].err == Fine then FirstError(incoming[1..]) else incoming[0].err
  }

  function Size(incoming: seq<Chunk>): nat
  {
    if incoming == [] then 0 else 1 + |incoming[0].data| + Size(incoming[1..])
  }

  lemma DeliverConserves(incoming: seq<Chunk>, room: nat)
    requires room > 0
    ensures var d := Deliver(incoming, room);
            && |d.chunk| <= room
            && All(incoming) == d.chunk + All(d.rest)
            && UpToError(incoming) == d.chunk + (if d.err == Fine then UpToError(d.rest) else [])
            && FirstError(incoming) == (if d.err == Fine then FirstError(d.rest) else d.err)
            && (d.err == Fine ==> Size(d.rest) < Size(incoming))
  {
    if incoming != [] && |incoming[0].data| > room {
      var head := incoming[0];
      SplitAt(head.data, room);
      var rest := [head.(data := head.data[room..])] + incoming[1..];
      assert rest[0].data == head.data[room..] && rest[1..] == incoming[1..];
      Assoc(head.data[..room], head.data[room..], All(incoming[1..]));
      Assoc(head.data[..room], head.data[room..], UpToError(incoming[1..]));
    }
  }

  /** No write of the script fails. */
  ghost predicate AllWhole(writes: seq<Outcome>)
  {
    forall i :: 0 <= i < |writes| ==> writes[i].Whole?
  }

  class Conn {
    var incoming: seq<Chunk>        // what the peer will deliver
    var writes: seq<Outcome>     // how the next writes end; all go through after the last one
    var sent: bytes              // the bytes the peer has been handed
    ghost var got: bytes         // the bytes read so far

    constructor (script: seq<Chunk>, outcomes: seq<Outcome>)
      ensures incoming == script && writes == outcomes && sent == [] && got == []
    {
      incoming, writes, sent, got := script, outcomes, [], [];
    }

    method Read(buf: array<u8>) returns (n: nat, err: ReadErr)
      modifies this`incoming, this`got, buf
      ensures n <= buf.Length
      ensures Delivery(buf[..n], err, incoming) == Deliver(old(incoming), buf.Length)
      ensures got == old(got) + buf[..n]
    {
      hide UpToError, All, Size;
      if incoming == [] { return 0, Eof; }
      var head := incoming[0];
      n := if |head.data| <= buf.Length then |head.data| else buf.Length;
      forall i | 0 <= i < n { buf[i] := head.data[i]; }
      assert buf[..n] == head.data[..n];
      if |head.data| <= buf.Length {
        err, incoming := head.err, incoming[1..];
      } else {
        err, incoming := Fine, [head.(data := head.data[n..])] + incoming[1..];
      }
      got := got + buf[..n];
    }

    method Write(b: bytes) returns (n: nat, failed: bool)
      modifies this`writes, this`sent
      ensures failed <==> old(writes) != [] && old(writes)[0].Partial?
      ensures n == if failed && old(writes)[0].taken < |b| then old(writes)[0].taken else |b|
      ensures writes == if old(writes) == [] then [] else old(writes)[1..]
      ensures sent == old(sent) + b[..n]
    {
      n, failed := |b|, false;
      if writes != [] {
        if writes[0].Partial? {
          n, failed := if writes[0].taken < |b| then writes[0].taken else |b|, true;
        }
        writes := writes[1..];
      }
      sent := sent + b[..n];
    }
  }

  // ---- readSNI ----

  /** The name can be read within a peek of `max` bytes: the first record, if complete, fits in it. */
  predicate PeekSuffices(stream: bytes, max: nat)
  {
    |stream| >= 5 ==> 5 + RecordLength(stream) <= max
  }

  lemma UndecidedPrefix(acc: bytes, stream: bytes, max: nat)
    requires acc <= stream && PeekSuffices(stream, max) && |acc| >= max
    requires acc == [] || !Parse(acc).done
    ensures Parse(stream).sni == []
  {
    hide Word, Parse;
    if |stream| >= 5 {
      var more := stream[|acc|..];
      assert stream == acc + more;
      assert RecordLength(acc) == RecordLength(stream);
      CompleteRecordDecides(acc, more);
      UnfinishedHasNoName(acc);
    } else {
      UnfinishedHasNoName(stream);
    }
  }

  lemma UnfinishedHasNoName(data: bytes)
    ensures !Parse(data).done ==> Parse(data).sni == []
    ensures |data| < 5 ==> Parse(data).sni == []
  {
  }

  /** What is left of a script after some reads of up to 4096 bytes. */
  function LeftAfter(incoming: seq<Chunk>, steps: seq<Delivery>): seq<Chunk>
  {
    if steps == [] then incoming else steps[|steps| - 1].rest
  }

  ghost predicate ReadsFrom(incoming: seq<Chunk>, steps: seq<Delivery>)
  {
    steps == [] ||
    var init := steps[..|steps| - 1];
    ReadsFrom(incoming, init) && steps[|steps| - 1] == Deliver(LeftAfter(incoming, init), 4096)
  }

  ghost function Taken(steps: seq<Delivery>): bytes
  {
    if steps == [] then [] else Taken(steps[..|steps| - 1]) + steps[|steps| - 1].chunk
  }

  /** After each of these reads the peek wants more: no error, room left, and no final answer. */
  ghost predicate Waited(steps: seq<Delivery>, max: nat)
  {
    steps == [] ||
    (Waited(steps[..|steps| - 1], max) && steps[|steps| - 1].err == Fine
     && |Taken(steps)| < max && ParseWaits(Taken(steps)))
  }

  /** All reads but the last left the peek wanting more, and the last one did not. */
  ghost predicate PeekedBy(incoming: seq<Chunk>, steps: seq<Delivery>, max: nat)
  {
    && steps != [] && ReadsFrom(incoming, steps) && Waited(steps[..|steps| - 1], max)
    && (steps[|steps| - 1].err != Fine || |Taken(steps)| >= max || !ParseWaits(Taken(steps)))
  }

  lemma ReadsSnoc(incoming: seq<Chunk>, steps: seq<Delivery>, d: Delivery)
    requires ReadsFrom(incoming, steps) && d == Deliver(LeftAfter(incoming, steps), 4096)
    ensures ReadsFrom(incoming, steps + [d]) && LeftAfter(incoming, steps + [d]) == d.rest
    ensures (steps + [d])[..|steps|] == steps && Taken(steps + [d]) == Taken(steps) + d.chunk
  {
    hide Deliver;
    assert (steps + [d])[..|steps|] == steps;
  }

  lemma WaitedSnoc(steps: seq<Delivery>, d: Delivery, max: nat)
    requires Waited(steps, max) && d.err == Fine
    requires |Taken(steps + [d])| < max && ParseWaits(Taken(steps + [d]))
    ensures Waited(steps + [d], max)
  {
    assert (steps + [d])[..|steps|] == steps;
  }

  /** Where the peek stands: what it has read, and that it still wants more or has filled its limit. */
  ghost predicate Peeking(script: seq<Chunk>, steps: seq<Delivery>, acc: bytes, incoming: seq<Chunk>, max: nat)
  {
    && ReadsFrom(script, steps) && acc == Taken(steps) && incoming == LeftAfter(script, steps) && ParseWaits(acc)
    && if |acc| < max then Waited(steps, max) else PeekedBy(script, steps, max)
  }

  lemma PeekingStarts(script: seq<Chunk>, max: nat)
    requires max > 0
    ensures Peeking(script, [], [], script, max) && ReadUpTo(script, [], script)
  {
    hide Deliver, UpToError, All;
  }

  lemma PeekingSnoc(script: seq<Chunk>, steps: seq<Delivery>, acc: bytes, incoming: seq<Chunk>, max: nat, d: Delivery)
    requires Peeking(script, steps, acc, incoming, max) && |acc| < max && d == Deliver(incoming, 4096)
    ensures var more := steps + [d];
            && acc + d.chunk == Taken(more) && d.rest == LeftAfter(script, more)
            && (d.err != Fine || !ParseWaits(acc + d.chunk) ==> PeekedBy(script, more, max))
            && (d.err == Fine && ParseWaits(acc + d.chunk) ==> Peeking(script, more, acc + d.chunk, d.rest, max))
  {
    hide Deliver, ParseWaits, Taken, ReadsFrom, Waited, LeftAfter;
    ReadsSnoc(script, steps, d);
    if d.err == Fine && ParseWaits(acc + d.chunk) && |acc + d.chunk| < max { WaitedSnoc(steps, d, max); }
  }

  /** What the script still holds behind the bytes read. */
  ghost predicate ReadUpTo(script: seq<Chunk>, acc: bytes, incoming: seq<Chunk>)
  {
    UpToError(script) == acc + UpToError(incoming) && All(script) == acc + All(incoming)
  }

  lemma ReadUpToSnoc(script: seq<Chunk>, acc: bytes, incoming: seq<Chunk>, d: Delivery)
    requires ReadUpTo(script, acc, incoming) && d == Deliver(incoming, 4096)
    ensures All(script) == (acc + d.chunk) + All(d.rest) && |d.chunk| <= 4096
    ensures UpToError(script) == (acc + d.chunk) + if d.err == Fine then UpToError(d.rest) else []
    ensures d.err == Fine ==> ReadUpTo(script, acc + d.chunk, d.rest) && Size(d.rest) < Size(incoming)
  {
    hide Deliver, UpToError, All, Size, FirstError;
    DeliverConserves(incoming, 4096);
    Assoc(acc, d.chunk, All(d.rest));
    Assoc(acc, d.chunk, if d.err == Fine then UpToError(d.rest) else []);
  }

  /** One turn of the peek: a read, and the parser's word on all bytes so far if there are new ones. */
  method PeekOnce(conn: Conn, tmp: array<u8>, acc: bytes)
    returns (more: bytes, err: ReadErr, name: bytes, done: bool, ghost d: Delivery)
    requires tmp.Length == 4096 && ParseWaits(acc)
    modifies conn`incoming, conn`got, tmp
    ensures d == Deliver(old(conn.incoming), 4096) && conn.incoming == d.rest && err == d.err
    ensures conn.got == old(conn.got) + d.chunk && more == acc + d.chunk
    ensures done <==> !ParseWaits(more)
    ensures done ==> name == Parse(more).sni
  {
    hide Parse, ParseWaits, Deliver;
    var n;
    n, err := conn.Read(tmp);
    d := Delivery(tmp[..n], err, conn.incoming);
    more, name, done := acc, [], false;
    if n > 0 {
      more := acc + tmp[..n];
      name, done := ParseSNI(more);
    } else {
      assert acc + tmp[..n] == acc;
    }
  }

  /** The peek's reads, its `steps`, end at the first one that fails, fills the limit or makes the answer final. */
  method ReadSNI(conn: Conn, maxBuf: int) returns (sni: bytes, acc: bytes, ghost steps: seq<Delivery>)
    modifies conn`incoming, conn`got
    ensures conn.got == old(conn.got) + acc
    ensures old(All(conn.incoming)) == acc + All(conn.incoming)
    ensures acc <= old(UpToError(conn.incoming))
    ensures var max := if maxBuf <= 0 then 16384 else maxBuf;
            && |acc| < 4096 + max
            && PeekedBy(old(conn.incoming), steps, max) && acc == Taken(steps)
            && conn.incoming == LeftAfter(old(conn.incoming), steps)
            && sni == (if ParseWaits(acc) then [] else Parse(acc).sni)
    ensures PeekSuffices(old(UpToError(conn.incoming)), if maxBuf <= 0 then 16384 else maxBuf)
            ==> sni == Parse(old(UpToError(conn.incoming))).sni
    ensures sni != [] ==> sni == Parse(old(UpToError(conn.incoming))).sni
  {
    hide Parse, ParseWaits, All, UpToError, Size, Deliver, PeekSuffices, Taken, LeftAfter, Peeking, PeekedBy;
    var max := if maxBuf <= 0 then 16384 else maxBuf;
    ghost var script := conn.incoming;
    acc, steps := [], [];
    PeekingStarts(script, max);
    var tmp := new u8[4096];
    while |acc| < max
      invariant fresh(tmp) && tmp.Length == 4096
      invariant conn.got == old(conn.got) + acc && |acc| < 4096 + max
      invariant ReadUpTo(script, acc, conn.incoming)
      invariant Peeking(script, steps, acc, conn.incoming, max)
      decreases Size(conn.incoming)
    {
      hide ReadUpTo;
      ghost var was, before := conn.incoming, steps;
      PeekingWaits(script, steps, acc, was, max);
      var more, err, name, done, d := PeekOnce(conn, tmp, acc);
      PeekingSnoc(script, before, acc, was, max, d);
      ReadUpToSnoc(script, acc, was, d);
      Assoc(old(conn.got), acc, d.chunk);
      acc, steps := more, before + [d];
      if done || err != Fine {
        PeekIsDecided(script, acc, d);
        return if done then name else [], acc, steps;
      }
    }
    PeekingEnds(script, steps, acc, conn.incoming, max);
    ParseWaitsExactly(acc);
    if PeekSuffices(UpToError(script), max) { UndecidedPrefix(acc, UpToError(script), max); }
    sni := [];
  }

  lemma PeekingWaits(script: seq<Chunk>, steps: seq<Delivery>, acc: bytes, incoming: seq<Chunk>, max: nat)
    requires Peeking(script, steps, acc, incoming, max)
    ensures ParseWaits(acc)
  {
  }

  lemma PeekingEnds(script: seq<Chunk>, steps: seq<Delivery>, acc: bytes, incoming: seq<Chunk>, max: nat)
    requires Peeking(script, steps, acc, incoming, max) && |acc| >= max
    ensures PeekedBy(script, steps, max) && acc == Taken(steps) && incoming == LeftAfter(script, steps) && ParseWaits(acc)
  {
  }

  /** After a final answer or a failing read the whole stream has that answer's name. */
  lemma PeekIsDecided(script: seq<Chunk>, acc: bytes, d: Delivery)
    requires UpToError(script) == acc + if d.err == Fine then UpToError(d.rest) else []
    requires !ParseWaits(acc) || d.err != Fine
    ensures (if ParseWaits(acc) then [] else Parse(acc).sni) == Parse(UpToError(script)).sni
  {
    hide Parse, ParseWaits, UpToError;
    ParseWaitsExactly(acc);
    if ParseWaits(acc) {
      UnfinishedHasNoName(acc);
      assert acc + [] == acc;
    } else {
      ParseIsStable(acc, if d.err == Fine then UpToError(d.rest) else []);
    }
  }

  // ---- copyLoop and RelayWithSNI ----

  /** How a copy direction ends; end of file and an idle timeout are both clean. */
  datatype End = Clean | ReadFailed | WriteFailed

  /** One turn of the loop: a read, and a write of what it gave. */
  method CopyOnce(dst: Conn, src: Conn, buf: array<u8>)
    returns (n: nat, written: nat, failed: bool, readErr: ReadErr, ghost chunk: bytes)
    requires buf.Length > 0
    modifies src`incoming, src`got, dst`writes, dst`sent, buf
    ensures n == |chunk| && written <= n && (!failed ==> written == n)
    ensures src.got == old(src.got) + chunk && dst.sent == old(dst.sent) + chunk[..written]
    ensures old(All(src.incoming)) == chunk + All(src.incoming)
    ensures old(UpToError(src.incoming)) == chunk + (if readErr == Fine then UpToError(src.incoming) else [])
    ensures old(FirstError(src.incoming)) == (if readErr == Fine then FirstError(src.incoming) else readErr)
    ensures readErr == Fine ==> Size(src.incoming) < old(Size(src.incoming))
    ensures old(AllWhole(dst.writes)) ==> !failed && AllWhole(dst.writes)
  {
    hide All, UpToError, Size, Deliver, FirstError;
    DeliverConserves(src.incoming, buf.Length);
    n, readErr := src.Read(buf);
    chunk, written, failed := buf[..n], 0, false;
    if n > 0 { written, failed := dst.Write(buf[..n]); }
  }

  /**
   Copies until a read or a write fails. `calls` lists the byte counts passed to the callback and
   `moved` the bytes handed to dst. The frame names the two halves of the connections it touches,
   so the opposite direction, which touches the other halves, cannot interfere.
   */
  method CopyLoop(dst: Conn, src: Conn, buf: array<u8>)
    returns (total: nat, end: End, calls: seq<nat>, ghost moved: bytes)
    requires buf.Length > 0
    modifies src`incoming, src`got, dst`writes, dst`sent, buf
    ensures dst.sent == old(dst.sent) + moved
    ensures total == |moved| == Sum<nat>(calls, Itself)
    ensures old(src.got) <= src.got && moved <= src.got[|old(src.got)|..]
    ensures old(All(src.incoming)) == src.got[|old(src.got)|..] + All(src.incoming)
    ensures end != WriteFailed ==> moved == src.got[|old(src.got)|..] == old(UpToError(src.incoming))
    ensures end != WriteFailed ==> (end == ReadFailed <==> old(FirstError(src.incoming)) == Broken)
    ensures old(AllWhole(dst.writes)) ==> end != WriteFailed
    ensures forall i :: 0 <= i < buf.Length ==> buf[i] == 0
  {
    hide All, UpToError, Size, Deliver, Sum, FirstError;
    ghost var first := FirstError(src.incoming);
    ghost var base, all, stream := src.got, All(src.incoming), UpToError(src.incoming);
    total, end, calls, moved := 0, Clean, [], [];
    assert Sum<nat>([], Itself) == 0 by { SumEmpty<nat>(Itself); }
    while true
      invariant src.got == base + moved && dst.sent == old(dst.sent) + moved
      invariant all == moved + All(src.incoming) && stream == moved + UpToError(src.incoming)
      invariant total == |moved| == Sum<nat>(calls, Itself)
      invariant FirstError(src.incoming) == first
      invariant old(AllWhole(dst.writes)) ==> AllWhole(dst.writes)
      decreases Size(src.incoming)
    {
      hide AllWhole;
      var n, written, failed, readErr, chunk := CopyOnce(dst, src, buf);
      ghost var tail := if readErr == Fine then UpToError(src.incoming) else [];
      Assoc(moved, chunk, All(src.incoming));
      Assoc(moved, chunk, tail);
      Assoc(base, moved, chunk);
      assert src.got[|base|..] == moved + chunk;
      Assoc(old(dst.sent), moved, chunk[..written]);
      if n > 0 {
        SumSnoc<nat>(calls, written, Itself);
        total, calls := total + written, calls + [written];
      }
      moved := moved + chunk[..written];
      if failed { end := WriteFailed; break; }
      if readErr != Fine {
        assert moved + tail == moved;
        end := if readErr == Broken then ReadFailed else Clean;
        break;
      }
    }
    forall i | 0 <= i < buf.Length { buf[i] := 0; }
  }

  /** How the two directions ended; the source keeps the earlier of their errors. */
  datatype RelayResult = RelayResult(bytesIn: nat, bytesOut: nat, inEnd: End, outEnd: End)

  /** The first write of the script fails. */
  predicate FirstWriteFails(writes: seq<Outcome>) { writes != [] && writes[0].Partial? }

  /** Relay: both directions are copied; `forwarded` and `returned` are what server and client were handed. */
  method RelayBoth(client: Conn, server: Conn, inBuf: array<u8>, outBuf: array<u8>)
    returns (result: RelayResult, inCalls: seq<nat>, outCalls: seq<nat>, ghost forwarded: bytes, ghost returned: bytes)
    requires client != server && inBuf.Length > 0 && outBuf.Length > 0
    modifies client, server, inBuf, outBuf
    ensures server.sent == old(server.sent) + forwarded && client.sent == old(client.sent) + returned
    ensures old(client.got) <= client.got && old(server.got) <= server.got
    ensures old(All(client.incoming)) == client.got[|old(client.got)|..] + All(client.incoming)
    ensures forwarded <= client.got[|old(client.got)|..]
    ensures returned <= server.got[|old(server.got)|..] <= old(All(server.incoming))
    ensures result.inEnd != WriteFailed ==> forwarded == client.got[|old(client.got)|..] == old(UpToError(client.incoming))
    ensures result.outEnd != WriteFailed ==> returned == server.got[|old(server.got)|..] == old(UpToError(server.incoming))
    ensures result.outEnd != WriteFailed
            ==> (result.outEnd == ReadFailed <==> old(FirstError(server.incoming)) == Broken)
    ensures old(AllWhole(server.writes)) ==> result.inEnd != WriteFailed
    ensures old(AllWhole(client.writes)) ==> result.outEnd != WriteFailed
    ensures Sum<nat>(inCalls, Itself) == |forwarded| == result.bytesIn
    ensures Sum<nat>(outCalls, Itself) == |returned| == result.bytesOut
  {
    hide All, UpToError, Sum, FirstError, AllWhole;
    var total, end, back, backEnd;
    total, end, inCalls, forwarded := CopyLoop(server, client, inBuf);
    back, backEnd, outCalls, returned := CopyLoop(client, server, outBuf);
    result := RelayResult(total, back, end, backEnd);
  }

  /**
   The peeked bytes are written first, then both directions are copied. `inCalls` and `outCalls` are
   the counts passed to the two callbacks, `forwarded` and `returned` what server and client were
   handed, `peeked` the bytes the peek consumed, and `started` says that writing them did not fail.
   */
  method RelayWithSNI(client: Conn, server: Conn, inBuf: array<u8>, outBuf: array<u8>, maxBuf: int)
    returns (sni: bytes, result: RelayResult, inCalls: seq<nat>, outCalls: seq<nat>,
             ghost forwarded: bytes, ghost returned: bytes, ghost peeked: bytes, ghost started: bool)
    requires client != server && inBuf.Length > 0 && outBuf.Length > 0
    modifies client, server, inBuf, outBuf
    ensures server.sent == old(server.sent) + forwarded && client.sent == old(client.sent) + returned
    ensures old(client.got) <= client.got && old(server.got) <= server.got
    ensures forwarded <= client.got[|old(client.got)|..] <= old(All(client.incoming))
    ensures returned <= server.got[|old(server.got)|..] <= old(All(server.incoming))
    ensures started <==> peeked == [] || !old(FirstWriteFails(server.writes))
    ensures result.inEnd != WriteFailed ==> started && forwarded == client.got[|old(client.got)|..]
    ensures result.outEnd != WriteFailed ==> returned == server.got[|old(server.got)|..]
    ensures started && result.outEnd != WriteFailed ==> returned == old(UpToError(server.incoming))
    ensures started && result.outEnd != WriteFailed
            ==> (result.outEnd == ReadFailed <==> old(FirstError(server.incoming)) == Broken)
    ensures old(AllWhole(server.writes)) ==> result.inEnd != WriteFailed
    ensures old(AllWhole(client.writes)) ==> result.outEnd != WriteFailed
    ensures started ==> Sum<nat>(inCalls, Itself) == |forwarded| == result.bytesIn + |peeked|
    ensures result.bytesOut == |returned| == Sum<nat>(outCalls, Itself)
    ensures !started ==> inCalls == [] && result == RelayResult(0, 0, WriteFailed, Clean) && forwarded <= peeked
    ensures PeekSuffices(old(UpToError(client.incoming)), if maxBuf <= 0 then 16384 else maxBuf)
            ==> sni == Parse(old(UpToError(client.incoming))).sni
    ensures sni != [] ==> sni == Parse(old(UpToError(client.incoming))).sni
  {
    hide All, UpToError, Parse, PeekSuffices, Sum, FirstError, Taken, PeekedBy, LeftAfter, ParseWaits;
    ghost var base, all := client.got, All(client.incoming);
    inCalls, outCalls, returned := [], [], [];
    assert Sum<nat>([], Itself) == 0 by { SumEmpty<nat>(Itself); }
    var acc;
    ghost var steps;
    sni, acc, steps := ReadSNI(client, maxBuf);
    peeked, started := acc, true;
    if |acc| > 0 {
      var n, failed := server.Write(acc);
      if failed {
        forwarded, started := acc[..n], false;
        result := RelayResult(0, 0, WriteFailed, Clean);
        return;
      }
      inCalls := [|acc|];
    }
    ghost var mid := client.got;
    var calls;
    ghost var moved;
    result, calls, outCalls, moved, returned := RelayBoth(client, server, inBuf, outBuf);
    forwarded := acc + moved;
    ghost var read := client.got[|mid|..];
    assert client.got == base + (acc + read);
    Assoc(acc, read, All(client.incoming));
    SumCons<nat>(|acc|, calls, Itself);
    assert [] + calls == calls;
    inCalls := inCalls + calls;
  }
}
