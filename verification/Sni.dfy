/**
 internal/tls/sni.go: ExtractSNI, the cursor-based SNI reader, and the accumulator that feeds it a
 stream chunk by chunk.
 */
module Sni {
  import opened Bytes
  import opened Seqs
  import opened Wire

  /** What an SNI reader answers: a name (empty when there is none) and whether that is final. */
  datatype Answer = Answer(sni: bytes, done: bool)

  /** The name in a server_name body, whatever its name_type. */
  function AnyName(body: bytes): (name: bytes)
    ensures |name| < 0x1_0000 && |name| <= |body|
  {
    if |body| < 5 then [] else
    var n := Word(body[3], body[4]);
    if |body| < 5 + n then [] else body[5..5 + n]
  }

  /** The name in a server_name body whose first entry is a host_name (name_type 0). */
  function HostName(body: bytes): bytes
  {
    if |body| >= 5 && body[2] != 0 then [] else AnyName(body)
  }

  /** ExtractSNI in terms of the locator. */
  function Extract(data: bytes): Answer
  {
    match Locate(data)
    case NeedMore => Answer([], false)
    case Absent => Answer([], true)
    case Found(body) => Answer(HostName(body), true)
  }

  // A cursor at pos reads the same vectors as the suffix hello[pos..].

  lemma Cursor8(hello: bytes, pos: nat)
    requires pos < |hello|
    ensures var to := pos + 1 + hello[pos] as int;
            Cut8(hello[pos..]) == if to > |hello| then None else Some(Cut(hello[pos + 1..to], hello[to..]))
  {
    var n: int := hello[pos];
    assert hello[pos..][1..] == hello[pos + 1..];
    if pos + 1 + n <= |hello| {
      assert hello[pos + 1..][..n] == hello[pos + 1..pos + 1 + n];
    }
  }

  lemma Cursor16(hello: bytes, pos: nat)
    requires pos + 2 <= |hello|
    ensures var to := pos + 2 + Word(hello[pos], hello[pos + 1]) as int;
            Cut16(hello[pos..]) == if to > |hello| then None else Some(Cut(hello[pos + 2..to], hello[to..]))
  {
    hide Word;
    var n: int := Word(hello[pos], hello[pos + 1]);
    assert hello[pos..][2..] == hello[pos + 2..];
    if pos + 2 + n <= |hello| {
      assert hello[pos + 2..][..n] == hello[pos + 2..pos + 2 + n];
    }
  }

  lemma Cursor24(hello: bytes, pos: nat)
    requires pos + 3 <= |hello|
    ensures var to := pos + 3 + Word24(hello[pos], hello[pos + 1], hello[pos + 2]);
            Cut24(hello[pos..]) == if to > |hello| then None else Some(Cut(hello[pos + 3..to], hello[to..]))
  {
    hide Word24;
    var n := Word24(hello[pos], hello[pos + 1], hello[pos + 2]);
    assert hello[pos..][3..] == hello[pos + 3..];
    if pos + 3 + n <= |hello| {
      assert hello[pos + 3..][..n] == hello[pos + 3..pos + 3 + n];
    }
  }

  lemma TooShort(hello: bytes, pos: nat)
    ensures pos <= |hello| < pos + 1 ==> Cut8(hello[pos..]) == None
    ensures pos <= |hello| < pos + 2 ==> Cut16(hello[pos..]) == None
  {
  }

  /** One step of the extension loop both readers run: the remaining bytes hold the remaining list. */
  lemma LoopStep(ext: bytes)
    requires |ext| >= 4
    ensures var n := Word(ext[2], ext[3]); var rest := ext[4..];
            Scan(ext) == if |rest| < n then [] else [Ext(Word(ext[0], ext[1]), rest[..n])] + Scan(rest[n..])
  {
    assert ext[2..][2..] == ext[4..];
  }

  // ---- what the answer says about the bytes ----

  /** Fewer bytes than the record header, or than the record it declares. */
  predicate RecordIncomplete(data: bytes)
  {
    |data| < 5 || (data[0] == 0x16 && |data| < 5 + U16At(data, 3))
  }

  /** A complete record whose ClientHello declares more bytes than the record has left. */
  predicate HelloExceedsRecord(data: bytes)
  {
    && |data| >= 9 && data[0] == 0x16
    && var n := U16At(data, 3);
       4 <= n <= |data| - 5 && data[5] == 1 && n < 4 + U24At(data, 6)
  }

  /** ExtractSNI waits for more bytes exactly then; on every other input its answer is final. */
  lemma UnfinishedExactly(data: bytes)
    ensures !Extract(data).done <==> RecordIncomplete(data) || HelloExceedsRecord(data)
  {
    hide Cut16, Cut24, LocateInHello;
    if |data| >= 5 && data[0] == 0x16 {
      Cursor16(data, 3);
      var n: int := Word(data[3], data[4]);
      if 5 + n <= |data| { PayloadUnfinished(data, n); }
    }
  }

  lemma PayloadUnfinished(data: bytes, n: nat)
    requires 5 + n <= |data|
    ensures LocateInPayload(data[5..5 + n]) == NeedMore
            <==> n >= 4 && data[5] == 1 && n < 4 + U24At(data, 6)
  {
    hide Cut24;
    var payload := data[5..5 + n];
    if n >= 4 {
      assert payload[0] == data[5] && payload[1] == data[6] && payload[2] == data[7] && payload[3] == data[8];
      Cursor24(payload, 1);
      HelloIsDecided(payload);
    }
  }

  lemma HelloIsDecided(payload: bytes)
    ensures |payload| >= 1 && Cut24(payload[1..]).Some? ==> LocateInHello(Cut24(payload[1..]).value.vec) != NeedMore
  {
    hide Cut24, Extensions, Scan, FirstName;
  }

  /** A name is read from a body exactly when its first entry is a host_name of that length and those bytes. */
  lemma HostNameExactly(body: bytes, name: bytes)
    requires name != []
    ensures HostName(body) == name <==>
              && |body| >= 5 + |name| && body[2] == 0 && U16At(body, 3) == |name|
              && body[5..5 + |name|] == name
    ensures AnyName(body) == name <==>
              |body| >= 5 + |name| && U16At(body, 3) == |name| && body[5..5 + |name|] == name
  {
    if |body| >= 5 {
      var n: int := Word(body[3], body[4]);
      if |body| >= 5 + n { assert |body[5..5 + n]| == n; }
    }
  }

  // ExtractSNI is one Go function; here it is cut at the hello and at the extension block.

  method SniOfBlock(block: bytes) returns (sni: bytes)
    ensures sni == match LocateInBlock(block) case Found(body) => HostName(body) case _ => []
  {
    var extData := block;
    while |extData| >= 4
      invariant LocateInBlock(extData) == LocateInBlock(block)
      decreases |extData|
    {
      LoopStep(extData);
      var extType: int := Word(extData[0], extData[1]);
      var extLen: int := Word(extData[2], extData[3]);
      extData := extData[4..];
      if |extData| < extLen { break; }
      var body := extData[..extLen];
      extData := extData[extLen..];
      if extType != 0x0000 { continue; }
      if |body| < 5 || body[2] != 0x00 { return []; }
      var nameLen: int := Word(body[3], body[4]);
      if |body| < 5 + nameLen { return []; }
      return body[5..5 + nameLen];
    }
    return [];
  }

  method CutExtensions(hello: bytes) returns (block: Option<bytes>)
    ensures block == Extensions(hello)
  {
    hide Word, Cut8, Cut16;
    if |hello| < 34 { return None; }
    var pos: int := 34;
    TooShort(hello, pos);
    if pos >= |hello| { return None; }
    var sessLen: int := hello[pos];
    Cursor8(hello, pos);
    pos := pos + 1 + sessLen;
    TooShort(hello, pos);
    if pos + 2 > |hello| { return None; }
    var csLen: int := Word(hello[pos], hello[pos + 1]);
    Cursor16(hello, pos);
    pos := pos + 2 + csLen;
    TooShort(hello, pos);
    if pos >= |hello| { return None; }
    var compLen: int := hello[pos];
    Cursor8(hello, pos);
    pos := pos + 1 + compLen;
    TooShort(hello, pos);
    if pos + 2 > |hello| { return None; }
    var extTotalLen: int := Word(hello[pos], hello[pos + 1]);
    Cursor16(hello, pos);
    pos := pos + 2;
    if pos + extTotalLen > |hello| { return None; }
    return Some(hello[pos..pos + extTotalLen]);
  }

  method ExtractSNI(data: bytes) returns (sni: bytes, done: bool)
    ensures Answer(sni, done) == Extract(data)
    ensures !done <==> RecordIncomplete(data) || HelloExceedsRecord(data)
  {
    UnfinishedExactly(data);
    hide RecordIncomplete, HelloExceedsRecord;
    if |data| < 5 { return [], false; }
    if data[0] != 0x16 { return [], true; }
    hide Word, Word24, Cut16, Cut24;
    var recLen: int := Word(data[3], data[4]);
    Cursor16(data, 3);
    if |data| < 5 + recLen { return [], false; }
    var payload := data[5..5 + recLen];
    if |payload| < 4 || payload[0] != 0x01 { return [], true; }
    var hsLen: int := Word24(payload[1], payload[2], payload[3]);
    Cursor24(payload, 1);
    if |payload| < 4 + hsLen { return [], false; }
    var hello := payload[4..4 + hsLen];
    var block := CutExtensions(hello);
    if block == None { return [], true; }
    sni := SniOfBlock(block.value);
    done := true;
  }

  /** A final answer survives any continuation of the stream. */
  lemma ExtractIsStable(data: bytes, more: bytes)
    ensures Extract(data).done ==> Extract(data + more) == Extract(data)
  {
    if Extract(data).done { LocateIsStable(data, more); }
  }

  // ---- SNIAccumulator ----

  /** What Feed answers once the buffer holds `buf`. */
  function FeedAnswer(buf: bytes, maxSize: int): Answer
  {
    if |buf| > maxSize then Answer([], true) else Extract(buf)
  }

  class SNIAccumulator {
    var buf: bytes
    var maxSize: int

    constructor (max: int)
      ensures buf == [] && maxSize == if max <= 0 then 16384 else max
    {
      buf := [];
      maxSize := if max <= 0 then 16384 else max;
    }

    method Feed(chunk: bytes) returns (sni: bytes, done: bool)
      modifies this`buf
      ensures buf == old(buf) + chunk
      ensures Answer(sni, done) == FeedAnswer(buf, maxSize)
      ensures !done <==> |buf| <= maxSize && (RecordIncomplete(buf) || HelloExceedsRecord(buf))
    {
      buf := buf + chunk;
      if |buf| > maxSize { return [], true; }
      sni, done := ExtractSNI(buf);
    }
  }

  /** The first final answer of successive Feed calls, or "not done" when there is none. */
  function FirstFinal(buf: bytes, chunks: seq<bytes>, maxSize: int): Answer
    decreases chunks
  {
    if chunks == [] then Answer([], false) else
    var answer := FeedAnswer(buf + chunks[0], maxSize);
    if answer.done then answer else FirstFinal(buf + chunks[0], chunks[1..], maxSize)
  }

  /** Feeding a stream that fits in any chunks gives what ExtractSNI gives on the whole stream. */
  lemma {:induction false} FeedingIsExtracting(buf: bytes, chunks: seq<bytes>, maxSize: int)
    requires |buf + Flat(chunks)| <= maxSize && !Extract(buf).done
    ensures FirstFinal(buf, chunks, maxSize) == Extract(buf + Flat(chunks))
    decreases chunks
  {
    if chunks == [] {
      assert buf + Flat(chunks) == buf;
    } else {
      var next := buf + chunks[0];
      Assoc(buf, chunks[0], Flat(chunks[1..]));
      if Extract(next).done {
        ExtractIsStable(next, Flat(chunks[1..]));
      } else {
        FeedingIsExtracting(next, chunks[1..], maxSize);
      }
    }
  }

  /** How a fitting stream is cut into chunks does not matter. */
  lemma ChunkingIsIrrelevant(chunks: seq<bytes>, others: seq<bytes>, maxSize: int)
    requires Flat(chunks) == Flat(others) && |Flat(chunks)| <= maxSize
    ensures FirstFinal([], chunks, maxSize) == FirstFinal([], others, maxSize)
  {
    assert [] + Flat(chunks) == Flat(chunks);
    FeedingIsExtracting([], chunks, maxSize);
    FeedingIsExtracting([], others, maxSize);
  }
}
