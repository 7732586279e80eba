/**
 The wire grammar of a TLS ClientHello (sections 4.1.2 and 5.1 of RFC 8446, section 3 of RFC 6066)
 as both SNI readers of the relay see it: a locator that walks the nested length prefixes, and an
 independent grammar (Parts, Assemble) of the byte strings in which it finds a server_name body.
 */
module Wire {
  import opened Bytes

  // ---- length-prefixed vectors (section 3.4 of RFC 8446) ----

  datatype Cut = Cut(vec: bytes, rest: bytes)

  function Vec8(v: bytes): bytes { [Low8(|v|)] + v }

  function Vec16(v: bytes): bytes { Be16(Low16(|v|)) + v }

  function Vec24(v: bytes): bytes { Be24(|v|) + v }

  /** Splits b after its first n bytes, when it has that many. */
  function Take(b: bytes, n: nat): Option<Cut>
  {
    if |b| < n then None else Some(Cut(b[..n], b[n..]))
  }

  function Cut8(b: bytes): Option<Cut>
  {
    if |b| < 1 then None else Take(b[1..], b[0])
  }

  function Cut16(b: bytes): Option<Cut>
  {
    if |b| < 2 then None else Take(b[2..], Word(b[0], b[1]))
  }

  function Cut24(b: bytes): Option<Cut>
  {
    if |b| < 3 then None else Take(b[3..], Word24(b[0], b[1], b[2]))
  }

  lemma TakePrefix(v: bytes, rest: bytes)
    ensures Take(v + rest, |v|) == Some(Cut(v, rest))
  {
  }

  lemma CutVec8(v: bytes, rest: bytes)
    requires |v| < 0x100
    ensures Cut8(Vec8(v) + rest) == Some(Cut(v, rest))
  {
    assert (Vec8(v) + rest)[1..] == v + rest;
  }

  lemma CutVec16(v: bytes, rest: bytes)
    requires |v| < 0x1_0000
    ensures Cut16(Vec16(v) + rest) == Some(Cut(v, rest))
  {
    assert (Vec16(v) + rest)[2..] == v + rest;
  }

  lemma CutVec24(v: bytes, rest: bytes)
    requires |v| < 0x100_0000
    ensures Cut24(Vec24(v) + rest) == Some(Cut(v, rest))
  {
    hide Be24, Word24, Take;
    var h := Be24(|v|);
    var b := (h + v) + rest;
    Assoc(h, v, rest);
    assert b[0] == h[0] && b[1] == h[1] && b[2] == h[2] && b[3..] == v + rest;
    Be24Value(|v|);
    TakePrefix(v, rest);
  }

  lemma UncutVec8(b: bytes)
    requires Cut8(b).Some?
    ensures var c := Cut8(b).value; |c.vec| < 0x100 && b == Vec8(c.vec) + c.rest
  {
  }

  lemma UncutVec16(b: bytes)
    requires Cut16(b).Some?
    ensures var c := Cut16(b).value; |c.vec| < 0x1_0000 && b == Vec16(c.vec) + c.rest
  {
    var v := Cut16(b).value.vec;
    assert Low16(|v|) == Word(b[0], b[1]);
    assert Be16(Low16(|v|)) == [b[0], b[1]] by { WordInverse(b[0], b[1]); }
    assert b == [b[0], b[1]] + b[2..];
  }

  lemma UncutVec24(b: bytes)
    requires Cut24(b).Some?
    ensures var c := Cut24(b).value; |c.vec| < 0x100_0000 && b == Vec24(c.vec) + c.rest
  {
    var n := Word24(b[0], b[1], b[2]);
    var v := b[3..][..n];
    assert |v| == n;
    assert Be24(n) == b[..3] by { Word24Inverse(b[0], b[1], b[2]); }
    SplitAt(b, 3);
    SplitAt(b[3..], n);
    Assoc(b[..3], v, b[3..][n..]);
  }

  // ---- extension blocks ----

  datatype Ext = Ext(typ: u16, body: bytes)

  /** The extensions of a block, up to the first one that is cut short. */
  function Scan(b: bytes): seq<Ext>
  {
    if |b| < 4 then []
    else match Cut16(b[2..])
      case None => []
      case Some(c) => [Ext(Word(b[0], b[1]), c.vec)] + Scan(c.rest)
  }

  function EncodeExt(e: Ext): bytes { Be16(e.typ) + Vec16(e.body) }

  function EncodeExts(es: seq<Ext>): bytes
  {
    if es == [] then [] else EncodeExt(es[0]) + EncodeExts(es[1..])
  }

  ghost predicate Fits(es: seq<Ext>) { forall e :: e in es ==> |e.body| < 0x1_0000 }

  lemma ScanOne(e: Ext, rest: bytes)
    requires |e.body| < 0x1_0000
    ensures Scan(EncodeExt(e) + rest) == [e] + Scan(rest)
  {
    var b := EncodeExt(e) + rest;
    assert b[2..] == Vec16(e.body) + rest;
    CutVec16(e.body, rest);
  }

  /** Reading back an encoded list gives the list, whatever follows it. */
  lemma {:induction false} ScanEncoded(es: seq<Ext>, rest: bytes)
    requires Fits(es)
    ensures Scan(EncodeExts(es) + rest) == es + Scan(rest)
  {
    if es == [] {
      assert EncodeExts(es) + rest == rest;
    } else {
      var tail := EncodeExts(es[1..]) + rest;
      Assoc(EncodeExt(es[0]), EncodeExts(es[1..]), rest);
      ScanOne(es[0], tail);
      ScanEncoded(es[1..], rest);
      assert [es[0]] + es[1..] == es;
      Assoc([es[0]], es[1..], Scan(rest));
    }
  }

  lemma {:induction false} EncodeAppend(xs: seq<Ext>, ys: seq<Ext>)
    ensures EncodeExts(xs + ys) == EncodeExts(xs) + EncodeExts(ys)
  {
    if xs == [] {
      assert xs + ys == ys;
    } else {
      var zs := xs + ys;
      assert zs[0] == xs[0] && zs[1..] == xs[1..] + ys;
      EncodeAppend(xs[1..], ys);
      var a, b, c := EncodeExt(xs[0]), EncodeExts(xs[1..]), EncodeExts(ys);
      assert EncodeExts(zs) == a + (b + c);
      Assoc(a, b, c);
    }
  }

  lemma EncodeSnoc(xs: seq<Ext>, e: Ext)
    ensures EncodeExts(xs + [e]) == EncodeExts(xs) + EncodeExt(e)
  {
    EncodeAppend(xs, [e]);
    assert [e][1..] == [];
  }

  /** The body of the first server_name (type 0) extension. */
  function FirstName(es: seq<Ext>): Option<bytes>
  {
    if es == [] then None
    else if es[0].typ == 0 then Some(es[0].body)
    else FirstName(es[1..])
  }

  lemma {:induction false} FirstNameAfter(before: seq<Ext>, e: Ext, tail: seq<Ext>)
    requires e.typ == 0 && forall x :: x in before ==> x.typ != 0
    ensures FirstName(before + ([e] + tail)) == Some(e.body)
  {
    if before == [] {
      assert before + ([e] + tail) == [e] + tail;
    } else {
      FirstNameAfter(before[1..], e, tail);
      assert (before + ([e] + tail))[1..] == before[1..] + ([e] + tail);
    }
  }

  lemma {:induction false} FirstNameWhere(es: seq<Ext>) returns (k: nat)
    requires FirstName(es).Some?
    ensures k < |es| && es[k].typ == 0 && es[k].body == FirstName(es).value
    ensures forall i :: 0 <= i < k ==> es[i].typ != 0
  {
    if es[0].typ == 0 {
      k := 0;
    } else {
      var j := FirstNameWhere(es[1..]);
      k := j + 1;
    }
  }

  /** A scanned block is the encoding of its first k extensions followed by something. */
  lemma {:induction false} ScanSplits(b: bytes, k: nat) returns (after: bytes)
    requires k <= |Scan(b)|
    ensures b == EncodeExts(Scan(b)[..k]) + after && Fits(Scan(b)[..k])
    ensures Scan(after) == Scan(b)[k..]
  {
    hide EncodeExt;
    if k == 0 {
      after := b;
    } else {
      ScanHead(b);
      var e, tail := Scan(b)[0], Cut16(b[2..]).value.rest;
      after := ScanSplits(tail, k - 1);
      var es := Scan(b)[..k];
      assert es[1..] == Scan(tail)[..k - 1];
      Assoc(EncodeExt(e), EncodeExts(es[1..]), after);
    }
  }

  lemma ScanHead(b: bytes)
    requires Scan(b) != []
    ensures Cut16(b[2..]).Some? && |Scan(b)[0].body| < 0x1_0000
    ensures b == EncodeExt(Scan(b)[0]) + Cut16(b[2..]).value.rest
    ensures Scan(b)[1..] == Scan(Cut16(b[2..]).value.rest)
  {
    var e := Scan(b)[0];
    assert Be16(e.typ) == b[..2] by { WordInverse(b[0], b[1]); }
    UncutVec16(b[2..]);
    assert b == b[..2] + b[2..];
    Assoc(b[..2], Vec16(e.body), Cut16(b[2..]).value.rest);
  }

  // ---- the locator ----

  /** The extension block of a ClientHello body, if every length before it fits. */
  function Extensions(hello: bytes): Option<bytes>
  {
    if |hello| < 34 then None else FromSession(hello[34..])
  }

  function FromSession(b: bytes): Option<bytes>
  {
    match Cut8(b)
    case None => None
    case Some(session) => FromCiphers(session.rest)
  }

  function FromCiphers(b: bytes): Option<bytes>
  {
    match Cut16(b)
    case None => None
    case Some(ciphers) => FromCompression(ciphers.rest)
  }

  function FromCompression(b: bytes): Option<bytes>
  {
    match Cut8(b)
    case None => None
    case Some(compression) => FromBlock(compression.rest)
  }

  function FromBlock(b: bytes): Option<bytes>
  {
    match Cut16(b)
    case None => None
    case Some(block) => Some(block.vec)
  }

  datatype Located = NeedMore | Absent | Found(body: bytes)

  function LocateInBlock(block: bytes): Located
  {
    match FirstName(Scan(block))
    case None => Absent
    case Some(body) => Found(body)
  }

  function LocateInHello(hello: bytes): Located
  {
    match Extensions(hello)
    case None => Absent
    case Some(block) => LocateInBlock(block)
  }

  /** Walks handshake, hello and extension framing inside a complete record payload. */
  function LocateInPayload(payload: bytes): Located
  {
    if |payload| < 4 || payload[0] != 1 then Absent else
    match Cut24(payload[1..])
    case None => NeedMore
    case Some(hello) => LocateInHello(hello.vec)
  }

  function Locate(data: bytes): Located
  {
    if |data| < 5 then NeedMore else
    if data[0] != 0x16 then Absent else
    match Cut16(data[3..])
    case None => NeedMore
    case Some(payload) => LocateInPayload(payload.vec)
  }

  // ---- the grammar ----

  /**
   Everything a byte string with a located server_name is made of. `after`, `trailer`, `slack` and
   `rest` are the bytes that follow the found extension inside its block, the block inside the
   hello, the hello inside the record payload, and the record inside the stream.
   */
  datatype Parts = Parts(version: bytes, head: bytes, session: bytes, ciphers: bytes, compression: bytes,
                         before: seq<Ext>, body: bytes, after: bytes, trailer: bytes, slack: bytes, rest: bytes)

  function Block(p: Parts): bytes { EncodeExts(p.before) + (EncodeExt(Ext(0, p.body)) + p.after) }

  function Framed(head: bytes, session: bytes, ciphers: bytes, compression: bytes, block: bytes, trailer: bytes): bytes
  {
    head + (Vec8(session) + (Vec16(ciphers) + (Vec8(compression) + (Vec16(block) + trailer))))
  }

  function HelloBody(p: Parts): bytes { Framed(p.head, p.session, p.ciphers, p.compression, Block(p), p.trailer) }

  function Handshake(hello: bytes, slack: bytes): bytes { [1] + (Vec24(hello) + slack) }

  function Record(version: bytes, payload: bytes, rest: bytes): bytes { [0x16] + version + (Vec16(payload) + rest) }

  function Assemble(p: Parts): bytes { Record(p.version, Handshake(HelloBody(p), p.slack), p.rest) }

  /** The fixed parts have their sizes, no length prefix overflows, and no earlier server_name. */
  ghost predicate Proper(p: Parts)
  {
    && |p.version| == 2 && |p.head| == 34
    && |p.session| < 0x100 && |p.compression| < 0x100
    && |Handshake(HelloBody(p), p.slack)| < 0x1_0000
    && forall e :: e in p.before ==> e.typ != 0 && |e.body| < 0x1_0000
  }

  lemma FramedExtensions(head: bytes, session: bytes, ciphers: bytes, compression: bytes, block: bytes, trailer: bytes)
    requires |head| == 34 && |session| < 0x100 && |compression| < 0x100
    requires |ciphers| < 0x1_0000 && |block| < 0x1_0000
    ensures Extensions(Framed(head, session, ciphers, compression, block, trailer)) == Some(block)
  {
    hide Vec8, Vec16, Cut8, Cut16;
    var r3 := Vec16(block) + trailer;
    var r2 := Vec8(compression) + r3;
    var r1 := Vec16(ciphers) + r2;
    assert (head + (Vec8(session) + r1))[34..] == Vec8(session) + r1;
    CutVec8(session, r1);
    CutVec16(ciphers, r2);
    CutVec8(compression, r3);
    CutVec16(block, trailer);
  }

  lemma ExtensionsFramed(hello: bytes)
    returns (session: bytes, ciphers: bytes, compression: bytes, trailer: bytes)
    requires Extensions(hello).Some?
    ensures |session| < 0x100 && |compression| < 0x100
    ensures hello == Framed(hello[..34], session, ciphers, compression, Extensions(hello).value, trailer)
  {
    hide Vec8, Vec16, Cut8, Cut16;
    var c0 := Cut8(hello[34..]).value;
    var c1 := Cut16(c0.rest).value;
    var c2 := Cut8(c1.rest).value;
    var c3 := Cut16(c2.rest).value;
    session, ciphers, compression, trailer := c0.vec, c1.vec, c2.vec, c3.rest;
    UncutVec16(c2.rest);
    UncutVec8(c1.rest);
    UncutVec16(c0.rest);
    UncutVec8(hello[34..]);
    SplitAt(hello, 34);
  }

  lemma RecordIsLocated(version: bytes, hello: bytes, slack: bytes, rest: bytes)
    requires |version| == 2 && |Handshake(hello, slack)| < 0x1_0000
    ensures Locate(Record(version, Handshake(hello, slack), rest)) == LocateInHello(hello)
  {
    var payload := Handshake(hello, slack);
    var data := Record(version, payload, rest);
    assert data[3..] == Vec16(payload) + rest;
    CutVec16(payload, rest);
    assert payload[1..] == Vec24(hello) + slack;
    CutVec24(hello, slack);
  }

  lemma SizesNest(p: Parts)
    ensures |Handshake(HelloBody(p), p.slack)| >= |HelloBody(p)| >= |p.ciphers| + |Block(p)|
    ensures |Block(p)| >= |p.body|
  {
  }

  lemma BlockScans(p: Parts)
    requires |p.body| < 0x1_0000
    requires forall e :: e in p.before ==> e.typ != 0 && |e.body| < 0x1_0000
    ensures FirstName(Scan(Block(p))) == Some(p.body)
  {
    var e := Ext(0, p.body);
    ScanEncoded(p.before, EncodeExt(e) + p.after);
    ScanOne(e, p.after);
    FirstNameAfter(p.before, e, Scan(p.after));
  }

  /** Completeness: in every byte string of the grammar the locator finds the body. */
  lemma AssembledIsLocated(p: Parts)
    requires Proper(p)
    ensures Locate(Assemble(p)) == Found(p.body)
  {
    SizesNest(p);
    RecordIsLocated(p.version, HelloBody(p), p.slack, p.rest);
    FramedExtensions(p.head, p.session, p.ciphers, p.compression, Block(p), p.trailer);
    BlockScans(p);
  }

  /** A block with a server_name splits around its first one. */
  lemma BlockSplits(block: bytes) returns (before: seq<Ext>, body: bytes, after: bytes)
    requires FirstName(Scan(block)).Some?
    ensures block == EncodeExts(before) + (EncodeExt(Ext(0, body)) + after)
    ensures body == FirstName(Scan(block)).value
    ensures forall e :: e in before ==> e.typ != 0 && |e.body| < 0x1_0000
  {
    var es := Scan(block);
    var k := FirstNameWhere(es);
    var mid := ScanSplits(block, k);
    assert Scan(mid)[0] == es[k];
    ScanHead(mid);
    before, body, after := es[..k], es[k].body, Cut16(mid[2..]).value.rest;
  }

  lemma LocatedRecord(data: bytes) returns (version: bytes, hello: bytes, slack: bytes, rest: bytes)
    requires Locate(data).Found?
    ensures |version| == 2 && |Handshake(hello, slack)| < 0x1_0000
    ensures Record(version, Handshake(hello, slack), rest) == data
    ensures LocateInHello(hello) == Locate(data)
  {
    var outer := Cut16(data[3..]).value;
    var inner := Cut24(outer.vec[1..]).value;
    version, hello, slack, rest := data[1..3], inner.vec, inner.rest, outer.rest;
    assert outer.vec[1..] == Vec24(hello) + slack by { UncutVec24(outer.vec[1..]); }
    assert data[3..] == Vec16(outer.vec) + rest && |outer.vec| < 0x1_0000 by { UncutVec16(data[3..]); }
    assert outer.vec[..1] == [1] && data[..3] == [0x16] + version;
    SplitAt(outer.vec, 1);
    SplitAt(data, 3);
  }

  /** Soundness: a located body comes from a byte string of the grammar. */
  lemma LocatedIsAssembled(data: bytes) returns (p: Parts)
    requires Locate(data).Found?
    ensures Proper(p) && Assemble(p) == data && p.body == Locate(data).body
  {
    var version, hello, slack, rest := LocatedRecord(data);
    var session, ciphers, compression, trailer := ExtensionsFramed(hello);
    var before, body, after := BlockSplits(Extensions(hello).value);
    p := Parts(version, hello[..34], session, ciphers, compression, before, body, after, trailer, slack, rest);
    assert Block(p) == Extensions(hello).value;
    assert HelloBody(p) == hello;
  }

  /** The locator finds `body` exactly in the byte strings of the grammar that carry `body`. */
  lemma LocateIffGrammar(data: bytes, body: bytes)
    ensures Locate(data) == Found(body) <==> exists p :: Proper(p) && Assemble(p) == data && p.body == body
  {
    hide Locate, Assemble;
    if Locate(data) == Found(body) {
      var p := LocatedIsAssembled(data);
    }
    if exists p :: Proper(p) && Assemble(p) == data && p.body == body {
      var p :| Proper(p) && Assemble(p) == data && p.body == body;
      AssembledIsLocated(p);
    }
  }

  /** Once the answer is known on a prefix of the stream, more bytes do not change it. */
  lemma LocateIsStable(data: bytes, more: bytes)
    requires Locate(data) != NeedMore
    ensures Locate(data + more) == Locate(data)
  {
    if data[0] == 0x16 {
      var n := Word(data[3], data[4]);
      assert (data + more)[3..][2..][..n] == data[3..][2..][..n];
    }
  }
}
