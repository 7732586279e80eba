/** What the readers make of a built ClientHello: sizes, nested lengths and the SNI round trips. */
module RoundTrip {
  import opened Bytes
  import opened Wire
  import opened Sni
  import opened Fingerprint
  import opened ClientHello
  import opened Relay

  // ---- sizes ----

  predicate Padded(p: Profile, sni: bytes, d: Draws)
    requires d.InRange()
  {
    PadNeeded(p, sni, d) > 0
  }

  lemma EncodedPadding(es: seq<Ext>, n: nat)
    ensures |EncodeExts(es + [Ext(PADDING, seq(n, _ => 0))])| == |EncodeExts(es)| + 4 + n
  {
    EncodeSnoc(es, Ext(PADDING, seq(n, _ => 0)));
  }

  lemma HelloSize(p: Profile, sni: bytes, d: Draws)
    requires d.InRange()
    ensures |Hello(p, sni, d)| == 73 + |Be16s(Ciphers(p, d))| + |EncodeExts(Exts(p, sni, d))|
    ensures |HandshakeOf(p, sni, d)| == 4 + |Hello(p, sni, d)|
    ensures |Built(p, sni, d)| == 9 + |Hello(p, sni, d)|
  {
    hide Exts, Ciphers, EncodeExts, Be16s;
  }

  /**
   The padding computation (section 3 of RFC 7685) counts the extension length field twice, so a
   padded hello misses its target by exactly two bytes and an unpadded one is at most six short.
   */
  lemma PaddingIsExact(p: Profile, sni: bytes, d: Draws)
    requires d.InRange()
    ensures var target := 512 + (d.jitter - 16);
            if Padded(p, sni, d) then
              && |Hello(p, sni, d)| == target - 2
              && |Built(p, sni, d)| == target + 7
              && 503 <= |Built(p, sni, d)| <= 535
            else
              |Hello(p, sni, d)| >= target - 6
  {
    hide EncodeExts, PlainExts, Be16s, Ciphers, Hello, HandshakeOf, Built;
    HelloSize(p, sni, d);
    if Padded(p, sni, d) {
      EncodedPadding(PlainExts(p, sni, d), PadNeeded(p, sni, d));
    } else {
      assert Exts(p, sni, d) == PlainExts(p, sni, d);
    }
  }

  // ---- nested lengths ----

  lemma {:induction false} EncodedBodiesFit(es: seq<Ext>)
    ensures forall e :: e in es ==> |e.body| + 4 <= |EncodeExts(es)|
  {
    if es != [] {
      EncodedBodiesFit(es[1..]);
      assert |EncodeExt(es[0])| == 4 + |es[0].body|;
      assert forall e :: e in es ==> e == es[0] || e in es[1..];
    }
  }

  /**
   While the handshake fits its 16-bit record length, every length prefix equals what it covers and
   nothing trails: the strict cuts leave no rest, and the scanned extensions are the written ones.
   */
  lemma LengthsNest(p: Profile, sni: bytes, d: Draws)
    requires d.InRange() && |HandshakeOf(p, sni, d)| < 0x1_0000
    ensures Cut16(Built(p, sni, d)[3..]) == Some(Cut(HandshakeOf(p, sni, d), []))
    ensures Cut24(HandshakeOf(p, sni, d)[1..]) == Some(Cut(Hello(p, sni, d), []))
    ensures Extensions(Hello(p, sni, d)) == Some(EncodeExts(Exts(p, sni, d)))
    ensures Scan(EncodeExts(Exts(p, sni, d))) == Exts(p, sni, d)
  {
    hide Exts, Ciphers, EncodeExts, Be16s, Vec16, Vec24, Cut16, Cut24, Scan, Extensions;
    HelloSize(p, sni, d);
    var es, cs, hello, hs := Exts(p, sni, d), Be16s(Ciphers(p, d)), Hello(p, sni, d), HandshakeOf(p, sni, d);
    assert Built(p, sni, d)[3..] == Vec16(hs) + [];
    CutVec16(hs, []);
    assert hs[1..] == Vec24(hello) + [];
    CutVec24(hello, []);
    FramedExtensions(Be16(0x0303) + d.random, d.session, cs, [0x00], EncodeExts(es), []);
    ExtsScan(es);
  }

  lemma ExtsScan(es: seq<Ext>)
    requires |EncodeExts(es)| < 0x1_0000
    ensures Fits(es) && Scan(EncodeExts(es)) == es
  {
    EncodedBodiesFit(es);
    ScanEncoded(es, []);
    assert EncodeExts(es) + [] == EncodeExts(es);
    assert Scan([]) == [] && es + [] == es;
  }

  // ---- the server_name of a built hello ----

  lemma {:induction false} FirstNameAppend(xs: seq<Ext>, ys: seq<Ext>)
    ensures FirstName(xs + ys) == if FirstName(xs).Some? then FirstName(xs) else FirstName(ys)
  {
    if xs == [] {
      assert xs + ys == ys;
    } else {
      FirstNameAppend(xs[1..], ys);
      assert (xs + ys)[1..] == xs[1..] + ys;
    }
  }

  lemma {:induction false} FirstNameChosen(order: seq<u16>, bodies: map<u16, bytes>)
    requires SNI in bodies
    ensures FirstName(Chosen(order, bodies)) == if SNI in order then Some(bodies[SNI]) else None
  {
    if order != [] {
      FirstNameChosen(order[1..], bodies);
      var head := if order[0] in bodies then [Ext(order[0], bodies[order[0]])] else [];
      FirstNameAppend(head, Chosen(order[1..], bodies));
    }
  }

  lemma NoNameInOne(e: Ext)
    requires e.typ != SNI
    ensures FirstName([e]) == None
  {
  }

  lemma BuiltFirstName(p: Profile, sni: bytes, d: Draws)
    requires d.InRange()
    ensures FirstName(Exts(p, sni, d)) == if SNI in p.order then Some(SniBody(sni)) else None
  {
    hide EncodeExts, PadNeeded, SniBody, Vec16, Vec8, FirstName, Chosen;
    var bodies := Bodies(p, sni, d.keyShare);
    assert SNI in bodies && bodies[SNI] == SniBody(sni);
    FirstNameChosen(p.order, bodies);
    GreaseForm(d.extGrease);
    var g := Ext(Grease(d.extGrease), [0x00]);
    NoNameInOne(g);
    EmptyHasNoName();
    FirstNameAppend([g], Chosen(p.order, bodies));
    FirstNameAppend([], Chosen(p.order, bodies));
    if PadNeeded(p, sni, d) > 0 {
      var pad := Ext(PADDING, seq(PadNeeded(p, sni, d), _ => 0));
      NoNameInOne(pad);
      FirstNameAppend(PlainExts(p, sni, d), [pad]);
    }
    FirstNameAppend(PlainExts(p, sni, d), []);
  }

  lemma EmptyHasNoName()
    ensures FirstName([]) == None
  {
  }

  lemma SniBodyNames(sni: bytes)
    requires |sni| + 5 < 0x1_0000
    ensures HostName(SniBody(sni)) == sni && AnyName(SniBody(sni)) == sni
    ensures |SniBody(sni)| == |sni| + 5
  {
    hide Be16, Word;
    var b, h := SniBody(sni), Be16(|sni|);
    assert Low16(|sni|) == |sni|;
    assert b[2..] == [0x00] + (h + sni);
    assert b[2] == 0 && b[3] == h[0] && b[4] == h[1] && b[5..] == sni;
  }

  lemma BuiltIsLocated(p: Profile, sni: bytes, d: Draws)
    requires d.InRange() && |HandshakeOf(p, sni, d)| < 0x1_0000
    ensures Locate(Built(p, sni, d)) == if SNI in p.order then Found(SniBody(sni)) else Absent
    ensures SNI in p.order ==> |sni| + 5 < 0x1_0000
  {
    hide Exts, EncodeExts, Locate, SniBody, Vec16, Framed;
    LengthsNest(p, sni, d);
    HelloSize(p, sni, d);
    RecordIsLocated(Be16(0x0301), Hello(p, sni, d), [], []);
    BuiltFirstName(p, sni, d);
    if SNI in p.order {
      var es := Exts(p, sni, d);
      EncodedBodiesFit(es);
      var k := FirstNameWhere(es);
      assert es[k] in es && es[k].body == SniBody(sni);
      assert |SniBody(sni)| == |sni| + 5 by { SniBodySize(sni); }
    }
  }

  lemma SniBodySize(sni: bytes)
    ensures |SniBody(sni)| == |sni| + 5
  {
  }

  /** What the 24-bit hello length keeps of an overlong hello; nothing is lost below 2^24. */
  function Kept(hello: bytes): bytes { hello[..|hello| % 0x100_0000] }

  /**
   An overflowing handshake is cut short by its own record length. Only a hello of 2^24 bytes or more
   can wrap its own length as well, so far that what is left of it fits the record again.
   */
  lemma OverflowIsCut(p: Profile, sni: bytes, d: Draws)
    requires d.InRange() && 0x1_0000 <= |HandshakeOf(p, sni, d)|
    ensures var n, kept := |HandshakeOf(p, sni, d)| % 0x1_0000, Kept(Hello(p, sni, d));
            Locate(Built(p, sni, d))
            == if n < 4 then Absent else if n < 4 + |kept| then NeedMore else LocateInHello(kept)
    ensures |Hello(p, sni, d)| < 0x100_0000 ==> |HandshakeOf(p, sni, d)| % 0x1_0000 < 4 + |Kept(Hello(p, sni, d))|
  {
    hide Hello, LocateInPayload, LocateInHello, Vec16, Cut16, LowPart, Handshake, Kept;
    var hello, hs := Hello(p, sni, d), HandshakeOf(p, sni, d);
    assert Built(p, sni, d)[3..] == Vec16(hs);
    CutOverflow(hs);
    CutPayload(hello);
    HandshakeSize(hello);
    HelloSize(p, sni, d);
    assert |Kept(hello)| == |hello| % 0x100_0000 by { KeptSize(hello); }
  }

  lemma KeptSize(hello: bytes)
    ensures |Kept(hello)| == |hello| % 0x100_0000
  {
  }

  lemma CutPayload(hello: bytes)
    ensures var n, kept := |Handshake(hello, [])| % 0x1_0000, Kept(hello);
            LocateInPayload(LowPart(Handshake(hello, [])))
            == if n < 4 then Absent else if n < 4 + |kept| then NeedMore else LocateInHello(kept)
  {
    hide Word24, Cut24, Be24, LocateInHello;
    var h, k := Be24(|hello|), |hello| % 0x100_0000;
    var hs := [1] + ((h + hello) + []);
    assert hs == Handshake(hello, []) && hs == ([1] + h) + hello;
    var payload := LowPart(hs);
    if |payload| >= 4 {
      assert payload[1] == h[0] && payload[2] == h[1] && payload[3] == h[2];
      Be24Low(|hello|);
      Cursor24(payload, 1);
      if 4 + k <= |payload| { SliceInPrefix([1] + h, hello, |payload|, k); }
    }
  }

  lemma SliceInPrefix<T>(a: seq<T>, c: seq<T>, n: nat, k: nat)
    requires |a| + k <= n <= |a + c|
    ensures (a + c)[..n][|a|..|a| + k] == c[..k]
  {
  }

  lemma Be24Low(v: nat)
    ensures var b := Be24(v); Word24(b[0], b[1], b[2]) == v % 0x100_0000
  {
    hide Be24, Word24;
    DropsHighBits(v / 0x100_0000, v % 0x100_0000);
    Be24Value(v % 0x100_0000);
  }

  lemma DropsHighBits(q: nat, r: nat)
    ensures Be24(0x100_0000 * q + r) == Be24(r)
  {
    var v := 0x100_0000 * q + r;
    assert v / 0x1_0000 == 0x100 * q + r / 0x1_0000;
    assert Low8(v / 0x1_0000) == Low8(r / 0x1_0000) by { assert v / 0x1_0000 % 0x100 == r / 0x1_0000 % 0x100; }
    assert Low16(v) == Low16(r);
  }

  lemma HandshakeSize(hello: bytes)
    ensures |Handshake(hello, [])| == 4 + |hello|
  {
  }

  /** What a 16-bit length keeps of a vector. */
  function LowPart(v: bytes): bytes { v[..|v| % 0x1_0000] }

  /** A vector longer than its 16-bit length is cut to the part the length keeps. */
  lemma CutOverflow(v: bytes)
    ensures Cut16(Vec16(v)).Some? && Cut16(Vec16(v)).value.vec == LowPart(v)
  {
    var b, h := Vec16(v), Be16(Low16(|v|));
    assert b[0] == h[0] && b[1] == h[1] && b[2..] == v;
  }

  /** The answer that gives a hello's own name back. */
  function Wanted(sni: bytes): Answer { Answer(sni, true) }

  /** The kept part of an overlong hello fits the record and `read` takes this name from it. */
  predicate KeptReadsAs(p: Profile, sni: bytes, d: Draws, read: bytes -> bytes)
    requires d.InRange()
  {
    && 4 + |Kept(Hello(p, sni, d))| <= |HandshakeOf(p, sni, d)| % 0x1_0000
    && sni == match LocateInHello(Kept(Hello(p, sni, d))) case Found(body) => read(body) case _ => []
  }

  /**
   ExtractSNI reads the name back exactly when the handshake fits its record length. (The other two
   alternatives need profiles of over 65000 bytes around a short name: the empty answer is right by
   accident, or the hello is so long that its own length wraps and a readable part is left.)
   */
  lemma ExtractRoundTrip(p: Profile, sni: bytes, d: Draws)
    requires d.InRange() && SNI in p.order
    ensures var n := |HandshakeOf(p, sni, d)|;
            Extract(Built(p, sni, d)) == Wanted(sni)
            <==> n < 0x1_0000 || (sni == [] && n % 0x1_0000 < 4) || KeptReadsAs(p, sni, d, HostName)
  {
    hide Locate, Built, HandshakeOf, Hello, Kept, HostName, AnyName, SniBody;
    if |HandshakeOf(p, sni, d)| < 0x1_0000 {
      BuiltIsLocated(p, sni, d);
      SniBodyNames(sni);
    } else {
      OverflowIsCut(p, sni, d);
    }
  }

  /**
   parseSNI reads it back exactly when the handshake is also within 16384 bytes; for an empty name
   the empty answer is moreover right wherever parseSNI gives up with a final answer.
   */
  lemma ParseRoundTrip(p: Profile, sni: bytes, d: Draws)
    requires d.InRange() && SNI in p.order
    ensures var n := |HandshakeOf(p, sni, d)|;
            Parse(Built(p, sni, d)) == Wanted(sni)
            <==> || n <= 16384
                 || (sni == [] && (n < 0x1_0000 || n % 0x1_0000 < 4 || n % 0x1_0000 > 16384))
                 || (n >= 0x1_0000 && n % 0x1_0000 <= 16384 && KeptReadsAs(p, sni, d, AnyName))
  {
    hide Locate, Built, HandshakeOf, Hello, Kept, HostName, AnyName, SniBody, Oversized, RecordLength;
    BuiltOversized(p, sni, d);
    if |HandshakeOf(p, sni, d)| < 0x1_0000 {
      BuiltIsLocated(p, sni, d);
      SniBodyNames(sni);
    } else {
      OverflowIsCut(p, sni, d);
    }
  }

  /** No hello below 2^24 bytes reads from a wrapped length. */
  lemma KeptNeedsSixteenMegabytes(p: Profile, sni: bytes, d: Draws, read: bytes -> bytes)
    requires d.InRange() && 0x1_0000 <= |HandshakeOf(p, sni, d)| && |Hello(p, sni, d)| < 0x100_0000
    ensures !KeptReadsAs(p, sni, d, read)
  {
    hide HandshakeOf, Hello, Kept;
    OverflowIsCut(p, sni, d);
  }

  lemma BuiltOversized(p: Profile, sni: bytes, d: Draws)
    requires d.InRange()
    ensures Oversized(Built(p, sni, d)) <==> |HandshakeOf(p, sni, d)| % 0x1_0000 > 16384
    ensures |Built(p, sni, d)| >= 5 && |Built(p, sni, d)| >= 5 + RecordLength(Built(p, sni, d))
  {
    hide HandshakeOf;
    var hs := HandshakeOf(p, sni, d);
    var b, h := ClientHelloRecord(hs), Be16(Low16(|hs|));
    assert b[3] == h[0] && b[4] == h[1] by { assert b[3..] == h + hs; }
  }

  // ---- the shipped profiles ----

  ghost predicate Modest(p: Profile)
  {
    && p.order != [] && p.order[0] == SNI && SNI !in p.order[1..] && |p.order| <= 14
    && |p.cipherSuites| <= 20 && |p.groups| <= 20 && |p.sigAlgs| <= 20 && |p.versions| <= 20
    && |p.pskModes| <= 20 && |Vec8s(p.alpn)| <= 20
    && (p.compressCert.Some? ==> |p.compressCert.value| <= 20)
  }

  lemma ShippedAreModest(name: string, pick: nat)
    requires pick < 5
    ensures Modest(GetProfile(name, pick))
  {
    hide Modest;
    assert Modest(CHROME124) by { Modesty(CHROME124); }
    assert Modest(FIREFOX125) by { Modesty(FIREFOX125); }
    assert Modest(SAFARI17) by { Modesty(SAFARI17); }
    assert Modest(EDGE124) by { Modesty(EDGE124); }
    assert Modest(CHROME120) by { Modesty(CHROME120); }
  }

  lemma Modesty(p: Profile)
    requires p.order != [] && p.order[0] == SNI && (forall i :: 1 <= i < |p.order| ==> p.order[i] != SNI)
    requires |p.order| <= 14 && p.alpn == WEB_PROTOCOLS
    requires |p.cipherSuites| <= 20 && |p.groups| <= 20 && |p.sigAlgs| <= 20 && |p.versions| <= 20
    requires |p.pskModes| <= 20 && (p.compressCert.Some? ==> |p.compressCert.value| <= 20)
    ensures Modest(p)
  {
    hide Vec8s;
    assert |Vec8s(WEB_PROTOCOLS)| <= 20 by { WebProtocolsAreShort(); }
  }

  lemma WebProtocolsAreShort()
    ensures |Vec8s(WEB_PROTOCOLS)| == 12
  {
    var w := WEB_PROTOCOLS;
    assert |Vec8s(w[1..][1..])| == 0;
    assert |Vec8s(w[1..])| == 9;
  }

  lemma {:induction false} ChosenIsBounded(order: seq<u16>, bodies: map<u16, bytes>, bound: nat)
    requires forall t :: t in order && t in bodies ==> |bodies[t]| <= bound
    ensures |EncodeExts(Chosen(order, bodies))| <= |order| * (4 + bound)
  {
    hide EncodeExts, EncodeExt;
    if order == [] {
      assert |EncodeExts([])| == 0 by { NoExts(bodies); }
      NoExts(bodies);
    } else {
      var rest := Chosen(order[1..], bodies);
      ChosenIsBounded(order[1..], bodies, bound);
      var n := |order[1..]|;
      assert |order| * (4 + bound) == n * (4 + bound) + (4 + bound);
      if order[0] in bodies {
        var e := Ext(order[0], bodies[order[0]]);
        EncodeCons(e, rest);
      } else {
        assert [] + rest == rest;
      }
    }
  }

  lemma EncodeCons(e: Ext, rest: seq<Ext>)
    ensures |EncodeExts([e] + rest)| == 4 + |e.body| + |EncodeExts(rest)|
  {
    assert ([e] + rest)[1..] == rest;
  }

  lemma BodiesAreBounded(p: Profile, sni: bytes, keyShare: Block32)
    requires Modest(p)
    ensures forall t :: t in Bodies(p, sni, keyShare) && t != SNI ==> |Bodies(p, sni, keyShare)[t]| <= 100
  {
    hide Be16s, Vec8s, Be16, SniBody;
    Be16sLength(p.groups);
    Be16sLength(p.sigAlgs);
    Be16sLength(p.versions);
  }

  lemma SniComesFirst(p: Profile, sni: bytes, keyShare: Block32)
    requires Modest(p)
    ensures var bodies := Bodies(p, sni, keyShare);
            Chosen(p.order, bodies) == [Ext(SNI, SniBody(sni))] + Chosen(p.order[1..], bodies)
  {
    hide SniBody, Vec16, Vec8, KeyShareBody, VersionsBody;
  }

  /** Beside its name a shipped hello has at most 2000 bytes, and at least 88 around it. */
  lemma ModestSizes(p: Profile, sni: bytes, d: Draws)
    requires d.InRange() && Modest(p)
    ensures |Be16s(Ciphers(p, d))| <= 44
    ensures |sni| + 9 <= |EncodeExts(Exts(p, sni, d))|
    ensures |EncodeExts(Exts(p, sni, d))| <= |sni| + 1500
    ensures |sni| + 88 <= |HandshakeOf(p, sni, d)| <= |sni| + 2000
  {
    hide Bodies, Chosen, EncodeExts, Be16s, Vec8s, SniBody, PadNeeded, Hello, HandshakeOf;
    HelloSize(p, sni, d);
    Be16sLength(Ciphers(p, d));
    ChosenSize(p, sni, d.keyShare);
    var chosen := Chosen(p.order, Bodies(p, sni, d.keyShare));
    var first := if p.useGrease then [Ext(Grease(d.extGrease), [0x00])] else [];
    EncodeAppend(first, chosen);
    assert |EncodeExts(first)| <= 5 by { OneExtension(first); }
    PaddingAdds(p, sni, d);
  }

  lemma PaddingAdds(p: Profile, sni: bytes, d: Draws)
    requires d.InRange()
    ensures var plain, all := |EncodeExts(PlainExts(p, sni, d))|, |EncodeExts(Exts(p, sni, d))|;
            plain <= all && (all == plain || all <= 529)
  {
    hide EncodeExts, PlainExts, Be16s, Ciphers;
    if Padded(p, sni, d) {
      EncodedPadding(PlainExts(p, sni, d), PadNeeded(p, sni, d));
    } else {
      assert Exts(p, sni, d) == PlainExts(p, sni, d);
    }
  }

  lemma ChosenSize(p: Profile, sni: bytes, keyShare: Block32)
    requires Modest(p)
    ensures |sni| + 9 <= |EncodeExts(Chosen(p.order, Bodies(p, sni, keyShare)))| <= |sni| + 9 + 13 * 104
  {
    hide Bodies, Chosen, EncodeExts, SniBody;
    var bodies := Bodies(p, sni, keyShare);
    BodiesAreBounded(p, sni, keyShare);
    SniComesFirst(p, sni, keyShare);
    SniBodySize(sni);
    EncodeCons(Ext(SNI, SniBody(sni)), Chosen(p.order[1..], bodies));
    ChosenIsBounded(p.order[1..], bodies, 100);
  }

  lemma OneExtension(es: seq<Ext>)
    requires |es| <= 1 && forall e :: e in es ==> |e.body| == 1
    ensures |EncodeExts(es)| <= 5
  {
    if es != [] { assert es[1..] == []; }
  }

  lemma NameIsShort(data: bytes)
    ensures |Extract(data).sni| < 0x1_0000 && |Parse(data).sni| < 0x1_0000
  {
    hide Locate, Word;
  }

  /** For every profile a caller can get, every name and every draw: both round trips, exactly. */
  lemma ShippedRoundTrips(name: string, pick: nat, sni: bytes, d: Draws)
    requires pick < 5 && d.InRange()
    ensures var p := GetProfile(name, pick);
            && (Extract(Built(p, sni, d)) == Wanted(sni) <==> |HandshakeOf(p, sni, d)| < 0x1_0000)
            && (Parse(Built(p, sni, d)) == Wanted(sni) <==> |HandshakeOf(p, sni, d)| <= 16384)
  {
    hide Extract, Parse, GetProfile, Hello, HandshakeOf, Built, KeptReadsAs, Modest;
    var p := GetProfile(name, pick);
    ShippedAreModest(name, pick);
    assert SNI in p.order by { ModestNames(p); }
    ModestSizes(p, sni, d);
    HelloSize(p, sni, d);
    NameIsShort(Built(p, sni, d));
    if 0x1_0000 <= |HandshakeOf(p, sni, d)| && |sni| < 0x1_0000 {
      KeptNeedsSixteenMegabytes(p, sni, d, HostName);
      KeptNeedsSixteenMegabytes(p, sni, d, AnyName);
    }
    ExtractRoundTrip(p, sni, d);
    ParseRoundTrip(p, sni, d);
  }

  lemma ModestNames(p: Profile)
    requires Modest(p)
    ensures SNI in p.order
  {
  }

  /** In particular every name of up to 14000 bytes, hence every DNS name, is read back by both readers. */
  lemma HostNamesRoundTrip(name: string, pick: nat, sni: bytes, d: Draws)
    requires pick < 5 && d.InRange() && |sni| <= 14000
    ensures var record := Built(GetProfile(name, pick), sni, d);
            Extract(record) == Wanted(sni) && Parse(record) == Wanted(sni)
  {
    hide Extract, Parse, GetProfile, Hello, HandshakeOf, Built;
    var p := GetProfile(name, pick);
    ShippedAreModest(name, pick);
    ModestSizes(p, sni, d);
    ShippedRoundTrips(name, pick, sni, d);
  }

  /** And every name that fills the record or the handshake limit on its own is lost. */
  lemma LongNamesAreLost(name: string, pick: nat, sni: bytes, d: Draws)
    requires pick < 5 && d.InRange()
    ensures var record := Built(GetProfile(name, pick), sni, d);
            && (|sni| >= 0x1_0000 - 88 ==> Extract(record) != Wanted(sni))
            && (|sni| >= 16385 - 88 ==> Parse(record) != Wanted(sni))
  {
    hide Extract, Parse, GetProfile, Hello, HandshakeOf, Built;
    var p := GetProfile(name, pick);
    ShippedAreModest(name, pick);
    ModestSizes(p, sni, d);
    ShippedRoundTrips(name, pick, sni, d);
  }
}
