/**
 What Builder.Build of internal/tls/clienthello.go writes, read back from the bytes: every field of
 the record and the body of every extension, in offsets and plain numbers. Extension types and body
 layouts are those of section 4.2 of RFC 8446, section 3 of RFC 6066, section 3.1 of RFC 7301,
 section 3 of RFC 7685 and section 3.2 of RFC 5746.
 */
module ReadBack {
  import opened Bytes
  import opened Wire
  import opened Fingerprint
  import opened ClientHello
  import opened RoundTrip
  import opened Ja3

  // ---- readers ----

  /** Sixteen-bit numbers from an offset to the end. */
  ghost predicate WordsFrom(b: bytes, at: nat, vs: seq<u16>)
  {
    |b| == at + 2 * |vs| && forall i :: 0 <= i < |vs| ==> U16At(b, at + 2 * i) == vs[i]
  }

  /** A list of numbers behind its two-byte length. */
  ghost predicate WordList(b: bytes, vs: seq<u16>)
  {
    WordsFrom(b, 2, vs) && U16At(b, 0) == 2 * |vs|
  }

  /** Names, each behind its one-byte length. */
  ghost predicate NamesIn(b: bytes, names: seq<bytes>)
  {
    if names == [] then b == [] else
    var n := |names[0]|;
    |b| >= 1 + n && b[0] == n && b[1..1 + n] == names[0] && NamesIn(b[1 + n..], names[1..])
  }

  /** Extensions, each a type, a length and that many bytes. */
  ghost predicate ExtensionsIn(b: bytes, es: seq<Ext>)
  {
    if es == [] then b == [] else
    var n := |es[0].body|;
    && |b| >= 4 + n && U16At(b, 0) == es[0].typ && U16At(b, 2) == n && b[4..4 + n] == es[0].body
    && ExtensionsIn(b[4 + n..], es[1..])
  }

  // ---- what the bodies must be ----

  /** The profile's lists fit their one-byte lengths. */
  ghost predicate Encodable(p: Profile)
  {
    && 2 * |p.versions| < 256 && |p.pskModes| < 256
    && forall i :: 0 <= i < |p.alpn| ==> |p.alpn[i]| < 256
  }

  ghost predicate NameBody(b: bytes, sni: bytes)
  {
    && |b| == 5 + |sni| && U16At(b, 0) == 3 + |sni| && b[2] == 0 && U16At(b, 3) == |sni| && b[5..] == sni
  }

  /** One entry: group 29 (X25519), 32 bytes, and the drawn key. */
  ghost predicate ShareBody(b: bytes, key: bytes)
  {
    |b| == 38 && U16At(b, 0) == 36 && U16At(b, 2) == 29 && U16At(b, 4) == 32 && b[6..] == key
  }

  ghost predicate VersionBody(b: bytes, versions: seq<u16>)
  {
    WordsFrom(b, 1, versions) && b[0] == 2 * |versions|
  }

  ghost predicate ProtocolBody(b: bytes, names: seq<bytes>)
  {
    |b| >= 2 && U16At(b, 0) == |b| - 2 && NamesIn(b[2..], names)
  }

  ghost predicate ModeBody(b: bytes, modes: bytes)
  {
    |b| == 1 + |modes| && b[0] == |modes| && b[1..] == modes
  }

  ghost predicate BodyIs(p: Profile, sni: bytes, key: bytes, typ: u16, b: bytes)
  {
    match typ
    case 0 => NameBody(b, sni)
    case 5 => b == [1, 0, 0, 0, 0]
    case 10 => WordList(b, p.groups)
    case 11 => b == [1, 0]
    case 13 => WordList(b, p.sigAlgs)
    case 16 => ProtocolBody(b, p.alpn)
    case 18 => b == []
    case 21 => forall i :: 0 <= i < |b| ==> b[i] == 0
    case 23 => b == []
    case 27 => p.compressCert == Some(b)
    case 35 => b == []
    case 43 => VersionBody(b, p.versions)
    case 45 => ModeBody(b, p.pskModes)
    case 51 => ShareBody(b, key)
    case 65281 => b == [0]
    case _ => IsGrease(typ) && b == [0]
  }

  // ---- what the writers' bodies are ----

  lemma {:induction false} Be16sAt(vs: seq<u16>, i: nat)
    requires i < |vs|
    ensures |Be16s(vs)| == 2 * |vs| && U16At(Be16s(vs), 2 * i) == vs[i]
  {
    hide Be16;
    Be16sLength(vs);
    var b, h := Be16s(vs), Be16(vs[0]);
    if i == 0 {
      assert b[0] == h[0] && b[1] == h[1];
    } else {
      Be16sAt(vs[1..], i - 1);
      assert b[2 * i] == Be16s(vs[1..])[2 * (i - 1)] && b[2 * i + 1] == Be16s(vs[1..])[2 * (i - 1) + 1];
    }
  }

  lemma WordsBehind(head: bytes, vs: seq<u16>)
    ensures WordsFrom(head + Be16s(vs), |head|, vs)
  {
    hide Be16s;
    Be16sLength(vs);
    forall i | 0 <= i < |vs| ensures U16At(head + Be16s(vs), |head| + 2 * i) == vs[i] { Be16sAt(vs, i); }
  }

  lemma LengthOf(v: bytes, rest: bytes)
    requires |v| < 0x1_0000
    ensures |Vec16(v)| == 2 + |v| && U16At(Vec16(v) + rest, 0) == |v| && (Vec16(v) + rest)[2..] == v + rest
  {
    hide Be16;
    LowIsItself(|v|);
    var h := Be16(|v|);
    assert (Vec16(v) + rest)[0] == h[0] && (Vec16(v) + rest)[1] == h[1];
  }

  lemma ListBody(vs: seq<u16>)
    requires 2 * |vs| + 2 < 0x1_0000
    ensures WordList(Vec16(Be16s(vs)), vs)
  {
    hide Be16s, Be16, Low16;
    Be16sLength(vs);
    LengthOf(Be16s(vs), []);
    assert Vec16(Be16s(vs)) + [] == Vec16(Be16s(vs));
    WordsBehind(Be16(Low16(|Be16s(vs)|)), vs);
  }

  lemma SniBodyIs(sni: bytes)
    requires |sni| + 5 < 0x1_0000
    ensures NameBody(SniBody(sni), sni)
  {
    hide Vec16, U16At;
    SniBodySize(sni);
    var entry := [0x00] + Vec16(sni);
    LengthOf(sni, []);
    assert Vec16(sni) + [] == Vec16(sni);
    LengthOf(entry, []);
    assert Vec16(entry) + [] == Vec16(entry);
    var b := SniBody(sni);
    assert b[2..] == entry && b[3..] == Vec16(sni);
    AtTail(b, 3, 0);
    assert b[5..] == Vec16(sni)[2..];
  }

  lemma AtTail(b: bytes, from: nat, at: nat)
    requires from + at + 2 <= |b|
    ensures U16At(b[from..], at) == U16At(b, from + at)
  {
  }

  lemma KeyShareBodyIs(key: Block32)
    ensures ShareBody(KeyShareBody(key), key)
  {
    hide Be16, Vec16, U16At;
    var k, l := Be16(0x001D), Be16(32);
    var entry := k + l + key;
    LengthOf(entry, []);
    var b := KeyShareBody(key);
    assert b + [] == b && b[2..] == entry;
    assert b[2] == k[0] && b[3] == k[1] && b[4] == l[0] && b[5] == l[1] by {
      assert b[2..][0] == k[0] && b[2..][1] == k[1] && b[2..][2] == l[0] && b[2..][3] == l[1];
    }
    assert b[6..] == entry[4..] == key;
    NumberAt(b, 2, 29);
    NumberAt(b, 4, 32);
  }

  lemma VersionsBodyIs(versions: seq<u16>)
    requires 2 * |versions| < 256
    ensures VersionBody(VersionsBody(versions), versions)
  {
    hide Be16s;
    WordsBehind([Low8(2 * |versions|)], versions);
  }

  lemma {:induction false} Vec8sAreNames(names: seq<bytes>)
    requires forall i :: 0 <= i < |names| ==> |names[i]| < 256
    ensures NamesIn(Vec8s(names), names)
  {
    if names != [] {
      var n, rest := |names[0]|, Vec8s(names[1..]);
      Vec8sAreNames(names[1..]);
      var b := Vec8s(names);
      assert b == [Low8(n)] + names[0] + rest;
      assert b[1 + n..] == rest;
    }
  }

  lemma ProtocolsBodyIs(names: seq<bytes>)
    requires |Vec8s(names)| + 2 < 0x1_0000 && forall i :: 0 <= i < |names| ==> |names[i]| < 256
    ensures ProtocolBody(Vec16(Vec8s(names)), names)
  {
    hide Vec8s, Be16, NamesIn;
    Vec8sAreNames(names);
    LengthOf(Vec8s(names), []);
    assert Vec16(Vec8s(names)) + [] == Vec16(Vec8s(names)) && Vec8s(names) + [] == Vec8s(names);
  }

  lemma ModesBodyIs(modes: bytes)
    requires |modes| < 256
    ensures ModeBody(Vec8(modes), modes)
  {
  }

  lemma VecSize(v: bytes)
    ensures |Vec16(v)| == 2 + |v|
  {
  }

  /** Every body the extension map holds is what its type calls for. */
  lemma MappedBodyIs(p: Profile, sni: bytes, key: Block32, t: u16)
    requires Encodable(p) && t in Bodies(p, sni, key) && |Bodies(p, sni, key)[t]| < 0x1_0000
    ensures BodyIs(p, sni, key, t, Bodies(p, sni, key)[t])
  {
    hide Vec16, Vec8, Be16s, Vec8s, SniBody, KeyShareBody, VersionsBody, NameBody, ShareBody, VersionBody, ProtocolBody,
         ModeBody, WordList, IsGrease;
    if t == SNI { SniBodySize(sni); SniBodyIs(sni); }
    if t == SUPPORTED_GROUPS { Be16sLength(p.groups); VecSize(Be16s(p.groups)); ListBody(p.groups); }
    if t == SIG_ALGS { Be16sLength(p.sigAlgs); VecSize(Be16s(p.sigAlgs)); ListBody(p.sigAlgs); }
    if t == ALPN { VecSize(Vec8s(p.alpn)); ProtocolsBodyIs(p.alpn); }
    if t == KEY_SHARE { KeyShareBodyIs(key); }
    if t == SUPPORTED_VERSIONS { VersionsBodyIs(p.versions); }
    if t == PSK_KEY_EXCH_MODES { ModesBodyIs(p.pskModes); }
  }

  // ---- the extension block ----

  lemma {:induction false} EncodedAreIn(es: seq<Ext>)
    requires Fits(es)
    ensures ExtensionsIn(EncodeExts(es), es)
  {
    if es != [] {
      EncodedAreIn(es[1..]);
      OneIsIn(es[0], EncodeExts(es[1..]));
    }
  }

  lemma OneIsIn(e: Ext, rest: bytes)
    requires |e.body| < 0x1_0000
    ensures var b, n := EncodeExt(e) + rest, |e.body|;
            |b| >= 4 + n && U16At(b, 0) == e.typ && U16At(b, 2) == n && b[4..4 + n] == e.body && b[4 + n..] == rest
  {
    hide Be16, Low16;
    LowIsItself(|e.body|);
    var h, k := Be16(e.typ), Be16(|e.body|);
    var b := h + (k + e.body) + rest;
    assert b == EncodeExt(e) + rest;
    assert b[0] == h[0] && b[1] == h[1] && b[2] == k[0] && b[3] == k[1];
  }

  lemma {:induction false} ChosenComeFrom(order: seq<u16>, m: map<u16, bytes>)
    ensures forall e :: e in Chosen(order, m) ==> e.typ in m && e.body == m[e.typ]
  {
    if order != [] { ChosenComeFrom(order[1..], m); }
  }

  function TypesOf(es: seq<Ext>): seq<u16> { if es == [] then [] else [es[0].typ] + TypesOf(es[1..]) }

  lemma {:induction false} TypesOfAppend(xs: seq<Ext>, ys: seq<Ext>)
    ensures TypesOf(xs + ys) == TypesOf(xs) + TypesOf(ys)
  {
    if xs == [] {
      assert xs + ys == ys;
    } else {
      var zs := xs + ys;
      assert zs[0] == xs[0] && zs[1..] == xs[1..] + ys;
      TypesOfAppend(xs[1..], ys);
      Assoc([xs[0].typ], TypesOf(xs[1..]), TypesOf(ys));
    }
  }

  lemma {:induction false} TypesOfChosen(order: seq<u16>, m: map<u16, bytes>)
    ensures TypesOf(Chosen(order, m)) == CarriedTypes(order, m.Keys)
  {
    if order != [] {
      TypesOfChosen(order[1..], m);
      var head := if order[0] in m then [Ext(order[0], m[order[0]])] else [];
      TypesOfAppend(head, Chosen(order[1..], m));
    }
  }

  /** The types a hello must list: GREASE if used, the ordered types with a body, padding if added. */
  function ExpectedTypes(p: Profile, d: Draws, padded: bool): seq<u16>
    requires d.InRange()
  {
    (if p.useGrease then [GREASE_VALUES[d.extGrease]] else []) + CarriedTypes(p.order, BodyTypes(p))
    + if padded then [21] else []
  }

  lemma ExtsRead(p: Profile, sni: bytes, d: Draws)
    requires d.InRange() && Encodable(p) && |EncodeExts(Exts(p, sni, d))| < 0x1_0000
    ensures var es := Exts(p, sni, d);
            && ExtensionsIn(EncodeExts(es), es)
            && TypesOf(es) == ExpectedTypes(p, d, Padded(p, sni, d))
            && forall e :: e in es ==> BodyIs(p, sni, d.keyShare, e.typ, e.body)
  {
    hide EncodeExts, Bodies, BodyIs, IsGrease, PadNeeded, Chosen, CarriedTypes, TypesOf, ExtensionsIn, BodyTypes;
    var es, m := Exts(p, sni, d), Bodies(p, sni, d.keyShare);
    EncodedBodiesFit(es);
    EncodedAreIn(es);
    BodiesOf(p, sni, d.keyShare);
    var first := if p.useGrease then [Ext(Grease(d.extGrease), [0x00])] else [];
    var last := if Padded(p, sni, d) then [Ext(PADDING, seq(PadNeeded(p, sni, d), _ => 0))] else [];
    assert es == first + Chosen(p.order, m) + last;
    TypesOfAppend(first + Chosen(p.order, m), last);
    TypesOfAppend(first, Chosen(p.order, m));
    TypesOfChosen(p.order, m);
    FewTypes();
    ChosenComeFrom(p.order, m);
    GreaseForm(d.extGrease);
    forall e | e in es ensures BodyIs(p, sni, d.keyShare, e.typ, e.body) {
      if e in Chosen(p.order, m) {
        MappedBodyIs(p, sni, d.keyShare, e.typ);
      } else if e in first {
        GreaseBodyIs(p, sni, d.keyShare, e.typ);
      } else {
        ZerosArePadding(p, sni, d.keyShare, PadNeeded(p, sni, d));
      }
    }
  }

  lemma FewTypes()
    ensures TypesOf([]) == [] && forall e: Ext :: TypesOf([e]) == [e.typ]
  {
    forall e: Ext ensures TypesOf([e]) == [e.typ] { assert [e][1..] == []; }
  }

  lemma GreaseBodyIs(p: Profile, sni: bytes, key: bytes, t: u16)
    requires IsGrease(t)
    ensures BodyIs(p, sni, key, t, [0x00])
  {
  }

  lemma ZerosArePadding(p: Profile, sni: bytes, key: bytes, n: nat)
    ensures BodyIs(p, sni, key, PADDING, seq(n, _ => 0))
  {
  }

  // ---- the whole record ----

  /** Version, random, session, ciphers and null compression, and the extension block up to the end. */
  ghost predicate HelloFields(h: bytes, random: bytes, session: bytes, ciphers: seq<u16>, block: bytes)
  {
    var c := 69 + 2 * |ciphers|;
    && |h| == c + 4 + |block|
    && U16At(h, 0) == 0x0303 && h[2..34] == random
    && h[34] == 32 && h[35..67] == session
    && U16At(h, 67) == 2 * |ciphers| && (forall i :: 0 <= i < |ciphers| ==> U16At(h, 69 + 2 * i) == ciphers[i])
    && h[c] == 1 && h[c + 1] == 0
    && U16At(h, c + 2) == |block| && h[c + 4..] == block
  }

  /** A handshake record of version 0x0301 with one ClientHello that fills it. */
  ghost predicate RecordFields(r: bytes, hello: bytes)
  {
    && |r| == 9 + |hello| && r[0] == 22 && U16At(r, 1) == 0x0301 && U16At(r, 3) == 4 + |hello|
    && r[5] == 1 && U24At(r, 6) == |hello| && r[9..] == hello
  }

  lemma RecordReads(hello: bytes)
    requires 4 + |hello| < 0x1_0000
    ensures RecordFields(ClientHelloRecord(Handshake(hello, [])), hello)
  {
    hide Be24;
    var n := |hello|;
    var h3 := Be24(n);
    var hs := [1] + (h3 + hello);
    assert Handshake(hello, []) == hs;
    LowIsItself(4 + n);
    var k := Be16(4 + n);
    var r := ClientHelloRecord(hs);
    assert Be16(0x0301) == [3, 1];
    assert r == [22, 3, 1] + k + hs;
    assert r[3] == k[0] && r[4] == k[1];
    assert r[5..] == hs;
    assert r[6] == h3[0] && r[7] == h3[1] && r[8] == h3[2];
    Be24Value(n);
    assert r[9..] == hello;
  }

  lemma CiphersAt(h: bytes, at: nat, ciphers: seq<u16>)
    requires at + 2 * |ciphers| <= |h| && h[at..at + 2 * |ciphers|] == Be16s(ciphers)
    ensures forall i :: 0 <= i < |ciphers| ==> U16At(h, at + 2 * i) == ciphers[i]
  {
    hide Be16s;
    forall i | 0 <= i < |ciphers| ensures U16At(h, at + 2 * i) == ciphers[i] {
      Be16sAt(ciphers, i);
      var cs := h[at..at + 2 * |ciphers|];
      assert h[at + 2 * i] == cs[2 * i] && h[at + 2 * i + 1] == cs[2 * i + 1];
    }
  }

  lemma PartsAt(front: bytes, k: bytes, cs: bytes, l: bytes, block: bytes)
    requires |front| == 67 && |k| == 2 && |l| == 2
    ensures var h, c := front + (k + (cs + ([1, 0] + (l + block)))), 69 + |cs|;
            && |h| == c + 4 + |block| && h[..67] == front && h[67] == k[0] && h[68] == k[1] && h[69..c] == cs
            && h[c] == 1 && h[c + 1] == 0 && h[c + 2] == l[0] && h[c + 3] == l[1] && h[c + 4..] == block
  {
    var tail := [1, 0] + (l + block);
    var h := front + (k + (cs + tail));
    assert h[67..] == k + (cs + tail);
    assert h[69..] == cs + tail;
    assert h[69 + |cs|..] == tail;
    assert tail[4..] == block;
  }

  lemma HelloReads(random: Block32, session: Block32, ciphers: seq<u16>, block: bytes)
    requires 2 * |ciphers| < 0x1_0000 && |block| < 0x1_0000
    ensures HelloFields(Framed(Be16(0x0303) + random, session, Be16s(ciphers), [0x00], block, []),
                        random, session, ciphers, block)
  {
    hide Be16s, Be16, Vec16, Vec8, U16At, HelloFields;
    Be16sLength(ciphers);
    assert Be16(0x0303) == [3, 3] by { WordInverse(3, 3); }
    var cs := Be16s(ciphers);
    ShortVec16(cs);
    ShortVec16(block);
    ShortVec8(session);
    ShortVec8([0x00]);
    var front := ([3, 3] + random) + ([32] + session);
    assert Vec16(block) + [] == Be16(|block|) + block;
    assert Vec8([0x00]) == [1, 0];
    Assoc(Be16(|cs|), cs, [1, 0] + Vec16(block));
    Assoc([3, 3] + random, [32] + session, Vec16(cs) + ([1, 0] + Vec16(block)));
    JoinedReads(random, session, ciphers, block, cs, front);
  }

  lemma JoinedReads(random: Block32, session: Block32, ciphers: seq<u16>, block: bytes, cs: bytes, front: bytes)
    requires cs == Be16s(ciphers) && |cs| == 2 * |ciphers| < 0x1_0000 && |block| < 0x1_0000
    requires front == ([3, 3] + random) + ([32] + session)
    ensures HelloFields(front + (Be16(|cs|) + (cs + ([1, 0] + (Be16(|block|) + block)))), random, session, ciphers, block)
  {
    hide Be16s, Be16, U16At;
    var k, l := Be16(|cs|), Be16(|block|);
    var h := front + (k + (cs + ([1, 0] + (l + block))));
    PartsAt(front, k, cs, l, block);
    CiphersAt(h, 69, ciphers);
    NumberAt(h, 67, |cs|);
    NumberAt(h, 71 + |cs|, |block|);
    FrontReads(h, random, session);
  }

  lemma NumberAt(h: bytes, at: nat, v: u16)
    requires at + 2 <= |h| && h[at] == Be16(v)[0] && h[at + 1] == Be16(v)[1]
    ensures U16At(h, at) == v
  {
  }

  lemma FrontReads(h: bytes, random: Block32, session: Block32)
    requires |h| >= 67 && h[..67] == ([3, 3] + random) + ([32] + session)
    ensures U16At(h, 0) == 0x0303 && h[2..34] == random && h[34] == 32 && h[35..67] == session
  {
    var front := h[..67];
    assert h[0] == front[0] && h[1] == front[1] && h[34] == front[34];
    assert h[2..34] == front[2..34] == random && h[35..67] == front[35..67] == session;
  }

  lemma ShortVec16(v: bytes)
    requires |v| < 0x1_0000
    ensures Vec16(v) == Be16(|v|) + v
  {
    LowIsItself(|v|);
  }

  lemma ShortVec8(v: bytes)
    requires |v| < 0x100
    ensures Vec8(v) == [|v|] + v
  {
  }

  /**
   A built record, read back byte by byte: while the handshake fits its 16-bit length and the
   profile's lists their prefixes, every field and every extension is what profile, name and draws
   call for, in the profile's order.
   */
  lemma BuiltReadsBack(p: Profile, sni: bytes, d: Draws) returns (hello: bytes, block: bytes, es: seq<Ext>)
    requires d.InRange() && Encodable(p) && |HandshakeOf(p, sni, d)| < 0x1_0000
    ensures RecordFields(Built(p, sni, d), hello)
    ensures HelloFields(hello, d.random, d.session,
                        (if p.useGrease then [GREASE_VALUES[d.cipherGrease]] else []) + p.cipherSuites + [0x00FF], block)
    ensures ExtensionsIn(block, es) && TypesOf(es) == ExpectedTypes(p, d, Padded(p, sni, d))
    ensures forall e :: e in es ==> BodyIs(p, sni, d.keyShare, e.typ, e.body)
  {
    hide Exts, EncodeExts, Be16s, RecordFields, HelloFields, ExtensionsIn, TypesOf, BodyIs, ExpectedTypes, Encodable,
         Padded;
    hello, es := Hello(p, sni, d), Exts(p, sni, d);
    block := EncodeExts(es);
    HelloSize(p, sni, d);
    Be16sLength(Ciphers(p, d));
    RecordReads(hello);
    HelloReads(d.random, d.session, Ciphers(p, d), block);
    ExtsRead(p, sni, d);
  }

  // ---- the shipped profiles ----

  /** Every type in the order has a body but the last, which is left to the padding step. */
  predicate EndsInPadding(p: Profile)
  {
    && p.order != [] && p.order[|p.order| - 1] !in BodyTypes(p)
    && forall i :: 0 <= i < |p.order| - 1 ==> p.order[i] in BodyTypes(p)
  }

  /** Then the types listed are the order itself, with padding only if it was needed. */
  lemma TypesAreTheOrder(p: Profile, d: Draws, padded: bool)
    requires d.InRange() && EndsInPadding(p)
    ensures ExpectedTypes(p, d, padded)
         == (if p.useGrease then [GREASE_VALUES[d.extGrease]] else []) + p.order[..|p.order| - 1]
            + (if padded then [21] else [])
  {
    hide CarriedTypes, BodyTypes;
    CarriedButLast(p.order, BodyTypes(p));
  }

  lemma ShippedEndInPadding(name: string, pick: nat)
    requires pick < 5
    ensures EndsInPadding(GetProfile(name, pick))
  {
    hide EndsInPadding;
    assert EndsInPadding(CHROME124) by { ChromeEndsInPadding(); }
    assert EndsInPadding(FIREFOX125) by { FirefoxEndsInPadding(); }
    assert EndsInPadding(SAFARI17) by { SafariEndsInPadding(); }
    assert EndsInPadding(EDGE124) by { ChromeEndsInPadding(); }
    assert EndsInPadding(CHROME120) by { ChromeEndsInPadding(); }
  }

  lemma ChromeEndsInPadding()
    ensures EndsInPadding(CHROME124) && EndsInPadding(EDGE124) && EndsInPadding(CHROME120)
  {
  }

  lemma FirefoxEndsInPadding()
    ensures EndsInPadding(FIREFOX125)
  {
  }

  lemma SafariEndsInPadding()
    ensures EndsInPadding(SAFARI17)
  {
  }

  /** Every obtainable profile can be read back, lists key_share, and offers the group of the share. */
  lemma ShippedOfferTheShare(name: string, pick: nat)
    requires pick < 5
    ensures Encodable(GetProfile(name, pick)) && 29 in GetProfile(name, pick).groups
    ensures 51 in GetProfile(name, pick).order && 10 in GetProfile(name, pick).order
  {
    assert CHROME124.groups[0] == FIREFOX125.groups[0] == SAFARI17.groups[0] == EDGE124.groups[0] == CHROME120.groups[0] == 29;
    assert CHROME124.order[9] == CHROME120.order[9] == 51;
    assert FIREFOX125.order[8] == SAFARI17.order[8] == 51;
    assert CHROME124.order[3] == CHROME120.order[3] == 10;
    assert FIREFOX125.order[2] == SAFARI17.order[2] == 10;
  }
}
