/**
 internal/tls/clienthello.go: Builder.Build, which writes a whole ClientHello record through nested
 buffers, and what the SNI readers get back from it.
 */
module ClientHello {
  import opened Bytes
  import opened Wire
  import opened Fingerprint

  // ---- what the writers append ----

  function Be16s(vs: seq<u16>): bytes
  {
    if vs == [] then [] else Be16(vs[0]) + Be16s(vs[1..])
  }

  function Vec8s(vs: seq<bytes>): bytes
  {
    if vs == [] then [] else Vec8(vs[0]) + Vec8s(vs[1..])
  }

  lemma {:induction false} Be16sSnoc(vs: seq<u16>, v: u16)
    ensures Be16s(vs + [v]) == Be16s(vs) + Be16(v)
  {
    hide Be16;
    if vs == [] {
      assert [v][1..] == [];
    } else {
      Be16sSnoc(vs[1..], v);
      assert (vs + [v])[1..] == vs[1..] + [v];
      Assoc(Be16(vs[0]), Be16s(vs[1..]), Be16(v));
    }
  }

  lemma {:induction false} Vec8sSnoc(vs: seq<bytes>, v: bytes)
    ensures Vec8s(vs + [v]) == Vec8s(vs) + Vec8(v)
  {
    hide Vec8;
    if vs == [] {
      assert [v][1..] == [];
    } else {
      Vec8sSnoc(vs[1..], v);
      assert (vs + [v])[1..] == vs[1..] + [v];
      Assoc(Vec8(vs[0]), Vec8s(vs[1..]), Vec8(v));
    }
  }

  lemma {:induction false} Be16sLength(vs: seq<u16>)
    ensures |Be16s(vs)| == 2 * |vs|
  {
    if vs != [] { Be16sLength(vs[1..]); }
  }

  /** The byte buffer every structure is written into. */
  class Buf {
    var data: bytes

    constructor ()
      ensures data == []
    {
      data := [];
    }

    method WriteUint8(v: u8)
      modifies this
      ensures data == old(data) + [v]
    {
      data := data + [v];
    }

    method WriteBytes(v: bytes)
      modifies this
      ensures data == old(data) + v
    {
      data := data + v;
    }

    method WriteUint16(v: u16)
      modifies this
      ensures data == old(data) + Be16(v)
    {
      data := data + [v / 0x100, v % 0x100];
    }

    method WriteUint24(v: nat)
      modifies this
      ensures data == old(data) + Be24(v)
    {
      LowBytes(v);
      data := data + [v / 0x1_0000 % 0x100, v / 0x100 % 0x100, v % 0x100];
    }

    /** A vector: its length, truncated to 16 bits, and its bytes. */
    method WriteVec16(v: bytes)
      modifies this
      ensures data == old(data) + Vec16(v)
    {
      WriteUint16(Low16(|v|));
      WriteBytes(v);
      Assoc(old(data), Be16(Low16(|v|)), v);
    }

    method WriteExtension(typ: u16, body: bytes)
      modifies this
      ensures data == old(data) + EncodeExt(Ext(typ, body))
    {
      hide Be16, Vec16;
      WriteUint16(typ);
      WriteVec16(body);
      Assoc(old(data), Be16(typ), Vec16(body));
    }

    method WriteUint16s(vs: seq<u16>)
      modifies this
      ensures data == old(data) + Be16s(vs)
    {
      hide Be16, Be16s;
      assert Be16s(vs[..0]) == [] by { NoWords(); }
      for i := 0 to |vs|
        invariant data == old(data) + Be16s(vs[..i])
      {
        WriteUint16(vs[i]);
        Be16sSnoc(vs[..i], vs[i]);
        assert vs[..i + 1] == vs[..i] + [vs[i]];
        Assoc(old(data), Be16s(vs[..i]), Be16(vs[i]));
      }
      assert vs[..|vs|] == vs;
    }
  }

  /** Shifting and masking gives the same three bytes as truncating to 24 bits first. */
  lemma LowBytes(v: nat)
    ensures Be24(v) == [v / 0x1_0000 % 0x100, v / 0x100 % 0x100, v % 0x100]
  {
    var hi, mid, lo: int := v / 0x1_0000, v / 0x100 % 0x100, v % 0x100;
    assert v == 0x1_0000 * hi + 0x100 * mid + lo;
    assert Low16(v) == Word(mid, lo) by { assert Word(mid, lo) == 0x100 * mid + lo; }
    WordInverse(mid, lo);
  }

  lemma NoWords()
    ensures Be16s([]) == []
  {
  }

  // ---- the parts of a hello ----

  type Block32 = b: bytes | |b| == 32 witness seq(32, _ => 0)

  /** Everything Build draws at random; jitter is the draw in [0, 33). */
  datatype Draws = Draws(random: Block32, session: Block32, keyShare: Block32,
                         cipherGrease: nat, extGrease: nat, jitter: nat)
  {
    ghost predicate InRange() { cipherGrease < 0x10 && extGrease < 0x10 && jitter < 33 }
  }

  function Grease(i: nat): u16
    requires i < 0x10
  {
    GREASE_VALUES[i]
  }

  function SniBody(sni: bytes): bytes { Vec16([0x00] + Vec16(sni)) }

  function KeyShareBody(pub: bytes): bytes { Vec16(Be16(0x001D) + Be16(32) + pub) }

  function VersionsBody(versions: seq<u16>): bytes { [Low8(2 * |versions|)] + Be16s(versions) }

  function Bodies(p: Profile, sni: bytes, keyShare: bytes): map<u16, bytes>
  {
    var m := map[
      SNI := SniBody(sni),
      EXTENDED_MASTER_SEC := [],
      RENEGOTIATION_INFO := [0x00],
      SUPPORTED_GROUPS := Vec16(Be16s(p.groups)),
      EC_POINT_FORMATS := [0x01, 0x00],
      SESSION_TICKET := [],
      ALPN := Vec16(Vec8s(p.alpn)),
      STATUS_REQUEST := [0x01, 0x00, 0x00, 0x00, 0x00],
      SIGNED_CERT_TS := [],
      KEY_SHARE := KeyShareBody(keyShare),
      SUPPORTED_VERSIONS := VersionsBody(p.versions)];
    (if p.compressCert.Some? then m[COMPRESS_CERT := p.compressCert.value] else m)
    [PSK_KEY_EXCH_MODES := Vec8(p.pskModes)]
    [SIG_ALGS := Vec16(Be16s(p.sigAlgs))]
  }

  /** The extensions with a body, in the given order; types without one are passed over. */
  function Chosen(order: seq<u16>, bodies: map<u16, bytes>): seq<Ext>
  {
    if order == [] then [] else
    (if order[0] in bodies then [Ext(order[0], bodies[order[0]])] else []) + Chosen(order[1..], bodies)
  }

  lemma {:induction false} ChosenSnoc(order: seq<u16>, t: u16, bodies: map<u16, bytes>)
    ensures Chosen(order + [t], bodies)
         == Chosen(order, bodies) + (if t in bodies then [Ext(t, bodies[t])] else [])
  {
    if order == [] {
      assert [t][1..] == [];
    } else {
      ChosenSnoc(order[1..], t, bodies);
      assert (order + [t])[1..] == order[1..] + [t];
    }
  }

  /** renegotiation-info SCSV 0x00FF ends every cipher list. */
  function Ciphers(p: Profile, d: Draws): seq<u16>
    requires d.InRange()
  {
    (if p.useGrease then [Grease(d.cipherGrease)] else []) + p.cipherSuites + [0x00FF]
  }

  function PlainExts(p: Profile, sni: bytes, d: Draws): seq<Ext>
    requires d.InRange()
  {
    (if p.useGrease then [Ext(Grease(d.extGrease), [0x00])] else []) + Chosen(p.order, Bodies(p, sni, d.keyShare))
  }

  /** Bytes of padding data asked for; none when this is not positive. */
  function PadNeeded(p: Profile, sni: bytes, d: Draws): int
    requires d.InRange()
  {
    var currentLen := |EncodeExts(PlainExts(p, sni, d))| + 2;
    var helloBodyLen := 2 + 32 + 1 + 32 + 2 + |Be16s(Ciphers(p, d))| + 1 + 1 + 2 + currentLen;
    512 + (d.jitter - 16) - helloBodyLen - 4
  }

  function Exts(p: Profile, sni: bytes, d: Draws): seq<Ext>
    requires d.InRange()
  {
    PlainExts(p, sni, d)
    + if PadNeeded(p, sni, d) > 0 then [Ext(PADDING, seq(PadNeeded(p, sni, d), _ => 0))] else []
  }

  function Hello(p: Profile, sni: bytes, d: Draws): bytes
    requires d.InRange()
  {
    Framed(Be16(0x0303) + d.random, d.session, Be16s(Ciphers(p, d)), [0x00], EncodeExts(Exts(p, sni, d)), [])
  }

  function HandshakeOf(p: Profile, sni: bytes, d: Draws): bytes
    requires d.InRange()
  {
    Handshake(Hello(p, sni, d), [])
  }

  /** The record Build returns. */
  function Built(p: Profile, sni: bytes, d: Draws): bytes
    requires d.InRange()
  {
    ClientHelloRecord(HandshakeOf(p, sni, d))
  }

  // ---- Build ----

  // Each extension body is written by its own few buffer calls.

  method MakeSni(sni: bytes) returns (body: bytes)
    ensures body == SniBody(sni)
  {
    hide Vec16;
    var sniBuf := new Buf();
    sniBuf.WriteUint8(0x00);
    sniBuf.WriteVec16(sni);
    assert sniBuf.data == [0x00] + Vec16(sni);
    var sniList := new Buf();
    sniList.WriteVec16(sniBuf.data);
    body := sniList.data;
  }

  method MakeWords(vs: seq<u16>) returns (body: bytes)
    ensures body == Vec16(Be16s(vs))
  {
    hide Vec16, Be16s;
    var inner := new Buf();
    inner.WriteUint16s(vs);
    assert inner.data == Be16s(vs);
    var outer := new Buf();
    outer.WriteVec16(inner.data);
    body := outer.data;
  }

  method MakeProtocols(protos: seq<bytes>) returns (body: bytes)
    ensures body == Vec16(Vec8s(protos))
  {
    var inner := WriteProtocols(protos);
    var outer := new Buf();
    outer.WriteVec16(inner);
    body := outer.data;
  }

  method MakeKeyShare(pub: bytes) returns (body: bytes)
    ensures body == KeyShareBody(pub)
  {
    hide Vec16, Be16;
    var entry := new Buf();
    entry.WriteUint16(0x001D);
    entry.WriteUint16(32);
    entry.WriteBytes(pub);
    assert entry.data == Be16(0x001D) + Be16(32) + pub;
    var outer := new Buf();
    outer.WriteVec16(entry.data);
    body := outer.data;
  }

  method MakeVersions(versions: seq<u16>) returns (body: bytes)
    ensures body == VersionsBody(versions)
  {
    hide Be16s;
    var buf := new Buf();
    buf.WriteUint8(Low8(2 * |versions|));
    buf.WriteUint16s(versions);
    body := buf.data;
  }

  method MakePskModes(modes: bytes) returns (body: bytes)
    ensures body == Vec8(modes)
  {
    var buf := new Buf();
    buf.WriteUint8(Low8(|modes|));
    buf.WriteBytes(modes);
    body := buf.data;
  }

  method BuildExtensions(p: Profile, sni: bytes, keyShare: bytes) returns (m: map<u16, bytes>)
    ensures m == Bodies(p, sni, keyShare)
  {
    hide Vec16, Vec8, Be16, Vec8s, SniBody, KeyShareBody, VersionsBody, Be16s;
    var sniBody := MakeSni(sni);
    m := map[SNI := sniBody];
    m := m[EXTENDED_MASTER_SEC := []];
    m := m[RENEGOTIATION_INFO := [0x00]];
    var groups := MakeWords(p.groups);
    m := m[SUPPORTED_GROUPS := groups];
    m := m[EC_POINT_FORMATS := [0x01, 0x00]];
    m := m[SESSION_TICKET := []];
    var alpn := MakeProtocols(p.alpn);
    m := m[ALPN := alpn];
    m := m[STATUS_REQUEST := [0x01, 0x00, 0x00, 0x00, 0x00]];
    m := m[SIGNED_CERT_TS := []];
    var share := MakeKeyShare(keyShare);
    m := m[KEY_SHARE := share];
    var versions := MakeVersions(p.versions);
    m := m[SUPPORTED_VERSIONS := versions];
    if p.compressCert.Some? { m := m[COMPRESS_CERT := p.compressCert.value]; }
    var psk := MakePskModes(p.pskModes);
    m := m[PSK_KEY_EXCH_MODES := psk];
    var sigs := MakeWords(p.sigAlgs);
    m := m[SIG_ALGS := sigs];
  }

  method WriteProtocols(protos: seq<bytes>) returns (data: bytes)
    ensures data == Vec8s(protos)
  {
    var buf := new Buf();
    for i := 0 to |protos|
      invariant fresh(buf) && buf.data == Vec8s(protos[..i])
    {
      hide Vec8s;
      ghost var before := buf.data;
      buf.WriteUint8(Low8(|protos[i]|));
      buf.WriteBytes(protos[i]);
      assert buf.data == before + Vec8(protos[i]);
      Vec8sSnoc(protos[..i], protos[i]);
      assert protos[..i + 1] == protos[..i] + [protos[i]];
    }
    assert protos[..|protos|] == protos;
    data := buf.data;
  }

  /** The three reads of the random source, each of which can fail. */
  datatype Random = Random(random: Option<Block32>, session: Option<Block32>, keyShare: Option<Block32>)

  datatype BuildResult = Wrote(record: bytes) | RandomFailed

  method WriteCiphers(p: Profile, d: Draws) returns (data: bytes)
    requires d.InRange()
    ensures data == Be16s(Ciphers(p, d))
  {
    hide Be16s;
    var csBuf := new Buf();
    NoWords();
    if p.useGrease {
      csBuf.WriteUint16(Grease(d.cipherGrease));
      Be16sSnoc([], Grease(d.cipherGrease));
      assert [] + [Grease(d.cipherGrease)] == [Grease(d.cipherGrease)];
    }
    ghost var first := if p.useGrease then [Grease(d.cipherGrease)] else [];
    assert csBuf.data == Be16s(first);
    csBuf.WriteUint16s(p.cipherSuites);
    Be16sAppend(first, p.cipherSuites);
    csBuf.WriteUint16(0x00FF);
    Be16sSnoc(first + p.cipherSuites, 0x00FF);
    data := csBuf.data;
  }

  lemma {:induction false} Be16sAppend(us: seq<u16>, vs: seq<u16>)
    ensures Be16s(us + vs) == Be16s(us) + Be16s(vs)
  {
    hide Be16;
    if us == [] {
      assert us + vs == vs;
    } else {
      Be16sAppend(us[1..], vs);
      assert (us + vs)[1..] == us[1..] + vs;
      Assoc(Be16(us[0]), Be16s(us[1..]), Be16s(vs));
    }
  }

  method WriteExtensions(p: Profile, sni: bytes, d: Draws) returns (extBuf: Buf)
    requires d.InRange()
    ensures fresh(extBuf) && extBuf.data == EncodeExts(PlainExts(p, sni, d))
  {
    hide Bodies, EncodeExts, EncodeExt, Chosen;
    var extMap := BuildExtensions(p, sni, d.keyShare);
    extBuf := new Buf();
    ghost var es: seq<Ext> := [];
    assert EncodeExts([]) == [] by { NoExts(extMap); }
    if p.useGrease {
      extBuf.WriteExtension(Grease(d.extGrease), [0x00]);
      EncodeSnoc(es, Ext(Grease(d.extGrease), [0x00]));
      es := es + [Ext(Grease(d.extGrease), [0x00])];
    }
    ghost var first := es;
    assert first + [] == first;
    NoExts(extMap);
    for i := 0 to |p.order|
      invariant fresh(extBuf)
      invariant es == first + Chosen(p.order[..i], extMap)
      invariant extBuf.data == EncodeExts(es)
    {
      var extType := p.order[i];
      ChosenSnoc(p.order[..i], extType, extMap);
      assert p.order[..i + 1] == p.order[..i] + [extType];
      ghost var was := es;
      if extType in extMap {
        extBuf.WriteExtension(extType, extMap[extType]);
        EncodeSnoc(es, Ext(extType, extMap[extType]));
        es := es + [Ext(extType, extMap[extType])];
      }
    }
    assert p.order[..|p.order|] == p.order;
    assert es == PlainExts(p, sni, d);
  }

  lemma NoExts(m: map<u16, bytes>)
    ensures EncodeExts([]) == [] && Chosen([], m) == []
  {
  }

  method Build(p: Profile, sni: bytes, r: Random, cipherGrease: nat, extGrease: nat, jitter: nat)
    returns (result: BuildResult)
    requires cipherGrease < 0x10 && extGrease < 0x10 && jitter < 33
    ensures result == if r.random.None? || r.session.None? || r.keyShare.None? then RandomFailed
                      else Wrote(Built(p, sni, Draws(r.random.value, r.session.value, r.keyShare.value,
                                                             cipherGrease, extGrease, jitter)))
  {
    hide EncodeExts, EncodeExt, Be16s, PlainExts, Ciphers, Be16, Be24, Vec16;
    if r.random.None? { return RandomFailed; }
    if r.session.None? { return RandomFailed; }
    if r.keyShare.None? { return RandomFailed; }
    var d := Draws(r.random.value, r.session.value, r.keyShare.value, cipherGrease, extGrease, jitter);
    var cs := WriteCiphers(p, d);
    var extBuf := WriteExtensions(p, sni, d);
    var currentLen := |extBuf.data| + 2;
    var helloBodyLen := 2 + 32 + 1 + |d.session| + 2 + |cs| + 1 + 1 + 2 + currentLen;
    var target := 512 + (jitter - 16);
    var padNeeded := target - helloBodyLen - 4;
    assert padNeeded == PadNeeded(p, sni, d);
    if padNeeded > 0 {
      extBuf.WriteExtension(PADDING, seq(padNeeded, _ => 0));
      EncodeSnoc(PlainExts(p, sni, d), Ext(PADDING, seq(padNeeded, _ => 0)));
    } else {
      assert PlainExts(p, sni, d) + [] == PlainExts(p, sni, d);
    }
    assert extBuf.data == EncodeExts(Exts(p, sni, d));
    var hello := WriteHello(d, cs, extBuf.data);
    var hs := new Buf();
    hs.WriteUint8(0x01);
    hs.WriteUint24(|hello|);
    hs.WriteBytes(hello);
    assert hs.data == Handshake(hello, []);
    var rec := new Buf();
    rec.WriteUint8(0x16);
    rec.WriteUint16(0x0301);
    rec.WriteVec16(hs.data);
    assert rec.data == ClientHelloRecord(hs.data);
    return Wrote(rec.data);
  }

  function ClientHelloRecord(hs: bytes): bytes { Wire.Record(Be16(0x0301), hs, []) }

  method WriteHello(d: Draws, cs: bytes, exts: bytes) returns (data: bytes)
    ensures data == Framed(Be16(0x0303) + d.random, d.session, cs, [0x00], exts, [])
  {
    hide Be16, Vec16;
    var hello := new Buf();
    hello.WriteUint16(0x0303);
    hello.WriteBytes(d.random);
    ghost var h := Be16(0x0303) + d.random;
    assert hello.data == h;
    hello.WriteUint8(Low8(|d.session|));
    hello.WriteBytes(d.session);
    assert hello.data == h + Vec8(d.session);
    ghost var a := hello.data;
    hello.WriteVec16(cs);
    ghost var b := hello.data;
    hello.WriteUint8(1);
    hello.WriteUint8(0x00);
    assert hello.data == b + Vec8([0x00]);
    ghost var c := hello.data;
    hello.WriteVec16(exts);
    data := hello.data;
    assert data == c + (Vec16(exts) + []);
    Assoc(b, Vec8([0x00]), Vec16(exts) + []);
    Assoc(a, Vec16(cs), Vec8([0x00]) + (Vec16(exts) + []));
    Assoc(h, Vec8(d.session), Vec16(cs) + (Vec8([0x00]) + (Vec16(exts) + [])));
  }
}
