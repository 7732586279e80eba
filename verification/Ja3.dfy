/**
 JA3String of internal/tls/clienthello.go: the third reader, which prints a hello's fingerprint, and
 what it prints for the hellos Build writes.
 */
module Ja3 {
  import opened Bytes
  import opened Wire
  import opened Sni
  import opened Fingerprint
  import opened ClientHello
  import opened RoundTrip
  import opened Ja3Text

  /** What JA3String does: print, or index past the end of its slice (a Go run-time panic). */
  datatype Print = Text(text: string) | Panic

  // ---- the lists it collects ----

  /** The 16-bit words of b; an odd last byte is ignored. */
  function Words(b: bytes): seq<u16>
  {
    if |b| < 2 then [] else [Word(b[0], b[1])] + Words(b[2..])
  }

  function PlainWords(vs: seq<u16>): seq<u16>
  {
    if vs == [] then [] else (if IsGrease(vs[0]) then [] else [vs[0]]) + PlainWords(vs[1..])
  }

  function Types(es: seq<Ext>): seq<u16>
  {
    if es == [] then [] else (if IsGrease(es[0].typ) then [] else [es[0].typ]) + Types(es[1..])
  }

  /** The group words of one supported_groups body, cut at the shorter of its two lengths. */
  function GroupData(body: bytes): bytes
    requires |body| >= 2
  {
    var n, rest := Word(body[0], body[1]), body[2..];
    if n < |rest| then rest[..n] else rest
  }

  function GroupsOf(e: Ext): seq<u16>
  {
    if e.typ == SUPPORTED_GROUPS && |e.body| >= 2 then PlainWords(Words(GroupData(e.body))) else []
  }

  function Groups(es: seq<Ext>): seq<u16>
  {
    if es == [] then [] else GroupsOf(es[0]) + Groups(es[1..])
  }

  /** The point list after one more extension: only a complete ec_point_formats body replaces it. */
  function PointsAfter(points: bytes, e: Ext): bytes
  {
    if e.typ == EC_POINT_FORMATS && |e.body| >= 1 && |e.body| >= 1 + e.body[0] as int
    then e.body[1..1 + e.body[0] as int] else points
  }

  function Points(points: bytes, es: seq<Ext>): bytes
    decreases es
  {
    if es == [] then points else Points(PointsAfter(points, es[0]), es[1..])
  }

  // ---- the frame it walks ----

  datatype Frame = Short | Overrun | Lists(ciphers: bytes, block: bytes)

  /** From the cipher vector on. */
  function FrameTail(b: bytes): Frame
  {
    match Cut16(b)
    case None => Short
    case Some(ciphers) =>
      if |ciphers.rest| < 1 then Short else
      match Cut8(ciphers.rest)
      case None => Overrun
      case Some(compression) =>
        match Cut16(compression.rest)
        case None => Short
        case Some(block) => Lists(ciphers.vec, block.vec)
  }

  /** The first nine bytes are skipped unread; a session or compression vector may overrun. */
  function FrameOf(record: bytes): Frame
  {
    if |record| < 9 || |record| - 9 < 34 || |record| - 43 < 1 then Short else
    match Cut8(record[43..])
    case None => Overrun
    case Some(session) => FrameTail(session.rest)
  }

  function PrintOf(record: bytes): Print
  {
    match FrameOf(record)
    case Short => Text("")
    case Overrun => Panic
    case Lists(ciphers, block) =>
      var es := Scan(block);
      Text(Render(PlainWords(Words(ciphers)), Types(es), Groups(es), Points([], es)))
  }

  /** The bytes JA3String slices past the end of: what a caller can check before the call. */
  predicate SlicesPastEnd(r: bytes)
  {
    && |r| >= 44
    && var s := 44 + r[43] as int;
       || s > |r|
       || (s + 2 <= |r| && var c := s + 2 + U16At(r, s);
           c < |r| && c + 1 + r[c] as int > |r|)
  }

  /** It panics exactly when the session or the compression length points past the record. */
  lemma PanicsExactly(r: bytes)
    ensures PrintOf(r) == Panic <==> SlicesPastEnd(r)
  {
    hide Word, Cut8, Cut16, Scan, Types, Groups, Points, Render, PlainWords, U16At;
    if |r| >= 44 {
      Cursor8(r, 43);
      var s := 44 + r[43] as int;
      if s <= |r| {
        TooShort(r, s);
        if s + 2 <= |r| {
          Cursor16(r, s);
          TailPanics(r, s);
        }
      }
    }
  }

  lemma TailPanics(r: bytes, s: nat)
    requires s + 2 <= |r|
    ensures var c := s + 2 + U16At(r, s);
            FrameTail(r[s..]) == Overrun <==> c < |r| && c + 1 + r[c] as int > |r|
  {
    hide Cut8, Cut16;
    var c := s + 2 + U16At(r, s);
    Cursor16(r, s);
    if c < |r| { Cursor8(r, c); }
  }

  /**
   Where the lists lie, in offsets: session, cipher and compression lengths lead to the extension
   length, and all four vectors fit.
   */
  predicate HoldsLists(r: bytes)
  {
    && |r| >= 44
    && var s := 44 + r[43] as int;
       && s + 2 <= |r|
       && var c := s + 2 + U16At(r, s);
          && c < |r|
          && var x := c + 1 + r[c] as int;
             x + 2 <= |r| && x + 2 + U16At(r, x) <= |r|
  }

  function ListsAt(r: bytes): Frame
    requires HoldsLists(r)
  {
    var s: int := 44 + r[43] as int;
    var c: int := s + 2 + U16At(r, s);
    var x: int := c + 1 + r[c] as int;
    Lists(r[s + 2..c], r[x + 2..x + 2 + U16At(r, x)])
  }

  /** It prints the lists at those offsets exactly when they all fit, and otherwise nothing or panics. */
  lemma PrintsExactly(r: bytes)
    ensures FrameOf(r).Lists? <==> HoldsLists(r)
    ensures HoldsLists(r) ==> FrameOf(r) == ListsAt(r)
    ensures !HoldsLists(r) && !SlicesPastEnd(r) ==> PrintOf(r) == Text("")
  {
    hide Word, Cut8, Cut16, Scan, Types, Groups, Points, Render, PlainWords, U16At;
    PanicsExactly(r);
    if |r| >= 44 {
      Cursor8(r, 43);
      var s := 44 + r[43] as int;
      if s <= |r| {
        TooShort(r, s);
        if s + 2 <= |r| { TailLists(r, s); }
      }
    }
  }

  lemma TailLists(r: bytes, s: nat)
    requires s + 2 <= |r|
    ensures var c := s + 2 + U16At(r, s);
            && (FrameTail(r[s..]).Lists? <==>
                  c < |r| && var x := c + 1 + r[c] as int; x + 2 <= |r| && x + 2 + U16At(r, x) <= |r|)
            && (FrameTail(r[s..]).Lists? ==>
                  var x := c + 1 + r[c] as int;
                  FrameTail(r[s..]) == Lists(r[s + 2..c], r[x + 2..x + 2 + U16At(r, x)]))
  {
    hide Cut8, Cut16;
    var c := s + 2 + U16At(r, s);
    Cursor16(r, s);
    if c < |r| {
      Cursor8(r, c);
      var x := c + 1 + r[c] as int;
      if x <= |r| {
        TooShort(r, x);
        if x + 2 <= |r| { Cursor16(r, x); }
      }
    }
  }

  lemma TailNumber(b: bytes, at: nat)
    requires at + 4 <= |b|
    ensures U16At(b[2..], at) == U16At(b, at + 2) && Word(b[0], b[1]) == U16At(b, 0)
  {
  }

  /** The words of a list are the numbers at its even offsets. */
  lemma {:induction false} WordsAreNumbers(b: bytes, i: nat)
    requires i < |b| / 2
    ensures |Words(b)| == |b| / 2 && Words(b)[i] == U16At(b, 2 * i)
  {
    hide U16At, Word;
    FirstWord(b);
    if |b| >= 4 {
      WordsAreNumbers(b[2..], if i == 0 then 0 else i - 1);
      if i > 0 { TailNumber(b, 2 * i - 2); }
    } else {
      assert Words(b[2..]) == [];
    }
  }

  /** One extension adds the groups between its length and the end of the shorter, or replaces the points. */
  lemma OneExtensionRead(e: Ext, points: bytes)
    ensures GroupsOf(e) == if e.typ != 10 || |e.body| < 2 then []
                           else var n, room := U16At(e.body, 0), |e.body| - 2;
                                PlainWords(Words(e.body[2..2 + if n < room then n else room]))
    ensures PointsAfter(points, e) == if e.typ != 11 || |e.body| < 1 || |e.body| < 1 + e.body[0] as int then points
                                      else e.body[1..1 + e.body[0] as int]
  {
    hide PlainWords, Words;
    if e.typ == 10 && |e.body| >= 2 {
      FirstWord(e.body);
      var n, room := U16At(e.body, 0), |e.body| - 2;
      assert e.body[2..2 + if n < room then n else room] == GroupData(e.body);
    }
  }

  lemma FirstWord(b: bytes)
    requires |b| >= 2
    ensures Word(b[0], b[1]) == U16At(b, 0)
  {
  }

  /** Forty-four bytes are enough: a session length of one with nothing behind it. */
  lemma PanicIsReachable() returns (r: bytes)
    ensures |r| == 44 && PrintOf(r) == Panic
  {
    r := seq(43, _ => 0) + [1];
    assert r[43] == 1;
    PanicsExactly(r);
  }

  // ---- JA3String ----

  /** One word of a list is consumed. */
  lemma WordStep(b: bytes, i: nat)
    requires i + 1 < |b|
    ensures var w := Word(b[i], b[i + 1]);
            PlainWords(Words(b[i..])) == (if IsGrease(w) then [] else [w]) + PlainWords(Words(b[i + 2..]))
  {
    hide IsGrease, Word;
    var w := Word(b[i], b[i + 1]);
    assert b[i..][2..] == b[i + 2..];
    assert Words(b[i..]) == [w] + Words(b[i + 2..]);
    assert ([w] + Words(b[i + 2..]))[1..] == Words(b[i + 2..]);
  }

  lemma NoMoreWords(b: bytes)
    requires |b| < 2
    ensures PlainWords(Words(b)) == []
  {
  }

  /** The words of `data` that lie before `limit`. */
  method CollectWords(data: bytes, limit: nat) returns (vals: seq<u16>)
    ensures vals == PlainWords(Words(if limit < |data| then data[..limit] else data))
  {
    hide IsGrease, Word, PlainWords, Words;
    ghost var b := if limit < |data| then data[..limit] else data;
    vals := [];
    var i := 0;
    assert b[0..] == b;
    while i + 1 < limit && i + 1 < |data|
      invariant 0 <= i <= |b|
      invariant vals + PlainWords(Words(b[i..])) == PlainWords(Words(b))
    {
      var w := Word(data[i], data[i + 1]);
      WordStep(b, i);
      if !IsGrease(w) { vals := vals + [w]; }
      i := i + 2;
    }
    NoMoreWords(b[i..]);
  }

  lemma ExtStep(e: Ext, es: seq<Ext>, points: bytes)
    ensures Types([e] + es) == (if IsGrease(e.typ) then [] else [e.typ]) + Types(es)
    ensures Groups([e] + es) == GroupsOf(e) + Groups(es)
    ensures Points(points, [e] + es) == Points(PointsAfter(points, e), es)
    ensures IsGrease(e.typ) ==> GroupsOf(e) == [] && PointsAfter(points, e) == points
  {
    hide GroupData, Words, PlainWords;
    assert ([e] + es)[1..] == es;
  }

  lemma NoMoreExts(points: bytes)
    ensures Types([]) == [] && Groups([]) == [] && Points(points, []) == points
  {
  }

  method CollectExtensions(block: bytes) returns (types: seq<u16>, groups: seq<u16>, points: bytes)
    ensures types == Types(Scan(block)) && groups == Groups(Scan(block)) && points == Points([], Scan(block))
  {
    hide IsGrease, Word, Types, Groups, GroupsOf, Points, Scan;
    types, groups, points := [], [], [];
    var extData := block;
    while |extData| >= 4
      invariant types + Types(Scan(extData)) == Types(Scan(block))
      invariant groups + Groups(Scan(extData)) == Groups(Scan(block))
      invariant Points(points, Scan(extData)) == Points([], Scan(block))
      decreases |extData|
    {
      LoopStep(extData);
      var et := Word(extData[0], extData[1]);
      var el: int := Word(extData[2], extData[3]);
      extData := extData[4..];
      if |extData| < el { NoMoreExts(points); return; }
      var eBody := extData[..el];
      extData := extData[el..];
      ghost var e := Ext(et, eBody);
      ExtStep(e, Scan(extData), points);
      Assoc(types, [et], Types(Scan(extData)));
      Assoc(groups, GroupsOf(e), Groups(Scan(extData)));
      assert [] + Types(Scan(extData)) == Types(Scan(extData)) && groups + [] == groups;
      if IsGrease(et) { continue; }
      types := types + [et];
      var more := GroupWords(et, eBody);
      groups := groups + more;
      if et == EC_POINT_FORMATS && |eBody| >= 1 {
        var fmtLen: int := eBody[0];
        if |eBody| >= 1 + fmtLen { points := eBody[1..1 + fmtLen]; }
      }
    }
    ScanOfShort(extData);
    NoMoreExts(points);
  }

  method GroupWords(et: u16, eBody: bytes) returns (groups: seq<u16>)
    ensures groups == GroupsOf(Ext(et, eBody))
  {
    hide Word, Words, PlainWords;
    groups := [];
    if et == SUPPORTED_GROUPS && |eBody| >= 2 {
      groups := CollectWords(eBody[2..], Word(eBody[0], eBody[1]));
    }
  }

  lemma ScanOfShort(b: bytes)
    requires |b| < 4
    ensures Scan(b) == []
  {
  }

  method WalkFrame(record: bytes) returns (frame: Frame)
    ensures frame == FrameOf(record)
  {
    hide Word;
    if |record| < 9 { return Short; }
    var data := record[9..];
    if |data| < 34 { return Short; }
    data := data[34..];
    assert data == record[43..];
    if |data| < 1 { return Short; }
    var sessLen: int := data[0];
    if 1 + sessLen > |data| { return Overrun; }
    assert data[1..][sessLen..] == data[1 + sessLen..];
    frame := WalkTail(data[1 + sessLen..]);
  }

  method WalkTail(b: bytes) returns (frame: Frame)
    ensures frame == FrameTail(b)
  {
    hide Word;
    var data := b;
    if |data| < 2 { return Short; }
    var csLen: int := Word(data[0], data[1]);
    data := data[2..];
    if |data| < csLen { return Short; }
    var csData := data[..csLen];
    data := data[csLen..];
    if |data| < 1 { return Short; }
    var compLen: int := data[0];
    if 1 + compLen > |data| { return Overrun; }
    assert data[1..][compLen..] == data[1 + compLen..];
    data := data[1 + compLen..];
    if |data| < 2 { return Short; }
    var extLen: int := Word(data[0], data[1]);
    data := data[2..];
    if |data| < extLen { return Short; }
    return Lists(csData, data[..extLen]);
  }

  method JA3String(record: bytes) returns (result: Print)
    ensures result == PrintOf(record)
    ensures result == Panic <==> SlicesPastEnd(record)
    ensures var f := FrameOf(record);
            f.Lists? ==>
              && result.Text?
              && var es := Scan(f.block);
                 ReadsAs(result.text, [771], PlainWords(Words(f.ciphers)), Types(es), Groups(es), Points([], es))
  {
    hide FrameOf, Scan, Types, Groups, Points, Join, ReadsAs, PlainWords, Words, SlicesPastEnd;
    PanicsExactly(record);
    var frame := WalkFrame(record);
    if frame == Short { return Text(""); }
    if frame == Overrun { return Panic; }
    var ciphers := CollectWords(frame.ciphers, |frame.ciphers|);
    var types, groups, points := CollectExtensions(frame.block);
    var c := JoinUint16(ciphers);
    var t := JoinUint16(types);
    var g := JoinUint16(groups);
    var p := JoinUint16(points);
    RenderReads(ciphers, types, groups, points);
    return Text("771," + (c + ("," + (t + ("," + (g + ("," + p)))))));
  }

  // ---- the fingerprint of a built hello ----

  lemma {:induction false} WordsOfBe16s(vs: seq<u16>)
    ensures Words(Be16s(vs)) == vs
  {
    if vs != [] {
      hide Be16, Word;
      WordsOfBe16s(vs[1..]);
      var b, h := Be16s(vs), Be16(vs[0]);
      assert b == h + Be16s(vs[1..]);
      assert b[0] == h[0] && b[1] == h[1] && b[2..] == Be16s(vs[1..]);
      assert vs == [vs[0]] + vs[1..];
    }
  }

  lemma {:induction false} PlainWordsAppend(us: seq<u16>, vs: seq<u16>)
    ensures PlainWords(us + vs) == PlainWords(us) + PlainWords(vs)
  {
    hide IsGrease;
    if us == [] {
      assert us + vs == vs;
    } else {
      var ws := us + vs;
      assert ws[0] == us[0] && ws[1..] == us[1..] + vs;
      PlainWordsAppend(us[1..], vs);
      Assoc(if IsGrease(us[0]) then [] else [us[0]], PlainWords(us[1..]), PlainWords(vs));
    }
  }

  lemma {:induction false} ListsAppend(xs: seq<Ext>, ys: seq<Ext>, points: bytes)
    ensures Types(xs + ys) == Types(xs) + Types(ys) && Groups(xs + ys) == Groups(xs) + Groups(ys)
    ensures Points(points, xs + ys) == Points(Points(points, xs), ys)
    decreases xs
  {
    hide IsGrease, GroupsOf, PointsAfter;
    if xs == [] {
      assert xs + ys == ys;
    } else {
      var zs := xs + ys;
      assert zs[0] == xs[0] && zs[1..] == xs[1..] + ys;
      ListsAppend(xs[1..], ys, PointsAfter(points, xs[0]));
      Assoc(if IsGrease(xs[0].typ) then [] else [xs[0].typ], Types(xs[1..]), Types(ys));
      Assoc(GroupsOf(xs[0]), Groups(xs[1..]), Groups(ys));
    }
  }

  /** The extension types a profile has bodies for. */
  function BodyTypes(p: Profile): set<u16>
  {
    {SNI, EXTENDED_MASTER_SEC, RENEGOTIATION_INFO, SUPPORTED_GROUPS, EC_POINT_FORMATS, SESSION_TICKET, ALPN,
     STATUS_REQUEST, SIGNED_CERT_TS, KEY_SHARE, SUPPORTED_VERSIONS, PSK_KEY_EXCH_MODES, SIG_ALGS}
    + if p.compressCert.Some? then {COMPRESS_CERT} else {}
  }

  function CarriedTypes(order: seq<u16>, known: set<u16>): seq<u16>
  {
    if order == [] then [] else (if order[0] in known then [order[0]] else []) + CarriedTypes(order[1..], known)
  }

  /** The profile's own groups, once for every time the order names the extension. */
  function CarriedGroups(order: seq<u16>, groups: seq<u16>): seq<u16>
  {
    if order == [] then [] else
    (if order[0] == SUPPORTED_GROUPS then PlainWords(groups) else []) + CarriedGroups(order[1..], groups)
  }

  /** The fingerprint a profile has, with or without the padding extension. */
  function Canonical(p: Profile, padded: bool): string
  {
    Render(PlainWords(p.cipherSuites + [0x00FF]),
           CarriedTypes(p.order, BodyTypes(p)) + (if padded then [PADDING] else []),
           CarriedGroups(p.order, p.groups),
           if EC_POINT_FORMATS in p.order then [0] else [])
  }

  /** It reads as 771, the visible ciphers, the carried types with padding (21) last, groups and points. */
  lemma CanonicalReads(p: Profile, padded: bool)
    ensures ReadsAs(Canonical(p, padded), [771], PlainWords(p.cipherSuites + [0x00FF]),
                    CarriedTypes(p.order, BodyTypes(p)) + (if padded then [21] else []),
                    CarriedGroups(p.order, p.groups), if EC_POINT_FORMATS in p.order then [0] else [])
  {
    hide Render, ReadsAs, PlainWords, CarriedTypes, CarriedGroups;
    RenderReads(PlainWords(p.cipherSuites + [0x00FF]),
                CarriedTypes(p.order, BodyTypes(p)) + (if padded then [PADDING] else []),
                CarriedGroups(p.order, p.groups), if EC_POINT_FORMATS in p.order then [0] else []);
  }

  lemma BodiesOf(p: Profile, sni: bytes, keyShare: Block32)
    ensures var m := Bodies(p, sni, keyShare);
            m.Keys == BodyTypes(p) && m[EC_POINT_FORMATS] == [1, 0] && m[SUPPORTED_GROUPS] == Vec16(Be16s(p.groups))
  {
    hide Vec16, Vec8, Be16s, SniBody, KeyShareBody, VersionsBody, Vec8s;
  }

  lemma KnownTypesArePlain(p: Profile, t: u16)
    requires t in BodyTypes(p) || t == PADDING
    ensures !IsGrease(t)
  {
  }

  lemma GroupDataIs(v: bytes)
    requires |v| + 2 < 0x1_0000
    ensures |Vec16(v)| >= 2 && GroupData(Vec16(v)) == v
  {
    assert Low16(|v|) == |v|;
    hide Be16, Word, Low16;
    var b, h := Vec16(v), Be16(Low16(|v|));
    assert b[0] == h[0] && b[1] == h[1] && b[2..] == v;
  }

  lemma GroupsRead(groups: seq<u16>)
    requires 2 * |groups| + 2 < 0x1_0000
    ensures GroupsOf(Ext(SUPPORTED_GROUPS, Vec16(Be16s(groups)))) == PlainWords(groups)
  {
    hide Be16, Word, PlainWords, Words, GroupData, Vec16, Be16s;
    Be16sLength(groups);
    GroupDataIs(Be16s(groups));
    WordsOfBe16s(groups);
  }

  lemma {:induction false} ChosenLists(p: Profile, order: seq<u16>, m: map<u16, bytes>, points: bytes)
    requires m.Keys == BodyTypes(p) && EC_POINT_FORMATS in m && m[EC_POINT_FORMATS] == [1, 0]
    requires SUPPORTED_GROUPS in m
    requires SUPPORTED_GROUPS in order ==> GroupsOf(Ext(SUPPORTED_GROUPS, m[SUPPORTED_GROUPS])) == PlainWords(p.groups)
    ensures Types(Chosen(order, m)) == CarriedTypes(order, BodyTypes(p))
    ensures Groups(Chosen(order, m)) == CarriedGroups(order, p.groups)
    ensures Points(points, Chosen(order, m)) == if EC_POINT_FORMATS in order then [0] else points
    decreases order
  {
    hide IsGrease, BodyTypes, Vec16, Be16s, PlainWords, GroupData, Words;
    if order != [] {
      var t := order[0];
      if t in m {
        var e := Ext(t, m[t]);
        KnownTypesArePlain(p, t);
        assert t == EC_POINT_FORMATS ==> PointsAfter(points, e) == [0];
        ChosenLists(p, order[1..], m, PointsAfter(points, e));
        ExtStep(e, Chosen(order[1..], m), points);
      } else {
        ChosenLists(p, order[1..], m, points);
        assert [] + Chosen(order[1..], m) == Chosen(order[1..], m);
      }
    }
  }

  lemma AfterHeaders(version: bytes, hello: bytes)
    requires |version| == 2 && |hello| >= 34
    ensures var b := Record(version, Handshake(hello, []), []);
            |b| == 9 + |hello| && b[43..] == hello[34..]
  {
    hide Be16, Be24;
    var hs := Handshake(hello, []);
    var b := Record(version, hs, []);
    assert b[5..] == hs;
    assert hs[4..] == hello;
    assert b[5..][4..][34..] == b[43..];
  }

  /** JA3String reads no length above the hello: only the extension block is cut by its own length. */
  lemma BuiltFrame(p: Profile, sni: bytes, d: Draws)
    requires d.InRange() && |Be16s(Ciphers(p, d))| < 0x1_0000
    ensures FrameOf(Built(p, sni, d)) == Lists(Be16s(Ciphers(p, d)), LowPart(EncodeExts(Exts(p, sni, d))))
  {
    hide Hello, Cut8, FrameTail, Be16, Record, Handshake, LowPart, Exts, EncodeExts, Be16s;
    HelloSize(p, sni, d);
    HelloFrame(p, sni, d);
    AfterHeaders(Be16(0x0301), Hello(p, sni, d));
    CutNeedsOne(Hello(p, sni, d)[34..]);
  }

  lemma CutNeedsOne(b: bytes)
    ensures Cut8(b).Some? ==> |b| >= 1
  {
  }

  lemma HelloFrame(p: Profile, sni: bytes, d: Draws)
    requires d.InRange() && |Be16s(Ciphers(p, d))| < 0x1_0000
    ensures |Hello(p, sni, d)| >= 34
    ensures var c := Cut8(Hello(p, sni, d)[34..]);
            && c.Some?
            && FrameTail(c.value.rest) == Lists(Be16s(Ciphers(p, d)), LowPart(EncodeExts(Exts(p, sni, d))))
  {
    hide Exts, Ciphers, EncodeExts, Be16s, Cut8, Cut16, Vec8, Vec16, LowPart;
    HelloSize(p, sni, d);
    var cs, es := Be16s(Ciphers(p, d)), EncodeExts(Exts(p, sni, d));
    var r3 := Vec16(es) + [];
    var r2 := Vec8([0x00]) + r3;
    var r1 := Vec16(cs) + r2;
    assert Hello(p, sni, d)[34..] == Vec8(d.session) + r1;
    assert |r2| >= 1 by { Vec8Size([0x00]); }
    CutVec8(d.session, r1);
    CutVec16(cs, r2);
    CutVec8([0x00], r3);
    assert r3 == Vec16(es);
    CutOverflow(es);
  }

  lemma Vec8Size(v: bytes)
    ensures |Vec8(v)| == 1 + |v|
  {
  }

  /** GREASE ciphers and extensions leave no trace in the lists. */
  lemma BuiltCiphers(p: Profile, d: Draws)
    requires d.InRange()
    ensures PlainWords(Words(Be16s(Ciphers(p, d)))) == PlainWords(p.cipherSuites + [0x00FF])
  {
    WordsOfBe16s(Ciphers(p, d));
    var first := if p.useGrease then [Grease(d.cipherGrease)] else [];
    PlainWordsAppend(first, p.cipherSuites + [0x00FF]);
    Assoc(first, p.cipherSuites, [0x00FF]);
    GreaseForm(d.cipherGrease);
    assert PlainWords(first) == [] by { hide IsGrease; if first != [] { assert first[1..] == []; } }
  }

  lemma GreaseLists(es: seq<Ext>, points: bytes)
    requires |es| <= 1 && forall e :: e in es ==> IsGrease(e.typ)
    ensures Types(es) == [] && Groups(es) == [] && Points(points, es) == points
  {
    if es != [] {
      assert es == [es[0]] + [];
      ExtStep(es[0], [], points);
      NoMoreExts(points);
    }
  }

  lemma PaddingLists(n: nat, points: bytes)
    ensures var es := [Ext(PADDING, seq(n, _ => 0))];
            Types(es) == [PADDING] && Groups(es) == [] && Points(points, es) == points
  {
    var e := Ext(PADDING, seq(n, _ => 0));
    assert [e] == [e] + [];
    ExtStep(e, [], points);
    NoMoreExts(points);
  }

  lemma BuiltLists(p: Profile, sni: bytes, d: Draws)
    requires d.InRange() && (SUPPORTED_GROUPS in p.order ==> 2 * |p.groups| + 2 < 0x1_0000)
    ensures var es := Exts(p, sni, d);
            && Types(es) == CarriedTypes(p.order, BodyTypes(p)) + (if Padded(p, sni, d) then [PADDING] else [])
            && Groups(es) == CarriedGroups(p.order, p.groups)
            && Points([], es) == if EC_POINT_FORMATS in p.order then [0] else []
  {
    hide EncodeExts, PadNeeded, Bodies, Chosen, Types, Groups, Points, IsGrease, Vec16;
    var m := Bodies(p, sni, d.keyShare);
    BodiesOf(p, sni, d.keyShare);
    GreaseForm(d.extGrease);
    var first := if p.useGrease then [Ext(Grease(d.extGrease), [0x00])] else [];
    var mid := Chosen(p.order, m);
    var last := if Padded(p, sni, d) then [Ext(PADDING, seq(PadNeeded(p, sni, d), _ => 0))] else [];
    assert Exts(p, sni, d) == first + mid + last;
    if SUPPORTED_GROUPS in p.order { GroupsRead(p.groups); }
    GreaseLists(first, []);
    ChosenLists(p, p.order, m, []);
    ListsAppend(first, mid, []);
    ListsAppend(first + mid, last, []);
    var points := Points([], first + mid);
    NoMoreExts(points);
    if Padded(p, sni, d) { PaddingLists(PadNeeded(p, sni, d), points); }
  }

  /** The groups body is part of the block, so it is no longer than that. */
  lemma GroupsAreInBlock(p: Profile, sni: bytes, d: Draws)
    requires d.InRange()
    ensures SUPPORTED_GROUPS in p.order ==> 2 * |p.groups| + 6 <= |EncodeExts(Exts(p, sni, d))|
  {
    hide EncodeExts, PadNeeded, Bodies, Chosen, Vec16;
    var m := Bodies(p, sni, d.keyShare);
    BodiesOf(p, sni, d.keyShare);
    EncodedBodiesFit(Exts(p, sni, d));
    if SUPPORTED_GROUPS in p.order {
      ChosenHas(p.order, m, SUPPORTED_GROUPS);
      GroupsSize(p.groups);
      assert Ext(SUPPORTED_GROUPS, m[SUPPORTED_GROUPS]) in Exts(p, sni, d);
    }
  }

  lemma GroupsSize(groups: seq<u16>)
    ensures |Vec16(Be16s(groups))| == 2 + 2 * |groups|
  {
    Be16sLength(groups);
  }

  lemma {:induction false} ChosenHas(order: seq<u16>, m: map<u16, bytes>, t: u16)
    requires t in order && t in m
    ensures Ext(t, m[t]) in Chosen(order, m)
  {
    if order[0] != t { ChosenHas(order[1..], m, t); }
  }

  /** Both lists JA3String reads by their own lengths fit those lengths. */
  predicate ListsFit(p: Profile, sni: bytes, d: Draws)
    requires d.InRange()
  {
    |Be16s(Ciphers(p, d))| < 0x1_0000 && |EncodeExts(Exts(p, sni, d))| < 0x1_0000
  }

  /** Build's output prints as its profile's fingerprint: names, GREASE, keys and randoms do not show. */
  lemma FingerprintIsCanonical(p: Profile, sni: bytes, d: Draws)
    requires d.InRange() && ListsFit(p, sni, d)
    ensures PrintOf(Built(p, sni, d)) == Text(Canonical(p, Padded(p, sni, d)))
  {
    hide Exts, EncodeExts, Built, FrameOf, Padded, Scan, Types, Groups, Points, Render, PlainWords, Words;
    BuiltFrame(p, sni, d);
    var block := EncodeExts(Exts(p, sni, d));
    assert LowPart(block) == block;
    ExtsScan(Exts(p, sni, d));
    BuiltCiphers(p, d);
    GroupsAreInBlock(p, sni, d);
    BuiltLists(p, sni, d);
  }

  /** Equal fingerprints of built hellos mean equal visible lists, and the same padding decision. */
  lemma FingerprintDetermines(p: Profile, sni: bytes, d: Draws, p': Profile, sni': bytes, d': Draws)
    requires d.InRange() && ListsFit(p, sni, d)
    requires d'.InRange() && ListsFit(p', sni', d')
    requires PrintOf(Built(p, sni, d)) == PrintOf(Built(p', sni', d'))
    ensures PlainWords(p.cipherSuites + [0x00FF]) == PlainWords(p'.cipherSuites + [0x00FF])
    ensures CarriedGroups(p.order, p.groups) == CarriedGroups(p'.order, p'.groups)
    ensures Padded(p, sni, d) == Padded(p', sni', d')
    ensures CarriedTypes(p.order, BodyTypes(p)) == CarriedTypes(p'.order, BodyTypes(p'))
  {
    hide PrintOf, Built, ListsFit, Padded, Render, PlainWords;
    FingerprintIsCanonical(p, sni, d);
    FingerprintIsCanonical(p', sni', d');
    var x, x' := Padded(p, sni, d), Padded(p', sni', d');
    var t, t' := CarriedTypes(p.order, BodyTypes(p)), CarriedTypes(p'.order, BodyTypes(p'));
    var tp, tp' := t + (if x then [PADDING] else []), t' + (if x' then [PADDING] else []);
    RenderIsInjective(
      PlainWords(p.cipherSuites + [0x00FF]), tp, CarriedGroups(p.order, p.groups),
      if EC_POINT_FORMATS in p.order then [0] else [],
      PlainWords(p'.cipherSuites + [0x00FF]), tp', CarriedGroups(p'.order, p'.groups),
      if EC_POINT_FORMATS in p'.order then [0] else []);
    NoPaddingCarried(p.order, p);
    NoPaddingCarried(p'.order, p');
    assert x ==> PADDING in tp;
    assert x' ==> PADDING in tp';
    assert tp[..|t|] == t && tp'[..|t'|] == t';
  }

  lemma {:induction false} NoPaddingCarried(order: seq<u16>, p: Profile)
    ensures PADDING !in CarriedTypes(order, BodyTypes(p))
  {
    if order != [] { NoPaddingCarried(order[1..], p); }
  }

  // ---- the shipped profiles ----

  /** A block cut inside an extension ends before it. */
  lemma CutExtension(e: Ext, tail: bytes, m: nat)
    requires |e.body| < 0x1_0000 && m < 4 + |e.body|
    ensures m <= |EncodeExt(e) + tail| && Scan((EncodeExt(e) + tail)[..m]) == []
  {
    hide Be16, Word;
    var b, h := (EncodeExt(e) + tail)[..m], Be16(Low16(|e.body|));
    if m >= 4 {
      LowIsItself(|e.body|);
      assert b[2] == h[0] && b[3] == h[1];
      assert Cut16(b[2..]) == None;
    }
  }

  lemma ScanOneThen(e: Ext, rest: bytes)
    requires |e.body| < 0x1_0000 && Scan(rest) == []
    ensures Scan(EncodeExt(e) + rest) == [e]
  {
    hide EncodeExt, Scan;
    ScanOne(e, rest);
  }

  /** Cut inside its second extension, a block still shows at most the GREASE one before it. */
  lemma CutShowsNoType(first: seq<Ext>, e: Ext, es: seq<Ext>, m: nat)
    requires |first| <= 1 && (forall x :: x in first ==> IsGrease(x.typ) && x.body == [0x00])
    requires |e.body| < 0x1_0000 && m < 4 + |e.body|
    ensures var b := EncodeExts(first + ([e] + es)); m <= |b| && Types(Scan(b[..m])) == []
  {
    hide EncodeExt, Scan, Types, IsGrease;
    var inner, b := EncodeExt(e) + EncodeExts(es), EncodeExts(first + ([e] + es));
    assert ([e] + es)[1..] == es;
    assert EncodeExts([e] + es) == inner;
    NoMoreExts([]);
    if first == [] {
      assert first + ([e] + es) == [e] + es;
      CutExtension(e, EncodeExts(es), m);
    } else {
      var g := first[0];
      assert first + ([e] + es) == [g] + ([e] + es) && ([g] + ([e] + es))[1..] == [e] + es;
      assert b == EncodeExt(g) + inner;
      if m < 5 {
        CutExtension(g, inner, m);
      } else {
        assert |EncodeExt(g)| == 5 by { OneByte(g); }
        CutExtension(e, EncodeExts(es), m - 5);
        assert b[..m] == EncodeExt(g) + inner[..m - 5];
        ScanOneThen(g, inner[..m - 5]);
        GreaseLists([g], []);
      }
    }
  }

  lemma OneByte(e: Ext)
    requires |e.body| == 1
    ensures |EncodeExt(e)| == 5
  {
  }

  lemma ShippedExts(p: Profile, sni: bytes, d: Draws) returns (first: seq<Ext>, rest: seq<Ext>)
    requires d.InRange() && Modest(p)
    ensures Exts(p, sni, d) == first + ([Ext(SNI, SniBody(sni))] + rest)
    ensures |first| <= 1 && forall x :: x in first ==> IsGrease(x.typ) && x.body == [0x00]
  {
    hide Bodies, Chosen, PadNeeded, SniBody, IsGrease;
    GreaseForm(d.extGrease);
    SniComesFirst(p, sni, d.keyShare);
    first := if p.useGrease then [Ext(Grease(d.extGrease), [0x00])] else [];
    var name := [Ext(SNI, SniBody(sni))];
    var more := Chosen(p.order[1..], Bodies(p, sni, d.keyShare));
    var pad := if Padded(p, sni, d) then [Ext(PADDING, seq(PadNeeded(p, sni, d), _ => 0))] else [];
    rest := more + pad;
    assert Exts(p, sni, d) == (first + (name + more)) + pad;
    Assoc(first, name + more, pad);
    Assoc(name, more, pad);
  }

  /** Every shipped profile's fingerprint names the SNI extension. */
  lemma CanonicalHasTypes(p: Profile)
    requires Modest(p)
    ensures CarriedTypes(p.order, BodyTypes(p)) != []
  {
  }

  /**
   For every obtainable profile, every draw and every name that fits its own length fields, the print
   is canonical exactly while the extension block fits its 16-bit length. Beyond it no type is printed.
   */
  lemma ShippedFingerprints(name: string, pick: nat, sni: bytes, d: Draws)
    requires pick < 5 && d.InRange() && |sni| <= 65530
    ensures var p := GetProfile(name, pick);
            PrintOf(Built(p, sni, d)) == Text(Canonical(p, Padded(p, sni, d)))
            <==> |EncodeExts(Exts(p, sni, d))| < 0x1_0000
  {
    hide GetProfile, PrintOf, Built, Exts, EncodeExts, Ciphers, Be16s, Canonical, Padded, Modest;
    var p := GetProfile(name, pick);
    ShippedAreModest(name, pick);
    ModestSizes(p, sni, d);
    if |EncodeExts(Exts(p, sni, d))| < 0x1_0000 {
      FingerprintIsCanonical(p, sni, d);
    } else {
      OverflowShowsNoType(p, sni, d);
    }
  }

  lemma OverflowShowsNoType(p: Profile, sni: bytes, d: Draws)
    requires d.InRange() && Modest(p) && |sni| <= 65530 && |EncodeExts(Exts(p, sni, d))| >= 0x1_0000
    ensures PrintOf(Built(p, sni, d)) != Text(Canonical(p, Padded(p, sni, d)))
  {
    hide Built, Exts, EncodeExts, Ciphers, Be16s, Padded, Modest, FrameOf, Scan, Types, Groups, Points, Render,
         PlainWords, Words, CarriedTypes, CarriedGroups, LowPart, BodyTypes;
    ModestSizes(p, sni, d);
    BuiltFrame(p, sni, d);
    LowPartHasNoType(p, sni, d);
    CanonicalHasTypes(p);
    var es := Scan(LowPart(EncodeExts(Exts(p, sni, d))));
    TypesDiffer(PlainWords(Words(Be16s(Ciphers(p, d)))), Groups(es), Points([], es), p, Padded(p, sni, d));
  }

  lemma LowPartHasNoType(p: Profile, sni: bytes, d: Draws)
    requires d.InRange() && Modest(p) && |sni| <= 65530 && |EncodeExts(Exts(p, sni, d))| >= 0x1_0000
    ensures Types(Scan(LowPart(EncodeExts(Exts(p, sni, d))))) == []
  {
    hide Exts, EncodeExts, Be16s, Ciphers, Modest, Scan, Types, SniBody, IsGrease, HandshakeOf;
    ModestSizes(p, sni, d);
    SniBodySize(sni);
    var first, rest := ShippedExts(p, sni, d);
    var m := |EncodeExts(Exts(p, sni, d))| - 0x1_0000;
    CutShowsNoType(first, Ext(SNI, SniBody(sni)), rest, m);
  }

  lemma TypesDiffer(c: seq<u16>, g: seq<u16>, pts: seq<u16>, p: Profile, padded: bool)
    requires CarriedTypes(p.order, BodyTypes(p)) != []
    ensures Render(c, [], g, pts) != Canonical(p, padded)
  {
    hide Render, PlainWords, CarriedTypes, CarriedGroups, BodyTypes;
    if Render(c, [], g, pts) == Canonical(p, padded) {
      RenderIsInjective(
        c, [], g, pts,
        PlainWords(p.cipherSuites + [0x00FF]), CarriedTypes(p.order, BodyTypes(p)) + (if padded then [PADDING] else []),
        CarriedGroups(p.order, p.groups), if EC_POINT_FORMATS in p.order then [0] else []);
    }
  }

  /** So every obtainable profile prints a wrong fingerprint around a 65530-byte name. */
  lemma LongNameFingerprint(name: string, pick: nat, sni: bytes, d: Draws)
    requires pick < 5 && d.InRange() && |sni| == 65530
    ensures var p := GetProfile(name, pick);
            PrintOf(Built(p, sni, d)) != Text(Canonical(p, Padded(p, sni, d)))
  {
    hide GetProfile, PrintOf, Built, Exts, EncodeExts, Canonical, Padded, Modest;
    ShippedAreModest(name, pick);
    ModestSizes(GetProfile(name, pick), sni, d);
    ShippedFingerprints(name, pick, sni, d);
  }

  lemma {:induction false} NothingFiltered(vs: seq<u16>)
    requires forall i :: 0 <= i < |vs| ==> !IsGrease(vs[i])
    ensures PlainWords(vs) == vs
  {
    if vs != [] {
      NothingFiltered(vs[1..]);
      assert vs == [vs[0]] + vs[1..];
    }
  }

  lemma {:induction false} CarriedButLast(order: seq<u16>, known: set<u16>)
    requires order != [] && order[|order| - 1] !in known
    requires forall i :: 0 <= i < |order| - 1 ==> order[i] in known
    ensures CarriedTypes(order, known) == order[..|order| - 1]
  {
    if |order| == 1 {
      assert order[1..] == [];
    } else {
      CarriedButLast(order[1..], known);
      assert order[..|order| - 1] == [order[0]] + order[1..][..|order| - 2];
    }
  }

  lemma {:induction false} GroupsOnce(order: seq<u16>, groups: seq<u16>, k: nat)
    requires k < |order| && order[k] == SUPPORTED_GROUPS
    requires forall i :: 0 <= i < |order| && i != k ==> order[i] != SUPPORTED_GROUPS
    ensures CarriedGroups(order, groups) == PlainWords(groups)
  {
    hide PlainWords;
    if k == 0 {
      NoGroups(order[1..], groups);
      assert PlainWords(groups) + [] == PlainWords(groups);
    } else {
      GroupsOnce(order[1..], groups, k - 1);
      assert [] + PlainWords(groups) == PlainWords(groups);
    }
  }

  lemma {:induction false} NoGroups(order: seq<u16>, groups: seq<u16>)
    requires forall i :: 0 <= i < |order| ==> order[i] != SUPPORTED_GROUPS
    ensures CarriedGroups(order, groups) == []
  {
    if order != [] { NoGroups(order[1..], groups); }
  }

  /** The Chrome profile's fingerprint, in the numbers it prints. */
  lemma ChromeReads()
    ensures ReadsAs(Canonical(CHROME124, false), [771],
                    [4865, 4866, 4867, 49195, 49199, 49196, 49200, 52393, 52392, 49171, 49172, 156, 157, 47, 53, 255],
                    [0, 23, 65281, 10, 11, 35, 16, 5, 18, 51, 43, 27, 45], [29, 23, 24, 25], [0])
  {
    hide ReadsAs, Canonical, PlainWords, CarriedTypes, CarriedGroups;
    var p := CHROME124;
    CanonicalReads(p, false);
    NothingFiltered(p.cipherSuites + [0x00FF]);
    NothingFiltered(p.groups);
    CarriedButLast(p.order, BodyTypes(p));
    GroupsOnce(p.order, p.groups, 3);
    assert p.order[4] == EC_POINT_FORMATS;
    var c: seq<int> := [4865, 4866, 4867, 49195, 49199, 49196, 49200, 52393, 52392, 49171, 49172, 156, 157, 47, 53, 255];
    assert p.cipherSuites + [0x00FF] == c;
    var t: seq<int> := [0, 23, 65281, 10, 11, 35, 16, 5, 18, 51, 43, 27, 45];
    assert p.order[..13] == t;
    assert CarriedTypes(p.order, BodyTypes(p)) + [] == t;
    assert p.groups == [29, 23, 24, 25];
  }
}
