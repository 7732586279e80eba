/** The printed form of a fingerprint: decimal numbers joined by '-' inside lists joined by ','. */
module Ja3Text {
  import opened Bytes

  const DIGITS := "0123456789"

  /** Go's %d on a non-negative number. */
  function Decimal(n: nat): string
  {
    if n < 10 then [DIGITS[n]] else Decimal(n / 10) + [DIGITS[n % 10]]
  }

  /** joinUint16. */
  function Join(vals: seq<u16>): string
  {
    if vals == [] then "" else
    if |vals| == 1 then Decimal(vals[0]) else Decimal(vals[0]) + ("-" + Join(vals[1..]))
  }

  function Render(ciphers: seq<u16>, types: seq<u16>, groups: seq<u16>, points: seq<u16>): string
  {
    "771," + (Join(ciphers) + ("," + (Join(types) + ("," + (Join(groups) + ("," + Join(points)))))))
  }

  ghost predicate Without(s: string, c: char) { c !in s }

  lemma {:induction false} DecimalIsDigits(n: nat)
    ensures Decimal(n) != "" && forall c :: c in Decimal(n) ==> c in DIGITS
  {
    if n >= 10 { DecimalIsDigits(n / 10); }
  }

  lemma DecimalIsPlain(n: nat)
    ensures Decimal(n) != "" && Without(Decimal(n), '-') && Without(Decimal(n), ',')
  {
    DecimalIsDigits(n);
  }

  lemma {:induction false} JoinIsPlain(vals: seq<u16>)
    ensures Without(Join(vals), ',') && (Join(vals) == "" <==> vals == [])
  {
    if vals != [] {
      DecimalIsPlain(vals[0]);
      JoinIsPlain(vals[1..]);
    }
  }

  lemma {:induction false} DecimalIsInjective(m: nat, n: nat)
    requires Decimal(m) == Decimal(n)
    ensures m == n
  {
    var s, t := Decimal(m), Decimal(n);
    assert s[|s| - 1] == DIGITS[m % 10] && t[|t| - 1] == DIGITS[n % 10];
    DigitIsInjective(m % 10, n % 10);
    if m >= 10 { DecimalIsDigits(m / 10); }
    if n >= 10 { DecimalIsDigits(n / 10); }
    if m >= 10 && n >= 10 {
      assert s[..|s| - 1] == Decimal(m / 10) && t[..|t| - 1] == Decimal(n / 10);
      DecimalIsInjective(m / 10, n / 10);
    }
  }

  lemma DigitIsInjective(a: nat, b: nat)
    requires a < 10 && b < 10 && DIGITS[a] == DIGITS[b]
    ensures a == b
  {
  }

  /** The first separator splits a string uniquely. */
  lemma SplitIsUnique(a: string, b: string, c: string, d: string, sep: char)
    requires Without(a, sep) && Without(c, sep)
    requires a + ([sep] + b) == c + ([sep] + d)
    ensures a == c && b == d
  {
    var s := a + ([sep] + b);
    assert s[|a|] == sep && s[|c|] == sep;
    assert forall i :: 0 <= i < |a| ==> s[i] == a[i] && a[i] != sep;
    assert forall i :: 0 <= i < |c| ==> s[i] == c[i] && c[i] != sep;
    assert s[..|a|] == a && s[..|c|] == c && s[|a| + 1..] == b && s[|c| + 1..] == d;
  }

  lemma SeparatedIsNotPlain(a: string, b: string, sep: char)
    ensures !Without(a + ([sep] + b), sep)
  {
    assert (a + ([sep] + b))[|a|] == sep;
  }

  lemma {:induction false} JoinIsInjective(us: seq<u16>, vs: seq<u16>)
    requires Join(us) == Join(vs)
    ensures us == vs
  {
    hide Decimal;
    JoinIsPlain(us);
    JoinIsPlain(vs);
    if us != [] {
      DecimalIsPlain(us[0]);
      DecimalIsPlain(vs[0]);
      if |us| == 1 && |vs| == 1 {
        DecimalIsInjective(us[0], vs[0]);
      } else if |us| == 1 {
        SeparatedIsNotPlain(Decimal(vs[0]), Join(vs[1..]), '-');
      } else if |vs| == 1 {
        SeparatedIsNotPlain(Decimal(us[0]), Join(us[1..]), '-');
      } else {
        SplitIsUnique(Decimal(us[0]), Join(us[1..]), Decimal(vs[0]), Join(vs[1..]), '-');
        DecimalIsInjective(us[0], vs[0]);
        JoinIsInjective(us[1..], vs[1..]);
        assert us == [us[0]] + us[1..] && vs == [vs[0]] + vs[1..];
      }
    }
  }

  /** A printed fingerprint determines its four lists. */
  lemma RenderIsInjective(c: seq<u16>, t: seq<u16>, g: seq<u16>, p: seq<u16>,
                          c': seq<u16>, t': seq<u16>, g': seq<u16>, p': seq<u16>)
    requires Render(c, t, g, p) == Render(c', t', g', p')
    ensures c == c' && t == t' && g == g' && p == p'
  {
    hide Join;
    JoinIsPlain(c);
    JoinIsPlain(c');
    JoinIsPlain(t);
    JoinIsPlain(t');
    JoinIsPlain(g);
    JoinIsPlain(g');
    var r3, r3' := Join(p), Join(p');
    var r2, r2' := Join(g) + ("," + r3), Join(g') + ("," + r3');
    var r1, r1' := Join(t) + ("," + r2), Join(t') + ("," + r2');
    var r0, r0' := Join(c) + ("," + r1), Join(c') + ("," + r1');
    assert Render(c, t, g, p)[4..] == r0 && Render(c', t', g', p')[4..] == r0';
    SplitIsUnique(Join(c), r1, Join(c'), r1', ',');
    SplitIsUnique(Join(t), r2, Join(t'), r2', ',');
    SplitIsUnique(Join(g), r3, Join(g'), r3', ',');
    JoinIsInjective(c, c');
    JoinIsInjective(t, t');
    JoinIsInjective(g, g');
    JoinIsInjective(p, p');
  }

  lemma {:induction false} JoinSnoc(vals: seq<u16>, v: u16)
    ensures Join(vals + [v]) == (if vals == [] then "" else Join(vals) + "-") + Decimal(v)
  {
    hide Decimal;
    if vals == [] {
      assert [] + [v] == [v];
    } else {
      assert (vals + [v])[0] == vals[0] && (vals + [v])[1..] == vals[1..] + [v];
      JoinSnoc(vals[1..], v);
    }
  }

  method JoinUint16(vals: seq<u16>) returns (s: string)
    ensures s == Join(vals)
  {
    hide Decimal;
    s := "";
    for i := 0 to |vals|
      invariant s == Join(vals[..i])
    {
      JoinSnoc(vals[..i], vals[i]);
      assert vals[..i + 1] == vals[..i] + [vals[i]];
      if i > 0 { s := s + "-"; }
      s := s + Decimal(vals[i]);
    }
    assert vals[..|vals|] == vals;
  }

  // ---- reading the text back ----

  /** The pieces of a string between separators. */
  function Fields(s: string, sep: char): (fields: seq<string>)
    ensures |fields| >= 1
  {
    if s == "" then [""] else
    var rest := Fields(s[1..], sep);
    if s[0] == sep then [""] + rest else [[s[0]] + rest[0]] + rest[1..]
  }

  /** The value of a decimal numeral, each digit by its distance from '0'. */
  function Value(s: string): int
  {
    if s == "" then 0 else 10 * Value(s[..|s| - 1]) + (s[|s| - 1] as int - '0' as int)
  }

  /** Digits only, and no leading zero. */
  ghost predicate Numeral(s: string)
  {
    s != "" && (forall i :: 0 <= i < |s| ==> '0' <= s[i] <= '9') && (|s| > 1 ==> s[0] != '0')
  }

  function Values(pieces: seq<string>): seq<int>
  {
    if pieces == [] then [] else [Value(pieces[0])] + Values(pieces[1..])
  }

  /** The numbers of one field. */
  function Numbers(field: string): seq<int> { if field == "" then [] else Values(Fields(field, '-')) }

  ghost predicate ProperField(field: string)
  {
    field == "" || forall i :: 0 <= i < |Fields(field, '-')| ==> Numeral(Fields(field, '-')[i])
  }

  /** A text of five fields that read as these five lists. */
  ghost predicate ReadsAs(text: string, version: seq<int>, ciphers: seq<int>, types: seq<int>, groups: seq<int>,
                          points: seq<int>)
  {
    var f := Fields(text, ',');
    && |f| == 5 && (forall i :: 0 <= i < 5 ==> ProperField(f[i]))
    && Numbers(f[0]) == version && Numbers(f[1]) == ciphers && Numbers(f[2]) == types
    && Numbers(f[3]) == groups && Numbers(f[4]) == points
  }

  lemma {:induction false} PlainIsOneField(s: string, sep: char)
    requires Without(s, sep)
    ensures Fields(s, sep) == [s]
  {
    if s != "" {
      PlainIsOneField(s[1..], sep);
      assert s == [s[0]] + s[1..];
    }
  }

  lemma {:induction false} FirstField(a: string, b: string, sep: char)
    requires Without(a, sep)
    ensures Fields(a + ([sep] + b), sep) == [a] + Fields(b, sep)
  {
    var s := a + ([sep] + b);
    if a == "" {
      assert s[0] == sep && s[1..] == b;
    } else {
      assert s[0] == a[0] && s[1..] == a[1..] + ([sep] + b);
      FirstField(a[1..], b, sep);
      assert a == [a[0]] + a[1..];
    }
  }

  lemma {:induction false} DecimalReads(n: nat)
    ensures Value(Decimal(n)) == n && Numeral(Decimal(n)) && (n > 0 ==> Decimal(n)[0] != '0')
  {
    DigitValue(n % 10);
    if n >= 10 {
      DecimalReads(n / 10);
      var s := Decimal(n);
      assert s[..|s| - 1] == Decimal(n / 10);
    } else {
      assert Decimal(n)[..0] == "";
    }
  }

  lemma DigitValue(d: nat)
    requires d < 10
    ensures DIGITS[d] as int == '0' as int + d && (d > 0 ==> DIGITS[d] != '0')
  {
  }

  ghost predicate PiecesRead(f: seq<string>, vals: seq<u16>)
  {
    |f| == |vals| && Values(f) == vals && forall i :: 0 <= i < |f| ==> Numeral(f[i])
  }

  lemma OneMorePiece(v: u16, f: seq<string>, vals: seq<u16>)
    requires PiecesRead(f, vals)
    ensures PiecesRead([Decimal(v)] + f, [v] + vals)
  {
    hide Decimal, Value, Numeral;
    DecimalReads(v);
    assert ([Decimal(v)] + f)[1..] == f;
  }

  lemma {:induction false} JoinReads(vals: seq<u16>)
    requires vals != []
    ensures PiecesRead(Fields(Join(vals), '-'), vals)
  {
    hide Decimal, PiecesRead, Fields;
    DecimalIsPlain(vals[0]);
    assert vals == [vals[0]] + vals[1..];
    if |vals| == 1 {
      PlainIsOneField(Decimal(vals[0]), '-');
      assert PiecesRead([], []) by { NoPieces(); }
      OneMorePiece(vals[0], [], []);
      assert [Decimal(vals[0])] + [] == [Decimal(vals[0])] && [vals[0]] + [] == vals;
    } else {
      JoinReads(vals[1..]);
      FirstField(Decimal(vals[0]), Join(vals[1..]), '-');
      OneMorePiece(vals[0], Fields(Join(vals[1..]), '-'), vals[1..]);
    }
  }

  lemma NoPieces()
    ensures PiecesRead([], [])
  {
  }

  lemma FieldReads(vals: seq<u16>)
    ensures Numbers(Join(vals)) == vals && ProperField(Join(vals))
  {
    hide Fields, Values, Numeral;
    JoinIsPlain(vals);
    if vals != [] { JoinReads(vals); }
  }

  lemma VersionReads()
    ensures Numbers("771") == [771] && ProperField("771") && Without("771", ',')
  {
    var v: seq<u16> := [771];
    assert Decimal(7) == "7" && Decimal(77) == Decimal(7) + "7" && Decimal(771) == Decimal(77) + "1";
    assert Join(v) == "771";
    FieldReads(v);
    JoinIsPlain(v);
  }

  /** A reader that cuts at ',' and '-' finds 771, ciphers, types, groups and points, in that order. */
  lemma RenderReads(c: seq<u16>, t: seq<u16>, g: seq<u16>, p: seq<u16>)
    ensures ReadsAs(Render(c, t, g, p), [771], c, t, g, p)
  {
    hide Join, Fields, Numbers, ProperField;
    FieldReads(c);
    FieldReads(t);
    FieldReads(g);
    FieldReads(p);
    VersionReads();
    JoinIsPlain(c);
    JoinIsPlain(t);
    JoinIsPlain(g);
    JoinIsPlain(p);
    var r3 := Join(p);
    var r2 := Join(g) + ("," + r3);
    var r1 := Join(t) + ("," + r2);
    var r0 := Join(c) + ("," + r1);
    assert Render(c, t, g, p) == "771" + ("," + r0);
    FirstField("771", r0, ',');
    FirstField(Join(c), r1, ',');
    FirstField(Join(t), r2, ',');
    FirstField(Join(g), r3, ',');
    PlainIsOneField(r3, ',');
  }
}
