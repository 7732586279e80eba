/**
 internetChecksum of internal/bypass/packet_linux.go (section 1 of RFC 1071): a 32-bit accumulator of
 16-bit words, folded twice at most and complemented.
 */
module InternetSum {
  import opened Bytes

  /** The sum of the big-endian words; an odd last byte is a high byte. */
  function WordSum(b: bytes): nat
  {
    if |b| == 0 then 0
    else if |b| == 1 then b[0] * 0x100
    else Word(b[0], b[1]) + WordSum(b[2..])
  }

  /** The one's complement residue: 0 only for 0, else the representative of x modulo 65535 in 1..65535. */
  function Folded(x: nat): u16
  {
    if x == 0 then 0 else (x - 1) % 0xFFFF + 1
  }

  function Inverted(v: u16): u16 { 0xFFFF - v }

  function Checksum(data: bytes): u16 { Inverted(Folded(Wrap32(WordSum(data)))) }

  lemma WrapAdd(a: nat, b: nat)
    ensures Wrap32(Wrap32(a) + b) == Wrap32(a + b)
  {
  }

  lemma FoldedShift(x: nat, k: nat)
    requires x > 0
    ensures Folded(x + 0xFFFF * k) == Folded(x)
  {
    var q, r := (x - 1) / 0xFFFF, (x - 1) % 0xFFFF;
    assert x + 0xFFFF * k - 1 == 0xFFFF * (q + k) + r;
  }

  /** One folding round keeps the residue and, from 32 bits, two rounds reach 16 bits. */
  lemma FoldRound(x: u32)
    ensures var y := x % 0x1_0000 + x / 0x1_0000;
            && Folded(y) == Folded(x) && y < 0x1_FFFF && (x >= 0x1_0000 ==> 0 < y < x)
            && (x < 0x1_FFFF ==> y < 0x1_0000)
  {
    var hi, lo := x / 0x1_0000, x % 0x1_0000;
    if x >= 0x1_0000 { FoldedShift(hi + lo, hi); }
  }

  lemma PairStep(data: bytes, i: nat)
    requires i + 1 < |data|
    ensures WordSum(data[i..]) == Word(data[i], data[i + 1]) + WordSum(data[i + 2..])
  {
    assert data[i..][2..] == data[i + 2..];
  }

  lemma LastByte(data: bytes, i: nat)
    requires i <= |data| <= i + 1
    ensures WordSum(data[i..]) == if i == |data| then 0 else data[i] as int * 0x100
  {
  }

  method InternetChecksum(data: bytes) returns (cs: u16, ghost rounds: nat)
    ensures cs == Checksum(data) && rounds <= 2
  {
    hide WordSum, Word, Folded, Wrap32, Inverted;
    var sum: u32 := Zero();
    ghost var total: nat := 0;
    var i := 0;
    assert data[0..] == data;
    while i + 1 < |data|
      invariant 0 <= i <= |data|
      invariant sum == Wrap32(total) && total + WordSum(data[i..]) == WordSum(data)
      invariant |data| % 2 == 0 <==> (|data| - i) % 2 == 0
    {
      var w := Word(data[i], data[i + 1]);
      PairStep(data, i);
      WrapAdd(total, w);
      sum := Wrap32(sum + w);
      total := total + w;
      i := i + 2;
    }
    LastByte(data, i);
    if |data| % 2 != 0 {
      var w: nat := data[|data| - 1] as int * 0x100;
      WrapAdd(total, w);
      sum := Wrap32(sum + w);
      total := total + w;
    }
    cs, rounds := Complement(sum);
  }

  function Zero(): (z: u32)
    ensures z == Wrap32(0) == 0
  {
    0
  }

  method Complement(x: u32) returns (cs: u16, ghost rounds: nat)
    ensures cs == Inverted(Folded(x)) && rounds <= 2
  {
    var sum := x;
    rounds := 0;
    while sum / 0x1_0000 != 0
      invariant Folded(sum) == Folded(x) && rounds <= 2
      invariant (rounds == 1 ==> sum < 0x1_FFFF) && (rounds == 2 ==> sum < 0x1_0000)
      decreases sum
    {
      FoldRound(sum);
      sum := sum % 0x1_0000 + sum / 0x1_0000;
      rounds := rounds + 1;
    }
    SmallIsFolded(sum);
    cs := Inverted(sum);
  }

  lemma SmallIsFolded(x: nat)
    requires x < 0x1_0000
    ensures Folded(x) == x
  {
  }

  // ---- the accumulator bound ----

  lemma {:induction false} WordSumBound(b: bytes)
    ensures WordSum(b) <= 0xFFFF * ((|b| + 1) / 2)
  {
    if |b| >= 2 { WordSumBound(b[2..]); }
  }

  /** Up to 131074 bytes the 32-bit sum is the true sum. */
  lemma NoOverflow(b: bytes)
    requires |b| <= 131074
    ensures Wrap32(WordSum(b)) == WordSum(b)
  {
    WordSumBound(b);
  }

  lemma {:induction false} OnesSum(n: nat)
    ensures WordSum(seq(2 * n, _ => 0xFF)) == 0xFFFF * n
    ensures WordSum(seq(2 * n + 1, _ => 0xFF)) == 0xFFFF * n + 0xFF00
  {
    if n > 0 {
      OnesSum(n - 1);
      var b: bytes := seq(2 * n, _ => 0xFF);
      assert b[2..] == seq(2 * (n - 1), _ => 0xFF);
      var c: bytes := seq(2 * n + 1, _ => 0xFF);
      assert c[2..] == seq(2 * (n - 1) + 1, _ => 0xFF);
    }
  }

  /** The bound is tight: one more byte can overflow. */
  lemma BoundIsTight()
    ensures WordSum(seq(131074, _ => 0xFF)) == 0xFFFF_FFFF
    ensures WordSum(seq(131075, _ => 0xFF)) >= 0x1_0000_0000
  {
    OnesSum(65537);
  }

  // ---- sums of pieces ----

  lemma {:induction false} WordSumAppend(a: bytes, b: bytes)
    requires |a| % 2 == 0
    ensures WordSum(a + b) == WordSum(a) + WordSum(b)
  {
    if a == [] {
      assert a + b == b;
    } else {
      var c := a + b;
      assert c[0] == a[0] && c[1] == a[1] && c[2..] == a[2..] + b;
      WordSumAppend(a[2..], b);
    }
  }

  lemma WordSumOfWord(v: u16)
    ensures WordSum(Be16(v)) == v
  {
  }

  /** A checksum field at an even offset adds its value to the sum. */
  lemma FieldSum(a: bytes, v: u16, c: bytes)
    requires |a| % 2 == 0
    ensures WordSum(a + (Be16(v) + c)) == WordSum(a) + WordSum(c) + v
  {
    WordSumAppend(a, Be16(v) + c);
    WordSumAppend(Be16(v), c);
    WordSumOfWord(v);
  }

  // ---- verification by the receiver ----

  lemma FoldedIsResidue(x: nat)
    ensures exists q :: x == 0xFFFF * q + Folded(x)
    ensures x > 0 ==> Folded(x) >= 1
  {
    if x == 0 {
      assert x == 0xFFFF * 0 + Folded(x);
    } else {
      var q := (x - 1) / 0xFFFF;
      assert x == 0xFFFF * q + Folded(x);
    }
  }

  lemma FoldedFull(x: nat)
    ensures Folded(x) == 0xFFFF <==> x > 0 && x % 0xFFFF == 0
  {
    if x > 0 {
      var q, r := (x - 1) / 0xFFFF, (x - 1) % 0xFFFF;
      assert x == 0xFFFF * q + r + 1;
    }
  }

  /** Adding the complement makes the sum a full residue; it never wraps, whatever was summed. */
  lemma ComplementCompletes(x: u32)
    ensures Folded(Wrap32(x + Inverted(Folded(x)))) == 0xFFFF
  {
    FoldedIsResidue(x);
    var q :| x == 0xFFFF * q + Folded(x);
    var y := x + (0xFFFF - Folded(x));
    assert y == 0xFFFF * (q + 1);
    assert q + 1 <= 65537;
    FoldedFull(y);
  }

  lemma InvertedZero(v: u16)
    ensures Inverted(v) == 0 <==> v == 0xFFFF
    ensures Inverted(Inverted(v)) == v
  {
  }

  lemma ChecksumOf(data: bytes, n: nat)
    requires WordSum(data) == n
    ensures Checksum(data) == Inverted(Folded(Wrap32(n)))
  {
  }

  /** The checksum of a packet whose field holds v, by the sum of the rest. */
  lemma FieldChecksum(a: bytes, v: u16, c: bytes)
    requires |a| % 2 == 0
    ensures Checksum(a + (Be16(v) + c)) == Inverted(Folded(Wrap32(WordSum(a) + WordSum(c) + v)))
  {
    hide WordSum, Be16, Folded, Wrap32, Inverted, Checksum;
    FieldSum(a, v, c);
    ChecksumOf(a + (Be16(v) + c), WordSum(a) + WordSum(c) + v);
  }

  /** A packet whose checksum field holds the checksum of the rest verifies, at any length. */
  lemma Verifies(a: bytes, c: bytes)
    requires |a| % 2 == 0
    ensures Checksum(a + (Be16(Checksum(a + (Be16(0) + c))) + c)) == 0
  {
    hide WordSum, Be16, Folded, Wrap32, Inverted, Checksum;
    var s := WordSum(a) + WordSum(c);
    FieldChecksum(a, 0, c);
    var cs := Inverted(Folded(Wrap32(s)));
    FieldChecksum(a, cs, c);
    ComplementCompletes(Wrap32(s));
    WrapAdd(s, cs);
    InvertedZero(0xFFFF);
  }

  /** With its field complemented it verifies only if the checksum was 0 and adding 0xFFFF does not wrap. */
  lemma FlippedVerifies(a: bytes, c: bytes)
    requires |a| % 2 == 0
    ensures var cs := Checksum(a + (Be16(0) + c));
            Checksum(a + (Be16(Inverted(cs)) + c)) == 0
            <==> cs == 0 && Wrap32(WordSum(a) + WordSum(c)) != 0xFFFF_FFFF
  {
    hide WordSum, Be16, Folded, Wrap32, Inverted, Checksum;
    var s := WordSum(a) + WordSum(c);
    var f := Folded(Wrap32(s));
    FieldChecksum(a, 0, c);
    FieldChecksum(a, f, c);
    InvertedZero(f);
    FlippedResidue(Wrap32(s));
    WrapAdd(s, f);
    InvertedZero(Folded(Wrap32(s + f)));
  }

  lemma FlippedResidue(x: u32)
    ensures Folded(Wrap32(x + Folded(x))) == 0xFFFF <==> Folded(x) == 0xFFFF && x != 0xFFFF_FFFF
  {
    FoldedIsResidue(x);
    var f: int := Folded(x);
    var q :| x == 0xFFFF * q + f;
    var y := x + f;
    FoldedFull(Wrap32(y));
    if y < 0x1_0000_0000 {
      assert y == 0xFFFF * q + 2 * f;
      TwiceResidue(q, f);
    } else {
      assert y - 0x1_0000_0000 == 0xFFFF * (q - 65537) + 2 * f - 1;
      assert q == 65536;
    }
  }

  lemma TwiceResidue(q: nat, f: nat)
    requires f <= 0xFFFF
    ensures (0xFFFF * q + 2 * f) % 0xFFFF == 0 <==> f == 0 || f == 0xFFFF
  {
    if f == 0 {
    } else if f < 0x8000 {
      assert 0 < 2 * f < 0xFFFF;
    } else if f < 0xFFFF {
      assert 0xFFFF * q + 2 * f == 0xFFFF * (q + 1) + (2 * f - 0xFFFF);
    } else {
      assert 0xFFFF * q + 2 * f == 0xFFFF * (q + 2);
    }
  }
}
