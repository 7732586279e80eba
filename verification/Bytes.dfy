/** Fixed-width integers, big-endian fields, and the one option type of the project. */
module Bytes {
  type u8 = x: int | 0 <= x < 0x100
  type u16 = x: int | 0 <= x < 0x1_0000
  type u32 = x: int | 0 <= x < 0x1_0000_0000
  type bytes = seq<u8>

  datatype Option<+T> = None | Some(value: T)

  function Word(hi: u8, lo: u8): u16 { hi * 0x100 + lo }

  function Word24(a: u8, b: u8, c: u8): nat { a * 0x1_0000 + Word(b, c) }

  /** The number two or three bytes spell from an offset on, in plain arithmetic. */
  function U16At(b: bytes, at: nat): nat
    requires at + 2 <= |b|
  {
    var hi: int, lo: int := b[at], b[at + 1];
    256 * hi + lo
  }

  function U32At(b: bytes, at: nat): nat
    requires at + 4 <= |b|
  {
    65536 * U16At(b, at) + U16At(b, at + 2)
  }

  function U24At(b: bytes, at: nat): nat
    requires at + 3 <= |b|
  {
    var hi: int := b[at];
    65536 * hi + U16At(b, at + 1)
  }

  /** A 16-bit field, most significant byte first. */
  function Be16(v: u16): (b: bytes)
    ensures |b| == 2 && Word(b[0], b[1]) == v
  {
    [v / 0x100, v % 0x100]
  }

  /** Go's uint16(n): silent truncation. */
  function Low16(n: nat): u16 { n % 0x1_0000 }

  lemma LowIsItself(n: nat)
    requires n < 0x1_0000
    ensures Low16(n) == n
  {
  }

  /** Go's byte(n). */
  function Low8(n: nat): u8 { n % 0x100 }

  /** What 32-bit unsigned arithmetic keeps of an integer. */
  function Wrap32(x: int): u32 { x % 0x1_0000_0000 }

  /** A 24-bit field; like the Go conversion it keeps only the low 24 bits. */
  function Be24(v: nat): (b: bytes)
    ensures |b| == 3
  {
    [Low8(v / 0x1_0000)] + Be16(Low16(v))
  }

  lemma WordInverse(hi: u8, lo: u8)
    ensures Be16(Word(hi, lo)) == [hi, lo]
  {
  }

  lemma Be24Value(v: nat)
    requires v < 0x100_0000
    ensures var b := Be24(v); Word24(b[0], b[1], b[2]) == v
  {
    var hi, lo := v / 0x1_0000, v % 0x1_0000;
    assert Low8(hi) == hi && Low16(v) == lo;
  }

  lemma HighAndLow(a: nat, w: nat)
    requires w < 0x1_0000
    ensures (a * 0x1_0000 + w) / 0x1_0000 == a && (a * 0x1_0000 + w) % 0x1_0000 == w
  {
  }

  lemma Word24Inverse(a: u8, b: u8, c: u8)
    ensures Be24(Word24(a, b, c)) == [a, b, c]
  {
    hide Word, Be16;
    HighAndLow(a, Word(b, c));
    WordInverse(b, c);
  }

  lemma Assoc<T>(a: seq<T>, b: seq<T>, c: seq<T>)
    ensures (a + b) + c == a + (b + c)
  {
  }

  lemma SplitAt<T>(b: seq<T>, n: nat)
    requires n <= |b|
    ensures b == b[..n] + b[n..]
  {
  }
}
