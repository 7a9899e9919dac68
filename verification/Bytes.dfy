/** Bytes and little-endian words of the 8-bit target. */
module Bytes {

  type byte = bv8

  type word16 = x: int | 0 <= x < 0x1_0000

  /** A 32-bit unsigned word; arithmetic on it is taken modulo 2^32. */
  type word32 = x: int | 0 <= x < 0x1_0000_0000

  const WRAP32: int := 0x1_0000_0000

  datatype Option<T> = None | Some(value: T)

  function Num(b: byte): (n: nat)
    ensures n < 0x100
  {
    b as int
  }

  function Byte(n: nat): byte
    requires n < 0x100
  {
    n as bv8
  }

  lemma {:induction false} ByteWithNum(n: nat) returns (b: byte)
    requires n < 0x100
    ensures Num(b) == n
  {
    if n == 0 {
      b := 0;
    } else {
      var c := ByteWithNum(n - 1);
      Increment(c);
      b := c + 1;
    }
  }

  lemma Increment(b: byte)
    requires Num(b) != 0xFF
    ensures Num(b + 1) == Num(b) + 1
  {
  }

  lemma NumOfByte(n: nat)
    requires n < 0x100
    ensures Num(Byte(n)) == n
  {
    var b := ByteWithNum(n);
    ByteOfNum(b);
  }

  lemma ByteOfNum(b: byte)
    ensures Byte(Num(b)) == b
  {
  }

  /** The little-endian 16-bit word made of two bytes. */
  function Word16(lo: byte, hi: byte): bv16 {
    (hi as bv16 << 8) | (lo as bv16)
  }

  function Low(w: bv16): byte { (w & 0xFF) as bv8 }

  function High(w: bv16): byte { (w >> 8) as bv8 }

  lemma Word16Bytes(lo: byte, hi: byte)
    ensures Low(Word16(lo, hi)) == lo && High(Word16(lo, hi)) == hi
  {
  }

  /** The little-endian 32-bit word made of four bytes. */
  function Word32(b0: byte, b1: byte, b2: byte, b3: byte): word32 {
    Num(b0) + 0x100 * Num(b1) + 0x1_0000 * Num(b2) + 0x100_0000 * Num(b3)
  }

  /** Byte `i` of a word, counting from the least significant. */
  function ByteOf(w: word32, i: nat): byte
    requires i < 4
  {
    if i == 0 then Byte(w % 0x100)
    else if i == 1 then Byte(w / 0x100 % 0x100)
    else if i == 2 then Byte(w / 0x1_0000 % 0x100)
    else Byte(w / 0x100_0000)
  }

  lemma Digits(d0: nat, d1: nat, d2: nat, d3: nat)
    requires d0 < 0x100 && d1 < 0x100 && d2 < 0x100 && d3 < 0x100
    ensures
      var w := d0 + 0x100 * d1 + 0x1_0000 * d2 + 0x100_0000 * d3;
      w % 0x100 == d0 && w / 0x100 % 0x100 == d1 && w / 0x1_0000 % 0x100 == d2 && w / 0x100_0000 == d3
  {
    var w := d0 + 0x100 * d1 + 0x1_0000 * d2 + 0x100_0000 * d3;
    assert w / 0x100 == d1 + 0x100 * d2 + 0x1_0000 * d3;
    assert w / 0x1_0000 == d2 + 0x100 * d3;
  }

  lemma DividedAgain(w: nat)
    ensures w / 0x100 / 0x100 == w / 0x1_0000 && w / 0x1_0000 / 0x100 == w / 0x100_0000
  {
  }

  lemma FromDigits(w: word32)
    ensures w == w % 0x100 + 0x100 * (w / 0x100 % 0x100) + 0x1_0000 * (w / 0x1_0000 % 0x100) + 0x100_0000 * (w / 0x100_0000)
  {
    var w1, w2, w3 := w / 0x100, w / 0x1_0000, w / 0x100_0000;
    DividedAgain(w);
    assert w == 0x100 * w1 + w % 0x100;
    assert w1 == 0x100 * w2 + w1 % 0x100;
    assert w2 == 0x100 * w3 + w2 % 0x100;
  }

  lemma Word32RoundTrip(w: word32)
    ensures Word32(ByteOf(w, 0), ByteOf(w, 1), ByteOf(w, 2), ByteOf(w, 3)) == w
  {
    hide Num, Byte;
    FromDigits(w);
    NumOfByte(w % 0x100);
    NumOfByte(w / 0x100 % 0x100);
    NumOfByte(w / 0x1_0000 % 0x100);
    NumOfByte(w / 0x100_0000);
  }

  lemma Word32Bytes(b0: byte, b1: byte, b2: byte, b3: byte)
    ensures
      var w := Word32(b0, b1, b2, b3);
      ByteOf(w, 0) == b0 && ByteOf(w, 1) == b1 && ByteOf(w, 2) == b2 && ByteOf(w, 3) == b3
  {
    hide Num, Byte;
    Digits(Num(b0), Num(b1), Num(b2), Num(b3));
    ByteOfNum(b0); ByteOfNum(b1); ByteOfNum(b2); ByteOfNum(b3);
  }

  /** Some blocks of bytes, one after the other. */
  function Flat(blocks: seq<seq<byte>>): seq<byte> {
    if blocks == [] then [] else Flat(blocks[..|blocks| - 1]) + blocks[|blocks| - 1]
  }

  lemma Subslice<T>(s: seq<T>, a: nat, n: nat, i: nat, j: nat)
    requires a + n <= |s| && i <= j <= n
    ensures s[a..a + n][i..j] == s[a + i..a + j]
  {
    var l, r := s[a..a + n][i..j], s[a + i..a + j];
    forall k | 0 <= k < j - i ensures l[k] == r[k] {
      assert l[k] == s[a..a + n][i + k];
    }
  }
}
