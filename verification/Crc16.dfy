/**
  The running checksum of the radio link: avr-libc's `_crc16_update`, the
  reflected CRC-16 with polynomial 0xA001.
 */
module Crc16 {
  import opened Bytes

  type Crc = bv16

  const START: Crc := 0xFFFF

  /** One of the eight shift steps taken for each byte. */
  function Shift(c: Crc): Crc {
    if c & 1 == 1 then (c >> 1) ^ 0xA001 else c >> 1
  }

  function Shift8(c: Crc): Crc {
    Shift(Shift(Shift(Shift(Shift(Shift(Shift(Shift(c))))))))
  }

  function Update(c: Crc, b: byte): Crc {
    Shift8(c ^ (b as bv16))
  }

  /** The checksum after feeding a sequence of bytes. */
  function Run(c: Crc, bytes: seq<byte>): Crc {
    if bytes == [] then c else Update(Run(c, bytes[..|bytes| - 1]), bytes[|bytes| - 1])
  }

  lemma {:induction false} RunConcat(c: Crc, a: seq<byte>, b: seq<byte>)
    ensures Run(c, a + b) == Run(Run(c, a), b)
  {
    if b == [] {
      assert a + b == a;
    } else {
      var n := |b| - 1;
      assert (a + b)[..|a + b| - 1] == a + b[..n];
      RunConcat(c, a, b[..n]);
    }
  }

  // What the shift register does not lose.

  function Table(b: byte): Crc { Shift8(b as bv16) }

  /** Two table entries never agree in their high bytes. */
  lemma TableApart(p: byte, q: byte)
    requires Table(p) >> 8 == Table(q) >> 8
    ensures p == q
  {
  }

  lemma HighOfShift8(c: Crc)
    ensures Shift8(c) >> 8 == Table(Low(c)) >> 8
  {
  }

  /** No shift loses information: the highest bit of the result tells the lowest one shifted out. */
  lemma ShiftInjective(c: Crc, d: Crc)
    requires Shift(c) == Shift(d)
    ensures c == d
  {
  }

  lemma Shift8Injective(c: Crc, d: Crc)
    requires Shift8(c) == Shift8(d)
    ensures c == d
  {
    hide Shift;
    var c1, d1 := Shift(c), Shift(d);
    var c2, d2 := Shift(c1), Shift(d1);
    var c3, d3 := Shift(c2), Shift(d2);
    var c4, d4 := Shift(c3), Shift(d3);
    var c5, d5 := Shift(c4), Shift(d4);
    var c6, d6 := Shift(c5), Shift(d5);
    var c7, d7 := Shift(c6), Shift(d6);
    ShiftInjective(c7, d7);
    ShiftInjective(c6, d6);
    ShiftInjective(c5, d5);
    ShiftInjective(c4, d4);
    ShiftInjective(c3, d3);
    ShiftInjective(c2, d2);
    ShiftInjective(c1, d1);
    ShiftInjective(c, d);
  }

  /** Feeding a checksum its own two bytes, low byte first, leaves zero. */
  lemma OwnBytesCancel(c: Crc)
    ensures Update(Update(c, Low(c)), High(c)) == 0
  {
  }

  /** A frame followed by its own checksum checks to zero. */
  lemma FrameChecks(c: Crc, bytes: seq<byte>)
    ensures Run(c, bytes + [Low(Run(c, bytes)), High(Run(c, bytes))]) == 0
  {
    var t := Run(c, bytes);
    RunConcat(c, bytes, [Low(t), High(t)]);
    RunPair(t, Low(t), High(t));
    OwnBytesCancel(t);
  }

  lemma RunLast(c: Crc, bytes: seq<byte>, b: byte)
    ensures Run(c, bytes + [b]) == Update(Run(c, bytes), b)
  {
    hide Update;
    assert (bytes + [b])[..|bytes|] == bytes;
  }

  lemma RunPair(c: Crc, x: byte, y: byte)
    ensures Run(c, [x, y]) == Update(Update(c, x), y)
  {
    hide Update;
    RunLast(c, [], x);
    RunLast(c, [x], y);
    assert [] + [x] == [x] && [x] + [y] == [x, y];
  }

  lemma UpdateInjective(c: Crc, d: Crc, b: byte)
    requires Update(c, b) == Update(d, b)
    ensures c == d
  {
    Shift8Injective(c ^ (b as bv16), d ^ (b as bv16));
  }

  /** Two checksums that differ keep differing over any common tail. */
  lemma {:induction false} DifferencePersists(c: Crc, d: Crc, tail: seq<byte>)
    requires c != d
    ensures Run(c, tail) != Run(d, tail)
  {
    if tail != [] {
      var n := |tail| - 1;
      DifferencePersists(c, d, tail[..n]);
      if Run(c, tail) == Run(d, tail) {
        UpdateInjective(Run(c, tail[..n]), Run(d, tail[..n]), tail[n]);
      }
    }
  }

  /** Changing either of two adjacent bytes, or both, changes the checksum. */
  lemma PairDetected(c: Crc, x: byte, y: byte, x': byte, y': byte)
    requires Update(Update(c, x), y) == Update(Update(c, x'), y')
    ensures x == x' && y == y'
  {
    var d, d' := Update(c, x), Update(c, x');
    Shift8Injective(d ^ (y as bv16), d' ^ (y' as bv16));
    XorApart(d, d', y, y');
    HighTellsByte(c, x, x');
  }

  lemma XorApart(d: bv16, e: bv16, x: byte, y: byte)
    requires d ^ (x as bv16) == e ^ (y as bv16)
    ensures d >> 8 == e >> 8 && (d == e ==> x == y)
  {
  }

  /** The high byte of an updated checksum tells which byte was fed. */
  lemma HighTellsByte(c: Crc, x: byte, y: byte)
    requires Update(c, x) >> 8 == Update(c, y) >> 8
    ensures x == y
  {
    hide Shift8, Table;
    HighOfShift8(c ^ (x as bv16));
    HighOfShift8(c ^ (y as bv16));
    TableApart(Low(c ^ (x as bv16)), Low(c ^ (y as bv16)));
  }

  /** A corruption confined to two adjacent bytes changes the checksum of the whole. */
  lemma BurstDetected(c: Crc, pre: seq<byte>, x: byte, y: byte, x': byte, y': byte, post: seq<byte>)
    requires x != x' || y != y'
    ensures Run(c, pre + [x, y] + post) != Run(c, pre + [x', y'] + post)
  {
    RunConcat(c, pre + [x, y], post);
    RunConcat(c, pre + [x', y'], post);
    RunConcat(c, pre, [x, y]);
    RunConcat(c, pre, [x', y']);
    var p := Run(c, pre);
    RunPair(p, x, y);
    RunPair(p, x', y');
    if Run(p, [x, y]) == Run(p, [x', y']) {
      PairDetected(p, x, y, x', y');
    }
    DifferencePersists(Run(p, [x, y]), Run(p, [x', y']), post);
  }

  /** The check value of this CRC: that of the characters 1 to 9. */
  lemma CheckValue()
    ensures Run(START, [0x31, 0x32, 0x33, 0x34, 0x35, 0x36, 0x37, 0x38, 0x39]) == 0x4B37
  {
    hide Run, Update;
    CheckSteps();
    var two := [0x31, 0x32];
    var four := two + [0x33, 0x34];
    var six := four + [0x35, 0x36];
    var eight := six + [0x37, 0x38];
    RunPair(START, 0x31, 0x32);
    NextSum(START, two, 0x33, 0x34);
    NextSum(START, four, 0x35, 0x36);
    NextSum(START, six, 0x37, 0x38);
    RunLast(START, eight, 0x39);
    assert eight + [0x39] == [0x31, 0x32, 0x33, 0x34, 0x35, 0x36, 0x37, 0x38, 0x39];
  }

  lemma NextSum(c: Crc, bytes: seq<byte>, x: byte, y: byte)
    ensures Run(c, bytes + [x, y]) == Update(Update(Run(c, bytes), x), y)
  {
    hide Update;
    RunConcat(c, bytes, [x, y]);
    RunPair(Run(c, bytes), x, y);
  }

  lemma CheckSteps()
    ensures Update(Update(START, 0x31), 0x32) == 0xF595
    ensures Update(Update(0xF595, 0x33), 0x34) == 0x30BA
    ensures Update(Update(0x30BA, 0x35), 0x36) == 0x32E4
    ensures Update(Update(0x32E4, 0x37), 0x38) == 0x37DD
    ensures Update(0x37DD, 0x39) == 0x4B37
  {
  }
}
