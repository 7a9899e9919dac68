/**
  The two-wire bus as a sequence of line levels, and a decoder of such sequences
  that knows nothing of who drives them (sections 3.1.3 to 3.1.6 of UM10204).
 */
module I2cBus {
  import opened Bytes

  datatype Line = Line(scl: bool, sda: bool)

  datatype Event = Start | RepeatedStart | Byte(value: byte, nak: bool) | Stop

  // Bytes as eight bits, most significant first.

  predicate Bit(b: byte, mask: byte) { b & mask != 0 }

  function BitsOf(b: byte): (r: seq<bool>)
    ensures |r| == 8
  {
    [Bit(b, 0x80), Bit(b, 0x40), Bit(b, 0x20), Bit(b, 0x10), Bit(b, 0x08), Bit(b, 0x04), Bit(b, 0x02), Bit(b, 0x01)]
  }

  function Append(b: byte, bit: bool): byte { (b << 1) | (if bit then 1 else 0) }

  function FromBits(bits: seq<bool>): byte {
    if bits == [] then 0 else Append(FromBits(bits[..|bits| - 1]), bits[|bits| - 1])
  }

  /** Eight bits shifted in one after the other. */
  function Shifted(b0: bool, b1: bool, b2: bool, b3: bool, b4: bool, b5: bool, b6: bool, b7: bool): byte {
    Append(Append(Append(Append(Append(Append(Append(Append(0, b0), b1), b2), b3), b4), b5), b6), b7)
  }

  lemma FromBitsAppend(bits: seq<bool>, bit: bool)
    ensures FromBits(bits + [bit]) == Append(FromBits(bits), bit)
  {
    hide Append;
    assert (bits + [bit])[..|bits|] == bits;
  }

  lemma FromBitsShifted(s: seq<bool>)
    requires |s| == 8
    ensures FromBits(s) == Shifted(s[0], s[1], s[2], s[3], s[4], s[5], s[6], s[7])
  {
    hide Append, FromBits;
    FromBitsTake(s, 0); FromBitsTake(s, 1); FromBitsTake(s, 2); FromBitsTake(s, 3);
    FromBitsTake(s, 4); FromBitsTake(s, 5); FromBitsTake(s, 6); FromBitsTake(s, 7);
    FromNoBits(s);
    assert s[..8] == s;
  }

  lemma FromNoBits(s: seq<bool>)
    ensures FromBits(s[..0]) == 0
  {
  }

  lemma FromBitsTake(s: seq<bool>, k: nat)
    requires k < |s|
    ensures FromBits(s[..k + 1]) == Append(FromBits(s[..k]), s[k])
  {
    hide Append;
    FromBitsAppend(s[..k], s[k]);
    assert s[..k + 1] == s[..k] + [s[k]];
  }

  lemma ShiftedBits(b: byte)
    ensures Shifted(Bit(b, 0x80), Bit(b, 0x40), Bit(b, 0x20), Bit(b, 0x10),
                    Bit(b, 0x08), Bit(b, 0x04), Bit(b, 0x02), Bit(b, 0x01)) == b
  {
  }

  lemma FromBitsOf(b: byte)
    ensures FromBits(BitsOf(b)) == b
  {
    hide Append, FromBits, Shifted, Bit;
    FromBitsShifted(BitsOf(b));
    ShiftedBits(b);
  }

  /** The number that bits stand for, most significant first. */
  function Value(bits: seq<bool>): nat {
    if bits == [] then 0 else 2 * Value(bits[..|bits| - 1]) + if bits[|bits| - 1] then 1 else 0
  }

  /** Up to eight bits make the byte of that number, and the bits of a byte stand for it. */
  lemma BitsAreNumber(bits: seq<bool>, b: byte)
    requires |bits| <= 8
    ensures Num(FromBits(bits)) == Value(bits) && Value(BitsOf(b)) == Num(b)
  {
    hide FromBits, Value, BitsOf, Num;
    BitsValue(bits);
    FromBitsOf(b);
    BitsValue(BitsOf(b));
  }

  lemma {:induction false} BitsValue(bits: seq<bool>)
    requires |bits| <= 8
    ensures Num(FromBits(bits)) == Value(bits) < Power(|bits|)
  {
    hide Append, Num;
    if bits == [] {
      NumOfZero();
    } else {
      var init, bit := bits[..|bits| - 1], bits[|bits| - 1];
      BitsValue(init);
      PowerFits(|init|);
      AppendValue(FromBits(init), bit);
    }
  }

  function Power(n: nat): nat { if n == 0 then 1 else 2 * Power(n - 1) }

  lemma {:induction false} PowerFits(n: nat)
    requires n <= 7
    ensures Power(n) <= 128
    decreases 7 - n
  {
    if n < 7 {
      PowerFits(n + 1);
    } else {
      assert Power(4) == 16 && Power(6) == 64;
    }
  }

  lemma NumOfZero()
    ensures Num(0) == 0
  {
  }

  lemma AppendValue(b: byte, bit: bool)
    requires Num(b) < 128
    ensures Num(Append(b, bit)) == 2 * Num(b) + if bit then 1 else 0
  {
  }

  // The decoder.

  datatype Decoder = Decoder(line: Line, busy: bool, bits: seq<bool>, events: seq<Event>)

  const QUIET := Decoder(Line(true, true), false, [], [])

  function Feed(d: Decoder, now: Line): Decoder {
    if d.line.scl && now.scl && d.line.sda && !now.sda then
      Decoder(now, true, [], d.events + [if d.busy then RepeatedStart else Start])
    else if d.line.scl && now.scl && !d.line.sda && now.sda then
      Decoder(now, false, [], d.events + [Stop])
    else if !d.line.scl && now.scl then
      if |d.bits| == 8 then d.(line := now, bits := [], events := d.events + [Byte(FromBits(d.bits), now.sda)])
      else d.(line := now, bits := d.bits + [now.sda])
    else d.(line := now)
  }

  function FeedAll(d: Decoder, trace: seq<Line>): Decoder
    decreases |trace|
  {
    if trace == [] then d else FeedAll(Feed(d, trace[0]), trace[1..])
  }

  lemma {:induction false} FeedConcat(d: Decoder, a: seq<Line>, b: seq<Line>)
    ensures FeedAll(d, a + b) == FeedAll(FeedAll(d, a), b)
    decreases |a|
  {
    if a == [] {
      assert a + b == b;
    } else {
      assert (a + b)[0] == a[0] && (a + b)[1..] == a[1..] + b;
      FeedConcat(Feed(d, a[0]), a[1..], b);
    }
  }

  // Changes of SDA while SCL is high.

  /** The levels SDA changes to while SCL stays high. */
  function HighChanges(line: Line, trace: seq<Line>): seq<bool>
    decreases |trace|
  {
    if trace == [] then []
    else Changed(line, trace[0]) + HighChanges(trace[0], trace[1..])
  }

  function Changed(line: Line, now: Line): seq<bool> {
    if line.scl && now.scl && line.sda != now.sda then [now.sda] else []
  }

  /** The levels SDA changes to at the start and stop conditions among some events. */
  function Conditions(events: seq<Event>): seq<bool> {
    if events == [] then []
    else
      Conditions(events[..|events| - 1]) +
      match events[|events| - 1]
      case Byte(_, _) => []
      case Stop => [true]
      case _ => [false]
  }

  lemma ConditionsAppend(events: seq<Event>, e: Event)
    ensures Conditions(events + [e]) == Conditions(events) + if e.Byte? then [] else [e.Stop?]
  {
    assert (events + [e])[..|events|] == events;
  }

  /** The decoder reports a condition for every change of SDA while SCL is high, and only then. */
  lemma {:induction false} ConditionsAreHighChanges(d: Decoder, trace: seq<Line>)
    ensures Conditions(FeedAll(d, trace).events) == Conditions(d.events) + HighChanges(d.line, trace)
    decreases |trace|
  {
    if trace != [] {
      hide Feed, Conditions, Changed;
      FeedCondition(d, trace[0]);
      ConditionsAreHighChanges(Feed(d, trace[0]), trace[1..]);
      Regroup(Conditions(d.events), Changed(d.line, trace[0]), HighChanges(trace[0], trace[1..]));
    }
  }

  lemma Regroup(a: seq<bool>, b: seq<bool>, c: seq<bool>)
    ensures (a + b) + c == a + (b + c)
  {
  }

  lemma FeedCondition(d: Decoder, now: Line)
    ensures Feed(d, now).line == now
    ensures Conditions(Feed(d, now).events) == Conditions(d.events) + Changed(d.line, now)
  {
    hide FromBits, Conditions;
    var f := Feed(d, now);
    if f.events != d.events {
      ConditionsAppend(d.events, f.events[|d.events|]);
    }
  }
}
