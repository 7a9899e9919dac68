/** The bit-banged master: what its calls put on the bus, and what the bus makes of it. */
module I2cMaster {
  import opened Bytes
  import opened I2cBus

  /**
    A call, with what the slave contributes: the level of the acknowledge bit
    after a byte written, or the byte it sends.
   */
  datatype Call =
    | StartCall(address: byte, nak: bool)
    | RestartCall(address: byte, nak: bool)
    | WriteCall(data: byte, nak: bool)
    | ReadCall(value: byte, last: bool)
    | StopCall

  const Held := Line(false, false)

  /** One bit: the data line settles while the clock is low, and the clock pulses. */
  function BitTrace(bit: bool): seq<Line> {
    [Line(false, bit), Line(true, bit), Line(false, bit)]
  }

  function BitsTrace(bits: seq<bool>): seq<Line> {
    if bits == [] then [] else BitsTrace(bits[..|bits| - 1]) + BitTrace(bits[|bits| - 1])
  }

  function WriteTrace(data: byte, nak: bool): seq<Line> {
    BitsTrace(BitsOf(data)) +
    [Line(false, nak), Line(false, nak), Line(true, nak), Line(false, nak), Line(false, true), Held]
  }

  function StartTrace(address: byte, nak: bool): seq<Line> {
    [Line(true, false), Held] + WriteTrace(address, nak)
  }

  function ReadTrace(value: byte, last: bool): seq<Line> {
    [Line(false, true), Line(false, BitsOf(value)[0])] + BitsTrace(BitsOf(value)) +
    [Line(false, true), Line(false, last), Line(true, last), Line(false, last), Held]
  }

  function CallTrace(c: Call): seq<Line> {
    match c
    case StartCall(address, nak) => StartTrace(address, nak)
    case RestartCall(address, nak) => [Line(false, true), Line(true, true)] + StartTrace(address, nak)
    case WriteCall(data, nak) => WriteTrace(data, nak)
    case ReadCall(value, last) => ReadTrace(value, last)
    case StopCall => [Held, Line(true, false), Line(true, true)]
  }

  function Trace(calls: seq<Call>): seq<Line> {
    if calls == [] then [] else Trace(calls[..|calls| - 1]) + CallTrace(calls[|calls| - 1])
  }

  /** What a call means on the bus. */
  function Meaning(c: Call): seq<Event> {
    match c
    case StartCall(address, nak) => [Start, Byte(address, nak)]
    case RestartCall(address, nak) => [RepeatedStart, Byte(address, nak)]
    case WriteCall(data, nak) => [Byte(data, nak)]
    case ReadCall(value, last) => [Byte(value, last)]
    case StopCall => [Stop]
  }

  function Meanings(calls: seq<Call>): seq<Event> {
    if calls == [] then [] else Meanings(calls[..|calls| - 1]) + Meaning(calls[|calls| - 1])
  }

  /** The bus is taken after these calls. */
  predicate Busy(calls: seq<Call>) { calls != [] && !calls[|calls| - 1].StopCall? }

  /** A transaction starts with `start`, goes on with anything else, and ends with `stop`. */
  predicate Legal(calls: seq<Call>) {
    calls == [] ||
    (Legal(calls[..|calls| - 1]) && (calls[|calls| - 1].StartCall? <==> !Busy(calls[..|calls| - 1])))
  }

  // Decoding.

  lemma {:induction false} FeedBits(d: Decoder, bits: seq<bool>)
    requires !d.line.scl && |d.bits| + |bits| <= 8
    ensures FeedAll(d, BitsTrace(bits)) ==
      d.(bits := d.bits + bits, line := if bits == [] then d.line else Line(false, bits[|bits| - 1]))
  {
    hide FromBits;
    if bits == [] {
      assert d.bits + bits == d.bits;
    } else {
      var init, bit := bits[..|bits| - 1], bits[|bits| - 1];
      FeedBits(d, init);
      FeedConcat(d, BitsTrace(init), BitTrace(bit));
      var e := FeedAll(d, BitsTrace(init));
      FeedThree(e, Line(false, bit), Line(true, bit), Line(false, bit));
      assert d.bits + bits == (d.bits + init) + [bit];
    }
  }

  lemma FeedThree(d: Decoder, a: Line, b: Line, c: Line)
    ensures FeedAll(d, [a, b, c]) == Feed(Feed(Feed(d, a), b), c)
  {
    hide Feed;
    assert [a, b, c][1..] == [b, c];
    FeedTwo(Feed(d, a), b, c);
  }

  lemma FeedTwo(d: Decoder, a: Line, b: Line)
    ensures FeedAll(d, [a, b]) == Feed(Feed(d, a), b)
  {
    hide Feed;
    assert [a, b][1..] == [b];
    FeedOne(Feed(d, a), b);
  }

  lemma FeedOne(d: Decoder, a: Line)
    ensures FeedAll(d, [a]) == Feed(d, a)
  {
    hide Feed;
    assert [a][1..] == [];
  }

  /** A byte and its acknowledge bit, whoever sends which. */
  lemma {:induction false} FeedByte(d: Decoder, value: byte, before: seq<Line>, nak: bool, after: seq<Line>)
    requires !d.line.scl && d.bits == []
    requires (forall i :: 0 <= i < |before| ==> !before[i].scl) && (forall i :: 0 <= i < |after| ==> !after[i].scl)
    requires after != [] && after[|after| - 1] == Held
    ensures FeedAll(d, BitsTrace(BitsOf(value)) + (before + [Line(true, nak)] + after)) ==
      d.(line := Held, events := d.events + [Byte(value, nak)])
  {
    hide FromBits, BitsOf;
    var bits, pulse := BitsOf(value), [Line(true, nak)];
    var e := FeedAll(d, BitsTrace(bits));
    FeedBits(d, bits);
    FeedLow(e, before);
    var f := FeedAll(e, before);
    FeedOne(f, Line(true, nak));
    FromBitsOf(value);
    assert f.bits == bits;
    var g := FeedAll(f, pulse);
    FeedLow(g, after);
    FeedConcat(e, before, pulse);
    FeedConcat(e, before + pulse, after);
    FeedConcat(d, BitsTrace(bits), before + pulse + after);
  }

  /** While the clock is low, or falls, nothing is decoded. */
  lemma {:induction false} FeedLow(d: Decoder, trace: seq<Line>)
    requires forall i :: 0 <= i < |trace| ==> !trace[i].scl
    ensures FeedAll(d, trace) == if trace == [] then d else d.(line := trace[|trace| - 1])
    decreases |trace|
  {
    if trace != [] {
      FeedLow(Feed(d, trace[0]), trace[1..]);
    }
  }

  lemma WriteDecodes(d: Decoder, data: byte, nak: bool)
    requires d.line == Held && d.bits == []
    ensures FeedAll(d, WriteTrace(data, nak)) == d.(events := d.events + [Byte(data, nak)])
  {
    var before, after := [Line(false, nak), Line(false, nak)], [Line(false, nak), Line(false, true), Held];
    FeedByte(d, data, before, nak, after);
    assert before + [Line(true, nak)] + after
        == [Line(false, nak), Line(false, nak), Line(true, nak), Line(false, nak), Line(false, true), Held];
  }

  lemma StartDecodes(d: Decoder, address: byte, nak: bool)
    requires d.line == Line(true, true)
    ensures FeedAll(d, StartTrace(address, nak)) ==
      Decoder(Held, true, [], d.events + [if d.busy then RepeatedStart else Start] + [Byte(address, nak)])
  {
    hide WriteTrace;
    FeedConcat(d, [Line(true, false), Held], WriteTrace(address, nak));
    FeedTwo(d, Line(true, false), Held);
    WriteDecodes(FeedAll(d, [Line(true, false), Held]), address, nak);
  }

  lemma ReadDecodes(d: Decoder, value: byte, last: bool)
    requires d.line == Held && d.bits == []
    ensures FeedAll(d, ReadTrace(value, last)) == d.(events := d.events + [Byte(value, last)])
  {
    hide BitsOf;
    var lead := [Line(false, true), Line(false, BitsOf(value)[0])];
    var before, after := [Line(false, true), Line(false, last)], [Line(false, last), Held];
    var rest := before + [Line(true, last)] + after;
    assert rest == [Line(false, true), Line(false, last), Line(true, last), Line(false, last), Held];
    assert ReadTrace(value, last) == lead + (BitsTrace(BitsOf(value)) + rest);
    FeedConcat(d, lead, BitsTrace(BitsOf(value)) + rest);
    FeedLow(d, lead);
    FeedByte(FeedAll(d, lead), value, before, last, after);
  }

  /** The lines rest high between transactions, and low with no bits pending inside one. */
  ghost predicate AtRest(d: Decoder, busy: bool) {
    d.busy == busy && d.bits == [] && d.line == if busy then Held else Line(true, true)
  }

  lemma CallDecodes(d: Decoder, busy: bool, c: Call)
    requires AtRest(d, busy) && (c.StartCall? <==> !busy)
    ensures FeedAll(d, CallTrace(c)).events == d.events + Meaning(c)
    ensures AtRest(FeedAll(d, CallTrace(c)), !c.StopCall?)
  {
    hide WriteTrace, ReadTrace, StartTrace;
    match c
    case StartCall(address, nak) =>
      StartDecodes(d, address, nak);
    case RestartCall(address, nak) =>
      FeedConcat(d, [Line(false, true), Line(true, true)], StartTrace(address, nak));
      FeedTwo(d, Line(false, true), Line(true, true));
      StartDecodes(FeedAll(d, [Line(false, true), Line(true, true)]), address, nak);
    case WriteCall(data, nak) =>
      WriteDecodes(d, data, nak);
    case ReadCall(value, last) =>
      ReadDecodes(d, value, last);
    case StopCall =>
      FeedThree(d, Held, Line(true, false), Line(true, true));
  }

  /** Every legal sequence of calls decodes to exactly its meaning, in order. */
  lemma {:induction false} TraceDecodes(calls: seq<Call>)
    requires Legal(calls)
    ensures FeedAll(QUIET, Trace(calls)).events == Meanings(calls)
    ensures AtRest(FeedAll(QUIET, Trace(calls)), Busy(calls))
  {
    hide CallTrace, Meaning;
    if calls != [] {
      var init, c := calls[..|calls| - 1], calls[|calls| - 1];
      TraceDecodes(init);
      FeedConcat(QUIET, Trace(init), CallTrace(c));
      CallDecodes(FeedAll(QUIET, Trace(init)), Busy(init), c);
    }
  }

  /** SDA changes while SCL is high exactly at the start and stop conditions of the calls. */
  lemma ChangesAreConditions(calls: seq<Call>)
    requires Legal(calls)
    ensures HighChanges(Line(true, true), Trace(calls)) == Conditions(Meanings(calls))
  {
    TraceDecodes(calls);
    ConditionsAreHighChanges(QUIET, Trace(calls));
  }
}
