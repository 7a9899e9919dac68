/**
  The one-pass command parser: arguments go into the low end of a buffer as they
  are read, and strings are moved up to its high end.
 */
module InputParser {
  import opened Bytes

  /** A byte of the buffer, as the number that the parser computes with. */
  type octet = x: int | 0 <= x < 0x100

  datatype Command = Command(code: int, bytes: nat)

  datatype Parser = Parser(
    buffer: seq<octet>,
    fill: nat,
    top: nat,
    next: nat,
    instring: bool,
    hexmode: bool,
    hasvalue: bool,
    value: nat)
  {
    function Limit(): nat { |buffer| }

    ghost predicate Valid() {
      && Limit() < 0x100 && fill <= Limit() && top <= Limit() && value < WRAP32
      && (instring ==> value <= fill <= top)
    }
  }

  /** What a character leads to besides changes to the parser. */
  datatype Outcome =
    | Quiet
    | Ran(code: int, at: Parser)   // the command runs with the parser like this
    | Complained

  function Reset(p: Parser): (r: Parser)
    ensures r.Limit() == p.Limit()
  {
    p.(fill := 0, next := 0, instring := false, hexmode := false, hasvalue := false, top := p.Limit())
  }

  predicate IsDigit(ch: int) { '0' as int <= ch <= '9' as int }

  predicate IsHexDigit(ch: int) {
    IsDigit(ch) || 'A' as int <= ch <= 'F' as int || 'a' as int <= ch <= 'f' as int
  }

  /** The low four bits of a hexadecimal digit, letters being shifted by nine first. */
  function HexValue(ch: int): nat
    requires IsHexDigit(ch)
    ensures HexValue(ch) < 0x10
  {
    (if ch > '9' as int then ch + 9 else ch) % 0x10
  }

  function DigitValue(ch: int): nat
    requires IsDigit(ch)
    ensures DigitValue(ch) < 10
  {
    ch - '0' as int
  }

  function Negate(v: int): (r: nat)
    ensures r < WRAP32
  {
    -v % WRAP32
  }

  const QUOTE: int := '"' as int

  /** The characters with a meaning of their own outside a string. */
  predicate IsSpecial(ch: int) {
    IsDigit(ch) || ch == '$' as int || ch == QUOTE || ch == ':' as int || ch == '.' as int
    || ch == '-' as int || ch == ' ' as int || ch == ',' as int
  }

  /** The end of a string: it is moved up below `top`, and its place takes its offset. */
  function CloseString(p: Parser): (r: Parser)
    requires p.Valid() && p.instring && p.fill < p.top
    ensures r.Valid() && r.Limit() == p.Limit()
  {
    var text := p.buffer[p.value..p.fill] + [0];
    var top := p.top - |text|;
    var moved := p.buffer[p.fill := 0][..top] + text + p.buffer[p.top..];
    p.(buffer := moved[p.value := top], fill := p.value + 1, top := top, instring := false)
  }

  /** `buffer[fill++] = b` */
  function Push(p: Parser, b: octet): (r: Parser)
    requires p.fill < p.Limit()
    ensures r.Limit() == p.Limit()
  {
    p.(buffer := p.buffer[p.fill := b], fill := p.fill + 1)
  }

  /** The low 16 bits of `value` stored as a little-endian word. */
  function PushWord(p: Parser): (r: Parser)
    requires p.fill + 2 <= p.Limit()
    ensures r.Limit() == p.Limit()
  {
    Push(Push(p, p.value % 0x100), p.value / 0x100 % 0x100)
  }

  /** The index of the command a character names, or the number of commands. */
  function Lookup(table: seq<Command>, ch: int, i: nat): (r: nat)
    requires i <= |table|
    ensures i <= r <= |table|
    ensures r < |table| ==> table[r].code == ch
    ensures forall j :: i <= j < r ==> table[j].code != ch
    decreases |table| - i
  {
    if i == |table| || table[i].code == ch then i else Lookup(table, ch, i + 1)
  }

  function Zeros(n: nat): (r: seq<octet>)
    ensures |r| == n && forall i :: 0 <= i < n ==> r[i] == 0
  {
    seq(n, _ => 0)
  }

  /** The parser as a command finds it: the bytes between data and strings are cleared. */
  function Cleared(p: Parser): (r: Parser)
    requires p.fill <= p.top <= p.Limit()
    ensures r.Limit() == p.Limit()
  {
    p.(buffer := p.buffer[..p.fill] + Zeros(p.top - p.fill) + p.buffer[p.top..])
  }

  /** There is memory for what the character stores. */
  predicate Fits(p: Parser, ch: int) {
    !p.instring ==>
      && (ch == ':' as int ==> p.fill + 4 <= p.Limit())
      && (ch == '.' as int ==> p.fill + 2 <= p.Limit())
  }

  /** One character outside a string that is no digit. */
  function TakeOther(p: Parser, ch: int, table: seq<Command>): (r: (Parser, Outcome))
    requires p.Valid() && !p.instring && p.fill < p.top && Fits(p, ch)
    ensures r.0.Valid() && r.0.Limit() == p.Limit()
  {
    if ch == '$' as int then (p.(hexmode := true), Quiet)
    else if ch == QUOTE then (p.(instring := true, value := p.fill), Quiet)
    else if ch == ':' as int then
      (PushWord(PushWord(p).(value := p.value / 0x1_0000)).(hasvalue := false), Quiet)
    else if ch == '.' as int then (PushWord(p).(hasvalue := false), Quiet)
    else if ch == '-' as int then (p.(value := Negate(p.value), hasvalue := false), Quiet)
    else if ch == ' ' as int && !p.hasvalue then (p, Quiet)
    else if ch == ' ' as int || ch == ',' as int then (Push(p, p.value % 0x100).(hasvalue := false), Quiet)
    else if p.hasvalue then (Reset(p), Complained)
    else
      var i := Lookup(table, ch, 0);
      if i == |table| then (p, Complained)
      else if p.fill < table[i].bytes then (Reset(p), Complained)
      else (Reset(Cleared(p)), Ran(ch, Cleared(p)))
  }

  /** A digit joins the value being read. */
  function TakeDigit(p: Parser, digit: nat, base: nat): (r: Parser)
    requires p.Valid() && !p.instring
    ensures r.Valid() && r.Limit() == p.Limit()
  {
    p.(value := (base * (if p.hasvalue then p.value else 0) + digit) % WRAP32, hasvalue := true)
  }

  /** `InputParser::poll` with one character, a signed byte, to read. */
  function Poll(p: Parser, ch: int, table: seq<Command>): (r: (Parser, Outcome))
    requires p.Valid() && -0x80 <= ch < 0x80 && Fits(p, ch)
    ensures r.0.Valid() && r.0.Limit() == p.Limit()
  {
    hide CloseString, TakeDigit, TakeOther, IsDigit, IsHexDigit;
    if ch < ' ' as int || p.fill >= p.top then (Reset(p), Quiet)
    else if p.instring then (if ch == QUOTE then CloseString(p) else Push(p, ch), Quiet)
    else if p.hexmode && IsHexDigit(ch) then (TakeDigit(p, HexValue(ch), 0x10), Quiet)
    else if IsDigit(ch) then (TakeDigit(p, DigitValue(ch), 10), Quiet)
    else TakeOther(p.(hexmode := false), ch, table)
  }

  // The text of arguments, and what it stands for.

  datatype Size = ByteSize | WordSize | LongSize

  datatype Arg =
    | Blank
    | Number(hex: bool, digits: seq<int>, minus: bool, size: Size, blank: bool)
    | Text(chars: seq<int>)

  ghost predicate WellFormed(a: Arg) {
    match a
    case Blank => true
    case Number(hex, digits, minus, size, blank) =>
      && digits != [] && (blank ==> size.ByteSize? && !minus)
      && forall i :: 0 <= i < |digits| ==> if hex then IsHexDigit(digits[i]) else IsDigit(digits[i])
    case Text(chars) => forall i :: 0 <= i < |chars| ==> ' ' as int <= chars[i] < 0x80 && chars[i] != QUOTE
  }

  /** The number some digits stand for, in the base. */
  function Horner(hex: bool, digits: seq<int>): nat
    requires forall i :: 0 <= i < |digits| ==> if hex then IsHexDigit(digits[i]) else IsDigit(digits[i])
  {
    if digits == [] then 0
    else
      var high, d := Horner(hex, digits[..|digits| - 1]), digits[|digits| - 1];
      if hex then 0x10 * high + HexValue(d) else 10 * high + DigitValue(d)
  }

  /** The value of a number argument, in 32-bit arithmetic. */
  function ValueOf(a: Arg): (v: nat)
    requires WellFormed(a) && a.Number?
    ensures v < WRAP32
  {
    if a.minus then Negate(Horner(a.hex, a.digits)) else Horner(a.hex, a.digits) % WRAP32
  }

  function Width(size: Size): nat {
    match size
    case ByteSize => 1
    case WordSize => 2
    case LongSize => 4
  }

  /** The lowest `n` bytes of a value, least significant first. */
  function LowBytes(v: nat, n: nat): (r: seq<octet>)
    ensures |r| == n
    decreases n
  {
    if n == 0 then [] else [v % 0x100] + LowBytes(v / 0x100, n - 1)
  }

  function FromLowBytes(bytes: seq<octet>): nat
    decreases |bytes|
  {
    if bytes == [] then 0 else bytes[0] + 0x100 * FromLowBytes(bytes[1..])
  }

  /** What a reader of the size gets of a value. */
  function Kept(v: nat, size: Size): nat {
    match size
    case ByteSize => v % 0x100
    case WordSize => v % 0x1_0000
    case LongSize => v % 0x1_0000_0000
  }

  lemma OneByte(v: nat)
    ensures FromLowBytes(LowBytes(v, 1)) == v % 0x100
  {
    assert LowBytes(v, 1) == [v % 0x100];
  }

  lemma TwoBytes(v: nat)
    ensures FromLowBytes(LowBytes(v, 2)) == v % 0x1_0000
  {
    OneByte(v / 0x100);
    assert LowBytes(v, 2)[1..] == LowBytes(v / 0x100, 1);
  }

  lemma FourBytes(v: nat)
    ensures FromLowBytes(LowBytes(v, 4)) == v % 0x1_0000_0000
  {
    hide FromLowBytes, LowBytes;
    DividedAgain(v);
    FirstRead(v, 4);
    FirstRead(v / 0x100, 3);
    TwoBytes(v / 0x1_0000);
    FourParts(v);
  }

  lemma FirstRead(v: nat, n: nat)
    requires n > 0
    ensures FromLowBytes(LowBytes(v, n)) == v % 0x100 + 0x100 * FromLowBytes(LowBytes(v / 0x100, n - 1))
  {
    assert LowBytes(v, n)[1..] == LowBytes(v / 0x100, n - 1);
  }

  lemma FourParts(v: nat)
    ensures v % 0x1_0000_0000 == v % 0x100 + 0x100 * (v / 0x100 % 0x100 + 0x100 * (v / 0x1_0000 % 0x1_0000))
  {
    DividedAgain(v);
    var w, x := v / 0x100, v / 0x1_0000;
    var y, low := x / 0x1_0000, x % 0x1_0000;
    assert v == 0x100 * w + v % 0x100 && w == 0x100 * x + w % 0x100 && x == 0x1_0000 * y + low;
    SmallRemainder(y, v % 0x100 + 0x100 * (w % 0x100) + 0x1_0000 * low);
  }

  lemma SmallRemainder(q: nat, r: nat)
    requires r < 0x1_0000_0000
    ensures (0x1_0000_0000 * q + r) % 0x1_0000_0000 == r
  {
  }

  lemma LowBytesRead(v: nat, size: Size)
    ensures FromLowBytes(LowBytes(v, Width(size))) == Kept(v, size)
  {
    hide FromLowBytes, LowBytes;
    match size
    case ByteSize => OneByte(v);
    case WordSize => TwoBytes(v);
    case LongSize => FourBytes(v);
  }

  /** How an argument is typed. */
  function Chars(a: Arg): seq<int> {
    match a
    case Blank => [' ' as int]
    case Number(hex, digits, minus, _, _) =>
      (if hex then ['$' as int] else []) + digits + (if minus then ['-' as int] else []) + [Ending(a)]
    case Text(chars) => [QUOTE] + chars + [QUOTE]
  }

  function Ending(a: Arg): int
    requires a.Number?
  {
    match a.size
    case ByteSize => if a.blank then ' ' as int else ',' as int
    case WordSize => '.' as int
    case LongSize => ':' as int
  }

  function Line(args: seq<Arg>): seq<int> {
    if args == [] then [] else Line(args[..|args| - 1]) + Chars(args[|args| - 1])
  }

  // What the buffer holds: data bytes from the low end, strings from the high end.

  datatype Memory = Memory(low: seq<octet>, high: seq<octet>)

  /** The bytes that must be free before an argument. */
  function Need(a: Arg): nat {
    match a
    case Blank => 1
    case Number(_, _, _, size, _) => Width(size)
    case Text(chars) => |chars| + 2
  }

  ghost predicate RoomFor(m: Memory, limit: nat, a: Arg) {
    |m.low| + |m.high| + Need(a) <= limit < 0x100
  }

  ghost function Place(m: Memory, limit: nat, a: Arg): Memory
    requires WellFormed(a) && RoomFor(m, limit, a)
  {
    match a
    case Blank => m
    case Number(_, _, _, size, _) => m.(low := m.low + LowBytes(ValueOf(a), Width(size)))
    case Text(chars) => Memory(m.low + [limit - |m.high| - |chars| - 1], chars + [0] + m.high)
  }

  /** The contents of the buffer after some arguments, if there is room for all of them. */
  ghost function Layout(args: seq<Arg>, limit: nat): Option<Memory>
    requires forall i :: 0 <= i < |args| ==> WellFormed(args[i])
  {
    if args == [] then Some(Memory([], []))
    else
      var m, a := Layout(args[..|args| - 1], limit), args[|args| - 1];
      if m.Some? && RoomFor(m.value, limit, a) then Some(Place(m.value, limit, a)) else None
  }

  /** The parser stands between arguments, with this in its buffer. */
  ghost predicate Ready(p: Parser, m: Memory) {
    && p.Valid() && !p.instring && !p.hexmode && !p.hasvalue && p.next == 0
    && p.fill == |m.low| && p.top + |m.high| == p.Limit()
    && p.fill <= p.top && p.buffer[..p.fill] == m.low && p.buffer[p.top..] == m.high
  }

  /** Typing the characters leads from `p` to `q` without a message or a command. */
  ghost predicate Feeds(p: Parser, chars: seq<int>, table: seq<Command>, q: Parser)
    decreases |chars|
  {
    if chars == [] then p == q
    else
      && p.Valid() && -0x80 <= chars[0] < 0x80 && Fits(p, chars[0])
      && Poll(p, chars[0], table).1 == Quiet
      && Feeds(Poll(p, chars[0], table).0, chars[1..], table, q)
  }

  lemma {:induction false} FeedsConcat(p: Parser, a: seq<int>, q: Parser, b: seq<int>, r: Parser, table: seq<Command>)
    requires Feeds(p, a, table, q) && Feeds(q, b, table, r)
    ensures Feeds(p, a + b, table, r)
    decreases |a|
  {
    hide Poll, Fits;
    if a == [] {
      assert a + b == b;
    } else {
      assert (a + b)[0] == a[0] && (a + b)[1..] == a[1..] + b;
      FeedsConcat(Poll(p, a[0], table).0, a[1..], q, b, r, table);
    }
  }

  lemma FeedsOne(p: Parser, ch: int, table: seq<Command>)
    requires p.Valid() && -0x80 <= ch < 0x80 && Fits(p, ch) && Poll(p, ch, table).1 == Quiet
    ensures Feeds(p, [ch], table, Poll(p, ch, table).0)
  {
    hide Poll, Fits;
    assert [ch][1..] == [];
  }

  // Numbers.

  ghost predicate IsNumeral(hex: bool, digits: seq<int>) {
    forall i :: 0 <= i < |digits| ==> if hex then IsHexDigit(digits[i]) else IsDigit(digits[i])
  }

  /** The parser after some digits of a number. */
  function Reading(p: Parser, hex: bool, digits: seq<int>): Parser
    requires forall i :: 0 <= i < |digits| ==> if hex then IsHexDigit(digits[i]) else IsDigit(digits[i])
  {
    p.(hexmode := hex, hasvalue := digits != [], value := if digits == [] then p.value else Horner(hex, digits) % WRAP32)
  }

  lemma ReadDigit(p: Parser, m: Memory, hex: bool, done: seq<int>, d: int, table: seq<Command>)
    requires Ready(p, m) && p.fill < p.top && IsNumeral(hex, done) && IsNumeral(hex, [d])
    ensures IsNumeral(hex, done + [d])
    ensures Feeds(Reading(p, hex, done), [d], table, Reading(p, hex, done + [d]))
  {
    var a, b := Reading(p, hex, done), Reading(p, hex, done + [d]);
    assert IsNumeral(hex, done + [d]);
    assert [d][0] == d;
    var digit := if hex then HexValue(d) else DigitValue(d);
    var base := if hex then 0x10 else 10;
    assert (done + [d])[..|done|] == done;
    assert Horner(hex, done + [d]) == base * Horner(hex, done) + digit;
    ModStep(Horner(hex, done), base, digit);
    FeedsOne(a, d, table);
  }

  /** Reducing before or after one more digit is the same. */
  lemma ModStep(h: nat, base: nat, digit: nat)
    requires base == 10 || base == 0x10
    ensures (base * (h % WRAP32) + digit) % WRAP32 == (base * h + digit) % WRAP32
  {
    var q, a := h / 0x1_0000_0000, h % 0x1_0000_0000;
    if base == 10 {
      MultipleDropped(10 * a + digit, 10 * q);
    } else {
      MultipleDropped(0x10 * a + digit, 0x10 * q);
    }
  }

  lemma MultipleDropped(x: nat, k: nat)
    ensures (x + 0x1_0000_0000 * k) % 0x1_0000_0000 == x % 0x1_0000_0000
  {
    var q, r := x / 0x1_0000_0000, x % 0x1_0000_0000;
    assert x + 0x1_0000_0000 * k == 0x1_0000_0000 * (q + k) + r;
  }

  lemma {:induction false} ReadDigits(p: Parser, m: Memory, hex: bool, digits: seq<int>, table: seq<Command>)
    requires Ready(p, m) && p.fill < p.top && IsNumeral(hex, digits)
    ensures Feeds(Reading(p, hex, []), digits, table, Reading(p, hex, digits))
    decreases |digits|
  {
    hide Reading, Ready, Feeds;
    if digits == [] {
      FeedsNone(Reading(p, hex, []), table);
    } else {
      var n := |digits| - 1;
      ReadDigits(p, m, hex, digits[..n], table);
      ReadDigit(p, m, hex, digits[..n], digits[n], table);
      assert digits[..n] + [digits[n]] == digits;
      FeedsConcat(Reading(p, hex, []), digits[..n], Reading(p, hex, digits[..n]), [digits[n]], Reading(p, hex, digits), table);
    }
  }

  lemma FeedsNone(p: Parser, table: seq<Command>)
    ensures Feeds(p, [], table, p)
  {
  }

  lemma FirstByte(v: nat, n: nat)
    requires n > 0
    ensures LowBytes(v, 0) == [] && LowBytes(v, n) == [v % 0x100] + LowBytes(v / 0x100, n - 1)
  {
  }

  lemma BytesInFull(v: nat)
    ensures LowBytes(v, 1) == [v % 0x100]
    ensures LowBytes(v, 2) == [v % 0x100, v / 0x100 % 0x100]
    ensures LowBytes(v, 4) == [v % 0x100, v / 0x100 % 0x100, v / 0x1_0000 % 0x100, v / 0x1_0000 / 0x100 % 0x100]
  {
    hide LowBytes;
    var w, x := v / 0x100, v / 0x1_0000;
    DividedAgain(v);
    FirstByte(v, 1);
    FirstByte(v, 2);
    FirstByte(w, 1);
    FirstByte(v, 4);
    FirstByte(w, 3);
    FirstByte(x, 2);
    FirstByte(x / 0x100, 1);
  }

  /** The low end of the buffer holds `low`, the high end `high`. */
  ghost predicate Holds(p: Parser, low: seq<octet>, high: seq<octet>) {
    && p.Valid() && !p.instring && p.next == 0
    && p.fill == |low| && p.top + |high| == p.Limit() && p.fill <= p.top
    && p.buffer[..p.fill] == low && p.buffer[p.top..] == high
  }

  lemma PushHolds(p: Parser, low: seq<octet>, high: seq<octet>, b: octet)
    requires Holds(p, low, high) && p.fill < p.top
    ensures Holds(Push(p, b), low + [b], high) && Push(p, b).Limit() == p.Limit()
    ensures Push(p, b) == p.(buffer := Push(p, b).buffer, fill := p.fill + 1)
  {
  }

  lemma PushWordHolds(p: Parser, low: seq<octet>, high: seq<octet>)
    requires Holds(p, low, high) && p.fill + 2 <= p.top
    ensures Holds(PushWord(p), low + [p.value % 0x100, p.value / 0x100 % 0x100], high)
    ensures PushWord(p) == p.(buffer := PushWord(p).buffer, fill := p.fill + 2)
  {
    hide Push;
    PushHolds(p, low, high, p.value % 0x100);
    PushHolds(Push(p, p.value % 0x100), low + [p.value % 0x100], high, p.value / 0x100 % 0x100);
    assert low + [p.value % 0x100] + [p.value / 0x100 % 0x100] == low + [p.value % 0x100, p.value / 0x100 % 0x100];
  }

  /** The character that ends a number stores it and leaves the parser ready. */
  lemma EndNumber(p: Parser, m: Memory, a: Arg, table: seq<Command>) returns (q: Parser)
    requires Holds(p, m.low, m.high) && a.Number? && (a.blank ==> p.hasvalue && a.size.ByteSize?)
    requires RoomFor(m, p.Limit(), a)
    ensures q.Limit() == p.Limit() && Ready(q, m.(low := m.low + LowBytes(p.value, Width(a.size))))
    ensures Feeds(p, [Ending(a)], table, q)
  {
    hide LowBytes, Push, PushWord;
    BytesInFull(p.value);
    FeedsOne(p, Ending(a), table);
    if a.size.LongSize? {
      q := EndLong(p, m, table);
    } else {
      var r := p.(hexmode := false);
      q := Poll(p, Ending(a), table).0;
      if a.size.ByteSize? {
        PushHolds(r, m.low, m.high, p.value % 0x100);
      } else {
        PushWordHolds(r, m.low, m.high);
      }
    }
  }

  lemma EndLong(p: Parser, m: Memory, table: seq<Command>) returns (q: Parser)
    requires Holds(p, m.low, m.high) && p.fill + 4 <= p.top
    ensures Fits(p, ':' as int) && Poll(p, ':' as int, table) == (q, Quiet)
    ensures q.Limit() == p.Limit() && Ready(q, m.(low := m.low + LowBytes(p.value, 4)))
  {
    hide LowBytes, Push, PushWord;
    BytesInFull(p.value);
    var r := p.(hexmode := false);
    q := Poll(p, ':' as int, table).0;
    PushWordHolds(r, m.low, m.high);
    var w := p.value / 0x1_0000;
    var low := m.low + [p.value % 0x100, p.value / 0x100 % 0x100];
    PushWordHolds(PushWord(r).(value := w), low, m.high);
    assert low + [w % 0x100, w / 0x100 % 0x100] == m.low + LowBytes(p.value, 4);
  }

  // Numbers that run into the strings.

  /** The byte that the end of a number of `width` bytes puts at place `j`. */
  lemma EndStores(p: Parser, wide: bool, table: seq<Command>, j: nat)
    requires p.Valid() && !p.instring && p.fill < p.top && j < (if wide then 4 else 2)
    requires p.fill + (if wide then 4 else 2) <= p.Limit()
    ensures
      var q := Poll(p, if wide then ':' as int else '.' as int, table).0;
      && q.Limit() == p.Limit()
      && q.buffer[p.fill + j] == (if j == 0 then p.value % 0x100
                                  else if j == 1 then p.value / 0x100 % 0x100
                                  else if j == 2 then p.value / 0x1_0000 % 0x100
                                  else p.value / 0x1_0000 / 0x100 % 0x100)
  {
  }

  lemma EndStoresOnly(p: Parser, wide: bool, table: seq<Command>)
    requires p.Valid() && !p.instring && p.fill < p.top && p.fill + (if wide then 4 else 2) <= p.top
    ensures
      var q := Poll(p, if wide then ':' as int else '.' as int, table).0;
      q.Limit() == p.Limit() && q.buffer[p.top..] == p.buffer[p.top..]
  {
  }

  /** Whatever its value, a number that ends here leaves the strings alone. */
  ghost predicate SparesStrings(p: Parser, wide: bool, table: seq<Command>)
    requires p.Valid() && !p.instring && p.fill < p.top && p.fill + (if wide then 4 else 2) <= p.Limit()
  {
    forall v: word32 :: Poll(p.(value := v), if wide then ':' as int else '.' as int, table).0.buffer[p.top..] == p.buffer[p.top..]
  }

  /** A word or long spares the strings exactly if two or four bytes are free below them. */
  lemma StringsSparedExactly(p: Parser, wide: bool, table: seq<Command>)
    requires p.Valid() && !p.instring && p.fill < p.top && p.fill + (if wide then 4 else 2) <= p.Limit()
    ensures SparesStrings(p, wide, table) <==> p.fill + (if wide then 4 else 2) <= p.top
  {
    hide Poll;
    if p.fill + (if wide then 4 else 2) <= p.top {
      forall v: word32
        ensures Poll(p.(value := v), if wide then ':' as int else '.' as int, table).0.buffer[p.top..] == p.buffer[p.top..]
      {
        EndStoresOnly(p.(value := v), wide, table);
      }
    } else {
      var j := p.top - p.fill;
      var v: word32 :=
        if p.buffer[p.top] != 0 then 0 else if j == 1 then 0x100 else if j == 2 then 0x1_0000 else 0x100_0000;
      EndStores(p.(value := v), wide, table, j);
      var q := Poll(p.(value := v), if wide then ':' as int else '.' as int, table).0;
      assert q.buffer[p.top] != p.buffer[p.top];
      assert q.buffer[p.top..][0] != p.buffer[p.top..][0];
    }
  }

  lemma NegateReduced(h: int)
    requires h >= 0
    ensures Negate(h % WRAP32) == Negate(h)
  {
    var a, q := h % 0x1_0000_0000, h / 0x1_0000_0000;
    if a == 0 {
      assert -h == -q * 0x1_0000_0000;
    } else {
      assert -h == (-q - 1) * 0x1_0000_0000 + (0x1_0000_0000 - a);
    }
  }

  lemma NumberFeeds(p: Parser, m: Memory, a: Arg, table: seq<Command>) returns (q: Parser)
    requires Ready(p, m) && a.Number? && WellFormed(a) && RoomFor(m, p.Limit(), a)
    ensures Feeds(p, Chars(a), table, q) && q.Limit() == p.Limit() && Ready(q, Place(m, p.Limit(), a))
  {
    hide Feeds, LowBytes, Horner;
    var v := Horner(a.hex, a.digits) % WRAP32;
    var start, read := Reading(p, a.hex, []), Reading(p, a.hex, a.digits);
    var prefix := if a.hex then ['$' as int] else [];
    StartNumber(p, m, a.hex, table);
    ReadDigits(p, m, a.hex, a.digits, table);
    FeedsConcat(p, prefix, start, a.digits, read, table);
    if a.minus {
      NegateReduced(Horner(a.hex, a.digits));
      var negated := MinusFeeds(p, m, a.hex, v, table);
      q := EndNumber(negated, m, a, table);
      FeedsConcat(p, prefix + a.digits, read, ['-' as int], negated, table);
      FeedsConcat(p, prefix + a.digits + ['-' as int], negated, [Ending(a)], q, table);
    } else {
      q := EndNumber(read, m, a, table);
      FeedsConcat(p, prefix + a.digits, read, [Ending(a)], q, table);
      assert prefix + a.digits + [] == prefix + a.digits;
    }
  }

  lemma StartNumber(p: Parser, m: Memory, hex: bool, table: seq<Command>)
    requires Ready(p, m) && p.fill < p.top
    ensures Feeds(p, if hex then ['$' as int] else [], table, Reading(p, hex, []))
  {
    if hex {
      FeedsOne(p, '$' as int, table);
    }
  }

  lemma MinusFeeds(p: Parser, m: Memory, hex: bool, v: nat, table: seq<Command>) returns (q: Parser)
    requires Ready(p, m) && p.fill < p.top && v < WRAP32
    ensures q == p.(hexmode := false, hasvalue := false, value := Negate(v))
    ensures Feeds(p.(hexmode := hex, hasvalue := true, value := v), ['-' as int], table, q)
  {
    q := p.(hexmode := false, hasvalue := false, value := Negate(v));
    FeedsOne(p.(hexmode := hex, hasvalue := true, value := v), '-' as int, table);
  }

  // Strings.

  /** The parser in the middle of a string. */
  ghost predicate InText(p: Parser, m: Memory, done: seq<int>) {
    && p.Valid() && p.instring && !p.hexmode && !p.hasvalue && p.next == 0
    && p.value == |m.low| && p.fill == |m.low| + |done| && p.top + |m.high| == p.Limit() && p.fill < p.top
    && p.buffer[..|m.low|] == m.low && p.buffer[|m.low|..p.fill] == done && p.buffer[p.top..] == m.high
  }

  lemma {:induction false} TextChars(p: Parser, m: Memory, done: seq<int>, chars: seq<int>, table: seq<Command>) returns (q: Parser)
    requires InText(p, m, done) && WellFormed(Text(chars)) && p.fill + |chars| < p.top
    ensures q.Limit() == p.Limit() && InText(q, m, done + chars) && Feeds(p, chars, table, q)
    decreases |chars|
  {
    if chars == [] {
      q := p;
      assert done + [] == done;
    } else {
      var next := Push(p, chars[0]);
      TextChar(p, m, done, chars[0]);
      assert Poll(p, chars[0], table) == (next, Quiet);
      q := TextChars(next, m, done + [chars[0]], chars[1..], table);
      assert done + [chars[0]] + chars[1..] == done + chars;
    }
  }

  lemma TextChar(p: Parser, m: Memory, done: seq<int>, ch: int)
    requires InText(p, m, done) && 0 <= ch < 0x100 && p.fill + 1 < p.top
    ensures InText(Push(p, ch), m, done + [ch])
  {
  }

  /** With two bytes free the closing quote moves the string up whole and leaves its offset. */
  lemma CloseStringMoves(p: Parser, m: Memory, chars: seq<int>)
    requires InText(p, m, chars) && p.fill + 2 <= p.top && WellFormed(Text(chars))
    ensures CloseString(p).Limit() == p.Limit()
    ensures Ready(CloseString(p), Memory(m.low + [p.top - |chars| - 1], chars + [0] + m.high))
  {
    var text := p.buffer[p.value..p.fill] + [0];
    var top := p.top - |text|;
    var moved := p.buffer[p.fill := 0][..top] + text + p.buffer[p.top..];
    assert moved[..|m.low|] == m.low;
    assert moved[top..] == text + m.high;
  }

  /**
    A string survives its closing quote, final zero included, exactly when a
    second byte is free; with one byte free its offset overwrites its first
    byte, if that is different.
   */
  lemma TextSurvives(p: Parser, m: Memory, chars: seq<int>)
    requires InText(p, m, chars) && WellFormed(Text(chars))
    ensures
      var q, text := CloseString(p), chars + [0];
      && q.top == p.top - |text|
      && (q.buffer[q.top..q.top + |text|] == text <==> p.fill + 2 <= p.top || text[0] == |m.low|)
  {
    hide CloseString;
    if p.fill + 2 <= p.top {
      CloseStringMoves(p, m, chars);
      var q := CloseString(p);
      assert q.buffer[q.top..] == chars + [0] + m.high;
      assert q.buffer[q.top..q.top + |chars| + 1] == q.buffer[q.top..][..|chars| + 1];
    } else {
      TightString(p, m, chars);
    }
  }

  lemma TightString(p: Parser, m: Memory, chars: seq<int>)
    requires InText(p, m, chars) && p.fill + 1 == p.top && WellFormed(Text(chars))
    ensures
      var q, text := CloseString(p), chars + [0];
      && q.top == |m.low| && q.buffer[q.top] == |m.low|
      && q.buffer[q.top + 1..q.top + |text|] == text[1..]
  {
  }

  lemma TextOpens(p: Parser, m: Memory, table: seq<Command>)
    requires Ready(p, m) && p.fill < p.top
    ensures InText(p.(instring := true, value := p.fill), m, [])
    ensures Feeds(p, [QUOTE], table, p.(instring := true, value := p.fill))
  {
    hide CloseString;
    FeedsOne(p, QUOTE, table);
  }

  lemma TextCloses(p: Parser, m: Memory, chars: seq<int>, table: seq<Command>)
    requires InText(p, m, chars)
    ensures Feeds(p, [QUOTE], table, CloseString(p))
  {
    hide CloseString;
    FeedsOne(p, QUOTE, table);
  }

  lemma TextFeeds(p: Parser, m: Memory, a: Arg, table: seq<Command>) returns (q: Parser)
    requires Ready(p, m) && a.Text? && WellFormed(a) && RoomFor(m, p.Limit(), a)
    ensures Feeds(p, Chars(a), table, q) && q.Limit() == p.Limit() && Ready(q, Place(m, p.Limit(), a))
  {
    hide CloseString, Feeds, Poll;
    var open := p.(instring := true, value := p.fill);
    TextOpens(p, m, table);
    var typed := TextChars(open, m, [], a.chars, table);
    assert [] + a.chars == a.chars;
    TextCloses(typed, m, a.chars, table);
    q := CloseString(typed);
    CloseStringMoves(typed, m, a.chars);
    FeedsConcat(p, [QUOTE], open, a.chars, typed, table);
    FeedsConcat(p, [QUOTE] + a.chars, typed, [QUOTE], q, table);
  }

  // Whole lines.

  lemma ArgFeeds(p: Parser, m: Memory, a: Arg, table: seq<Command>) returns (q: Parser)
    requires Ready(p, m) && WellFormed(a) && RoomFor(m, p.Limit(), a)
    ensures Feeds(p, Chars(a), table, q) && q.Limit() == p.Limit() && Ready(q, Place(m, p.Limit(), a))
  {
    if a.Blank? {
      q := p;
      FeedsOne(p, ' ' as int, table);
    } else if a.Number? {
      q := NumberFeeds(p, m, a, table);
    } else {
      q := TextFeeds(p, m, a, table);
    }
  }

  /** Every well-formed line that leaves room is laid out in the buffer. */
  lemma {:induction false} LineFeeds(p: Parser, args: seq<Arg>, table: seq<Command>) returns (q: Parser)
    requires p.Valid() && p == Reset(p) && forall i :: 0 <= i < |args| ==> WellFormed(args[i])
    requires Layout(args, p.Limit()).Some?
    ensures Feeds(p, Line(args), table, q) && q.Limit() == p.Limit() && Ready(q, Layout(args, p.Limit()).value)
    decreases |args|
  {
    hide Feeds, Place, RoomFor, Chars;
    if args == [] {
      q := p;
      FeedsNone(p, table);
    } else {
      var init, a := args[..|args| - 1], args[|args| - 1];
      var r := LineFeeds(p, init, table);
      q := ArgFeeds(r, Layout(init, p.Limit()).value, a, table);
      FeedsConcat(p, Line(init), r, Chars(a), q, table);
    }
  }

  /** A command after the line runs with the layout in its buffer, zeros between the ends. */
  lemma CommandRuns(q: Parser, m: Memory, code: int, table: seq<Command>)
    requires Ready(q, m) && q.fill < q.top
    requires ' ' as int <= code < 0x80 && !IsSpecial(code)
    requires Lookup(table, code, 0) < |table| && table[Lookup(table, code, 0)].bytes <= |m.low|
    ensures
      var (r, o) := Poll(q, code, table);
      && o.Ran? && o.code == code && r.fill == 0 && r == Reset(r)
      && o.at.buffer == m.low + Zeros(q.top - q.fill) + m.high
      && o.at.fill == |m.low| && o.at.top + |m.high| == q.Limit() == o.at.Limit() && o.at.next == 0
  {
  }

  // Reading the arguments back.

  datatype Value = Num(n: nat) | Str(chars: seq<octet>)

  /** The zero-terminated string at an offset. */
  function CString(buffer: seq<octet>, i: nat): seq<octet>
    requires i <= |buffer|
    decreases |buffer| - i
  {
    if i == |buffer| || buffer[i] == 0 then [] else [buffer[i]] + CString(buffer, i + 1)
  }

  /** `operator >>` for a number of the size. */
  function ReadNumber(p: Parser, size: Size): (r: (nat, Parser))
    requires p.next + Width(size) <= p.Limit()
    ensures r.1 == p.(next := p.next + Width(size))
  {
    (FromLowBytes(p.buffer[p.next..p.next + Width(size)]), p.(next := p.next + Width(size)))
  }

  /** `operator >>` for a string; an offset outside the strings gives the empty one. */
  function ReadString(p: Parser): (r: (seq<octet>, Parser))
    requires p.next < p.Limit()
    ensures r.1 == p.(next := p.next + 1)
  {
    var offset := p.buffer[p.next];
    (if p.top <= offset < p.Limit() then CString(p.buffer, offset) else [], p.(next := p.next + 1))
  }

  /** The bytes of data an argument takes. */
  function Step(a: Arg): nat {
    match a
    case Blank => 0
    case Number(_, _, _, size, _) => Width(size)
    case Text(_) => 1
  }

  function Steps(args: seq<Arg>): nat {
    if args == [] then 0 else Steps(args[..|args| - 1]) + Step(args[|args| - 1])
  }

  /** What one more reader gets, by the kind of the argument. */
  function ReadArg(p: Parser, a: Arg): (r: (seq<Value>, Parser))
    requires p.next + Step(a) <= p.Limit()
    ensures r.1 == p.(next := p.next + Step(a))
  {
    match a
    case Blank => ([], p)
    case Number(_, _, _, size, _) => var (n, q) := ReadNumber(p, size); ([Num(n)], q)
    case Text(_) => var (s, q) := ReadString(p); ([Str(s)], q)
  }

  /** What the readers get, one call per argument. */
  function ReadArgs(p: Parser, args: seq<Arg>): (r: (seq<Value>, Parser))
    requires p.next + Steps(args) <= p.Limit()
    ensures r.1 == p.(next := p.next + Steps(args))
  {
    if args == [] then ([], p)
    else
      var (vs, q) := ReadArgs(p, args[..|args| - 1]);
      var (v, r) := ReadArg(q, args[|args| - 1]);
      (vs + v, r)
  }

  ghost function Meaning(a: Arg): seq<Value>
    requires WellFormed(a)
  {
    match a
    case Blank => []
    case Number(_, _, _, size, _) => [Num(Kept(ValueOf(a), size))]
    case Text(chars) => [Str(chars)]
  }

  ghost function Meanings(args: seq<Arg>): seq<Value>
    requires forall i :: 0 <= i < |args| ==> WellFormed(args[i])
  {
    if args == [] then [] else Meanings(args[..|args| - 1]) + Meaning(args[|args| - 1])
  }

  lemma {:induction false} CStringRead(buffer: seq<octet>, i: nat, chars: seq<octet>)
    requires i + |chars| < |buffer| && buffer[i..i + |chars|] == chars && buffer[i + |chars|] == 0
    requires forall j :: 0 <= j < |chars| ==> chars[j] != 0
    ensures CString(buffer, i) == chars
    decreases |chars|
  {
    if chars != [] {
      assert buffer[i] == chars[0];
      assert buffer[i + 1..i + 1 + |chars[1..]|] == chars[1..];
      CStringRead(buffer, i + 1, chars[1..]);
    }
  }

  /** A parser whose buffer starts and ends as the layout says, strings included in `top`. */
  ghost predicate Shows(p: Parser, m: Memory) {
    && p.Limit() < 0x100 && |m.low| + |m.high| <= p.Limit() && p.top <= p.Limit() - |m.high|
    && p.buffer[..|m.low|] == m.low && p.buffer[p.Limit() - |m.high|..] == m.high
  }

  /** The reader after an argument gets its value back, wherever later arguments went. */
  lemma ArgReadsBack(p: Parser, m: Memory, a: Arg)
    requires WellFormed(a) && RoomFor(m, p.Limit(), a) && Shows(p, Place(m, p.Limit(), a)) && p.next == |m.low|
    ensures p.next + Step(a) <= p.Limit() && ReadArg(p, a).0 == Meaning(a)
  {
    hide LowBytes, FromLowBytes, Horner;
    var w := Place(m, p.Limit(), a);
    match a
    case Blank =>
    case Number(_, _, _, size, _) =>
      LowBytesRead(ValueOf(a), size);
      assert p.buffer[p.next..p.next + Width(size)] == p.buffer[..|w.low|][|m.low|..];
      assert w.low[|m.low|..] == LowBytes(ValueOf(a), Width(size));
    case Text(chars) =>
      var at := p.Limit() - |w.high|;
      assert p.buffer[p.next] == p.buffer[..|w.low|][|m.low|] == at;
      assert w.high == chars + ([0] + m.high);
      assert p.buffer[at..at + |chars|] == p.buffer[at..][..|chars|] == chars;
      assert p.buffer[at + |chars|] == p.buffer[at..][|chars|] == 0;
      CStringRead(p.buffer, at, chars);
  }

  /** A layout shows the shorter layout it grew from. */
  lemma ShowsEarlier(p: Parser, m: Memory, a: Arg)
    requires WellFormed(a) && RoomFor(m, p.Limit(), a) && Shows(p, Place(m, p.Limit(), a))
    ensures Shows(p, m)
  {
    var w := Place(m, p.Limit(), a);
    assert p.buffer[..|m.low|] == p.buffer[..|w.low|][..|m.low|];
    var grown := |w.high| - |m.high|;
    assert p.buffer[p.Limit() - |m.high|..] == p.buffer[p.Limit() - |w.high|..][grown..];
  }

  /** The readers return the values of the arguments, in order, from the buffer laid out by the line. */
  lemma {:induction false} ArgsReadBack(p: Parser, args: seq<Arg>)
    requires forall i :: 0 <= i < |args| ==> WellFormed(args[i])
    requires Layout(args, p.Limit()).Some? && Shows(p, Layout(args, p.Limit()).value) && p.next == 0
    ensures Steps(args) == |Layout(args, p.Limit()).value.low| <= p.Limit()
    ensures ReadArgs(p, args).0 == Meanings(args)
    decreases |args|
  {
    hide Place, RoomFor, Meaning, ReadArg;
    if args != [] {
      var init, a := args[..|args| - 1], args[|args| - 1];
      var m := Layout(init, p.Limit()).value;
      ShowsEarlier(p, m, a);
      ArgsReadBack(p, init);
      ArgReadsBack(p.(next := |m.low|), m, a);
      PlaceGrows(m, p.Limit(), a);
    }
  }

  lemma PlaceGrows(m: Memory, limit: nat, a: Arg)
    requires WellFormed(a) && RoomFor(m, limit, a)
    ensures |Place(m, limit, a).low| == |m.low| + Step(a)
  {
  }

  /**
    A line typed at a fresh parser and ended by a command letter runs the command
    with exactly the values of the line for its readers.
   */
  lemma LineRoundTrip(p: Parser, args: seq<Arg>, code: int, table: seq<Command>) returns (q: Parser)
    requires p.Valid() && p == Reset(p) && forall i :: 0 <= i < |args| ==> WellFormed(args[i])
    requires Layout(args, p.Limit()).Some?
    requires
      var m := Layout(args, p.Limit()).value;
      && |m.low| + |m.high| < p.Limit()
      && Lookup(table, code, 0) < |table| && table[Lookup(table, code, 0)].bytes <= |m.low|
    requires ' ' as int <= code < 0x80 && !IsSpecial(code)
    ensures Feeds(p, Line(args), table, q) && q.Valid() && Fits(q, code) && Poll(q, code, table).1.Ran?
    ensures
      var at := Poll(q, code, table).1.at;
      at.next + Steps(args) <= at.Limit() && ReadArgs(at, args).0 == Meanings(args)
  {
    hide Layout, Feeds, ReadArgs, Meanings, Poll, Steps;
    q := LineFeeds(p, args, table);
    var m := Layout(args, p.Limit()).value;
    CommandRuns(q, m, code, table);
    var at := Poll(q, code, table).1.at;
    assert at.buffer[at.top..] == m.high && at.buffer[..|m.low|] == m.low;
    ArgsReadBack(at, args);
  }
}
