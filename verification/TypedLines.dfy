/** Typing at the command parser: numbers as people write them, texts, and what is refused. */
module TypedLines {
  import opened Bytes
  import opened InputParser

  // Digits.

  const DECIMAL := "0123456789"
  const UPPER := "0123456789ABCDEF"
  const LOWER := "0123456789abcdef"

  lemma DecimalDigit(d: nat)
    requires d < 10
    ensures IsDigit("0123456789"[d] as int) && DigitValue("0123456789"[d] as int) == d
  {
  }

  lemma UpperDigit(d: nat)
    requires d < 16
    ensures IsHexDigit("0123456789ABCDEF"[d] as int) && HexValue("0123456789ABCDEF"[d] as int) == d
  {
  }

  lemma LowerDigit(d: nat)
    requires d < 16
    ensures IsHexDigit("0123456789abcdef"[d] as int) && HexValue("0123456789abcdef"[d] as int) == d
  {
  }

  /** A number written with the digits of a base. */
  function Written(n: nat, digits: string): (r: seq<int>)
    requires |digits| >= 2
    ensures r != []
  {
    if n < |digits| then [digits[n] as int] else Written(n / |digits|, digits) + [digits[n % |digits|] as int]
  }

  lemma {:induction false} DecimalReads(n: nat)
    ensures forall i :: 0 <= i < |Written(n, DECIMAL)| ==> IsDigit(Written(n, DECIMAL)[i])
    ensures Horner(false, Written(n, DECIMAL)) == n
  {
    hide IsDigit, DigitValue;
    var r := Written(n, DECIMAL);
    DecimalDigit(n % 10);
    if n < 10 {
      assert r == [DECIMAL[n] as int] && r[..0] == [];
      assert Horner(false, []) == 0;
    } else {
      DecimalReads(n / 10);
      assert r[..|r| - 1] == Written(n / 10, DECIMAL);
    }
  }

  lemma {:induction false} HexReads(n: nat, digits: string)
    requires digits == UPPER || digits == LOWER
    ensures forall i :: 0 <= i < |Written(n, digits)| ==> IsHexDigit(Written(n, digits)[i])
    ensures Horner(true, Written(n, digits)) == n
  {
    hide IsHexDigit, HexValue;
    var r := Written(n, digits);
    if digits == UPPER { UpperDigit(n % 16); } else { LowerDigit(n % 16); }
    if n < 16 {
      assert r == [digits[n] as int] && r[..0] == [];
      assert Horner(true, []) == 0;
    } else {
      HexReads(n / 16, digits);
      assert r[..|r| - 1] == Written(n / 16, digits);
    }
  }

  // Numbers.

  /** The ways to write a number. */
  datatype Style = Plain | UpperHex | LowerHex

  function DigitsOf(style: Style): (r: string)
    ensures |r| >= 2
  {
    match style
    case Plain => DECIMAL
    case UpperHex => UPPER
    case LowerHex => LOWER
  }

  /** A number as it is typed: `$` before hexadecimal digits, `-` behind to negate, and the end for its size. */
  function Typed(n: nat, style: Style, minus: bool, size: Size): seq<int> {
    (if style == Plain then [] else ['$' as int]) + Written(n, DigitsOf(style)) +
    (if minus then ['-' as int] else []) +
    [match size case ByteSize => ',' as int case WordSize => '.' as int case LongSize => ':' as int]
  }

  /** One more than the greatest value of a size. */
  function Modulus(size: Size): nat {
    match size
    case ByteSize => 0x100
    case WordSize => 0x1_0000
    case LongSize => 0x1_0000_0000
  }

  /** The value of a number in a size, or its negative. */
  ghost predicate Stands(v: nat, n: nat, minus: bool, size: Size) {
    v < Modulus(size) && if minus then (v + n) % Modulus(size) == 0 else v == n % Modulus(size)
  }

  lemma KeptStands(n: nat, minus: bool, size: Size)
    ensures Stands(Kept(if minus then Negate(n) else n % 0x1_0000_0000, size), n, minus, size)
  {
    match size
    case ByteSize => Reduced(n, 0x100_0000, 0x100);
    case WordSize => Reduced(n, 0x1_0000, 0x1_0000);
    case LongSize => Reduced(n, 1, 0x1_0000_0000);
  }

  lemma Reduced(n: nat, k: nat, m: nat)
    requires (m == 0x100 && k == 0x100_0000) || (m == 0x1_0000 && k == 0x1_0000) || (m == 0x1_0000_0000 && k == 1)
    ensures n % 0x1_0000_0000 % m == n % m
    ensures (Negate(n) % m + n) % m == 0
  {
    var q, r := n / 0x1_0000_0000, n % 0x1_0000_0000;
    assert n == 0x1_0000_0000 * q + r;
    var a, b := r / m, r % m;
    var v := Negate(n);
    var p := if r == 0 then q else q + 1;
    assert v == 0x1_0000_0000 * p - n;
    if m == 0x100 {
      SameByte(n, q, a, b);
      SumByte(v, n, p);
    } else if m == 0x1_0000 {
      SameWord(n, q, a, b);
      SumWord(v, n, p);
    } else {
      SumLong(v, n, p);
    }
  }

  lemma SameByte(n: nat, q: nat, a: nat, b: nat)
    requires n == 0x1_0000_0000 * q + (0x100 * a + b) && b < 0x100
    ensures n % 0x100 == b
  {
    assert n == 0x100 * (0x100_0000 * q + a) + b;
  }

  lemma SameWord(n: nat, q: nat, a: nat, b: nat)
    requires n == 0x1_0000_0000 * q + (0x1_0000 * a + b) && b < 0x1_0000
    ensures n % 0x1_0000 == b
  {
    assert n == 0x1_0000 * (0x1_0000 * q + a) + b;
  }

  lemma SumByte(v: nat, n: nat, p: nat)
    requires v + n == 0x1_0000_0000 * p
    ensures (v % 0x100 + n) % 0x100 == 0
  {
    var c := v / 0x100;
    assert v % 0x100 + n == 0x100 * (0x100_0000 * p - c);
  }

  lemma SumWord(v: nat, n: nat, p: nat)
    requires v + n == 0x1_0000_0000 * p
    ensures (v % 0x1_0000 + n) % 0x1_0000 == 0
  {
    var c := v / 0x1_0000;
    assert v % 0x1_0000 + n == 0x1_0000 * (0x1_0000 * p - c);
  }

  lemma SumLong(v: nat, n: nat, p: nat)
    requires v + n == 0x1_0000_0000 * p
    ensures (v % 0x1_0000_0000 + n) % 0x1_0000_0000 == 0
  {
    var c := v / 0x1_0000_0000;
    assert v % 0x1_0000_0000 + n == 0x1_0000_0000 * (p - c);
  }

  /** A command letter that the parser knows and that has enough data. */
  ghost predicate Runnable(table: seq<Command>, code: int, bytes: nat) {
    && ' ' as int <= code < 0x80 && !IsSpecial(code)
    && Lookup(table, code, 0) < |table| && table[Lookup(table, code, 0)].bytes <= bytes
  }

  lemma NumberWellFormed(n: nat, style: Style, minus: bool, size: Size)
    ensures
      var a := Number(style != Plain, Written(n, DigitsOf(style)), minus, size, false);
      && WellFormed(a) && Chars(a) == Typed(n, style, minus, size)
      && ValueOf(a) == if minus then Negate(n) else n % 0x1_0000_0000
  {
    hide IsDigit, IsHexDigit, Horner;
    match style
    case Plain => DecimalReads(n);
    case UpperHex => HexReads(n, UPPER);
    case LowerHex => HexReads(n, LOWER);
  }

  lemma OneArgument(a: Arg, limit: nat)
    requires WellFormed(a) && Need(a) <= limit < 0x100
    ensures Line([a]) == Chars(a) && Layout([a], limit) == Some(Place(Memory([], []), limit, a))
    ensures RoomFor(Memory([], []), limit, a)
  {
    assert [a][..0] == [];
    assert Layout([], limit) == Some(Memory([], []));
    assert Line([]) == [];
    assert [] + Chars(a) == Chars(a);
  }

  /**
    A number typed at a fresh parser, in decimal or hexadecimal, with or without
    a minus, is what the reader of its size gets, modulo that size.
   */
  lemma TypedNumberReads(p: Parser, n: nat, style: Style, minus: bool, size: Size, code: int, table: seq<Command>)
    returns (q: Parser)
    requires p.Valid() && p == Reset(p) && Width(size) < p.Limit() && Runnable(table, code, Width(size))
    ensures Feeds(p, Typed(n, style, minus, size), table, q) && q.Valid() && Fits(q, code) && Poll(q, code, table).1.Ran?
    ensures
      var at := Poll(q, code, table).1.at;
      at.next + Width(size) <= at.Limit() && Stands(ReadNumber(at, size).0, n, minus, size)
  {
    hide Feeds, Poll, Written, Horner, Layout, Line, Chars, Typed, ReadArgs, ReadNumber, Meanings, LowBytes, Negate, Stands;
    var a := Number(style != Plain, Written(n, DigitsOf(style)), minus, size, false);
    NumberWellFormed(n, style, minus, size);
    OneArgument(a, p.Limit());
    q := LineRoundTrip(p, [a], code, table);
    var at := Poll(q, code, table).1.at;
    OneReader(at, a);
    KeptStands(n, minus, size);
  }

  /** What the readers get for one argument. */
  lemma OneReader(at: Parser, a: Arg)
    requires at.next + Steps([a]) <= at.Limit() && WellFormed(a)
    ensures Steps([a]) == Step(a)
    ensures ReadArgs(at, [a]).0 == ReadArg(at, a).0 && Meanings([a]) == Meaning(a)
  {
    hide ReadArg, Meaning;
    assert [a][..0] == [];
    assert Steps([]) == 0 && ReadArgs(at, []) == ([], at) && Meanings([]) == [];
    assert Meanings([a]) == [] + Meaning(a);
  }

  // Texts.

  /** A text typed between quotes is what the reader of strings gets. */
  lemma TypedTextReads(p: Parser, chars: seq<int>, code: int, table: seq<Command>) returns (q: Parser)
    requires p.Valid() && p == Reset(p) && |chars| + 2 < p.Limit() && Runnable(table, code, 1)
    requires forall i :: 0 <= i < |chars| ==> 0x20 <= chars[i] < 0x80 && chars[i] != '"' as int
    ensures Feeds(p, ['"' as int] + chars + ['"' as int], table, q) && q.Valid() && Fits(q, code) && Poll(q, code, table).1.Ran?
    ensures
      var at := Poll(q, code, table).1.at;
      at.next < at.Limit() && ReadString(at).0 == chars
  {
    hide Feeds, Poll, Layout, Line, ReadArgs, ReadString, Meanings;
    var a := Text(chars);
    OneArgument(a, p.Limit());
    q := LineRoundTrip(p, [a], code, table);
    OneReader(Poll(q, code, table).1.at, a);
  }

  // Starting afresh, and what is refused.

  /** Any control character, a line end for one, leaves a fresh parser, whatever was typed before. */
  lemma ControlStartsAfresh(p: Parser, ch: int, table: seq<Command>)
    requires p.Valid() && -0x80 <= ch < 0x20
    ensures
      var (q, o) := Poll(p, ch, table);
      o == Quiet && q.Valid() && q == Reset(q) && q.Limit() == p.Limit()
      && q.fill == q.next == 0 && q.top == q.Limit() && !q.instring && !q.hexmode && !q.hasvalue
  {
  }

  /** A character typed between arguments runs a command exactly if the command is known and has its data. */
  lemma RunsExactly(p: Parser, m: Memory, code: int, table: seq<Command>)
    requires Ready(p, m) && p.fill < p.top && 0x20 <= code < 0x80 && !IsSpecial(code)
    ensures
      var (q, o) := Poll(p, code, table);
      && (o.Ran? <==> exists i :: 0 <= i < |table| && table[i].code == code && table[i].bytes <= |m.low|
                        && forall j :: 0 <= j < i ==> table[j].code != code)
      && (!o.Ran? ==> o == Complained)
      && (!o.Ran? && (exists i :: 0 <= i < |table| && table[i].code == code) ==> q == Reset(p))
      && ((forall i :: 0 <= i < |table| ==> table[i].code != code) ==> q == p)
  {
    var k := Lookup(table, code, 0);
    if k < |table| {
      assert table[k].code == code;
    }
  }

  /** A command letter right behind a number without its end is refused, and the line is forgotten. */
  lemma UnendedNumberRefused(p: Parser, code: int, table: seq<Command>)
    requires p.Valid() && !p.instring && p.hasvalue && p.fill < p.top && 0x20 <= code < 0x80
    requires !IsSpecial(code) && !IsHexDigit(code)
    ensures Poll(p, code, table).1 == Complained && Poll(p, code, table).0 == Reset(p)
  {
  }
}
