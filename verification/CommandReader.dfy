/** The command parser itself, changing its buffer in place. */
module CommandReader {
  import opened Bytes
  import opened InputParser

  /** The bytes from `value` to `fill` moved up below `top`. */
  function Moved(p: Parser): (r: Parser)
    requires p.value < p.fill <= p.top <= p.Limit()
    ensures r.Limit() == p.Limit() && r.value == p.value == r.fill <= r.top < p.top
  {
    var top := p.top - (p.fill - p.value);
    p.(buffer := p.buffer[..top] + p.buffer[p.value..p.fill] + p.buffer[p.top..], fill := p.value, top := top)
  }

  lemma MovedByte(p: Parser, i: nat)
    requires p.value < p.fill <= p.top <= p.Limit() && i < p.Limit()
    ensures Moved(p).buffer[i] == p.buffer[if Moved(p).top <= i < p.top then i - (p.top - p.fill) else i]
    ensures Moved(p) == p.(buffer := Moved(p).buffer, fill := p.value, top := p.top - (p.fill - p.value))
  {
  }

  /** The closing quote stores a zero, moves the string and stores its offset. */
  lemma StringClosed(p: Parser)
    requires p.Valid() && p.instring && p.fill < p.top
    ensures
      var moved := Moved(Push(p, 0)).(instring := false);
      CloseString(p) == Push(moved, moved.top)
  {
    hide Push, Moved;
    var zero := Push(p, 0);
    PushBytes(p, 0);
    MovedTo(zero);
    assert zero.buffer[p.value..p.fill + 1] == p.buffer[p.value..p.fill] + [0];
    assert zero.buffer[p.top..] == p.buffer[p.top..];
    PushBytes(Moved(zero).(instring := false), Moved(zero).top);
  }

  lemma PushBytes(p: Parser, b: octet)
    requires p.fill < p.Limit()
    ensures Push(p, b) == p.(buffer := p.buffer[p.fill := b], fill := p.fill + 1)
  {
  }

  lemma MovedTo(p: Parser)
    requires p.value < p.fill <= p.top <= p.Limit()
    ensures
      var top := p.top - (p.fill - p.value);
      Moved(p) == p.(buffer := p.buffer[..top] + p.buffer[p.value..p.fill] + p.buffer[p.top..], fill := p.value, top := top)
  {
  }

  lemma PushChanges(p: Parser, b: octet)
    requires p.fill < p.Limit()
    ensures Push(p, b) == p.(buffer := Push(p, b).buffer, fill := p.fill + 1)
  {
  }

  class Reader {
    const buffer: array<octet>
    const table: seq<Command>
    var fill: nat
    var top: nat
    var next: nat
    var instring: bool
    var hexmode: bool
    var hasvalue: bool
    var value: nat

    ghost function State(): Parser
      reads this, buffer
    {
      Parser(buffer[..], fill, top, next, instring, hexmode, hasvalue, value)
    }

    constructor (size: nat, commands: seq<Command>)
      requires size < 0x100
      ensures State().Valid() && State() == InputParser.Reset(State()) && State().Limit() == size
      ensures table == commands && fresh(buffer)
    {
      buffer := new octet[size](_ => 0);
      table := commands;
      fill, next, top := 0, 0, size;
      instring, hexmode, hasvalue, value := false, false, false, 0;
    }

    method Reset()
      modifies this
      ensures State() == InputParser.Reset(old(State()))
    {
      fill, next := 0, 0;
      instring, hexmode, hasvalue := false, false, false;
      top := buffer.Length;
    }

    method Store(b: octet)
      requires fill < buffer.Length
      modifies `fill, buffer
      ensures State() == Push(old(State()), b)
    {
      buffer[fill] := b;
      fill := fill + 1;
    }

    method StoreWord()
      requires fill + 2 <= buffer.Length
      modifies `fill, buffer
      ensures State() == PushWord(old(State()))
    {
      Store(value % 0x100);
      Store(value / 0x100 % 0x100);
    }

    /** Moves the bytes from `value` to `fill` up below `top`, never over a byte not yet moved. */
    method MoveUp()
      requires value < fill <= top <= buffer.Length
      modifies `fill, `top, buffer
      ensures State() == Moved(old(State()))
    {
      hide Moved;
      ghost var p := State();
      ghost var goal, up := Moved(p).buffer, top - fill;
      MovedByte(p, 0);
      while true
        invariant value < fill && top - fill == up
        invariant forall i :: 0 <= i < buffer.Length ==> buffer[i] == if top <= i < p.top then goal[i] else p.buffer[i]
        decreases fill
      {
        top := top - 1;
        fill := fill - 1;
        MovedByte(p, top);
        buffer[top] := buffer[fill];
        if !(fill > value) { break; }
      }
      forall i | 0 <= i < buffer.Length ensures buffer[i] == goal[i] {
        MovedByte(p, i);
      }
      assert buffer[..] == goal;
    }

    /** The closing quote. */
    method EndString()
      requires State().Valid() && instring && fill < top
      modifies `fill, `top, `instring, buffer
      ensures State() == CloseString(old(State()))
    {
      hide Push, Moved, CloseString;
      StringClosed(State());
      PushChanges(State(), 0);
      Store(0);
      MoveUp();
      instring := false;
      Store(top);
    }

    method TakeCharacter(ch: int) returns (outcome: Outcome)
      requires State().Valid() && !instring && fill < top && Fits(State(), ch)
      modifies this, buffer
      ensures (State(), outcome) == TakeOther(old(State()), ch, table)
    {
      if ch == '$' as int {
        hexmode := true;
      } else if ch == QUOTE {
        instring := true;
        value := fill;
      } else if ch == ':' as int || ch == '.' as int {
        if ch == ':' as int {
          StoreWord();
          value := value / 0x1_0000;
        }
        StoreWord();
        hasvalue := false;
      } else if ch == '-' as int {
        value := Negate(value);
        hasvalue := false;
      } else if ch == ' ' as int && !hasvalue {
      } else if ch == ' ' as int || ch == ',' as int {
        Store(value % 0x100);
        hasvalue := false;
      } else if hasvalue {
        Reset();
        return Complained;
      } else {
        outcome := RunCommand(ch);
        return;
      }
      outcome := Quiet;
    }

    method RunCommand(ch: int) returns (outcome: Outcome)
      requires State().Valid() && fill < top
      modifies this, buffer
      ensures
        var p, i := old(State()), Lookup(table, ch, 0);
        (State(), outcome) ==
          if i == |table| then (p, Complained)
          else if p.fill < table[i].bytes then (InputParser.Reset(p), Complained)
          else (InputParser.Reset(Cleared(p)), Ran(ch, Cleared(p)))
    {
      for i := 0 to |table|
        invariant unchanged(this) && unchanged(buffer)
        invariant Lookup(table, ch, 0) == Lookup(table, ch, i)
      {
        if table[i].code == ch {
          if fill < table[i].bytes {
            outcome := Complained;
          } else {
            forall j | fill <= j < top {
              buffer[j] := 0;
            }
            assert buffer[..] == Cleared(old(State())).buffer;
            outcome := Ran(ch, Parser(buffer[..], fill, top, next, instring, hexmode, hasvalue, value));
          }
          Reset();
          return;
        }
      }
      outcome := Complained;
    }

    method Poll(ch: int) returns (outcome: Outcome)
      requires State().Valid() && -0x80 <= ch < 0x80 && Fits(State(), ch)
      modifies this, buffer
      ensures (State(), outcome) == InputParser.Poll(old(State()), ch, table) && State().Valid()
    {
      hide IsDigit, IsHexDigit, TakeOther, CloseString;
      outcome := Quiet;
      if ch < ' ' as int || fill >= top {
        Reset();
      } else if instring {
        if ch == QUOTE {
          EndString();
        } else {
          Store(ch);
        }
      } else if hexmode && IsHexDigit(ch) {
        if !hasvalue {
          value := 0;
        }
        value := (0x10 * value + HexValue(ch)) % WRAP32;
        hasvalue := true;
      } else if IsDigit(ch) {
        if !hasvalue {
          value := 0;
        }
        value := (10 * value + DigitValue(ch)) % WRAP32;
        hasvalue := true;
      } else {
        hexmode := false;
        outcome := TakeCharacter(ch);
      }
    }

    method GetNumber(size: Size) returns (n: nat)
      requires next + Width(size) <= buffer.Length
      modifies `next
      ensures (n, State()) == ReadNumber(old(State()), size)
    {
      n := FromLowBytes(buffer[next..next + Width(size)]);
      next := next + Width(size);
      assert buffer[..][old(next)..next] == buffer[old(next)..next];
    }

    method GetString() returns (s: seq<octet>)
      requires next < buffer.Length
      modifies `next
      ensures (s, State()) == ReadString(old(State()))
    {
      var offset := buffer[next];
      next := next + 1;
      s := if top <= offset < buffer.Length then CString(buffer[..], offset) else [];
    }
  }
}
