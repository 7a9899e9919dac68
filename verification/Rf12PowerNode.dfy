/** The watchdog variant of the driver, with its wakeup timer. */
module Rf12PowerNode {
  import opened Bytes
  import opened Crc16
  import opened Rf12Power
  import Rf12
  import Rf12Node

  const RF_WAKEUP_TIMER: bv16 := 0xE000

  // The wakeup timer: a time as an 8-bit mantissa and an exponent.

  function Pow2(r: nat): (p: nat)
    ensures p > 0
  {
    if r == 0 then 1 else 2 * Pow2(r - 1)
  }

  /** A time halved until it fits eight bits, and how often that took. */
  function Halved(m: nat): (r: (nat, nat))
    ensures r.0 <= 255 && (r.1 > 0 ==> r.0 >= 128) && (m > 0 ==> r.0 > 0)
  {
    if m <= 255 then (m, 0)
    else
      var (mantissa, r) := Halved(m / 2);
      (mantissa, r + 1)
  }

  /** The time programmed is the time asked for, rounded down to the mantissa. */
  lemma {:induction false} HalvedRounds(m: nat)
    ensures
      var (mantissa, r) := Halved(m);
      mantissa * Pow2(r) <= m < (mantissa + 1) * Pow2(r)
  {
    if m > 255 {
      HalvedRounds(m / 2);
      var (mantissa, r) := Halved(m / 2);
      hide Pow2;
      Doubled(mantissa, r);
      Doubled(mantissa + 1, r);
    }
  }

  lemma Doubled(a: nat, r: nat)
    ensures a * Pow2(r + 1) == 2 * (a * Pow2(r))
  {
    assert Pow2(r + 1) == 2 * Pow2(r);
  }

  /** It is short by less than 1/128 of itself. */
  lemma HalvedAccurate(m: nat)
    requires m > 0
    ensures
      var (mantissa, r) := Halved(m);
      128 * (m - mantissa * Pow2(r)) < m
  {
    HalvedRounds(m);
    var (mantissa, r) := Halved(m);
    if r > 0 {
      Scaled(mantissa, Pow2(r));
    }
  }

  lemma Scaled(a: nat, p: nat)
    requires a >= 128
    ensures (a + 1) * p == a * p + p && 128 * p <= a * p
  {
    assert a * p == 128 * p + (a - 128) * p;
  }

  lemma {:induction false} HalvedExponent(m: nat, k: nat)
    requires m < 256 * Pow2(k)
    ensures Halved(m).1 <= k
  {
    if m > 255 {
      HalvedExponent(m / 2, k - 1);
    }
  }

  /** A 32-bit time needs an exponent of at most 24. */
  lemma HalvedFits(m: nat)
    requires m < 0x1_0000_0000
    ensures Halved(m).1 <= 24
  {
    assert Pow2(4) == 16;
    assert Pow2(8) == 256 by { assert Pow2(6) == 64; }
    assert Pow2(12) == 4096 by { assert Pow2(10) == 1024; }
    assert Pow2(16) == 0x1_0000 by { assert Pow2(14) == 0x4000; }
    assert Pow2(20) == 0x10_0000 by { assert Pow2(18) == 0x4_0000; }
    assert Pow2(24) == 0x100_0000 by { assert Pow2(22) == 0x40_0000; }
    HalvedExponent(m, 24);
  }

  function TimerCommand(r: bv16, m: bv16): bv16 { RF_WAKEUP_TIMER | (r << 8) | m }

  function TimerWord(r: nat, m: nat): bv16
    requires r < 0x20 && m < 0x100
  {
    TimerCommand(r as bv16, m as bv16)
  }

  /** Prefix, exponent and mantissa do not overlap in the command. */
  lemma FieldsApart(r: bv16, m: bv16)
    requires r < 0x20 && m < 0x100
    ensures TimerCommand(r, m) & 0xFF == m
    ensures (TimerCommand(r, m) >> 8) & 0x1F == r
    ensures TimerCommand(r, m) & 0xE000 == RF_WAKEUP_TIMER
  {
  }

  /** The commands `rf12_setWatchdog` gives the radio. */
  function WatchdogCommands(rfmstate: bv16, m: nat): seq<bv16>
    requires m < 0x1_0000_0000
  {
    HalvedFits(m);
    var (mantissa, r) := Halved(m);
    (if WakeupSet(rfmstate) then [WakeupOff(rfmstate)] else []) +
    (if m > 0 then [TimerWord(r, mantissa), WakeupOn(WakeupOff(rfmstate))] else [])
  }

  /** The fields of a wakeup timer command as numbers. */
  lemma TimerWordReads(r: nat, m: nat)
    requires r < 0x20 && m < 0x100
    ensures TimerWord(r, m) & 0xE000 == 0xE000
    ensures (TimerWord(r, m) & 0xFF) as nat == m && ((TimerWord(r, m) >> 8) & 0x1F) as nat == r
  {
    hide TimerCommand;
    var rs, ms := r as bv16, m as bv16;
    SmallWord(r);
    SmallWord(m);
    FieldsApart(rs, ms);
    assert TimerWord(r, m) == TimerCommand(rs, ms);
  }

  lemma SmallWord(x: nat)
    requires x < 0x100
    ensures (x as bv16) as nat == x && x as bv16 < 0x100 && (x < 0x20 ==> x as bv16 < 0x20)
  {
    WordBack(x);
    ByteSized(x as bv16);
    FiveBits(x as bv16);
  }

  lemma WordBack(x: nat)
    requires x < 0x100
    ensures (x as bv16) as nat == x
  {
    hide Num;
    var b := ByteWithNum(x);
    Widened(b);
    WordOfNum(b as bv16);
  }

  lemma Widened(b: byte)
    ensures (b as bv16) as nat == Num(b)
  {
  }

  lemma WordOfNum(w: bv16)
    ensures (w as nat) as bv16 == w
  {
  }

  lemma ByteSized(w: bv16)
    requires w as nat < 0x100
    ensures w < 0x100
  {
  }

  lemma FiveBits(w: bv16)
    ensures w as nat < 0x20 ==> w < 0x20
  {
  }

  /** The word is a wakeup timer command whose mantissa and exponent give the time, rounded down. */
  ghost predicate SetsTime(w: bv16, m: nat) {
    var mantissa, p := (w & 0xFF) as nat, Pow2(((w >> 8) & 0x1F) as nat);
    w & 0xE000 == 0xE000 && mantissa * p <= m < (mantissa + 1) * p && 128 * (m - mantissa * p) < m
  }

  lemma TimerWordSetsTime(m: nat)
    requires 0 < m < 0x1_0000_0000
    ensures Halved(m).1 <= 24 && SetsTime(TimerWord(Halved(m).1, Halved(m).0), m)
  {
    hide TimerWord, Pow2, Halved, SetsTime;
    HalvedFits(m);
    HalvedRounds(m);
    HalvedAccurate(m);
    TimerWordReads(Halved(m).1, Halved(m).0);
    FieldsSetTime(TimerWord(Halved(m).1, Halved(m).0), Halved(m).1, Halved(m).0, m);
  }

  lemma FieldsSetTime(w: bv16, r: nat, mantissa: nat, m: nat)
    requires w & 0xE000 == 0xE000 && (w & 0xFF) as nat == mantissa && ((w >> 8) & 0x1F) as nat == r
    requires mantissa * Pow2(r) <= m < (mantissa + 1) * Pow2(r) && 128 * (m - mantissa * Pow2(r)) < m
    ensures SetsTime(w, m)
  {
    hide Pow2;
  }

  /** For a time asked for, the last command but one sets the wakeup timer to it, and the last turns the timer on. */
  lemma WatchdogSetsTime(rfmstate: bv16, m: nat)
    requires 0 < m < 0x1_0000_0000
    ensures
      var c := WatchdogCommands(rfmstate, m);
      && 2 <= |c| <= 3 && (|c| == 3 ==> rfmstate & 0x02 != 0 && c[0] == rfmstate & !0x02)
      && SetsTime(c[|c| - 2], m) && c[|c| - 1] == rfmstate | 0x02
  {
    hide TimerWord, Halved, SetsTime;
    TimerWordSetsTime(m);
    OnAfterOff(rfmstate);
  }

  /** With no time asked for the only command turns a running timer off. */
  lemma WatchdogStops(rfmstate: bv16)
    ensures WatchdogCommands(rfmstate, 0) == if rfmstate & 0x02 != 0 then [rfmstate & !0x02] else []
  {
  }

  lemma OnAfterOff(x: bv16)
    ensures WakeupOn(WakeupOff(x)) == x | 0x02
  {
  }

  class PowerNode {
    const shared: Rf12Node.Node  // packet buffer, checksum and cipher, as in the plain driver
    var rxstate: int
    var fixedLength: nat
    var rfmstate: bv16
    var gotwakeup: bool
    var commands: seq<bv16>      // what the wakeup timer code sent to the radio

    ghost function State(): Power
      reads this, shared, shared.buf
    {
      Power(shared.nodeid, shared.group, shared.rxfill, rxstate, shared.crc, shared.buf[..], shared.sequence,
            shared.seqNum, shared.key, shared.crypt, fixedLength, rfmstate, gotwakeup)
    }

    constructor (id: byte, g: byte)
      ensures fresh(shared) && fresh(shared.buf) && shared.nodeid == id && shared.group == g
      ensures State().HalfDuplex() && rxstate == TXIDLE && fixedLength == 0
    {
      shared := new Rf12Node.Node(id, g);
      rxstate, gotwakeup, commands := TXIDLE, false, [];
      fixedLength, rfmstate := 0, 0x8205;
    }

    method GoIdle()
      modifies `rfmstate
      ensures State() == Idle(old(State()))
    {
      rfmstate := IdleBits(rfmstate);
    }

    method SetWatchdog(m: nat)
      requires m < 0x1_0000_0000
      modifies `rfmstate, `commands
      ensures State() == if m > 0 then old(State()).(rfmstate := WakeupOn(WakeupOff(old(rfmstate)))) else ClearWatchdog(old(State()))
      ensures WakeupSet(rfmstate) <==> m > 0
      ensures commands == old(commands) + WatchdogCommands(old(rfmstate), m)
    {
      hide TimerWord, WakeupOn, WakeupOff, WakeupSet;
      var r, t := 0, m;
      while t > 255
        invariant Halved(m) == (Halved(t).0, Halved(t).1 + r)
        invariant t == 0 <==> m == 0
      {
        r := r + 1;
        t := t / 2;
      }
      HalvedFits(m);
      DisableWakeup();
      if t > 0 {
        commands := commands + [TimerWord(r, t)];
        EnableWakeup();
      }
    }

    method DisableWakeup()
      modifies `rfmstate, `commands
      ensures State() == ClearWatchdog(old(State())) && !WakeupSet(rfmstate)
      ensures commands == old(commands) + if WakeupSet(old(rfmstate)) then [WakeupOff(old(rfmstate))] else []
    {
      hide WakeupOff, WakeupSet;
      WakeupBit(rfmstate);
      if WakeupSet(rfmstate) {
        rfmstate := WakeupOff(rfmstate);
        commands := commands + [rfmstate];
      }
    }

    method EnableWakeup()
      modifies `rfmstate, `commands
      ensures State() == old(State()).(rfmstate := WakeupOn(old(rfmstate))) && WakeupSet(rfmstate)
      ensures commands == old(commands) + [rfmstate]
    {
      hide WakeupOn, WakeupSet;
      WakeupBit(rfmstate);
      rfmstate := WakeupOn(rfmstate);
      commands := commands + [rfmstate];
    }

    method StoreByte(in_: byte)
      requires State().Sane() && shared.rxfill < Rf12.RF_MAX
      modifies this, shared, shared.buf
      ensures State() == TakeByte(old(State()), in_)
    {
      hide Num, Stored, IdleBits;
      PutByte(in_);
      if fixedLength > 0 {
        if shared.rxfill >= fixedLength || shared.rxfill >= Rf12.RF_MAX { GoIdle(); }
      } else if shared.rxfill >= Num(shared.buf[2]) + 5 || shared.rxfill >= Rf12.RF_MAX {
        GoIdle();
      }
    }

    method PutByte(in_: byte)
      requires State().Sane() && shared.rxfill < Rf12.RF_MAX
      modifies shared, shared.buf
      ensures State() == Stored(old(State()), in_)
    {
      hide Num, Update;
      if shared.rxfill == 0 && shared.group != 0 {
        shared.buf[shared.rxfill] := shared.group;
        shared.rxfill := shared.rxfill + 1;
      }
      shared.buf[shared.rxfill] := in_;
      shared.rxfill := shared.rxfill + 1;
      shared.crc := Update(shared.crc, in_);
    }

    method FeedByte() returns (out: byte)
      requires State().Sane()
      modifies this, shared
      ensures (State(), out) == GiveByte(old(State()))
    {
      hide Num, Update, Low, High, IdleBits;
      if rxstate < 0 {
        var pos := 3 + Num(shared.buf[2]) + rxstate;
        rxstate := rxstate + 1;
        out := shared.buf[pos];
        shared.crc := Update(shared.crc, out);
      } else {
        var state := rxstate;
        rxstate := rxstate + 1;
        out := 0xAA;
        if state == TXSYN1 {
          out := 0x2D;
        } else if state == TXSYN2 {
          out := shared.group;
          rxstate := -(2 + Num(shared.buf[2]));
        } else if state == TXCRC1 {
          out := Low(shared.crc);
        } else if state == TXCRC2 {
          out := High(shared.crc);
        } else if state == TXDONE {
          GoIdle();
        }
      }
    }

    method Interrupt(st: Status, in_: byte) returns (out: byte)
      requires State().Sane() && Possible(State(), Interrupted(st, in_)) && Inside(State(), Interrupted(st, in_))
      modifies this, shared, shared.buf
      ensures (State(), out) == Rf12Power.Interrupt(old(State()), st, in_)
      ensures old(State()).HalfDuplex() ==> (State().HalfDuplex() <==> !Clash(old(State()), Interrupted(st, in_)))
    {
      hide Num, Receives, Transmits, TakeByte, GiveByte, LaterBits;
      if State().HalfDuplex() {
        InterruptKeepsExactly(State(), st, in_);
      }
      out := 0;
      if st.fifo {
        if rxstate == TXRECV {
          StoreByte(in_);
        } else {
          out := FeedByte();
        }
      }
      HandleLaterBits(st);
    }

    /** The end of the interrupt: power-on reset, wakeup, overflow. */
    method HandleLaterBits(st: Status)
      modifies this
      ensures State() == LaterBits(old(State()), st)
    {
      hide IdleBits, WakeupOn, WakeupOff;
      if st.por {
        rxstate := POR_RECEIVED;
      }
      if st.wdg {
        SetWatchdog(0);
        gotwakeup := true;
      }
      if st.ovf {
        GoIdle();
        rxstate := TXIDLE;
      }
    }

    method StartReception()
      requires shared.buf.Length == Rf12.MEM
      modifies this, shared, shared.buf
      ensures State() == RecvStart(old(State()))
    {
      hide Num, Update, ReceiveBits;
      shared.rxfill, shared.buf[2] := 0, 0;
      shared.crc := START;
      if shared.group != 0 {
        shared.crc := Update(START, shared.group);
      }
      rxstate := TXRECV;
      rfmstate := ReceiveBits(rfmstate);
    }

    /** `crypter(0)`, if there is one and the checksum is good. */
    method Decrypt()
      requires shared.buf.Length == Rf12.MEM && Num(shared.buf[2]) <= Rf12.MAXDATA && shared.crc == 0
      modifies shared, shared.buf
      ensures State() == old(State()).WithShared(Rf12.Decrypt(old(State()).Shared()))
    {
      hide Num, Rf12.Decrypt, Rf12.Encrypt;
      CryptShared(State(), shared.State());
      shared.CryptFun(false);
    }

    /** `crypter(1)`, if there is one. */
    method Encrypt()
      requires shared.buf.Length == Rf12.MEM && Num(shared.buf[2]) <= Rf12.MAXDATA
      modifies shared, shared.buf
      ensures State() == Encrypted(old(State()))
    {
      hide Num, Rf12.Encrypt, Rf12.Decrypt;
      if shared.crypt {
        CryptShared(State(), shared.State());
        shared.CryptFun(true);
      }
    }

    /** The end of a packet of variable length. */
    method TakePacket() returns (done: bool)
      requires shared.buf.Length == Rf12.MEM
      modifies this, shared, shared.buf
      ensures (done, State()) == Rf12Power.TakePacket(old(State()))
    {
      hide Num, Rf12.Accepts, Rf12.Decrypt, RecvStart;
      rxstate := TXIDLE;
      if Num(shared.buf[2]) > Rf12.MAXDATA {
        shared.crc := 1;
      }
      if Rf12.Accepts(shared.nodeid, shared.buf[1]) {
        if shared.crc == 0 && shared.crypt {
          Decrypt();
        } else {
          shared.sequence := -1;
        }
        return true;
      }
      StartReception();
      done := false;
    }

    method RecvDone() returns (done: bool)
      requires shared.buf.Length == Rf12.MEM
      modifies this, shared, shared.buf
      ensures (done, State()) == Rf12Power.RecvDone(old(State()))
      ensures old(State()).HalfDuplex() ==> State().HalfDuplex()
    {
      hide Num, Receives, Transmits, RecvStart, Rf12Power.TakePacket;
      if State().HalfDuplex() {
        RecvDoneKeeps(State());
      }
      if rxstate == TXRECV {
        if fixedLength > 0 {
          if shared.rxfill >= fixedLength || shared.rxfill >= Rf12.RF_MAX {
            rxstate := TXIDLE;
            shared.crc := 1;
            return true;
          }
        } else if shared.rxfill >= Num(shared.buf[2]) + 5 || shared.rxfill >= Rf12.RF_MAX {
          done := TakePacket();
          return;
        }
      }
      if rxstate == TXIDLE {
        StartReception();
      }
      done := false;
    }

    method CanSend() returns (free: bool)
      modifies this
      ensures (free, State()) == Rf12Power.CanSend(old(State()))
    {
      if rxstate == TXRECV && shared.rxfill == 0 {
        GoIdle();
        rxstate := TXIDLE;
        return true;
      }
      free := false;
    }

    method SendStart(hdr: byte)
      requires shared.buf.Length == Rf12.MEM && Num(shared.buf[2]) <= Rf12.MAXDATA
      modifies this, shared, shared.buf
      ensures State() == Rf12Power.SendStart(old(State()), hdr)
    {
      hide Num, Update, Encrypted, TransmitBits, Rf12.Header;
      shared.buf[1] := Rf12.Header(hdr, shared.nodeid);
      Encrypt();
      shared.crc := START;
      shared.crc := Update(shared.crc, shared.group);
      rxstate := TXPRE1;
      rfmstate := TransmitBits(rfmstate);
    }

    method SendData(hdr: byte, data: seq<byte>)
      requires shared.buf.Length == Rf12.MEM && |data| <= Rf12.MAXDATA
      modifies this, shared, shared.buf
      ensures State() == Rf12Power.SendData(old(State()), hdr, data)
    {
      hide Num, Byte, Rf12Power.SendStart;
      NumOfByte(|data|);
      shared.buf[2] := Byte(|data|);
      forall i | 0 <= i < |data| {
        shared.buf[3 + i] := data[i];
      }
      assert shared.buf[..] == LoadData(old(State()), data).buf;
      SendStart(hdr);
    }

    method SetFixedLength(len: byte)
      modifies `fixedLength
      ensures State() == Rf12Power.SetFixedLength(old(State()), len)
    {
      fixedLength := Num(len);
      if len > 0 {
        fixedLength := (fixedLength + 1) % 0x100;
      }
    }

    method Sleep(off: bool)
      modifies `rfmstate, `rxstate
      ensures State() == Rf12Power.Sleep(old(State()), off)
    {
      if off {
        rfmstate := SleepBits(rfmstate);
      } else {
        GoIdle();
      }
      rxstate := TXIDLE;
    }
  }
}
