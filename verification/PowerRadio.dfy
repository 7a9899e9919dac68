/** What the watchdog variant does with the radio: the bits of its power register, and receptions of a fixed length. */
module PowerRadio {
  import opened Bytes
  import opened Crc16
  import opened Rf12Power
  import Rf12

  // The power register bit by bit.

  /**
    With the receiver on so are baseband, synthesizer and crystal, with the
    transmitter on so are synthesizer and crystal, and with both off all of
    them but the crystal are off.
   */
  predicate Powered(x: bv16) {
    && (x & 0x80 != 0 ==> x & 0xD8 == 0xD8)
    && (x & 0x20 != 0 ==> x & 0x38 == 0x38)
    && (x & 0xA0 == 0 ==> x & 0xF0 == 0)
  }

  /** The wakeup timer's bit. */
  predicate TimerOn(x: bv16) { x & 0x02 != 0 }

  /** The bits that a change of mode leaves alone. */
  predicate SameRest(x: bv16, y: bv16) { x & 0xFF05 == y & 0xFF05 }

  /** What each change of mode does to the bits above the wakeup bit, and that it does nothing else. */
  lemma ModesInBits(x: bv16)
    ensures ReceiveBits(x) & 0xD8 == 0xD8 && ReceiveBits(x) & 0xFF27 == x & 0xFF27
    ensures TransmitBits(x) & 0x38 == 0x38 && TransmitBits(x) & 0xFFC7 == x & 0xFFC7
    ensures IdleBits(x) & 0xF8 == 0x08 && IdleBits(x) & 0xFF07 == x & 0xFF07
    ensures SleepBits(x) & 0xF8 == 0x00 && SleepBits(x) & 0xFF07 == x & 0xFF07
  {
    hide *;
    ReceiveInBits(x);
    TransmitInBits(x);
    OffInBits(x);
  }

  lemma ReceiveInBits(x: bv16)
    ensures ReceiveBits(x) & 0xD8 == 0xD8 && ReceiveBits(x) & 0xFF27 == x & 0xFF27
  {
  }

  lemma TransmitInBits(x: bv16)
    ensures TransmitBits(x) & 0x38 == 0x38 && TransmitBits(x) & 0xFFC7 == x & 0xFFC7
  {
  }

  lemma OffInBits(x: bv16)
    ensures IdleBits(x) & 0xF8 == 0x08 && IdleBits(x) & 0xFF07 == x & 0xFF07
    ensures SleepBits(x) & 0xF8 == 0x00 && SleepBits(x) & 0xFF07 == x & 0xFF07
  {
  }

  lemma WakeupOnChange(x: bv16)
    ensures WakeupOn(x) == x | 0x02
  {
  }

  lemma WakeupOffChange(x: bv16)
    ensures WakeupOff(x) == x & !0x02
  {
  }

  /** A change from `x` to `y` of power bits that stay consistent, and of the wakeup bit unless it is kept. */
  predicate Moves(x: bv16, y: bv16, keep: bool) {
    && SameRest(x, y) && (Powered(x) ==> Powered(y)) && (TimerOn(y) <==> keep && TimerOn(x))
  }

  lemma MovesOff(x: bv16)
    ensures Moves(x, x, true) && Moves(x, IdleBits(x), true)
  {
  }

  lemma MovesSleep(x: bv16)
    ensures Moves(x, SleepBits(x), true)
  {
  }

  lemma MovesReceive(x: bv16)
    ensures Moves(x, ReceiveBits(x), true)
  {
  }

  lemma MovesTransmit(x: bv16)
    ensures Moves(x, TransmitBits(x), true)
  {
  }

  lemma MovesWakeup(x: bv16)
    ensures Moves(x, WakeupOff(x), false)
  {
    hide WakeupOff;
    WakeupOffChange(x);
    WakeupOffMoves(x, x & !0x02);
  }

  lemma WakeupOffMoves(x: bv16, y: bv16)
    requires y == x & !0x02
    ensures Moves(x, y, false)
  {
  }

  lemma WakeupOnMoves(x: bv16, y: bv16)
    requires y == x | 0x02
    ensures SameRest(x, y) && (Powered(x) ==> Powered(y)) && TimerOn(y)
  {
  }

  lemma MovesThen(x: bv16, y: bv16, z: bv16, a: bool, b: bool)
    requires Moves(x, y, a) && Moves(y, z, b)
    ensures Moves(x, z, a && b)
  {
    hide Powered, TimerOn;
  }

  lemma FifoMoves(s: Power, in_: byte)
    requires s.Sane() && (s.rxstate == TXRECV ==> s.rxfill < Rf12.RF_MAX)
    ensures
      var t := Fifo(s, in_).0;
      Moves(s.rfmstate, t.rfmstate, true) && t.gotwakeup == s.gotwakeup
  {
    hide Num, Update, Stored, NextByte, NextCrc, IdleBits, Moves;
    MovesOff(s.rfmstate);
    if s.rxstate == TXRECV { StoredChanges(s, in_); }
  }

  lemma LaterBitsMove(s: Power, st: Status)
    ensures
      var t := LaterBits(s, st);
      Moves(s.rfmstate, t.rfmstate, !st.wdg) && (t.gotwakeup <==> s.gotwakeup || st.wdg)
  {
    hide IdleBits, WakeupOff, Moves;
    var x := s.rfmstate;
    var y := if st.wdg then WakeupOff(x) else x;
    MovesOff(x);
    MovesWakeup(x);
    MovesOff(y);
    MovesThen(x, y, IdleBits(y), !st.wdg, true);
  }

  lemma InterruptMoves(s: Power, st: Status, in_: byte)
    requires s.Sane() && (st.fifo && s.rxstate == TXRECV ==> s.rxfill < Rf12.RF_MAX)
    ensures
      var t := Interrupt(s, st, in_).0;
      Moves(s.rfmstate, t.rfmstate, !st.wdg) && (t.gotwakeup <==> s.gotwakeup || st.wdg)
  {
    hide Fifo, LaterBits, Moves;
    MovesOff(s.rfmstate);
    if st.fifo { FifoMoves(s, in_); }
    var a := if st.fifo then Fifo(s, in_).0 else s;
    LaterBitsMove(a, st);
    MovesThen(s.rfmstate, a.rfmstate, LaterBits(a, st).rfmstate, true, !st.wdg);
  }

  lemma TakePacketMoves(s: Power)
    requires |s.buf| == Rf12.MEM
    ensures |TakePacket(s).1.buf| == Rf12.MEM
    ensures Moves(s.rfmstate, TakePacket(s).1.rfmstate, true) && TakePacket(s).1.gotwakeup == s.gotwakeup
  {
    hide Num, Update, ReceiveBits, Rf12.Accepts, Rf12.Decrypt, Moves;
    MovesOff(s.rfmstate);
    MovesReceive(s.rfmstate);
  }

  lemma RecvDoneMoves(s: Power)
    requires |s.buf| == Rf12.MEM
    ensures |RecvDone(s).1.buf| == Rf12.MEM
    ensures Moves(s.rfmstate, RecvDone(s).1.rfmstate, true) && RecvDone(s).1.gotwakeup == s.gotwakeup
  {
    hide Num, Update, ReceiveBits, TakePacket, Moves;
    MovesOff(s.rfmstate);
    MovesReceive(s.rfmstate);
    if s.rxstate == TXRECV && s.Full() { TakePacketMoves(s); }
  }

  lemma CanSendMoves(s: Power)
    ensures CanSend(s).1.buf == s.buf
    ensures Moves(s.rfmstate, CanSend(s).1.rfmstate, true) && CanSend(s).1.gotwakeup == s.gotwakeup
  {
    hide IdleBits, Moves;
    MovesOff(s.rfmstate);
  }

  lemma ThenMoves(r: (bool, Power), send: Option<Send>)
    requires |r.1.buf| == Rf12.MEM && (send.Some? ==> |send.value.data| <= Rf12.MAXDATA)
    ensures Moves(r.1.rfmstate, Then(r, send).rfmstate, true) && Then(r, send).gotwakeup == r.1.gotwakeup
  {
    hide Num, TransmitBits, SendStart, LoadData, Moves;
    MovesOff(r.1.rfmstate);
    MovesTransmit(r.1.rfmstate);
  }

  lemma AskedMove(s: Power, r: (bool, Power), send: Option<Send>)
    requires |r.1.buf| == Rf12.MEM && (send.Some? ==> |send.value.data| <= Rf12.MAXDATA)
    requires Moves(s.rfmstate, r.1.rfmstate, true) && r.1.gotwakeup == s.gotwakeup
    ensures Moves(s.rfmstate, Then(r, send).rfmstate, true) && Then(r, send).gotwakeup == s.gotwakeup
  {
    hide Then, Moves;
    ThenMoves(r, send);
    MovesThen(s.rfmstate, r.1.rfmstate, Then(r, send).rfmstate, true, true);
  }

  /** The event stops the wakeup timer. */
  predicate StopsWakeup(e: Event) { (e.Interrupted? && e.st.wdg) || (e.Watchdog? && !e.on) }

  lemma EventMoves(s: Power, e: Event)
    requires s.Sane() && Possible(s, e) && Inside(s, e) && !e.Restored? && !(e.Watchdog? && e.on)
    ensures
      var t := Apply(s, e);
      Moves(s.rfmstate, t.rfmstate, !StopsWakeup(e)) && (t.gotwakeup <==> s.gotwakeup || (e.Interrupted? && e.st.wdg))
  {
    hide Num, Interrupt, RecvDone, CanSend, Then, IdleBits, SleepBits, WakeupOff, Moves;
    MovesOff(s.rfmstate);
    MovesSleep(s.rfmstate);
    MovesWakeup(s.rfmstate);
    match e
    case Interrupted(st, in_) => InterruptMoves(s, st, in_);
    case AskedDone(reply) =>
      RecvDoneMoves(s);
      AskedMove(s, RecvDone(s), reply);
    case AskedSend(request) =>
      CanSendMoves(s);
      AskedMove(s, CanSend(s), request);
    case _ =>
  }

  /**
    Every event keeps the power bits consistent and leaves the other bits
    alone, except that restoring sets all. The wakeup timer is stopped by its
    own interrupt, which alone says that it went off.
   */
  lemma EventPower(s: Power, e: Event)
    requires s.Sane() && Possible(s, e) && Inside(s, e)
    ensures
      var x, t := s.rfmstate, Apply(s, e);
      && (if e.Restored? then t.rfmstate == 0x8205 else SameRest(x, t.rfmstate))
      && (Powered(x) || e.Restored? ==> Powered(t.rfmstate))
      && (TimerOn(t.rfmstate) <==> (e.Watchdog? && e.on) || (TimerOn(x) && !StopsWakeup(e) && !e.Restored?))
      && (t.gotwakeup <==> s.gotwakeup || (e.Interrupted? && e.st.wdg))
  {
    hide Powered, SameRest, TimerOn;
    if e.Restored? {
      RestoredPower();
    } else if e.Watchdog? && e.on {
      TurnedOnMoves(s, e);
    } else {
      hide Apply;
      EventMoves(s, e);
    }
  }

  lemma TurnedOnMoves(s: Power, e: Event)
    requires s.Sane() && e == Watchdog(true)
    ensures
      var x, t := s.rfmstate, Apply(s, e);
      SameRest(x, t.rfmstate) && (Powered(x) ==> Powered(t.rfmstate)) && TimerOn(t.rfmstate) && t.gotwakeup == s.gotwakeup
  {
    hide Powered, SameRest, TimerOn, WakeupOn;
    WakeupOnChange(s.rfmstate);
    WakeupOnMoves(s.rfmstate, WakeupOn(s.rfmstate));
  }

  lemma RestoredPower()
    ensures Powered(0x8205) && !TimerOn(0x8205)
  {
  }

  /** Sent to sleep the radio has all of this off; woken up its crystal runs and nothing else. */
  lemma SleepInBits(s: Power, off: bool)
    ensures
      var t := Sleep(s, off);
      t.rfmstate & 0xF8 == (if off then 0x00 else 0x08) && t.rxstate == 4 && t == s.(rfmstate := t.rfmstate, rxstate := t.rxstate)
  {
    hide SleepBits, IdleBits;
    OffInBits(s.rfmstate);
  }

  /** The half-duplex invariant in the bits of the register. */
  lemma InStepInBits(s: Power)
    requires s.HalfDuplex()
    ensures
      var receiver, transmitter := s.rfmstate & 0x80 != 0, s.rfmstate & 0x20 != 0;
      var want := if s.fixedLength > 0 then s.fixedLength else Num(s.buf[2]) + 5;
      && !(receiver && transmitter)
      && (s.rxstate == 4 ==> !receiver && !transmitter)
      && (s.rxstate < 4 || s.rxstate > 7 ==> transmitter)
      && (s.rxstate == 7 ==> !transmitter && (receiver <==> s.rxfill < 71 && s.rxfill < want))
  {
    hide Num;
  }

  // Receptions of a fixed length.

  /** Bytes that come in during a reception: they are taken while the receiver is on. */
  function Listen(s: Power, bytes: seq<byte>): (r: Power)
    requires s.HalfDuplex() && s.rxstate == TXRECV
    ensures r.HalfDuplex() && r.rxstate == TXRECV
    decreases |bytes|
  {
    if bytes == [] || !s.ReceiverOn() then s
    else
      TakeByteKeeps(s, bytes[0]);
      Listen(TakeByte(s, bytes[0]), bytes[1..])
  }

  /** The bytes that a reception of a set length takes, besides the group byte it puts in the buffer itself. */
  function WantFixed(s: Power): int {
    var all := if s.fixedLength < Rf12.RF_MAX then s.fixedLength else Rf12.RF_MAX;
    if s.group != 0 then all - 1 else all
  }

  /** The reception in progress has got exactly these bytes. */
  ghost predicate Got(s: Power, bytes: seq<byte>) {
    var first := if s.group != 0 then 1 else 0;
    && |s.buf| == Rf12.MEM
    && (bytes == [] ==> s.rxfill == 0)
    && (bytes != [] ==>
          && s.rxfill == first + |bytes| <= Rf12.RF_MAX && s.buf[first..first + |bytes|] == bytes
          && (first == 1 ==> s.buf[0] == s.group))
  }

  function Cut(bytes: seq<byte>, n: nat): seq<byte> { if |bytes| <= n then bytes else bytes[..n] }

  lemma GotNext(s: Power, bytes: seq<byte>, b: byte)
    requires Got(s, bytes) && s.rxfill < Rf12.RF_MAX
    ensures Got(Stored(s, b), bytes + [b])
  {
    hide Update;
  }

  lemma TakenNext(s: Power, bytes: seq<byte>, b: byte)
    requires Got(s, bytes) && s.rxfill < Rf12.RF_MAX
    ensures
      var t := TakeByte(s, b);
      Got(t, bytes + [b]) && t.fixedLength == s.fixedLength && t.group == s.group
  {
    hide Stored, IdleBits;
    GotNext(s, bytes, b);
    StoredChanges(s, b);
  }

  lemma {:induction false} ListenFixed(s: Power, bytes: seq<byte>, more: seq<byte>)
    requires s.HalfDuplex() && s.rxstate == TXRECV && s.fixedLength > 1
    requires Got(s, bytes) && |bytes| <= WantFixed(s)
    ensures
      var t := Listen(s, more);
      Got(t, Cut(bytes + more, WantFixed(s))) && t.fixedLength == s.fixedLength && t.group == s.group
    decreases |more|
  {
    hide TakeByte, Receives, Transmits, Num;
    if more == [] {
      assert bytes + more == bytes;
    } else if s.ReceiverOn() {
      TakeByteKeeps(s, more[0]);
      TakenNext(s, bytes, more[0]);
      assert bytes + [more[0]] + more[1..] == bytes + more;
      ListenFixed(TakeByte(s, more[0]), bytes + [more[0]], more[1..]);
    } else {
      assert Cut(bytes + more, WantFixed(s)) == bytes;
    }
  }

  /**
    The first `want` of these bytes were taken; with them complete the receiver
    is off and the packet is reported as it came in, with a bad checksum.
   */
  ghost predicate Took(u: Power, bytes: seq<byte>, want: int) {
    var first, n := if u.group != 0 then 1 else 0, if |bytes| < want then |bytes| else want;
    && |u.buf| == Rf12.MEM && 0 <= n && first + n <= 71
    && u.buf[first..first + n] == bytes[..n]
    && (u.ReceiverOn() <==> |bytes| < want)
    && RecvDone(u) == if |bytes| < want then (false, u) else (true, u.(rxstate := TXIDLE, crc := 1))
  }

  /**
    A reception of length `len` takes that many bytes behind the group byte, at
    most 70, or one more than `len`, at most 71, if no group is set.
   */
  lemma FixedReception(s: Power, len: byte, bytes: seq<byte>)
    requires s.HalfDuplex() && s.rxstate == TXIDLE && 0 < Num(len) < 255
    ensures
      var t := RecvDone(SetFixedLength(s, len)).1;
      && t.HalfDuplex() && t.rxstate == TXRECV
      && Took(Listen(t, bytes), bytes,
              if s.group != 0 then (if Num(len) < 70 then Num(len) else 70)
              else (if Num(len) < 70 then Num(len) + 1 else 71))
  {
    hide Num, Receives, Transmits, Listen, Got, Took;
    FixedStart(s, len);
    var t := RecvDone(SetFixedLength(s, len)).1;
    hide RecvDone, SetFixedLength;
    ListenFixed(t, [], bytes);
    assert [] + bytes == bytes;
    FixedFull(Listen(t, bytes), bytes, WantFixed(t));
  }

  lemma FixedStart(s: Power, len: byte)
    requires s.HalfDuplex() && s.rxstate == TXIDLE && 0 < Num(len) < 255
    ensures
      var t := RecvDone(SetFixedLength(s, len)).1;
      && t.HalfDuplex() && t.rxstate == TXRECV && Got(t, [])
      && t.fixedLength == Num(len) + 1 && t.group == s.group
  {
    hide Num, Update, Receives, Transmits, ReceiveBits, SetFixedLength;
    Bits(s.rfmstate);
    FixedOff(s, len);
  }

  lemma FixedFull(u: Power, bytes: seq<byte>, want: int)
    requires u.HalfDuplex() && u.rxstate == TXRECV && u.fixedLength > 1
    requires want == WantFixed(u) && Got(u, Cut(bytes, want))
    ensures Took(u, bytes, want)
  {
    hide Num, Receives, Transmits;
  }

  /** A length of 0 or 255 turns fixed lengths off. */
  lemma FixedOff(s: Power, len: byte)
    ensures SetFixedLength(s, len) == s.(fixedLength := if 0 < Num(len) < 255 then Num(len) + 1 else 0)
  {
    if Num(len) == 0 { assert len == 0; }
  }
}
