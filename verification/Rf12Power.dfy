/**
  The watchdog variant of the driver (RF12mods.cpp), which keeps a shadow of the
  radio's power register: as functions from its variables to its variables.
 */
module Rf12Power {
  import opened Bytes
  import opened Crc16
  import Xxtea
  import Rf12

  // Bits of the power register.
  const RECEIVER: bv16 := 0x80
  const TRANSMITTER: bv16 := 0x20
  const WAKEUP: bv16 := 0x02

  // The transceiver states of this variant.
  const TXCRC1 := 0
  const TXCRC2 := 1
  const TXTAIL := 2
  const TXDONE := 3
  const TXIDLE := 4
  const UNINITIALIZED := 5
  const POR_RECEIVED := 6
  const TXRECV := 7
  const TXPRE1 := 8
  const TXPRE2 := 9
  const TXPRE3 := 10
  const TXSYN1 := 11
  const TXSYN2 := 12

  /** The bits of the radio's status word that the interrupt looks at. */
  datatype Status = Status(fifo: bool, por: bool, wdg: bool, ovf: bool)

  datatype Power = Power(
    nodeid: byte,
    group: byte,
    rxfill: nat,
    rxstate: int,
    crc: Crc,
    buf: seq<byte>,
    sequence: int,
    seqNum: word32,
    key: Xxtea.Key,
    crypt: bool,
    fixedLength: nat,
    rfmstate: bv16,
    gotwakeup: bool)
  {
    function Len(): nat
      requires |buf| == Rf12.MEM
    {
      Num(buf[2])
    }

    /** The test by which the interrupt and `rf12_recvDone` end a reception. */
    predicate Full()
      requires |buf| == Rf12.MEM
    {
      (if fixedLength > 0 then rxfill >= fixedLength else rxfill >= Len() + 5) || rxfill >= Rf12.RF_MAX
    }

    predicate ReceiverOn() { Receives(rfmstate) }

    predicate TransmitterOn() { Transmits(rfmstate) }

    predicate IsSending() { rxstate < TXIDLE || rxstate > TXRECV }

    ghost predicate Sane() {
      && |buf| == Rf12.MEM && rxfill <= Rf12.RF_MAX
      && (IsSending() ==> Len() <= Rf12.MAXDATA + 2 && -(2 + Len()) <= rxstate <= TXSYN2)
    }

    /** Which of receiver and transmitter the register has on, by transceiver state. */
    ghost predicate HalfDuplex() {
      && Sane() && rxstate != UNINITIALIZED
      && !(ReceiverOn() && TransmitterOn())
      && (rxstate == TXIDLE ==> !ReceiverOn() && !TransmitterOn())
      && (rxstate == TXRECV ==> !TransmitterOn() && (ReceiverOn() <==> !Full()))
      && (rxstate == POR_RECEIVED && ReceiverOn() ==> !Full())
      && (IsSending() ==> TransmitterOn())
    }

    /** The variables that both variants have, for the code they share. */
    function Shared(): Rf12.Driver {
      Rf12.Driver(nodeid, group, rxfill, Rf12.TXIDLE, crc, buf, sequence, seqNum, key, crypt, Rf12.Idle)
    }

    function WithShared(d: Rf12.Driver): Power {
      this.(crc := d.crc, buf := d.buf, sequence := d.sequence, seqNum := d.seqNum)
    }
  }

  /** The settings `rf12_restore` leaves behind. */
  function Restore(s: Power): Power {
    s.(fixedLength := 0, rfmstate := 0x8205, rxstate := TXIDLE)
  }

  // The changes made to the power register.

  function IdleBits(x: bv16): bv16 { (x & 0xFF0F) | 0x08 }

  function ReceiveBits(x: bv16): bv16 { x | 0xD8 }

  function TransmitBits(x: bv16): bv16 { x | 0x38 }

  function SleepBits(x: bv16): bv16 { x & 0xFF07 }

  function WakeupOn(x: bv16): bv16 { x | WAKEUP }

  function WakeupOff(x: bv16): bv16 { x & 0xFFFD }

  predicate WakeupSet(x: bv16) { x & WAKEUP != 0 }

  function Idle(s: Power): Power { s.(rfmstate := IdleBits(s.rfmstate)) }

  /** A received byte in the buffer and in the checksum. */
  function Stored(s: Power, in_: byte): (r: Power)
    requires |s.buf| == Rf12.MEM && s.rxfill < Rf12.RF_MAX
    ensures |r.buf| == Rf12.MEM && r.rxfill <= Rf12.RF_MAX
  {
    var first := s.rxfill == 0 && s.group != 0;
    var at := if first then 1 else s.rxfill;
    var buf := if first then s.buf[0 := s.group] else s.buf;
    s.(buf := buf[at := in_], rxfill := at + 1, crc := Update(s.crc, in_))
  }

  function TakeByte(s: Power, in_: byte): (r: Power)
    requires |s.buf| == Rf12.MEM && s.rxfill < Rf12.RF_MAX
    ensures |r.buf| == Rf12.MEM && r.rxfill <= Rf12.RF_MAX
  {
    hide Stored;
    var t := Stored(s, in_);
    if t.Full() then Idle(t) else t
  }

  /** The byte the sending side sends next. */
  function NextByte(s: Power): byte
    requires s.Sane()
  {
    if s.rxstate < 0 then s.buf[3 + s.Len() + s.rxstate]
    else if s.rxstate == TXSYN1 then 0x2D
    else if s.rxstate == TXSYN2 then s.group
    else if s.rxstate == TXCRC1 then Low(s.crc)
    else if s.rxstate == TXCRC2 then High(s.crc)
    else 0xAA
  }

  function NextState(s: Power): int
    requires |s.buf| == Rf12.MEM
  {
    if s.rxstate == TXSYN2 then -(2 + s.Len()) else s.rxstate + 1
  }

  /** The checksum covers the bytes of the packet. */
  function NextCrc(s: Power): Crc
    requires s.Sane()
  {
    if s.rxstate < 0 then Update(s.crc, NextByte(s)) else s.crc
  }

  function NextRegister(s: Power): bv16 { if s.rxstate == TXDONE then IdleBits(s.rfmstate) else s.rfmstate }

  /** One step of the sending side, and the byte it sends. */
  function GiveByte(s: Power): (r: (Power, byte))
    requires s.Sane()
    ensures |r.0.buf| == Rf12.MEM && r.0.rxfill == s.rxfill
  {
    hide NextByte, NextState, NextCrc, NextRegister;
    (s.(rxstate := NextState(s), crc := NextCrc(s), rfmstate := NextRegister(s)), NextByte(s))
  }

  /** Disabling the wakeup timer, `rf12_setWatchdog(0)`. */
  function ClearWatchdog(s: Power): Power { s.(rfmstate := WakeupOff(s.rfmstate)) }

  /** The FIFO bit of an interrupt: a byte is taken or given. */
  function Fifo(s: Power, in_: byte): (r: (Power, byte))
    requires s.Sane() && (s.rxstate == TXRECV ==> s.rxfill < Rf12.RF_MAX)
  {
    if s.rxstate == TXRECV then (TakeByte(s, in_), 0) else GiveByte(s)
  }

  /** The reset, wakeup and overflow bits of an interrupt, handled after that. */
  function LaterBits(s: Power, st: Status): Power {
    var b := if st.por then s.(rxstate := POR_RECEIVED) else s;
    var c := if st.wdg then ClearWatchdog(b).(gotwakeup := true) else b;
    if st.ovf then Idle(c).(rxstate := TXIDLE) else c
  }

  /** An interrupt, and the byte it sends, if any. */
  function Interrupt(s: Power, st: Status, in_: byte): (r: (Power, byte))
    requires s.Sane() && (st.fifo && s.rxstate == TXRECV ==> s.rxfill < Rf12.RF_MAX)
  {
    var (a, out) := if st.fifo then Fifo(s, in_) else (s, 0);
    (LaterBits(a, st), out)
  }

  function RecvStart(s: Power): Power
    requires |s.buf| == Rf12.MEM
  {
    s.(rxfill := 0,
       buf := s.buf[2 := 0],
       crc := if s.group != 0 then Update(START, s.group) else START,
       rxstate := TXRECV,
       rfmstate := ReceiveBits(s.rfmstate))
  }

  /** A packet of variable length that is complete: reported, or dropped for the next one. */
  function TakePacket(s: Power): (r: (bool, Power))
    requires |s.buf| == Rf12.MEM
    ensures r.0 ==> r.1.rxstate == TXIDLE
  {
    var t := s.(rxstate := TXIDLE, crc := if s.Len() > Rf12.MAXDATA then 1 else s.crc);
    if !Rf12.Accepts(t.nodeid, t.buf[1]) then (false, RecvStart(t))
    else (true, if t.crc == 0 && t.crypt then t.WithShared(Rf12.Decrypt(t.Shared())) else t.(sequence := -1))
  }

  function RecvDone(s: Power): (r: (bool, Power))
    requires |s.buf| == Rf12.MEM
    ensures r.0 ==> r.1.rxstate == TXIDLE && s.rxstate == TXRECV && s.Full()
  {
    if s.rxstate == TXRECV && s.Full() then
      if s.fixedLength > 0 then (true, s.(rxstate := TXIDLE, crc := 1)) else TakePacket(s)
    else if s.rxstate == TXIDLE then (false, RecvStart(s))
    else (false, s)
  }

  function CanSend(s: Power): (r: (bool, Power))
    ensures r.0 ==> r.1.rxstate == TXIDLE
  {
    if s.rxstate == TXRECV && s.rxfill == 0 then (true, Idle(s).(rxstate := TXIDLE)) else (false, s)
  }

  function LoadData(s: Power, data: seq<byte>): (r: Power)
    requires |s.buf| == Rf12.MEM && |data| <= Rf12.MAXDATA
    ensures |r.buf| == Rf12.MEM && r.Len() == |data|
    ensures r == s.(buf := r.buf)
  {
    hide Num, Byte;
    NumOfByte(|data|);
    var buf := s.buf[2 := Byte(|data|)];
    s.(buf := buf[..3] + data + buf[3 + |data|..])
  }

  /** `crypter(1)`, if there is one. */
  function Encrypted(s: Power): (r: Power)
    requires |s.buf| == Rf12.MEM && s.Len() <= Rf12.MAXDATA
    ensures |r.buf| == Rf12.MEM && r.Len() <= Rf12.MAXDATA + 2
    ensures r == s.(buf := r.buf, seqNum := r.seqNum)
  {
    hide Num, Rf12.Encrypt, Rf12.PadOf, Receives, Transmits;
    if s.crypt then s.WithShared(Rf12.Encrypt(s.Shared())) else s
  }

  function SendStart(s: Power, hdr: byte): (r: Power)
    requires |s.buf| == Rf12.MEM && s.Len() <= Rf12.MAXDATA
    ensures |r.buf| == Rf12.MEM && r.Len() <= Rf12.MAXDATA + 2
    ensures r == s.(buf := r.buf, seqNum := r.seqNum, crc := r.crc, rxstate := TXPRE1, rfmstate := TransmitBits(s.rfmstate))
  {
    hide Num, Update, TransmitBits, Encrypted, Rf12.Header;
    var t := Encrypted(s.(buf := s.buf[1 := Rf12.Header(hdr, s.nodeid)]));
    t.(crc := Update(START, t.group), rxstate := TXPRE1, rfmstate := TransmitBits(s.rfmstate))
  }

  function SendData(s: Power, hdr: byte, data: seq<byte>): (r: Power)
    requires |s.buf| == Rf12.MEM && |data| <= Rf12.MAXDATA
    ensures |r.buf| == Rf12.MEM && r.Len() <= Rf12.MAXDATA + 2
    ensures r == s.(buf := r.buf, seqNum := r.seqNum, crc := r.crc, rxstate := TXPRE1, rfmstate := TransmitBits(s.rfmstate))
  {
    SendStart(LoadData(s, data), hdr)
  }

  /** The bookkeeping of `rf12_setFixedLength`, in 8-bit arithmetic. */
  function SetFixedLength(s: Power, len: byte): Power {
    s.(fixedLength := if len > 0 then (Num(len) + 1) % 0x100 else 0)
  }

  function Sleep(s: Power, off: bool): Power {
    (if off then s.(rfmstate := SleepBits(s.rfmstate)) else Idle(s)).(rxstate := TXIDLE)
  }

  // Runs.

  datatype Send = Send(hdr: byte, data: seq<byte>)

  /** What can happen to the driver; a packet is sent only right after a call allows it. */
  datatype Event =
    | Interrupted(st: Status, in_: byte)
    | AskedDone(reply: Option<Send>)
    | AskedSend(request: Option<Send>)
    | FixedLength(len: byte)
    | Slept(off: bool)
    | Restored
    | Watchdog(on: bool)

  function Then(r: (bool, Power), send: Option<Send>): Power
    requires |r.1.buf| == Rf12.MEM && (send.Some? ==> |send.value.data| <= Rf12.MAXDATA)
  {
    if r.0 && send.Some? then SendData(r.1, send.value.hdr, send.value.data) else r.1
  }

  /**
    The radio asks for bytes only while it is on, packets fit, and a fixed
    length is set only between packets.
   */
  ghost predicate Possible(s: Power, e: Event)
    requires |s.buf| == Rf12.MEM
  {
    match e
    case Interrupted(st, _) => st.fifo ==> s.ReceiverOn() || s.TransmitterOn()
    case AskedDone(reply) => reply.Some? ==> |reply.value.data| <= Rf12.MAXDATA
    case AskedSend(request) => request.Some? ==> |request.value.data| <= Rf12.MAXDATA
    case FixedLength(_) => s.rxstate == TXIDLE
    case _ => true
  }

  /** After a reset during a transmission the radio asks for one more byte, and nothing else is wrong. */
  predicate Clash(s: Power, e: Event) {
    && e.Interrupted? && e.st.fifo && !e.st.por && !e.st.ovf
    && s.rxstate == POR_RECEIVED && s.TransmitterOn()
  }

  /** A byte that comes in with the event is stored within the buffer. */
  predicate Inside(s: Power, e: Event) {
    e.Interrupted? && e.st.fifo && s.rxstate == TXRECV ==> s.rxfill < Rf12.RF_MAX
  }

  function Apply(s: Power, e: Event): Power
    requires s.Sane() && Possible(s, e) && Inside(s, e)
  {
    match e
    case Interrupted(st, in_) => Interrupt(s, st, in_).0
    case AskedDone(reply) => Then(RecvDone(s), reply)
    case AskedSend(request) => Then(CanSend(s), request)
    case FixedLength(len) => SetFixedLength(s, len)
    case Slept(off) => Sleep(s, off)
    case Restored => Restore(s)
    case Watchdog(on) => s.(rfmstate := if on then WakeupOn(s.rfmstate) else WakeupOff(s.rfmstate))
  }

  // Receiver and transmitter are never on together.

  predicate Receives(x: bv16) { x & RECEIVER != 0 }

  predicate Transmits(x: bv16) { x & TRANSMITTER != 0 }

  lemma Bits(x: bv16)
    ensures !Receives(IdleBits(x)) && !Transmits(IdleBits(x))
    ensures Receives(ReceiveBits(x)) && Transmits(ReceiveBits(x)) == Transmits(x)
    ensures Transmits(TransmitBits(x)) && Receives(TransmitBits(x)) == Receives(x)
    ensures !Receives(SleepBits(x)) && !Transmits(SleepBits(x))
    ensures Receives(WakeupOff(x)) == Receives(x) && Transmits(WakeupOff(x)) == Transmits(x)
    ensures Receives(WakeupOn(x)) == Receives(x) && Transmits(WakeupOn(x)) == Transmits(x)
  {
    hide *;
    OffBits(x);
    ReceiveBit(x);
    TransmitBit(x);
    WakeupBits(x);
  }

  lemma OffBits(x: bv16)
    ensures !Receives(IdleBits(x)) && !Transmits(IdleBits(x))
    ensures !Receives(SleepBits(x)) && !Transmits(SleepBits(x))
  {
  }

  lemma ReceiveBit(x: bv16)
    ensures Receives(ReceiveBits(x)) && Transmits(ReceiveBits(x)) == Transmits(x)
  {
  }

  lemma TransmitBit(x: bv16)
    ensures Transmits(TransmitBits(x)) && Receives(TransmitBits(x)) == Receives(x)
  {
  }

  lemma WakeupBits(x: bv16)
    ensures Receives(WakeupOff(x)) == Receives(x) && Transmits(WakeupOff(x)) == Transmits(x)
    ensures Receives(WakeupOn(x)) == Receives(x) && Transmits(WakeupOn(x)) == Transmits(x)
  {
  }

  lemma WakeupBit(x: bv16)
    ensures !WakeupSet(x) ==> WakeupOff(x) == x
    ensures WakeupSet(WakeupOn(x)) && !WakeupSet(WakeupOff(x))
  {
  }

  lemma TakeByteKeeps(s: Power, in_: byte)
    requires s.HalfDuplex() && s.rxstate == TXRECV && !s.Full()
    ensures TakeByte(s, in_).HalfDuplex() && TakeByte(s, in_).rxstate == TXRECV
  {
    hide Num, Update, Receives, Transmits, IdleBits, ReceiveBits, TransmitBits, SleepBits, WakeupOn, WakeupOff;
    Bits(s.rfmstate);
  }

  lemma GiveByteKeeps(s: Power)
    requires s.HalfDuplex() && s.IsSending()
    ensures GiveByte(s).0.HalfDuplex()
  {
    hide Num, NextByte, NextCrc, Receives, Transmits, IdleBits, ReceiveBits, TransmitBits, SleepBits, WakeupOn, WakeupOff;
    Bits(s.rfmstate);
  }

  /** A byte asked for after a reset is taken for the start of a reception. */
  lemma GiveByteAfterReset(s: Power)
    requires s.HalfDuplex() && s.rxstate == POR_RECEIVED
    ensures GiveByte(s).0 == s.(rxstate := TXRECV)
    ensures s.ReceiverOn() ==> GiveByte(s).0.HalfDuplex()
  {
    hide Num, Update, NextByte, Receives, Transmits;
  }

  lemma WatchdogKeeps(s: Power)
    ensures ClearWatchdog(s).(gotwakeup := true).HalfDuplex() <==> s.HalfDuplex()
  {
    hide Num, Receives, Transmits, IdleBits, ReceiveBits, TransmitBits, SleepBits, WakeupOn, WakeupOff;
    Bits(s.rfmstate);
  }

  lemma OverflowKeeps(s: Power)
    requires |s.buf| == Rf12.MEM && s.rxfill <= Rf12.RF_MAX
    ensures Idle(s).(rxstate := TXIDLE).HalfDuplex()
  {
    hide Num, Receives, Transmits, IdleBits, ReceiveBits, TransmitBits, SleepBits, WakeupOn, WakeupOff;
    Bits(s.rfmstate);
  }

  /** The later bits mend a clash only by a reset or an overflow. */
  lemma LaterBitsKeep(s: Power, st: Status)
    requires |s.buf| == Rf12.MEM && s.rxfill <= Rf12.RF_MAX
    requires s.HalfDuplex() || s.(rxstate := POR_RECEIVED).HalfDuplex()
    ensures LaterBits(s, st).HalfDuplex() <==> s.HalfDuplex() || st.por || st.ovf
  {
    hide Num, Receives, Transmits, IdleBits, ReceiveBits, TransmitBits, SleepBits, WakeupOn, WakeupOff, Idle;
    var b := if st.por then s.(rxstate := POR_RECEIVED) else s;
    WatchdogKeeps(b);
    OverflowKeeps(if st.wdg then ClearWatchdog(b).(gotwakeup := true) else b);
  }

  /** An interrupt that can happen keeps the two apart unless it clashes with a reset. */
  lemma InterruptKeepsExactly(s: Power, st: Status, in_: byte)
    requires s.HalfDuplex() && Possible(s, Interrupted(st, in_))
    ensures Interrupt(s, st, in_).0.HalfDuplex() <==> !Clash(s, Interrupted(st, in_))
  {
    hide Num, Receives, Transmits, IdleBits, ReceiveBits, TransmitBits, SleepBits, WakeupOn, WakeupOff, TakeByte, GiveByte, LaterBits;
    if !st.fifo {
      LaterBitsKeep(s, st);
    } else if s.rxstate == TXRECV {
      TakeByteKeeps(s, in_);
      LaterBitsKeep(TakeByte(s, in_), st);
    } else if s.rxstate == POR_RECEIVED {
      GiveByteAfterReset(s);
      assert GiveByte(s).0.(rxstate := POR_RECEIVED) == s;
      LaterBitsKeep(GiveByte(s).0, st);
    } else {
      GiveByteKeeps(s);
      LaterBitsKeep(GiveByte(s).0, st);
    }
  }

  lemma RecvStartKeeps(s: Power)
    requires |s.buf| == Rf12.MEM && !s.TransmitterOn()
    ensures RecvStart(s).HalfDuplex()
  {
    NumZero();
    hide Num, Update, Receives, Transmits, IdleBits, ReceiveBits, TransmitBits, SleepBits, WakeupOn, WakeupOff;
    Bits(s.rfmstate);
  }

  lemma RecvDoneKeeps(s: Power)
    requires s.HalfDuplex()
    ensures RecvDone(s).1.HalfDuplex()
  {
    hide Num, RecvStart, Rf12.Decrypt, Receives, Transmits, Rf12.Accepts;
    if s.rxstate == TXRECV && s.Full() {
      RecvStartKeeps(s.(rxstate := TXIDLE, crc := if s.Len() > Rf12.MAXDATA then 1 else s.crc));
    } else if s.rxstate == TXIDLE {
      RecvStartKeeps(s);
    }
  }

  lemma NumZero()
    ensures Num(0) == 0
  {
  }

  lemma SendDataKeeps(s: Power, send: Send)
    requires s.HalfDuplex() && s.rxstate == TXIDLE && |send.data| <= Rf12.MAXDATA
    ensures SendData(s, send.hdr, send.data).HalfDuplex()
  {
    hide Num, SendData, Receives, Transmits, IdleBits, ReceiveBits, TransmitBits, SleepBits, WakeupOn, WakeupOff;
    Bits(s.rfmstate);
  }

  lemma RestoredIsHalfDuplex(s: Power)
    requires |s.buf| == Rf12.MEM && s.rxfill <= Rf12.RF_MAX
    ensures Restore(s).HalfDuplex()
  {
  }

  /** Every event that can happen keeps the two apart, with one exception. */
  lemma EventKeepsExactly(s: Power, e: Event)
    requires s.HalfDuplex() && Possible(s, e)
    ensures Apply(s, e).HalfDuplex() <==> !Clash(s, e)
  {
    hide Num, Receives, Transmits, IdleBits, ReceiveBits, TransmitBits, SleepBits, WakeupOn, WakeupOff, Interrupt, RecvDone, SendData;
    match e
    case Interrupted(st, in_) => InterruptKeepsExactly(s, st, in_);
    case AskedDone(reply) =>
      RecvDoneKeeps(s);
      if RecvDone(s).0 && reply.Some? { SendDataKeeps(RecvDone(s).1, reply.value); }
    case AskedSend(request) =>
      Bits(s.rfmstate);
      if CanSend(s).0 && request.Some? { SendDataKeeps(CanSend(s).1, request.value); }
    case Restored => RestoredIsHalfDuplex(s);
    case _ => Bits(s.rfmstate);
  }

  /** Every event of a run can happen where it does, up to a clash. */
  ghost predicate PossibleRun(s: Power, events: seq<Event>)
    requires s.HalfDuplex()
    decreases |events|
  {
    events == [] ||
    (Possible(s, events[0]) && (EventKeepsExactly(s, events[0]);
                                Clash(s, events[0]) || PossibleRun(Apply(s, events[0]), events[1..])))
  }

  /** Some event of a run clashes with a reset. */
  ghost predicate Clashes(s: Power, events: seq<Event>)
    requires s.HalfDuplex() && PossibleRun(s, events)
    decreases |events|
  {
    events != [] && (EventKeepsExactly(s, events[0]);
                     Clash(s, events[0]) || Clashes(Apply(s, events[0]), events[1..]))
  }

  /** After every event of a run the two are apart. */
  ghost predicate AlwaysHalfDuplex(s: Power, events: seq<Event>)
    requires s.HalfDuplex() && PossibleRun(s, events)
    decreases |events|
  {
    events == [] || (EventKeepsExactly(s, events[0]);
                     Apply(s, events[0]).HalfDuplex() && AlwaysHalfDuplex(Apply(s, events[0]), events[1..]))
  }

  /**
    All through a run receiver and transmitter are not on together, both off in
    TXIDLE, only the receiver on during a reception and only the transmitter
    during a transmission, if and only if after no reset of a sending radio a
    byte was asked for.
   */
  lemma {:induction false} RunHalfDuplexExactly(s: Power, events: seq<Event>)
    requires s.HalfDuplex() && PossibleRun(s, events)
    ensures AlwaysHalfDuplex(s, events) <==> !Clashes(s, events)
    decreases |events|
  {
    if events != [] {
      EventKeepsExactly(s, events[0]);
      if !Clash(s, events[0]) {
        RunHalfDuplexExactly(Apply(s, events[0]), events[1..]);
      }
    }
  }

  /** A reset during a transmission is all it takes to make a clash possible. */
  lemma ResetThenByteClashes(s: Power, in_: byte)
    requires s.HalfDuplex() && s.IsSending()
    ensures
      var reset, byte_ := Interrupted(Status(false, true, false, false), in_), Interrupted(Status(true, false, false, false), in_);
      && !Clash(s, reset) && Apply(s, reset).HalfDuplex()
      && Possible(Apply(s, reset), byte_) && Clash(Apply(s, reset), byte_)
      && Apply(Apply(s, reset), byte_).rxstate == TXRECV && Apply(Apply(s, reset), byte_).TransmitterOn()
  {
    hide Num;
  }

  /** `cryptFun` looks at none of the variables that the variants do not share. */
  lemma CryptShared(s: Power, d: Rf12.Driver)
    requires |s.buf| == Rf12.MEM && s.Len() <= Rf12.MAXDATA
    requires d == s.Shared().(rxstate := d.rxstate, radio := d.radio)
    ensures s.WithShared(Rf12.Encrypt(d)) == s.WithShared(Rf12.Encrypt(s.Shared()))
    ensures s.WithShared(Rf12.Decrypt(d)) == s.WithShared(Rf12.Decrypt(s.Shared()))
  {
    hide Num, Byte, Rf12.PadOf, Rf12.CloseBlock, Rf12.AppendSeq, Rf12.EncodeBlock, Rf12.DecodeBlock, Rf12.Strip;
  }

  // Stores, also after a clash.

  /** The next byte asked for would be stored behind the buffer. */
  predicate Exposed(s: Power) {
    s.rxstate == TXRECV && s.rxfill >= Rf12.RF_MAX && (s.ReceiverOn() || s.TransmitterOn())
  }

  /** With a full buffer the receiver is off, and the transmitter in all states that lead to a reception. */
  ghost predicate Guarded(s: Power) {
    && s.Sane()
    && (s.rxfill == Rf12.RF_MAX ==> !s.ReceiverOn())
    && (s.rxfill == Rf12.RF_MAX && TXIDLE <= s.rxstate <= TXRECV && s.rxstate != POR_RECEIVED ==> !s.TransmitterOn())
  }

  /** A clash while the buffer is still full from the last reception. */
  predicate FullClash(s: Power, e: Event) { Clash(s, e) && s.rxfill == Rf12.RF_MAX }

  lemma GuardedStores(s: Power, e: Event)
    requires Guarded(s) && Possible(s, e)
    ensures Inside(s, e) && !Exposed(s)
  {
    hide Num, Receives, Transmits;
  }

  lemma GuardedFifo(s: Power, in_: byte)
    requires Guarded(s) && (s.ReceiverOn() || s.TransmitterOn())
    ensures
      var t := Fifo(s, in_).0;
      && t.Sane()
      && (if s.rxstate == POR_RECEIVED && s.rxfill == Rf12.RF_MAX
          then t == s.(rxstate := TXRECV) && s.TransmitterOn()
          else Guarded(t))
  {
    hide Num, Update, NextByte, NextCrc, Receives, Transmits, IdleBits;
    Bits(s.rfmstate);
    if s.rxstate == TXRECV {
      GuardedTake(s, in_);
    } else if s.rxstate == POR_RECEIVED {
      GuardedReset(s);
    }
  }

  lemma GuardedReset(s: Power)
    requires s.Sane() && s.rxstate == POR_RECEIVED
    ensures GiveByte(s).0 == s.(rxstate := TXRECV)
  {
    hide Num, Update, NextByte, Receives, Transmits;
  }

  lemma GuardedTake(s: Power, in_: byte)
    requires Guarded(s) && s.rxstate == TXRECV && s.rxfill < Rf12.RF_MAX
    ensures Guarded(TakeByte(s, in_))
  {
    hide Num, Stored, Receives, Transmits, IdleBits;
    StoredChanges(s, in_);
    Bits(s.rfmstate);
  }

  /** What the later bits make of a state: a reset or an overflow guards it. */
  lemma GuardedLater(s: Power, st: Status)
    requires Guarded(s) || (s.Sane() && s.rxfill == Rf12.RF_MAX && s.rxstate == TXRECV && !s.ReceiverOn() && s.TransmitterOn())
    ensures Guarded(LaterBits(s, st)) <==> Guarded(s) || st.por || st.ovf
    ensures !Guarded(s) && !st.por && !st.ovf ==> Exposed(LaterBits(s, st))
  {
    hide Num, Receives, Transmits, IdleBits, WakeupOn, WakeupOff;
    Bits(s.rfmstate);
    Bits(WakeupOff(s.rfmstate));
  }

  lemma GuardedInterrupt(s: Power, st: Status, in_: byte)
    requires Guarded(s) && Possible(s, Interrupted(st, in_))
    ensures
      var e, t := Interrupted(st, in_), Interrupt(s, st, in_).0;
      (Guarded(t) <==> !FullClash(s, e)) && (FullClash(s, e) ==> Exposed(t))
  {
    hide Num, Receives, Transmits, Fifo, LaterBits;
    GuardedStores(s, Interrupted(st, in_));
    if st.fifo {
      GuardedFifo(s, in_);
      GuardedLater(Fifo(s, in_).0, st);
    } else {
      GuardedLater(s, st);
    }
  }

  lemma GuardedStart(s: Power)
    requires |s.buf| == Rf12.MEM
    ensures Guarded(RecvStart(s))
  {
    hide Num, Update, Receives, Transmits, ReceiveBits;
  }

  lemma GuardedRecvDone(s: Power)
    requires Guarded(s)
    ensures Guarded(RecvDone(s).1) && RecvDone(s).1.Sane()
  {
    hide Num, RecvStart, Rf12.Decrypt, Rf12.Accepts, Receives, Transmits;
    if s.rxstate == TXRECV && s.Full() {
      GuardedStart(s.(rxstate := TXIDLE, crc := if s.Len() > Rf12.MAXDATA then 1 else s.crc));
    } else if s.rxstate == TXIDLE {
      GuardedStart(s);
    }
  }

  lemma GuardedSend(s: Power, send: Send)
    requires Guarded(s) && s.rxstate == TXIDLE && |send.data| <= Rf12.MAXDATA
    ensures Guarded(SendData(s, send.hdr, send.data))
  {
    hide Num, SendData, Receives, Transmits, TransmitBits;
    Bits(s.rfmstate);
  }

  /** Every event that can happen keeps the stores guarded, except a clash with a full buffer, which exposes the next one. */
  lemma GuardedKeepsExactly(s: Power, e: Event)
    requires Guarded(s) && Possible(s, e)
    ensures Inside(s, e)
    ensures Guarded(Apply(s, e)) <==> !FullClash(s, e)
    ensures Exposed(Apply(s, e)) <==> FullClash(s, e)
  {
    hide Num, Receives, Transmits, IdleBits, SleepBits, WakeupOn, WakeupOff, Interrupt, RecvDone, SendData;
    GuardedStores(s, e);
    Bits(s.rfmstate);
    match e
    case Interrupted(st, in_) => GuardedInterrupt(s, st, in_);
    case AskedDone(reply) =>
      GuardedRecvDone(s);
      if RecvDone(s).0 && reply.Some? { GuardedSend(RecvDone(s).1, reply.value); }
    case AskedSend(request) =>
      if CanSend(s).0 && request.Some? { GuardedSend(CanSend(s).1, request.value); }
    case Restored => RestoredIsHalfDuplex(s);
    case _ =>
  }

  /** Every event of a run can happen where it does, up to a clash with a full buffer. */
  ghost predicate PossibleOn(s: Power, events: seq<Event>)
    requires Guarded(s)
    decreases |events|
  {
    events == [] ||
    (Possible(s, events[0]) && (GuardedKeepsExactly(s, events[0]);
                                FullClash(s, events[0]) || PossibleOn(Apply(s, events[0]), events[1..])))
  }

  ghost predicate FullClashes(s: Power, events: seq<Event>)
    requires Guarded(s) && PossibleOn(s, events)
    decreases |events|
  {
    events != [] && (GuardedKeepsExactly(s, events[0]);
                     FullClash(s, events[0]) || FullClashes(Apply(s, events[0]), events[1..]))
  }

  /** Every store of a run is inside the buffer, and so is the next one after each event. */
  ghost predicate StoresInside(s: Power, events: seq<Event>)
    requires Guarded(s) && PossibleOn(s, events)
    decreases |events|
  {
    events == [] || (GuardedKeepsExactly(s, events[0]);
                     Inside(s, events[0]) && !Exposed(Apply(s, events[0])) && StoresInside(Apply(s, events[0]), events[1..]))
  }

  /** From a state in step, clashes or not, all stores are inside if and only if no clash finds the buffer full. */
  lemma {:induction false} RunStoresInsideExactly(s: Power, events: seq<Event>)
    requires Guarded(s) && PossibleOn(s, events)
    ensures StoresInside(s, events) <==> !FullClashes(s, events)
    decreases |events|
  {
    if events != [] {
      GuardedKeepsExactly(s, events[0]);
      if !FullClash(s, events[0]) {
        RunStoresInsideExactly(Apply(s, events[0]), events[1..]);
      }
    }
  }

  lemma HalfDuplexIsGuarded(s: Power)
    requires s.HalfDuplex()
    ensures Guarded(s)
  {
    hide Num, Receives, Transmits;
  }

  // With variable lengths and no resets the variant does what the plain driver does.

  /** The plain driver's variables: its own state numbers, and the radio mode the register stands for. */
  function Plain(s: Power): Rf12.Driver {
    s.Shared().(
      rxstate := if s.rxstate <= TXIDLE then s.rxstate else s.rxstate - TXRECV + Rf12.TXRECV,
      radio := if s.ReceiverOn() then Rf12.Receiving else if s.TransmitterOn() then Rf12.Transmitting else Rf12.Idle)
  }

  ghost predicate Regular(s: Power) {
    s.HalfDuplex() && s.fixedLength == 0 && s.rxstate != POR_RECEIVED
  }

  lemma PlainIsValid(s: Power)
    requires Regular(s)
    ensures Plain(s).Valid() && (Plain(s).Live() <==> s.ReceiverOn() || s.TransmitterOn())
  {
    hide Num, Receives, Transmits;
  }

  lemma TakeByteRefines(s: Power, in_: byte)
    requires Regular(s) && s.rxstate == TXRECV && s.ReceiverOn()
    ensures Plain(s).Live() && Plain(TakeByte(s, in_)) == Rf12.ReceiveByte(Plain(s), in_)
  {
    hide Num, Stored, Rf12.ReceiveByte, Receives, Transmits, IdleBits;
    PlainIsValid(s);
    ReceiveByteIs(s, Plain(s), in_);
    StoredChanges(s, in_);
    Bits(s.rfmstate);
  }

  lemma StoredChanges(s: Power, in_: byte)
    requires |s.buf| == Rf12.MEM && s.rxfill < Rf12.RF_MAX
    ensures Stored(s, in_) == s.(buf := Stored(s, in_).buf, rxfill := Stored(s, in_).rxfill, crc := Stored(s, in_).crc)
  {
    hide Update;
  }

  /** The plain driver stores a byte the same way. */
  lemma ReceiveByteIs(s: Power, p: Rf12.Driver, in_: byte)
    requires p.Live() && p.rxstate == Rf12.TXRECV && s.rxfill < Rf12.RF_MAX
    requires p.buf == s.buf && p.rxfill == s.rxfill && p.group == s.group && p.crc == s.crc
    ensures
      var t := Stored(s, in_);
      var full := t.rxfill >= Num(t.buf[2]) + 5 || t.rxfill >= Rf12.RF_MAX;
      Rf12.ReceiveByte(p, in_) ==
        p.(buf := t.buf, rxfill := t.rxfill, crc := t.crc, radio := if full then Rf12.Idle else p.radio)
  {
    hide Num, Update;
  }

  lemma GiveByteRefines(s: Power)
    requires Regular(s) && s.IsSending()
    ensures Plain(s).Live() && (Plain(GiveByte(s).0), GiveByte(s).1) == Rf12.SendByte(Plain(s))
  {
    hide Num, Update, NextByte, Rf12.SendByte, Receives, Transmits, IdleBits;
    PlainIsValid(s);
    SendByteIs(s, Plain(s));
    Bits(s.rfmstate);
  }

  /** The plain driver, in the state this one stands for, sends the same byte. */
  lemma SendByteIs(s: Power, p: Rf12.Driver)
    requires s.Sane() && s.IsSending()
    requires p.Live() && p.rxstate == if s.rxstate <= TXIDLE then s.rxstate else s.rxstate - TXRECV + Rf12.TXRECV
    requires p.buf == s.buf && p.crc == s.crc && p.group == s.group
    ensures
      var (u, out) := Rf12.SendByte(p);
      && out == NextByte(s)
      && u == p.(rxstate := if s.rxstate == TXSYN2 then -(2 + s.Len()) else p.rxstate + 1,
                 crc := if s.rxstate < 0 then Update(s.crc, out) else p.crc,
                 radio := if s.rxstate == TXDONE then Rf12.Idle else p.radio)
  {
    hide Num, Update, Low, High;
  }

  /** An interrupt for a byte, seen by the plain driver: it takes or sends the same byte. */
  lemma FifoRefines(s: Power, in_: byte)
    requires Regular(s) && (s.ReceiverOn() || s.TransmitterOn())
    ensures Plain(s).Live()
    ensures s.rxstate == TXRECV ==> Plain(Fifo(s, in_).0) == Rf12.ReceiveByte(Plain(s), in_)
    ensures s.rxstate != TXRECV ==> (Plain(Fifo(s, in_).0), Fifo(s, in_).1) == Rf12.SendByte(Plain(s))
  {
    hide Num, TakeByte, GiveByte, Rf12.ReceiveByte, Rf12.SendByte, Receives, Transmits;
    if s.rxstate == TXRECV {
      TakeByteRefines(s, in_);
    } else {
      GiveByteRefines(s);
    }
  }

  lemma StartRefines(s: Power)
    requires |s.buf| == Rf12.MEM
    ensures Plain(RecvStart(s)) == Rf12.RecvStart(Plain(s))
  {
    hide Num, Update, Receives, Transmits, IdleBits, ReceiveBits, TransmitBits, SleepBits, WakeupOn, WakeupOff;
    Bits(s.rfmstate);
  }

  lemma DecryptShared(s: Power)
    requires |s.buf| == Rf12.MEM && s.Len() <= Rf12.MAXDATA
    ensures Plain(s.WithShared(Rf12.Decrypt(s.Shared()))) == Rf12.Decrypt(Plain(s))
  {
    hide Num, Byte, Rf12.DecodeBlock, Rf12.Strip, Receives, Transmits;
  }

  lemma TakePacketRefines(s: Power)
    requires Regular(s) && s.rxstate == TXRECV && s.Full()
    ensures Plain(s).Valid() && (TakePacket(s).0, Plain(TakePacket(s).1)) == Rf12.RecvDone(Plain(s))
  {
    hide Num, Receives, Transmits, Rf12.Accepts, Rf12.Decrypt, RecvStart, Rf12.RecvStart;
    PlainIsValid(s);
    var t := s.(rxstate := TXIDLE, crc := if s.Len() > Rf12.MAXDATA then 1 else s.crc);
    StartRefines(t);
    if t.crc == 0 { DecryptShared(t); }
  }

  lemma RecvDoneRefines(s: Power)
    requires Regular(s)
    ensures Plain(s).Valid() && (RecvDone(s).0, Plain(RecvDone(s).1)) == Rf12.RecvDone(Plain(s))
  {
    hide Num, Receives, Transmits, TakePacket, RecvStart, Rf12.RecvStart;
    PlainIsValid(s);
    if s.rxstate == TXRECV && s.Full() {
      TakePacketRefines(s);
    } else {
      StartRefines(s);
    }
  }

  /** Listening before sending is disabled in this variant: it sees no carrier. */
  lemma CanSendRefines(s: Power)
    requires Regular(s)
    ensures Plain(s).Valid() && (CanSend(s).0, Plain(CanSend(s).1)) == Rf12.CanSend(Plain(s), false)
  {
    hide Num, Receives, Transmits, IdleBits, ReceiveBits, TransmitBits, SleepBits, WakeupOn, WakeupOff;
    PlainIsValid(s);
    Bits(s.rfmstate);
  }

  lemma EncryptShared(s: Power)
    requires |s.buf| == Rf12.MEM && s.Len() <= Rf12.MAXDATA
    ensures Plain(Encrypted(s)) == if s.crypt then Rf12.Encrypt(Plain(s)) else Plain(s)
  {
    hide Num, Rf12.PadOf, Rf12.CloseBlock, Rf12.AppendSeq, Rf12.EncodeBlock, Receives, Transmits;
  }

  lemma SendDataRefines(s: Power, hdr: byte, data: seq<byte>)
    requires Regular(s) && s.rxstate == TXIDLE && |data| <= Rf12.MAXDATA
    ensures Plain(s).Valid() && Plain(SendData(s, hdr, data)) == Rf12.SendData(Plain(s), hdr, data)
  {
    hide Num, Byte, Update, Receives, Transmits, TransmitBits, Encrypted, Rf12.Encrypt, Rf12.Header;
    PlainIsValid(s);
    Bits(s.rfmstate);
    var t := LoadData(s, data);
    EncryptShared(t.(buf := t.buf[1 := Rf12.Header(hdr, t.nodeid)]));
  }
}
