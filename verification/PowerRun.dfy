/**
  Two nodes of the watchdog variant on a link: what holds of plain nodes in
  every schedule holds of them, as far as they listen before they send.
 */
module PowerRun {
  import opened Bytes
  import opened Rf12Power
  import Rf12
  import RadioDelivery
  import RadioRun

  /** What can happen next. A listener that asks to send is left out: this variant does not listen first. */
  datatype Happening = SenderByte | ListenerByte | SenderAsks | SenderWants | ListenerAsks

  datatype Link = Link(tx: Power, rx: Power, sent: nat, fifo: seq<byte>, taken: nat, report: Option<Power>) {
    /** Variable lengths and no resets, and the listener does not send. */
    ghost predicate Valid() { Regular(tx) && Regular(rx) && !rx.IsSending() }
  }

  /** An interrupt for a byte and nothing else. */
  const BYTE_WANTED := Status(true, false, false, false)

  function Step(l: Link, h: Happening): (r: Link)
    requires l.Valid()
  {
    hide Interrupt, RecvDone, CanSend, Receives, Transmits;
    match h
    case SenderByte =>
      if !l.tx.TransmitterOn() || |l.fifo| >= RadioRun.FIFO then l
      else
        ByteFits(l.tx);
        var (t, out) := Interrupt(l.tx, BYTE_WANTED, 0);
        var heard := l.rx.ReceiverOn() && l.sent >= RadioRun.SyncLength(l.rx.group);
        l.(tx := t, sent := l.sent + 1, fifo := if heard then l.fifo + [out] else l.fifo)
    case ListenerByte =>
      if !l.rx.ReceiverOn() || l.fifo == [] then l
      else
        ByteFits(l.rx);
        l.(rx := Interrupt(l.rx, BYTE_WANTED, l.fifo[0]).0, fifo := l.fifo[1..], taken := l.taken + 1)
    case SenderAsks => l.(tx := RecvDone(l.tx).1)
    case SenderWants => l.(tx := CanSend(l.tx).1)
    case ListenerAsks =>
      if l.report.Some? then l
      else
        var (done, u) := RecvDone(l.rx);
        l.(rx := u, report := if done then Some(u) else None)
  }

  lemma ByteFits(s: Power)
    requires Regular(s)
    ensures s.Sane() && (s.ReceiverOn() || s.TransmitterOn() ==> (s.rxstate == TXRECV ==> s.rxfill < Rf12.RF_MAX))
  {
    hide Num, Receives, Transmits;
  }

  // Every step, seen by plain nodes.

  function PlainHappening(h: Happening): RadioRun.Happening {
    match h
    case SenderByte => RadioRun.SenderByte
    case ListenerByte => RadioRun.ListenerByte
    case SenderAsks => RadioRun.SenderAsks
    case SenderWants => RadioRun.SenderWants(false)
    case ListenerAsks => RadioRun.ListenerAsks
  }

  function PlainReport(r: Option<Power>): Option<Rf12.Driver> { if r.Some? then Some(Plain(r.value)) else None }

  function PlainLink(l: Link): RadioRun.Link {
    RadioRun.Link(Plain(l.tx), Plain(l.rx), l.sent, l.fifo, l.taken, PlainReport(l.report))
  }

  /** An interrupt for a byte keeps a node regular, and is the plain driver's. */
  lemma ByteRefines(s: Power, in_: byte)
    requires Regular(s) && (s.ReceiverOn() || s.TransmitterOn())
    ensures s.Sane() && (s.rxstate == TXRECV ==> s.rxfill < Rf12.RF_MAX) && Plain(s).Live()
    ensures
      var (t, out) := Interrupt(s, BYTE_WANTED, in_);
      && Regular(t) && (t.IsSending() ==> s.IsSending())
      && (s.rxstate == TXRECV ==> Plain(t) == Rf12.ReceiveByte(Plain(s), in_))
      && (s.rxstate != TXRECV ==> (Plain(t), out) == Rf12.SendByte(Plain(s)))
  {
    hide Num, Fifo, Rf12.ReceiveByte, Rf12.SendByte, Receives, Transmits;
    ByteFits(s);
    FifoRefines(s, in_);
    InterruptKeepsExactly(s, BYTE_WANTED, in_);
    FifoStates(s, in_);
  }

  lemma FifoStates(s: Power, in_: byte)
    requires Regular(s) && (s.ReceiverOn() || s.TransmitterOn()) && (s.rxstate == TXRECV ==> s.rxfill < Rf12.RF_MAX)
    ensures
      var t := Fifo(s, in_).0;
      t.fixedLength == s.fixedLength && t.rxstate != POR_RECEIVED && (s.rxstate == TXRECV ==> t.rxstate == TXRECV)
  {
    hide Num, Stored, NextByte, NextCrc, NextRegister, Receives, Transmits, IdleBits;
    if s.rxstate == TXRECV { StoredChanges(s, in_); }
  }

  lemma DoneRefines(s: Power)
    requires Regular(s)
    ensures Plain(s).Valid() && (RecvDone(s).0, Plain(RecvDone(s).1)) == Rf12.RecvDone(Plain(s))
    ensures Regular(RecvDone(s).1) && (RecvDone(s).1.IsSending() ==> s.IsSending())
  {
    hide Num, Receives, Transmits, Rf12.Accepts, Rf12.Decrypt;
    RecvDoneRefines(s);
    RecvDoneKeeps(s);
  }

  lemma WantRefines(s: Power)
    requires Regular(s)
    ensures Plain(s).Valid() && (CanSend(s).0, Plain(CanSend(s).1)) == Rf12.CanSend(Plain(s), false)
    ensures Regular(CanSend(s).1)
  {
    hide Num, Receives, Transmits, IdleBits;
    Bits(s.rfmstate);
    CanSendRefines(s);
  }

  lemma Modes(s: Power)
    requires Regular(s)
    ensures Plain(s).Valid() && Plain(s).group == s.group
    ensures Plain(s).radio == Rf12.Receiving <==> s.ReceiverOn()
    ensures Plain(s).radio == Rf12.Transmitting <==> s.TransmitterOn()
    ensures s.TransmitterOn() <==> s.IsSending()
    ensures s.ReceiverOn() ==> s.rxstate == TXRECV
  {
    hide Num, Receives, Transmits;
    PlainIsValid(s);
  }

  lemma StepRefines(l: Link, h: Happening)
    requires l.Valid()
    ensures PlainLink(l).Valid()
    ensures Step(l, h).Valid() && PlainLink(Step(l, h)) == RadioRun.Step(PlainLink(l), PlainHappening(h))
  {
    hide Plain, Regular, Interrupt, RecvDone, CanSend, Receives, Transmits, Rf12.ReceiveByte, Rf12.SendByte, Rf12.RecvDone, Rf12.CanSend;
    Modes(l.tx);
    Modes(l.rx);
    match h
    case SenderByte => if l.tx.TransmitterOn() { ByteRefines(l.tx, 0); }
    case ListenerByte => if l.rx.ReceiverOn() && l.fifo != [] { ByteRefines(l.rx, l.fifo[0]); }
    case SenderAsks => DoneRefines(l.tx);
    case SenderWants => WantRefines(l.tx);
    case ListenerAsks => if l.report.None? { DoneRefines(l.rx); }
  }

  function Play(l: Link, events: seq<Happening>): (r: Link)
    requires l.Valid()
    ensures r.Valid()
  {
    if events == [] then l
    else
      var k := Play(l, events[..|events| - 1]);
      StepRefines(k, events[|events| - 1]);
      Step(k, events[|events| - 1])
  }

  function PlainEvents(events: seq<Happening>): (r: seq<RadioRun.Happening>)
    ensures |r| == |events|
  {
    if events == [] then [] else PlainEvents(events[..|events| - 1]) + [PlainHappening(events[|events| - 1])]
  }

  lemma {:induction false} PlayRefines(l: Link, events: seq<Happening>)
    requires l.Valid()
    ensures PlainLink(l).Valid() && PlainLink(Play(l, events)) == RadioRun.Play(PlainLink(l), PlainEvents(events))
  {
    hide Step, RadioRun.Step, PlainLink, PlainHappening, Regular;
    StepRefines(l, SenderAsks);
    if events != [] {
      var n := |events| - 1;
      PlayRefines(l, events[..n]);
      StepRefines(Play(l, events[..n]), events[n]);
      assert PlainEvents(events)[..n] == PlainEvents(events[..n]);
    }
  }

  /** The link right after `tx` was told to send, while `rx` starts to listen. */
  function Sent(tx: Power, rx: Power, hdr: byte, data: seq<byte>): (l: Link)
    requires Regular(tx) && tx.rxstate == TXIDLE && Regular(rx) && rx.rxstate == TXIDLE && |data| <= Rf12.MAXDATA
    ensures l.Valid()
  {
    hide SendData, RecvStart, Receives, Transmits;
    SendDataKeeps(tx, Send(hdr, data));
    RecvStartKeeps(rx);
    RecvStarted(rx);
    Link(SendData(tx, hdr, data), RecvStart(rx), 0, [], 0, None)
  }

  lemma RecvStarted(rx: Power)
    requires |rx.buf| == Rf12.MEM
    ensures RecvStart(rx).rxstate == TXRECV && RecvStart(rx).fixedLength == rx.fixedLength
  {
  }

  /** What two nodes of this variant deliver to each other, in every schedule, is the packet, whole and good. */
  lemma VariantDelivers(tx: Power, rx: Power, hdr: byte, data: seq<byte>, events: seq<Happening>)
    requires Regular(tx) && tx.rxstate == TXIDLE && Regular(rx) && rx.rxstate == TXIDLE
    requires rx.group != 0 ==> rx.group == tx.group
    requires rx.crypt == tx.crypt && rx.key == tx.key
    requires |data| <= RadioDelivery.Limit(Plain(tx))
    requires Rf12.Accepts(rx.nodeid, Rf12.Header(hdr, tx.nodeid))
    ensures
      var l := Play(Sent(tx, rx, hdr, data), events);
      && (l.report.Some? ==> RadioDelivery.Arrived(Plain(l.report.value), Plain(tx), hdr, data))
      && (l.sent == 11 + SendData(tx, hdr, data).Len() ==> Step(l, ListenerAsks).report.Some?)
  {
    hide SendData, RecvStart, Rf12.SendData, Rf12.RecvStart, Receives, Transmits, Play, Step, RadioRun.Play, RadioRun.Step,
      RadioDelivery.Arrived, Rf12.Accepts, Rf12.Header, PlainEvents, RadioDelivery.Deliver;
    var start := Sent(tx, rx, hdr, data);
    PlainIsValid(tx);
    PlainIsValid(rx);
    SendDataRefines(tx, hdr, data);
    StartRefines(rx);
    PlayRefines(start, events);
    RadioRun.DeliveredInEverySchedule(Plain(tx), Plain(rx), hdr, data, PlainEvents(events));
    var l := Play(start, events);
    StepRefines(l, ListenerAsks);
  }
}
