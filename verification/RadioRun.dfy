/**
  Delivery in every schedule: the interrupts of both nodes mixed in any order
  with their calls of `rf12_recvDone` and `rf12_canSend`.
 */
module RadioRun {
  import opened Bytes
  import opened Crc16
  import opened Xxtea
  import opened Rf12
  import opened RadioSeal
  import opened RadioLink
  import opened RadioDelivery

  /** The bytes that the receiving radio holds until they are taken. */
  const FIFO: nat := 2

  /** What can happen next; noise is a carrier other than the two nodes'. */
  datatype Happening =
    | SenderByte
    | ListenerByte
    | SenderAsks
    | SenderWants(noise: bool)
    | ListenerAsks
    | ListenerWants(noise: bool)

  /**
    Two nodes, the number of bytes sent, those in the listener's radio, the
    number it took, and the packet its program got.
   */
  datatype Link = Link(tx: Driver, rx: Driver, sent: nat, fifo: seq<byte>, taken: nat, report: Option<Driver>) {
    ghost predicate Valid() { tx.Valid() && rx.Valid() }
  }

  /** The number of bytes sent before those that pass the sync pattern of a listener. */
  function SyncLength(group: byte): nat { if group != 0 then 5 else 4 }

  /** An interrupt at the sender, once the listener's radio has room for the byte. */
  function PassByte(l: Link): (r: Link)
    requires l.Valid()
    ensures r.Valid()
  {
    hide SendByte;
    if l.tx.radio != Transmitting || |l.fifo| >= FIFO then l
    else
      var (t, out) := SendByte(l.tx);
      var heard := l.rx.radio == Receiving && l.sent >= SyncLength(l.rx.group);
      l.(tx := t, sent := l.sent + 1, fifo := if heard then l.fifo + [out] else l.fifo)
  }

  /** An interrupt at the listener, if its radio has a byte. */
  function HearByte(l: Link): (r: Link)
    requires l.Valid()
    ensures r.Valid()
  {
    hide ReceiveByte;
    if l.rx.radio != Receiving || l.fifo == [] then l
    else l.(rx := ReceiveByte(l.rx, l.fifo[0]), fifo := l.fifo[1..], taken := l.taken + 1)
  }

  /** The listener's program asks until it gets a packet. */
  function Ask(l: Link): (r: Link)
    requires l.Valid()
    ensures r.Valid()
  {
    hide RecvDone;
    if l.report.Some? then l
    else
      var (done, u) := RecvDone(l.rx);
      l.(rx := u, report := if done then Some(u) else None)
  }

  function Step(l: Link, h: Happening): (r: Link)
    requires l.Valid()
    ensures r.Valid()
  {
    hide RecvDone, CanSend, PassByte, HearByte, Ask;
    match h
    case SenderByte => PassByte(l)
    case ListenerByte => HearByte(l)
    case SenderAsks => l.(tx := RecvDone(l.tx).1)
    case SenderWants(noise) => l.(tx := CanSend(l.tx, noise || l.rx.radio == Transmitting).1)
    case ListenerAsks => Ask(l)
    case ListenerWants(noise) => l.(rx := CanSend(l.rx, noise || l.tx.radio == Transmitting).1)
  }

  function Play(l: Link, events: seq<Happening>): (r: Link)
    requires l.Valid()
    ensures r.Valid()
  {
    if events == [] then l else Step(Play(l, events[..|events| - 1]), events[|events| - 1])
  }

  // What the listener holds after part of a transmission.

  /** The bytes of a transmission that a listener can hear. */
  function Audible(group: byte, air: seq<byte>): (r: seq<byte>)
    requires |air| >= 5
    ensures |r| == |air| - SyncLength(group)
  {
    air[SyncLength(group)..]
  }

  function HeardCount(group: byte, sent: nat): nat {
    if sent >= SyncLength(group) then sent - SyncLength(group) else 0
  }

  function Reached(rx: Driver, heard: seq<byte>, k: nat): (r: Driver)
    requires |rx.buf| == MEM && k <= |heard|
    ensures r.Valid() && r.rxstate == TXRECV
  {
    hide RecvStart, ReceiveRun;
    ReceiveRun(RecvStart(rx), heard[..k])
  }

  lemma ReceiveRunNext(s: Driver, bytes: seq<byte>, b: byte)
    requires s.Valid() && s.rxstate == TXRECV
    ensures
      var r := ReceiveRun(s, bytes);
      ReceiveRun(s, bytes + [b]) == if r.radio == Idle then r else ReceiveByte(r, b)
  {
    hide ReceiveByte, Num;
    ReceiveRunSplit(s, bytes, [b]);
    assert [b][1..] == [];
  }

  lemma ReachedNext(rx: Driver, heard: seq<byte>, k: nat)
    requires |rx.buf| == MEM && k < |heard|
    ensures
      var r := Reached(rx, heard, k);
      Reached(rx, heard, k + 1) == if r.radio == Receiving then ReceiveByte(r, heard[k]) else r
  {
    hide RecvStart, ReceiveRun, ReceiveByte;
    assert heard[..k + 1] == heard[..k] + [heard[k]];
    ReceiveRunNext(RecvStart(rx), heard[..k], heard[k]);
  }

  lemma ReachedGroup(rx: Driver, heard: seq<byte>, k: nat)
    requires |rx.buf| == MEM && k <= |heard|
    ensures Reached(rx, heard, k).group == rx.group
  {
    hide Num, ReceiveRun, Update;
    ReceiveRunFrame(RecvStart(rx), heard[..k]);
  }

  lemma {:induction false} ReachedStays(rx: Driver, heard: seq<byte>, k: nat, j: nat)
    requires |rx.buf| == MEM && k <= j <= |heard| && Reached(rx, heard, k).radio == Idle
    ensures Reached(rx, heard, j) == Reached(rx, heard, k)
    decreases j
  {
    hide Reached;
    if k < j {
      ReachedStays(rx, heard, k, j - 1);
      ReachedNext(rx, heard, j - 1);
    }
  }

  // The state of a link on which `packet` is being sent.

  ghost predicate SenderAt(tx: Driver, group: byte, packet: seq<byte>, sent: nat) {
    && sent <= 9 + |packet|
    && tx.Valid()
    && (sent < 9 + |packet| ==> Sending(tx, packet) && tx.group == group && Remaining(tx) == 9 + |packet| - sent)
    && (sent == 9 + |packet| ==> tx.radio != Transmitting)
  }

  /** The listener has taken some of what it heard, and its radio holds the rest. */
  ghost predicate ListenerAt(l: Link, rx: Driver, air: seq<byte>) {
    && |rx.buf| == MEM && |air| >= 9 && l.sent <= |air|
    && var heard := Audible(rx.group, air);
       match l.report
       case None =>
         && l.taken <= HeardCount(rx.group, l.sent) <= |heard| && l.rx == Reached(rx, heard, l.taken)
         && (l.rx.radio == Receiving ==> l.fifo == heard[l.taken..HeardCount(rx.group, l.sent)] && |l.fifo| <= FIFO)
       case Some(d) => l.rx == d && l.rx.rxstate == TXIDLE && RecvDone(Reached(rx, heard, |heard|)) == (true, d)
  }

  /** A listener ends its reception before the two trailer bytes, and reports the packet. */
  ghost predicate Completes(rx: Driver, air: seq<byte>) {
    && |rx.buf| == MEM && |air| >= 9
    && var heard := Audible(rx.group, air);
       Reached(rx, heard, |heard| - 2).radio == Idle && RecvDone(Reached(rx, heard, |heard|)).0
  }

  ghost predicate OnTheWay(l: Link, rx: Driver, group: byte, packet: seq<byte>) {
    && l.Valid() && SenderAt(l.tx, group, packet, l.sent) && ListenerAt(l, rx, OnAir(group, packet))
  }

  lemma SenderActive(tx: Driver, group: byte, packet: seq<byte>, sent: nat)
    requires SenderAt(tx, group, packet, sent)
    ensures sent <= 9 + |packet| && (tx.radio == Transmitting <==> sent < 9 + |packet|)
    ensures sent < 9 + |packet| ==> tx.rxstate != TXIDLE && tx.rxstate != TXRECV
  {
    hide Num, Run, Update, Fed, Packet;
  }

  lemma SenderSteps(tx: Driver, group: byte, packet: seq<byte>, sent: nat)
    requires SenderAt(tx, group, packet, sent) && tx.Live() && tx.rxstate != TXRECV && sent < 9 + |packet|
    ensures SenderAt(SendByte(tx).0, group, packet, sent + 1)
    ensures SendByte(tx).1 == OnAirByte(group, packet, sent)
  {
    hide Num, Run, Update, Fed, Packet, OnAirByte, SendByte;
    SenderActive(tx, group, packet, sent);
    SendStep(tx, packet);
    SendingLive(SendByte(tx).0, packet);
  }

  lemma SenderCalls(tx: Driver, group: byte, packet: seq<byte>, sent: nat, carrier: bool)
    requires SenderAt(tx, group, packet, sent)
    ensures SenderAt(RecvDone(tx).1, group, packet, sent) && SenderAt(CanSend(tx, carrier).1, group, packet, sent)
  {
    hide Num, Run, Update, Fed, Packet, Sending, Remaining, Decrypt, Accepts;
    SenderActive(tx, group, packet, sent);
    PacketUndisturbed(tx, carrier, []);
  }

  /** A byte that was sent joins those that the listener's radio holds, if it hears it. */
  lemma PassHeard(l: Link, rx: Driver, air: seq<byte>, t: Driver)
    requires ListenerAt(l, rx, air) && l.rx.Valid() && l.sent < |air| && |l.fifo| < FIFO
    ensures
      var heard := l.rx.radio == Receiving && l.sent >= SyncLength(l.rx.group);
      ListenerAt(l.(tx := t, sent := l.sent + 1, fifo := if heard then l.fifo + [air[l.sent]] else l.fifo), rx, air)
  {
    hide Num, Reached, RecvDone;
    if l.report.None? {
      ReachedGroup(rx, Audible(rx.group, air), l.taken);
    }
  }

  lemma PassKeeps(l: Link, rx: Driver, group: byte, packet: seq<byte>)
    requires OnTheWay(l, rx, group, packet)
    ensures OnTheWay(PassByte(l), rx, group, packet)
  {
    hide Num, SendByte, OnAir, OnAirByte, SenderAt, ListenerAt;
    SenderActive(l.tx, group, packet, l.sent);
    if l.tx.radio == Transmitting && |l.fifo| < FIFO {
      SenderSteps(l.tx, group, packet, l.sent);
      OnAirBytes(group, packet);
      PassHeard(l, rx, OnAir(group, packet), SendByte(l.tx).0);
    }
  }

  lemma HearKeeps(l: Link, rx: Driver, group: byte, packet: seq<byte>)
    requires OnTheWay(l, rx, group, packet)
    ensures OnTheWay(HearByte(l), rx, group, packet)
  {
    hide Num, ReceiveByte, OnAir, SenderAt, Reached, RecvDone;
    if l.report.None? && l.rx.radio == Receiving && l.fifo != [] {
      ReachedNext(rx, Audible(rx.group, OnAir(group, packet)), l.taken);
    }
  }

  /** When all bytes are sent the reception is complete: the radio holds no more than the trailer. */
  lemma CompleteAtEnd(l: Link, rx: Driver, group: byte, packet: seq<byte>)
    requires OnTheWay(l, rx, group, packet) && Completes(rx, OnAir(group, packet))
    requires l.report.None? && l.sent == 9 + |packet|
    ensures l.rx.radio == Idle
  {
    hide OnAir, SenderAt, Reached, RecvDone, RecvStart, ReceiveRun;
    OnAirBytes(group, packet);
    var heard := Audible(rx.group, OnAir(group, packet));
    if l.rx.radio == Receiving {
      ReachedStays(rx, heard, |heard| - 2, l.taken);
    }
  }

  lemma AskKeeps(l: Link, rx: Driver, group: byte, packet: seq<byte>)
    requires OnTheWay(l, rx, group, packet) && Completes(rx, OnAir(group, packet))
    ensures OnTheWay(Ask(l), rx, group, packet)
    ensures l.sent == 9 + |packet| ==> Ask(l).report.Some?
  {
    hide Num, OnAir, SenderAt, Reached, RecvDone;
    if l.report.None? {
      if l.sent == 9 + |packet| {
        CompleteAtEnd(l, rx, group, packet);
      }
      if l.rx.radio == Idle {
        var heard := Audible(rx.group, OnAir(group, packet));
        ReachedStays(rx, heard, l.taken, |heard|);
        DoneIsIdle(l.rx);
      } else {
        PacketUndisturbed(l.rx, true, []);
      }
    }
  }

  lemma DoneIsIdle(s: Driver)
    requires s.Valid() && RecvDone(s).0
    ensures RecvDone(s).1.rxstate == TXIDLE
  {
    hide RecvDone;
  }

  lemma WantKeeps(l: Link, rx: Driver, group: byte, packet: seq<byte>, noise: bool)
    requires OnTheWay(l, rx, group, packet) && Completes(rx, OnAir(group, packet))
    ensures CanSend(l.rx, noise || l.tx.radio == Transmitting) == (false, l.rx)
  {
    hide Num, OnAir, SenderAt, Reached, RecvDone;
    SenderActive(l.tx, group, packet, l.sent);
    if l.report.None? && l.sent == 9 + |packet| {
      CompleteAtEnd(l, rx, group, packet);
      IdleIsFull(l.rx);
    }
  }

  lemma IdleIsFull(s: Driver)
    requires s.Valid() && s.rxstate == TXRECV && s.radio == Idle
    ensures s.rxfill > 0
  {
    hide Num;
  }

  /** Whatever happens, the link stays on its way. */
  lemma StepKeeps(l: Link, rx: Driver, group: byte, packet: seq<byte>, h: Happening)
    requires OnTheWay(l, rx, group, packet) && Completes(rx, OnAir(group, packet))
    ensures OnTheWay(Step(l, h), rx, group, packet)
  {
    hide OnAir, SenderAt, Completes, Reached, RecvDone, CanSend, PassByte, HearByte, Ask;
    match h
    case SenderByte => PassKeeps(l, rx, group, packet);
    case ListenerByte => HearKeeps(l, rx, group, packet);
    case SenderAsks => SenderCalls(l.tx, group, packet, l.sent, true);
    case SenderWants(noise) => SenderCalls(l.tx, group, packet, l.sent, noise || l.rx.radio == Transmitting);
    case ListenerAsks => AskKeeps(l, rx, group, packet);
    case ListenerWants(noise) => WantKeeps(l, rx, group, packet, noise);
  }

  lemma {:induction false} PlayKeeps(l: Link, rx: Driver, group: byte, packet: seq<byte>, events: seq<Happening>)
    requires l.Valid() && OnTheWay(l, rx, group, packet) && Completes(rx, OnAir(group, packet))
    ensures OnTheWay(Play(l, events), rx, group, packet)
  {
    hide OnTheWay, Completes, OnAir, Step;
    if events != [] {
      var init := events[..|events| - 1];
      PlayKeeps(l, rx, group, packet, init);
      StepKeeps(Play(l, init), rx, group, packet, events[|events| - 1]);
    }
  }

  /** The link right after `tx` was told to send, while `rx` starts to listen. */
  function Sent(tx: Driver, rx: Driver, hdr: byte, data: seq<byte>): (l: Link)
    requires tx.Valid() && tx.rxstate == TXIDLE && |data| <= MAXDATA && |rx.buf| == MEM
    ensures l.Valid()
  {
    hide SendData, RecvStart;
    Link(SendData(tx, hdr, data), RecvStart(rx), 0, [], 0, None)
  }

  /** The packet that goes on the air. */
  function Carried(tx: Driver, hdr: byte, data: seq<byte>): (packet: seq<byte>)
    requires |data| <= MAXDATA
  {
    hide Num, Byte, Header;
    [Header(hdr, tx.nodeid), Byte(|Body(tx, data)|)] + Body(tx, data)
  }

  lemma SentPacketIs(tx: Driver, hdr: byte, data: seq<byte>)
    requires tx.Valid() && tx.rxstate == TXIDLE && |data| <= MAXDATA
    ensures
      var t := SendData(tx, hdr, data);
      && Packet(t.buf) == Carried(tx, hdr, data) && |Carried(tx, hdr, data)| == 2 + t.Len()
      && t.group == tx.group && SenderAt(t, tx.group, Carried(tx, hdr, data), 0)
  {
    hide Num, Byte, Header, Update, LoadData, SendStart, Body, Packet, SenderAt, Sending, Remaining;
    var s := LoadData(tx, data);
    LoadKeeps(tx, data);
    SentPacket(s, hdr, data, Body(tx, data));
    SendStartSends(s, hdr);
    StartedAt(SendStart(s, hdr), Carried(tx, hdr, data));
  }

  lemma LoadKeeps(tx: Driver, data: seq<byte>)
    requires tx.Valid() && tx.rxstate == TXIDLE && |data| <= MAXDATA
    ensures LoadData(tx, data).nodeid == tx.nodeid && LoadData(tx, data).group == tx.group
    ensures Body(LoadData(tx, data), data) == Body(tx, data)
  {
    hide LoadData, Num, Encode, Sealed, PadOf;
    BodySame(LoadData(tx, data), tx, data);
  }

  lemma BodySame(s: Driver, t: Driver, data: seq<byte>)
    requires s.crypt == t.crypt && s.key == t.key && s.seqNum == t.seqNum
    ensures Body(s, data) == Body(t, data)
  {
    hide Encode, Sealed, PadOf;
  }

  lemma StartedAt(t: Driver, packet: seq<byte>)
    requires Sending(t, packet) && Remaining(t) == 9 + |packet|
    ensures SenderAt(t, t.group, packet, 0)
  {
    hide Num, Update, Packet, Sending;
    SendingLive(t, packet);
  }

  lemma NothingReached(rx: Driver, heard: seq<byte>)
    requires |rx.buf| == MEM
    ensures Reached(rx, heard, 0) == RecvStart(rx)
  {
    hide RecvStart;
    assert heard[..0] == [];
  }

  lemma SentOnTheWay(tx: Driver, rx: Driver, hdr: byte, data: seq<byte>)
    requires tx.Valid() && tx.rxstate == TXIDLE && |data| <= MAXDATA && |rx.buf| == MEM
    ensures OnTheWay(Sent(tx, rx, hdr, data), rx, tx.group, Carried(tx, hdr, data))
  {
    hide OnAir, RecvStart, RecvDone, SendData, SenderAt, Carried, Reached;
    var packet := Carried(tx, hdr, data);
    SentPacketIs(tx, hdr, data);
    OnAirBytes(tx.group, packet);
    NothingReached(rx, Audible(rx.group, OnAir(tx.group, packet)));
  }

  /** What a listener can hear of a packet: its frame and the trailer. */
  lemma AudibleFrame(group: byte, listener: byte, packet: seq<byte>)
    ensures |OnAir(group, packet)| == 9 + |packet|
    ensures Audible(listener, OnAir(group, packet)) == Heard(listener, OnAir(group, packet))
    ensures
      var heard := Audible(listener, OnAir(group, packet));
      heard[..|heard| - 2] == AfterSync(listener, Frame(group, packet))
  {
    hide OnAir, Frame;
    OnAirBytes(group, packet);
    HeardFrame(group, listener, packet);
    FrameNotEmpty(group, packet);
    CutTrailer(listener, Frame(group, packet));
  }

  lemma FrameNotEmpty(group: byte, packet: seq<byte>)
    ensures Frame(group, packet) != []
  {
  }

  lemma CutTrailer(group: byte, frame: seq<byte>)
    requires frame != []
    ensures
      var all := AfterSync(group, frame + [0xAA, 0xAA]);
      |all| >= 2 && all[..|all| - 2] == AfterSync(group, frame)
  {
  }

  /** All of a packet within the limit, heard by an accepting node, is what `Deliver` gives. */
  lemma SentCompletes(tx: Driver, rx: Driver, hdr: byte, data: seq<byte>)
    requires tx.Valid() && tx.rxstate == TXIDLE && |rx.buf| == MEM
    requires rx.group != 0 ==> rx.group == tx.group
    requires |data| <= Limit(tx) && Deliver(tx, rx, hdr, data).0
    ensures
      var air := OnAir(tx.group, Carried(tx, hdr, data));
      && Completes(rx, air)
      && RecvDone(Reached(rx, Audible(rx.group, air), |Audible(rx.group, air)|)) == Deliver(tx, rx, hdr, data)
  {
    hide Num, Byte, Header, Low, High, Check, OnAir, RecvStart, ReceiveRun, RecvDone, SendData, SendRun, Remaining, Body, Frame, AfterSync, Heard;
    var packet := Carried(tx, hdr, data);
    OnAirOfSend(tx, hdr, data, Body(tx, data));
    AudibleFrame(tx.group, rx.group, packet);
    NumOfByte(|Body(tx, data)|);
    FrameReceived(rx, tx.group, packet, []);
    var heard := Audible(rx.group, OnAir(tx.group, packet));
    assert Frame(tx.group, packet) + [] == Frame(tx.group, packet);
    assert heard[..|heard|] == heard;
  }

  /**
    In every schedule of interrupts and calls at both ends, what the listener's
    program is given is the packet, whole and good; and once the 11 + len bytes
    are out it is given at the next call.
   */
  lemma DeliveredInEverySchedule(tx: Driver, rx: Driver, hdr: byte, data: seq<byte>, events: seq<Happening>)
    requires tx.Valid() && tx.rxstate == TXIDLE && |rx.buf| == MEM
    requires rx.group != 0 ==> rx.group == tx.group
    requires rx.crypt == tx.crypt && rx.key == tx.key
    requires |data| <= Limit(tx)
    requires Accepts(rx.nodeid, Header(hdr, tx.nodeid))
    ensures
      var l := Play(Sent(tx, rx, hdr, data), events);
      && (l.report.Some? ==> l.report.value == Deliver(tx, rx, hdr, data).1)
      && (l.report.Some? ==> Arrived(l.report.value, tx, hdr, data))
      && (l.sent == 11 + SendData(tx, hdr, data).Len() ==> Step(l, ListenerAsks).report.Some?)
  {
    hide SendData, Deliver, Reached, RecvDone, OnAir, SenderAt, Play, Ask, Arrived, Accepts, Header, Carried, Completes, Sent;
    var packet := Carried(tx, hdr, data);
    EndToEnd(tx, rx, hdr, data);
    SentCompletes(tx, rx, hdr, data);
    SentOnTheWay(tx, rx, hdr, data);
    SentPacketIs(tx, hdr, data);
    PlayKeeps(Sent(tx, rx, hdr, data), rx, tx.group, packet, events);
    AskKeeps(Play(Sent(tx, rx, hdr, data), events), rx, tx.group, packet);
  }
}
