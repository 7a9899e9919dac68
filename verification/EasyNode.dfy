/** The easy-send layer on top of the driver, as one object. */
module EasyNode {
  import opened Bytes
  import opened Rf12
  import opened Rf12Node
  import opened EasySend
  import Xxtea
  import RadioSeal
  import RadioLink
  import RadioDelivery
  import RadioPackets

  /** The header of an acknowledgement addressed to this node. */
  function AckHeader(nodeid: byte): byte { HDR_CTL | HDR_DST | (nodeid & HDR_MASK) }

  function Band(nodeid: byte): nat { Num(nodeid >> 6) }

  /** The driver reported a good packet that acknowledges our payload. */
  predicate IsAck(done: bool, d: Driver)
    requires |d.buf| == MEM
  {
    done && d.crc == 0 && d.Hdr() == AckHeader(d.nodeid)
  }

  /** The first half of `rf12_easyPoll`: takes a packet, and says if it is an ack with data. */
  function TakeAck(e: Easy, d: Driver): (r: (bool, Easy, Driver))
    requires d.Valid()
    ensures r.2.Valid() && r.1.data == e.data
  {
    hide Num, Decrypt, Accepts, AckHeader;
    var (done, d1) := Rf12.RecvDone(d);
    if IsAck(done, d1) then (d1.Len() > 0, Acknowledge(e), d1) else (false, e, d1)
  }

  /** The second half: sends the payload if it is due and the channel is free. */
  function SendDue(e: Easy, d: Driver, now: int, carrier: bool): (r: (Easy, Driver))
    requires d.Valid() && |e.data| <= MAXDATA
    ensures r.1.Valid()
  {
    if Due(e, now) then
      var (free, d1) := Rf12.CanSend(d, carrier);
      if free then (Transmit(e, now, Band(d.nodeid)), Rf12.SendData(d1, HDR_ACK, e.data)) else (e, d1)
    else (e, d)
  }

  /** `rf12_easyPoll` over both layers: its result, and their states after it. */
  function PollBoth(e: Easy, d: Driver, now: int, carrier: bool): (r: (int, Easy, Driver))
    requires d.Valid() && |e.data| <= MAXDATA
    ensures r.2.Valid()
  {
    hide TakeAck, SendDue;
    var (ackData, e1, d1) := TakeAck(e, d);
    if ackData then (1, e1, d1)
    else
      var (e2, d2) := SendDue(e1, d1, now, carrier);
      (if e2.pending > 0 then -1 else 0, e2, d2)
  }

  /** Seen from the easy-send layer, polling both is the poll step of its runs. */
  lemma PollBothIsPoll(e: Easy, d: Driver, now: int, carrier: bool)
    requires d.Valid() && |e.data| <= MAXDATA
    ensures
      var (done, d1) := Rf12.RecvDone(d);
      var ev := Poll(now, IsAck(done, d1), Rf12.CanSend(d1, carrier).0);
      && PollBoth(e, d, now, carrier).1 == Step(e, ev, Band(d1.nodeid)).0
      && (PollBoth(e, d, now, carrier).0 == 0 ==> PollBoth(e, d, now, carrier).1.pending == 0)
      && (PollBoth(e, d, now, carrier).0 == -1 <==> PollBoth(e, d, now, carrier).1.pending > 0)
  {
    hide Num, Decrypt, Accepts, SendData, IsAck;
  }

  // What goes on the air.

  /** A payload is due, and the driver listens, has heard nothing and senses no carrier. */
  predicate CanGoOut(e: Easy, d: Driver, now: int, carrier: bool) {
    && e.pending > 0 && now >= (if e.pending == 8 then e.nextData else e.nextRetry)
    && d.rxstate == TXRECV && d.rxfill == 0 && d.radio == Receiving && !carrier
  }

  lemma PollTells(e: Easy, d: Driver, now: int, carrier: bool)
    requires d.Valid() && |e.data| <= MAXDATA && CanGoOut(e, d, now, carrier)
    ensures d.(rxstate := TXIDLE, radio := Idle).Valid()
    ensures PollBoth(e, d, now, carrier).1.pending == e.pending - 1
    ensures PollBoth(e, d, now, carrier).2 == SendData(d.(rxstate := TXIDLE, radio := Idle), 0x20, e.data)
    ensures PollBoth(e, d, now, carrier).2.rxstate == TXPRE1
  {
    hide Num, Decrypt, Accepts, SendData;
  }

  /** A payload that can go out does: the packet on the air is the installed payload, asking for an acknowledgement. */
  lemma PollSendsPayload(e: Easy, d: Driver, now: int, carrier: bool)
    requires d.Valid() && |e.data| <= MAXDATA && CanGoOut(e, d, now, carrier)
    ensures
      var sender := PollBoth(e, d, now, carrier).2;
      && sender.rxstate == TXPRE1
      && var body := RadioDelivery.Body(d, e.data);
         && (!d.crypt ==> body == e.data)
         && RadioLink.SendRun(sender, RadioLink.Remaining(sender)).0 ==
              RadioLink.OnAir(d.group, [0x20 | (d.nodeid & 0x1F), Byte(|body|)] + body)
  {
    hide PollBoth, RadioLink.SendRun, RadioLink.Remaining, RadioLink.OnAir, SendData, Byte, Num, Header, RadioDelivery.Body;
    var idle := d.(rxstate := TXIDLE, radio := Idle);
    PollTells(e, d, now, carrier);
    BodyOf(d, idle, e.data);
    EasyHeader(d.nodeid);
    RadioDelivery.OnAirOfSend(idle, 0x20, e.data, RadioDelivery.Body(idle, e.data));
  }

  lemma BodyOf(d: Driver, idle: Driver, data: seq<byte>)
    requires idle == d.(rxstate := TXIDLE, radio := Idle) && |data| <= MAXDATA
    ensures RadioDelivery.Body(idle, data) == RadioDelivery.Body(d, data)
    ensures |RadioDelivery.Body(d, data)| <= MAXDATA + 2 && (!d.crypt ==> RadioDelivery.Body(d, data) == data)
  {
    hide Xxtea.Encode, RadioSeal.Sealed, PadOf;
  }

  lemma EasyHeader(nodeid: byte)
    ensures Header(0x20, nodeid) == 0x20 | (nodeid & 0x1F)
  {
  }

  /** The installed payload arrives at every node on the link. */
  lemma PayloadArrives(e: Easy, d: Driver, now: int, carrier: bool, rx: Driver)
    requires d.Valid() && CanGoOut(e, d, now, carrier) && |rx.buf| == MEM
    requires rx.group != 0 ==> rx.group == d.group
    requires rx.crypt == d.crypt && rx.key == d.key
    requires |e.data| <= if d.crypt then 63 else 66
    ensures
      var sender := PollBoth(e, d, now, carrier).2;
      && sender.rxstate == TXPRE1
      && var air := RadioLink.SendRun(sender, RadioLink.Remaining(sender)).0;
         var (done, v) := Rf12.RecvDone(RadioLink.ReceiveRun(RecvStart(rx), RadioDelivery.Heard(rx.group, air)));
         && done && v.crc == 0 && |v.buf| >= 3 + |e.data| && Num(v.buf[2]) == |e.data| && v.buf[3..3 + |e.data|] == e.data
         && v.buf[1] == 0x20 | (d.nodeid & 0x1F)
  {
    hide PollBoth, RadioLink.SendRun, RadioLink.Remaining, RadioLink.ReceiveRun, RecvStart, Rf12.RecvDone, RadioDelivery.Heard, SendData, Num;
    var idle := d.(rxstate := TXIDLE, radio := Idle);
    PollTells(e, d, now, carrier);
    RadioPackets.PacketReceived(idle, rx, 0x20, e.data);
    EasyHeaderBits(d.nodeid);
  }

  lemma EasyHeaderBits(nodeid: byte)
    ensures 0x20 & 0x40 == 0 as byte && (0x20 & 0xE0) | (nodeid & 0x1F) == 0x20 | (nodeid & 0x1F)
  {
  }

  // Acknowledgements and gaps.

  /** The header with which a program replies to a packet with header `hdr`, as RF12_ACK_REPLY forms it. */
  function AckReply(hdr: byte): byte {
    if hdr & 0x40 != 0 then 0x80 else 0x80 | 0x40 | (hdr & 0x1F)
  }

  /** The reply to an easy-send packet is addressed to its sender and recognised there as its acknowledgement. */
  lemma AckArrives(other: Driver, d: Driver)
    requires other.Valid() && other.rxstate == TXIDLE && |d.buf| == MEM
    requires d.group != 0 ==> d.group == other.group
    requires d.crypt == other.crypt && d.key == other.key
    ensures
      var (done, v) := RadioDelivery.Deliver(other, d, AckReply(0x20 | (d.nodeid & 0x1F)), []);
      |v.buf| == MEM && IsAck(done, v)
  {
    hide RadioDelivery.Deliver, Num, RadioPackets.BitsKept;
    var hdr := AckReply(0x20 | (d.nodeid & 0x1F));
    AckBits(d.nodeid);
    RadioPackets.PacketReceived(other, d, hdr, []);
    RadioPackets.DeliverKeepsId(other, d, hdr, []);
  }

  lemma AckBits(nodeid: byte)
    ensures
      var hdr := AckReply(0x20 | (nodeid & 0x1F));
      hdr & 0x40 != 0 && hdr & 0x1F == nodeid & 0x1F && hdr == AckHeader(nodeid)
  {
  }

  /** The gap in numbers: a second for each second configured, else by frequency band. */
  lemma GapInNumbers(interval: nat, nodeid: byte, len: nat)
    ensures Gap(interval, Band(nodeid), len) ==
      if interval > 0 then 1000 * interval else if nodeid & 0xC0 == 0x80 then 13 * (len + 10) else 100
  {
    BandBits(nodeid);
  }

  lemma BandBits(nodeid: byte)
    ensures Num(nodeid >> 6) == 2 <==> nodeid & 0xC0 == 0x80
  {
  }

  /** In milliseconds: how far apart two first attempts of a node are at least. */
  lemma FirstAttemptsApartMs(events: seq<Event>, nodeid: byte, i: nat, j: nat)
    requires Ordered(events) && i < j < |Run(events, Band(nodeid)).1|
    requires Run(events, Band(nodeid)).1[i].Sent? && Run(events, Band(nodeid)).1[j].Sent?
    requires First(Run(events, Band(nodeid)).1[..i]) && First(Run(events, Band(nodeid)).1[..j])
    ensures
      var h := Run(events, Band(nodeid)).1;
      var interval := IntervalOf(h[..i]);
      h[j].at >= h[i].at +
        if interval > 0 then 1000 * interval else if nodeid & 0xC0 == 0x80 then 13 * (|h[i].data| + 10) else 100
  {
    hide Run, First, IntervalOf, Gap, Band;
    var h := Run(events, Band(nodeid)).1;
    FirstAttemptsApart(events, Band(nodeid), i, j);
    GapInNumbers(IntervalOf(h[..i]), nodeid, |h[i].data|);
  }

  class EasyNode {
    const node: Node
    const ezSendBuf: array<byte>
    var ezInterval: nat
    var ezSendLen: nat
    var ezPending: nat
    var ezNextRetry: int  // ezNextSend[0]
    var ezNextData: int   // ezNextSend[1]

    ghost predicate Valid()
      reads this, node, node.buf, ezSendBuf
    {
      && node.State().Valid() && ezSendBuf.Length == MAXDATA && ezSendLen <= MAXDATA
      && ezSendBuf != node.buf
    }

    ghost function Layer(): Easy
      requires ezSendLen <= ezSendBuf.Length
      reads this, ezSendBuf
    {
      Easy(ezInterval, ezSendBuf[..ezSendLen], ezPending, ezNextRetry, ezNextData)
    }

    constructor (n: Node)
      requires n.State().Valid()
      ensures Valid() && node == n && Layer() == INITIAL
    {
      node := n;
      ezSendBuf := new byte[MAXDATA];
      ezInterval, ezSendLen, ezPending, ezNextRetry, ezNextData := 0, 0, 0, 0, 0;
    }

    method EasyInit(secs: nat)
      requires Valid()
      modifies `ezInterval
      ensures Valid() && Layer() == old(Layer()).(interval := secs)
    {
      ezInterval := secs;
    }

    method EasySend(data: Option<seq<byte>>) returns (accepted: bool)
      requires Valid() && (data.Some? ==> |data.value| <= MAXDATA)
      modifies this, ezSendBuf
      ensures Valid() && node.State() == old(node.State())
      ensures (accepted, Layer()) == Submit(old(Layer()), data)
    {
      if data.Some? && |data.value| != 0 {
        var size := |data.value|;
        if ezNextRetry == 0 && size == ezSendLen && ezSendBuf[..size] == data.value {
          return false;
        }
        forall i | 0 <= i < size {
          ezSendBuf[i] := data.value[i];
        }
        ezSendLen := size;
        assert ezSendBuf[..ezSendLen] == data.value;
      }
      ezPending := RETRIES;
      accepted := true;
    }

    method PollAck() returns (ackData: bool)
      requires Valid()
      modifies this, node, node.buf
      ensures Valid() && (ackData, Layer(), node.State()) == TakeAck(old(Layer()), old(node.State()))
    {
      hide Num, Decrypt, Accepts, AckHeader;
      var done := node.RecvDone();
      if done && node.crc == 0 {
        if node.buf[1] == AckHeader(node.nodeid) {
          ezPending := 0;
          ezNextRetry := 0;
          if Num(node.buf[2]) > 0 {
            return true;
          }
        }
      }
      ackData := false;
    }

    method PollSend(now: int, carrier: bool)
      requires Valid() && ezSendLen <= MAXDATA
      modifies this, node, node.buf
      ensures Valid() && (Layer(), node.State()) == SendDue(old(Layer()), old(node.State()), now, carrier)
    {
      hide Num, Rf12.SendData, Header;
      if ezPending > 0 {
        var newData := ezPending == RETRIES;
        if now >= (if newData then ezNextData else ezNextRetry) {
          var free := node.CanSend(carrier);
          if free {
            ezNextRetry := now + RETRY_MS;
            if newData {
              ezNextData := now + Gap(ezInterval, Band(node.nodeid), ezSendLen);
            }
            node.SendData(HDR_ACK, ezSendBuf[..ezSendLen]);
            ezPending := ezPending - 1;
          }
        }
      }
    }

    method EasyPoll(now: int, carrier: bool) returns (result: int)
      requires Valid() && ezSendLen <= MAXDATA
      modifies this, node, node.buf
      ensures Valid()
      ensures (result, Layer(), node.State()) == PollBoth(old(Layer()), old(node.State()), now, carrier)
    {
      hide TakeAck, SendDue;
      var ackData := PollAck();
      if ackData {
        return 1;
      }
      PollSend(now, carrier);
      result := if ezPending > 0 then -1 else 0;
    }
  }
}
