/** What a program sees of the radio: which packets it gets, their contents and their numbers. */
module RadioPackets {
  import opened Bytes
  import opened Crc16
  import opened Rf12
  import opened RadioSeal
  import opened RadioLink
  import opened RadioDelivery

  // Headers.

  /** Packets without the destination bit are for everyone, the others for their destination and for node 31. */
  lemma WhoAccepts(nodeid: byte, hdr: byte, sender: byte)
    ensures Accepts(nodeid, Header(hdr, sender)) <==>
      hdr & 0x40 == 0 || nodeid & 0x1F == 31 || hdr & 0x1F == nodeid & 0x1F
  {
  }

  /** A header with the destination bit is sent as it is, another one with the sender's id. */
  lemma SentHeader(hdr: byte, sender: byte)
    ensures Header(hdr, sender) == if hdr & 0x40 != 0 then hdr else (hdr & 0xE0) | (sender & 0x1F)
  {
  }

  /** The 6, 14, 22 or 30 bits of a number that go with a payload, by its length. */
  function BitsKept(n: nat, len: nat): nat {
    match len % 4
    case 3 => n % 0x40
    case 2 => n % 0x4000
    case 1 => n % 0x40_0000
    case _ => n % 0x4000_0000
  }

  lemma BitsKeptIs(n: word32, len: nat)
    ensures SentPart(n, len) == BitsKept(n, len)
  {
  }

  /**
    A packet of up to 66 bytes, 63 if encrypted, is reported by exactly the
    nodes it is for, with its header, its bytes and its sequence number.
   */
  lemma PacketReceived(tx: Driver, rx: Driver, hdr: byte, data: seq<byte>)
    requires tx.Valid() && tx.rxstate == TXIDLE && |rx.buf| == MEM
    requires rx.group != 0 ==> rx.group == tx.group
    requires rx.crypt == tx.crypt && rx.key == tx.key
    requires |data| <= if tx.crypt then 63 else 66
    ensures
      var (done, v) := Deliver(tx, rx, hdr, data);
      && (done <==> hdr & 0x40 == 0 || rx.nodeid & 0x1F == 31 || hdr & 0x1F == rx.nodeid & 0x1F)
      && (done ==> v.crc == 0 && |v.buf| >= 3 + |data| && v.buf[3..3 + |data|] == data && Num(v.buf[2]) == |data|)
      && (done ==> v.buf[1] == if hdr & 0x40 != 0 then hdr else (hdr & 0xE0) | (tx.nodeid & 0x1F))
      && (done ==> v.sequence == if tx.crypt then BitsKept((tx.seqNum + 1) % 0x1_0000_0000, |data|) else -1)
  {
    hide Deliver, Accepts, Header, Num, SentPart, BitsKept;
    WhoAccepts(rx.nodeid, hdr, tx.nodeid);
    SentHeader(hdr, tx.nodeid);
    BitsKeptIs((tx.seqNum + 1) % 0x1_0000_0000, |data|);
    if Accepts(rx.nodeid, Header(hdr, tx.nodeid)) {
      EndToEnd(tx, rx, hdr, data);
    } else {
      NotAddressed(tx, rx, hdr, data);
    }
  }

  /** Receiving changes neither the receiver's id nor the size of its buffer. */
  lemma DeliverKeepsId(tx: Driver, rx: Driver, hdr: byte, data: seq<byte>)
    requires tx.Valid() && tx.rxstate == TXIDLE && |data| <= MAXDATA && |rx.buf| == MEM
    ensures
      var v := Deliver(tx, rx, hdr, data).1;
      v.nodeid == rx.nodeid && |v.buf| == MEM
  {
    hide SendData, ReceiveRun, Remaining, SendRun, Heard, Num, Update, Accepts, Decrypt;
    var t := SendData(tx, hdr, data);
    ReceiveRunFrame(RecvStart(rx), Heard(rx.group, SendRun(t, Remaining(t)).0));
  }

  // Sequence numbers over a run.

  datatype Outgoing = Outgoing(hdr: byte, data: seq<byte>)

  /** The sender when the last byte of a packet is out. */
  function AfterSending(s: Driver, p: Outgoing): (r: Driver)
    requires s.Valid() && s.rxstate == TXIDLE && |p.data| <= MAXDATA
    ensures r.Valid() && r.rxstate == TXIDLE
  {
    hide SendRun, Remaining, LoadData, SendStart, Check, Packet;
    var t := SendData(s, p.hdr, p.data);
    TransmitExact(LoadData(s, p.data), p.hdr);
    SendRun(t, 11 + t.Len()).1
  }

  /** Encryption counts the packets; nothing else that a receiver depends on changes. */
  lemma SendingCounts(s: Driver, p: Outgoing)
    requires s.Valid() && s.rxstate == TXIDLE && |p.data| <= MAXDATA
    ensures
      var t := SendData(s, p.hdr, p.data);
      && t.seqNum == (if s.crypt then (s.seqNum + 1) % 0x1_0000_0000 else s.seqNum)
      && t.nodeid == s.nodeid && t.group == s.group && t.key == s.key && t.crypt == s.crypt
  {
    hide Num, Update, Header, LoadData, PadOf, CloseBlock, AppendSeq, EncodeBlock;
  }

  lemma AfterSendingCounts(s: Driver, p: Outgoing)
    requires s.Valid() && s.rxstate == TXIDLE && |p.data| <= MAXDATA
    ensures
      var t := AfterSending(s, p);
      && t.seqNum == (if s.crypt then (s.seqNum + 1) % 0x1_0000_0000 else s.seqNum)
      && t.nodeid == s.nodeid && t.group == s.group && t.key == s.key && t.crypt == s.crypt
  {
    hide SendRun, Remaining, LoadData, SendStart, Check, Packet;
    SendingCounts(s, p);
    TransmitExact(LoadData(s, p.data), p.hdr);
  }

  function AfterAll(s: Driver, packets: seq<Outgoing>): (r: Driver)
    requires s.Valid() && s.rxstate == TXIDLE && forall i :: 0 <= i < |packets| ==> |packets[i].data| <= MAXDATA
    ensures r.Valid() && r.rxstate == TXIDLE
  {
    if packets == [] then s else AfterSending(AfterAll(s, packets[..|packets| - 1]), packets[|packets| - 1])
  }

  lemma {:induction false} AllCount(s: Driver, packets: seq<Outgoing>)
    requires s.Valid() && s.rxstate == TXIDLE && forall i :: 0 <= i < |packets| ==> |packets[i].data| <= MAXDATA
    ensures
      var t := AfterAll(s, packets);
      && t.seqNum == (if s.crypt then (s.seqNum + |packets|) % 0x1_0000_0000 else s.seqNum)
      && t.nodeid == s.nodeid && t.group == s.group && t.key == s.key && t.crypt == s.crypt
  {
    hide AfterSending;
    if packets != [] {
      var init := packets[..|packets| - 1];
      AllCount(s, init);
      AfterSendingCounts(AfterAll(s, init), packets[|packets| - 1]);
      NextNumber(s.seqNum, |init|);
    }
  }

  lemma NextNumber(n: nat, k: nat)
    ensures ((n + k) % 0x1_0000_0000 + 1) % 0x1_0000_0000 == (n + k + 1) % 0x1_0000_0000
  {
    var q, r := (n + k) / 0x1_0000_0000, (n + k) % 0x1_0000_0000;
    assert n + k + 1 == 0x1_0000_0000 * q + (r + 1);
    if r + 1 == 0x1_0000_0000 {
      assert n + k + 1 == 0x1_0000_0000 * (q + 1);
    }
  }

  /** Of packets sent one after the other, packet `i` arrives with number `i` counted from the first. */
  lemma NumberedInOrder(tx: Driver, rx: Driver, packets: seq<Outgoing>, i: nat)
    requires tx.Valid() && tx.rxstate == TXIDLE && |rx.buf| == MEM && tx.crypt
    requires rx.group != 0 ==> rx.group == tx.group
    requires rx.crypt && rx.key == tx.key
    requires i < |packets| && |packets[i].data| <= 63
    requires forall j :: 0 <= j < |packets| ==> |packets[j].data| <= MAXDATA
    ensures
      var (done, v) := Deliver(AfterAll(tx, packets[..i]), rx, packets[i].hdr, packets[i].data);
      done ==> v.sequence == BitsKept((tx.seqNum + i + 1) % 0x1_0000_0000, |packets[i].data|)
  {
    hide Deliver, AfterAll, BitsKept;
    AllCount(tx, packets[..i]);
    NextNumber(tx.seqNum, i);
    PacketReceived(AfterAll(tx, packets[..i]), rx, packets[i].hdr, packets[i].data);
  }

  // Listening and permission.

  /** A program that asks an idle driver gets nothing yet, and the driver listens for the next packet. */
  lemma ListensWhenAsked(s: Driver)
    requires s.Valid() && s.rxstate == TXIDLE
    ensures
      var (done, t) := RecvDone(s);
      && !done && t.radio == Receiving && t.rxstate == TXRECV && t.rxfill == 0 && t.buf[2] == 0
      && t.crc == Run(0xFFFF, if s.group != 0 then [s.group] else [])
  {
    hide Num, Update;
    RunLast(START, [], s.group);
    assert [] + [s.group] == [s.group];
  }

  /** While a driver listens and has heard nothing, it permits sending exactly if there is no carrier. */
  lemma PermitsWhenQuiet(s: Driver, carrier: bool)
    requires |s.buf| == MEM
    ensures CanSend(RecvStart(s), carrier).0 <==> !carrier
    ensures !carrier ==> CanSend(RecvStart(s), carrier).1 == RecvStart(s).(rxstate := TXIDLE, radio := Idle)
  {
    hide Num, Update;
  }
}
