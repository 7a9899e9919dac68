/** End to end: what one node sends is what another one receives. */
module RadioDelivery {
  import opened Bytes
  import opened Crc16
  import opened Xxtea
  import opened Rf12
  import opened RadioSeal
  import opened RadioLink

  /** The buffer bytes of a received packet: group, header, length, data and checksum. */
  function Frame(group: byte, packet: seq<byte>): seq<byte> {
    var c := Check(group, packet);
    [group] + packet + [Low(c), High(c)]
  }

  lemma FrameZero(group: byte, packet: seq<byte>)
    ensures Run(START, Frame(group, packet)) == 0
  {
    hide Update, Low, High;
    RunLast(START, [], group);
    assert [] + [group] == [group];
    RunConcat(START, [group], packet);
    FrameChecks(START, [group] + packet);
  }

  ghost predicate WellFormed(packet: seq<byte>) {
    |packet| >= 2 && |packet| == 2 + Num(packet[1])
  }

  /** A well-formed frame that fits is taken whole, and nothing after it. */
  lemma TakenFrame(group: byte, packet: seq<byte>, extra: seq<byte>)
    requires WellFormed(packet) && |packet| <= MAXDATA + 2
    ensures Taken(Frame(group, packet) + extra) == Frame(group, packet)
  {
    hide Num, Low, High, Check;
    var f := Frame(group, packet);
    assert (f + extra)[2] == packet[1];
    assert (f + extra)[..|f|] == f;
  }

  lemma FrameReceived(s: Driver, group: byte, packet: seq<byte>, extra: seq<byte>)
    requires |s.buf| == MEM && (s.group != 0 ==> s.group == group)
    requires WellFormed(packet) && |packet| <= MAXDATA + 2
    ensures
      var t := ReceiveRun(RecvStart(s), AfterSync(s.group, Frame(group, packet) + extra));
      && t == RecvStart(s).(buf := t.buf, rxfill := |packet| + 3, crc := 0, radio := Idle)
      && t.buf[..3] == [group] + packet[..2]
      && Holds(t.buf, packet[2..])
  {
    hide Num, Low, High, Update, Run, Check, RecvStart, ReceiveRun, Taken;
    var f := Frame(group, packet);
    ReceiveExact(s, f + extra);
    TakenFrame(group, packet, extra);
    FrameZero(group, packet);
    var t := ReceiveRun(RecvStart(s), AfterSync(s.group, f + extra));
    CollectedFull(t, f);
    assert f[2] == packet[1];
    FrameParts(t.buf, group, packet);
  }

  lemma FrameParts(buf: seq<byte>, group: byte, packet: seq<byte>)
    requires |packet| >= 2 && |packet| + 3 <= |buf| && buf[..|packet| + 3] == Frame(group, packet)
    ensures buf[..3] == [group] + packet[..2]
    ensures Holds(buf, packet[2..])
  {
    hide Low, High, Check;
    var f := Frame(group, packet);
    Subslice(buf, 0, |f|, 0, 3);
    Subslice(buf, 0, |f|, 3, 1 + |packet|);
    assert f[..3] == [group] + packet[..2];
    assert f[3..1 + |packet|] == packet[2..];
  }

  // What is sent.

  /** The payload as the link carries it. */
  function Body(s: Driver, data: seq<byte>): (r: seq<byte>)
    ensures |r| == if s.crypt then |data| + PadOf(|data|) + 1 else |data|
  {
    if s.crypt then Encode(s.key, Sealed(data, (s.seqNum + 1) % WRAP32)) else data
  }

  lemma SentPacket(s: Driver, hdr: byte, data: seq<byte>, body: seq<byte>)
    requires s.Valid() && s.rxstate == TXIDLE && s.Len() == |data| <= MAXDATA
    requires Holds(s.buf, data) && body == Body(s, data)
    ensures SendStart(s, hdr).group == s.group && SendStart(s, hdr).Len() == |body| <= MAXDATA + 2
    ensures Packet(SendStart(s, hdr).buf) == [Header(hdr, s.nodeid), Byte(|body|)] + body
  {
    hide Num, Byte, Encode, Header, Update, PadOf, Encrypt, Sealed;
    var addressed := s.(buf := s.buf[1 := Header(hdr, s.nodeid)]);
    Subslice(addressed.buf, 0, MEM, 3, 3 + |data|);
    assert addressed.buf[3..3 + |data|] == s.buf[3..3 + |data|];
    var t := SendStart(s, hdr);
    if s.crypt {
      EncryptSeals(addressed, data, Sealed(data, (s.seqNum + 1) % WRAP32));
    }
    PacketParts(t.buf, body);
  }

  lemma PacketParts(buf: seq<byte>, body: seq<byte>)
    requires |buf| == MEM && Num(buf[2]) == |body| <= MAXDATA + 2 && Holds(buf, body)
    ensures Packet(buf) == [buf[1], Byte(|body|)] + body
  {
    hide Num, Byte;
    ByteOfNum(buf[2]);
    assert Packet(buf) == [buf[1], buf[2]] + buf[3..3 + |body|];
  }

  // Both ends together.

  /** What a listening node hears of a transmission: the bytes after its sync pattern. */
  function Heard(group: byte, air: seq<byte>): seq<byte>
  {
    if |air| < 5 then [] else if group != 0 then air[5..] else air[4..]
  }

  lemma HeardFrame(group: byte, listener: byte, packet: seq<byte>)
    ensures Heard(listener, OnAir(group, packet)) == AfterSync(listener, Frame(group, packet) + [0xAA, 0xAA])
  {
    hide Low, High, Check;
  }

  /** Sends `data` from `tx`, lets the listening `rx` hear it, and asks `rx` what it got. */
  function Deliver(tx: Driver, rx: Driver, hdr: byte, data: seq<byte>): (r: (bool, Driver))
    requires tx.Valid() && tx.rxstate == TXIDLE && |data| <= MAXDATA && |rx.buf| == MEM
  {
    hide SendData, RecvStart, ReceiveRun, RecvDone, Remaining;
    var t := SendData(tx, hdr, data);
    var air := SendRun(t, Remaining(t)).0;
    RecvDone(ReceiveRun(RecvStart(rx), Heard(rx.group, air)))
  }

  lemma OnAirOfSend(tx: Driver, hdr: byte, data: seq<byte>, body: seq<byte>)
    requires tx.Valid() && tx.rxstate == TXIDLE && |data| <= MAXDATA
    requires body == Body(tx, data) && |body| <= MAXDATA + 2
    ensures
      var t := SendData(tx, hdr, data);
      SendRun(t, Remaining(t)).0 == OnAir(tx.group, [Header(hdr, tx.nodeid), Byte(|body|)] + body)
  {
    hide Remaining, Num, Byte, Header, Update, OnAir, Encode, Sealed, LoadData, SendStart, Packet;
    var s := LoadData(tx, data);
    TransmitExact(s, hdr);
    SentPacket(s, hdr, data, body);
  }

  /** What the receiver holds when the transmission is over. */
  lemma Received(tx: Driver, rx: Driver, hdr: byte, data: seq<byte>, body: seq<byte>)
    requires tx.Valid() && tx.rxstate == TXIDLE && |data| <= MAXDATA && |rx.buf| == MEM
    requires rx.group != 0 ==> rx.group == tx.group
    requires body == Body(tx, data) && |body| <= MAXDATA
    ensures
      var t := SendData(tx, hdr, data);
      var u := ReceiveRun(RecvStart(rx), Heard(rx.group, SendRun(t, Remaining(t)).0));
      && u == RecvStart(rx).(buf := u.buf, rxfill := |body| + 5, crc := 0, radio := Idle)
      && u.Hdr() == Header(hdr, tx.nodeid) && u.Len() == |body| && Holds(u.buf, body)
  {
    hide RecvStart, ReceiveRun, Remaining, Num, Byte, Header, Update, OnAir, Frame, Body, Heard, AfterSync, SendRun, SendData;
    OnAirOfSend(tx, hdr, data, body);
    var packet := [Header(hdr, tx.nodeid), Byte(|body|)] + body;
    HeardFrame(tx.group, rx.group, packet);
    NumOfByte(|body|);
    FrameReceived(rx, tx.group, packet, [0xAA, 0xAA]);
    assert packet[2..] == body;
    var u := ReceiveRun(RecvStart(rx), AfterSync(rx.group, Frame(tx.group, packet) + [0xAA, 0xAA]));
    assert u.buf[1] == u.buf[..3][1] && u.buf[2] == u.buf[..3][2];
  }

  /** The part of a sequence number that is sent with a payload of `len` bytes. */
  function SentPart(w: word32, len: nat): nat { w % SeqRange(PadOf(len)) }

  /** The driver holds a packet: its header, length and data, and its sequence number. */
  ghost predicate Restored(v: Driver, hdr: byte, data: seq<byte>, number: int) {
    |v.buf| == MEM && v.Hdr() == hdr && v.Len() == |data| && Holds(v.buf, data) && v.sequence == number
  }

  /** `cryptFun(0)` gives back the payload that `cryptFun(1)` sealed and encoded. */
  lemma DecryptUndoesEncrypt(u: Driver, data: seq<byte>, w: word32, block: seq<byte>)
    requires |u.buf| == MEM && u.Len() == |block| <= MAXDATA && block == Sealed(data, w)
    requires Holds(u.buf, Encode(u.key, block))
    ensures Restored(Decrypt(u), u.Hdr(), data, SentPart(w, |data|))
  {
    hide Num, Byte, Encode, Decode, Strip, PadOf, SeqRange;
    DecodeUndoesEncode(u.key, block);
    var buf := DecodeBlock(u.key, u.buf, |block| / 4);
    assert 4 * (|block| / 4) == |block|;
    assert buf[3..3 + |block|] == Decode(u.key, u.buf[3..3 + |block|]);
    StripUnseals(buf, data, w);
    NumOfByte(|data|);
    var after := buf[2 := Byte(|data|)];
    assert after[3..3 + |data|] == buf[3..3 + |data|];
  }

  /** The longest payload that arrives: encrypted, it must still fit once it is sealed. */
  function Limit(s: Driver): nat { if s.crypt then 63 else MAXDATA }

  /** The driver holds what `tx` sent, with a good checksum. */
  ghost predicate Arrived(v: Driver, tx: Driver, hdr: byte, data: seq<byte>) {
    && v.crc == 0
    && Restored(v, Header(hdr, tx.nodeid), data, if tx.crypt then SentPart((tx.seqNum + 1) % WRAP32, |data|) else -1)
  }

  /**
    End to end: a payload within the limit reaches every node with the same key
    that listens to the group and accepts the header, with its header, length,
    data and sequence number intact.
   */
  lemma EndToEnd(tx: Driver, rx: Driver, hdr: byte, data: seq<byte>)
    requires tx.Valid() && tx.rxstate == TXIDLE && |rx.buf| == MEM
    requires rx.group != 0 ==> rx.group == tx.group
    requires rx.crypt == tx.crypt && rx.key == tx.key
    requires |data| <= Limit(tx)
    requires Accepts(rx.nodeid, Header(hdr, tx.nodeid))
    ensures
      var (done, v) := Deliver(tx, rx, hdr, data);
      done && Arrived(v, tx, hdr, data)
  {
    hide RecvStart, ReceiveRun, SendData, Remaining, SendRun, Heard, Num, Byte, Header, Accepts, Encode, Decrypt, SeqRange;
    var body := Body(tx, data);
    Received(tx, rx, hdr, data, body);
    var u := ReceiveRun(RecvStart(rx), Heard(rx.group, SendRun(SendData(tx, hdr, data), Remaining(SendData(tx, hdr, data))).0));
    RecvStartKeeps(rx);
    if tx.crypt {
      DecryptUndoesEncrypt(u.(rxstate := TXIDLE), data, (tx.seqNum + 1) % WRAP32, Sealed(data, (tx.seqNum + 1) % WRAP32));
    }
  }

  lemma RecvStartKeeps(s: Driver)
    requires |s.buf| == MEM
    ensures
      var t := RecvStart(s);
      t.rxstate == TXRECV && t.nodeid == s.nodeid && t.crypt == s.crypt && t.key == s.key && |t.buf| == MEM
  {
  }

  /** A node that does not accept the header starts listening again. */
  lemma NotAddressed(tx: Driver, rx: Driver, hdr: byte, data: seq<byte>)
    requires tx.Valid() && tx.rxstate == TXIDLE && |rx.buf| == MEM
    requires rx.group != 0 ==> rx.group == tx.group
    requires |data| <= Limit(tx)
    requires !Accepts(rx.nodeid, Header(hdr, tx.nodeid))
    ensures !Deliver(tx, rx, hdr, data).0
    ensures Deliver(tx, rx, hdr, data).1.radio == Receiving && Deliver(tx, rx, hdr, data).1.rxfill == 0
  {
    hide ReceiveRun, SendData, Remaining, SendRun, Heard, Num, Byte, Header, Accepts, Encode, Update;
    Received(tx, rx, hdr, data, Body(tx, data));
  }

  /** A packet of 68 data bytes fills the receive buffer before it ends. */
  lemma LongFrameReceived(s: Driver, group: byte, packet: seq<byte>, extra: seq<byte>)
    requires |s.buf| == MEM && (s.group != 0 ==> s.group == group)
    requires WellFormed(packet) && |packet| == MAXDATA + 4
    ensures
      var t := ReceiveRun(RecvStart(s), AfterSync(s.group, Frame(group, packet) + extra));
      t.rxstate == TXRECV && t.Full() && t.Hdr() == packet[0] && t.Len() == MAXDATA + 2
      && t == RecvStart(s).(buf := t.buf, rxfill := t.rxfill, crc := t.crc, radio := t.radio)
  {
    hide Num, Low, High, Update, Run, Check, RecvStart, ReceiveRun;
    var all := Frame(group, packet) + extra;
    assert all[1] == packet[0] && all[2] == packet[1];
    ReceiveExact(s, all);
    var t := ReceiveRun(RecvStart(s), AfterSync(s.group, all));
    CollectedFull(t, Taken(all));
    assert t.buf[1] == t.buf[..RF_MAX][1] && t.buf[2] == t.buf[..RF_MAX][2];
  }

  /** A sealed payload of 68 bytes overflows the receive buffer, which the receiver reports. */
  lemma TooLong(tx: Driver, rx: Driver, hdr: byte, data: seq<byte>)
    requires tx.Valid() && tx.rxstate == TXIDLE && |rx.buf| == MEM
    requires rx.group != 0 ==> rx.group == tx.group
    requires tx.crypt && Limit(tx) < |data| <= MAXDATA
    requires Accepts(rx.nodeid, Header(hdr, tx.nodeid))
    ensures Deliver(tx, rx, hdr, data).0 && Deliver(tx, rx, hdr, data).1.crc == 1
  {
    hide RecvStart, ReceiveRun, SendData, Remaining, SendRun, Heard, Num, Byte, Header, Accepts, Encode, Sealed, OnAir, Frame, AfterSync, Decrypt;
    var body := Body(tx, data);
    OnAirOfSend(tx, hdr, data, body);
    NumOfByte(|body|);
    var packet := [Header(hdr, tx.nodeid), Byte(|body|)] + body;
    HeardFrame(tx.group, rx.group, packet);
    LongFrameReceived(rx, tx.group, packet, [0xAA, 0xAA]);
    RecvStartKeeps(rx);
  }

  /** A payload that may be sent arrives with a good checksum exactly when it is within the limit. */
  lemma ArrivesWithinLimit(tx: Driver, rx: Driver, hdr: byte, data: seq<byte>)
    requires tx.Valid() && tx.rxstate == TXIDLE && |rx.buf| == MEM
    requires rx.group != 0 ==> rx.group == tx.group
    requires rx.crypt == tx.crypt && rx.key == tx.key
    requires |data| <= MAXDATA
    requires Accepts(rx.nodeid, Header(hdr, tx.nodeid))
    ensures Deliver(tx, rx, hdr, data).1.crc == 0 <==> |data| <= Limit(tx)
  {
    hide Deliver, Header, Accepts;
    if |data| <= Limit(tx) {
      EndToEnd(tx, rx, hdr, data);
    } else {
      TooLong(tx, rx, hdr, data);
    }
  }

  /** A frame of the length it announces, ending in its own checksum. */
  ghost predicate GoodFrame(all: seq<byte>) {
    |all| >= 5 && Want(all) == |all| && Run(START, all) == 0
  }

  /**
    Damage to any one byte or any two adjacent bytes of a good frame, other than
    its length byte, never goes unnoticed.
   */
  lemma CorruptionDetected(s: Driver, pre: seq<byte>, x: byte, y: byte, x': byte, y': byte, post: seq<byte>)
    requires s.Valid()
    requires GoodFrame(pre + [x, y] + post) && (x != x' || y != y')
    requires (pre + [x', y'] + post)[2] == (pre + [x, y] + post)[2]
    requires s.group != 0 ==> (pre + [x', y'] + post)[0] == s.group
    ensures
      var t := ReceiveRun(RecvStart(s), AfterSync(s.group, pre + [x', y'] + post));
      t.Full() && t.crc != 0 && (RecvDone(t).0 ==> RecvDone(t).1.crc != 0)
  {
    hide RecvStart, Update, Num, Accepts, Header, ReceiveRun;
    var all, all' := pre + [x, y] + post, pre + [x', y'] + post;
    BurstDetected(START, pre, x, y, x', y', post);
    ReceiveExact(s, all');
    assert all'[..|all'|] == all';
    var t := ReceiveRun(RecvStart(s), AfterSync(s.group, all'));
    CollectedFull(t, all');
  }
}
