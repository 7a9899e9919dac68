/**
  What the radio link carries: the exact bytes a transmission puts on the air,
  what a receiver makes of any bytes, and the two put together.
 */
module RadioLink {
  import opened Bytes
  import opened Crc16
  import opened Rf12

  // The transmitter.

  /** The header, length and data bytes of the packet in a buffer. */
  function Packet(buf: seq<byte>): (r: seq<byte>)
    requires |buf| == MEM && Num(buf[2]) <= MAXDATA + 2
    ensures |r| == 2 + Num(buf[2])
  {
    buf[1..3 + Num(buf[2])]
  }

  function Check(group: byte, packet: seq<byte>): Crc {
    Run(Update(START, group), packet)
  }

  /** A packet as it goes over the air: preamble, sync bytes, packet, checksum and trailer. */
  function OnAir(group: byte, packet: seq<byte>): seq<byte> {
    var c := Check(group, packet);
    [0xAA, 0xAA, 0xAA, 0x2D, group] + packet + [Low(c), High(c)] + [0xAA, 0xAA]
  }

  /** The number of interrupts before the transmission in progress is over. */
  function Remaining(s: Driver): nat
    requires s.Valid() && s.rxstate != TXRECV
  {
    if s.rxstate <= TXIDLE then TXIDLE - s.rxstate else TXSYN2 - s.rxstate + 1 + (2 + s.Len()) + 4
  }

  /** The part of the packet that is out, and in the checksum, after `sent` bytes. */
  function Fed(packet: seq<byte>, sent: int): (r: seq<byte>) {
    if sent < 5 then [] else if sent < 5 + |packet| then packet[..sent - 5] else packet
  }

  /** The byte at position `k` of a packet on the air. */
  function OnAirByte(group: byte, packet: seq<byte>, k: nat): byte {
    if k < 3 then 0xAA
    else if k == 3 then 0x2D
    else if k == 4 then group
    else if k < 5 + |packet| then packet[k - 5]
    else if k == 5 + |packet| then Low(Check(group, packet))
    else if k == 6 + |packet| then High(Check(group, packet))
    else 0xAA
  }

  lemma OnAirBytes(group: byte, packet: seq<byte>)
    ensures |OnAir(group, packet)| == 9 + |packet|
    ensures forall k :: 0 <= k < 9 + |packet| ==> OnAir(group, packet)[k] == OnAirByte(group, packet, k)
  {
    hide Check, Low, High;
  }

  /** `s` is on its way through the transmission of `packet`, with `Remaining(s)` bytes to go. */
  ghost predicate Sending(s: Driver, packet: seq<byte>) {
    && s.Valid() && s.rxstate != TXRECV && s.Len() <= MAXDATA + 2
    && packet == Packet(s.buf)
    && Remaining(s) <= 9 + |packet|
    && s.crc == Run(Update(START, s.group), Fed(packet, 9 + |packet| - Remaining(s)))
  }

  /** `out` is the next byte of the transmission, and `t` what is left to do after it. */
  ghost predicate Advances(s: Driver, packet: seq<byte>, t: Driver, out: byte)
    requires Sending(s, packet)
  {
    && Sending(t, packet)
    && t == s.(rxstate := t.rxstate, crc := t.crc, radio := t.radio)
    && Remaining(t) == Remaining(s) - 1
    && out == OnAirByte(s.group, packet, 9 + |packet| - Remaining(s))
  }

  /** One interrupt of a transmission sends the next byte and leaves one fewer. */
  lemma SendStep(s: Driver, packet: seq<byte>)
    requires Sending(s, packet) && s.rxstate != TXIDLE
    ensures Advances(s, packet, SendByte(s).0, SendByte(s).1)
  {
    hide Update, Num, Low, High, Advances;
    if s.rxstate < 0 {
      SendPacketByte(s, packet);
    } else if s.rxstate < TXIDLE {
      SendCheckByte(s, packet);
    } else {
      SendSyncByte(s, packet);
    }
  }

  lemma SendPacketByte(s: Driver, packet: seq<byte>)
    requires Sending(s, packet) && s.rxstate < 0
    ensures Advances(s, packet, SendByte(s).0, SendByte(s).1)
  {
    hide Update, Num, Low, High, Check, Run, Fed;
    var sent := 9 + |packet| - Remaining(s);
    assert sent == 7 + s.Len() + s.rxstate;
    assert packet[sent - 5] == s.buf[3 + s.Len() + s.rxstate];
    FedGrows(Update(START, s.group), packet, sent);
  }

  lemma SendCheckByte(s: Driver, packet: seq<byte>)
    requires Sending(s, packet) && 0 <= s.rxstate < TXIDLE
    ensures Advances(s, packet, SendByte(s).0, SendByte(s).1)
  {
    hide Update, Num, Low, High, Run;
    var sent := 9 + |packet| - Remaining(s);
    assert Fed(packet, sent) == packet == Fed(packet, sent + 1);
  }

  lemma SendSyncByte(s: Driver, packet: seq<byte>)
    requires Sending(s, packet) && s.rxstate > TXIDLE
    ensures Advances(s, packet, SendByte(s).0, SendByte(s).1)
  {
    hide Update, Num, Low, High, Check, Run;
    var sent := 9 + |packet| - Remaining(s);
    assert Fed(packet, sent) == [] == Fed(packet, sent + 1);
  }

  lemma FedGrows(c: Crc, packet: seq<byte>, sent: int)
    requires 5 <= sent < 5 + |packet|
    ensures Run(c, Fed(packet, sent + 1)) == Update(Run(c, Fed(packet, sent)), packet[sent - 5])
  {
    hide Update;
    var n := sent - 5;
    assert Fed(packet, sent + 1) == packet[..n + 1];
    assert packet[..n + 1][..n] == packet[..n];
  }

  /** The bytes sent by `n` interrupts, and the state after them. */
  function SendRun(s: Driver, n: nat): (r: (seq<byte>, Driver))
    requires s.Valid() && s.rxstate != TXRECV
    requires n <= Remaining(s)
    ensures |r.0| == n
    decreases n
  {
    if n == 0 then ([], s)
    else
      var (t, out) := SendByte(s);
      SendRemaining(s);
      var (rest, u) := SendRun(t, n - 1);
      ([out] + rest, u)
  }

  lemma SendRemaining(s: Driver)
    requires s.Live() && s.rxstate != TXRECV
    ensures
      var t := SendByte(s).0;
      t.Valid() && t.rxstate != TXRECV && Remaining(t) == Remaining(s) - 1
  {
    hide Update, Num, Low, High;
  }

  lemma {:induction false} SendRunExact(s: Driver, packet: seq<byte>, n: nat)
    requires Sending(s, packet) && n <= Remaining(s)
    ensures
      var (bytes, t) := SendRun(s, n);
      var air, k := OnAir(s.group, packet), 9 + |packet| - Remaining(s);
      && Sending(t, packet)
      && t == s.(rxstate := t.rxstate, crc := t.crc, radio := t.radio)
      && Remaining(t) == Remaining(s) - n
      && k + n <= |air| && bytes == air[k..k + n]
    decreases n
  {
    hide OnAir, OnAirByte, SendByte, Sending, Remaining;
    OnAirBytes(s.group, packet);
    SendingLive(s, packet);
    if n > 0 {
      SendStep(s, packet);
      SendingLive(SendByte(s).0, packet);
      SendRunExact(SendByte(s).0, packet, n - 1);
      var air, k := OnAir(s.group, packet), 9 + |packet| - Remaining(s);
      SliceFirst(air, k, k + n);
    }
  }

  lemma SliceFirst(s: seq<byte>, i: nat, j: nat)
    requires i < j <= |s|
    ensures s[i..j] == [s[i]] + s[i + 1..j]
  {
  }

  lemma SendingLive(s: Driver, packet: seq<byte>)
    requires Sending(s, packet)
    ensures s.Valid() && s.rxstate != TXRECV && Remaining(s) <= 9 + |packet|
    ensures Remaining(s) > 0 <==> s.rxstate != TXIDLE
    ensures s.rxstate != TXIDLE ==> s.Live()
  {
    hide Num, Run, Update;
  }

  /**
    A transmission takes exactly 11 + len interrupts, ends in TXIDLE with the
    radio off, and puts exactly the packet in the buffer on the air.
   */
  lemma TransmitExact(s: Driver, hdr: byte)
    requires s.Valid() && s.rxstate == TXIDLE && s.Len() <= MAXDATA
    ensures
      var t := SendStart(s, hdr);
      && Remaining(t) == 11 + t.Len()
      && SendRun(t, 11 + t.Len()).0 == OnAir(t.group, Packet(t.buf))
      && SendRun(t, 11 + t.Len()).1 ==
           t.(rxstate := TXIDLE, crc := Check(t.group, Packet(t.buf)), radio := Idle)
  {
    hide Update, Num, Low, High, OnAir, SendStart, Sending, Remaining, Packet, Run, Fed;
    var t := SendStart(s, hdr);
    var packet := Packet(t.buf);
    SendStartSends(s, hdr);
    SendingLive(t, packet);
    SendRunExact(t, packet, 11 + t.Len());
    TransmissionOver(SendRun(t, 11 + t.Len()).1, packet);
    OnAirBytes(t.group, packet);
    var air := OnAir(t.group, packet);
    assert air[0..|air|] == air;
  }

  /** The start of a transmission: all of the packet is still to be sent. */
  lemma SendStartSends(s: Driver, hdr: byte)
    requires s.Valid() && s.rxstate == TXIDLE && s.Len() <= MAXDATA
    ensures
      var t := SendStart(s, hdr);
      && t.Valid() && t.rxstate == TXPRE1 && t.group == s.group
      && Sending(t, Packet(t.buf)) && |Packet(t.buf)| == 2 + t.Len() && Remaining(t) == 9 + |Packet(t.buf)|
  {
    hide Update, Num, Low, High, Header, Encrypt, Packet;
    assert Fed(Packet(SendStart(s, hdr).buf), 0) == [];
  }

  lemma TransmissionOver(t: Driver, packet: seq<byte>)
    requires Sending(t, packet) && Remaining(t) == 0
    ensures t.rxstate == TXIDLE && t.radio == Idle && t.crc == Check(t.group, packet)
  {
    hide Update, Num, Low, High, Run;
  }

  // The receiver.

  /** The bytes of a stream handled while the receiver is on; the others are not taken. */
  function ReceiveRun(s: Driver, bytes: seq<byte>): (r: Driver)
    requires s.Valid() && s.rxstate == TXRECV
    ensures r.Valid() && r.rxstate == TXRECV
    decreases |bytes|
  {
    if bytes == [] || s.radio == Idle then s else ReceiveRun(ReceiveByte(s, bytes[0]), bytes[1..])
  }

  /** The number of buffer bytes after which a reception ends. */
  function Want(all: seq<byte>): nat
    requires |all| >= 3
  {
    if Num(all[2]) + 5 < RF_MAX then Num(all[2]) + 5 else RF_MAX
  }

  /** The part of a stream, group byte included, that a reception takes. */
  function Taken(all: seq<byte>): seq<byte> {
    if |all| >= 3 && Want(all) <= |all| then all[..Want(all)] else all
  }

  /** The reception in progress has got exactly the bytes `got`, group byte included. */
  ghost predicate Collected(s: Driver, got: seq<byte>) {
    && s.Valid() && s.rxstate == TXRECV && |got| <= RF_MAX
    && (s.group != 0 ==> |got| > 0 && got[0] == s.group)
    && (if s.group != 0 && |got| == 1 then s.rxfill == 0 else s.rxfill == |got| && s.buf[..|got|] == got)
    && s.crc == Run(START, got)
    && (|got| <= 2 ==> s.buf[2] == 0)
  }

  lemma CollectedFull(s: Driver, got: seq<byte>)
    requires Collected(s, got)
    ensures s.radio == Idle <==> |got| >= 3 && |got| >= Want(got)
  {
    assert Num(0) == 0;
    hide Num, Run;
    if |got| >= 3 { assert s.buf[2] == s.buf[..|got|][2]; }
  }

  lemma ReceiveStep(s: Driver, got: seq<byte>, b: byte)
    requires Collected(s, got) && s.radio == Receiving
    ensures Collected(ReceiveByte(s, b), got + [b])
  {
    hide Update, Num, Run;
    RunLast(START, got, b);
    var t := ReceiveByte(s, b);
    if s.group != 0 && |got| == 1 {
      assert t.buf[..2] == [s.group, b] == got + [b];
    } else {
      assert t.buf[..|got|] == s.buf[..|got|] == got;
      assert t.buf[..|got| + 1] == got + [b];
    }
  }

  lemma {:induction false} ReceiveRunCollects(s: Driver, got: seq<byte>, more: seq<byte>)
    requires Collected(s, got)
    requires |got + more| >= 3 ==> |got + more| <= Want(got + more)
    ensures Collected(ReceiveRun(s, more), got + more)
    decreases |more|
  {
    hide ReceiveByte, Want, Run, Num;
    if more == [] {
      assert got + more == got;
    } else {
      CollectedFull(s, got);
      var next := got + [more[0]];
      assert next + more[1..] == got + more;
      NotYet(got, more);
      ReceiveStep(s, got, more[0]);
      ReceiveRunCollects(ReceiveByte(s, more[0]), next, more[1..]);
    }
  }

  lemma NotYet(got: seq<byte>, more: seq<byte>)
    requires more != [] && (|got + more| >= 3 ==> |got + more| <= Want(got + more))
    ensures |got| >= 3 ==> |got| < Want(got)
  {
    hide Num;
  }

  lemma {:induction false} ReceiveRunSplit(s: Driver, more: seq<byte>, extra: seq<byte>)
    requires s.Valid() && s.rxstate == TXRECV
    ensures ReceiveRun(s, more + extra) == ReceiveRun(ReceiveRun(s, more), extra)
    decreases |more|
  {
    hide ReceiveByte, Num;
    if more == [] {
      assert more + extra == extra;
    } else if s.radio != Idle {
      assert (more + extra)[0] == more[0] && (more + extra)[1..] == more[1..] + extra;
      ReceiveRunSplit(ReceiveByte(s, more[0]), more[1..], extra);
    }
  }

  /** The part of the stream `all` that follows the sync pattern of a receiver. */
  function AfterSync(group: byte, all: seq<byte>): seq<byte>
    requires all != []
  {
    if group != 0 then all[1..] else all
  }

  /**
    Whatever bytes arrive, a reception takes them up to the length announced by
    the third one, stops there, and has their checksum.
   */
  lemma ReceiveExact(s: Driver, all: seq<byte>)
    requires |s.buf| == MEM && all != [] && (s.group != 0 ==> all[0] == s.group)
    ensures
      var t := ReceiveRun(RecvStart(s), AfterSync(s.group, all));
      && Collected(t, Taken(all))
      && t == RecvStart(s).(buf := t.buf, rxfill := t.rxfill, crc := t.crc, radio := t.radio)
  {
    hide Num, Update, Run, ReceiveByte, Collected, Want;
    var t0 := RecvStart(s);
    var got := if s.group != 0 then [s.group] else [];
    RecvStartCollected(s);
    var taken := Taken(all);
    TakenFits(all);
    var more, extra := taken[|got|..], all[|taken|..];
    assert got + more == taken && taken + extra == all;
    assert AfterSync(s.group, all) == more + extra;
    ReceiveRunCollects(t0, got, more);
    ReceiveRunSplit(t0, more, extra);
    ReceiveRunFrame(t0, more + extra);
    if extra != [] {
      CollectedFull(ReceiveRun(t0, more), taken);
    }
  }

  lemma RecvStartCollected(s: Driver)
    requires |s.buf| == MEM
    ensures Collected(RecvStart(s), if s.group != 0 then [s.group] else [])
  {
    assert Num(0) == 0;
    hide Num, Update;
    RunLast(START, [], s.group);
    assert [] + [s.group] == [s.group];
  }

  lemma TakenFits(all: seq<byte>)
    ensures |Taken(all)| <= |all| && all[..|Taken(all)|] == Taken(all)
    ensures |all| >= 3 ==> |Taken(all)| >= 3 && Want(Taken(all)) == Want(all)
    ensures |Taken(all)| >= 3 ==> |Taken(all)| <= Want(Taken(all))
    ensures |Taken(all)| < |all| ==> |Taken(all)| >= 3 && |Taken(all)| == Want(Taken(all))
  {
    hide Num;
  }

  lemma {:induction false} ReceiveRunFrame(s: Driver, bytes: seq<byte>)
    requires s.Valid() && s.rxstate == TXRECV
    ensures
      var t := ReceiveRun(s, bytes);
      t == s.(buf := t.buf, rxfill := t.rxfill, crc := t.crc, radio := t.radio)
    decreases |bytes|
  {
    hide Num, Update;
    if bytes != [] && s.radio != Idle {
      ReceiveRunFrame(ReceiveByte(s, bytes[0]), bytes[1..]);
    }
  }

  /**
    No call disturbs what is on the air: while a packet is being received or
    sent `rf12_recvDone` changes nothing, and from the first byte of a packet
    on `rf12_canSend` refuses.
   */
  lemma PacketUndisturbed(s: Driver, carrier: bool, bytes: seq<byte>)
    requires s.Valid()
    ensures s.radio != Idle ==> RecvDone(s) == (false, s)
    ensures s.rxstate != TXRECV ==> CanSend(s, carrier) == (false, s)
    ensures
      var t := RecvStart(s);
      bytes != [] ==> CanSend(ReceiveRun(t, bytes), carrier) == (false, ReceiveRun(t, bytes))
  {
    hide Num, Update, Decrypt, Accepts, ReceiveRun;
    if bytes != [] {
      FillGrows(RecvStart(s), bytes);
    }
  }

  lemma {:induction false} FillGrows(s: Driver, bytes: seq<byte>)
    requires s.Valid() && s.rxstate == TXRECV
    ensures ReceiveRun(s, bytes).rxfill >= s.rxfill
    ensures bytes != [] && s.radio != Idle ==> ReceiveRun(s, bytes).rxfill > s.rxfill
    decreases |bytes|
  {
    hide Num, Update;
    if bytes != [] && s.radio != Idle {
      FillGrows(ReceiveByte(s, bytes[0]), bytes[1..]);
    }
  }

  /** At most RF_MAX bytes, group byte included, end any reception. */
  lemma ReceptionEnds(s: Driver, all: seq<byte>)
    requires |s.buf| == MEM && |all| >= RF_MAX && (s.group != 0 ==> all[0] == s.group)
    ensures ReceiveRun(RecvStart(s), AfterSync(s.group, all)).radio == Idle
    ensures ReceiveRun(RecvStart(s), AfterSync(s.group, all)).rxfill <= RF_MAX
  {
    hide Num, Collected, RecvStart, ReceiveRun;
    ReceiveExact(s, all);
    TakenFits(all);
    CollectedFull(ReceiveRun(RecvStart(s), AfterSync(s.group, all)), Taken(all));
  }

  /**
    A packet reported with a good checksum was at most MAXDATA bytes long, and
    decryption, whatever the bytes, takes off between none and four of them.
   */
  lemma ReportedPacketFits(s: Driver)
    requires s.Valid() && RecvDone(s).0 && RecvDone(s).1.crc == 0
    ensures s.rxstate == TXRECV && s.Full() && s.Len() <= MAXDATA && s.crc == 0
    ensures RecvDone(s).1.Len() <= s.Len() <= RecvDone(s).1.Len() + 4
  {
    hide Num, Accepts, Decrypt, RecvStart;
  }
}
