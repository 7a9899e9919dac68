/**
  The RF12 packet driver as a state machine: every function maps the driver's
  variables before a call (or an interrupt) to their values after it.
  `Rf12Node.dfy` holds the driver itself, which is proved against these functions.
 */
module Rf12 {
  import opened Bytes
  import opened Crc16
  import opened Xxtea

  const MAXDATA: nat := 66
  const RF_MAX: nat := MAXDATA + 5

  /** The packet buffer, RF_MAX bytes, and the two bytes of memory after it. */
  const MEM: nat := RF_MAX + 2

  const HDR_CTL: byte := 0x80
  const HDR_DST: byte := 0x40
  const HDR_ACK: byte := 0x20
  const HDR_MASK: byte := 0x1F
  const NODE_ID: byte := 0x1F

  // Transceiver states; negative values count the packet bytes still to send.
  const TXCRC1 := 0
  const TXCRC2 := 1
  const TXTAIL := 2
  const TXDONE := 3
  const TXIDLE := 4
  const TXRECV := 5
  const TXPRE1 := 6
  const TXPRE2 := 7
  const TXPRE3 := 8
  const TXSYN1 := 9
  const TXSYN2 := 10

  /** What the last command put the radio module in. */
  datatype Radio = Idle | Receiving | Transmitting

  datatype Driver = Driver(
    nodeid: byte,
    group: byte,
    rxfill: nat,
    rxstate: int,
    crc: Crc,
    buf: seq<byte>,
    sequence: int,      // sequence number of the last encrypted packet, or -1
    seqNum: word32,
    key: Key,
    crypt: bool,
    radio: Radio)
  {
    function Hdr(): byte
      requires |buf| == MEM
    {
      buf[1]
    }

    function Len(): nat
      requires |buf| == MEM
    {
      Num(buf[2])
    }

    /** The test by which the interrupt and `rf12_recvDone` end a reception. */
    predicate Full()
      requires |buf| == MEM
    {
      rxfill >= Len() + 5 || rxfill >= RF_MAX
    }

    /** What every call and interrupt keeps. */
    ghost predicate Valid() {
      && |buf| == MEM
      && rxfill <= RF_MAX
      && (rxstate == TXIDLE ==> radio == Idle)
      && (rxstate == TXRECV ==> radio == if Full() then Idle else Receiving)
      && (rxstate != TXIDLE && rxstate != TXRECV ==>
            radio == Transmitting && Len() <= MAXDATA + 2 && -(2 + Len()) <= rxstate <= TXSYN2)
    }

    /** The state in which the radio module can raise an interrupt. */
    ghost predicate Live() {
      Valid() && radio != Idle
    }
  }

  // Transmission and reception, byte by byte.

  function ReceiveByte(s: Driver, in_: byte): (r: Driver)
    requires s.Live() && s.rxstate == TXRECV
    ensures r.Valid() && r.rxstate == TXRECV
    ensures r.buf[RF_MAX..] == s.buf[RF_MAX..]
  {
    var first := s.rxfill == 0 && s.group != 0;
    var buf := if first then s.buf[0 := s.group] else s.buf;
    var at := if first then 1 else s.rxfill;
    var t := s.(buf := buf[at := in_], rxfill := at + 1, crc := Update(s.crc, in_));
    if t.Full() then t.(radio := Idle) else t
  }

  function SendByte(s: Driver): (r: (Driver, byte))
    requires s.Live() && s.rxstate != TXRECV
    ensures r.0.Valid()
  {
    if s.rxstate < 0 then
      var out := s.buf[3 + s.Len() + s.rxstate];
      (s.(rxstate := s.rxstate + 1, crc := Update(s.crc, out)), out)
    else if s.rxstate == TXSYN1 then (s.(rxstate := s.rxstate + 1), 0x2D)
    else if s.rxstate == TXSYN2 then (s.(rxstate := -(2 + s.Len())), s.group)
    else if s.rxstate == TXCRC1 then (s.(rxstate := s.rxstate + 1), Low(s.crc))
    else if s.rxstate == TXCRC2 then (s.(rxstate := s.rxstate + 1), High(s.crc))
    else if s.rxstate == TXDONE then (s.(rxstate := s.rxstate + 1, radio := Idle), 0xAA)
    else (s.(rxstate := s.rxstate + 1), 0xAA)
  }

  function RecvStart(s: Driver): (r: Driver)
    requires |s.buf| == MEM
    ensures r.Valid() && r.radio == Receiving
  {
    hide Update;
    s.(rxfill := 0,
       buf := s.buf[2 := 0],
       crc := if s.group != 0 then Update(START, s.group) else START,
       rxstate := TXRECV,
       radio := Receiving)
  }

  predicate Accepts(nodeid: byte, hdr: byte) {
    hdr & HDR_DST == 0 || nodeid & NODE_ID == 31 || hdr & HDR_MASK == nodeid & NODE_ID
  }

  function RecvDone(s: Driver): (r: (bool, Driver))
    requires s.Valid()
    ensures r.1.Valid()
    ensures r.0 ==> r.1.rxstate == TXIDLE
  {
    if s.rxstate == TXRECV && s.Full() then
      var t := s.(rxstate := TXIDLE, crc := if s.Len() > MAXDATA then 1 else s.crc);
      if Accepts(t.nodeid, t.Hdr()) then
        (true, if t.crc == 0 && t.crypt then Decrypt(t) else t.(sequence := -1))
      else
        (false, RecvStart(t))
    else if s.rxstate == TXIDLE then (false, RecvStart(s))
    else (false, s)
  }

  function CanSend(s: Driver, carrier: bool): (r: (bool, Driver))
    requires s.Valid()
    ensures r.1.Valid()
    ensures r.0 ==> r.1.rxstate == TXIDLE
  {
    if s.rxstate == TXRECV && s.rxfill == 0 && !carrier then
      (true, s.(rxstate := TXIDLE, radio := Idle))
    else
      (false, s)
  }

  function Header(hdr: byte, nodeid: byte): byte {
    if hdr & HDR_DST != 0 then hdr else (hdr & 0xE0) + (nodeid & NODE_ID)
  }

  function SendStart(s: Driver, hdr: byte): (r: Driver)
    requires s.Valid() && s.rxstate == TXIDLE && s.Len() <= MAXDATA
    ensures r.Valid() && r.rxstate == TXPRE1
  {
    hide Header, Encrypt, Update, Num;
    var t := s.(buf := s.buf[1 := Header(hdr, s.nodeid)]);
    var u := if t.crypt then Encrypt(t) else t;
    u.(crc := Update(START, u.group), rxstate := TXPRE1, radio := Transmitting)
  }

  /** The payload copied into the buffer. */
  function LoadData(s: Driver, data: seq<byte>): (r: Driver)
    requires s.Valid() && s.rxstate == TXIDLE && |data| <= MAXDATA
    ensures r.Valid() && r.Len() == |data| && r.buf[3..3 + |data|] == data
    ensures r == s.(buf := r.buf)
  {
    hide Num, Byte;
    NumOfByte(|data|);
    var buf := s.buf[2 := Byte(|data|)];
    s.(buf := buf[..3] + data + buf[3 + |data|..])
  }

  function SendData(s: Driver, hdr: byte, data: seq<byte>): (r: Driver)
    requires s.Valid() && s.rxstate == TXIDLE && |data| <= MAXDATA
    ensures r.Valid() && r.rxstate == TXPRE1
  {
    SendStart(LoadData(s, data), hdr)
  }

  // Encryption: the payload is closed with 1 to 4 bytes of sequence number.

  function PadOf(len: nat): (pad: nat)
    ensures pad < 4 && (len + pad + 1) % 4 == 0
    ensures len <= MAXDATA ==> len + pad + 1 <= MAXDATA + 2
  {
    3 - len % 4
  }

  function SeqBytes(w: word32): seq<byte> {
    [ByteOf(w, 0), ByteOf(w, 1), ByteOf(w, 2), ByteOf(w, 3)]
  }

  function Tail(b: byte, pad: nat): byte
    requires pad < 4
  {
    (b & 0x3F) | (Byte(pad) << 6)
  }

  /** The four bytes of `w` written at the end of a payload of `len` bytes. */
  function AppendSeq(buf: seq<byte>, len: nat, w: word32): (r: seq<byte>)
    requires |buf| == MEM && len <= MAXDATA
    ensures |r| == MEM
  {
    buf[..3 + len] + SeqBytes(w) + buf[7 + len..]
  }

  /** The last byte kept gets the pad count in its top bits, and the length grows. */
  function CloseBlock(buf: seq<byte>, len: nat): (r: seq<byte>)
    requires |buf| == MEM && len <= MAXDATA
    ensures |r| == MEM && Num(r[2]) == len + PadOf(len) + 1
  {
    hide Num, Byte, Tail;
    var end := len + PadOf(len);
    NumOfByte(end + 1);
    buf[3 + end := Tail(buf[3 + end], PadOf(len))][2 := Byte(end + 1)]
  }

  /** The first `n` words of the packet data encoded. */
  function EncodeBlock(key: Key, buf: seq<byte>, n: nat): (r: seq<byte>)
    requires |buf| == MEM && 3 + 4 * n <= RF_MAX
    ensures |r| == MEM && forall i :: 0 <= i < 3 ==> r[i] == buf[i]
  {
    hide Encode;
    buf[..3] + Encode(key, buf[3..3 + 4 * n]) + buf[3 + 4 * n..]
  }

  /** The first `n` words of the packet data decoded. */
  function DecodeBlock(key: Key, buf: seq<byte>, n: nat): (r: seq<byte>)
    requires |buf| == MEM && 3 + 4 * n <= RF_MAX
    ensures |r| == MEM && forall i :: 0 <= i < 3 ==> r[i] == buf[i]
  {
    hide Decode;
    buf[..3] + Decode(key, buf[3..3 + 4 * n]) + buf[3 + 4 * n..]
  }

  /** `cryptFun(1)` */
  function Encrypt(s: Driver): (r: Driver)
    requires |s.buf| == MEM && s.Len() <= MAXDATA
    ensures |r.buf| == MEM && r.Len() == s.Len() + PadOf(s.Len()) + 1
    ensures r == s.(buf := r.buf, seqNum := r.seqNum)
  {
    hide Num, PadOf, CloseBlock, AppendSeq, EncodeBlock;
    var seqNum := (s.seqNum + 1) % WRAP32;
    var len := s.Len();
    var closed := CloseBlock(AppendSeq(s.buf, len, seqNum), len);
    var buf := EncodeBlock(s.key, closed, Num(closed[2]) / 4);
    s.(seqNum := seqNum, buf := buf)
  }

  /** The number whose low bytes are `bytes` and whose remaining bits are `high`. */
  function Gather(bytes: seq<byte>, high: nat): nat {
    if bytes == [] then high
    else Gather(bytes[..|bytes| - 1], high * 0x100 + Num(bytes[|bytes| - 1]))
  }

  /** Takes the sequence number off the end of a block: the length and the number. */
  function Strip(buf: seq<byte>, len: nat): (r: (nat, nat))
    requires |buf| == MEM && 4 <= len <= MAXDATA
    ensures r.0 < len <= r.0 + 4
  {
    hide Num, Gather;
    var tail := buf[2 + len];
    var pad := Num(tail >> 6);
    TailPad(tail);
    (len - 1 - pad, Gather(buf[2 + len - pad..2 + len], Num(tail & 0x3F)))
  }

  lemma TailPad(tail: byte)
    ensures Num(tail >> 6) < 4
  {
  }

  /** `cryptFun(0)` */
  function Decrypt(s: Driver): (r: Driver)
    requires |s.buf| == MEM && s.Len() <= MAXDATA
    ensures |r.buf| == MEM && r.Len() <= s.Len() <= r.Len() + 4
    ensures r == s.(buf := r.buf, sequence := r.sequence)
  {
    hide Num, Byte, DecodeBlock, Strip;
    var len := s.Len();
    if len < 4 then s
    else
      var buf := DecodeBlock(s.key, s.buf, len / 4);
      var (stripped, number) := Strip(buf, len);
      NumOfByte(stripped);
      s.(buf := buf[2 := Byte(stripped)], sequence := number)
  }
}
