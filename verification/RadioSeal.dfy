/**
  The sequence number that closes an encrypted payload: what the sender packs
  into the last one to four bytes, and what the receiver takes off again.
 */
module RadioSeal {
  import opened Bytes
  import opened Xxtea
  import opened Rf12

  /** A payload closed with as much of `w` as fills its last word. */
  function Sealed(data: seq<byte>, w: word32): (r: seq<byte>)
    ensures |r| == |data| + PadOf(|data|) + 1 && |r| % 4 == 0
  {
    var pad := PadOf(|data|);
    data + SeqBytes(w)[..pad] + [Tail(ByteOf(w, pad), pad)]
  }

  /** 2^(6 + 8 * pad), the range of the part of the sequence number that is sent. */
  function SeqRange(pad: nat): nat
    requires pad < 4
  {
    if pad == 0 then 0x40 else if pad == 1 then 0x4000 else if pad == 2 then 0x40_0000 else 0x4000_0000
  }

  lemma TailParts(b: byte, pad: nat)
    requires pad < 4
    ensures Num(Tail(b, pad) >> 6) == pad
    ensures Num(Tail(b, pad) & 0x3F) == Num(b) % 0x40
  {
    NumOfByte(pad);
    TailBits(b, Byte(pad));
    LowBits(b);
  }

  lemma TailBits(b: byte, p: byte)
    requires Num(p) < 4
    ensures ((b & 0x3F) | (p << 6)) >> 6 == p
    ensures ((b & 0x3F) | (p << 6)) & 0x3F == b & 0x3F
  {
    assert p < 4;
  }

  lemma LowBits(b: byte)
    ensures Num(b & 0x3F) == Num(b) % 0x40
  {
  }

  lemma NumOfSeqByte(w: word32)
    ensures Num(ByteOf(w, 0)) == w % 0x100
    ensures Num(ByteOf(w, 1)) == w / 0x100 % 0x100
    ensures Num(ByteOf(w, 2)) == w / 0x1_0000 % 0x100
    ensures Num(ByteOf(w, 3)) == w / 0x100_0000
  {
    hide Num, Byte;
    NumOfByte(w % 0x100);
    NumOfByte(w / 0x100 % 0x100);
    NumOfByte(w / 0x1_0000 % 0x100);
    NumOfByte(w / 0x100_0000);
  }

  // Cutting the highest of some digits to six bits is taking a remainder.

  lemma CutOne(h: nat)
    ensures h % 0x100 % 0x40 == h % 0x40
  {
    assert h == 0x40 * (4 * (h / 0x100) + h % 0x100 / 0x40) + h % 0x100 % 0x40;
  }

  lemma CutTwo(h: nat, b0: nat)
    requires b0 < 0x100
    ensures h % 0x40 * 0x100 + b0 == (h * 0x100 + b0) % 0x4000
  {
    assert h * 0x100 + b0 == 0x4000 * (h / 0x40) + (h % 0x40 * 0x100 + b0);
  }

  lemma CutThree(h: nat, b0: nat)
    requires b0 < 0x1_0000
    ensures h % 0x40 * 0x1_0000 + b0 == (h * 0x1_0000 + b0) % 0x40_0000
  {
    assert h * 0x1_0000 + b0 == 0x40_0000 * (h / 0x40) + (h % 0x40 * 0x1_0000 + b0);
  }

  lemma CutFour(h: nat, b0: nat)
    requires b0 < 0x100_0000
    ensures h % 0x40 * 0x100_0000 + b0 == (h * 0x100_0000 + b0) % 0x4000_0000
  {
    assert h * 0x100_0000 + b0 == 0x4000_0000 * (h / 0x40) + (h % 0x40 * 0x100_0000 + b0);
  }

  /** The four digits of `w`, and what remains of it above each. */
  lemma DigitsOfSeq(w: word32, d0: nat, d1: nat, d2: nat, d3: nat)
    requires d0 == w % 0x100 && d1 == w / 0x100 % 0x100 && d2 == w / 0x1_0000 % 0x100 && d3 == w / 0x100_0000
    ensures w == w / 0x100 * 0x100 + d0
    ensures w == w / 0x1_0000 * 0x1_0000 + d1 * 0x100 + d0
    ensures w == d3 * 0x100_0000 + d2 * 0x1_0000 + d1 * 0x100 + d0
  {
    FromDigits(w);
  }

  /** The number sent with each pad count, from the digits of `w`. */
  lemma CutDigits(w: word32)
    ensures w % 0x100 % 0x40 == w % 0x40
    ensures w / 0x100 % 0x100 % 0x40 * 0x100 + w % 0x100 == w % 0x4000
    ensures w / 0x1_0000 % 0x100 % 0x40 * 0x1_0000 + w / 0x100 % 0x100 * 0x100 + w % 0x100 == w % 0x40_0000
    ensures w / 0x100_0000 % 0x40 * 0x100_0000 + w / 0x1_0000 % 0x100 * 0x1_0000 + w / 0x100 % 0x100 * 0x100 + w % 0x100
         == w % 0x4000_0000
  {
    var d0, d1, d2, d3 := w % 0x100, w / 0x100 % 0x100, w / 0x1_0000 % 0x100, w / 0x100_0000;
    DigitsOfSeq(w, d0, d1, d2, d3);
    CutOne(w);
    CutOne(w / 0x100);
    CutTwo(w / 0x100, d0);
    CutOne(w / 0x1_0000);
    CutThree(w / 0x1_0000, d1 * 0x100 + d0);
    CutFour(d3, d2 * 0x1_0000 + d1 * 0x100 + d0);
  }

  /** The bytes kept, read back from the last, give the number modulo its range. */
  lemma GatherSeq(w: word32, pad: nat)
    requires pad < 4
    ensures Gather(SeqBytes(w)[..pad], Num(ByteOf(w, pad)) % 0x40) == w % SeqRange(pad)
  {
    hide Num, ByteOf, Gather, SeqBytes;
    NumOfSeqByte(w);
    CutDigits(w);
    GatherDigits(w, pad, Num(ByteOf(w, pad)) % 0x40);
  }

  lemma GatherDigits(w: word32, pad: nat, high: nat)
    requires pad < 4
    ensures Gather(SeqBytes(w)[..pad], high) ==
      if pad == 0 then high
      else if pad == 1 then high * 0x100 + Num(ByteOf(w, 0))
      else if pad == 2 then high * 0x1_0000 + Num(ByteOf(w, 1)) * 0x100 + Num(ByteOf(w, 0))
      else high * 0x100_0000 + Num(ByteOf(w, 2)) * 0x1_0000 + Num(ByteOf(w, 1)) * 0x100 + Num(ByteOf(w, 0))
  {
    hide Num, ByteOf;
    var b0, b1, b2 := ByteOf(w, 0), ByteOf(w, 1), ByteOf(w, 2);
    if pad == 1 {
      assert SeqBytes(w)[..1] == [b0];
      GatherOne(b0, high);
    } else if pad == 2 {
      assert SeqBytes(w)[..2] == [b0, b1];
      GatherTwo(b0, b1, high);
    } else if pad == 3 {
      assert SeqBytes(w)[..3] == [b0, b1] + [b2];
      GatherLast([b0, b1], b2, high);
      GatherTwo(b0, b1, high * 0x100 + Num(b2));
    }
  }

  lemma GatherTwo(b0: byte, b1: byte, high: nat)
    ensures Gather([b0, b1], high) == (high * 0x100 + Num(b1)) * 0x100 + Num(b0)
  {
    assert [b0, b1] == [b0] + [b1];
    GatherLast([b0], b1, high);
    GatherOne(b0, high * 0x100 + Num(b1));
  }

  lemma GatherOne(b: byte, high: nat)
    ensures Gather([b], high) == high * 0x100 + Num(b)
  {
    assert [b] == [] + [b];
    GatherLast([], b, high);
  }

  lemma GatherLast(bytes: seq<byte>, b: byte, high: nat)
    ensures Gather(bytes + [b], high) == Gather(bytes, high * 0x100 + Num(b))
  {
    assert (bytes + [b])[..|bytes + [b]| - 1] == bytes;
  }

  /** The data area of the buffer starts with `block`. */
  ghost predicate Holds(buf: seq<byte>, block: seq<byte>) {
    3 + |block| <= |buf| && buf[3..3 + |block|] == block
  }

  lemma StripUnseals(buf: seq<byte>, data: seq<byte>, w: word32)
    requires |buf| == MEM && |Sealed(data, w)| <= MAXDATA
    requires Holds(buf, Sealed(data, w))
    ensures Strip(buf, |Sealed(data, w)|) == (|data|, w % SeqRange(PadOf(|data|)))
    ensures Holds(buf, data)
  {
    hide Num, ByteOf, Tail, Gather, SeqRange, PadOf;
    var r := Sealed(data, w);
    var pad := PadOf(|data|);
    TailParts(ByteOf(w, pad), pad);
    GatherSeq(w, pad);
    var kept := SeqBytes(w)[..pad];
    assert r == data + kept + [Tail(ByteOf(w, pad), pad)];
    Subslice(buf, 3, |r|, 0, |data|);
    Subslice(buf, 3, |r|, |data|, |data| + pad);
    assert buf[2 + |r|] == buf[3..3 + |r|][|r| - 1];
  }

  /** After `cryptFun(1)` the buffer holds the encoded form of the sealed payload. */
  lemma EncryptSeals(s: Driver, data: seq<byte>, block: seq<byte>)
    requires |s.buf| == MEM && s.Len() == |data| <= MAXDATA && Holds(s.buf, data)
    requires block == Sealed(data, (s.seqNum + 1) % WRAP32)
    ensures Encrypt(s).Len() == |block| && Encrypt(s).buf[1] == s.buf[1]
    ensures Holds(Encrypt(s).buf, Encode(s.key, block))
  {
    hide Num, Byte, ByteOf, Tail, Encode, PadOf;
    var w := (s.seqNum + 1) % WRAP32;
    var closed := CloseBlock(AppendSeq(s.buf, |data|, w), |data|);
    ClosedBlock(s.buf, data, w);
    var n := Num(closed[2]);
    var r := EncodeBlock(s.key, closed, n / 4);
    assert 4 * (n / 4) == n;
    assert r[3..3 + n] == Encode(s.key, closed[3..3 + n]);
  }

  lemma ClosedBlock(buf: seq<byte>, data: seq<byte>, w: word32)
    requires |buf| == MEM && |data| <= MAXDATA && Holds(buf, data)
    ensures
      var closed := CloseBlock(AppendSeq(buf, |data|, w), |data|);
      Holds(closed, Sealed(data, w)) && closed[1] == buf[1]
  {
    hide Num, Byte, ByteOf, Tail;
    var pad := PadOf(|data|);
    var appended := AppendSeq(buf, |data|, w);
    assert appended[3 + |data| + pad] == SeqBytes(w)[pad];
    assert appended[3..3 + |data|] == data;
    assert appended[3 + |data|..3 + |data| + pad] == SeqBytes(w)[..pad];
    var closed := CloseBlock(appended, |data|);
    var n := |Sealed(data, w)|;
    forall i | 0 <= i < n ensures closed[3 + i] == Sealed(data, w)[i] {
      if i < |data| {
        assert appended[3 + i] == appended[3..3 + |data|][i];
      } else if i < |data| + pad {
        assert appended[3 + i] == appended[3 + |data|..3 + |data| + pad][i - |data|];
      }
    }
  }

  // The memory after the buffer.

  /** The two bytes after the buffer once `w` is stored behind a payload of `len` bytes. */
  function Spilled(after: seq<byte>, len: nat, w: word32): seq<byte>
    requires |after| == 2
  {
    if len <= 64 then after
    else if len == 65 then [ByteOf(w, 3), after[1]]
    else [ByteOf(w, 2), ByteOf(w, 3)]
  }

  function After(buf: seq<byte>): (r: seq<byte>)
    requires |buf| == MEM
    ensures |r| == 2
  {
    buf[RF_MAX..]
  }

  lemma AppendSpills(buf: seq<byte>, len: nat, w: word32)
    requires |buf| == MEM && len <= MAXDATA
    ensures After(AppendSeq(buf, len, w)) == Spilled(After(buf), len, w)
  {
    hide ByteOf;
    var r := AppendSeq(buf, len, w);
    assert r[3 + len..7 + len] == SeqBytes(w);
    assert forall i :: 7 + len <= i < MEM ==> r[i] == buf[i];
    assert forall i :: 0 <= i < 4 ==> r[3 + len + i] == SeqBytes(w)[i];
  }

  lemma CloseSpillsNot(buf: seq<byte>, len: nat)
    requires |buf| == MEM && len <= MAXDATA
    ensures After(CloseBlock(buf, len)) == After(buf)
  {
    hide Num, Byte, Tail;
  }

  lemma EncodeSpillsNot(key: Key, buf: seq<byte>, n: nat)
    requires |buf| == MEM && 3 + 4 * n <= RF_MAX
    ensures After(EncodeBlock(key, buf, n)) == After(buf)
  {
    hide Encode;
    var r := EncodeBlock(key, buf, n);
    assert r[3 + 4 * n..] == buf[3 + 4 * n..];
    assert forall i :: RF_MAX <= i < MEM ==> r[i] == r[3 + 4 * n..][i - 3 - 4 * n];
  }

  /** What `cryptFun(1)` leaves after the buffer: the bytes of the sequence number that do not fit. */
  lemma EncryptSpills(s: Driver)
    requires |s.buf| == MEM && s.Len() <= MAXDATA
    ensures After(Encrypt(s).buf) == Spilled(After(s.buf), s.Len(), (s.seqNum + 1) % WRAP32)
  {
    hide Num, CloseBlock, AppendSeq, EncodeBlock, After, Spilled, PadOf;
    var w, len := (s.seqNum + 1) % WRAP32, s.Len();
    var appended := AppendSeq(s.buf, len, w);
    var closed := CloseBlock(appended, len);
    AppendSpills(s.buf, len, w);
    CloseSpillsNot(appended, len);
    EncodeSpillsNot(s.key, closed, Num(closed[2]) / 4);
  }

  /** Encryption leaves the memory after the buffer alone, whatever the sequence number. */
  ghost predicate StaysInside(s: Driver)
    requires |s.buf| == MEM && s.Len() <= MAXDATA
  {
    hide Num;
    forall q: word32 :: After(Encrypt(s.(seqNum := q)).buf) == After(s.buf)
  }

  /** The four-byte store of the sequence number is within the buffer exactly for payloads of up to 64 bytes. */
  lemma StaysInsideExactly(s: Driver)
    requires |s.buf| == MEM && s.Len() <= MAXDATA
    ensures StaysInside(s) <==> s.Len() <= 64
  {
    hide Num, Byte, ByteOf, Encrypt;
    if s.Len() <= 64 {
      forall q: word32 ensures After(Encrypt(s.(seqNum := q)).buf) == After(s.buf) {
        EncryptSpills(s.(seqNum := q));
      }
    } else {
      var top := After(s.buf)[if s.Len() == 65 then 0 else 1];
      var q := SeqNumWithout(top);
      EncryptSpills(s.(seqNum := q));
      assert After(Encrypt(s.(seqNum := q)).buf) != After(s.buf);
    }
  }

  /** A sequence number whose next has another highest byte. */
  lemma SeqNumWithout(top: byte) returns (q: word32)
    ensures ByteOf((q + 1) % WRAP32, 3) != top
  {
    hide Num, Byte, ByteOf;
    q := if top == 0 then 0xFF_FFFF else 0;
    NumOfSeqByte(q + 1);
    ByteOfNum(ByteOf(q + 1, 3));
    ByteOfNum(0);
    Zero();
  }

  lemma Zero()
    ensures Num(0) == 0
  {
  }
}
