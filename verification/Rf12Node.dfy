/** The RF12 driver: its variables, and its functions changing them in place. */
module Rf12Node {
  import opened Bytes
  import opened Crc16
  import opened Xxtea
  import opened Rf12

  /** The first `n` words of the packet data. */
  ghost function WordsAt(s: seq<byte>, n: nat): (v: seq<word32>)
    requires 3 + 4 * n <= |s|
    ensures |v| == n
  {
    Words(s[3..3 + 4 * n])
  }

  lemma Encoded(key: Key, was: seq<byte>, now: seq<byte>, n: nat)
    requires |was| == |now| == MEM && 1 < n <= MAXDATA / 4 + 1
    requires WordsAt(now, n) == Rounds(Up(key), WordsAt(was, n), ROUNDS)
    requires now[..3] == was[..3] && now[3 + 4 * n..] == was[3 + 4 * n..]
    ensures now == EncodeBlock(key, was, n)
  {
    hide Words, Unwords, Rounds;
    Rejoin(now, 3, n);
  }

  lemma Decoded(key: Key, was: seq<byte>, now: seq<byte>, n: nat)
    requires |was| == |now| == MEM && 1 < n <= MAXDATA / 4 + 1
    requires WordsAt(now, n) == UnRounds(Down(key), WordsAt(was, n), ROUNDS)
    requires now[..3] == was[..3] && now[3 + 4 * n..] == was[3 + 4 * n..]
    ensures now == DecodeBlock(key, was, n)
  {
    hide Words, Unwords, UnRounds;
    Rejoin(now, 3, n);
  }

  lemma WordStored(was: seq<byte>, now: seq<byte>, p: nat, w: word32, n: nat)
    requires p < n && 3 + 4 * n <= |was|
    requires now == was[3 + 4 * p := ByteOf(w, 0)][4 + 4 * p := ByteOf(w, 1)][5 + 4 * p := ByteOf(w, 2)][6 + 4 * p := ByteOf(w, 3)]
    ensures WordsAt(now, n) == WordsAt(was, n)[p := w] && now[..3] == was[..3] && now[3 + 4 * n..] == was[3 + 4 * n..]
  {
    hide ByteOf, Words;
    var d := was[3..3 + 4 * n];
    assert now[3..3 + 4 * n] == WithWord(d, p, w);
    StoreWord(d, p, w);
  }

  lemma AppendKeeps(s: seq<byte>, len: nat, w: word32)
    requires |s| == MEM && len <= MAXDATA
    ensures AppendSeq(s, len, w)[2] == s[2]
  {
    hide ByteOf;
  }

  lemma GatherStep(bytes: seq<byte>, k: nat, high: nat)
    requires k < |bytes|
    ensures Gather(bytes[..k + 1], high) == Gather(bytes[..k], high * 0x100 + Num(bytes[k]))
  {
    hide Num;
    assert bytes[..k + 1][..k] == bytes[..k];
  }

  lemma GatherNone(bytes: seq<byte>, high: nat)
    ensures Gather(bytes[..0], high) == high
  {
  }

  /** A single word is neither encoded nor decoded. */
  lemma OneWord(key: Key, s: seq<byte>)
    requires |s| == MEM
    ensures EncodeBlock(key, s, 1) == s && DecodeBlock(key, s, 1) == s
  {
    assert s == s[..3] + s[3..7] + s[7..];
  }

  class Node {
    const buf: array<byte>
    var nodeid: byte
    var group: byte
    var rxfill: nat
    var rxstate: int
    var crc: Crc
    var sequence: int
    var seqNum: word32
    var key: Key
    var crypt: bool
    var radio: Radio

    ghost function State(): Driver
      reads this, buf
    {
      Driver(nodeid, group, rxfill, rxstate, crc, buf[..], sequence, seqNum, key, crypt, radio)
    }

    /** `rf12_initialize`, as far as the driver's variables are concerned. */
    constructor (id: byte, g: byte)
      ensures State().Valid() && rxstate == TXIDLE && nodeid == id && group == g && !crypt
      ensures fresh(buf)
    {
      buf := new byte[MEM];
      nodeid, group := id, g;
      rxfill, rxstate, crc := 0, TXIDLE, 0;
      sequence, seqNum, key, crypt, radio := 0, 0, [0, 0, 0, 0], false, Idle;
    }

    /** One call of `rf12_interrupt`: `fifo` is the byte received, `out` the byte sent, if any. */
    method Interrupt(fifo: byte) returns (out: byte)
      requires State().Live()
      modifies this, buf
      ensures old(rxstate) == TXRECV ==> State() == ReceiveByte(old(State()), fifo)
      ensures old(rxstate) != TXRECV ==> (State(), out) == SendByte(old(State()))
    {
      hide Update, Low, High, Num, ReceiveByte;
      out := 0;
      if rxstate == TXRECV {
        StoreByte(fifo);
      } else if rxstate < 0 {
        var pos := 3 + Num(buf[2]) + rxstate;
        rxstate := rxstate + 1;
        out := buf[pos];
        crc := Update(crc, out);
      } else {
        var state := rxstate;
        rxstate := rxstate + 1;
        out := 0xAA;
        if state == TXSYN1 {
          out := 0x2D;
        } else if state == TXSYN2 {
          out := group;
          rxstate := -(2 + Num(buf[2]));
        } else if state == TXCRC1 {
          out := Low(crc);
        } else if state == TXCRC2 {
          out := High(crc);
        } else if state == TXDONE {
          radio := Idle;
        }
      }
    }

    /** The receiving branch of the interrupt. */
    method StoreByte(fifo: byte)
      requires State().Live() && rxstate == TXRECV
      modifies this, buf
      ensures State() == ReceiveByte(old(State()), fifo)
    {
      hide Update, Num;
      if rxfill == 0 && group != 0 {
        buf[rxfill] := group;
        rxfill := rxfill + 1;
      }
      buf[rxfill] := fifo;
      rxfill := rxfill + 1;
      crc := Update(crc, fifo);
      if rxfill >= Num(buf[2]) + 5 || rxfill >= RF_MAX {
        radio := Idle;
      }
    }

    method StartReception()
      requires buf.Length == MEM
      modifies this, buf
      ensures State() == RecvStart(old(State()))
    {
      hide Update;
      rxfill, buf[2] := 0, 0;
      crc := START;
      if group != 0 {
        crc := Update(START, group);
      }
      rxstate := TXRECV;
      radio := Receiving;
    }

    // The cipher, working on the words of the packet data in the buffer.

    ghost function WordsHere(n: nat): (v: seq<word32>)
      requires 3 + 4 * n <= buf.Length
      reads buf
      ensures |v| == n
    {
      WordsAt(buf[..], n)
    }

    /** The rest of the buffer, which the cipher leaves alone. */
    ghost function Rest(n: nat): (seq<byte>, seq<byte>)
      requires 3 + 4 * n <= buf.Length
      reads buf
    {
      (buf[..3], buf[3 + 4 * n..])
    }

    method GetWord(p: nat, ghost n: nat) returns (w: word32)
      requires p < n && 3 + 4 * n <= buf.Length
      ensures w == WordsHere(n)[p]
    {
      hide Word32;
      var at := 3 + 4 * p;
      w := Word32(buf[at], buf[at + 1], buf[at + 2], buf[at + 3]);
    }

    method PutWord(p: nat, w: word32, ghost n: nat)
      requires p < n && 3 + 4 * n <= buf.Length
      modifies buf
      ensures WordsHere(n) == old(WordsHere(n))[p := w] && Rest(n) == old(Rest(n))
    {
      hide ByteOf, Word32, Words;
      ghost var was := buf[..];
      buf[3 + 4 * p] := ByteOf(w, 0);
      buf[4 + 4 * p] := ByteOf(w, 1);
      buf[5 + 4 * p] := ByteOf(w, 2);
      buf[6 + 4 * p] := ByteOf(w, 3);
      WordStored(was, buf[..], p, w, n);
    }

    /** `v[p] += MX`, with the new word as its value. */
    method AddMix(p: nat, y: word32, z: word32, sum: word32, n: nat) returns (w: word32)
      requires p < n && 3 + 4 * n <= buf.Length
      requires y == WordsHere(n)[Next(p, n)] && z == WordsHere(n)[Prev(p, n)]
      modifies buf
      ensures WordsHere(n) == old(Bump(Up(key), WordsHere(n), sum, p)) && Rest(n) == old(Rest(n))
      ensures w == WordsHere(n)[p]
    {
      hide Mx;
      w := GetWord(p, n);
      w := (w + Mx(key, y, z, sum, p)) % WRAP32;
      PutWord(p, w, n);
    }

    /** `v[p] -= MX`, with the new word as its value. */
    method SubMix(p: nat, y: word32, z: word32, sum: word32, n: nat) returns (w: word32)
      requires p < n && 3 + 4 * n <= buf.Length
      requires y == WordsHere(n)[Next(p, n)] && z == WordsHere(n)[Prev(p, n)]
      modifies buf
      ensures WordsHere(n) == old(Bump(Down(key), WordsHere(n), sum, p)) && Rest(n) == old(Rest(n))
      ensures w == WordsHere(n)[p]
    {
      hide Mx;
      w := GetWord(p, n);
      w := (w - Mx(key, y, z, sum, p)) % WRAP32;
      PutWord(p, w, n);
    }

    lemma Here(n: nat)
      requires 3 + 4 * n <= buf.Length
      ensures WordsHere(n) == WordsAt(buf[..], n) && Rest(n) == (buf[..][..3], buf[..][3 + 4 * n..])
    {
    }

    /** One round of encoding, from the first word to the last; `z` is the word before. */
    method EncodeRound(n: nat, sum: word32, last: word32) returns (z: word32)
      requires n > 1 && 3 + 4 * n <= buf.Length && last == WordsHere(n)[n - 1]
      modifies buf
      ensures WordsHere(n) == old(Pass(Up(key), WordsHere(n), sum, 0)) && Rest(n) == old(Rest(n))
      ensures z == WordsHere(n)[n - 1]
    {
      hide Up, Bump, Words, WordsHere, Rest;
      z := last;
      var p := 0;
      while p < n - 1
        invariant p <= n - 1
        invariant |WordsHere(n)| == n && Pass(Up(key), WordsHere(n), sum, p) == old(Pass(Up(key), WordsHere(n), sum, 0))
        invariant z == WordsHere(n)[Prev(p, n)]
        invariant Rest(n) == old(Rest(n))
      {
        var y := GetWord(p + 1, n);
        z := AddMix(p, y, z, sum, n);
        p := p + 1;
      }
      var y := GetWord(0, n);
      z := AddMix(n - 1, y, z, sum, n);
    }

    method EncodeWords(n: nat)
      requires n > 1 && 3 + 4 * n <= buf.Length == MEM
      modifies buf
      ensures buf[..] == EncodeBlock(key, old(buf[..]), n)
    {
      hide Up, Pass, Words, Unwords, WordsHere, Rest, EncodeBlock;
      Here(n);
      ghost var was, v, rest := buf[..], WordsHere(n), Rest(n);
      var rounds := ROUNDS;
      var sum: word32 := 0;
      var z := GetWord(n - 1, n);
      while rounds > 0
        invariant 0 <= rounds <= ROUNDS && sum == Sum(ROUNDS - rounds)
        invariant |WordsHere(n)| == n && WordsHere(n) == Rounds(Up(key), v, ROUNDS - rounds)
        invariant z == WordsHere(n)[n - 1]
        invariant Rest(n) == rest
      {
        sum := (sum + DELTA) % WRAP32;
        z := EncodeRound(n, sum, z);
        rounds := rounds - 1;
      }
      Here(n);
      Encoded(key, was, buf[..], n);
    }

    /** One round of decoding, from the last word to the first; `y` is the word after. */
    method DecodeRound(n: nat, sum: word32, first: word32) returns (y: word32)
      requires n > 1 && 3 + 4 * n <= buf.Length && first == WordsHere(n)[0]
      modifies buf
      ensures WordsHere(n) == old(UnPass(Down(key), WordsHere(n), sum, n)) && Rest(n) == old(Rest(n))
      ensures y == WordsHere(n)[0]
    {
      hide Down, Bump, Words, WordsHere, Rest;
      y := first;
      var p := n - 1;
      while p > 0
        invariant 0 <= p <= n - 1
        invariant |WordsHere(n)| == n
        invariant UnPass(Down(key), WordsHere(n), sum, p + 1) == old(UnPass(Down(key), WordsHere(n), sum, n))
        invariant y == WordsHere(n)[Next(p, n)]
        invariant Rest(n) == old(Rest(n))
      {
        var z := GetWord(p - 1, n);
        y := SubMix(p, y, z, sum, n);
        p := p - 1;
      }
      var z := GetWord(n - 1, n);
      y := SubMix(0, y, z, sum, n);
    }

    method DecodeWords(n: nat)
      requires n > 1 && 3 + 4 * n <= buf.Length == MEM
      modifies buf
      ensures buf[..] == DecodeBlock(key, old(buf[..]), n)
    {
      hide Down, UnPass, Words, Unwords, WordsHere, Rest, DecodeBlock;
      Here(n);
      ghost var was, v, rest := buf[..], WordsHere(n), Rest(n);
      DecoderRunsSixRounds(ROUNDS);
      var sum: word32 := ROUNDS * DELTA % WRAP32;
      var y := GetWord(0, n);
      ghost var k := ROUNDS;
      while true
        invariant 1 <= k <= ROUNDS && sum == Sum(k)
        invariant |WordsHere(n)| == n && UnRounds(Down(key), WordsHere(n), k) == UnRounds(Down(key), v, ROUNDS)
        invariant y == WordsHere(n)[0]
        invariant Rest(n) == rest
        decreases k
      {
        y := DecodeRound(n, sum, y);
        DecoderRunsSixRounds(k);
        sum, k := (sum - DELTA) % WRAP32, k - 1;
        DecoderRunsSixRounds(k);
        if sum == 0 { break; }
      }
      Here(n);
      Decoded(key, was, buf[..], n);
    }

    /** The sequence number written after the payload, all four bytes of it. */
    method PutSeq(len: nat)
      requires buf.Length == MEM && len <= MAXDATA
      modifies buf
      ensures buf[..] == AppendSeq(old(buf[..]), len, seqNum)
    {
      hide ByteOf;
      buf[3 + len] := ByteOf(seqNum, 0);
      buf[4 + len] := ByteOf(seqNum, 1);
      buf[5 + len] := ByteOf(seqNum, 2);
      buf[6 + len] := ByteOf(seqNum, 3);
    }

    /** The pad count put into the last byte kept, and the new length. */
    method PutPad(len: nat)
      requires buf.Length == MEM && len == Num(buf[2]) <= MAXDATA
      modifies buf
      ensures buf[..] == CloseBlock(old(buf[..]), len)
    {
      hide Num, Byte;
      var pad := 3 - len % 4;
      var end := len + pad;
      buf[3 + end] := buf[3 + end] & 0x3F;
      buf[3 + end] := buf[3 + end] | (Byte(pad) << 6);
      buf[2] := Byte(end + 1);
    }

    method CryptFun(send: bool)
      requires buf.Length == MEM
      requires Num(buf[2]) <= MAXDATA
      modifies this, buf
      ensures State() ==
        if send then Encrypt(old(State())) else if old(crc) == 0 then Decrypt(old(State())) else old(State())
    {
      hide Num, Byte, AppendSeq, CloseBlock, EncodeBlock, DecodeBlock;
      if send {
        seqNum := (seqNum + 1) % WRAP32;
        var len := Num(buf[2]);
        PutSeq(len);
        AppendKeeps(old(buf[..]), len, seqNum);
        PutPad(len);
        var n := Num(buf[2]) / 4;
        OneWord(key, buf[..]);
        if n > 1 {
          EncodeWords(n);
        }
      } else if crc == 0 {
        var n := Num(buf[2]) / 4;
        OneWord(key, buf[..]);
        if n > 1 {
          DecodeWords(n);
        }
        if n > 0 {
          StripSeq();
        }
      }
    }

    /** The last part of `cryptFun(0)`: the sequence number taken off the end. */
    method StripSeq()
      requires buf.Length == MEM && 4 <= Num(buf[2]) <= MAXDATA
      modifies buf, `sequence
      ensures
        var (len, number) := Strip(old(buf[..]), Num(old(buf[2])));
        buf[..] == old(buf[..])[2 := Byte(len)] && sequence == number
    {
      hide Num, Byte, Gather;
      var len := Num(buf[2]) - 1;
      var tail := buf[3 + len];
      TailPad(tail);
      var pad := Num(tail >> 6);
      sequence := Num(tail & 0x3F);
      ghost var low := len - pad;
      ghost var rest := buf[3 + low..3 + len];
      assert rest[..pad] == rest;
      while pad > 0
        invariant 0 <= pad <= |rest| && len == low + pad && 0 <= sequence
        invariant buf[..] == old(buf[..])
        invariant Gather(rest[..pad], sequence) == Gather(rest, Num(tail & 0x3F))
      {
        pad := pad - 1;
        len := len - 1;
        GatherStep(rest, pad, sequence);
        assert rest[pad] == buf[3 + len];
        sequence := sequence * 0x100 + Num(buf[3 + len]);
      }
      GatherNone(rest, sequence);
      buf[2] := Byte(len);
    }

    // The calls an application makes.

    method RecvDone() returns (done: bool)
      requires State().Valid()
      modifies this, buf
      ensures (done, State()) == Rf12.RecvDone(old(State()))
    {
      hide Num, Update, Encrypt, Decrypt, Accepts;
      if rxstate == TXRECV && (rxfill >= Num(buf[2]) + 5 || rxfill >= RF_MAX) {
        rxstate := TXIDLE;
        if Num(buf[2]) > MAXDATA {
          crc := 1;
        }
        if Accepts(nodeid, buf[1]) {
          if crc == 0 && crypt {
            CryptFun(false);
          } else {
            sequence := -1;
          }
          return true;
        }
      }
      if rxstate == TXIDLE {
        StartReception();
      }
      done := false;
    }

    method CanSend(carrier: bool) returns (free: bool)
      requires State().Valid()
      modifies this
      ensures (free, State()) == Rf12.CanSend(old(State()), carrier)
    {
      hide Num;
      if rxstate == TXRECV && rxfill == 0 && !carrier {
        radio := Idle;
        rxstate := TXIDLE;
        return true;
      }
      free := false;
    }

    method SendStart(hdr: byte)
      requires State().Valid() && rxstate == TXIDLE && State().Len() <= MAXDATA
      modifies this, buf
      ensures State() == Rf12.SendStart(old(State()), hdr)
    {
      hide Num, Update, Header, Encrypt, Decrypt;
      buf[1] := Header(hdr, nodeid);
      if crypt {
        CryptFun(true);
      }
      crc := START;
      crc := Update(crc, group);
      rxstate := TXPRE1;
      radio := Transmitting;
    }

    /** `rf12_sendStart` with a payload, which is copied into the buffer first. */
    method SendData(hdr: byte, data: seq<byte>)
      requires State().Valid() && rxstate == TXIDLE && |data| <= MAXDATA
      modifies this, buf
      ensures State() == Rf12.SendData(old(State()), hdr, data)
    {
      hide Num, Byte, Rf12.SendStart;
      NumOfByte(|data|);
      buf[2] := Byte(|data|);
      forall i | 0 <= i < |data| {
        buf[3 + i] := data[i];
      }
      assert buf[..] == LoadData(old(State()), data).buf;
      SendStart(hdr);
    }
  }
}
