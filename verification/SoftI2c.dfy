/** `SoftI2cMaster`: two pins, and the calls that wiggle them. */
module SoftI2c {
  import opened Bytes
  import opened I2cBus
  import opened I2cMaster

  lemma NoBitsTrace(bits: seq<bool>)
    ensures BitsTrace(bits[..0]) == []
  {
  }

  lemma BitsTraceTake(bits: seq<bool>, k: nat)
    requires k < |bits|
    ensures BitsTrace(bits[..k + 1]) == BitsTrace(bits[..k]) + BitTrace(bits[k])
  {
    assert bits[..k + 1][..k] == bits[..k];
  }

  /** The mask that `m >>= 1` has reached after `k` steps from 0x80. */
  function Mask(k: nat): byte
    requires k <= 8
  {
    if k == 0 then 0x80 else Mask(k - 1) >> 1
  }

  lemma MaskValues()
    ensures Mask(0) == 0x80 && Mask(1) == 0x40 && Mask(2) == 0x20 && Mask(3) == 0x10
    ensures Mask(4) == 0x08 && Mask(5) == 0x04 && Mask(6) == 0x02 && Mask(7) == 0x01 && Mask(8) == 0
  {
  }

  lemma MaskBits(data: byte, k: nat)
    requires k <= 8
    ensures Mask(k) == 0 <==> k == 8
    ensures k < 8 ==> BitsOf(data)[k] == Bit(data, Mask(k)) && Mask(k + 1) == Mask(k) >> 1
  {
    hide Bit;
    MaskValues();
  }

  class Master {
    var sda: bool     // level of the data pin
    var output: bool  // the data pin drives the line
    var scl: bool
    var slave: bool   // level the slave leaves on a line nobody else drives
    var trace: seq<Line>

    function Wire(): Line
      reads this
    {
      Line(scl, if output then sda else slave)
    }

    /** Inside a transaction the master holds both lines low. */
    ghost predicate Holding()
      reads this
    {
      output && !sda && !scl
    }

    ghost predicate Free()
      reads this
    {
      output && sda && scl
    }

    constructor ()
      ensures Free() && trace == []
    {
      output, sda, scl, slave, trace := true, true, true, true, [];
    }

    method WriteSda(level: bool)
      modifies `sda, `trace
      ensures sda == level && trace == old(trace) + [Wire()]
    {
      sda := level;
      trace := trace + [Wire()];
    }

    method WriteScl(level: bool)
      modifies `scl, `trace
      ensures scl == level && trace == old(trace) + [Wire()]
    {
      scl := level;
      trace := trace + [Wire()];
    }

    method SdaMode(out: bool)
      modifies `output, `trace
      ensures output == out && trace == old(trace) + [Wire()]
    {
      output := out;
      trace := trace + [Wire()];
    }

    /** The slave puts its next bit on the line while the clock is low. */
    method SlaveSets(level: bool)
      requires !scl && !output
      modifies `slave, `trace
      ensures slave == level && trace == old(trace) + [Wire()]
    {
      slave := level;
      trace := trace + [Wire()];
    }

    /** The loop of `write`: the bits of a byte, most significant first. */
    method SendBits(data: byte)
      requires output && !scl
      modifies this
      ensures output && !scl && slave == old(slave)
      ensures trace == old(trace) + BitsTrace(BitsOf(data))
    {
      hide BitsOf, Mask, Bit, BitsTrace;
      var m: byte := 0x80;
      ghost var k := 0;
      MaskValues();
      MaskBits(data, 0);
      NoBitsTrace(BitsOf(data));
      while m != 0
        invariant 0 <= k <= 8 && m == Mask(k) && (m == 0 <==> k == 8)
        invariant output && !scl && slave == old(slave)
        invariant trace == old(trace) + BitsTrace(BitsOf(data)[..k])
        decreases 8 - k
      {
        MaskBits(data, k);
        BitsTraceTake(BitsOf(data), k);
        WriteSda(Bit(data, m));
        WriteScl(true);
        WriteScl(false);
        m := m >> 1;
        k := k + 1;
        MaskBits(data, k);
      }
      assert BitsOf(data)[..8] == BitsOf(data);
    }

    /** `write`: `nak` is the level the slave gives the acknowledge bit. */
    method Write(data: byte, nak: bool) returns (acked: bool)
      requires Holding()
      modifies this
      ensures Holding() && acked == !nak
      ensures trace == old(trace) + WriteTrace(data, nak)
    {
      hide BitsOf, BitsTrace;
      SendBits(data);
      slave := nak;
      SdaMode(false);
      WriteSda(true);
      WriteScl(true);
      acked := !Wire().sda;
      WriteScl(false);
      SdaMode(true);
      WriteSda(false);
    }

    method Start(address: byte, nak: bool) returns (acked: bool)
      requires Free()
      modifies this
      ensures Holding() && acked == !nak
      ensures trace == old(trace) + StartTrace(address, nak)
    {
      hide WriteTrace;
      WriteSda(false);
      WriteScl(false);
      acked := Write(address, nak);
    }

    method Restart(address: byte, nak: bool) returns (acked: bool)
      requires Holding()
      modifies this
      ensures Holding() && acked == !nak
      ensures trace == old(trace) + CallTrace(RestartCall(address, nak))
    {
      hide StartTrace;
      WriteSda(true);
      WriteScl(true);
      acked := Start(address, nak);
    }

    method Stop()
      requires Holding()
      modifies this
      ensures Free() && trace == old(trace) + CallTrace(StopCall)
    {
      WriteSda(false);
      WriteScl(true);
      WriteSda(true);
    }

    /** The loop of `read`: one bit of the slave per low period of the clock. */
    method ReceiveBits(bits: seq<bool>) returns (b: byte)
      requires !output && !scl && |bits| == 8
      modifies `slave, `scl, `trace
      ensures !scl && b == FromBits(bits)
      ensures trace == old(trace) + BitsTrace(bits)
    {
      hide Append, FromBits, BitsTrace;
      b := 0;
      FromNoBits(bits);
      NoBitsTrace(bits);
      for i := 0 to 8
        invariant !scl && b == FromBits(bits[..i])
        invariant trace == old(trace) + BitsTrace(bits[..i])
      {
        BitsTraceTake(bits, i);
        FromBitsTake(bits, i);
        SlaveSets(bits[i]);
        WriteScl(true);
        b := Append(b, Wire().sda);
        WriteScl(false);
      }
      assert bits[..8] == bits;
    }

    /** `read`: `value` is the byte the slave sends. */
    method Read(last: bool, value: byte) returns (b: byte)
      requires Holding()
      modifies this
      ensures Holding() && b == value
      ensures trace == old(trace) + ReadTrace(value, last)
    {
      hide BitsOf, FromBits, BitsTrace;
      WriteSda(true);
      slave := BitsOf(value)[0];
      SdaMode(false);
      b := ReceiveBits(BitsOf(value));
      FromBitsOf(value);
      SdaMode(true);
      WriteSda(last);
      WriteScl(true);
      WriteScl(false);
      WriteSda(false);
    }
  }
}
