/** The DFU class bootloader: its download and upload requests against flash and EEPROM. */
module Dfu {
  import opened Bytes
  import opened Flash
  import opened DfuFlash

  datatype State = DfuIdle | DownloadIdle | UploadIdle

  const COMMAND_PROG_START: byte := 0x01
  const COMMAND_DISP_DATA: byte := 0x03
  const COMMAND_CHANGE_BASE_ADDR: byte := 0x06

  // The first parameter of a command names the memory.
  const WRITE_FLASH: byte := 0x00
  const WRITE_EEPROM: byte := 0x01
  const READ_FLASH: byte := 0x00
  const READ_EEPROM: byte := 0x02

  /** The command byte of a request and its five parameters. */
  datatype Command = Command(code: byte, data: seq<byte>)

  /** A big-endian address in the parameters of a command. */
  function Address(hi: byte, lo: byte): (r: nat)
    ensures r < 0x1_0000
  {
    0x100 * Num(hi) + Num(lo)
  }

  /** The byte count from start to end, in 16-bit arithmetic. */
  function Count(start: nat, end: nat): (n: nat)
    ensures n < 0x1_0000
  {
    (end - start + 1) % 0x1_0000
  }

  /** The first address a command names, in a 64 KB page. */
  function StartOf(page64: nat, params: seq<byte>): nat
    requires |params| == 5
  {
    0x1_0000 * page64 + Address(params[1], params[2])
  }

  /** The number of bytes a command names. */
  function BytesOf(params: seq<byte>): nat
    requires |params| == 5
  {
    Count(Address(params[1], params[2]), Address(params[3], params[4]))
  }

  /** The bytes from start to end are counted, except that all of a 64 KB page counts as none. */
  lemma CountInNumbers(s: nat, e: nat)
    requires s <= e < 0x1_0000
    ensures Count(s, e) == if s == 0 && e == 0xFFFF then 0 else e - s + 1
  {
  }

  /** The range that the parameters of a command name, in numbers. */
  lemma RangeInNumbers(page64: nat, params: seq<byte>)
    requires |params| == 5
    ensures
      var s, e := 0x100 * Num(params[1]) + Num(params[2]), 0x100 * Num(params[3]) + Num(params[4]);
      && StartOf(page64, params) == 0x1_0000 * page64 + s
      && Address(params[1], params[2]) == s && Address(params[3], params[4]) == e
      && BytesOf(params) == Count(s, e) && s < 0x1_0000 && e < 0x1_0000
      && (s <= e ==> Count(s, e) == if s == 0 && e == 0xFFFF then 0 else e - s + 1)
  {
    hide Num;
  }

  lemma StartInPlace(from: nat, n: nat)
    ensures InPlace(from, n) <==> from % 128 == 0 || from % 128 + n <= 128
  {
  }

  lemma ReadyStart(m: Memory, base: nat, words: nat)
    requires m.Valid() && base % 2 == 0 && base + 2 * words <= |m.mem|
    ensures Ready(m, base, base, 2 * words)
  {
  }

  class Bootloader {
    const chip: Chip
    const eeprom: array<byte>
    var state: State
    var startAddr: nat
    var endAddr: nat
    var page64: nat    // Flash64KBPage
    var data: seq<byte>

    ghost predicate Valid()
      reads this, chip, chip.mem, chip.temp, eeprom
    {
      && chip.Valid() && |data| == 5 && startAddr < 0x1_0000 && endAddr < 0x1_0000
      && eeprom != chip.mem && eeprom != chip.temp
    }

    constructor (c: Chip, eepromSize: nat)
      requires c.Valid()
      ensures Valid() && chip == c && state == DfuIdle && fresh(eeprom) && eeprom.Length == eepromSize
      ensures startAddr == endAddr == page64 == 0
    {
      chip := c;
      eeprom := new byte[eepromSize](_ => 0xFF);
      state, startAddr, endAddr, page64, data := DfuIdle, 0, 0, 0, [0, 0, 0, 0, 0];
    }

    /** The 32-bit flash address of `startAddr` in the selected 64 KB page. */
    function Base(): nat
      reads this
    {
      0x1_0000 * page64 + startAddr
    }

    /** The flash part of a download: `firmware` is the data stage after its filler bytes. */
    method DownloadFlash(firmware: seq<byte>)
      requires Valid() && |firmware| >= Whole(Count(startAddr, endAddr))
      requires Base() % 2 == 0 && Base() + Whole(Count(startAddr, endAddr)) <= chip.mem.Length
      modifies this, chip, chip.mem, chip.temp
      ensures Valid() && startAddr == endAddr == old(endAddr)
      ensures state == old(state) && page64 == old(page64) && data == old(data)
      ensures chip.State() ==
        Downloaded(old(chip.State()), old(Base()), old(Base()), 0, firmware[..Whole(Count(old(startAddr), endAddr))])
    {
      hide Word16, Fill, Write, Erase, Count, Base, Downloaded, Ready;
      var words := Count(startAddr, endAddr) / 2;
      ghost var image, was, base := firmware[..2 * words], chip.State(), Base();
      ReadyStart(was, base, words);
      var addr := Base();
      var pageStart := addr;
      var inPage := 0;
      var at := 0;
      assert image[0..] == image;
      while words > 0
        invariant 0 <= words && at + 2 * words == |image|
        invariant chip.Valid() && unchanged(this) && Ready(chip.State(), addr, pageStart, |image[at..]|)
        invariant Downloaded(chip.State(), addr, pageStart, inPage, image[at..]) == Downloaded(was, base, base, 0, image)
      {
        ghost var f, rest := DownloadedStep(chip.State(), addr, pageStart, inPage, image[at..]);
        assert rest == image[at + 2..];
        words := words - 1;
        chip.FillWord(addr, Word16(firmware[at], firmware[at + 1]));
        at := at + 2;
        inPage := inPage + 1;
        addr := addr + 2;
        if inPage == PAGE / 2 || words == 0 {
          chip.WritePage(pageStart);
          if words > 0 {
            pageStart := addr;
            inPage := 0;
            chip.ErasePage(addr);
          } else {
            ReadyOther(f, chip.State(), addr, pageStart, 0);
            DownloadedNothing(chip.State(), addr, pageStart, inPage);
          }
        }
      }
      DownloadedNothing(chip.State(), addr, pageStart, inPage);
      startAddr := endAddr;
    }

    /** The EEPROM part of a download. */
    method DownloadEeprom(firmware: seq<byte>)
      requires Valid() && |firmware| >= Count(startAddr, endAddr)
      requires startAddr + Count(startAddr, endAddr) <= eeprom.Length <= 0x1_0000
      modifies `startAddr, eeprom
      ensures Valid() && chip.State() == old(chip.State())
      ensures startAddr == (old(startAddr) + Count(old(startAddr), endAddr)) % 0x1_0000
      ensures
        var from, n := old(startAddr), Count(old(startAddr), endAddr);
        eeprom[..] == old(eeprom[..from]) + firmware[..n] + old(eeprom[from + n..])
    {
      var bytes := Count(startAddr, endAddr);
      ghost var from, n := startAddr, bytes;
      var at := 0;
      while bytes > 0
        invariant 0 <= bytes && at == n - bytes && startAddr == (if from + at == 0x1_0000 then 0 else from + at)
        invariant chip.State() == old(chip.State()) && unchanged(`endAddr) && unchanged(`data)
        invariant forall i :: 0 <= i < eeprom.Length ==>
          eeprom[i] == if from <= i < from + at then firmware[i - from] else old(eeprom[i])
      {
        bytes := bytes - 1;
        eeprom[startAddr] := firmware[at];
        at := at + 1;
        startAddr := (startAddr + 1) % 0x1_0000;
      }
    }

    method LoadStartEndAddresses()
      requires Valid()
      modifies `startAddr, `endAddr
      ensures Valid() && startAddr == 0x100 * Num(data[1]) + Num(data[2]) && endAddr == 0x100 * Num(data[3]) + Num(data[4])
    {
      startAddr := Address(data[1], data[2]);
      endAddr := Address(data[3], data[4]);
    }

    /** A memory program, memory read or base address command. */
    method ProcessCommand(code: byte)
      requires Valid()
      requires code == 0x01 && data[0] == 0x00 ==> StartOf(page64, data) < chip.mem.Length
      modifies this, chip, chip.mem
      ensures Valid() && data == old(data) && chip.temp[..] == old(chip.temp[..])
      ensures
        var from, to := 0x100 * Num(data[1]) + Num(data[2]), 0x100 * Num(data[3]) + Num(data[4]);
        && (code == 0x01 && (data[0] == 0x00 || data[0] == 0x01) ==> state == DownloadIdle && startAddr == from && endAddr == to)
        && (code == 0x03 && (data[0] == 0x00 || data[0] == 0x02) ==> state == UploadIdle && startAddr == from && endAddr == to)
      ensures code != 0x01 && code != 0x03 ==> state == old(state) && startAddr == old(startAddr) && endAddr == old(endAddr)
      ensures page64 == if code == 0x06 && data[0] == 0x03 && data[1] == 0x00 then Num(data[2]) else old(page64)
      ensures chip.State() ==
        if code == 0x01 && data[0] == 0x00 then Erase(old(chip.State()), StartOf(page64, data)) else old(chip.State())
    {
      hide Num, Erase;
      if code == COMMAND_PROG_START {
        if data[0] == WRITE_FLASH || data[0] == WRITE_EEPROM {
          LoadStartEndAddresses();
          if data[0] == WRITE_FLASH {
            chip.ErasePage(Base());
          }
          state := DownloadIdle;
        }
      } else if code == COMMAND_DISP_DATA {
        if data[0] == READ_FLASH || data[0] == READ_EEPROM {
          LoadStartEndAddresses();
          state := UploadIdle;
        }
      } else if code == COMMAND_CHANGE_BASE_ADDR {
        if data[0] == 0x03 && data[1] == 0x00 {
          page64 := Num(data[2]);
        }
      }
    }

    /** A download request that programs flash: the command and the firmware in its data stage. */
    method ProgramFlash(params: seq<byte>, firmware: seq<byte>)
      requires Valid() && |params| == 5 && params[0] == WRITE_FLASH && Whole(BytesOf(params)) <= |firmware|
      requires StartOf(page64, params) % 2 == 0 && StartOf(page64, params) < chip.mem.Length
      requires StartOf(page64, params) + Whole(BytesOf(params)) <= chip.mem.Length
      modifies this, chip, chip.mem, chip.temp
      ensures Valid() && state == DownloadIdle && page64 == old(page64)
      ensures
        var from, image := StartOf(old(page64), params), firmware[..Whole(BytesOf(params))];
        && chip.State() == Programmed(old(chip.State()), from, image)
        && (old(chip.State()).Clear() ==> chip.State().Clear())
        && (old(chip.State()).Clear() && OnPage(from) && image != [] ==>
              && from + PageSpan(|image|) <= chip.mem.Length
              && chip.mem[..] == Laid(old(chip.mem[..]), from, image)
              && chip.log == old(chip.log) + PageOps(from, PageNumber(PageSpan(|image|))))
    {
      hide Num, Laid, Address, OnPage, PageSpan, Downloaded, PageOps;
      RangeInNumbers(page64, params);
      ghost var was, from, image := chip.State(), StartOf(page64, params), firmware[..Whole(BytesOf(params))];
      data := params;
      ProcessCommand(COMMAND_PROG_START);
      DownloadFlash(firmware);
      if was.Clear() {
        ProgrammedClear(was, from, image);
        if OnPage(from) && image != [] {
          ProgrammedLays(was, from, image);
        }
      }
    }

    /** An upload request after a memory read command: the bytes sent to the host. */
    method Upload() returns (bytes: seq<byte>)
      requires Valid() && state == UploadIdle
      requires data[0] == READ_FLASH ==> Base() + Count(startAddr, endAddr) <= chip.mem.Length
      requires data[0] == READ_EEPROM ==> startAddr + Count(startAddr, endAddr) <= eeprom.Length <= 0x1_0000
      modifies `startAddr, `state
      ensures Valid() && state == DfuIdle
      ensures data[0] == READ_FLASH ==>
        bytes == chip.mem[old(Base())..old(Base()) + Whole(Count(old(startAddr), endAddr))] && startAddr == endAddr
      ensures data[0] == READ_EEPROM ==>
        bytes == eeprom[old(startAddr)..old(startAddr) + Count(old(startAddr), endAddr)]
    {
      bytes := [];
      if data[0] == READ_FLASH {
        bytes := UploadFlash();
        startAddr := endAddr;
      } else if data[0] == READ_EEPROM {
        bytes := UploadEeprom();
      }
      state := DfuIdle;
    }

    method UploadFlash() returns (bytes: seq<byte>)
      requires Valid() && Base() + Count(startAddr, endAddr) <= chip.mem.Length
      ensures bytes == chip.mem[Base()..Base() + Whole(Count(startAddr, endAddr))]
    {
      hide Word16, Low, High;
      bytes := [];
      var words := Count(startAddr, endAddr) / 2;
      var addr := Base();
      ghost var n := words;
      while words > 0
        invariant 0 <= words <= n && addr == Base() + 2 * (n - words)
        invariant bytes == chip.mem[Base()..addr]
      {
        words := words - 1;
        var w := Word16(chip.mem[addr], chip.mem[addr + 1]);
        Word16Bytes(chip.mem[addr], chip.mem[addr + 1]);
        bytes := bytes + [Low(w), High(w)];
        addr := addr + 2;
      }
    }

    method UploadEeprom() returns (bytes: seq<byte>)
      requires Valid() && startAddr + Count(startAddr, endAddr) <= eeprom.Length <= 0x1_0000
      modifies `startAddr
      ensures Valid() && bytes == eeprom[old(startAddr)..old(startAddr) + Count(old(startAddr), endAddr)]
    {
      bytes := [];
      var left := Count(startAddr, endAddr);
      ghost var from, n := startAddr, left;
      while left > 0
        invariant 0 <= left <= n && startAddr == (from + n - left) % 0x1_0000 && unchanged(`endAddr) && Valid()
        invariant bytes == eeprom[from..from + n - left]
      {
        left := left - 1;
        bytes := bytes + [eeprom[startAddr]];
        startAddr := (startAddr + 1) % 0x1_0000;
      }
    }

    /** A flash range given in numbers, programmed: it holds the firmware, and its pages hold nothing else. */
    method ProgramRange(params: seq<byte>, firmware: seq<byte>)
      requires Valid() && chip.State().Clear() && |params| == 5 && params[0] == 0x00
      requires
        var s, e := 0x100 * Num(params[1]) + Num(params[2]), 0x100 * Num(params[3]) + Num(params[4]);
        var from := 0x1_0000 * page64 + s;
        && s <= e && e - s + 1 == |firmware| < 0x1_0000 && |firmware| % 2 == 0
        && from % 2 == 0 && from + |firmware| <= chip.mem.Length
        && (from % 128 == 0 || from % 128 + |firmware| <= 128)
      modifies this, chip, chip.mem, chip.temp
      ensures Valid() && page64 == old(page64)
      ensures
        var from := 0x1_0000 * page64 + 0x100 * Num(params[1]) + Num(params[2]);
        Rewritten(old(chip.mem[..]), from, firmware, chip.mem[..])
    {
      hide Rewritten, Num, Laid, Address, PageOps, PageSpan, OnPage, Programmed, Downloaded, InPlace;
      ghost var was, from := chip.State(), StartOf(page64, params);
      RangeInNumbers(page64, params);
      StartInPlace(from, |firmware|);
      assert firmware[..|firmware|] == firmware;
      ProgramFlash(params, firmware);
      ProgrammedHolds(was, from, firmware);
    }

    /** A flash range given in numbers, uploaded. */
    method UploadRange(params: seq<byte>) returns (bytes: seq<byte>)
      requires Valid() && |params| == 5 && params[0] == 0x00
      requires
        var s, e := 0x100 * Num(params[1]) + Num(params[2]), 0x100 * Num(params[3]) + Num(params[4]);
        s <= e && e - s < 0xFFFF && (e - s + 1) % 2 == 0 && 0x1_0000 * page64 + e + 1 <= chip.mem.Length
      modifies this, chip, chip.mem
      ensures Valid() && chip.State() == old(chip.State()) && page64 == old(page64)
      ensures
        var s, e := 0x100 * Num(params[1]) + Num(params[2]), 0x100 * Num(params[3]) + Num(params[4]);
        bytes == old(chip.mem[..])[0x1_0000 * page64 + s..0x1_0000 * page64 + e + 1]
    {
      hide Num, Address, Count;
      RangeInNumbers(page64, params);
      data := params;
      ProcessCommand(COMMAND_DISP_DATA);
      bytes := Upload();
      assert old(chip.mem[..]) == chip.mem[..];
    }

    /** An EEPROM range given in numbers, uploaded. */
    method UploadRangeEeprom(params: seq<byte>) returns (bytes: seq<byte>)
      requires Valid() && |params| == 5 && params[0] == 0x02
      requires
        var s, e := 0x100 * Num(params[1]) + Num(params[2]), 0x100 * Num(params[3]) + Num(params[4]);
        s <= e < eeprom.Length <= 0x1_0000 && e - s < 0xFFFF
      modifies this, chip, chip.mem
      ensures Valid() && chip.State() == old(chip.State()) && page64 == old(page64)
      ensures
        var s, e := 0x100 * Num(params[1]) + Num(params[2]), 0x100 * Num(params[3]) + Num(params[4]);
        bytes == eeprom[..][s..e + 1]
    {
      hide Num, Address, Count;
      RangeInNumbers(page64, params);
      data := params;
      ProcessCommand(COMMAND_DISP_DATA);
      bytes := Upload();
    }

    /** Programming flash and uploading the same range gives the firmware back. */
    method ProgramThenUpload(params: seq<byte>, firmware: seq<byte>) returns (bytes: seq<byte>)
      requires Valid() && chip.State().Clear() && |params| == 5 && params[0] == 0x00
      requires
        var s, e := 0x100 * Num(params[1]) + Num(params[2]), 0x100 * Num(params[3]) + Num(params[4]);
        var from := 0x1_0000 * page64 + s;
        && s <= e && e - s + 1 == |firmware| < 0x1_0000 && |firmware| % 2 == 0
        && from % 2 == 0 && from + |firmware| <= chip.mem.Length
        && (from % 128 == 0 || from % 128 + |firmware| <= 128)
      modifies this, chip, chip.mem, chip.temp
      ensures Valid() && bytes == firmware
      ensures
        var from := 0x1_0000 * old(page64) + 0x100 * Num(params[1]) + Num(params[2]);
        && Rewritten(old(chip.mem[..]), from, firmware, chip.mem[..])
        && from + |firmware| <= chip.mem.Length && chip.mem[from..from + |firmware|] == firmware
    {
      hide Rewritten, Num, Address;
      RangeInNumbers(page64, params);
      ghost var was, from := chip.mem[..], StartOf(page64, params);
      ProgramRange(params, firmware);
      RewrittenHolds(was, from, firmware, chip.mem[..]);
      bytes := UploadRange(params);
      assert chip.mem[..][from..from + |firmware|] == chip.mem[from..from + |firmware|];
    }

    /** An EEPROM range given in numbers, programmed: nothing else changes. */
    method ProgramRangeEeprom(params: seq<byte>, firmware: seq<byte>)
      requires Valid() && |params| == 5 && params[0] == 0x01
      requires
        var s, e := 0x100 * Num(params[1]) + Num(params[2]), 0x100 * Num(params[3]) + Num(params[4]);
        s <= e < eeprom.Length <= 0x1_0000 && e - s + 1 == |firmware| < 0x1_0000
      modifies this, chip, chip.mem, eeprom
      ensures Valid() && chip.State() == old(chip.State())
      ensures
        var s, e := 0x100 * Num(params[1]) + Num(params[2]), 0x100 * Num(params[3]) + Num(params[4]);
        s <= e < eeprom.Length && eeprom[..] == old(eeprom[..])[..s] + firmware + old(eeprom[..])[e + 1..]
    {
      hide Num, Address, Count;
      RangeInNumbers(page64, params);
      data := params;
      ProcessCommand(COMMAND_PROG_START);
      DownloadEeprom(firmware);
      assert firmware[..|firmware|] == firmware;
    }

    /** Programming the EEPROM and uploading the same range gives the data back, and the rest is as before. */
    method ProgramThenUploadEeprom(params: seq<byte>, firmware: seq<byte>) returns (bytes: seq<byte>)
      requires Valid() && |params| == 5 && params[0] == 0x01
      requires
        var s, e := 0x100 * Num(params[1]) + Num(params[2]), 0x100 * Num(params[3]) + Num(params[4]);
        s <= e < eeprom.Length <= 0x1_0000 && e - s + 1 == |firmware| < 0x1_0000
      modifies this, chip, chip.mem, eeprom
      ensures Valid() && bytes == firmware && chip.State() == old(chip.State())
      ensures
        var s, e := 0x100 * Num(params[1]) + Num(params[2]), 0x100 * Num(params[3]) + Num(params[4]);
        s <= e < eeprom.Length && eeprom[..] == old(eeprom[..])[..s] + firmware + old(eeprom[..])[e + 1..]
    {
      hide Num, Address, Count;
      ghost var was, s := eeprom[..], 0x100 * Num(params[1]) + Num(params[2]);
      ProgramRangeEeprom(params, firmware);
      Spliced(was, s, firmware);
      bytes := UploadRangeEeprom([READ_EEPROM, params[1], params[2], params[3], params[4]]);
    }
  }

  lemma Spliced(was: seq<byte>, at: nat, data: seq<byte>)
    requires at + |data| <= |was|
    ensures (was[..at] + data + was[at + |data|..])[at..at + |data|] == data
  {
  }
}
