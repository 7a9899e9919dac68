/** The Caterina bootloader at work: bytes from the host in, memory changed, replies out. */
module CaterinaLoader {
  import opened Bytes
  import opened Flash
  import opened Caterina
  import opened Replies

  const ADDRESS: byte := 0x41      // 'A'
  const READ_BLOCK: byte := 0x67   // 'g'
  const WRITE_BLOCK: byte := 0x42  // 'B'
  const EEPROM: byte := 0x45       // 'E'
  const FLASH: byte := 0x46        // 'F'
  const DONE: byte := 0x0D         // '\r'
  const UNKNOWN: byte := 0x3F      // '?'

  /** What commands work on: the address, both memories and the replies. */
  datatype Device = Device(addr: nat, memory: Memory, eeprom: seq<byte>, reply: Reply) {
    ghost predicate Valid() { memory.Valid() && addr % 2 == 0 }
  }

  /** The size in the parameters of a block command. */
  function SizeOf(params: seq<byte>): nat
    requires |params| >= 3
  {
    0x100 * Num(params[0]) + Num(params[1])
  }

  /** The block is within the memory it names, and a block to write is all there. */
  ghost predicate BlockFits(d: Device, command: byte, params: seq<byte>)
    requires |params| >= 3
  {
    var n, kind := SizeOf(params), params[2];
    && (kind == FLASH ==> if command == READ_BLOCK then d.addr + n <= |d.memory.mem| else d.addr < |d.memory.mem|)
    && (kind == EEPROM ==> d.addr / 2 + n <= |d.eeprom|)
    && (command != READ_BLOCK && (kind == FLASH || kind == EEPROM) ==> 3 + n <= |params|)
  }

  function FlashRead(d: Device, n: nat): (r: Device)
    requires d.Valid() && d.addr + n <= |d.memory.mem|
    ensures r.Valid()
  {
    hide Advance, RespondAll;
    d.(addr := Advance(d.addr, n), reply := RespondAll(d.reply, d.memory.mem[d.addr..d.addr + n]))
  }

  function FlashWritten(d: Device, data: seq<byte>): (r: Device)
    requires d.Valid() && d.addr < |d.memory.mem|
    ensures r.Valid() && |r.memory.mem| == |d.memory.mem|
  {
    hide Advance, WriteBlock, Respond;
    d.(addr := Advance(d.addr, |data|), memory := WriteBlock(d.memory, d.addr, data), reply := Respond(d.reply, DONE))
  }

  function EepromRead(d: Device, n: nat): (r: Device)
    requires d.Valid() && d.addr / 2 + n <= |d.eeprom|
    ensures r.Valid()
  {
    d.(addr := d.addr + 2 * n, reply := RespondAll(d.reply, d.eeprom[d.addr / 2..d.addr / 2 + n]))
  }

  function EepromWritten(d: Device, data: seq<byte>): (r: Device)
    requires d.Valid() && d.addr / 2 + |data| <= |d.eeprom|
    ensures r.Valid() && |r.eeprom| == |d.eeprom|
  {
    var at := d.addr / 2;
    d.(addr := d.addr + 2 * |data|, eeprom := d.eeprom[..at] + data + d.eeprom[at + |data|..], reply := Respond(d.reply, DONE))
  }

  /** What the `B` and `g` commands do. */
  function BlockDone(d: Device, command: byte, params: seq<byte>): (r: Device)
    requires d.Valid() && |params| >= 3 && BlockFits(d, command, params)
    ensures r.Valid()
  {
    hide FlashRead, FlashWritten, EepromRead, EepromWritten, Respond, Num;
    var n, kind := SizeOf(params), params[2];
    if kind != FLASH && kind != EEPROM then d.(reply := Respond(d.reply, UNKNOWN))
    else if command == READ_BLOCK then if kind == FLASH then FlashRead(d, n) else EepromRead(d, n)
    else if kind == FLASH then FlashWritten(d, params[3..3 + n])
    else EepromWritten(d, params[3..3 + n])
  }

  /** A whole command of a host: a letter and what belongs to it. */
  ghost predicate Obeyable(d: Device, command: seq<byte>) {
    && d.Valid() && |command| >= 3
    && (command[0] == ADDRESS ||
        ((command[0] == READ_BLOCK || command[0] == WRITE_BLOCK) && |command| >= 4 && BlockFits(d, command[0], command[1..])))
  }

  /** A command carried out, up to the last packet of its reply. */
  function Obey(d: Device, command: seq<byte>): (r: Device)
    requires Obeyable(d, command)
    ensures r.Valid() && r.reply.bank == []
  {
    hide Num, Respond, BlockDone, HighPart;
    var done :=
      if command[0] == ADDRESS then
        d.(addr := SetAddress(Num(command[1]), Num(command[2])), reply := Respond(d.reply, DONE))
      else BlockDone(d, command[0], command[1..]);
    done.(reply := Finish(done.reply))
  }

  // The commands of a host, and what they do when every reply before is complete.

  function AddressOf(hi: byte, lo: byte): nat {
    SetAddress(Num(hi), Num(lo))
  }

  /** A block command: letter, size, memory and, to write, the data. */
  function BlockCommand(letter: byte, kind: byte, n: nat, data: seq<byte>): seq<byte>
    requires n < 0x1_0000
  {
    [letter, Byte(n / 0x100), Byte(n % 0x100), kind] + data
  }

  lemma BlockParams(letter: byte, kind: byte, n: nat, data: seq<byte>)
    requires n < 0x1_0000
    ensures
      var params := BlockCommand(letter, kind, n, data)[1..];
      |params| == 3 + |data| && SizeOf(params) == n && params[2] == kind && params[3..] == data
  {
    hide Num, Byte;
    NumOfByte(n / 0x100);
    NumOfByte(n % 0x100);
  }

  /** The reply to a command: the packets after those sent before. */
  ghost predicate Answers(d: Device, r: Device, answer: seq<byte>) {
    && r.reply.bank == [] && |d.reply.packets| <= |r.reply.packets|
    && HostReads(r.reply.packets[|d.reply.packets|..]) == answer
  }

  lemma Answered(d: Device, r: Device, answer: seq<byte>)
    requires d.reply.bank == [] && r.reply == Finish(RespondAll(d.reply, answer))
    ensures Answers(d, r, answer)
  {
    hide RespondAll, Finish, HostReads;
    NextReply(d.reply.packets, answer);
  }

  lemma AnsweredOne(d: Device, r: Device, answer: byte)
    requires d.reply.bank == [] && r.reply == Finish(Respond(d.reply, answer))
    ensures Answers(d, r, [answer])
  {
    hide RespondAll, Respond, Finish;
    RespondOne(d.reply.packets, answer);
    Answered(d, r, [answer]);
  }

  lemma AddressObeyed(d: Device, hi: byte, lo: byte)
    requires d.Valid() && d.reply.bank == []
    ensures
      Obeyable(d, [0x41, hi, lo]) &&
      var r := Obey(d, [0x41, hi, lo]);
      r == d.(addr := AddressOf(hi, lo), reply := r.reply) && Answers(d, r, [0x0D])
  {
    hide Num, SetAddress, Respond, Finish;
    AnsweredOne(d, Obey(d, [ADDRESS, hi, lo]), DONE);
  }

  lemma FlashReadObeyed(d: Device, n: nat)
    requires d.Valid() && d.reply.bank == [] && n < 0x1_0000 && d.addr + n <= |d.memory.mem|
    ensures
      Obeyable(d, BlockCommand(0x67, 0x46, n, [])) &&
      var r := Obey(d, BlockCommand(0x67, 0x46, n, []));
      && r == d.(addr := d.addr + 2 * (n / 2), reply := r.reply)
      && Answers(d, r, d.memory.mem[d.addr..d.addr + n])
  {
    hide Num, SizeOf, Advance, RespondAll, Finish;
    BlockParams(READ_BLOCK, FLASH, n, []);
    Answered(d, Obey(d, BlockCommand(READ_BLOCK, FLASH, n, [])), d.memory.mem[d.addr..d.addr + n]);
  }

  lemma EepromReadObeyed(d: Device, n: nat)
    requires d.Valid() && d.reply.bank == [] && n < 0x1_0000 && d.addr / 2 + n <= |d.eeprom|
    ensures
      Obeyable(d, BlockCommand(0x67, 0x45, n, [])) &&
      var r := Obey(d, BlockCommand(0x67, 0x45, n, []));
      && r == d.(addr := d.addr + 2 * n, reply := r.reply)
      && Answers(d, r, d.eeprom[d.addr / 2..d.addr / 2 + n])
  {
    hide Num, SizeOf, RespondAll, Finish;
    BlockParams(READ_BLOCK, EEPROM, n, []);
    Answered(d, Obey(d, BlockCommand(READ_BLOCK, EEPROM, n, [])), d.eeprom[d.addr / 2..d.addr / 2 + n]);
  }

  lemma FlashWriteObeyed(d: Device, data: seq<byte>)
    requires d.Valid() && d.reply.bank == [] && |data| < 0x1_0000 && d.addr < |d.memory.mem|
    ensures
      Obeyable(d, BlockCommand(0x42, 0x46, |data|, data)) &&
      var r := Obey(d, BlockCommand(0x42, 0x46, |data|, data));
      && r == d.(addr := d.addr + 2 * (|data| / 2), memory := WriteBlock(d.memory, d.addr, data), reply := r.reply)
      && Answers(d, r, [0x0D])
      && (d.memory.Clear() && data != [] && |data| % 2 == 0 && d.addr % 128 + |data| <= 128 ==>
            Rewritten(d.memory.mem, d.addr, data, r.memory.mem))
  {
    hide Num, SizeOf, Advance, WriteBlock, Respond, Finish, Rewritten;
    if d.memory.Clear() && data != [] && |data| % 2 == 0 && d.addr % 128 + |data| <= 128 {
      BlockRewrites(d.memory, d.addr, data);
    }
    var command := BlockCommand(WRITE_BLOCK, FLASH, |data|, data);
    BlockParams(WRITE_BLOCK, FLASH, |data|, data);
    assert command[1..][3..3 + |data|] == command[1..][3..];
    AnsweredOne(d, Obey(d, command), DONE);
  }

  lemma EepromWriteObeyed(d: Device, data: seq<byte>)
    requires d.Valid() && d.reply.bank == [] && |data| < 0x1_0000 && d.addr / 2 + |data| <= |d.eeprom|
    ensures
      Obeyable(d, BlockCommand(0x42, 0x45, |data|, data)) &&
      var r := Obey(d, BlockCommand(0x42, 0x45, |data|, data));
      && r == d.(addr := d.addr + 2 * |data|, reply := r.reply,
                 eeprom := d.eeprom[..d.addr / 2] + data + d.eeprom[d.addr / 2 + |data|..])
      && Answers(d, r, [0x0D])
  {
    hide Num, SizeOf, Respond, Finish;
    var command := BlockCommand(WRITE_BLOCK, EEPROM, |data|, data);
    BlockParams(WRITE_BLOCK, EEPROM, |data|, data);
    assert command[1..][3..3 + |data|] == command[1..][3..];
    AnsweredOne(d, Obey(d, command), DONE);
  }

  /** A block command for another memory is refused before any data is read, and changes nothing. */
  lemma UnknownMemory(d: Device, letter: byte, kind: byte, n: nat, data: seq<byte>)
    requires d.Valid() && d.reply.bank == [] && n < 0x1_0000
    requires (letter == 0x42 || letter == 0x67) && kind != 0x45 && kind != 0x46
    ensures
      Obeyable(d, BlockCommand(letter, kind, n, data)) &&
      var r := Obey(d, BlockCommand(letter, kind, n, data));
      r == d.(reply := r.reply) && Answers(d, r, [0x3F])
  {
    hide Num, SizeOf, Respond, Finish;
    BlockParams(letter, kind, n, data);
    AnsweredOne(d, Obey(d, BlockCommand(letter, kind, n, data)), UNKNOWN);
  }

  lemma BlockThere(was: seq<byte>, at: nat, data: seq<byte>)
    requires at + |data| <= |was|
    ensures (was[..at] + data + was[at + |data|..])[at..at + |data|] == data
  {
  }

  class Loader {
    const chip: Chip
    const eeprom: array<byte>
    var currAddress: nat
    var input: seq<byte>
    var reply: Reply

    ghost predicate Valid()
      reads this, chip, chip.mem, chip.temp, eeprom
    {
      chip.Valid() && eeprom != chip.mem && eeprom != chip.temp && currAddress % 2 == 0
    }

    ghost function State(): Device
      reads this, chip, chip.mem, chip.temp, eeprom
    {
      Device(currAddress, chip.State(), eeprom[..], reply)
    }

    constructor (c: Chip, eepromSize: nat)
      requires c.Valid()
      ensures Valid() && chip == c && fresh(eeprom) && eeprom.Length == eepromSize && reply == EMPTY && input == []
    {
      chip := c;
      eeprom := new byte[eepromSize](_ => 0xFF);
      currAddress, input, reply := 0, [], EMPTY;
    }

    /** `FetchNextCommandByte` */
    method Fetch() returns (b: byte)
      requires input != []
      modifies `input
      ensures b == old(input[0]) && input == old(input[1..])
    {
      b := input[0];
      input := input[1..];
    }

    /** `WriteNextResponseByte` */
    method Answer(b: byte)
      modifies `reply
      ensures reply == Respond(old(reply), b)
    {
      if |reply.bank| == BANK {
        reply := Reply(reply.packets + [reply.bank], []);
      }
      reply := reply.(bank := reply.bank + [b]);
    }

    /** The end of `CDC_Task`: what is in the bank goes out. */
    method FinishReply()
      modifies `reply
      ensures reply == Finish(old(reply))
    {
      var full := |reply.bank| == BANK;
      reply := Reply(reply.packets + [reply.bank], []);
      if full {
        reply := Reply(reply.packets + [[]], []);
      }
    }

    /** The `A` command. */
    method AddressCommand()
      requires Valid() && |input| >= 2
      modifies `input, `currAddress, `reply
      ensures Valid() && currAddress == SetAddress(Num(old(input[0])), Num(old(input[1])))
      ensures input == old(input[2..]) && reply == Respond(old(reply), DONE)
    {
      hide Num, HighPart;
      var hi := Fetch();
      currAddress := HighPart(Num(hi));
      var lo := Fetch();
      currAddress := currAddress + 2 * Num(lo);
      Answer(DONE);
    }

    method ReadFlash(n: nat)
      requires Valid() && currAddress + n <= chip.mem.Length
      modifies `currAddress, `reply
      ensures Valid() && State() == FlashRead(old(State()), n)
    {
      hide Respond, RespondAll, Advance;
      var left, high := n, 0;
      ghost var mem, from, sent, words := chip.mem[..], currAddress, 0, 0;
      assert mem[from..from] == [];
      RespondNone(reply);
      while left > 0
        invariant 0 <= left && 0 <= high <= 1 && left + sent == n && sent == 2 * words + high
        invariant currAddress == from + 2 * words
        invariant reply == RespondAll(old(reply), mem[from..from + sent])
      {
        left := left - 1;
        RespondNext(old(reply), mem, from, from + sent);
        assert chip.mem[currAddress + high] == mem[from + sent];
        Answer(chip.mem[currAddress + high]);
        if high == 1 {
          currAddress := currAddress + 2;
          words := words + 1;
        }
        high := 1 - high;
        sent := sent + 1;
      }
      assert words == n / 2;
      assert currAddress == Advance(from, n);
    }

    method ReadEeprom(n: nat)
      requires Valid() && currAddress / 2 + n <= eeprom.Length
      modifies `currAddress, `reply
      ensures Valid() && State() == EepromRead(old(State()), n)
    {
      hide RespondAll;
      var left := n;
      ghost var from := currAddress / 2;
      assert eeprom[from..from] == [];
      RespondNone(reply);
      while left > 0
        invariant 0 <= left <= n && currAddress == 2 * (from + (n - left))
        invariant reply == RespondAll(old(reply), eeprom[from..from + (n - left)])
      {
        left := left - 1;
        RespondNext(old(reply), eeprom[..], from, from + (n - left - 1));
        Answer(eeprom[currAddress / 2]);
        currAddress := currAddress + 2;
      }
    }

    /** A block written to flash, and the answer. */
    method WriteFlash(n: nat)
      requires Valid() && currAddress < chip.mem.Length && n <= |input|
      modifies `currAddress, `input, `reply, chip, chip.mem, chip.temp
      ensures Valid() && input == old(input[n..])
      ensures State() == FlashWritten(old(State()), old(input[..n]))
    {
      hide Word16, Fill, Write, Erase, FillWords, Respond, Advance;
      ghost var data, from, words := input[..n], currAddress, 0;
      var pageStart := currAddress;
      chip.ErasePage(pageStart);
      var left, high, low := n, false, 0;
      ghost var erased := chip.State();
      FillWordsNone(erased, from, data);
      while left > 0
        invariant 0 <= left && n - left == 2 * words + (if high then 1 else 0) && currAddress == from + 2 * words
        invariant input == old(input)[n - left..] && Valid() && unchanged(`reply)
        invariant high ==> low == data[2 * words]
        invariant chip.State() == FillWords(erased, from, data, words)
      {
        left := left - 1;
        assert input[0] == data[n - left - 1];
        if high {
          var b := Fetch();
          FillWordsNext(erased, from, data, words, currAddress);
          words := words + 1;
          chip.FillWord(currAddress, Word16(low, b));
          currAddress := currAddress + 2;
        } else {
          low := Fetch();
        }
        high := !high;
      }
      chip.WritePage(pageStart);
      assert n / 2 == words;
      Answer(DONE);
    }

    /** A block written to EEPROM, and the answer. */
    method WriteEeprom(n: nat)
      requires Valid() && currAddress / 2 + n <= eeprom.Length && n <= |input|
      modifies `currAddress, `input, `reply, eeprom
      ensures Valid() && input == old(input[n..])
      ensures State() == EepromWritten(old(State()), old(input[..n]))
    {
      hide Respond;
      var left := n;
      ghost var from := currAddress / 2;
      while left > 0
        invariant 0 <= left <= n && currAddress == 2 * (from + n - left) && input == old(input[n - left..]) && Valid() && unchanged(`reply)
        invariant forall i :: 0 <= i < eeprom.Length ==>
          eeprom[i] == if from <= i < from + n - left then old(input[i - from]) else old(eeprom[i])
      {
        left := left - 1;
        var b := Fetch();
        eeprom[currAddress / 2] := b;
        currAddress := currAddress + 2;
      }
      assert eeprom[..] == old(eeprom[..from]) + old(input[..n]) + old(eeprom[from + n..]);
      Answer(DONE);
    }

    /** The `B` and `g` commands, from the block size on. */
    method ReadWriteMemoryBlock(command: byte)
      requires Valid() && |input| >= 3 && BlockFits(State(), command, input)
      modifies `currAddress, `input, `reply, chip, chip.mem, chip.temp, eeprom
      ensures Valid() && State() == BlockDone(old(State()), command, old(input))
    {
      hide Num, FlashRead, FlashWritten, EepromRead, EepromWritten, Respond;
      var hi := Fetch();
      var lo := Fetch();
      var n := 0x100 * Num(hi) + Num(lo);
      var kind := Fetch();
      assert input == old(input[3..]);
      if kind != EEPROM && kind != FLASH {
        Answer(UNKNOWN);
        return;
      }
      if command == READ_BLOCK {
        if kind == FLASH {
          ReadFlash(n);
        } else {
          ReadEeprom(n);
        }
      } else {
        assert input[..n] == old(input[3..3 + n]);
        if kind == FLASH {
          WriteFlash(n);
        } else {
          WriteEeprom(n);
        }
      }
    }

    /** `CDC_Task` for these commands. */
    method CdcTask()
      requires Valid() && Obeyable(State(), input)
      modifies `currAddress, `input, `reply, chip, chip.mem, chip.temp, eeprom
      ensures Valid() && State() == Obey(old(State()), old(input)) && reply.bank == []
    {
      hide Num, Respond, BlockDone, HighPart;
      var command := Fetch();
      if command == ADDRESS {
        AddressCommand();
      } else {
        ReadWriteMemoryBlock(command);
      }
      FinishReply();
    }

    // What a host does with the commands.

    /** Sends a command and reads its reply. */
    method Ask(command: seq<byte>, ghost answer: seq<byte>) returns (got: seq<byte>)
      requires Valid() && Obeyable(State(), command) && Answers(State(), Obey(State(), command), answer)
      modifies `currAddress, `input, `reply, chip, chip.mem, chip.temp, eeprom
      ensures Valid() && State() == Obey(old(State()), command) && reply.bank == [] && got == answer
    {
      hide Obey, HostReads;
      input := command;
      var before := |reply.packets|;
      CdcTask();
      got := HostReads(reply.packets[before..]);
    }

    /** The `A` command, answered. */
    method AskAddress(hi: byte, lo: byte)
      requires Valid() && reply.bank == []
      modifies `currAddress, `input, `reply, chip, chip.mem, chip.temp, eeprom
      ensures Valid() && reply.bank == []
      ensures State() == old(State()).(addr := AddressOf(hi, lo), reply := reply)
    {
      hide Obey, Obeyable, Answers, AddressOf;
      AddressObeyed(State(), hi, lo);
      var answer := Ask([ADDRESS, hi, lo], [DONE]);
    }

    /** `B` commands for a sequence of flash blocks, from the current address on. */
    method WriteImage(blocks: seq<seq<byte>>)
      requires Valid() && reply.bank == [] && PageBlocks(chip.mem.Length, currAddress, blocks)
      modifies `currAddress, `input, `reply, chip, chip.mem, chip.temp, eeprom
      ensures Valid() && reply.bank == [] && chip.State() == WriteBlocks(old(chip.State()), old(currAddress), blocks)
      ensures currAddress == old(currAddress) + |Flat(blocks)| && eeprom[..] == old(eeprom[..])
    {
      hide Obey, Obeyable, Answers, WriteBlock, WriteBlocks, Flat, PageBlocks;
      ghost var was, start := chip.State(), currAddress;
      NoBlocks(was, start, blocks);
      for i := 0 to |blocks|
        invariant Valid() && reply.bank == [] && PageBlocks(|was.mem|, start, blocks[..i])
        invariant chip.State() == WriteBlocks(was, start, blocks[..i]) && eeprom[..] == old(eeprom[..])
        invariant currAddress == start + |Flat(blocks[..i])|
      {
        BlockPlace(|was.mem|, start, blocks, i);
        WriteBlocksStep(was, start, blocks, i, currAddress);
        FlashWriteObeyed(State(), blocks[i]);
        var answer := Ask(BlockCommand(WRITE_BLOCK, FLASH, |blocks[i]|, blocks[i]), [DONE]);
      }
      assert blocks[..|blocks|] == blocks;
    }

    /** `g` commands for flash blocks, and what the host reads in their replies. */
    method ReadImage(sizes: seq<nat>) returns (image: seq<byte>)
      requires Valid() && reply.bank == [] && currAddress + Sum(sizes) <= chip.mem.Length
      requires forall i :: 0 <= i < |sizes| ==> sizes[i] % 2 == 0 && sizes[i] < 0x1_0000
      modifies `currAddress, `input, `reply, chip, chip.mem, chip.temp, eeprom
      ensures Valid() && reply.bank == [] && chip.State() == old(chip.State()) && eeprom[..] == old(eeprom[..])
      ensures image == ReadBlocks(old(chip.mem[..]), old(currAddress), sizes)
    {
      hide Obey, Obeyable, Answers, ReadBlocks, Sum;
      image := [];
      ghost var mem, start := chip.mem[..], currAddress;
      assert sizes[0..] == sizes;
      for i := 0 to |sizes|
        invariant Valid() && reply.bank == [] && chip.State() == old(chip.State()) && eeprom[..] == old(eeprom[..])
        invariant currAddress + Sum(sizes[i..]) <= |mem|
        invariant image + ReadBlocks(mem, currAddress, sizes[i..]) == ReadBlocks(mem, start, sizes)
      {
        ReadBlocksStep(mem, currAddress, sizes, i);
        FlashReadObeyed(State(), sizes[i]);
        var bytes := Ask(BlockCommand(READ_BLOCK, FLASH, sizes[i], []), mem[currAddress..currAddress + sizes[i]]);
        image := image + bytes;
      }
      NoReads(mem, currAddress, sizes);
      assert image + [] == image;
    }

    /** The address set, an image written, the address set again, and the image read back, whatever is read beyond it. */
    method WriteThenRead(hi: byte, lo: byte, blocks: seq<seq<byte>>, sizes: seq<nat>) returns (image: seq<byte>)
      requires Valid() && reply.bank == [] && chip.State().Clear()
      requires AddressOf(hi, lo) <= chip.mem.Length && PageBlocks(chip.mem.Length, AddressOf(hi, lo), blocks)
      requires Sum(sizes) >= |Flat(blocks)| && AddressOf(hi, lo) + Sum(sizes) <= chip.mem.Length
      requires forall i :: 0 <= i < |sizes| ==> sizes[i] % 2 == 0 && sizes[i] < 0x1_0000
      modifies `currAddress, `input, `reply, chip, chip.mem, chip.temp, eeprom
      ensures Valid() && reply.bank == [] && Flat(blocks) <= image && eeprom[..] == old(eeprom[..])
      ensures blocks != [] && blocks[|blocks| - 1] != [] ==>
        Rewritten(old(chip.mem[..]), AddressOf(hi, lo), Flat(blocks), chip.mem[..])
    {
      hide Rewritten, AddressOf, WriteBlocks, ReadBlocks, Flat, Sum, PageBlocks;
      ghost var was, start := chip.State(), AddressOf(hi, lo);
      AskAddress(hi, lo);
      ImageRoundTrip(was, start, blocks, sizes);
      if blocks != [] && blocks[|blocks| - 1] != [] { ImageRewrites(was, start, blocks); }
      WriteImage(blocks);
      AskAddress(hi, lo);
      image := ReadImage(sizes);
    }

    /** The address set, an EEPROM block written, the address set again, and the block read back. */
    method WriteThenReadEeprom(hi: byte, lo: byte, data: seq<byte>) returns (got: seq<byte>)
      requires Valid() && reply.bank == [] && |data| < 0x1_0000 && AddressOf(hi, lo) / 2 + |data| <= eeprom.Length
      modifies `currAddress, `input, `reply, chip, chip.mem, chip.temp, eeprom
      ensures Valid() && reply.bank == [] && got == data && chip.State() == old(chip.State())
      ensures
        var at := AddressOf(hi, lo) / 2;
        eeprom[..] == old(eeprom[..])[..at] + data + old(eeprom[..])[at + |data|..]
    {
      hide Obey, Obeyable, Answers, AddressOf, BlockCommand;
      ghost var at := AddressOf(hi, lo) / 2;
      AskAddress(hi, lo);
      EepromWriteObeyed(State(), data);
      var written := Ask(BlockCommand(WRITE_BLOCK, EEPROM, |data|, data), [DONE]);
      AskAddress(hi, lo);
      EepromReadObeyed(State(), |data|);
      BlockThere(old(eeprom[..]), at, data);
      got := Ask(BlockCommand(READ_BLOCK, EEPROM, |data|, []), data);
    }
  }
}
