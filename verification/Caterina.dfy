/** The Caterina bootloader: block commands against flash and EEPROM, and its replies. */
module Caterina {
  import opened Bytes
  import opened Flash

  // Addresses.

  /** A 16-bit value read as signed, then widened to 32 bits unsigned. */
  function SignExtend(v: nat): nat
    requires v < 0x1_0000
  {
    if v < 0x8000 then v else 0x1_0000_0000 - 0x1_0000 + v
  }

  /** A high byte shifted left by nine in a 16-bit `int`. */
  function HighPart(hi: nat): (r: nat)
    requires hi < 0x100
    ensures r % 2 == 0
  {
    var half := hi * 0x100 % 0x8000;
    assert hi * 0x200 % 0x1_0000 == 2 * half;
    SignExtend(hi * 0x200 % 0x1_0000)
  }

  /** The byte address set by the `A` command. */
  function SetAddress(hi: nat, lo: nat): nat
    requires hi < 0x100 && lo < 0x100
  {
    HighPart(hi) + 2 * lo
  }

  /** The address is twice the word address given exactly when its high byte is below 0x40. */
  lemma AddressExact(hi: nat, lo: nat)
    requires hi < 0x100 && lo < 0x100
    ensures SetAddress(hi, lo) == 2 * (0x100 * hi + lo) <==> hi < 0x40
  {
  }

  /** The byte address for every word address: from 0x4000 on, bits are lost or the sign fills the upper half. */
  lemma AddressValue(hi: nat, lo: nat)
    requires hi < 0x100 && lo < 0x100
    ensures SetAddress(hi, lo) ==
      if hi < 0x40 then 0x200 * hi + 2 * lo
      else if hi < 0x80 then 0xFFFF_0000 + 0x200 * hi + 2 * lo
      else SetAddress(hi - 0x80, lo)
  {
    if hi >= 0x80 {
      assert hi * 0x200 == (hi - 0x80) * 0x200 + 0x1_0000;
    }
  }

  // Flash blocks.

  /** The first `words` words of a block put into the page buffer. */
  function FillWords(m: Memory, addr: nat, data: seq<byte>, words: nat): (r: Memory)
    requires m.Valid() && addr % 2 == 0 && 2 * words <= |data|
    ensures r.Valid() && r.mem == m.mem && r.log == m.log
    decreases words
  {
    hide Word16, Fill;
    if words == 0 then m
    else
      assert (addr + 2 * (words - 1)) % 2 == 0;
      Fill(FillWords(m, addr, data, words - 1), addr + 2 * (words - 1), Word16(data[2 * words - 2], data[2 * words - 1]))
  }

  /** What a `B` block does to flash; an odd last byte is dropped. */
  function WriteBlock(m: Memory, addr: nat, data: seq<byte>): (r: Memory)
    requires m.Valid() && addr % 2 == 0 && addr < |m.mem|
    ensures r.Valid() && |r.mem| == |m.mem| && r.Clear()
  {
    Write(FillWords(Erase(m, addr), addr, data, |data| / 2), addr)
  }

  lemma {:induction false} FillWordsPage(m: Memory, addr: nat, data: seq<byte>, words: nat)
    requires m.Valid() && m.Clear() && OnPage(addr) && 2 * words <= |data| <= PAGE
    ensures FillWords(m, addr, data, words).temp == PageWith(data[..2 * words])
  {
    hide OnPage, Offset, PageOf, Fill, Word16, PageWith, FillWords;
    PageIsEven(addr);
    if words == 0 {
      FillWordsNone(m, addr, data);
      EmptyPage();
      assert data[..0] == [];
    } else {
      var k, at := words - 1, addr + 2 * (words - 1);
      FillWordsPage(m, addr, data, k);
      FillWordsNext(m, addr, data, k, at);
      Aligned(addr, 2 * k);
      FillNext(FillWords(m, addr, data, k), data[..2 * k], at, data[2 * k], data[2 * k + 1]);
      assert data[..2 * k] + [data[2 * k], data[2 * k + 1]] == data[..2 * words];
    }
  }

  lemma FillWordsNone(m: Memory, addr: nat, data: seq<byte>)
    requires m.Valid() && addr % 2 == 0
    ensures FillWords(m, addr, data, 0) == m
  {
  }

  /** One more word, at its address `at`. */
  lemma FillWordsNext(m: Memory, addr: nat, data: seq<byte>, words: nat, at: nat)
    requires m.Valid() && addr % 2 == 0 && 2 * words + 2 <= |data|
    requires at == addr + 2 * words && at % 2 == 0
    ensures FillWords(m, addr, data, words + 1) ==
      Fill(FillWords(m, addr, data, words), at, Word16(data[2 * words], data[2 * words + 1]))
  {
    hide Fill, Word16;
  }

  /** A block that starts on a page and fits it replaces that page and no other. */
  lemma BlockReplacesPage(m: Memory, addr: nat, data: seq<byte>)
    requires m.Valid() && m.Clear() && OnPage(addr) && addr < |m.mem|
    requires |data| % 2 == 0 && |data| <= PAGE
    ensures addr + PAGE <= |m.mem|
    ensures WriteBlock(m, addr, data).mem == m.mem[..addr] + PageWith(data) + m.mem[addr + PAGE..]
  {
    hide OnPage, PageWith, Fill, FillWords, Write, Erase, BlankPage;
    PageFits(|m.mem|, addr);
    PageIsEven(addr);
    EraseBlanks(m, addr);
    BlankPageParts(m.mem, addr);
    var e := Erase(m, addr);
    FillWordsPage(e, addr, data, |data| / 2);
    assert data[..2 * (|data| / 2)] == data;
    WriteErased(FillWords(e, addr, data, |data| / 2), addr);
  }

  // Blocks from anywhere.

  lemma {:induction false} FillWordsPart(m: Memory, addr: nat, data: seq<byte>, words: nat)
    requires m.Valid() && m.Clear() && addr % 2 == 0 && 2 * words <= |data| && Offset(addr) + 2 * words <= PAGE
    ensures FillWords(m, addr, data, words) == m.(temp := PartWith(Offset(addr), data[..2 * words]))
  {
    hide Offset, Fill, Word16, PartWith, FillWords;
    if words == 0 {
      FillWordsNone(m, addr, data);
      NoPart(Offset(addr));
      assert data[..0] == [];
    } else {
      var k, at := words - 1, addr + 2 * (words - 1);
      FillWordsPart(m, addr, data, k);
      FillWordsNext(m, addr, data, k, at);
      OffsetAfter(addr, 2 * k);
      FillPart(FillWords(m, addr, data, k), Offset(addr), data[..2 * k], at, data[2 * k], data[2 * k + 1]);
      assert data[..2 * k] + [data[2 * k], data[2 * k + 1]] == data[..2 * words];
    }
  }

  /** A block that fits its page replaces it: blank up to the start, the whole words, and blank after them. */
  lemma BlockInPage(m: Memory, addr: nat, data: seq<byte>)
    requires m.Valid() && m.Clear() && addr % 2 == 0 && addr < |m.mem| && Offset(addr) + |data| <= PAGE
    ensures PageOf(addr) + PAGE <= |m.mem|
    ensures WriteBlock(m, addr, data).mem ==
      m.mem[..PageOf(addr)] + PartWith(Offset(addr), data[..Whole(|data|)]) + m.mem[PageOf(addr) + PAGE..]
  {
    hide Offset, PageOf, OnPage, PartWith, Fill, FillWords, Write, Erase, BlankPage;
    var e, p := Erase(m, addr), PageOf(addr);
    ErasePageOf(m, addr);
    BlankPageParts(m.mem, p);
    FillWordsPart(e, addr, data, |data| / 2);
    var f := FillWords(e, addr, data, |data| / 2);
    WritePageOf(f, addr);
    WriteErased(f, p);
  }

  /** Byte by byte: such a block of even size is there, the rest of its page is blank, and nothing else changes. */
  lemma BlockRewrites(m: Memory, addr: nat, data: seq<byte>)
    requires m.Valid() && m.Clear() && addr % 2 == 0 && addr < |m.mem|
    requires data != [] && |data| % 2 == 0 && addr % 128 + |data| <= 128
    ensures Rewritten(m.mem, addr, data, WriteBlock(m, addr, data).mem)
  {
    hide WriteBlock, PartWith, PageOf, Rewritten;
    BlockInPage(m, addr, data);
    assert data[..Whole(|data|)] == data;
    PartRewrites(m.mem, addr, data);
  }

  /** No block changes another page than that of its start. */
  lemma BlockOutside(m: Memory, addr: nat, data: seq<byte>, x: nat)
    requires m.Valid() && addr % 2 == 0 && addr < |m.mem| && x < |m.mem| && !(PageOf(addr) <= x < PageOf(addr) + PAGE)
    ensures WriteBlock(m, addr, data).mem[x] == m.mem[x]
  {
    hide PageOf, Fill, Write, Erase, FillWords;
    OtherPage(m, addr, x);
    OtherPage(FillWords(Erase(m, addr), addr, data, |data| / 2), addr, x);
  }

  /** Whatever the block, the range holds it. */
  ghost predicate AlwaysStored(m: Memory, addr: nat, n: nat)
    requires m.Valid() && addr % 2 == 0 && addr < |m.mem| && addr + n <= |m.mem|
  {
    forall data: seq<byte> :: |data| == n ==> WriteBlock(m, addr, data).mem[addr..addr + n] == data
  }

  /** A block of a size is stored, whatever it holds, exactly if the size is even and the block within one page. */
  lemma BlockHoldsExactly(m: Memory, addr: nat, n: nat)
    requires m.Valid() && m.Clear() && addr % 2 == 0 && 0 < n && addr + n <= |m.mem|
    ensures AlwaysStored(m, addr, n) <==> n % 2 == 0 && Offset(addr) + n <= PAGE
  {
    hide WriteBlock, Offset, PageOf, PartWith;
    PageAndOffset(addr);
    if n % 2 == 0 && Offset(addr) + n <= PAGE {
      forall data: seq<byte> | |data| == n ensures WriteBlock(m, addr, data).mem[addr..addr + n] == data {
        BlockInPage(m, addr, data);
        assert data[..Whole(n)] == data;
        PartThere(m.mem, PageOf(addr), Offset(addr), data);
      }
    } else {
      var data := Lost(m, addr, n);
      assert WriteBlock(m, addr, data).mem[addr..addr + n] != data;
    }
  }

  /** A block that is not stored: its first byte beyond the page, or its odd last byte, is lost. */
  lemma Lost(m: Memory, addr: nat, n: nat) returns (data: seq<byte>)
    requires m.Valid() && m.Clear() && addr % 2 == 0 && 0 < n && addr + n <= |m.mem|
    requires n % 2 == 1 || Offset(addr) + n > PAGE
    ensures |data| == n && WriteBlock(m, addr, data).mem[addr..addr + n] != data
  {
    hide WriteBlock, Offset, PageOf, PartWith;
    PageAndOffset(addr);
    var x := if Offset(addr) + n > PAGE then PageOf(addr) + PAGE else addr + n - 1;
    var k := x - addr;
    if Offset(addr) + n > PAGE {
      var v: byte := if m.mem[x] == 0 then 1 else 0;
      data := Blank(n)[k := v];
      BlockOutside(m, addr, data, x);
    } else {
      data := Blank(n)[k := 0];
      BlockInPage(m, addr, data);
      assert Whole(n) == n - 1;
      BlankAfterPart(m.mem, PageOf(addr), Offset(addr), data[..n - 1]);
    }
    assert WriteBlock(m, addr, data).mem[addr..addr + n][k] == WriteBlock(m, addr, data).mem[x];
  }

  lemma BlankAfterPart(mem: seq<byte>, p: nat, offset: nat, data: seq<byte>)
    requires p + PAGE <= |mem| && offset + |data| < PAGE
    ensures (mem[..p] + PartWith(offset, data) + mem[p + PAGE..])[p + offset + |data|] == 0xFF
  {
  }

  /** Every block starts on a page of the memory, is of even length and fits its page. */
  ghost predicate PageBlocks(size: nat, start: nat, blocks: seq<seq<byte>>) {
    forall i :: 0 <= i < |blocks| ==>
      && OnPage(start + |Flat(blocks[..i])|) && start + |Flat(blocks[..i])| < size
      && |blocks[i]| % 2 == 0 && |blocks[i]| <= PAGE
  }

  lemma PageBlocksInit(size: nat, start: nat, blocks: seq<seq<byte>>)
    requires PageBlocks(size, start, blocks) && blocks != []
    ensures PageBlocks(size, start, blocks[..|blocks| - 1])
    ensures
      var at := start + |Flat(blocks[..|blocks| - 1])|;
      OnPage(at) && at % 2 == 0 && at < size
  {
    hide Flat;
    var init := blocks[..|blocks| - 1];
    forall i | 0 <= i < |init|
      ensures OnPage(start + |Flat(init[..i])|) && start + |Flat(init[..i])| < size
      ensures |init[i]| % 2 == 0 && |init[i]| <= PAGE
    {
      assert init[..i] == blocks[..i];
    }
    PageIsEven(start + |Flat(init)|);
  }

  /** A sequence of `B` commands, each at the address the one before left. */
  function WriteBlocks(m: Memory, start: nat, blocks: seq<seq<byte>>): (r: Memory)
    requires m.Valid() && PageBlocks(|m.mem|, start, blocks)
    ensures r.Valid() && |r.mem| == |m.mem|
  {
    if blocks == [] then m
    else
      hide WriteBlock, Flat, PageBlocks;
      PageBlocksInit(|m.mem|, start, blocks);
      var init := blocks[..|blocks| - 1];
      WriteBlock(WriteBlocks(m, start, init), start + |Flat(init)|, blocks[|blocks| - 1])
  }

  lemma PageBlocksPrefix(size: nat, start: nat, blocks: seq<seq<byte>>, k: nat)
    requires PageBlocks(size, start, blocks) && k <= |blocks|
    ensures PageBlocks(size, start, blocks[..k])
  {
    hide Flat;
    forall i | 0 <= i < k ensures blocks[..k][..i] == blocks[..i] && blocks[..k][i] == blocks[i] {
    }
  }

  /** The place of block `k`, and the blocks up to it. */
  lemma BlockPlace(size: nat, start: nat, blocks: seq<seq<byte>>, k: nat)
    requires PageBlocks(size, start, blocks) && k < |blocks|
    ensures PageBlocks(size, start, blocks[..k]) && PageBlocks(size, start, blocks[..k + 1])
    ensures (start + |Flat(blocks[..k])|) % 2 == 0 && start + |Flat(blocks[..k])| < size
    ensures |blocks[k]| % 2 == 0 && |blocks[k]| <= PAGE
  {
    hide PageBlocks, Flat;
    PageBlocksPrefix(size, start, blocks, k);
    PageBlocksPrefix(size, start, blocks, k + 1);
    PageBlocksInit(size, start, blocks[..k + 1]);
    PageBlocksLast(size, start, blocks[..k + 1]);
    assert blocks[..k + 1][..k] == blocks[..k];
  }

  /** One more block of a sequence, written. */
  lemma WriteBlocksStep(m: Memory, start: nat, blocks: seq<seq<byte>>, k: nat, at: nat)
    requires m.Valid() && k < |blocks| && at == start + |Flat(blocks[..k])| && at % 2 == 0 && at < |m.mem|
    requires PageBlocks(|m.mem|, start, blocks[..k]) && PageBlocks(|m.mem|, start, blocks[..k + 1])
    ensures WriteBlocks(m, start, blocks[..k + 1]) == WriteBlock(WriteBlocks(m, start, blocks[..k]), at, blocks[k])
    ensures |Flat(blocks[..k + 1])| == |Flat(blocks[..k])| + |blocks[k]|
  {
    hide WriteBlock, PageBlocks, Flat;
    FlatStep(blocks[..k + 1]);
    assert blocks[..k + 1][..k] == blocks[..k];
  }

  lemma NoBlocks(m: Memory, start: nat, blocks: seq<seq<byte>>)
    requires m.Valid() && PageBlocks(|m.mem|, start, blocks)
    ensures PageBlocks(|m.mem|, start, blocks[..0]) && Flat(blocks[..0]) == []
    ensures WriteBlocks(m, start, blocks[..0]) == m
  {
  }

  /** A memory with `laid` from an address on and then a page holding `last`. */
  function Overwritten(mem: seq<byte>, start: nat, laid: seq<byte>, last: seq<byte>): (r: seq<byte>)
    requires |last| <= PAGE && start + |laid| + PAGE <= |mem|
    ensures |r| == |mem|
  {
    mem[..start] + laid + PageWith(last) + mem[start + |laid| + PAGE..]
  }

  /** The page of the next block goes over the end of the page before, or behind it. */
  lemma OverwrittenOnce(mem: seq<byte>, start: nat, data: seq<byte>)
    requires |data| <= PAGE && start + PAGE <= |mem|
    ensures mem[..start] + PageWith(data) + mem[start + PAGE..] == Overwritten(mem, start, [], data)
  {
  }

  lemma OverwrittenAgain(mem: seq<byte>, start: nat, laid: seq<byte>, last: seq<byte>, next: seq<byte>)
    requires |last| <= PAGE && |next| <= PAGE && start + |laid| + |last| + PAGE <= |mem|
    ensures
      var w, at := Overwritten(mem, start, laid, last), start + |laid| + |last|;
      w[..at] + PageWith(next) + w[at + PAGE..] == Overwritten(mem, start, laid + last, next)
  {
    var w, at := Overwritten(mem, start, laid, last), start + |laid| + |last|;
    assert w[..at] == mem[..start] + laid + last;
    assert w[at + PAGE..] == mem[at + PAGE..];
  }

  /** The blocks lie contiguously from the start, a full page at the end, and nothing else changes. */
  lemma {:induction false} BlocksContiguous(m: Memory, start: nat, blocks: seq<seq<byte>>)
    requires m.Valid() && m.Clear() && PageBlocks(|m.mem|, start, blocks)
    ensures WriteBlocks(m, start, blocks).Clear()
    ensures blocks != [] ==>
      var laid, last := Flat(blocks[..|blocks| - 1]), blocks[|blocks| - 1];
      && OnPage(start + |laid|) && start + |laid| + PAGE <= |m.mem| && |last| <= PAGE
      && WriteBlocks(m, start, blocks).mem == Overwritten(m.mem, start, laid, last)
  {
    hide WriteBlock, Flat, PageWith, Overwritten, PageBlocks;
    if blocks != [] {
      var init, last := blocks[..|blocks| - 1], blocks[|blocks| - 1];
      PageBlocksInit(|m.mem|, start, blocks);
      PageBlocksLast(|m.mem|, start, blocks);
      BlocksContiguous(m, start, init);
      var w, at := WriteBlocks(m, start, init), start + |Flat(init)|;
      BlockReplacesPage(w, at, last);
      FlatStep(init);
      if init == [] {
        OverwrittenOnce(m.mem, start, last);
      } else {
        OverwrittenAgain(m.mem, start, Flat(init[..|init| - 1]), init[|init| - 1], last);
      }
    }
  }

  /** An image that does not end in an empty block is laid down as one contiguous write. */
  lemma ImageLaid(m: Memory, start: nat, blocks: seq<seq<byte>>)
    requires m.Valid() && m.Clear() && PageBlocks(|m.mem|, start, blocks)
    requires blocks != [] && blocks[|blocks| - 1] != []
    ensures start + PageSpan(|Flat(blocks)|) <= |m.mem|
    ensures WriteBlocks(m, start, blocks).mem == Laid(m.mem, start, Flat(blocks))
  {
    hide Flat, PageSpan, WriteBlocks, Laid, Overwritten, PageWith, OnPage;
    var laid, last := Flat(blocks[..|blocks| - 1]), blocks[|blocks| - 1];
    BlocksContiguous(m, start, blocks);
    FlatStep(blocks);
    StartsOnPage(|m.mem|, start, blocks);
    NextPages(start, |laid|);
    SpanOfSum(|laid|, |last|);
    PagesSpan(0, |last|);
    LaidIsOverwritten(m.mem, start, laid, last);
  }

  /** Byte by byte: the image is there, the rest of its last page is blank, and nothing else changes. */
  lemma ImageRewrites(m: Memory, start: nat, blocks: seq<seq<byte>>)
    requires m.Valid() && m.Clear() && PageBlocks(|m.mem|, start, blocks)
    requires blocks != [] && blocks[|blocks| - 1] != []
    ensures Rewritten(m.mem, start, Flat(blocks), WriteBlocks(m, start, blocks).mem)
  {
    hide Flat, PageSpan, WriteBlocks, Laid, Rewritten;
    ImageLaid(m, start, blocks);
    StartsOnPage(|m.mem|, start, blocks);
    LaidRewrites(m.mem, start, Flat(blocks));
  }

  lemma LaidIsOverwritten(mem: seq<byte>, start: nat, laid: seq<byte>, last: seq<byte>)
    requires 0 < |last| <= PAGE && start + |laid| + PAGE <= |mem| && PageSpan(|laid + last|) == |laid| + PAGE
    ensures Laid(mem, start, laid + last) == Overwritten(mem, start, laid, last)
  {
    hide PageSpan;
    assert laid + last + Blank(PAGE - |last|) == laid + PageWith(last);
  }

  lemma StartsOnPage(size: nat, start: nat, blocks: seq<seq<byte>>)
    requires PageBlocks(size, start, blocks) && blocks != []
    ensures OnPage(start)
  {
    assert Flat(blocks[..0]) == [];
  }

  lemma FlatStep(blocks: seq<seq<byte>>)
    ensures Flat(blocks) == if blocks == [] then [] else Flat(blocks[..|blocks| - 1]) + blocks[|blocks| - 1]
  {
  }

  lemma PageBlocksLast(size: nat, start: nat, blocks: seq<seq<byte>>)
    requires PageBlocks(size, start, blocks) && blocks != []
    ensures |blocks[|blocks| - 1]| % 2 == 0 && |blocks[|blocks| - 1]| <= PAGE
  {
    hide Flat;
  }

  function Sum(sizes: seq<nat>): nat {
    if sizes == [] then 0 else sizes[0] + Sum(sizes[1..])
  }

  /** The bytes answered to a sequence of `g` reads, each at the address the one before left. */
  function ReadBlocks(mem: seq<byte>, addr: nat, sizes: seq<nat>): seq<byte>
    requires addr + Sum(sizes) <= |mem|
    decreases |sizes|
  {
    if sizes == [] then []
    else mem[addr..addr + sizes[0]] + ReadBlocks(mem, addr + sizes[0], sizes[1..])
  }

  lemma ReadBlocksStep(mem: seq<byte>, addr: nat, sizes: seq<nat>, i: nat)
    requires i < |sizes| && addr + Sum(sizes[i..]) <= |mem|
    ensures Sum(sizes[i..]) == sizes[i] + Sum(sizes[i + 1..])
    ensures forall image: seq<byte> ::
      image + ReadBlocks(mem, addr, sizes[i..]) ==
        image + mem[addr..addr + sizes[i]] + ReadBlocks(mem, addr + sizes[i], sizes[i + 1..])
  {
    assert sizes[i..][1..] == sizes[i + 1..];
  }

  lemma NoReads(mem: seq<byte>, addr: nat, sizes: seq<nat>)
    requires addr <= |mem|
    ensures Sum(sizes[|sizes|..]) == 0 && ReadBlocks(mem, addr, sizes[|sizes|..]) == []
  {
  }

  lemma ReadBlocksFirst(mem: seq<byte>, addr: nat, sizes: seq<nat>)
    requires addr + Sum(sizes) <= |mem|
    ensures sizes == [] ==> Sum(sizes) == 0 && ReadBlocks(mem, addr, sizes) == []
    ensures sizes != [] ==>
      && Sum(sizes) == sizes[0] + Sum(sizes[1..])
      && ReadBlocks(mem, addr, sizes) == mem[addr..addr + sizes[0]] + ReadBlocks(mem, addr + sizes[0], sizes[1..])
  {
  }

  lemma {:induction false} ReadsContiguous(mem: seq<byte>, addr: nat, sizes: seq<nat>)
    requires addr + Sum(sizes) <= |mem|
    ensures ReadBlocks(mem, addr, sizes) == mem[addr..addr + Sum(sizes)]
    decreases |sizes|
  {
    hide ReadBlocks, Sum;
    ReadBlocksFirst(mem, addr, sizes);
    if sizes != [] {
      ReadsContiguous(mem, addr + sizes[0], sizes[1..]);
      SlicesJoin(mem, addr, addr + sizes[0], addr + Sum(sizes));
    }
  }

  lemma SlicesJoin(s: seq<byte>, i: nat, j: nat, k: nat)
    requires i <= j <= k <= |s|
    ensures s[i..j] + s[j..k] == s[i..k]
  {
  }

  /** Writing an image in page blocks and reading any blocks that cover it gives the image back first. */
  lemma ImageRoundTrip(m: Memory, start: nat, blocks: seq<seq<byte>>, sizes: seq<nat>)
    requires m.Valid() && m.Clear() && start <= |m.mem| && PageBlocks(|m.mem|, start, blocks)
    requires Sum(sizes) >= |Flat(blocks)| && start + Sum(sizes) <= |m.mem|
    ensures Flat(blocks) <= ReadBlocks(WriteBlocks(m, start, blocks).mem, start, sizes)
  {
    hide WriteBlocks, Flat;
    BlocksContiguous(m, start, blocks);
    FlatStep(blocks);
    var r, n := WriteBlocks(m, start, blocks).mem, |Flat(blocks)|;
    if blocks != [] {
      OverwrittenHolds(m.mem, start, Flat(blocks[..|blocks| - 1]), blocks[|blocks| - 1]);
    }
    ReadsContiguous(r, start, sizes);
    Subslice(r, start, Sum(sizes), 0, n);
    assert r[start..start + n] == Flat(blocks);
  }

  lemma OverwrittenHolds(mem: seq<byte>, start: nat, laid: seq<byte>, last: seq<byte>)
    requires |last| <= PAGE && start + |laid| + PAGE <= |mem|
    ensures Overwritten(mem, start, laid, last)[start..start + |laid + last|] == laid + last
  {
  }
}
