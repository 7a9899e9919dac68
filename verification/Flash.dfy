/**
  Self-programmed flash: pages that are erased to 0xFF, filled through a page
  buffer a word at a time, and written by clearing bits.
 */
module Flash {
  import opened Bytes

  /** SPM_PAGESIZE of the ATmega32U4. */
  const PAGE: nat := 128

  // Page arithmetic, with PAGE written out so that divisors are literals.

  predicate OnPage(addr: nat) { addr % 128 == 0 }

  function PageNumber(addr: nat): nat { addr / 128 }

  function Offset(addr: nat): (r: nat)
    ensures r < PAGE
  {
    addr % 128
  }

  /** The start of the page of an address. */
  function PageOf(addr: nat): (r: nat)
    ensures OnPage(r) && r <= addr < r + PAGE
  {
    128 * (addr / 128)
  }

  /** The bytes that whole pages holding `n` bytes take. */
  function PageSpan(n: nat): (r: nat)
    ensures OnPage(r) && n <= r < n + PAGE
  {
    128 * ((n + 127) / 128)
  }

  /** The number of the page that starts at an address. */
  lemma Pages(addr: nat) returns (k: nat)
    requires OnPage(addr)
    ensures addr == 128 * k
  {
    k := addr / 128;
  }

  lemma PageParts(k: nat, r: nat)
    requires r < PAGE
    ensures OnPage(128 * k) && Offset(128 * k + r) == r && PageNumber(128 * k + r) == k && PageOf(128 * k + r) == 128 * k
  {
  }

  lemma PagesSpan(k: nat, r: nat)
    requires 0 < r <= PAGE
    ensures PageSpan(128 * k) == 128 * k && PageSpan(128 * k + r) == 128 * k + PAGE
  {
    assert (128 * k + 127) / 128 == k;
    assert (128 * k + r + 127) / 128 == k + 1;
  }

  lemma Aligned(page: nat, k: nat)
    requires OnPage(page) && k < PAGE
    ensures Offset(page + k) == k && PageOf(page + k) == page
  {
    hide OnPage, Offset, PageOf, PageNumber;
    var p := Pages(page);
    PageParts(p, k);
  }

  lemma PageIsEven(at: nat)
    requires OnPage(at)
    ensures at % 2 == 0
  {
    hide OnPage;
    var k := Pages(at);
    assert at == 2 * (64 * k);
  }

  /** Pages after a page start. */
  lemma NextPages(page: nat, more: nat)
    requires OnPage(page)
    ensures OnPage(more) <==> OnPage(page + more)
  {
    hide OnPage;
    var p := Pages(page);
    if OnPage(more) {
      var q := Pages(more);
      PageParts(p + q, 0);
    }
    if OnPage(page + more) {
      var q := Pages(page + more);
      PageParts(q - p, 0);
    }
  }

  lemma PageFits(size: nat, page: nat)
    requires OnPage(size) && OnPage(page) && page < size
    ensures page + PAGE <= size
  {
    hide OnPage;
    var p := Pages(page);
    var q := Pages(size);
  }

  datatype Op = Erased(page: nat) | Written(page: nat)

  datatype Memory = Memory(mem: seq<byte>, temp: seq<byte>, log: seq<Op>) {
    ghost predicate Valid() { |temp| == PAGE && OnPage(|mem|) }

    /** The page buffer is empty. */
    ghost predicate Clear() { temp == Blank(PAGE) }
  }

  lemma EvenOffset(addr: nat)
    requires addr % 2 == 0
    ensures Offset(addr) % 2 == 0 && Offset(addr) + 2 <= PAGE
  {
    var p, r := addr / 128, addr % 128;
    assert addr == 128 * p + r;
    assert r == 2 * (addr / 2 - 64 * p);
  }

  function Blank(n: nat): (r: seq<byte>)
    ensures |r| == n && forall i :: 0 <= i < n ==> r[i] == 0xFF
  {
    seq(n, _ => 0xFF)
  }

  function Erase(m: Memory, addr: nat): (r: Memory)
    requires m.Valid() && addr < |m.mem|
    ensures r.Valid() && |r.mem| == |m.mem|
  {
    var p := PageOf(addr);
    m.(mem := m.mem[..p] + Blank(PAGE) + m.mem[p + PAGE..], log := m.log + [Erased(p)])
  }

  /** `boot_page_fill`: the page buffer takes a word at an even address. */
  function Fill(m: Memory, addr: nat, w: bv16): (r: Memory)
    requires m.Valid() && addr % 2 == 0
    ensures r.Valid() && r.mem == m.mem
  {
    hide Low, High;
    var at := Offset(addr);
    EvenOffset(addr);
    m.(temp := m.temp[at := Low(w)][at + 1 := High(w)])
  }

  function AndByte(a: byte, b: byte): byte { a & b }

  function And(a: seq<byte>, b: seq<byte>): (r: seq<byte>)
    requires |a| == |b|
    ensures |r| == |a| && forall i :: 0 <= i < |r| ==> r[i] == AndByte(a[i], b[i])
  {
    seq(|a|, i requires 0 <= i < |a| => AndByte(a[i], b[i]))
  }

  /** `boot_page_write`: bits can only be cleared, and the page buffer is emptied. */
  function Write(m: Memory, addr: nat): (r: Memory)
    requires m.Valid() && addr < |m.mem|
    ensures r.Valid() && |r.mem| == |m.mem| && r.Clear()
  {
    var p := PageOf(addr);
    Memory(m.mem[..p] + And(m.mem[p..p + PAGE], m.temp) + m.mem[p + PAGE..], Blank(PAGE), m.log + [Written(p)])
  }

  lemma AndBlank(a: seq<byte>)
    ensures And(Blank(|a|), a) == a
  {
    hide AndByte;
    forall i | 0 <= i < |a| ensures And(Blank(|a|), a)[i] == a[i] {
      BlankBit(a[i]);
    }
  }

  lemma BlankBit(b: byte)
    ensures AndByte(0xFF, b) == b
  {
  }

  lemma PageOfStart(page: nat)
    requires OnPage(page)
    ensures PageOf(page) == page && PageSpan(page) == page
  {
    hide OnPage, PageOf, PageSpan;
    var k := Pages(page);
    PageParts(k, 0);
    PagesSpan(k, 1);
  }

  function BlankPage(mem: seq<byte>, at: nat): (r: seq<byte>)
    requires at + PAGE <= |mem|
    ensures |r| == |mem|
  {
    mem[..at] + Blank(PAGE) + mem[at + PAGE..]
  }

  lemma BlankPageParts(mem: seq<byte>, at: nat)
    requires at + PAGE <= |mem|
    ensures
      var r := BlankPage(mem, at);
      r[..at] == mem[..at] && r[at..at + PAGE] == Blank(PAGE) && r[at + PAGE..] == mem[at + PAGE..]
  {
  }

  lemma EraseBlanks(m: Memory, page: nat)
    requires m.Valid() && OnPage(page) && page + PAGE <= |m.mem|
    ensures Erase(m, page) == Memory(BlankPage(m.mem, page), m.temp, m.log + [Erased(page)])
  {
    PageOfStart(page);
  }

  lemma EmptyPage()
    ensures PageWith([]) == Blank(PAGE)
  {
  }

  // Words and whole pages.

  /** The bytes that are handled a word at a time. */
  function Whole(n: nat): (r: nat)
    ensures r <= n < r + 2 && r % 2 == 0
  {
    2 * (n / 2)
  }

  /** An even address after a stretch of words. */
  function Advance(addr: nat, n: nat): (r: nat)
    requires addr % 2 == 0
    ensures r % 2 == 0 && r == addr + 2 * (n / 2)
  {
    2 * (addr / 2 + n / 2)
  }

  /** A page holding `data` and nothing after it. */
  function PageWith(data: seq<byte>): (r: seq<byte>)
    requires |data| <= PAGE
    ensures |r| == PAGE
  {
    data + Blank(PAGE - |data|)
  }

  /** The next word of a page goes after the data already in the page buffer. */
  lemma FillNext(m: Memory, data: seq<byte>, addr: nat, lo: byte, hi: byte)
    requires m.Valid() && |data| + 2 <= PAGE && m.temp == PageWith(data)
    requires addr % 2 == 0 && Offset(addr) == |data|
    ensures Fill(m, addr, Word16(lo, hi)).temp == PageWith(data + [lo, hi])
  {
    hide Word16, Low, High;
    Word16Bytes(lo, hi);
  }

  // Parts of pages.

  lemma OffsetAfter(addr: nat, n: nat)
    requires Offset(addr) + n < PAGE
    ensures Offset(addr + n) == Offset(addr) + n
  {
    var q, r := addr / 128, addr % 128;
    assert addr == 128 * q + r;
    PageParts(q, r + n);
  }

  /** A page with `data` from an offset on. */
  function PartWith(offset: nat, data: seq<byte>): (r: seq<byte>)
    requires offset + |data| <= PAGE
    ensures |r| == PAGE
  {
    Blank(offset) + data + Blank(PAGE - offset - |data|)
  }

  lemma NoPart(offset: nat)
    requires offset <= PAGE
    ensures PartWith(offset, []) == Blank(PAGE)
  {
  }

  /** The next word goes after the data already in the page buffer. */
  lemma FillPart(m: Memory, offset: nat, data: seq<byte>, addr: nat, lo: byte, hi: byte)
    requires m.Valid() && offset + |data| + 2 <= PAGE && m.temp == PartWith(offset, data)
    requires addr % 2 == 0 && Offset(addr) == offset + |data|
    ensures Fill(m, addr, Word16(lo, hi)) == m.(temp := PartWith(offset, data + [lo, hi]))
  {
    hide Word16, Low, High, Offset;
    Word16Bytes(lo, hi);
    var r := Fill(m, addr, Word16(lo, hi));
    assert r.temp == PartWith(offset, data + [lo, hi]);
  }

  /** Two blank bytes leave an empty page buffer empty. */
  lemma FillBlank(m: Memory, addr: nat)
    requires m.Valid() && m.Clear() && addr % 2 == 0
    ensures Fill(m, addr, Word16(0xFF, 0xFF)) == m
  {
    hide Word16, Low, High, Offset;
    Word16Bytes(0xFF, 0xFF);
    EvenOffset(addr);
    assert Fill(m, addr, Word16(0xFF, 0xFF)).temp == m.temp;
  }

  /** Filling words changes the page buffer only. */
  lemma FillOnlyBuffer(m: Memory, addr: nat, w: bv16)
    requires m.Valid() && addr % 2 == 0
    ensures Fill(m, addr, w).mem == m.mem && Fill(m, addr, w).log == m.log
  {
    hide Low, High;
  }

  /** Erasing and writing change the page of their address only. */
  lemma OtherPage(m: Memory, addr: nat, x: nat)
    requires m.Valid() && addr < |m.mem| && x < |m.mem| && !(PageOf(addr) <= x < PageOf(addr) + PAGE)
    ensures Erase(m, addr).mem[x] == m.mem[x] && Write(m, addr).mem[x] == m.mem[x]
  {
    hide PageOf, OnPage, And;
    PageFits(|m.mem|, PageOf(addr));
  }

  lemma ErasedByte(m: Memory, addr: nat, x: nat)
    requires m.Valid() && addr < |m.mem| && x < |m.mem|
    ensures Erase(m, addr).mem[x] == m.mem[x] || Erase(m, addr).mem[x] == 0xFF
    ensures Erase(m, addr).temp == m.temp
  {
    hide PageOf, OnPage;
    PageFits(|m.mem|, PageOf(addr));
  }

  /** Writing an empty page buffer changes nothing. */
  lemma WriteBlank(m: Memory, addr: nat)
    requires m.Valid() && m.Clear() && addr < |m.mem|
    ensures Write(m, addr).mem == m.mem
  {
    hide PageOf, OnPage, AndByte;
    var p := PageOf(addr);
    PageFits(|m.mem|, p);
    var page := m.mem[p..p + PAGE];
    forall i | 0 <= i < PAGE ensures And(page, m.temp)[i] == page[i] {
      BlankBitRight(page[i]);
    }
    assert And(page, m.temp) == page;
  }

  lemma BlankBitRight(b: byte)
    ensures AndByte(b, 0xFF) == b
  {
  }

  lemma ErasePageOf(m: Memory, addr: nat)
    requires m.Valid() && addr < |m.mem|
    ensures PageOf(addr) + PAGE <= |m.mem|
    ensures Erase(m, addr) == Memory(BlankPage(m.mem, PageOf(addr)), m.temp, m.log + [Erased(PageOf(addr))])
  {
    hide PageOf, OnPage;
    PageFits(|m.mem|, PageOf(addr));
  }

  lemma WritePageOf(m: Memory, addr: nat)
    requires m.Valid() && addr < |m.mem|
    ensures PageOf(addr) < |m.mem| && Write(m, addr) == Write(m, PageOf(addr))
  {
    hide OnPage;
    PageOfStart(PageOf(addr));
  }

  lemma PartThere(mem: seq<byte>, p: nat, offset: nat, data: seq<byte>)
    requires p + PAGE <= |mem| && offset + |data| <= PAGE
    ensures (mem[..p] + PartWith(offset, data) + mem[p + PAGE..])[p + offset..p + offset + |data|] == data
  {
  }

  lemma PageAndOffset(addr: nat)
    ensures addr == PageOf(addr) + Offset(addr)
    ensures OnPage(addr) <==> Offset(addr) == 0
  {
  }

  /** Writing to an erased page puts the page buffer there. */
  lemma WriteErased(m: Memory, page: nat)
    requires m.Valid() && OnPage(page) && page + PAGE <= |m.mem|
    requires m.mem[page..page + PAGE] == Blank(PAGE)
    ensures Write(m, page).mem == m.mem[..page] + m.temp + m.mem[page + PAGE..]
  {
    AndBlank(m.temp);
  }

  /** A memory with `data` laid down from a page start, and blank up to the end of its last page. */
  function Laid(mem: seq<byte>, start: nat, data: seq<byte>): (r: seq<byte>)
    requires start + PageSpan(|data|) <= |mem|
    ensures |r| == |mem|
  {
    mem[..start] + data + Blank(PageSpan(|data|) - |data|) + mem[start + PageSpan(|data|)..]
  }

  /** What a memory holds after `Laid`: the data, a blank rest of its last page, and the rest as it was. */
  lemma LaidParts(mem: seq<byte>, start: nat, data: seq<byte>)
    requires start + PageSpan(|data|) <= |mem|
    ensures
      var r := Laid(mem, start, data);
      && r[start..start + |data|] == data
      && (forall i :: start + |data| <= i < start + PageSpan(|data|) ==> r[i] == 0xFF)
      && (forall i :: 0 <= i < |mem| && !(start <= i < start + PageSpan(|data|)) ==> r[i] == mem[i])
  {
  }

  /**
    A memory after data is written from an address on: the data, the rest of
    the 128-byte pages it touches blank, and all other bytes as they were.
   */
  ghost predicate Rewritten(was: seq<byte>, from: nat, data: seq<byte>, now: seq<byte>) {
    && |now| == |was|
    && forall x :: 0 <= x < |was| ==>
         now[x] ==
           if from <= x < from + |data| then data[x - from]
           else if 128 * (from / 128) <= x < 128 * ((from + |data| + 127) / 128) then 0xFF
           else was[x]
  }

  lemma RewrittenHolds(was: seq<byte>, from: nat, data: seq<byte>, now: seq<byte>)
    requires Rewritten(was, from, data, now) && from + |data| <= |was|
    ensures now[from..from + |data|] == data
  {
  }

  lemma LaidRewrites(mem: seq<byte>, start: nat, data: seq<byte>)
    requires OnPage(start) && start + PageSpan(|data|) <= |mem|
    ensures Rewritten(mem, start, data, Laid(mem, start, data))
  {
    var k := Pages(start);
    SpanFrom(k, |data|);
  }

  lemma SpanFrom(k: nat, n: nat)
    ensures 128 * ((128 * k + n + 127) / 128) == 128 * k + 128 * ((n + 127) / 128) && 128 * (128 * k / 128) == 128 * k
  {
    var q, r := (n + 127) / 128, (n + 127) % 128;
    assert 128 * k + n + 127 == 128 * (k + q) + r;
  }

  lemma PartRewrites(mem: seq<byte>, addr: nat, data: seq<byte>)
    requires PageOf(addr) + PAGE <= |mem| && data != [] && Offset(addr) + |data| <= PAGE
    ensures Rewritten(mem, addr, data, mem[..PageOf(addr)] + PartWith(Offset(addr), data) + mem[PageOf(addr) + PAGE..])
  {
    PageAndOffset(addr);
    var k, r := addr / 128, addr % 128;
    assert addr == 128 * k + r;
    assert addr + |data| + 127 == 128 * (k + 1) + (r + |data| - 1);
    assert 128 * ((addr + |data| + 127) / 128) == 128 * k + 128;
  }

  /** Laying down a full page and then more from the next page lays down both. */
  lemma LaidTwice(mem: seq<byte>, start: nat, first: seq<byte>, rest: seq<byte>)
    requires OnPage(|first|) && start + PageSpan(|first + rest|) <= |mem|
    ensures PageSpan(|first|) == |first| && PageSpan(|first + rest|) == |first| + PageSpan(|rest|)
    ensures Laid(Laid(mem, start, first), start + |first|, rest) == Laid(mem, start, first + rest)
  {
    SpanOfSum(|first|, |rest|);
    var a := Laid(mem, start, first);
    assert a == mem[..start] + first + mem[start + |first|..];
    assert a[..start + |first|] == mem[..start] + first;
    assert a[start + |first| + PageSpan(|rest|)..] == mem[start + |first| + PageSpan(|rest|)..];
  }

  lemma SpanOfSum(a: nat, b: nat)
    requires OnPage(a)
    ensures PageSpan(a) == a && PageSpan(a + b) == a + PageSpan(b)
  {
    hide OnPage;
    var k := Pages(a);
    PagesSpan(k, 1);
    assert (128 * k + b + 127) / 128 == k + (b + 127) / 128 by { AfterPages(k, b + 127); }
  }

  lemma AfterPages(k: nat, n: nat)
    ensures (128 * k + n) / 128 == k + n / 128
  {
    var q, r := n / 128, n % 128;
    assert 128 * k + n == 128 * (k + q) + r;
  }

  /** The flash hardware. */
  class Chip {
    const mem: array<byte>
    const temp: array<byte>
    ghost var log: seq<Op>

    ghost function State(): Memory
      reads this, mem, temp
    {
      Memory(mem[..], temp[..], log)
    }

    ghost predicate Valid()
      reads this, mem, temp
    {
      State().Valid() && mem != temp
    }

    constructor (pages: nat)
      ensures Valid() && State().Clear() && mem.Length == pages * PAGE && log == []
      ensures fresh(mem) && fresh(temp)
    {
      mem := new byte[pages * PAGE](_ => 0xFF);
      temp := new byte[PAGE](_ => 0xFF);
      log := [];
    }

    method ErasePage(addr: nat)
      requires Valid() && addr < mem.Length
      modifies this, mem
      ensures Valid() && State() == Erase(old(State()), addr)
    {
      hide OnPage, PageOf;
      PageFits(mem.Length, PageOf(addr));
      var p := PageOf(addr);
      forall i | p <= i < p + PAGE {
        mem[i] := 0xFF;
      }
      log := log + [Erased(p)];
      assert mem[..] == old(mem[..p]) + Blank(PAGE) + old(mem[p + PAGE..]);
    }

    method FillWord(addr: nat, w: bv16)
      requires Valid() && addr % 2 == 0
      modifies temp
      ensures Valid() && State() == Fill(old(State()), addr, w)
    {
      hide Low, High;
      EvenOffset(addr);
      temp[Offset(addr)] := Low(w);
      temp[Offset(addr) + 1] := High(w);
    }

    method WritePage(addr: nat)
      requires Valid() && addr < mem.Length
      modifies this, mem, temp
      ensures Valid() && State() == Write(old(State()), addr)
    {
      hide AndByte, OnPage, PageOf;
      PageFits(mem.Length, PageOf(addr));
      var p := PageOf(addr);
      forall i | p <= i < p + PAGE {
        mem[i] := AndByte(mem[i], temp[i - p]);
      }
      forall i | 0 <= i < PAGE {
        temp[i] := 0xFF;
      }
      log := log + [Written(p)];
      assert temp[..] == Blank(PAGE);
      assert mem[..] == old(mem[..p]) + And(old(mem[p..p + PAGE]), old(temp[..])) + old(mem[p + PAGE..]);
    }
  }
}
