/**
  What a download makes of flash: the word loop as a function, where it lays its
  data down as one contiguous write, and exactly when its range holds the data.
 */
module DfuFlash {
  import opened Bytes
  import opened Flash

  /** A download can go on from an even address with this many bytes. */
  ghost predicate Ready(m: Memory, addr: nat, page: nat, n: nat) {
    m.Valid() && addr % 2 == 0 && n % 2 == 0 && page <= addr && addr + n <= |m.mem|
  }

  lemma ReadyFacts(m: Memory, addr: nat, page: nat, n: nat)
    requires Ready(m, addr, page, n)
    ensures m.Valid() && addr % 2 == 0 && page <= addr && addr + n <= |m.mem| && (n > 0 ==> n >= 2)
  {
  }

  lemma ReadyNext(m: Memory, addr: nat, page: nat, n: nat)
    requires Ready(m, addr, page, n) && n > 0
    ensures n >= 2 && Ready(m, addr + 2, page, n - 2) && Ready(m, addr + 2, addr + 2, n - 2)
  {
  }

  lemma ReadyOther(m: Memory, m': Memory, addr: nat, page: nat, n: nat)
    requires Ready(m, addr, page, n) && m'.Valid() && |m'.mem| == |m.mem|
    ensures Ready(m', addr, page, n)
  {
  }

  /** The page buffer with one more word. */
  function Filled(m: Memory, addr: nat, lo: byte, hi: byte): (r: Memory)
    requires m.Valid() && addr % 2 == 0
    ensures r.Valid() && r.mem == m.mem
  {
    hide Word16, Low, High;
    Fill(m, addr, Word16(lo, hi))
  }

  /** A page written and the next one erased. */
  function Turned(m: Memory, page: nat, next: nat): (r: Memory)
    requires m.Valid() && page < |m.mem| && next < |m.mem|
    ensures r.Valid() && |r.mem| == |m.mem|
  {
    hide Write, Erase;
    Erase(Write(m, page), next)
  }

  /** The loop over the words of a download, from its state before a word on. */
  function Downloaded(m: Memory, addr: nat, page: nat, inPage: nat, data: seq<byte>): (r: Memory)
    requires Ready(m, addr, page, |data|)
    ensures r.Valid() && |r.mem| == |m.mem|
    decreases |data|
  {
    hide Filled, Write, Turned, Ready;
    ReadyFacts(m, addr, page, |data|);
    if data == [] then m
    else
      ReadyNext(m, addr, page, |data|);
      ReadyFacts(m, addr + 2, page, |data| - 2);
      var f, rest := Filled(m, addr, data[0], data[1]), data[2..];
      ReadyOther(m, f, addr + 2, page, |rest|);
      if rest == [] then Write(f, page)
      else if inPage + 1 == PAGE / 2 then
        ReadyOther(m, Turned(f, page, addr + 2), addr + 2, addr + 2, |rest|);
        Downloaded(Turned(f, page, addr + 2), addr + 2, addr + 2, 0, rest)
      else Downloaded(f, addr + 2, page, inPage + 1, rest)
  }

  /** The first word of a download, and what is left to do after it. */
  lemma DownloadedStep(m: Memory, addr: nat, page: nat, inPage: nat, data: seq<byte>) returns (f: Memory, rest: seq<byte>)
    requires Ready(m, addr, page, |data|) && data != []
    ensures |data| >= 2 && rest == data[2..] && addr % 2 == 0 && m.Valid() && f == Filled(m, addr, data[0], data[1])
    ensures f.Valid() && f.mem == m.mem && addr + 2 + |rest| <= |m.mem| && page <= addr
    ensures Ready(f, addr + 2, page, |rest|)
    ensures rest == [] ==> Downloaded(m, addr, page, inPage, data) == Write(f, page)
    ensures rest != [] ==> Ready(Turned(f, page, addr + 2), addr + 2, addr + 2, |rest|)
    ensures rest != [] ==>
      Downloaded(m, addr, page, inPage, data) ==
        if inPage + 1 == PAGE / 2 then Downloaded(Turned(f, page, addr + 2), addr + 2, addr + 2, 0, rest)
        else Downloaded(f, addr + 2, page, inPage + 1, rest)
  {
    hide Filled, Write, Turned, Ready;
    ReadyFacts(m, addr, page, |data|);
    ReadyNext(m, addr, page, |data|);
    ReadyFacts(m, addr + 2, page, |data| - 2);
    f, rest := Filled(m, addr, data[0], data[1]), data[2..];
    ReadyOther(m, f, addr + 2, page, |rest|);
    if rest != [] {
      ReadyOther(m, Turned(f, page, addr + 2), addr + 2, addr + 2, |rest|);
    }
  }

  lemma DownloadedNothing(m: Memory, addr: nat, page: nat, inPage: nat)
    requires Ready(m, addr, page, 0)
    ensures Downloaded(m, addr, page, inPage, []) == m
  {
  }

  /** A download with the command before it, which erases the first page. */
  function Programmed(m: Memory, from: nat, data: seq<byte>): (r: Memory)
    requires Ready(m, from, from, |data|) && from < |m.mem|
    ensures r.Valid() && |r.mem| == |m.mem|
  {
    hide Erase, Downloaded;
    Downloaded(Erase(m, from), from, from, 0, data)
  }

  lemma {:induction false} DownloadedClear(m: Memory, addr: nat, page: nat, inPage: nat, data: seq<byte>)
    requires Ready(m, addr, page, |data|) && data != []
    ensures Downloaded(m, addr, page, inPage, data).Clear()
    decreases |data|
  {
    hide Downloaded, Filled, Write, Turned, Ready;
    var f, rest := DownloadedStep(m, addr, page, inPage, data);
    if rest != [] {
      if inPage + 1 == PAGE / 2 {
        DownloadedClear(Turned(f, page, addr + 2), addr + 2, addr + 2, 0, rest);
      } else {
        DownloadedClear(f, addr + 2, page, inPage + 1, rest);
      }
    }
  }

  lemma ProgrammedClear(m: Memory, from: nat, data: seq<byte>)
    requires Ready(m, from, from, |data|) && from < |m.mem| && m.Clear()
    ensures Programmed(m, from, data).Clear()
  {
    hide Downloaded, PageOf;
    if data == [] {
      DownloadedNothing(Erase(m, from), from, from, 0);
    } else {
      DownloadedClear(Erase(m, from), from, from, 0, data);
    }
  }

  // From a page start: one contiguous write.

  /** Putting a page buffer on the blanked page is laying down its data. */
  lemma CommitPage(mem: seq<byte>, at: nat, data: seq<byte>)
    requires at + PAGE <= |mem| && 0 < |data| <= PAGE
    ensures PageSpan(|data|) == PAGE
    ensures BlankPage(mem, at)[..at] + PageWith(data) + BlankPage(mem, at)[at + PAGE..] == Laid(mem, at, data)
  {
  }

  /** Each of `n` pages from `first` erased, then written, in turn. */
  function PageOps(first: nat, n: nat): seq<Op> {
    if n == 0 then []
    else PageOps(first, n - 1) + [Erased(first + (n - 1) * PAGE), Written(first + (n - 1) * PAGE)]
  }

  /** Every page is erased exactly once, right before the only time it is written. */
  lemma {:induction false} PageOpsPaired(first: nat, n: nat)
    ensures |PageOps(first, n)| == 2 * n
    ensures forall i :: 0 <= i < n ==>
      PageOps(first, n)[2 * i] == Erased(first + i * PAGE) && PageOps(first, n)[2 * i + 1] == Written(first + i * PAGE)
  {
    if n > 0 {
      PageOpsPaired(first, n - 1);
    }
  }

  /** Whole pages of `firmware` are laid down, and `data` up to `done` is in the page buffer. */
  ghost predicate Buffered(m: Memory, was: seq<byte>, log: seq<Op>, base: nat, firmware: seq<byte>, laid: nat, done: nat) {
    && m.Valid() && |m.mem| == |was| && OnPage(base) && (base + done) % 2 == 0
    && OnPage(laid) && laid <= done <= laid + PAGE && done % 2 == 0 && done <= |firmware|
    && base + laid + PAGE <= |was| && PageSpan(laid) == laid
    && m.temp == PageWith(firmware[laid..done])
    && m.mem == BlankPage(Laid(was, base, firmware[..laid]), base + laid)
    && m.log == log + PageOps(base, PageNumber(laid)) + [Erased(base + laid)]
  }

  /** The state of a download between words, with room in the page buffer. */
  ghost predicate Progress(m: Memory, was: seq<byte>, log: seq<Op>, base: nat, firmware: seq<byte>, laid: nat, done: nat) {
    Buffered(m, was, log, base, firmware, laid, done) && done < laid + PAGE
  }

  /** The state of a download after a page is written: all data so far is laid down. */
  ghost predicate Committed(m: Memory, was: seq<byte>, log: seq<Op>, base: nat, firmware: seq<byte>, done: nat) {
    && m.Valid() && |m.mem| == |was| && m.Clear() && done <= |firmware|
    && OnPage(base) && (base + done) % 2 == 0 && base + PageSpan(done) <= |was|
    && m.mem == Laid(was, base, firmware[..done])
    && m.log == log + PageOps(base, PageNumber(PageSpan(done)))
  }

  /** The next word goes into the page buffer. */
  lemma FillKeeps(m: Memory, was: seq<byte>, log: seq<Op>, base: nat, firmware: seq<byte>, laid: nat, done: nat)
    requires Progress(m, was, log, base, firmware, laid, done) && done + 2 <= |firmware|
    ensures Buffered(Fill(m, base + done, Word16(firmware[done], firmware[done + 1])), was, log, base, firmware, laid, done + 2)
  {
    hide Word16, Low, High, Laid, BlankPage, PageSpan, PageOps, PageWith;
    var data := firmware[laid..done];
    InPage(base, laid, done);
    FillNext(m, data, base + done, firmware[done], firmware[done + 1]);
    FillOnlyBuffer(m, base + done, Word16(firmware[done], firmware[done + 1]));
    assert data + [firmware[done], firmware[done + 1]] == firmware[laid..done + 2];
  }

  lemma InPage(base: nat, laid: nat, done: nat)
    requires OnPage(base) && OnPage(laid) && laid <= done < laid + PAGE && done % 2 == 0
    ensures Offset(base + done) == done - laid && (base + done) % 2 == 0 && done + 2 <= laid + PAGE
  {
    hide OnPage, Offset, PageOf, PageNumber;
    var p := Pages(base);
    var q := Pages(laid);
    PageParts(p + q, done - laid);
    EvenInPage(p, q, done / 2);
  }

  lemma EvenInPage(p: nat, q: nat, h: nat)
    requires 128 * q <= 2 * h < 128 * q + 128
    ensures (128 * p + 2 * h) % 2 == 0 && 2 * h + 2 <= 128 * q + 128
  {
    assert 128 * p + 2 * h == 2 * (64 * p + h);
  }

  /** Committing the page buffer lays the data down as far as it goes. */
  lemma WriteKeeps(m: Memory, was: seq<byte>, log: seq<Op>, base: nat, firmware: seq<byte>, laid: nat, done: nat)
    requires Buffered(m, was, log, base, firmware, laid, done) && laid < done
    ensures PageSpan(done) == laid + PAGE
    ensures Committed(Write(m, base + laid), was, log, base, firmware, done)
  {
    hide Write, Laid, PageSpan, PageWith, BlankPage, PageOps;
    NextPages(base, laid);
    WriteLays(m, was, base, firmware, laid, done);
    WriteLogs(m, log, base, laid);
    NextPageNumber(laid);
  }

  lemma WriteLays(m: Memory, was: seq<byte>, base: nat, firmware: seq<byte>, laid: nat, done: nat)
    requires m.Valid() && |m.mem| == |was| && OnPage(base + laid)
    requires OnPage(laid) && laid < done <= laid + PAGE && done <= |firmware|
    requires base + laid + PAGE <= |was| && PageSpan(laid) == laid
    requires m.temp == PageWith(firmware[laid..done])
    requires m.mem == BlankPage(Laid(was, base, firmware[..laid]), base + laid)
    ensures PageSpan(done) == laid + PAGE
    ensures Write(m, base + laid).mem == Laid(was, base, firmware[..done])
  {
    hide Write, Laid, PageSpan, PageWith;
    var page, x, data := base + laid, Laid(was, base, firmware[..laid]), firmware[laid..done];
    assert m.mem[page..page + PAGE] == Blank(PAGE);
    WriteErased(m, page);
    CommitPage(x, page, data);
    assert firmware[..laid] + data == firmware[..done];
    SpanOfSum(laid, |data|);
    LaidTwice(was, base, firmware[..laid], data);
  }

  lemma WriteLogs(m: Memory, log: seq<Op>, base: nat, laid: nat)
    requires m.Valid() && OnPage(base) && OnPage(laid) && base + laid < |m.mem|
    requires m.log == log + PageOps(base, PageNumber(laid)) + [Erased(base + laid)]
    ensures Write(m, base + laid).log == log + PageOps(base, PageNumber(laid) + 1)
  {
    var page := base + laid;
    PageOfStart(page);
    NextPageNumber(laid);
    assert PageOps(base, PageNumber(laid) + 1) == PageOps(base, PageNumber(laid)) + [Erased(page), Written(page)];
  }

  lemma NextPageNumber(laid: nat)
    requires OnPage(laid)
    ensures PageNumber(laid + PAGE) == PageNumber(laid) + 1 && PageNumber(laid) * PAGE == laid
  {
    hide OnPage, PageNumber;
    var k := Pages(laid);
    PageParts(k, 0);
    PageParts(k + 1, 0);
  }

  /** After a commit, erasing the page that follows is progress to that page. */
  lemma EraseKeeps(m: Memory, was: seq<byte>, log: seq<Op>, base: nat, firmware: seq<byte>, done: nat)
    requires Committed(m, was, log, base, firmware, done) && OnPage(done) && done % 2 == 0 && base + done + PAGE <= |was|
    ensures Progress(Erase(m, base + done), was, log, base, firmware, done, done)
  {
    hide Laid, PageSpan, PageOps, BlankPage, PageWith, Erase;
    PageOfStart(base + done);
    PageOfStart(done);
    assert firmware[done..done] == [];
    EmptyPage();
    EraseBlanks(m, base + done);
  }

  lemma NextPage(laid: nat, done: nat, n: nat)
    requires OnPage(laid) && done == laid + PAGE
    ensures OnPage(done) && (done < n ==> PageSpan(n) >= done + PAGE)
  {
    hide OnPage, PageSpan;
    var k := Pages(laid);
    PageParts(k + 1, 0);
    if done < n {
      var q := Pages(PageSpan(n));
    }
  }

  lemma ProgressBounds(m: Memory, was: seq<byte>, log: seq<Op>, base: nat, firmware: seq<byte>, laid: nat, done: nat)
    requires Progress(m, was, log, base, firmware, laid, done)
    ensures m.Valid() && |m.mem| == |was| && OnPage(laid) && OnPage(base)
    ensures laid <= done < laid + PAGE && done % 2 == 0 && (base + done) % 2 == 0 && done <= |firmware| && base + laid + PAGE <= |was|
  {
  }

  lemma ProgressBuffered(m: Memory, was: seq<byte>, log: seq<Op>, base: nat, firmware: seq<byte>, laid: nat, done: nat)
    requires Buffered(m, was, log, base, firmware, laid, done) && done < laid + PAGE
    ensures Progress(m, was, log, base, firmware, laid, done)
  {
  }

  lemma CommittedLays(m: Memory, was: seq<byte>, log: seq<Op>, base: nat, firmware: seq<byte>, done: nat)
    requires Committed(m, was, log, base, firmware, done)
    ensures m.Clear() && done <= |firmware| && base + PageSpan(done) <= |was|
    ensures m.mem == Laid(was, base, firmware[..done]) && m.log == log + PageOps(base, PageNumber(PageSpan(done)))
  {
  }

  lemma StartProgress(was: seq<byte>, log: seq<Op>, base: nat, firmware: seq<byte>)
    requires OnPage(|was|) && OnPage(base) && base + PAGE <= |was|
    ensures Progress(Memory(BlankPage(was, base), Blank(PAGE), log + [Erased(base)]), was, log, base, firmware, 0, 0)
  {
    assert firmware[0..0] == [] && firmware[..0] == [];
    EmptyPage();
    PageIsEven(base);
    assert Laid(was, base, []) == was;
  }

  /** The loop from any point on, up to the last commit. */
  lemma {:induction false} DownloadedLays(
      m: Memory, was: seq<byte>, log: seq<Op>, base: nat, firmware: seq<byte>, laid: nat, done: nat, inPage: nat)
    requires Progress(m, was, log, base, firmware, laid, done) && done == laid + 2 * inPage && done < |firmware|
    requires base + PageSpan(|firmware|) <= |was| && Ready(m, base + done, base + laid, |firmware[done..]|)
    ensures Committed(Downloaded(m, base + done, base + laid, inPage, firmware[done..]), was, log, base, firmware, |firmware|)
    decreases |firmware| - done
  {
    hide Downloaded, Fill, Write, Erase, Word16, Buffered, Committed, Progress, PageSpan, OnPage, Ready;
    ProgressBounds(m, was, log, base, firmware, laid, done);
    var data := firmware[done..];
    var f, rest := DownloadedStep(m, base + done, base + laid, inPage, data);
    FillKeeps(m, was, log, base, firmware, laid, done);
    assert rest == firmware[done + 2..];
    if rest == [] || inPage + 1 == PAGE / 2 {
      WriteKeeps(f, was, log, base, firmware, laid, done + 2);
    }
    if rest == [] {
    } else if inPage + 1 == PAGE / 2 {
      NextPage(laid, done + 2, |firmware|);
      EraseKeeps(Write(f, base + laid), was, log, base, firmware, done + 2);
      DownloadedLays(Turned(f, base + laid, base + done + 2), was, log, base, firmware, done + 2, done + 2, 0);
    } else {
      ProgressBuffered(f, was, log, base, firmware, laid, done + 2);
      DownloadedLays(f, was, log, base, firmware, laid, done + 2, inPage + 1);
    }
  }

  lemma SpanFits(from: nat, n: nat, size: nat)
    requires OnPage(from) && OnPage(size) && from + n <= size
    ensures from + PageSpan(n) <= size
  {
    hide OnPage, PageSpan;
    var p := Pages(from);
    var q := Pages(size);
    var k := Pages(PageSpan(n));
  }

  /** From a page start a download refines one contiguous write, page by page. */
  lemma ProgrammedLays(m: Memory, from: nat, data: seq<byte>)
    requires Ready(m, from, from, |data|) && m.Clear() && data != [] && OnPage(from)
    ensures from + PageSpan(|data|) <= |m.mem|
    ensures Programmed(m, from, data).mem == Laid(m.mem, from, data)
    ensures Programmed(m, from, data).log == m.log + PageOps(from, PageNumber(PageSpan(|data|)))
  {
    hide OnPage, PageSpan, Downloaded, Erase, BlankPage, Laid, PageOps, Progress, Committed;
    SpanFits(from, |data|, |m.mem|);
    PageFits(|m.mem|, from);
    PageOfStart(from);
    EraseBlanks(m, from);
    StartProgress(m.mem, m.log, from, data);
    assert data[0..] == data;
    DownloadedLays(Erase(m, from), m.mem, m.log, from, data, 0, 0, 0);
    CommittedLays(Programmed(m, from, data), m.mem, m.log, from, data, |data|);
    assert data[..|data|] == data;
  }

  // From inside a page.

  /** Words that stay within a page are written together, after the last of them. */
  lemma {:induction false} DownloadedInPage(m: Memory, addr: nat, page: nat, inPage: nat, offset: nat, done: seq<byte>, data: seq<byte>)
    requires Ready(m, addr, page, |data|) && data != [] && |done| == 2 * inPage && offset + |done| + |data| <= PAGE
    requires m.temp == PartWith(offset, done) && Offset(addr) == offset + |done|
    ensures m.Valid() && page < |m.mem|
    ensures Downloaded(m, addr, page, inPage, data) == Write(m.(temp := PartWith(offset, done + data)), page)
    decreases |data|
  {
    hide Downloaded, Fill, Write, Turned, Word16, Offset, PartWith, Ready;
    var f, rest := DownloadedStep(m, addr, page, inPage, data);
    var more := done + [data[0], data[1]];
    FillPart(m, offset, done, addr, data[0], data[1]);
    assert more + rest == done + data;
    if rest == [] {
      assert more == done + data;
    } else {
      OffsetAfter(addr, 2);
      DownloadedInPage(f, addr + 2, page, inPage + 1, offset, more, rest);
      assert f.(temp := PartWith(offset, done + data)) == m.(temp := PartWith(offset, done + data));
    }
  }

  /** Within one page a download replaces that page: blank up to the start, the data, and blank after it. */
  lemma ProgrammedInPage(m: Memory, from: nat, data: seq<byte>)
    requires Ready(m, from, from, |data|) && m.Clear() && data != [] && Offset(from) + |data| <= PAGE
    ensures PageOf(from) + PAGE <= |m.mem|
    ensures Programmed(m, from, data).mem ==
      m.mem[..PageOf(from)] + PartWith(Offset(from), data) + m.mem[PageOf(from) + PAGE..]
  {
    hide Downloaded, Erase, Write, PartWith, Offset, PageOf, OnPage, BlankPage;
    var e, p := Erase(m, from), PageOf(from);
    PageFits(|m.mem|, p);
    ErasePageOf(m, from);
    BlankPageParts(m.mem, p);
    NoPart(Offset(from));
    DownloadedInPage(e, from, from, 0, Offset(from), [], data);
    assert [] + data == data;
    var f := e.(temp := PartWith(Offset(from), data));
    WritePageOf(f, from);
    WriteErased(f, p);
  }

  // Where the data is lost.

  /** Blank words change no byte, or erase it. */
  lemma {:induction false} BlankDownloaded(m: Memory, addr: nat, page: nat, inPage: nat, data: seq<byte>, x: nat)
    requires Ready(m, addr, page, |data|) && m.Clear() && data == Blank(|data|) && x < |m.mem|
    ensures
      var r := Downloaded(m, addr, page, inPage, data).mem[x];
      r == m.mem[x] || r == 0xFF
    decreases |data|
  {
    hide Downloaded, Fill, Write, Erase, Word16, Ready;
    if data == [] {
      DownloadedNothing(m, addr, page, inPage);
    } else {
      var f, rest := DownloadedStep(m, addr, page, inPage, data);
      FillBlank(m, addr);
      WriteBlank(m, page);
      if rest == [] {
      } else if inPage + 1 == PAGE / 2 {
        ErasedByte(Write(m, page), addr + 2, x);
        BlankDownloaded(Turned(f, page, addr + 2), addr + 2, addr + 2, 0, rest, x);
      } else {
        BlankDownloaded(f, addr + 2, page, inPage + 1, rest, x);
      }
    }
  }

  /** A byte outside the first page keeps its value, or is erased, if the data is blank after the first page's worth. */
  lemma {:induction false} FirstChunk(m: Memory, addr: nat, page: nat, inPage: nat, data: seq<byte>, x: nat)
    requires Ready(m, addr, page, |data|) && page < |m.mem|
    requires inPage < PAGE / 2 && x < |m.mem| && !(PageOf(page) <= x < PageOf(page) + PAGE)
    requires forall i :: PAGE - 2 * inPage <= i < |data| ==> data[i] == 0xFF
    ensures
      var r := Downloaded(m, addr, page, inPage, data).mem[x];
      r == m.mem[x] || r == 0xFF
    decreases |data|
  {
    hide Downloaded, Filled, Write, Erase, PageOf, Ready;
    if data == [] {
      DownloadedNothing(m, addr, page, inPage);
    } else {
      var f, rest := DownloadedStep(m, addr, page, inPage, data);
      OtherPage(f, page, x);
      if rest == [] {
      } else if inPage + 1 == PAGE / 2 {
        assert rest == Blank(|rest|);
        ErasedByte(Write(f, page), addr + 2, x);
        BlankDownloaded(Turned(f, page, addr + 2), addr + 2, addr + 2, 0, rest, x);
      } else {
        FirstChunk(f, addr + 2, page, inPage + 1, rest, x);
      }
    }
  }

  /** A start that keeps data in place: on a page, or with all of the data in one page. */
  predicate InPlace(from: nat, n: nat) { OnPage(from) || Offset(from) + n <= PAGE }

  lemma ProgrammedHolds(m: Memory, from: nat, data: seq<byte>)
    requires Ready(m, from, from, |data|) && m.Clear() && data != [] && InPlace(from, |data|)
    ensures Programmed(m, from, data).mem[from..from + |data|] == data
    ensures Rewritten(m.mem, from, data, Programmed(m, from, data).mem)
  {
    hide Programmed, PageOf, OnPage, Offset, PartWith, Laid, PageSpan, Rewritten;
    if OnPage(from) {
      ProgrammedLays(m, from, data);
      LaidRewrites(m.mem, from, data);
    } else {
      ProgrammedInPage(m, from, data);
      PartRewrites(m.mem, from, data);
    }
    RewrittenHolds(m.mem, from, data, Programmed(m, from, data).mem);
  }

  /** Whatever is downloaded, the range holds it. */
  ghost predicate AlwaysHeld(m: Memory, from: nat, n: nat)
    requires Ready(m, from, from, n) && from < |m.mem|
  {
    forall data: seq<byte> :: |data| == n ==> Programmed(m, from, data).mem[from..from + n] == data
  }

  /** The range holds every payload exactly if the start is on a page or all of the range is in one. */
  lemma ProgramHoldsExactly(m: Memory, from: nat, n: nat)
    requires Ready(m, from, from, n) && m.Clear() && n > 0
    ensures AlwaysHeld(m, from, n) <==> InPlace(from, n)
  {
    hide Programmed, PageOf, OnPage, Offset, InPlace;
    if InPlace(from, n) {
      forall data: seq<byte> | |data| == n ensures Programmed(m, from, data).mem[from..from + n] == data {
        ProgrammedHolds(m, from, data);
      }
    } else {
      var data := Displaced(m, from, n);
      assert Programmed(m, from, data).mem[from..from + n] != data;
    }
  }

  /** A payload that is lost: its byte at the start of the second page goes elsewhere. */
  lemma Displaced(m: Memory, from: nat, n: nat) returns (data: seq<byte>)
    requires Ready(m, from, from, n) && n > 0 && !InPlace(from, n)
    ensures |data| == n && Programmed(m, from, data).mem[from..from + n] != data
  {
    hide Downloaded, PageOf, OnPage, Offset, Erase;
    PageAndOffset(from);
    var x := PageOf(from) + PAGE;
    var k := x - from;
    var v: byte := if m.mem[x] == 0 then 1 else 0;
    data := Blank(n)[k := v];
    ErasedByte(m, from, x);
    FirstChunk(Erase(m, from), from, from, 0, data, x);
    var r := Programmed(m, from, data).mem;
    assert r[from..from + n][k] == r[x];
  }
}
