/** A byte stream over the 256-byte pages of an EEPROM plug. */
module MemoryStream {
  import opened Bytes

  const PAGE: nat := 256
  const PAGES: nat := 0x1_0000

  type Page = p: seq<byte> | |p| == PAGE witness seq(PAGE, _ => 0)

  datatype Stream = Stream(
    pages: map<word16, Page>,  // what the plug holds where it was written
    start: word16,
    curr: word16,
    step: int,
    buffer: Page,
    pos: nat)
  {
    ghost predicate Valid() { (step == 1 || step == -1) && pos < PAGE }
  }

  /** What the plug returns for a page; unwritten ones read as erased. */
  function Load(s: Stream, page: word16): Page {
    if page in s.pages then s.pages[page] else seq(PAGE, _ => 0xFF)
  }

  function PutByte(s: Stream, data: byte): (r: Stream)
    requires s.Valid()
    ensures r.Valid()
  {
    var buffer: Page := s.buffer[s.pos := data];
    var pos := (s.pos + 1) % 0x100;
    if pos == 0 then
      s.(buffer := buffer, pos := pos, pages := s.pages[s.curr := buffer], curr := (s.curr + s.step) % 0x1_0000)
    else
      s.(buffer := buffer, pos := pos)
  }

  function GetByte(s: Stream): (r: (byte, Stream))
    requires s.Valid()
    ensures r.1.Valid()
  {
    var t := if s.pos == 0 then s.(buffer := Load(s, s.curr), curr := (s.curr + s.step) % 0x1_0000) else s;
    (t.buffer[t.pos], t.(pos := (t.pos + 1) % 0x100))
  }

  function Flushed(s: Stream): (r: Stream)
    requires s.Valid()
    ensures r.Valid()
  {
    if s.pos == 0 then s
    else
      var buffer: Page := s.buffer[..s.pos] + seq(PAGE - s.pos, _ => 0xFF);
      s.(buffer := buffer, pages := s.pages[s.curr := buffer])
  }

  function Rewound(s: Stream): Stream { s.(curr := s.start, pos := 0) }

  /** `position`, with the page count in 16-bit arithmetic. */
  function Position(s: Stream, writing: bool): int
    requires s.Valid()
  {
    var v := (s.curr - s.start) * s.step % 0x1_0000;
    (if s.pos > 0 && !writing then v - 1 else v) * 0x100 + s.pos
  }

  function PutAll(s: Stream, data: seq<byte>): (r: Stream)
    requires s.Valid()
    ensures r.Valid()
  {
    if data == [] then s else PutByte(PutAll(s, data[..|data| - 1]), data[|data| - 1])
  }

  function GetAll(s: Stream, n: nat): (r: (seq<byte>, Stream))
    requires s.Valid()
    ensures r.1.Valid() && |r.0| == n
    decreases n
  {
    if n == 0 then ([], s)
    else
      var (data, t) := GetAll(s, n - 1);
      var (b, u) := GetByte(t);
      (data + [b], u)
  }

  // Pages in the order they are used.

  function NthPage(start: word16, step: int, n: nat): word16 {
    (if step == 1 then start + n else start - n) % 0x1_0000
  }

  lemma PagesDistinct(start: word16, step: int, i: nat, j: nat)
    requires i < j < PAGES
    ensures NthPage(start, step, i) != NthPage(start, step, j)
  {
  }

  lemma PageAfter(start: word16, step: int, n: nat)
    requires step == 1 || step == -1
    ensures (NthPage(start, step, n) + step) % 0x1_0000 == NthPage(start, step, n + 1)
  {
  }

  lemma PagesPassed(start: word16, step: int, n: nat)
    requires (step == 1 || step == -1) && n < PAGES
    ensures (NthPage(start, step, n) - start) * step % 0x1_0000 == n
  {
  }

  /** The full pages of the data are on the plug, and the rest is in the buffer. */
  ghost predicate Written(s: Stream, data: seq<byte>) {
    && s.Valid() && s.pos == |data| % 0x100 && s.curr == NthPage(s.start, s.step, |data| / 0x100)
    && s.buffer[..s.pos] == data[|data| - s.pos..]
    && PagesStored(s, data)
  }

  /** The full pages of `data` are on the plug, in the order they are used. */
  ghost predicate PagesStored(s: Stream, data: seq<byte>) {
    forall j :: 0 <= j < |data| / 0x100 ==>
      NthPage(s.start, s.step, j) in s.pages && s.pages[NthPage(s.start, s.step, j)] == data[j * PAGE..j * PAGE + PAGE]
  }

  lemma PutInPage(s: Stream, data: seq<byte>, b: byte)
    requires Written(s, data) && s.pos < PAGE - 1
    ensures Written(PutByte(s, b), data + [b])
  {
    hide NthPage;
    var more, k := data + [b], |data| / 0x100;
    assert |more| / 0x100 == k && |more| % 0x100 == s.pos + 1;
    assert s.buffer[s.pos := b][..s.pos + 1] == s.buffer[..s.pos] + [b];
    forall j | 0 <= j < k ensures more[j * PAGE..j * PAGE + PAGE] == data[j * PAGE..j * PAGE + PAGE] {
    }
  }

  lemma PutLastInPage(s: Stream, data: seq<byte>, b: byte)
    requires Written(s, data) && s.pos == PAGE - 1 && |data| < PAGES * PAGE
    ensures Written(PutByte(s, b), data + [b])
  {
    hide NthPage;
    var t, more, k := PutByte(s, b), data + [b], |data| / 0x100;
    assert |more| / 0x100 == k + 1 && |more| % 0x100 == 0;
    PageAfter(s.start, s.step, k);
    assert s.buffer[s.pos := b] == s.buffer[..s.pos] + [b];
    assert t.pages[s.curr] == more[k * PAGE..k * PAGE + PAGE];
    forall j | 0 <= j < k
      ensures NthPage(t.start, t.step, j) in t.pages
      ensures t.pages[NthPage(t.start, t.step, j)] == more[j * PAGE..j * PAGE + PAGE]
    {
      PagesDistinct(s.start, s.step, j, k);
      assert more[j * PAGE..j * PAGE + PAGE] == data[j * PAGE..j * PAGE + PAGE];
    }
  }

  lemma PutWrites(s: Stream, data: seq<byte>, b: byte)
    requires Written(s, data) && |data| < PAGES * PAGE
    ensures Written(PutByte(s, b), data + [b])
  {
    hide PutByte, PagesStored;
    if s.pos < PAGE - 1 { PutInPage(s, data, b); } else { PutLastInPage(s, data, b); }
  }

  lemma {:induction false} PutAllWrites(s: Stream, data: seq<byte>)
    requires s.Valid() && s.pos == 0 && s.curr == s.start && |data| <= PAGES * PAGE
    ensures Written(PutAll(s, data), data)
    ensures PutAll(s, data).start == s.start && PutAll(s, data).step == s.step
  {
    hide Written;
    if data == [] {
      WrittenNothing(s);
    } else {
      var n := |data| - 1;
      PutAllWrites(s, data[..n]);
      PutWrites(PutAll(s, data[..n]), data[..n], data[n]);
      assert data[..n] + [data[n]] == data;
    }
  }

  lemma WrittenNothing(s: Stream)
    requires s.Valid() && s.pos == 0 && s.curr == s.start
    ensures Written(s, [])
  {
  }

  /** Every byte of the data is on the plug. */
  ghost predicate Stored(s: Stream, data: seq<byte>) {
    s.Valid() && forall k :: 0 <= k < |data| ==> Load(s, NthPage(s.start, s.step, k / 0x100))[k % 0x100] == data[k]
  }

  lemma FlushStores(s: Stream, data: seq<byte>)
    requires Written(s, data) && |data| <= PAGES * PAGE
    ensures Stored(Flushed(s), data)
  {
    hide NthPage;
    var t, n := Flushed(s), |data| / 0x100;
    forall k | 0 <= k < |data|
      ensures Load(t, NthPage(t.start, t.step, k / 0x100))[k % 0x100] == data[k]
    {
      var j := k / 0x100;
      assert k == j * PAGE + k % 0x100;
      if j < n {
        if s.pos > 0 { PagesDistinct(s.start, s.step, j, n); }
        assert data[j * PAGE..j * PAGE + PAGE][k % 0x100] == data[k];
      } else {
        assert s.buffer[..s.pos][k % 0x100] == data[|data| - s.pos..][k % 0x100];
      }
    }
  }

  /** The bytes read so far, and where the reader stands. */
  ghost predicate ReadUpTo(s: Stream, k: nat) {
    && s.Valid() && s.pos == k % 0x100
    && s.curr == NthPage(s.start, s.step, (k + 0xFF) / 0x100)
    && (s.pos > 0 ==> s.buffer == Load(s, NthPage(s.start, s.step, k / 0x100)))
  }

  lemma GetReads(s: Stream, data: seq<byte>, k: nat)
    requires Stored(s, data) && ReadUpTo(s, k) && k < |data|
    ensures GetByte(s).0 == data[k] && ReadUpTo(GetByte(s).1, k + 1)
    ensures GetByte(s).1 == s.(buffer := GetByte(s).1.buffer, curr := GetByte(s).1.curr, pos := GetByte(s).1.pos)
  {
    hide NthPage;
    var n := k / 0x100;
    PageAfter(s.start, s.step, n);
    assert k == n * PAGE + k % 0x100;
    if k % 0x100 == 0 {
      assert (k + 0xFF) / 0x100 == n && (k + 0x100) / 0x100 == n + 1;
    } else {
      assert (k + 0xFF) / 0x100 == n + 1 && (k + 0x100) / 0x100 == n + 1;
    }
    if k % 0x100 == PAGE - 1 {
      assert (k + 1) % 0x100 == 0;
    } else {
      assert (k + 1) % 0x100 == k % 0x100 + 1 && (k + 1) / 0x100 == n;
    }
  }

  lemma {:induction false} GetAllReads(s: Stream, data: seq<byte>, k: nat)
    requires Stored(s, data) && s.pos == 0 && s.curr == s.start && k <= |data|
    ensures GetAll(s, k).0 == data[..k] && ReadUpTo(GetAll(s, k).1, k) && Stored(GetAll(s, k).1, data)
    ensures GetAll(s, k).1.start == s.start && GetAll(s, k).1.step == s.step && GetAll(s, k).1.pages == s.pages
    decreases k
  {
    hide ReadUpTo, GetByte;
    if k == 0 {
      ReadNothing(s);
    } else {
      GetAllReads(s, data, k - 1);
      GetReads(GetAll(s, k - 1).1, data, k - 1);
    }
  }

  lemma ReadNothing(s: Stream)
    requires s.Valid() && s.pos == 0 && s.curr == s.start
    ensures ReadUpTo(s, 0)
  {
  }

  /** Bytes put, flushed and read again from the start come back, in either page order. */
  lemma StreamRoundTrip(s: Stream, data: seq<byte>)
    requires s.Valid() && s.pos == 0 && s.curr == s.start && |data| <= PAGES * PAGE
    ensures GetAll(Rewound(Flushed(PutAll(s, data))), |data|).0 == data
  {
    hide Written, PutAll, GetAll, PutByte;
    PutAllWrites(s, data);
    FlushStores(PutAll(s, data), data);
    ResetStored(Flushed(PutAll(s, data)), data);
    GetAllReads(Rewound(Flushed(PutAll(s, data))), data, |data|);
    assert data[..|data|] == data;
  }

  // The plug in the end.

  lemma PutElsewhere(t: Stream, data: seq<byte>, b: byte, p: word16)
    requires Written(t, data)
    requires (|data| + 1) / 0x100 > |data| / 0x100 ==> p != NthPage(t.start, t.step, |data| / 0x100)
    ensures Load(PutByte(t, b), p) == Load(t, p)
  {
    hide NthPage, PagesStored;
    if t.pos == PAGE - 1 {
      assert (|data| + 1) / 0x100 == |data| / 0x100 + 1;
    }
  }

  /** Putting bytes changes only the pages that they fill. */
  lemma {:induction false} PutAllElsewhere(s: Stream, data: seq<byte>, p: word16)
    requires s.Valid() && s.pos == 0 && s.curr == s.start && |data| <= PAGES * PAGE
    requires forall j :: 0 <= j < |data| / 0x100 ==> p != NthPage(s.start, s.step, j)
    ensures Load(PutAll(s, data), p) == Load(s, p)
  {
    hide NthPage, PutByte, Load, Written;
    if data != [] {
      var n := |data| - 1;
      PutAllElsewhere(s, data[..n], p);
      PutAllWrites(s, data[..n]);
      PutElsewhere(PutAll(s, data[..n]), data[..n], data[n], p);
    }
  }

  /** A page that none of the data goes to is as before. */
  lemma OtherPages(s: Stream, data: seq<byte>, p: word16)
    requires s.Valid() && s.pos == 0 && s.curr == s.start && |data| <= PAGES * PAGE
    requires forall j: nat :: 256 * j < |data| ==> p != NthPage(s.start, s.step, j)
    ensures Load(Flushed(PutAll(s, data)), p) == Load(s, p)
  {
    hide NthPage, PutAll;
    PutAllElsewhere(s, data, p);
    PutAllWrites(s, data);
    var t, n := PutAll(s, data), |data| / 0x100;
    if t.pos != 0 {
      assert 256 * n < |data|;
    }
  }

  /** Page `j` of the data, the last one filled up with 0xFF. */
  lemma PageHolds(s: Stream, data: seq<byte>, j: nat)
    requires s.Valid() && s.pos == 0 && s.curr == s.start && 256 * j < |data| <= PAGES * PAGE
    ensures
      var page := Load(Flushed(PutAll(s, data)), if s.step == 1 then (s.start + j) % 0x1_0000 else (s.start - j) % 0x1_0000);
      forall i :: 0 <= i < 256 ==> page[i] == if 256 * j + i < |data| then data[256 * j + i] else 0xFF
  {
    hide NthPage, PutAll, Flushed, Load, Stored, Written;
    var t := PutAll(s, data);
    NthPageIs(s.start, s.step, j);
    PutAllWrites(s, data);
    FlushStores(t, data);
    forall i | 0 <= i < 256
      ensures Load(Flushed(t), NthPage(t.start, t.step, j))[i] == if 256 * j + i < |data| then data[256 * j + i] else 0xFF
    {
      PageByte(t, data, j, i);
    }
  }

  lemma PageByte(t: Stream, data: seq<byte>, j: nat, i: nat)
    requires Written(t, data) && Stored(Flushed(t), data) && i < 256 && 256 * j < |data|
    ensures Load(Flushed(t), NthPage(t.start, t.step, j))[i] == if 256 * j + i < |data| then data[256 * j + i] else 0xFF
  {
    hide NthPage, Load, Stored, Written;
    if 256 * j + i < |data| {
      StoredAt(Flushed(t), data, j, i);
    } else {
      FlushPads(t, data, j, i);
    }
  }

  lemma NthPageIs(start: word16, step: int, j: nat)
    requires step == 1 || step == -1
    ensures NthPage(start, step, j) == if step == 1 then (start + j) % 0x1_0000 else (start - j) % 0x1_0000
  {
  }

  lemma StoredAt(u: Stream, data: seq<byte>, j: nat, i: nat)
    requires Stored(u, data) && i < 256 && 256 * j + i < |data|
    ensures Load(u, NthPage(u.start, u.step, j))[i] == data[256 * j + i]
  {
    var k := 256 * j + i;
    assert k / 0x100 == j && k % 0x100 == i;
  }

  lemma FlushPads(t: Stream, data: seq<byte>, j: nat, i: nat)
    requires Written(t, data) && i < 256 && 256 * j < |data| <= 256 * j + i
    ensures Load(Flushed(t), NthPage(t.start, t.step, j))[i] == 0xFF
  {
    hide NthPage;
    assert |data| / 0x100 == j && t.pos == |data| - 256 * j;
  }

  lemma ResetStored(s: Stream, data: seq<byte>)
    requires Stored(s, data)
    ensures Stored(Rewound(s), data)
  {
  }

  /** `position` counts the bytes put, across pages. */
  lemma PositionPut(s: Stream, data: seq<byte>)
    requires Written(s, data) && |data| < PAGES * PAGE
    ensures Position(s, true) == |data|
  {
    hide NthPage;
    PagesPassed(s.start, s.step, |data| / 0x100);
  }

  /** `position` counts the bytes got, exactly up to the start of the last of all pages. */
  lemma PositionGot(s: Stream, k: nat)
    requires ReadUpTo(s, k) && k < PAGES * PAGE
    ensures Position(s, false) == k <==> k <= (PAGES - 1) * PAGE
  {
    hide NthPage;
    var v := (k + 0xFF) / 0x100;
    assert k == k / 0x100 * PAGE + k % 0x100;
    if v < PAGES {
      PagesPassed(s.start, s.step, v);
    } else {
      AllPagesPassed(s.start, s.step);
    }
  }

  lemma AllPagesPassed(start: word16, step: int)
    requires step == 1 || step == -1
    ensures (NthPage(start, step, PAGES) - start) * step % 0x1_0000 == 0
  {
  }

  /** The stream itself. */
  class PlugStream {
    const buffer: array<byte>
    const start: word16
    const step: int
    var pages: map<word16, Page>
    var curr: word16
    var pos: nat

    ghost predicate Valid()
      reads this, buffer
    {
      buffer.Length == PAGE && (step == 1 || step == -1) && pos < PAGE
    }

    ghost function State(): Stream
      requires Valid()
      reads this, buffer
    {
      Stream(pages, start, curr, step, buffer[..], pos)
    }

    constructor (plug: map<word16, Page>, page: word16, forward: bool)
      ensures Valid() && pages == plug && start == page && curr == page && pos == 0
      ensures step == (if forward then 1 else -1) && fresh(buffer)
    {
      buffer := new byte[PAGE](_ => 0);
      start, curr, pages, pos := page, page, plug, 0;
      step := if forward then 1 else -1;
    }

    method Put(data: byte)
      requires Valid()
      modifies `pages, `curr, `pos, buffer
      ensures Valid() && State() == PutByte(old(State()), data)
    {
      buffer[pos] := data;
      pos := (pos + 1) % 0x100;
      if pos == 0 {
        pages := pages[curr := buffer[..]];
        curr := (curr + step) % 0x1_0000;
      }
    }

    method Get() returns (data: byte)
      requires Valid()
      modifies `curr, `pos, buffer
      ensures Valid() && (data, State()) == GetByte(old(State()))
    {
      if pos == 0 {
        var page: Page := if curr in pages then pages[curr] else seq(PAGE, _ => 0xFF);
        forall i | 0 <= i < PAGE {
          buffer[i] := page[i];
        }
        assert buffer[..] == page;
        curr := (curr + step) % 0x1_0000;
      }
      data := buffer[pos];
      pos := (pos + 1) % 0x100;
    }

    method Flush() returns (page: word16)
      requires Valid()
      modifies `pages, buffer
      ensures Valid() && State() == Flushed(old(State())) && page == curr
    {
      if pos != 0 {
        forall i | pos <= i < PAGE {
          buffer[i] := 0xFF;
        }
        assert buffer[..] == old(buffer[..pos]) + seq(PAGE - pos, _ => 0xFF);
        pages := pages[curr := buffer[..]];
      }
      page := curr;
    }

    method Reset()
      requires Valid()
      modifies `curr, `pos
      ensures Valid() && State() == Rewound(old(State()))
    {
      curr := start;
      pos := 0;
    }
  }
}
