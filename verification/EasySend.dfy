/**
  The easy-send layer of the RF12 driver: one payload at a time, repeated until
  acknowledged, with limits on how often. Time is in milliseconds.
 */
module EasySend {
  import opened Bytes

  const RETRIES: nat := 8
  const RETRY_MS: nat := 1000
  const RF12_868MHZ: nat := 2

  datatype Easy = Easy(
    interval: nat,      // seconds between new payloads
    data: seq<byte>,    // the first ezSendLen bytes of ezSendBuf
    pending: nat,       // transmissions left
    nextRetry: int,     // ezNextSend[0]
    nextData: int)      // ezNextSend[1]

  const INITIAL := Easy(0, [], 0, 0, 0)

  /** The least time after sending a new payload of `len` bytes until the next one. */
  function Gap(interval: nat, band: nat, len: nat): nat {
    if interval > 0 then 1000 * interval
    else if band == RF12_868MHZ then 13 * (len + 10)
    else 100
  }

  /** `rf12_easySend`; no data stands for the call that forces a repetition. */
  function Submit(e: Easy, data: Option<seq<byte>>): (r: (bool, Easy)) {
    if data.Some? && data.value != [] then
      if e.nextRetry == 0 && data.value == e.data then (false, e)
      else (true, e.(data := data.value, pending := RETRIES))
    else
      (true, e.(pending := RETRIES))
  }

  /** The start of `rf12_easyPoll`: a matching acknowledgement came in. */
  function Acknowledge(e: Easy): Easy { e.(pending := 0, nextRetry := 0) }

  predicate Due(e: Easy, now: int) {
    e.pending > 0 && now >= if e.pending == RETRIES then e.nextData else e.nextRetry
  }

  /** The end of `rf12_easyPoll`: the payload goes out. */
  function Transmit(e: Easy, now: int, band: nat): Easy
    requires e.pending > 0
  {
    e.(nextRetry := now + RETRY_MS,
       nextData := if e.pending == RETRIES then now + Gap(e.interval, band, |e.data|) else e.nextData,
       pending := e.pending - 1)
  }

  // Runs: any interleaving of calls, and the history it leaves.

  datatype Event =
    | Configure(secs: nat)
    | Send(data: Option<seq<byte>>)
    | Poll(now: int, ack: bool, free: bool)

  datatype Mark =
    | Configured(secs: nat)
    | Accepted(payload: Option<seq<byte>>)
    | Suppressed(data: seq<byte>)
    | Acked
    | Sent(at: int, data: seq<byte>)

  type History = seq<Mark>

  function Step(e: Easy, ev: Event, band: nat): (r: (Easy, History)) {
    match ev
    case Configure(secs) => (e.(interval := secs), [Configured(secs)])
    case Send(data) =>
      var (ok, f) := Submit(e, data);
      if ok then (f, [Accepted(if data.Some? && data.value != [] then data else None)])
      else (f, [Suppressed(data.value)])
    case Poll(now, ack, free) =>
      var f, h := if ack then Acknowledge(e) else e, if ack then [Acked] else [];
      if Due(f, now) && free then (Transmit(f, now, band), h + [Sent(now, f.data)]) else (f, h)
  }

  function Run(events: seq<Event>, band: nat): (r: (Easy, History)) {
    if events == [] then (INITIAL, [])
    else
      var (e, h) := Run(events[..|events| - 1], band);
      var (f, more) := Step(e, events[|events| - 1], band);
      (f, h + more)
  }

  /** The clock never runs backwards. */
  ghost predicate Ordered(events: seq<Event>) {
    && (forall i :: 0 <= i < |events| && events[i].Poll? ==> events[i].now >= 0)
    && (forall i, j :: 0 <= i < j < |events| && events[i].Poll? && events[j].Poll? ==> events[i].now <= events[j].now)
  }

  // What a history says, read from its end.

  function Init(h: History): History
    requires h != []
  {
    h[..|h| - 1]
  }

  function Last(h: History): Mark
    requires h != []
  {
    h[|h| - 1]
  }

  /** The interval configured last. */
  function IntervalOf(h: History): nat {
    if h == [] then 0 else if Last(h).Configured? then Last(h).secs else IntervalOf(Init(h))
  }

  /** The payload installed last. */
  function Installed(h: History): seq<byte> {
    if h == [] then []
    else if Last(h).Accepted? && Last(h).payload.Some? then Last(h).payload.value
    else Installed(Init(h))
  }

  /** Transmissions since the last accepted submit. */
  function SentSinceSubmit(h: History): nat {
    if h == [] || Last(h).Accepted? then 0
    else (if Last(h).Sent? then 1 else 0) + SentSinceSubmit(Init(h))
  }

  /** A submit was accepted, and not acknowledged yet. */
  predicate Open(h: History) {
    h != [] && !Last(h).Acked? && (Last(h).Accepted? || Open(Init(h)))
  }

  /** The time of the last transmission, unless it was acknowledged. */
  function Unacked(h: History): Option<int> {
    if h == [] || Last(h).Acked? then None
    else if Last(h).Sent? then Some(Last(h).at)
    else Unacked(Init(h))
  }

  /** The next transmission would be the first attempt for its submit. */
  predicate First(h: History) { SentSinceSubmit(h) == 0 }

  /** A new payload may go out at `now` after every first attempt in the history. */
  ghost predicate Spaced(h: History, now: int, band: nat) {
    forall i :: 0 <= i < |h| && h[i].Sent? && First(h[..i]) ==>
      now >= h[i].at + Gap(IntervalOf(h[..i]), band, |h[i].data|)
  }

  /** What the layer promises about one more mark after a history. */
  ghost predicate Allowed(h: History, m: Mark, band: nat) {
    match m
    case Sent(at, data) =>
      && Open(h) && SentSinceSubmit(h) < RETRIES && data == Installed(h)
      && (First(h) ==> Spaced(h, at, band))
      && (!First(h) ==> Unacked(h).Some? && at >= Unacked(h).value + RETRY_MS)
    case Suppressed(data) =>
      data != [] && data == Installed(h) && Unacked(h) == None
    case Accepted(Some(data)) =>
      data != Installed(h) || Unacked(h).Some?
    case _ => true
  }

  ghost predicate Proper(h: History, band: nat) {
    forall i :: 0 <= i < |h| ==> Allowed(h[..i], h[i], band)
  }

  /** The variables say what the history says. */
  ghost predicate Agrees(e: Easy, h: History, band: nat, clock: int) {
    && e.interval == IntervalOf(h) && e.data == Installed(h)
    && e.pending == (if Open(h) then RETRIES - SentSinceSubmit(h) else 0)
    && (Open(h) ==> SentSinceSubmit(h) <= RETRIES)
    && e.nextRetry == (if Unacked(h).Some? then Unacked(h).value + RETRY_MS else 0)
    && (Unacked(h).Some? ==> 0 <= Unacked(h).value <= clock)
    && (Open(h) && SentSinceSubmit(h) > 0 ==> Unacked(h).Some?)
    && Spaced(h, e.nextData, band)
  }

  lemma Extend(h: History, m: Mark, band: nat)
    requires Proper(h, band) && Allowed(h, m, band)
    ensures Proper(h + [m], band)
    ensures Init(h + [m]) == h && Last(h + [m]) == m
  {
    hide Allowed;
    var g := h + [m];
    forall i | 0 <= i < |g| ensures Allowed(g[..i], g[i], band) {
      assert g[..i] == h[..i];
      if i == |h| {
        assert h[..i] == h;
      }
    }
  }

  lemma ExtendSpaced(h: History, m: Mark, now: int, band: nat)
    requires Spaced(h, now, band)
    requires m.Sent? && First(h) ==> now >= m.at + Gap(IntervalOf(h), band, |m.data|)
    ensures Spaced(h + [m], now, band)
  {
    hide First, IntervalOf, Gap;
    var g := h + [m];
    forall i | 0 <= i < |g| && g[i].Sent? && First(g[..i])
      ensures now >= g[i].at + Gap(IntervalOf(g[..i]), band, |g[i].data|)
    {
      assert g[..i] == h[..i];
      if i == |h| {
        assert h[..i] == h;
      }
    }
  }

  lemma ConfigureStep(e: Easy, h: History, secs: nat, band: nat, clock: int)
    requires Agrees(e, h, band, clock) && Proper(h, band)
    ensures Agrees(e.(interval := secs), h + [Configured(secs)], band, clock)
    ensures Proper(h + [Configured(secs)], band)
  {
    hide Spaced, Proper;
    Extend(h, Configured(secs), band);
    ExtendSpaced(h, Configured(secs), e.nextData, band);
  }

  lemma SubmitStep(e: Easy, h: History, data: Option<seq<byte>>, band: nat, clock: int)
    requires Agrees(e, h, band, clock) && Proper(h, band)
    ensures
      var (f, more) := Step(e, Send(data), band);
      Agrees(f, h + more, band, clock) && Proper(h + more, band)
  {
    hide Spaced, Proper;
    var m := Step(e, Send(data), band).1[0];
    assert Allowed(h, m, band);
    Extend(h, m, band);
    ExtendSpaced(h, m, e.nextData, band);
    if m.Suppressed? {
      Ignored(e, h, m, band, clock);
    } else {
      Opened(e, h, m, band, clock);
    }
  }

  lemma Ignored(e: Easy, h: History, m: Mark, band: nat, clock: int)
    requires Agrees(e, h, band, clock) && m.Suppressed? && Spaced(h + [m], e.nextData, band)
    ensures Agrees(e, h + [m], band, clock)
  {
    hide Spaced;
    assert Init(h + [m]) == h;
  }

  lemma Opened(e: Easy, h: History, m: Mark, band: nat, clock: int)
    requires Agrees(e, h, band, clock) && m.Accepted? && Spaced(h + [m], e.nextData, band)
    ensures
      var data := if m.payload.Some? then m.payload.value else e.data;
      Agrees(e.(data := data, pending := RETRIES), h + [m], band, clock)
  {
    hide Spaced;
    assert Init(h + [m]) == h;
  }

  lemma AckStep(e: Easy, h: History, band: nat, clock: int)
    requires Agrees(e, h, band, clock) && Proper(h, band)
    ensures Agrees(Acknowledge(e), h + [Acked], band, clock) && Proper(h + [Acked], band)
  {
    hide Spaced, Proper;
    Extend(h, Acked, band);
    ExtendSpaced(h, Acked, e.nextData, band);
  }

  lemma LaterSpaced(h: History, now: int, later: int, band: nat)
    requires Spaced(h, now, band) && now <= later
    ensures Spaced(h, later, band)
  {
    hide First, IntervalOf, Gap;
  }

  lemma SendStep(e: Easy, h: History, now: int, band: nat, clock: int)
    requires Agrees(e, h, band, clock) && Proper(h, band) && Due(e, now) && 0 <= now && clock <= now
    ensures Agrees(Transmit(e, now, band), h + [Sent(now, e.data)], band, now)
    ensures Proper(h + [Sent(now, e.data)], band)
  {
    hide Spaced, Proper, Gap;
    var m := Sent(now, e.data);
    var f := Transmit(e, now, band);
    if First(h) {
      LaterSpaced(h, e.nextData, now, band);
      LaterSpaced(h, now, f.nextData, band);
    }
    Extend(h, m, band);
    ExtendSpaced(h, m, f.nextData, band);
  }

  function Clock(events: seq<Event>): int {
    if events == [] then 0
    else if events[|events| - 1].Poll? then events[|events| - 1].now
    else Clock(events[..|events| - 1])
  }

  lemma {:induction false} ClockBound(events: seq<Event>)
    requires Ordered(events)
    ensures Clock(events) >= 0
    ensures Clock(events) == 0 || exists i :: 0 <= i < |events| && events[i].Poll? && events[i].now == Clock(events)
  {
    if events != [] {
      var init := events[..|events| - 1];
      ClockBound(init);
      if events[|events| - 1].Poll? {
        assert events[|events| - 1].now == Clock(events);
      } else if Clock(init) != 0 {
        var i :| 0 <= i < |init| && init[i].Poll? && init[i].now == Clock(init);
        assert events[i].now == Clock(events);
      }
    }
  }

  /**
    Every run of submits, acknowledgements and polls leaves a history in which
    each transmission, suppression and acceptance was allowed.
   */
  lemma {:induction false} RunProper(events: seq<Event>, band: nat)
    requires Ordered(events)
    ensures Proper(Run(events, band).1, band)
    ensures Agrees(Run(events, band).0, Run(events, band).1, band, Clock(events))
  {
    hide Proper, Spaced;
    if events == [] {
      assert Proper([], band) && Spaced([], 0, band) by { EmptyHistory(band); }
    } else {
      var init, ev := events[..|events| - 1], events[|events| - 1];
      RunProper(init, band);
      var (e, h) := Run(init, band);
      if ev.Poll? {
        ClockBound(init);
        PollStep(e, h, ev, band, Clock(init));
      } else {
        match ev
        case Configure(secs) => ConfigureStep(e, h, secs, band, Clock(init));
        case Send(data) => SubmitStep(e, h, data, band, Clock(init));
      }
    }
  }

  lemma EmptyHistory(band: nat)
    ensures Proper([], band) && Spaced([], 0, band)
  {
  }

  lemma PollStep(e: Easy, h: History, ev: Event, band: nat, clock: int)
    requires Agrees(e, h, band, clock) && Proper(h, band) && ev.Poll? && 0 <= ev.now && clock <= ev.now
    ensures
      var (f, more) := Step(e, ev, band);
      Agrees(f, h + more, band, ev.now) && Proper(h + more, band)
  {
    hide Proper, Spaced, IntervalOf, Installed, SentSinceSubmit, Open, Unacked, Due, Transmit, Acknowledge;
    var f, g := if ev.ack then Acknowledge(e) else e, if ev.ack then h + [Acked] else h;
    if ev.ack {
      AckStep(e, h, band, clock);
    }
    if Due(f, ev.now) && ev.free {
      SendStep(f, g, ev.now, band, clock);
      var more := (if ev.ack then [Acked] else []) + [Sent(ev.now, f.data)];
      assert h + more == g + [Sent(ev.now, f.data)];
    }
    assert h + [] == h;
  }

  // What the histories of all runs have in common, spelled out.

  /** At most eight transmissions follow an accepted submit, all of the payload installed last. */
  lemma AtMostRetries(events: seq<Event>, band: nat, i: nat)
    requires Ordered(events) && i < |Run(events, band).1| && Run(events, band).1[i].Sent?
    ensures
      var h := Run(events, band).1;
      Open(h[..i]) && SentSinceSubmit(h[..i + 1]) <= 8 && h[i].data == Installed(h[..i])
  {
    RunProper(events, band);
    var h := Run(events, band).1;
    assert Allowed(h[..i], h[i], band);
    assert Init(h[..i + 1]) == h[..i];
  }

  /** Two first attempts are at least the interval configured at the earlier one apart. */
  lemma FirstAttemptsApart(events: seq<Event>, band: nat, i: nat, j: nat)
    requires Ordered(events) && i < j < |Run(events, band).1|
    requires Run(events, band).1[i].Sent? && Run(events, band).1[j].Sent?
    requires First(Run(events, band).1[..i]) && First(Run(events, band).1[..j])
    ensures
      var h := Run(events, band).1;
      h[j].at >= h[i].at + Gap(IntervalOf(h[..i]), band, |h[i].data|)
  {
    hide First, IntervalOf, Gap;
    RunProper(events, band);
    var h := Run(events, band).1;
    assert Allowed(h[..j], h[j], band);
    assert h[..j][..i] == h[..i] && h[..j][i] == h[i];
  }

  lemma {:induction false} UnackedIsLastSent(h: History) returns (i: nat)
    requires Unacked(h).Some?
    ensures i < |h| && h[i].Sent? && h[i].at == Unacked(h).value
    ensures forall k :: i < k < |h| ==> !h[k].Sent? && !h[k].Acked?
  {
    if Last(h).Sent? {
      i := |h| - 1;
    } else {
      i := UnackedIsLastSent(Init(h));
    }
  }

  /** A repetition comes at least a second after the transmission before it. */
  lemma RetriesApart(events: seq<Event>, band: nat, j: nat) returns (i: nat)
    requires Ordered(events) && j < |Run(events, band).1|
    requires Run(events, band).1[j].Sent? && !First(Run(events, band).1[..j])
    ensures i < j && Run(events, band).1[i].Sent?
    ensures forall k :: i < k < j ==> !Run(events, band).1[k].Sent?
    ensures Run(events, band).1[j].at >= Run(events, band).1[i].at + 1000
  {
    hide First;
    RunProper(events, band);
    var h := Run(events, band).1;
    assert Allowed(h[..j], h[j], band);
    i := UnackedIsLastSent(h[..j]);
    assert h[..j][i] == h[i];
    forall k | i < k < j ensures !h[k].Sent? {
      assert h[..j][k] == h[k];
    }
  }

  /** A submit is suppressed exactly when it repeats the installed payload and nothing is unacknowledged. */
  lemma SuppressedExactly(events: seq<Event>, band: nat, data: Option<seq<byte>>)
    requires Ordered(events)
    ensures
      var (e, h) := Run(events, band);
      !Submit(e, data).0 <==> data.Some? && data.value != [] && data.value == Installed(h) && Unacked(h) == None
  {
    RunProper(events, band);
  }

  /** With nothing unacknowledged, an acknowledgement came after mark `i` or nothing was sent after it. */
  lemma {:induction false} NothingUnacked(h: History, i: nat)
    requires Unacked(h) == None && i < |h|
    ensures (exists k :: i < k < |h| && h[k].Acked?) || (forall k :: i < k < |h| ==> !h[k].Sent?)
  {
    var n := |h| - 1;
    if i < n {
      if h[n].Acked? {
      } else {
        NothingUnacked(Init(h), i);
        if k :| i < k < n && Init(h)[k].Acked? {
          assert h[k].Acked?;
        } else {
          forall k | i < k < |h| ensures !h[k].Sent? {
            if k < n { assert h[k] == Init(h)[k]; }
          }
        }
      }
    }
  }
}
