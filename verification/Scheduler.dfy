/**
  The task scheduler: countdowns kept relative to the next one to end, so that
  waiting only counts one number down.
 */
module Scheduler {
  import opened Bytes

  const IDLE: word16 := 0xFFFF
  const MAX_TASKS: nat := 127

  // The millisecond timer that supplies the ticks, on a 16-bit clock.

  datatype MilliTimer = MilliTimer(next: word16, armed: bool)

  function SetTimer(t: MilliTimer, now: word16, ms: word16): MilliTimer {
    if ms != 0 then MilliTimer((now + ms - 1) % 0x1_0000, true) else t.(armed := false)
  }

  /** `MilliTimer::poll`: not ready, or ready with the low byte of the lateness. */
  function PollTimer(t: MilliTimer, now: word16, ms: word16): (r: (nat, MilliTimer)) {
    var remain := (t.next - now) % 0x1_0000;
    if t.armed && remain <= 60000 then (0, t)
    else (if t.armed then (-remain) % 0x100 else 0, SetTimer(t, now, ms))
  }

  /**
    A timer set for `ms` milliseconds and polled after `elapsed` reports
    readiness exactly if they have passed, on the 16-bit clock by less than 5535
    ms, and not by a multiple of 256 ms less one.
   */
  lemma TimerEnds(t: MilliTimer, start: word16, ms: word16, elapsed: nat, again: word16)
    requires 0 < ms <= 60000
    ensures
      var (ready, u) := PollTimer(SetTimer(t, start, ms), (start + elapsed) % 0x1_0000, again);
      && (ready != 0 <==> elapsed >= ms && (elapsed - ms) % 0x1_0000 < 5535 && (elapsed - ms + 1) % 0x100 != 0)
      && (elapsed < ms ==> u == SetTimer(t, start, ms))
  {
    Remains(start, ms, elapsed);
    Lateness(ms, elapsed);
  }

  /**
    The poll that finds the time over sets the timer for `again` milliseconds
    from that poll, even if it fails to report readiness.
   */
  lemma TimerRearms(t: MilliTimer, start: word16, ms: word16, elapsed: nat, again: word16)
    requires 0 < ms <= 60000 && elapsed >= ms && (elapsed - ms) % 0x1_0000 < 5535
    ensures
      var now := (start + elapsed) % 0x1_0000;
      var u := PollTimer(SetTimer(t, start, ms), now, again).1;
      && u.armed == (again != 0)
      && (again != 0 ==> u == SetTimer(SetTimer(t, start, ms), now, again) && u.next == (now + again - 1) % 0x1_0000)
  {
    Remains(start, ms, elapsed);
    Lateness(ms, elapsed);
  }

  /** The poll after that is ready when that time is over, and never if there is none. */
  lemma TimerRepeats(t: MilliTimer, start: word16, ms: word16, elapsed: nat, again: word16, more: nat, then_: word16)
    requires 0 < ms <= 60000 && again <= 60000 && elapsed >= ms && (elapsed - ms) % 0x1_0000 < 5535
    ensures
      var now := (start + elapsed) % 0x1_0000;
      var ready := PollTimer(PollTimer(SetTimer(t, start, ms), now, again).1, (now + more) % 0x1_0000, then_).0;
      ready != 0 <==> 0 < again <= more && (more - again) % 0x1_0000 < 5535 && (more - again + 1) % 0x100 != 0
  {
    TimerRearms(t, start, ms, elapsed, again);
    var now := (start + elapsed) % 0x1_0000;
    var u := PollTimer(SetTimer(t, start, ms), now, again).1;
    if again > 0 {
      hide PollTimer;
      TimerEnds(SetTimer(t, start, ms), now, again, more, then_);
    } else {
      assert !u.armed;
    }
  }

  /** What is left on the 16-bit clock, and the low byte of the lateness. */
  lemma Lateness(ms: word16, elapsed: nat)
    requires 0 < ms <= 60000
    ensures
      var remain := (ms - 1 - elapsed) % 0x1_0000;
      && (remain > 60000 <==> elapsed >= ms && (elapsed - ms) % 0x1_0000 < 5535)
      && (elapsed >= ms ==> (-remain) % 0x100 == (elapsed - ms + 1) % 0x100)
  {
    if elapsed >= ms {
      var q, r := (elapsed - ms) / 0x1_0000, (elapsed - ms) % 0x1_0000;
      assert ms - 1 - elapsed == (-q - 1) * 0x1_0000 + (0xFFFF - r);
      LowByteOfLate(q, r);
    }
  }

  lemma Remains(start: word16, ms: word16, elapsed: nat)
    ensures ((start + ms - 1) % 0x1_0000 - (start + elapsed) % 0x1_0000) % 0x1_0000 == (ms - 1 - elapsed) % 0x1_0000
  {
    var a, b := start + ms - 1, start + elapsed;
    var p, q := a / 0x1_0000, b / 0x1_0000;
    var x := a % 0x1_0000 - b % 0x1_0000;
    assert a == 0x1_0000 * p + a % 0x1_0000 && b == 0x1_0000 * q + b % 0x1_0000;
    assert a - b == 0x1_0000 * (p - q) + x;
    SameRemainder(x, p - q);
  }

  lemma SameRemainder(x: int, k: int)
    ensures (0x1_0000 * k + x) % 0x1_0000 == x % 0x1_0000
  {
    var q, r := x / 0x1_0000, x % 0x1_0000;
    assert 0x1_0000 * k + x == 0x1_0000 * (k + q) + r;
  }

  lemma LowByteOfLate(q: nat, r: nat)
    requires r < 0x1_0000
    ensures (-(0xFFFF - r)) % 0x100 == (0x1_0000 * q + r + 1) % 0x100
  {
    var a, b := (r + 1) / 0x100, (r + 1) % 0x100;
    assert r + 1 == 0x100 * a + b;
    LowByte(a - 0x100, b);
    LowByte(0x100 * q + a, b);
  }

  lemma LowByte(k: int, b: nat)
    requires b < 0x100
    ensures (0x100 * k + b) % 0x100 == b
  {
  }

  // The scheduler's variables.

  datatype Schedule = Schedule(tasks: seq<word16>, remaining: word16) {
    /** Every countdown fits a word. */
    ghost predicate Fits() {
      && |tasks| <= MAX_TASKS
      && forall i :: 0 <= i < |tasks| && tasks[i] != IDLE ==> remaining + tasks[i] <= IDLE
    }

    /** Every countdown fits a word with room to spare for the idle mark. */
    ghost predicate Valid() {
      && |tasks| <= MAX_TASKS
      && forall i :: 0 <= i < |tasks| && tasks[i] != IDLE ==> remaining + tasks[i] < IDLE
    }

    /** The plain table of countdowns: the tenths left of each running task. */
    function Due(): (r: seq<Option<nat>>)
      ensures |r| == |tasks|
      ensures forall i :: 0 <= i < |tasks| ==> r[i] == DueOf(i)
    {
      seq(|tasks|, i requires 0 <= i < |tasks| => DueOf(i))
    }

    function DueOf(i: nat): Option<nat>
      requires i < |tasks|
    {
      if tasks[i] == IDLE then None else Some(remaining + tasks[i])
    }
  }

  /** The first task from `i` on that is due. */
  function FirstDue(tasks: seq<word16>, i: nat): (r: nat)
    requires i <= |tasks|
    ensures i <= r <= |tasks|
    ensures forall j :: i <= j < r ==> tasks[j] != 0
    ensures r < |tasks| ==> tasks[r] == 0
    decreases |tasks| - i
  {
    if i == |tasks| || tasks[i] == 0 then i else FirstDue(tasks, i + 1)
  }

  /** The least word of a sequence, or the idle mark. */
  function Lowest(tasks: seq<word16>): (r: word16)
    ensures forall j :: 0 <= j < |tasks| ==> r <= tasks[j]
    ensures r == IDLE || r in tasks
  {
    if tasks == [] then IDLE
    else
      var low := Lowest(tasks[..|tasks| - 1]);
      if tasks[|tasks| - 1] < low then tasks[|tasks| - 1] else low
  }

  lemma LowestOfNone()
    ensures Lowest([]) == IDLE
  {
  }

  lemma LowestNext(tasks: seq<word16>, i: nat)
    requires i < |tasks|
    ensures Lowest(tasks[..i + 1]) == if tasks[i] < Lowest(tasks[..i]) then tasks[i] else Lowest(tasks[..i])
  {
    assert tasks[..i + 1][..i] == tasks[..i];
  }

  lemma FirstDueHere(tasks: seq<word16>, i: nat)
    requires i < |tasks| && tasks[i] == 0
    ensures FirstDue(tasks, i) == i
  {
  }

  lemma FirstDueLater(tasks: seq<word16>, i: nat)
    requires i < |tasks| && tasks[i] != 0
    ensures FirstDue(tasks, i) == FirstDue(tasks, i + 1)
  {
  }

  lemma NoneDue(tasks: seq<word16>)
    ensures FirstDue(tasks, |tasks|) == |tasks|
  {
  }

  function Shift(t: word16, diff: int): word16
    requires t != IDLE ==> 0 <= t + diff <= IDLE
  {
    if t == IDLE then IDLE else t + diff
  }

  function ShiftAll(tasks: seq<word16>, diff: int): (r: seq<word16>)
    requires forall j :: 0 <= j < |tasks| && tasks[j] != IDLE ==> 0 <= tasks[j] + diff <= IDLE
    ensures |r| == |tasks| && forall j :: 0 <= j < |tasks| ==> r[j] == Shift(tasks[j], diff)
  {
    seq(|tasks|, j requires 0 <= j < |tasks| => Shift(tasks[j], diff))
  }

  /** `Scheduler::poll`, where `tick` says whether the timer would report a tenth. */
  function Polled(s: Schedule, tick: bool): (r: (int, Schedule))
    requires s.Fits()
    ensures r.1.Fits() && |r.1.tasks| == |s.tasks| && (s.Valid() ==> r.1.Valid())
  {
    if s.remaining == 0 then
      var i: int := FirstDue(s.tasks, 0);
      if i < |s.tasks| then (i, s.(tasks := s.tasks[i := IDLE]))
      else
        var low: int := Lowest(s.tasks);
        (-1, Schedule(if low != IDLE then ShiftAll(s.tasks, -low) else s.tasks, low))
    else if s.remaining == IDLE then (-2, s)
    else (-1, if tick then s.(remaining := s.remaining - 1) else s)
  }

  /** `Scheduler::timer` */
  function Timed(s: Schedule, task: nat, tenths: nat): (r: Schedule)
    requires s.Fits() && task < |s.tasks| && tenths <= IDLE
    ensures r.Fits() && |r.tasks| == |s.tasks| && (s.Valid() && tenths < IDLE ==> r.Valid())
  {
    if tenths < s.remaining then
      Schedule(ShiftAll(s.tasks, s.remaining - tenths)[task := 0], tenths)
    else
      s.(tasks := s.tasks[task := tenths - s.remaining])
  }

  function Cancelled(s: Schedule, task: nat): (r: Schedule)
    requires s.Fits() && task < |s.tasks|
    ensures r.Fits() && (s.Valid() ==> r.Valid())
  {
    s.(tasks := s.tasks[task := IDLE])
  }

  // What the operations do to the table of countdowns.

  function Lower(d: Option<nat>): Option<nat> {
    match d
    case None => None
    case Some(n) => Some(if n > 0 then n - 1 else 0)
  }

  function LowerAll(due: seq<Option<nat>>): (r: seq<Option<nat>>)
    ensures |r| == |due| && forall i :: 0 <= i < |due| ==> r[i] == Lower(due[i])
  {
    seq(|due|, i requires 0 <= i < |due| => Lower(due[i]))
  }

  ghost predicate AllIdle(due: seq<Option<nat>>) { forall i :: 0 <= i < |due| ==> due[i] == None }

  /** A timer sets its own task's entry and no other, except that the idle mark cancels the task if nothing remains. */
  lemma TimerSetsOne(s: Schedule, task: nat, tenths: nat)
    requires s.Valid() && task < |s.tasks| && tenths <= IDLE
    ensures Timed(s, task, tenths).Due() == s.Due()[task := Some(tenths)] <==> tenths < IDLE || s.remaining > 0
  {
    var t := Timed(s, task, tenths);
    if tenths < IDLE || s.remaining > 0 {
      assert forall j :: 0 <= j < |s.tasks| ==> t.DueOf(j) == s.Due()[task := Some(tenths)][j];
      assert t.Due() == s.Due()[task := Some(tenths)];
    } else {
      assert t.Due()[task] == None;
    }
  }

  /** The entry is set and the scheduler counts: not so for the idle mark when nothing remains or nothing runs. */
  lemma TimerRuns(s: Schedule, task: nat, tenths: nat)
    requires s.Valid() && task < |s.tasks| && tenths <= IDLE
    ensures
      var t := Timed(s, task, tenths);
      t.Due() == s.Due()[task := Some(tenths)] && t.remaining != IDLE <==> tenths < IDLE || 0 < s.remaining < IDLE
  {
    TimerSetsOne(s, task, tenths);
  }

  /** Every countdown stays below the idle mark, except one that was set to it. */
  lemma TimerKeepsBelow(s: Schedule, task: nat, tenths: nat)
    requires s.Valid() && task < |s.tasks| && tenths <= IDLE
    ensures Timed(s, task, tenths).Valid() <==> tenths < IDLE || s.remaining == 0
  {
    var t := Timed(s, task, tenths);
    if tenths == IDLE && s.remaining > 0 {
      assert t.tasks[task] != IDLE && t.remaining + t.tasks[task] == IDLE;
    }
  }

  /** A countdown is lost to a later timer of another task exactly if it stands at the idle mark and the timer at once. */
  lemma LostToTimer(s: Schedule, task: nat, other: nat, tenths: nat)
    requires s.Fits() && task < |s.tasks| && other < |s.tasks| && task != other && tenths < IDLE && s.Due()[task].Some?
    ensures
      Timed(s, other, tenths).Due()[task] != s.Due()[task] <==>
        s.Due()[task] == Some(IDLE) && tenths == 0 && s.remaining > 0
  {
  }

  lemma CancelClearsOne(s: Schedule, task: nat)
    requires s.Valid() && task < |s.tasks|
    ensures Cancelled(s, task).Due() == s.Due()[task := None]
  {
  }

  /**
    A poll takes the first task that is due out of the table. If none is, it
    leaves the table alone or, on a tick, lowers every countdown by one; it says
    -2 only if nothing runs.
   */
  lemma PollStep(s: Schedule, tick: bool)
    requires s.Valid()
    ensures
      var (r, t) := Polled(s, tick);
      && (r >= 0 ==>
            && r < |s.tasks| && s.Due()[r] == Some(0) && (forall j :: 0 <= j < r ==> s.Due()[j] != Some(0))
            && t.Due() == s.Due()[r := None])
      && (r < 0 ==> forall j :: 0 <= j < |s.tasks| ==> s.Due()[j] != Some(0))
      && (r == -1 ==> t.Due() == if tick && 0 < s.remaining < IDLE then LowerAll(s.Due()) else s.Due())
      && (r == -2 ==> t == s && AllIdle(s.Due())) && (r == -2 <==> s.remaining == 0xFFFF)
  {
    hide Lowest, FirstDue, ShiftAll, LowerAll;
    var (r, t) := Polled(s, tick);
    if s.remaining == 0 && r == -1 {
      assert forall j :: 0 <= j < |s.tasks| ==> t.DueOf(j) == s.DueOf(j);
      assert t.Due() == s.Due();
    } else if r == -1 && tick {
      assert forall j :: 0 <= j < |s.tasks| ==> t.DueOf(j) == Lower(s.DueOf(j));
      assert t.Due() == LowerAll(s.Due());
    }
  }

  /** The idle mark in `remaining` means that every task is idle. */
  lemma IdleMeansAllIdle(s: Schedule)
    requires s.Valid() && s.remaining == IDLE
    ensures AllIdle(s.Due())
  {
  }

  // Draining: the tasks that are due come out one per poll, in index order.

  function DueList(due: seq<Option<nat>>, i: nat): (r: seq<nat>)
    requires i <= |due|
    decreases |due| - i
  {
    if i == |due| then []
    else if due[i] == Some(0) then [i] + DueList(due, i + 1)
    else DueList(due, i + 1)
  }

  function Polls(s: Schedule, ticks: seq<bool>): (r: (seq<int>, Schedule))
    requires s.Valid()
    ensures |r.0| == |ticks| && r.1.Valid() && |r.1.tasks| == |s.tasks|
    decreases |ticks|
  {
    if ticks == [] then ([], s)
    else
      var (r, t) := Polled(s, ticks[0]);
      var (rest, u) := Polls(t, ticks[1..]);
      ([r] + rest, u)
  }

  lemma {:induction false} DueListSkips(due: seq<Option<nat>>, i: nat, k: nat)
    requires i <= k <= |due| && forall j :: i <= j < k ==> due[j] != Some(0)
    ensures DueList(due, i) == DueList(due, k)
    decreases k - i
  {
    if i < k {
      DueListSkips(due, i + 1, k);
    }
  }

  lemma {:induction false} DueListAfter(due: seq<Option<nat>>, r: nat, i: nat)
    requires r < i <= |due|
    ensures DueList(due[r := None], i) == DueList(due, i)
    decreases |due| - i
  {
    if i < |due| {
      DueListAfter(due, r, i + 1);
    }
  }

  /** The k tasks that are due are what the next k polls return, in index order. */
  lemma {:induction false} PollsDrain(s: Schedule, ticks: seq<bool>)
    requires s.Valid() && |ticks| == |DueList(s.Due(), 0)|
    ensures Polls(s, ticks).0 == DueList(s.Due(), 0)
    ensures forall j :: 0 <= j < |s.tasks| ==>
      Polls(s, ticks).1.Due()[j] == if s.Due()[j] == Some(0) then None else s.Due()[j]
    decreases |ticks|
  {
    var due := s.Due();
    PollStep(s, if ticks != [] then ticks[0] else false);
    if ticks == [] {
      if j :| 0 <= j < |due| && due[j] == Some(0) {
        DueListContains(due, 0, j);
      }
    } else {
      var (r, t) := Polled(s, ticks[0]);
      if r < 0 {
        DueListSkips(due, 0, |due|);
      }
      DueListSkips(due, 0, r);
      DueListSkips(t.Due(), 0, r + 1);
      DueListAfter(due, r, r + 1);
      PollsDrain(t, ticks[1..]);
    }
  }

  // Runs of polls, timers and cancels.

  datatype Call = PollCall(tick: bool) | TimerCall(task: nat, tenths: nat) | CancelCall(task: nat)

  ghost predicate LegalCall(c: Call, size: nat) {
    match c
    case PollCall(_) => true
    case TimerCall(task, tenths) => task < size && tenths < IDLE
    case CancelCall(task) => task < size
  }

  /** The result of a call, if it is a poll, and what it leaves. */
  function Do(s: Schedule, c: Call): (r: (int, Schedule))
    requires s.Valid() && LegalCall(c, |s.tasks|)
    ensures r.1.Valid() && |r.1.tasks| == |s.tasks|
  {
    match c
    case PollCall(tick) => Polled(s, tick)
    case TimerCall(task, tenths) => (-1, Timed(s, task, tenths))
    case CancelCall(task) => (-1, Cancelled(s, task))
  }

  ghost predicate LegalCalls(calls: seq<Call>, size: nat) {
    forall i :: 0 <= i < |calls| ==> LegalCall(calls[i], size)
  }

  /** The results of some calls, and what they leave. */
  function DoAll(s: Schedule, calls: seq<Call>): (r: (seq<int>, Schedule))
    requires s.Valid() && LegalCalls(calls, |s.tasks|)
    ensures |r.0| == |calls| && r.1.Valid() && |r.1.tasks| == |s.tasks|
    decreases |calls|
  {
    if calls == [] then ([], s)
    else
      var (r, t) := Do(s, calls[0]);
      var (rest, u) := DoAll(t, calls[1..]);
      ([r] + rest, u)
  }

  /** A poll that counts a tenth: one is over while the scheduler is counting. */
  predicate Counts(s: Schedule, c: Call) { c.PollCall? && c.tick && 0 < s.remaining < IDLE }

  /** The tenths counted during some calls. */
  function Tenths(s: Schedule, calls: seq<Call>): nat
    requires s.Valid() && LegalCalls(calls, |s.tasks|)
    decreases |calls|
  {
    if calls == [] then 0
    else (if Counts(s, calls[0]) then 1 else 0) + Tenths(Do(s, calls[0]).1, calls[1..])
  }

  /** No call sets or cancels the task. */
  ghost predicate Leaves(calls: seq<Call>, task: nat) {
    forall i :: 0 <= i < |calls| ==> calls[i].PollCall? || calls[i].task != task
  }

  /** One call that does not touch a waiting task, or return it, only counts its time down. */
  lemma CallCounts(s: Schedule, c: Call, task: nat)
    requires s.Valid() && LegalCall(c, |s.tasks|) && task < |s.tasks| && s.Due()[task].Some?
    requires (c.PollCall? || c.task != task) && Do(s, c).0 != task
    ensures
      var left := s.Due()[task].value;
      && (Counts(s, c) ==> left > 0)
      && Do(s, c).1.Due()[task] == Some(if Counts(s, c) then left - 1 else left)
  {
    hide Timed, Cancelled, Lowest, FirstDue, ShiftAll;
    match c
    case PollCall(tick) => PollStep(s, tick);
    case TimerCall(t, tenths) => TimerSetsOne(s, t, tenths);
    case CancelCall(t) => CancelClearsOne(s, t);
  }

  lemma {:induction false} CallsCount(s: Schedule, calls: seq<Call>, task: nat)
    requires s.Valid() && LegalCalls(calls, |s.tasks|) && task < |s.tasks| && s.Due()[task].Some?
    requires Leaves(calls, task) && task !in DoAll(s, calls).0
    ensures Tenths(s, calls) <= s.Due()[task].value
    ensures DoAll(s, calls).1.Due()[task] == Some(s.Due()[task].value - Tenths(s, calls))
    decreases |calls|
  {
    hide Do, Counts;
    if calls != [] {
      var (r, t) := Do(s, calls[0]);
      var rest := DoAll(t, calls[1..]).0;
      assert DoAll(s, calls).0 == [r] + rest;
      assert ([r] + rest)[0] == r && forall x :: x in rest ==> x in [r] + rest;
      CallCounts(s, calls[0], task);
      CallsCount(t, calls[1..], task);
    }
  }

  /**
    A task set for some tenths, and neither set again nor cancelled, is returned
    only after exactly that many tenths are counted; and once they are, by the
    time all tasks that are due have been returned.
   */
  lemma TaskWaitsExactly(s: Schedule, task: nat, tenths: nat, calls: seq<Call>, tick: bool, ticks: seq<bool>)
    requires s.Valid() && task < |s.tasks| && tenths < IDLE && LegalCalls(calls, |s.tasks|) && Leaves(calls, task)
    requires
      var begun := Timed(s, task, tenths);
      && task !in DoAll(begun, calls).0
      && |ticks| == |DueList(DoAll(begun, calls).1.Due(), 0)|
    ensures
      var begun := Timed(s, task, tenths);
      var (_, now) := DoAll(begun, calls);
      && (Polled(now, tick).0 == task ==> Tenths(begun, calls) == tenths)
      && (Tenths(begun, calls) == tenths ==> task in Polls(now, ticks).0)
  {
    hide Timed, DoAll, Tenths, Polled, Polls;
    var begun := Timed(s, task, tenths);
    TimerSetsOne(s, task, tenths);
    CallsCount(begun, calls, task);
    var now := DoAll(begun, calls).1;
    PollStep(now, tick);
    PollsDrain(now, ticks);
    if Tenths(begun, calls) == tenths {
      DueListContains(now.Due(), 0, task);
    }
  }

  lemma {:induction false} DueListContains(due: seq<Option<nat>>, i: nat, j: nat)
    requires i <= j < |due| && due[j] == Some(0)
    ensures j in DueList(due, i)
    decreases j - i
  {
    if i < j {
      DueListContains(due, i + 1, j);
    }
  }

  // The scheduler itself.

  class Tasks {
    const tasks: array<word16>
    var remaining: word16
    var ms100: MilliTimer

    ghost function State(): Schedule
      reads this, tasks
    {
      Schedule(tasks[..], remaining)
    }

    constructor (size: nat)
      requires size <= MAX_TASKS
      ensures State().Valid() && AllIdle(State().Due()) && tasks.Length == size && fresh(tasks)
    {
      tasks := new word16[size](_ => IDLE);
      remaining := IDLE;
      ms100 := MilliTimer(0, false);
    }

    /** Adds `diff` to the countdown of every running task. */
    method MoveAll(diff: int)
      requires forall j :: 0 <= j < tasks.Length && tasks[j] != IDLE ==> 0 <= tasks[j] + diff <= IDLE
      modifies tasks
      ensures tasks[..] == ShiftAll(old(tasks[..]), diff)
    {
      for i := 0 to tasks.Length
        invariant forall j :: 0 <= j < i ==> tasks[j] == Shift(old(tasks[j]), diff)
        invariant forall j :: i <= j < tasks.Length ==> tasks[j] == old(tasks[j])
      {
        if tasks[i] != IDLE {
          tasks[i] := tasks[i] + diff;
        }
      }
    }

    /** The task to run, -1 if none is ready, or -2 if none is waiting. */
    method Poll(now: word16) returns (task: int)
      requires State().Fits()
      modifies this, tasks
      ensures (task, State()) == Polled(old(State()), PollTimer(old(ms100), now, 100).0 != 0)
      ensures State().Fits() && (old(State()).Valid() ==> State().Valid())
      ensures ms100 == if old(remaining) == 0 || old(remaining) == IDLE then
                         (if task == -1 && remaining == IDLE then SetTimer(old(ms100), now, 0) else old(ms100))
                       else PollTimer(old(ms100), now, 100).1
    {
      hide PollTimer, SetTimer;
      if remaining == 0 {
        task := TakeOrRebase(now);
      } else if remaining == IDLE {
        task := -2;
      } else {
        var (ready, t) := PollTimer(ms100, now, 100);
        ms100 := t;
        if ready != 0 {
          remaining := remaining - 1;
        }
        task := -1;
      }
    }

    /** The part of `poll` for when the countdown has ended. */
    method TakeOrRebase(now: word16) returns (task: int)
      requires State().Fits() && remaining == 0
      modifies this, tasks
      ensures (task, State()) == Polled(old(State()), false)
      ensures ms100 == if task == -1 && remaining == IDLE then SetTimer(old(ms100), now, 0) else old(ms100)
    {
      hide SetTimer, Lowest, FirstDue, Shift;
      LowestOfNone();
      var lowest: word16 := IDLE;
      for i := 0 to tasks.Length
        invariant unchanged(this) && tasks[..] == old(tasks[..])
        invariant lowest == Lowest(tasks[..i])
        invariant FirstDue(tasks[..], 0) == FirstDue(tasks[..], i)
      {
        if tasks[i] == 0 {
          FirstDueHere(tasks[..], i);
          tasks[i] := IDLE;
          return i;
        }
        FirstDueLater(tasks[..], i);
        LowestNext(tasks[..], i);
        if tasks[i] < lowest {
          lowest := tasks[i];
        }
      }
      assert tasks[..tasks.Length] == tasks[..];
      NoneDue(tasks[..]);
      if lowest != IDLE {
        MoveAll(-(lowest as int));
      } else {
        ms100 := SetTimer(ms100, now, 0);
      }
      remaining := lowest;
      task := -1;
    }

    method Timer(task: nat, tenths: nat)
      requires State().Fits() && task < tasks.Length && tenths <= IDLE
      modifies `remaining, tasks
      ensures State() == Timed(old(State()), task, tenths) && State().Fits() && (old(State()).Valid() && tenths < IDLE ==> State().Valid())
    {
      if tenths < remaining {
        var diff := remaining - tenths;
        MoveAll(diff);
        remaining := tenths;
      }
      tasks[task] := tenths - remaining;
    }

    method Cancel(task: nat)
      requires State().Fits() && task < tasks.Length
      modifies tasks
      ensures State() == Cancelled(old(State()), task) && State().Fits() && (old(State()).Valid() ==> State().Valid())
    {
      tasks[task] := IDLE;
    }
  }
}
