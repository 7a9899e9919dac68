/** Power-down sleep in watchdog naps, with the clock corrected for the time lost. */
module Sleepy {
  import opened Bytes

  /** Half the length in milliseconds of a nap of watchdog period `wdp`. */
  function HalfNap(wdp: nat): (ms: nat)
    ensures ms >= 8
  {
    if wdp == 0 then 8 else 2 * HalfNap(wdp - 1)
  }

  function NapLength(wdp: nat): nat {
    2 * HalfNap(wdp)
  }

  /** The ten lengths in milliseconds. */
  lemma NapLengths()
    ensures NapLength(0) == 16 && NapLength(1) == 32 && NapLength(2) == 64 && NapLength(3) == 128 && NapLength(4) == 256
    ensures NapLength(5) == 512 && NapLength(6) == 1024 && NapLength(7) == 2048 && NapLength(8) == 4096 && NapLength(9) == 8192
  {
    assert HalfNap(2) == 32;
    assert HalfNap(4) == 128;
    assert HalfNap(6) == 512;
    assert HalfNap(8) == 2048;
  }

  /** The watchdog period chosen with `ms` milliseconds to go. */
  function Period(ms: nat): (wdp: nat)
    requires ms >= 16
    ensures wdp <= 9
    ensures NapLength(wdp) <= ms && (wdp < 9 ==> ms < 2 * NapLength(wdp))
  {
    PeriodFrom(ms, 0)
  }

  function PeriodFrom(ms: nat, wdp: nat): (r: nat)
    requires wdp <= 9 && NapLength(wdp) <= ms
    ensures wdp <= r <= 9
    ensures NapLength(r) <= ms && (r < 9 ==> ms < 2 * NapLength(r))
    decreases 9 - wdp
  {
    if wdp < 9 && NapLength(wdp + 1) <= ms then PeriodFrom(ms, wdp + 1) else wdp
  }

  /** The naps taken to sleep for `ms` milliseconds if nap `j` is interrupted when `wakes(j)`, from nap `i`. */
  function Naps(ms: nat, wakes: nat -> bool, i: nat): (naps: seq<nat>)
    ensures forall k :: 0 <= k < |naps| ==> naps[k] <= 9
    decreases ms
  {
    if ms < 16 then []
    else if wakes(i) then [Period(ms)]
    else [Period(ms)] + Naps(ms - NapLength(Period(ms)), wakes, i + 1)
  }

  /** What is left of `ms` milliseconds in the end. */
  function Left(ms: nat, wakes: nat -> bool, i: nat): (left: nat)
    ensures left <= ms
    decreases ms
  {
    if ms < 16 then ms
    else if wakes(i) then ms - HalfNap(Period(ms))
    else Left(ms - NapLength(Period(ms)), wakes, i + 1)
  }

  /** The time taken by naps, half of the last one if it was interrupted. */
  function Slept(naps: seq<nat>, interrupted: bool): nat {
    if naps == [] then 0
    else if |naps| == 1 && interrupted then HalfNap(naps[0])
    else NapLength(naps[0]) + Slept(naps[1..], interrupted)
  }

  /** Whether the last of `count` naps, counted from nap `i`, was interrupted. */
  predicate Interrupted(count: nat, wakes: nat -> bool, i: nat) {
    count > 0 && wakes(i + count - 1)
  }

  /**
    The time accounted for is that of the completed naps and half of an
    interrupted one, which is the last; uninterrupted, less than 16 ms are left.
   */
  lemma {:induction false} NapsAccounted(ms: nat, wakes: nat -> bool, i: nat)
    ensures ms - Left(ms, wakes, i) == Slept(Naps(ms, wakes, i), Interrupted(|Naps(ms, wakes, i)|, wakes, i))
    ensures !Interrupted(|Naps(ms, wakes, i)|, wakes, i) ==> Left(ms, wakes, i) < 16
    ensures forall j :: i <= j < i + |Naps(ms, wakes, i)| - 1 ==> !wakes(j)
    decreases ms
  {
    hide PeriodFrom, Period, HalfNap;
    if ms >= 16 && !wakes(i) {
      var rest := ms - NapLength(Period(ms));
      NapsAccounted(rest, wakes, i + 1);
      assert Naps(ms, wakes, i)[1..] == Naps(rest, wakes, i + 1);
    }
  }

  /** `Sleepy::loseSomeTime`: whether the time was lost undisturbed, the new clock, and the naps taken for it. */
  method LoseSomeTime(msecs: word16, wakes: nat -> bool, clock: nat) returns (ok: bool, now: nat, naps: seq<nat>)
    ensures naps == Naps(msecs, wakes, 0) && now == (clock + Slept(naps, !ok)) % 0x1_0000_0000
    ensures now == (clock + msecs - Left(msecs, wakes, 0)) % 0x1_0000_0000
    ensures ok <==> !Interrupted(|Naps(msecs, wakes, 0)|, wakes, 0)
    ensures ok ==> Left(msecs, wakes, 0) < 16
  {
    hide PeriodFrom, Period, Halved, HalfNap, Naps, Left, Slept;
    NapsAccounted(msecs, wakes, 0);
    ok, naps := true, [];
    var msleft: nat := msecs;
    while msleft >= 16
      invariant ok && (forall k :: 0 <= k < |naps| ==> !wakes(k))
      invariant Left(msecs, wakes, 0) == Left(msleft, wakes, |naps|)
      invariant naps + Naps(msleft, wakes, |naps|) == Naps(msecs, wakes, 0)
      decreases msleft
    {
      NapTaken(msleft, wakes, naps);
      var wdp := ChoosePeriod(msleft);
      naps := naps + [wdp];
      var half := HalfNap(wdp);
      msleft := msleft - half;
      if wakes(|naps| - 1) {
        ok := false;
        break;
      }
      msleft := msleft - half;
    }
    if ok { NapsOver(msleft, wakes, naps); }
    now := (clock + msecs - msleft) % 0x1_0000_0000;
  }

  lemma NapTaken(ms: nat, wakes: nat -> bool, naps: seq<nat>)
    requires ms >= 16
    ensures
      var i, p := |naps|, Period(ms);
      && naps + Naps(ms, wakes, i) == naps + [p] + (if wakes(i) then [] else Naps(ms - NapLength(p), wakes, i + 1))
      && Left(ms, wakes, i) == if wakes(i) then ms - HalfNap(p) else Left(ms - NapLength(p), wakes, i + 1)
  {
    hide Period, HalfNap;
  }

  lemma NapsOver(ms: nat, wakes: nat -> bool, naps: seq<nat>)
    requires ms < 16
    ensures naps + Naps(ms, wakes, |naps|) == naps && Left(ms, wakes, |naps|) == ms
  {
  }

  /** The loop that picks the watchdog period by halving the time left. */
  method ChoosePeriod(msleft: nat) returns (wdp: nat)
    requires msleft >= 16
    ensures wdp == Period(msleft)
  {
    wdp := 0;
    var m := msleft;
    while m >= 32
      invariant wdp < 9 && m >= 16 && m == Halved(msleft, wdp)
      invariant NapLength(wdp) <= msleft && PeriodFrom(msleft, wdp) == Period(msleft)
      decreases m
    {
      HalvedBounds(msleft, wdp);
      wdp := wdp + 1;
      if wdp >= 9 { break; }
      m := m / 2;
    }
    HalvedBounds(msleft, wdp);
  }

  /** `ms` halved `n` times. */
  function Halved(ms: nat, n: nat): nat {
    if n == 0 then ms else Halved(ms, n - 1) / 2
  }

  lemma {:induction false} HalvedBounds(ms: nat, n: nat)
    ensures Halved(ms, n) >= 16 <==> NapLength(n) <= ms
    ensures Halved(ms, n) >= 32 <==> 2 * NapLength(n) <= ms
  {
    HalvedAtLeast(ms, n, 16);
    HalvedAtLeast(ms, n, 32);
  }

  lemma {:induction false} HalvedAtLeast(ms: nat, n: nat, k: nat)
    requires k == 16 || k == 32
    ensures Halved(ms, n) >= k <==> NapLength(n) * (k / 16) <= ms
    decreases n
  {
    if n > 0 {
      HalvedOuter(ms, n);
      HalvedAtLeast(ms / 2, n - 1, k);
    }
  }

  lemma {:induction false} HalvedOuter(ms: nat, n: nat)
    requires n > 0
    ensures Halved(ms, n) == Halved(ms / 2, n - 1)
  {
    if n > 1 {
      HalvedOuter(ms, n - 1);
    }
  }
}
