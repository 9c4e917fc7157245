/**
 The 64-bit machine timer of OpenSBI, over registers of 32 bits: the counter can move between
 two accesses of the same 64-bit value.
 */
module TimerHalves {
  import opened Words

  /** The counter at the k-th register read.  It never goes back. */
  ghost predicate Monotone(clock: nat -> nat) {
    && (forall k :: clock(k) < WORD * WORD)
    && (forall j, k :: j <= k ==> clock(j) <= clock(k))
  }

  function Hi(value: nat): nat {
    value / WORD
  }

  function Lo(value: nat): nat {
    value % WORD
  }

  lemma HiMonotone(a: nat, b: nat)
    requires a <= b
    ensures Hi(a) <= Hi(b) && a == Hi(a) * WORD + Lo(a)
  {
  }

  lemma HiBelow(a: nat)
    requires a < WORD * WORD
    ensures Hi(a) < WORD
  {
  }

  /** esp32s31_timer_value(): whatever the counter does between the reads, the loop ends, and the
      result is the counter at the last read of the low word. */
  method TimerValue(clock: nat -> nat) returns (value: nat, accesses: nat)
    requires Monotone(clock)
    ensures accesses >= 3 && value == clock(accesses - 2)
  {
    accesses := 0;
    var hi, lo, tmp := 0, 0, 1;
    while hi != tmp
      invariant accesses > 0 ==>
                  && accesses >= 3 && hi == Hi(clock(accesses - 3))
                  && lo == Lo(clock(accesses - 2)) && tmp == Hi(clock(accesses - 1))
      invariant accesses == 0 ==> hi == 0 && tmp == 1
      decreases WORD - (if accesses == 0 then -1 else Hi(clock(accesses - 1))), if hi != tmp then 1 else 0
    {
      hi := Hi(clock(accesses));
      lo := Lo(clock(accesses + 1));
      tmp := Hi(clock(accesses + 2));
      HiMonotone(clock(accesses), clock(accesses + 1));
      HiMonotone(clock(accesses + 1), clock(accesses + 2));
      HiBelow(clock(accesses + 2));
      if accesses > 0 {
        HiMonotone(clock(accesses - 1), clock(accesses));
      }
      accesses := accesses + 3;
    }
    HiMonotone(clock(accesses - 3), clock(accesses - 2));
    HiMonotone(clock(accesses - 2), clock(accesses - 1));
    value := Both(hi, lo);
  }

  const HI_MAX: nat := 0xffff_ffff

  function Both(hi: nat, lo: nat): nat {
    hi * WORD + lo
  }

  /** The high word at its maximum hides each low word, exactly while the counter has not reached
      this high word itself. */
  lemma NoHalfWrittenMatch(mtime: nat)
    ensures (forall lo: u32 :: mtime < Both(HI_MAX, lo)) <==> mtime < HI_MAX * WORD
  {
    assert Both(HI_MAX, 0) == HI_MAX * WORD;
  }

  /** The counter at the four stores of a start: before the first one, and after each gap. */
  function Stores(mtime: nat, gaps: seq<nat>): (nat, nat, nat)
    requires |gaps| == 4
  {
    (mtime, mtime + gaps[0], mtime + gaps[0] + gaps[1])
  }

  /** The old low word below the maximum matches between the second and the third store, and
      neither the old nor the new event is a reason for it. */
  predicate Early(t: (nat, nat, nat), old_: nat, next: nat, end: nat) {
    var half := Both(HI_MAX, Lo(old_));
    t.1 < half <= t.2 && end < next && !(t.0 < old_ <= t.1)
  }

  /** All compare values of the start are in the past at their stores, so that no edge comes. */
  predicate Lost(t: (nat, nat, nat), old_: nat, next: nat) {
    old_ <= t.0 && Both(HI_MAX, Lo(old_)) <= t.1 && Both(HI_MAX, Lo(next)) <= t.2
  }

  /** What the latch should say: the new event is due, or the old one came between the first two
      stores. */
  predicate Due(t: (nat, nat, nat), old_: nat, next: nat, end: nat) {
    end >= next || t.0 < old_ <= t.1
  }

  /** What the latch says after a start. */
  predicate Latched(t: (nat, nat, nat), old_: nat, next: nat, end: nat) {
    (Due(t, old_, next, end) && !Lost(t, old_, next)) || Early(t, old_, next, end)
  }

  lemma HidesLow(value: nat)
    requires value < WORD * WORD
    ensures Both(Hi(value), Lo(value)) == value <= Both(HI_MAX, Lo(value))
    ensures Hi(value) < WORD && Lo(value) < WORD
  {
    HiBelow(value);
  }

  lemma LowOfBoth(hi: u32, lo: u32)
    ensures Both(hi, lo) < WORD * WORD && Lo(Both(hi, lo)) == lo && Hi(Both(hi, lo)) == hi
  {
  }

  /** The latch is right exactly when no event is lost or early, and so it always is while the high
      word of the counter is below its maximum. */
  lemma LatchedIsDue(t: (nat, nat, nat), old_: nat, next: nat, end: nat)
    requires next < WORD * WORD && t.2 <= end
    ensures (Latched(t, old_, next, end) <==> Due(t, old_, next, end)) <==>
            !Lost(t, old_, next) && !Early(t, old_, next, end)
    ensures t.2 < HI_MAX * WORD ==> !Lost(t, old_, next) && !Early(t, old_, next, end)
  {
    hide Lo, Hi;
    HidesLow(next);
    HidesLow(0);
    assert Both(HI_MAX, Lo(old_)) >= HI_MAX * WORD by { LoIsNat(old_); }
  }

  lemma LoIsNat(value: nat)
    ensures Lo(value) >= 0
  {
  }

  /** With the maximum in the high word, both can happen: an event that is early by ten ticks, and
      one that is lost. */
  lemma EarlyAndLost()
    ensures var last := HI_MAX * WORD;
            && Early((last, last, last + 9), last + 5, last + 20, last + 10)
            && Lost((last, last, last), last, last)
  {
  }

  /** The timer with its compare registers, and the edge latch of the interrupt controller. */
  class Mtimer {
    var mtime: nat
    var cmpLo: u32
    var cmpHi: u32
    var ip: bool

    constructor (mtime: nat, cmpLo: u32, cmpHi: u32, ip: bool)
      ensures this.mtime == mtime && this.cmpLo == cmpLo && this.cmpHi == cmpHi && this.ip == ip
    {
      this.mtime, this.cmpLo, this.cmpHi, this.ip := mtime, cmpLo, cmpHi, ip;
    }

    function Compare(): nat
      reads this
    {
      Both(cmpHi, cmpLo)
    }

    predicate Matches()
      reads this
    {
      mtime >= Compare()
    }

    method Tick(n: nat)
      modifies this
      ensures mtime == old(mtime) + n && cmpLo == old(cmpLo) && cmpHi == old(cmpHi)
      ensures ip <==> old(ip) || (!old(Matches()) && Matches())
    {
      var before := Matches();
      mtime := mtime + n;
      ip := ip || (!before && Matches());
    }

    method StoreHi(w: u32)
      modifies this
      ensures mtime == old(mtime) && cmpLo == old(cmpLo) && cmpHi == w
      ensures ip <==> old(ip) || (!old(Matches()) && Matches())
    {
      var before := Matches();
      cmpHi := w;
      ip := ip || (!before && Matches());
    }

    method StoreLo(w: u32)
      modifies this
      ensures mtime == old(mtime) && cmpLo == w && cmpHi == old(cmpHi)
      ensures ip <==> old(ip) || (!old(Matches()) && Matches())
    {
      var before := Matches();
      cmpLo := w;
      ip := ip || (!before && Matches());
    }

    /** esp32s31_timer_event_start(), with `gaps[k]` ticks after the k-th store. */
    method EventStart(next: nat, gaps: seq<nat>)
      requires next < WORD * WORD && |gaps| == 4
      modifies this
      ensures mtime == old(mtime) + gaps[0] + gaps[1] + gaps[2] + gaps[3] && Compare() == next
      ensures ip <==> Latched(Stores(old(mtime), gaps), old(Compare()), next, mtime)
    {
      hide Hi, Lo, Both;
      HidesLow(next);
      LowOfBoth(cmpHi, cmpLo);
      HidesLow(Compare());
      ip := false;
      Tick(gaps[0]);
      StoreHi(HI_MAX);
      Tick(gaps[1]);
      StoreLo(Lo(next));
      Tick(gaps[2]);
      StoreHi(Hi(next));
      Tick(gaps[3]);
    }

    /** esp32s31_timer_event_stop(): no match before the last value of the counter. */
    method EventStop(gaps: seq<nat>)
      requires |gaps| == 3
      modifies this
      ensures mtime == old(mtime) + gaps[0] + gaps[1] + gaps[2] && Compare() == WORD * WORD - 1
      ensures ip ==> mtime >= WORD * WORD - 1
    {
      StoreHi(HI_MAX);
      Tick(gaps[0]);
      StoreLo(HI_MAX);
      Tick(gaps[1]);
      ip := false;
      Tick(gaps[2]);
    }
  }
}
