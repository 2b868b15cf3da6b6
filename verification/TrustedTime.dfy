/** Trusted time: the clock guard that advances it, and the retention locks that consult it. */
module TrustedTime {

  const TIME_LAST := 0x7fff_ffff_ffff_ffff

  /** Whole seconds since an opaque epoch. */
  type Time = t: int | 0 <= t <= TIME_LAST

  // ---- The clock guard ----

  datatype Anomaly = None | MonotonicReset | Rollback | ForwardJump

  datatype Guard = Guard(floor: Time, lastMono: Time, lastReal: Time, anomaly: Anomaly, isSealed: bool)

  datatype Sample = Sample(mono: Time, realtime: Time, bootChanged: bool)

  /** The time that certainly passed since the last reading. */
  function MonoDelta(s: Guard, sample: Sample): Time {
    if sample.bootChanged || sample.mono < s.lastMono then 0 else sample.mono - s.lastMono
  }

  /** Addition that stops at the last time. */
  function Saturated(t: Time, d: Time): (r: Time)
    ensures r == TIME_LAST || r == t + d
    ensures t <= r
  {
    if t <= TIME_LAST - d then t + d else TIME_LAST
  }

  function Init(sample: Sample): Guard {
    Guard(0, sample.mono, sample.realtime, None, false)
  }

  /** One reading: the floor advances with the monotonic clock; the wall clock only raises alarms. */
  method Tick(s: Guard, sample: Sample, tolerance: Time) returns (r: Guard)
    ensures r == Ticked(s, sample, tolerance)
  {
    var passed := MonoDelta(s, sample);
    r := s;
    r := r.(floor := if s.floor <= TIME_LAST - passed then s.floor + passed else TIME_LAST);
    r := r.(lastMono := sample.mono, lastReal := sample.realtime);
    var expected := if s.lastReal <= TIME_LAST - passed then s.lastReal + passed else TIME_LAST;
    if sample.bootChanged {
      r := r.(anomaly := MonotonicReset);
    } else if sample.mono < s.lastMono {
      r := r.(anomaly := Rollback);
    } else if sample.realtime > expected && sample.realtime - expected > tolerance {
      r := r.(anomaly := ForwardJump);
    } else if sample.realtime < expected && expected - sample.realtime > tolerance {
      r := r.(anomaly := Rollback);
    } else {
      r := r.(anomaly := None);
    }
    if r.anomaly == Rollback || r.anomaly == ForwardJump {
      r := r.(isSealed := true);
    }
    if s.isSealed {
      r := r.(isSealed := true);
    }
  }

  /** How far the wall clock is from where the monotonic clock puts it. */
  function Drift(s: Guard, sample: Sample): int {
    sample.realtime - Saturated(s.lastReal, MonoDelta(s, sample))
  }

  function AnomalyOf(s: Guard, sample: Sample, tolerance: Time): Anomaly {
    if sample.bootChanged then MonotonicReset
    else if sample.mono < s.lastMono || Drift(s, sample) + tolerance < 0 then Rollback
    else if Drift(s, sample) > tolerance then ForwardJump
    else None
  }

  function Ticked(s: Guard, sample: Sample, tolerance: Time): Guard {
    var a := AnomalyOf(s, sample, tolerance);
    Guard(Saturated(s.floor, MonoDelta(s, sample)), sample.mono, sample.realtime, a,
          s.isSealed || a == Rollback || a == ForwardJump)
  }

  // ---- Any sequence of readings ----

  function Ticks(s: Guard, samples: seq<Sample>, tolerance: Time): Guard {
    if |samples| == 0 then s
    else Ticked(Ticks(s, samples[..|samples| - 1], tolerance), samples[|samples| - 1], tolerance)
  }

  /** The monotonic time from one reading to the next, without those that go back or follow a boot. */
  function Counted(mono: Time, samples: seq<Sample>): nat {
    if |samples| == 0 then 0
    else
      var before := if |samples| == 1 then mono else samples[|samples| - 2].mono;
      var last := samples[|samples| - 1];
      Counted(mono, samples[..|samples| - 1]) + if last.bootChanged || last.mono < before then 0 else last.mono - before
  }

  /** After any readings the floor is what the monotonic clock counted, up to the last time. */
  lemma {:induction false} FloorCounts(s: Guard, samples: seq<Sample>, tolerance: Time)
    ensures var total := s.floor + Counted(s.lastMono, samples);
            Ticks(s, samples, tolerance).floor == if total <= TIME_LAST then total else TIME_LAST
  {
    hide AnomalyOf;
    if |samples| > 0 {
      FloorCounts(s, samples[..|samples| - 1], tolerance);
    }
  }

  /** The wall clock has no part in the floor. */
  lemma {:induction false} WallClockIrrelevant(s: Guard, samples: seq<Sample>, samples': seq<Sample>, tolerance: Time)
    requires |samples| == |samples'|
    requires forall i :: 0 <= i < |samples| ==>
               samples[i].mono == samples'[i].mono && samples[i].bootChanged == samples'[i].bootChanged
    ensures Ticks(s, samples, tolerance).floor == Ticks(s, samples', tolerance).floor
    ensures Ticks(s, samples, tolerance).lastMono == Ticks(s, samples', tolerance).lastMono
  {
    hide AnomalyOf;
    if |samples| > 0 {
      WallClockIrrelevant(s, samples[..|samples| - 1], samples'[..|samples| - 1], tolerance);
    }
  }

  /** The reading before reading `i`: the one that the guard remembers, or one of the samples. */
  function Before(s: Guard, samples: seq<Sample>, i: nat): Sample
    requires i <= |samples|
  {
    if i == 0 then Sample(s.lastMono, s.lastReal, false) else samples[i - 1]
  }

  /** Where the monotonic clock puts the wall clock. */
  function Expected(last: Sample, now: Sample): Time
    requires last.mono <= now.mono
  {
    if last.realtime + (now.mono - last.mono) <= TIME_LAST then last.realtime + (now.mono - last.mono) else TIME_LAST
  }

  /** From one reading to the next the monotonic clock went back, or the wall clock is further than
      the tolerance from where the monotonic clock puts it, and there was no reboot. */
  predicate OutOfStep(last: Sample, now: Sample, tolerance: Time) {
    && !now.bootChanged
    && (now.mono < last.mono || now.realtime > Expected(last, now) + tolerance
        || now.realtime < Expected(last, now) - tolerance)
  }

  /** The guard remembers the last reading. */
  lemma Remembers(s: Guard, samples: seq<Sample>, tolerance: Time)
    ensures var t, last := Ticks(s, samples, tolerance), Before(s, samples, |samples|);
            t.lastMono == last.mono && t.lastReal == last.realtime
  {}

  lemma TickSeals(t: Guard, last: Sample, now: Sample, tolerance: Time)
    requires t.lastMono == last.mono && t.lastReal == last.realtime
    ensures Ticked(t, now, tolerance).isSealed <==> t.isSealed || OutOfStep(last, now, tolerance)
    ensures Ticked(t, now, tolerance).anomaly
         == if now.bootChanged then MonotonicReset
            else if now.mono < last.mono || now.realtime < Expected(last, now) - tolerance then Rollback
            else if now.realtime > Expected(last, now) + tolerance then ForwardJump
            else None
  {}

  lemma LastReading(s: Guard, samples: seq<Sample>, tolerance: Time)
    requires |samples| > 0
    ensures var n := |samples| - 1;
            Ticks(s, samples, tolerance).isSealed <==>
              Ticks(s, samples[..n], tolerance).isSealed || OutOfStep(Before(s, samples, n), samples[n], tolerance)
  {
    hide AnomalyOf, OutOfStep;
    var n := |samples| - 1;
    Remembers(s, samples[..n], tolerance);
    TickSeals(Ticks(s, samples[..n], tolerance), Before(s, samples, n), samples[n], tolerance);
  }

  /** After any readings the guard is sealed exactly when it was before, or from some reading to the
      next the clocks got out of step. */
  lemma {:induction false} SealedByAlarm(s: Guard, samples: seq<Sample>, tolerance: Time)
    ensures Ticks(s, samples, tolerance).isSealed
       <==> s.isSealed || exists i: nat :: i < |samples| && OutOfStep(Before(s, samples, i), samples[i], tolerance)
  {
    hide OutOfStep, Ticked;
    if |samples| > 0 {
      var front := samples[..|samples| - 1];
      SealedByAlarm(s, front, tolerance);
      LastReading(s, samples, tolerance);
      assert forall i: nat :: i < |front| ==> Before(s, front, i) == Before(s, samples, i) && front[i] == samples[i];
      if i: nat :| i < |front| && OutOfStep(Before(s, front, i), front[i], tolerance) {
        assert OutOfStep(Before(s, samples, i), samples[i], tolerance);
      }
    }
  }

  // ---- Retention locks ----

  datatype Mode = Unlocked | Governance | Compliance

  datatype Lock = Lock(mode: Mode, retainUntil: Time, createdAt: Time, legalHold: bool)

  function CreateLock(mode: Mode, retainUntil: Time, now: Time): Lock {
    Lock(mode, retainUntil, now, false)
  }

  function SetHold(l: Lock): Lock {
    l.(legalHold := true)
  }

  function ReleaseHold(l: Lock): Lock {
    l.(legalHold := false)
  }

  predicate CanDelete(l: Lock, now: Time, bypass: bool) {
    if l.legalHold then false
    else match l.mode
      case Unlocked => true
      case Compliance => now >= l.retainUntil
      case Governance => now >= l.retainUntil || bypass
  }
}
