// The memory tracker: while enabled, each recorded byte count is stored with
// the seconds elapsed since `start`. The clock is a parameter, read by the
// calls that read it in the source.

module Tracking {

  /** `MemoryTracker`. `lastNow` is the latest clock reading, kept to state
      that the clock is monotonic. */
  class MemoryTracker {
    var enabled: bool
    var startTime: real
    var samples: seq<(real, nat)>
    ghost var lastNow: real

    /** Every timestamp lies between 0 and the latest reading, and they do not
        decrease. */
    ghost predicate Valid()
      reads this
    {
      startTime <= lastNow &&
      (forall i :: 0 <= i < |samples| ==> 0.0 <= samples[i].0 <= lastNow - startTime) &&
      (forall i, j :: 0 <= i < j < |samples| ==> samples[i].0 <= samples[j].0)
    }

    constructor ()
      ensures Valid() && !enabled && samples == []
    {
      enabled, startTime, samples := false, 0.0, [];
      lastNow := 0.0;
    }

    /** `start()` at clock reading `now`. */
    method Start(now: real)
      requires Valid() && now >= lastNow
      modifies this
      ensures Valid() && enabled && startTime == now && samples == [] && lastNow == now
    {
      enabled := true;
      startTime := now;
      samples := [];
      lastNow := now;
    }

    /** `stop()`: samples are kept. */
    method Stop()
      requires Valid()
      modifies this
      ensures Valid() && !enabled && samples == old(samples) && startTime == old(startTime)
      ensures lastNow == old(lastNow)
    {
      enabled := false;
    }

    /** `record(bytes)` at clock reading `now`: nothing while disabled,
        otherwise exactly one sample more, at the end. */
    method Record(bytes: nat, now: real)
      requires Valid() && now >= lastNow
      modifies this
      ensures Valid() && enabled == old(enabled) && startTime == old(startTime)
      ensures !enabled ==> samples == old(samples) && lastNow == old(lastNow)
      ensures enabled ==> samples == old(samples) + [(now - startTime, bytes)] && lastNow == now
    {
      if !enabled {
        return;
      }
      var t := now - startTime;
      samples := samples + [(t, bytes)];
      lastNow := now;
    }
  }

  /** tests/memory_tracker_test.cpp: start, one record, stop leaves one
      sample, holding the byte count recorded. */
  method ExampleStartRecordStop(mt: MemoryTracker, bytes: nat, t0: real, t1: real)
    requires mt.Valid() && mt.lastNow <= t0 <= t1
    modifies mt
    ensures mt.Valid() && !mt.enabled && |mt.samples| == 1 && mt.samples[0] == (t1 - t0, bytes)
  {
    mt.Start(t0);
    mt.Record(bytes, t1);
    mt.Stop();
  }
}
