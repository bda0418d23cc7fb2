/** RateStatistics: a ring of one-millisecond buckets, proved against the sample list of RateWindow. */
module RateStatisticsClass {
  import opened Bytes
  import opened RateWindow

  datatype Bucket = Bucket(sum: nat, samples: nat)

  /** A bucket index and an offset are added in 32 bits. */
  const MAX_WINDOW: int := 0x8000_0000

  /** What the bucket of `time` must hold. */
  function BucketAt(log: seq<Sample>, time: int): Bucket {
    Bucket(SumAt(log, time), CountAt(log, time))
  }

  /** The time a slot of the ring stands for, when slot `index` stands for `oldest`. */
  function TimeOfSlot(slot: nat, index: nat, oldest: int, max: nat): int {
    oldest + (if slot >= index then slot - index else slot - index + max)
  }

  /** Every slot of the ring holds exactly the samples of its time, and the totals those of the whole window. */
  predicate Mirrors(ring: seq<Bucket>, index: nat, accumulated: nat, samples: nat, w: Window) {
    && |ring| == w.max && index < w.max
    && accumulated == SumFrom(w.log, w.oldest)
    && samples == CountFrom(w.log, w.oldest)
    && forall j :: 0 <= j < |ring| ==> ring[j] == BucketAt(w.log, TimeOfSlot(j, index, w.oldest, w.max))
  }

  function NextSlot(index: nat, max: nat): nat {
    if index + 1 >= max then 0 else index + 1
  }

  /** Dropping the oldest bucket moves the window by one millisecond. */
  lemma {:induction false} DropOldest(ring: seq<Bucket>, index: nat, accumulated: nat, samples: nat, w: Window)
    requires Ok(w) && Mirrors(ring, index, accumulated, samples, w)
    ensures accumulated >= ring[index].sum && samples >= ring[index].samples
    ensures Mirrors(ring[index := Bucket(0, 0)], NextSlot(index, w.max), accumulated - ring[index].sum,
                    samples - ring[index].samples, w.(oldest := w.oldest + 1))
  {
    SplitFirst(w.log, w.oldest);
    NoneAt(w.log, w.oldest + w.max);
    assert TimeOfSlot(index, index, w.oldest, w.max) == w.oldest;
    var next := NextSlot(index, w.max);
    var emptied := ring[index := Bucket(0, 0)];
    forall j | 0 <= j < |emptied|
      ensures emptied[j] == BucketAt(w.log, TimeOfSlot(j, next, w.oldest + 1, w.max))
    {
      if j == index {
        assert TimeOfSlot(j, next, w.oldest + 1, w.max) == w.oldest + w.max;
      } else {
        assert TimeOfSlot(j, next, w.oldest + 1, w.max) == TimeOfSlot(j, index, w.oldest, w.max);
      }
    }
  }

  /** Once no sample is left the window may jump ahead without turning the ring. */
  lemma {:induction false} JumpAhead(ring: seq<Bucket>, index: nat, accumulated: nat, w: Window, oldest: int)
    requires Ok(w) && Mirrors(ring, index, accumulated, 0, w) && oldest >= w.oldest
    ensures accumulated == 0
    ensures Mirrors(ring, index, accumulated, 0, w.(oldest := oldest))
  {
    NoneLeft(w.log, w.oldest, oldest);
    forall j | 0 <= j < |ring| ensures ring[j] == BucketAt(w.log, TimeOfSlot(j, index, oldest, w.max)) {
      NoneLeft(w.log, w.oldest, TimeOfSlot(j, index, w.oldest, w.max));
      NoneLeft(w.log, w.oldest, TimeOfSlot(j, index, oldest, w.max));
    }
  }

  lemma {:induction false} AddSample(
      ring: seq<Bucket>, index: nat, accumulated: nat, samples: nat, w: Window, slot: nat, s: Sample)
    requires Ok(w) && Mirrors(ring, index, accumulated, samples, w)
    requires w.oldest <= s.time < w.oldest + w.max && slot < w.max
    requires TimeOfSlot(slot, index, w.oldest, w.max) == s.time
    ensures Mirrors(ring[slot := Bucket(ring[slot].sum + s.count, ring[slot].samples + 1)], index,
                    accumulated + s.count, samples + 1, w.(log := w.log + [s]))
  {
    OneMore(w.log, s, w.oldest);
    var added := ring[slot := Bucket(ring[slot].sum + s.count, ring[slot].samples + 1)];
    forall j | 0 <= j < |ring| ensures added[j] == BucketAt(w.log + [s], TimeOfSlot(j, index, w.oldest, w.max)) {
      OneMore(w.log, s, TimeOfSlot(j, index, w.oldest, w.max));
    }
  }

  lemma {:induction false} BlankRing(ring: seq<Bucket>, w: Window)
    requires |ring| == w.max > 0 && w.log == [] && forall j :: 0 <= j < |ring| ==> ring[j] == Bucket(0, 0)
    ensures Mirrors(ring, 0, 0, 0, w)
  {
  }

  class RateStatistics {
    const buckets: array<Bucket>
    var accumulatedCount: nat
    var numSamples: nat
    var oldestTime: int
    var oldestIndex: nat
    const maxWindowSizeMs: nat
    var currentWindowSizeMs: nat
    /** Every sample accepted since the last reset. */
    ghost var log: seq<Sample>

    ghost function State(): Window
      reads this
    {
      Window(maxWindowSizeMs, currentWindowSizeMs, oldestTime, log)
    }

    ghost predicate Valid()
      reads this, buckets
    {
      && 0 < maxWindowSizeMs <= MAX_WINDOW
      && Ok(State())
      && Mirrors(buckets[..], oldestIndex, accumulatedCount, numSamples, State())
    }

    constructor (windowSizeMs: nat)
      requires 0 < windowSizeMs <= MAX_WINDOW
      ensures Valid() && fresh(buckets) && State() == Empty(windowSizeMs)
    {
      buckets := new Bucket[windowSizeMs](_ => Bucket(0, 0));
      accumulatedCount, numSamples := 0, 0;
      oldestTime, oldestIndex := 0 - windowSizeMs, 0;
      maxWindowSizeMs, currentWindowSizeMs := windowSizeMs, windowSizeMs;
      log := [];
      new;
      BlankRing(buckets[..], State());
    }

    predicate IsInitialized()
      reads this
    {
      oldestTime != 0 - maxWindowSizeMs
    }

    method Reset()
      requires Valid()
      modifies this, buckets
      ensures Valid() && State() == Empty(maxWindowSizeMs)
    {
      MirrorsBounds(buckets[..], oldestIndex, accumulatedCount, numSamples, State());
      accumulatedCount, numSamples := 0, 0;
      oldestTime, oldestIndex := 0 - maxWindowSizeMs, 0;
      currentWindowSizeMs := maxWindowSizeMs;
      log := [];
      for i := 0 to maxWindowSizeMs
        modifies buckets
        invariant forall j :: 0 <= j < i ==> buckets[j] == Bucket(0, 0)
      {
        buckets[i] := Bucket(0, 0);
      }
      BlankRing(buckets[..], State());
    }

    method EraseOld(nowMs: int)
      requires Valid() && nowMs >= 0
      modifies this, buckets
      ensures Valid() && State() == Advance(old(State()), nowMs)
    {
      hide Mirrors;
      if !IsInitialized() {
        return;
      }
      // New oldest time that is included in data set.
      var newOldestTime := nowMs - currentWindowSizeMs + 1;
      // New oldest time is older than the current one, no need to cull data.
      if newOldestTime <= oldestTime {
        return;
      }
      // Loop over buckets and remove too old data points.
      while numSamples > 0 && oldestTime < newOldestTime
        invariant oldestTime <= newOldestTime
        invariant Valid() && State() == old(State()).(oldest := oldestTime)
        decreases newOldestTime - oldestTime
      {
        MirrorsBounds(buckets[..], oldestIndex, accumulatedCount, numSamples, State());
        DropOldest(buckets[..], oldestIndex, accumulatedCount, numSamples, State());
        var oldestBucket := BucketOf(oldestIndex);
        accumulatedCount := accumulatedCount - oldestBucket.sum;
        numSamples := numSamples - oldestBucket.samples;
        ghost var ring := buckets[..];
        buckets[oldestIndex] := Bucket(0, 0);
        assert buckets[..] == ring[oldestIndex := Bucket(0, 0)];
        oldestIndex := NextSlot(oldestIndex, maxWindowSizeMs);
        oldestTime := oldestTime + 1;
      }
      if numSamples == 0 {
        JumpAhead(buckets[..], oldestIndex, accumulatedCount, State(), newOldestTime);
      }
      oldestTime := newOldestTime;
    }

    function BucketOf(index: nat): (b: Bucket)
      requires index < buckets.Length
      reads buckets
      ensures b == buckets[..][index]
    {
      buckets[index]
    }

    method Update(count: nat, nowMs: int)
      requires Valid() && nowMs >= 0
      modifies this, buckets
      ensures Valid() && State() == Updated(old(State()), count, nowMs)
    {
      hide Mirrors;
      if nowMs < oldestTime {
        // Too old data is ignored.
        return;
      }
      EraseOld(nowMs);
      // First ever sample, reset window to start now.
      if !IsInitialized() {
        NothingYet(buckets[..], oldestIndex, accumulatedCount, numSamples, State());
        JumpAhead(buckets[..], oldestIndex, accumulatedCount, State(), nowMs);
        oldestTime := nowMs;
      }
      var nowOffset := nowMs - oldestTime;
      var index := oldestIndex + nowOffset;
      MirrorsBounds(buckets[..], oldestIndex, accumulatedCount, numSamples, State());
      assert nowOffset < maxWindowSizeMs;
      assert index < 0x1_0000_0000;
      if index >= maxWindowSizeMs {
        index := index - maxWindowSizeMs;
      }
      AddSample(buckets[..], oldestIndex, accumulatedCount, numSamples, State(), index, Sample(count, nowMs));
      var bucket := BucketOf(index);
      ghost var ring := buckets[..];
      buckets[index] := Bucket(bucket.sum + count, bucket.samples + 1);
      assert buckets[..] == ring[index := Bucket(bucket.sum + count, bucket.samples + 1)];
      accumulatedCount := accumulatedCount + count;
      numSamples := numSamples + 1;
      log := log + [Sample(count, nowMs)];
    }

    /** The total and the milliseconds it is spread over; the source multiplies them out in floating point. */
    method Rate(nowMs: int) returns (rate: Option<(nat, int)>)
      requires Valid() && nowMs >= 0
      modifies this, buckets
      ensures Valid() && State() == Advance(old(State()), nowMs)
      ensures rate == RateOf(old(State()), nowMs)
    {
      EraseOld(nowMs);
      var activeWindowSize := nowMs - oldestTime + 1;
      if numSamples == 0 || activeWindowSize <= 1 || (numSamples <= 1 && activeWindowSize < currentWindowSizeMs) {
        return None;
      }
      return Some((accumulatedCount, activeWindowSize));
    }

    method SetWindowSize(windowSizeMs: int, nowMs: int) returns (ok: bool)
      requires Valid() && nowMs >= 0
      modifies this, buckets
      ensures Valid() && State() == Resized(old(State()), windowSizeMs, nowMs)
      ensures ok == Resizable(old(State()), windowSizeMs)
    {
      hide Mirrors;
      if windowSizeMs <= 0 || windowSizeMs > maxWindowSizeMs {
        return false;
      }
      MirrorsSize(buckets[..], oldestIndex, accumulatedCount, numSamples, State(), windowSizeMs);
      currentWindowSizeMs := windowSizeMs;
      EraseOld(nowMs);
      return true;
    }
  }

  lemma {:induction false} NothingYet(ring: seq<Bucket>, index: nat, accumulated: nat, samples: nat, w: Window)
    requires Mirrors(ring, index, accumulated, samples, w) && w.log == []
    ensures samples == 0
  {
  }

  lemma {:induction false} MirrorsBounds(ring: seq<Bucket>, index: nat, accumulated: nat, samples: nat, w: Window)
    requires Mirrors(ring, index, accumulated, samples, w)
    ensures |ring| == w.max && index < w.max
  {
  }

  lemma {:induction false} MirrorsSize(
      ring: seq<Bucket>, index: nat, accumulated: nat, samples: nat, w: Window, size: nat)
    requires Mirrors(ring, index, accumulated, samples, w)
    ensures Mirrors(ring, index, accumulated, samples, w.(size := size))
  {
  }
}
