/** AddPacket as a function of the packet's state, and what whole runs of it report once they are
    serialised and parsed. */
module FeedbackRuns {
  import opened Bytes
  import opened SeqOrder
  import opened Chunks
  import opened FeedbackEncoder
  import opened FeedbackWire
  import opened FeedbackRoundTrip

  type Quad = x: int | 0 <= x < 0x1_0000_0000_0000_0000

  const MAX_MISSING: int := 0x1FFF
  const MAX_DELTA: int := 0x7FFF

  /** A locally generated packet. latestTimestamp 0 means that no base is set yet. */
  datatype Packet = Packet(
    ssrcs: seq<Byte>,
    base: Word,
    referenceTime: int,
    latestSequenceNumber: Word,
    latestTimestamp: Quad,
    feedbackCount: Byte,
    encoder: Encoder)

  function Fresh(ssrcs: seq<Byte>, feedbackCount: Byte): Packet {
    Packet(ssrcs, 0, 0, 0, 0, feedbackCount, EMPTY)
  }

  datatype AddPacketResult = Success | MaxSizeExceeded | Fatal

  /** Which way AddPacket goes. */
  datatype Outcome = SetsBase | Ignored | TooManyMissing | DeltaTooLarge | Oversized | Recorded

  /** The delta in quarter-milliseconds: unsigned 64-bit arithmetic read as a signed number. */
  function Delta64(latest: Quad, timestamp: Quad): int {
    SignedQuad((timestamp - latest) * 4)
  }

  /** The size AddPacket checks: room for one more chunk and its delta. */
  function SizeWithOneMore(e: Encoder): nat {
    FIXED_SIZE + e.wireSize + 4 + Padding(FIXED_SIZE + e.wireSize + 4)
  }

  function AddOutcome(p: Packet, s: Word, t: Quad, maxLen: nat): Outcome {
    if p.latestTimestamp == 0 then SetsBase
    else if !SeqHigherThan(s, p.latestSequenceNumber) then Ignored
    else if s - (p.latestSequenceNumber + 1) > MAX_MISSING then TooManyMissing
    else
      var delta := Delta64(p.latestTimestamp, t);
      if delta > MAX_DELTA || delta < -MAX_DELTA then DeltaTooLarge
      else if SizeWithOneMore(p.encoder) > maxLen then Oversized
      else Recorded
  }

  /** `timestamp & 0x1FFFFFC0` over 64: bits 6 to 28. */
  function ReferenceTimeOf(t: Quad): int {
    (t % 0x2000_0000) / 64
  }

  /** `(timestamp >> 6) * 64`. */
  function FloorTo64(t: Quad): Quad {
    t / 64 * 64
  }

  function Record(p: Packet, s: Word, t: Quad): Packet {
    p.(encoder := FillChunk(p.encoder, Gap(p.latestSequenceNumber, s), Delta64(p.latestTimestamp, t)),
       latestSequenceNumber := s,
       latestTimestamp := t)
  }

  function SetBase(p: Packet, s: Word, t: Quad): Packet {
    p.(base := NextSeq(s),
       referenceTime := ReferenceTimeOf(t),
       latestSequenceNumber := s,
       latestTimestamp := FloorTo64(t))
  }

  function AddPacket(p: Packet, s: Word, t: Quad, maxLen: nat): (AddPacketResult, Packet) {
    match AddOutcome(p, s, t, maxLen)
    case SetsBase => (Success, SetBase(p, s, t))
    case Ignored => (Success, p)
    case TooManyMissing => (Fatal, p)
    case DeltaTooLarge => (Fatal, p)
    case Oversized => (MaxSizeExceeded, p)
    case Recorded => (Success, Record(p, s, t))
  }

  function HeadOf(p: Packet): Head {
    Head(p.ssrcs, p.base, p.referenceTime, p.feedbackCount)
  }

  // ----- what a packet has recorded

  /** A recorded packet: one FillChunk ran for. */
  datatype Arrival = Arrival(sequenceNumber: Word, timestamp: int)

  /** Where the packet's base came from, and everything recorded since. */
  datatype History = History(start: Word, startTime: Quad, arrivals: seq<Arrival>)

  function LatestSeq(h: History): Word {
    if h.arrivals == [] then h.start else h.arrivals[|h.arrivals| - 1].sequenceNumber
  }

  function LatestTime(h: History): int {
    if h.arrivals == [] then FloorTo64(h.startTime) else h.arrivals[|h.arrivals| - 1].timestamp
  }

  function Before(h: History): History
    requires h.arrivals != []
  {
    h.(arrivals := h.arrivals[..|h.arrivals| - 1])
  }

  function After(h: History, s: Word, t: int): History {
    h.(arrivals := h.arrivals + [Arrival(s, t)])
  }

  /** The entries a history stands for: per arrival, the sequence numbers skipped and then the
      exact time since the one before. */
  function LogOf(h: History): seq<Entry>
    decreases |h.arrivals|
  {
    if h.arrivals == [] then []
    else
      var b := Before(h);
      Extend(LogOf(b), Gap(LatestSeq(b), LatestSeq(h)), (LatestTime(h) - LatestTime(b)) * 4)
  }

  /** Timestamps for which 64-bit wrap-around cannot be mistaken for a small delta. */
  const TIME_LIMIT: int := 0x2000_0000_0000_0000

  /** The encoder a history leaves behind. */
  function EncoderOf(h: History): Encoder
    decreases |h.arrivals|
  {
    if h.arrivals == [] then EMPTY
    else
      var b := Before(h);
      FillChunk(EncoderOf(b), Gap(LatestSeq(b), LatestSeq(h)), (LatestTime(h) - LatestTime(b)) * 4)
  }

  /** Every arrival finds few enough packets missing for one 13-bit run, once the pending vector is topped up. */
  predicate GapsFit(h: History)
    decreases |h.arrivals|
  {
    h.arrivals == [] ||
    var b := Before(h);
    GapsFit(b) && RunAfterVector(EncoderOf(b), Gap(LatestSeq(b), LatestSeq(h))) <= MAX_RUN
  }

  /** No stretch of equal statuses grows longer than a 13-bit run while it is pending. */
  predicate PendingFits(h: History)
    decreases |h.arrivals|
  {
    |EncoderOf(h).pending| <= MAX_RUN && (h.arrivals == [] || PendingFits(Before(h)))
  }

  predicate ShortGaps(h: History)
    decreases |h.arrivals|
  {
    h.arrivals == [] || (ShortGaps(Before(h)) && Gap(LatestSeq(Before(h)), LatestSeq(h)) <= MAX_RUN)
  }

  lemma {:induction false} ShortGapsFit(h: History)
    requires ShortGaps(h)
    ensures GapsFit(h)
    decreases |h.arrivals|
  {
    hide Gap, EncoderOf;
    if h.arrivals != [] {
      ShortGapsFit(Before(h));
    }
  }

  predicate Tracks(p: Packet, h: History) {
    && 64 <= h.startTime < TIME_LIMIT
    && p.base == NextSeq(h.start) && p.referenceTime == ReferenceTimeOf(h.startTime)
    && p.latestSequenceNumber == LatestSeq(h)
    && p.latestTimestamp == LatestTime(h) && p.latestTimestamp < TIME_LIMIT
    && p.encoder == EncoderOf(h)
    && DeltasInRange(p.encoder.deltas)
    && |p.ssrcs| == 8
  }

  lemma {:induction false} TracksBase(p: Packet, h: History)
    requires Tracks(p, h)
    ensures p.base == NextSeq(h.start) && p.latestSequenceNumber == LatestSeq(h)
    ensures p.latestTimestamp == LatestTime(h) && p.latestTimestamp < TIME_LIMIT
    ensures p.encoder == EncoderOf(h) && |p.ssrcs| == 8
  {
  }

  lemma {:induction false} ExactDelta(latest: Quad, t: Quad)
    requires latest < TIME_LIMIT && t < TIME_LIMIT
    ensures Delta64(latest, t) == (t - latest) * 4
  {
  }

  lemma {:induction false} AfterBefore(h: History, s: Word, t: int)
    ensures Before(After(h, s, t)) == h
    ensures LogOf(After(h, s, t)) == Extend(LogOf(h), Gap(LatestSeq(h), s), (t - LatestTime(h)) * 4)
  {
    assert (h.arrivals + [Arrival(s, t)])[..|h.arrivals|] == h.arrivals;
  }

  lemma {:induction false} EncoderAfter(h: History, s: Word, t: int)
    ensures EncoderOf(After(h, s, t)) == FillChunk(EncoderOf(h), Gap(LatestSeq(h), s), (t - LatestTime(h)) * 4)
    ensures GapsFit(After(h, s, t)) <==> GapsFit(h) && RunAfterVector(EncoderOf(h), Gap(LatestSeq(h), s)) <= MAX_RUN
  {
    hide FillChunk, Gap, RunAfterVector, LogOf;
    AfterBefore(h, s, t);
  }

  /** The laws that hold whatever the counts hold of every history's encoder. */
  lemma {:induction false} HistorySound(h: History)
    ensures Sound(EncoderOf(h))
    ensures EncoderOf(h).deltas == DeltasOf(LogOf(h)) && |EncoderOf(h).deltas| == |h.arrivals|
    decreases |h.arrivals|
  {
    hide FillChunk, Gap, DeltasOf, StatusesOf;
    if h.arrivals == [] {
      EmptyRefines();
      NoDeltas();
    } else {
      hide Sound;
      var b := Before(h);
      HistorySound(b);
      var gap, delta := Gap(LatestSeq(b), LatestSeq(h)), (LatestTime(h) - LatestTime(b)) * 4;
      FillChunkSound(EncoderOf(b), gap, delta);
      StatusesOfExtend(LogOf(b), gap, delta);
    }
  }

  lemma {:induction false} LogShrinks(h: History)
    requires h.arrivals != []
    ensures |LogOf(Before(h))| < |LogOf(h)|
  {
  }

  /** While its statuses can be counted in 16 bits, the encoder of a history stands for its log. */
  lemma {:induction false} HistoryRefines(h: History)
    requires |LogOf(h)| < 0x1_0000
    ensures Refines(EncoderOf(h), LogOf(h)) && |EncoderOf(h).pending| < 0x1_0000
    decreases |h.arrivals|
  {
    hide FillChunk, Gap, Refines;
    if h.arrivals == [] {
      EmptyRefines();
    } else {
      var b := Before(h);
      HistoryRefines(b);
      FillChunkRefines(EncoderOf(b), LogOf(b), Gap(LatestSeq(b), LatestSeq(h)), (LatestTime(h) - LatestTime(b)) * 4);
    }
    PendingWithinLog(EncoderOf(h), LogOf(h));
  }

  lemma {:induction false} PendingWithinLog(e: Encoder, log: seq<Entry>)
    requires Refines(e, log)
    ensures |e.pending| <= |log|
  {
    assert |e.pending| <= |Contents(e)|;
  }

  /** The runs of missing packets written fit 13 bits exactly when every gap did. */
  lemma {:induction false} GapsFitIff(h: History)
    ensures MissingRunsFit(EncoderOf(h).chunks) <==> GapsFit(h)
    decreases |h.arrivals|
  {
    hide FillChunk, Gap, RunAfterVector, MissingRunsFit, Sound, LogOf;
    if h.arrivals == [] {
      NoRuns();
    } else {
      var b := Before(h);
      GapsFitIff(b);
      HistorySound(b);
      SoundParts(EncoderOf(b));
      StepMissingRunsFit(EncoderOf(b), Gap(LatestSeq(b), LatestSeq(h)), (LatestTime(h) - LatestTime(b)) * 4);
    }
  }

  lemma {:induction false} NoRuns()
    ensures MissingRunsFit(EMPTY.chunks) && ReceivedFits(EMPTY)
  {
  }

  /** The runs of received packets, written or pending, fit 13 bits exactly when the pending list never outgrew them. */
  lemma {:induction false} PendingFitsIff(h: History)
    requires |LogOf(h)| < 0x1_0000
    ensures ReceivedFits(EncoderOf(h)) <==> PendingFits(h)
    decreases |h.arrivals|
  {
    hide FillChunk, Gap, ReceivedFits, Sound, Refines, LogOf;
    if h.arrivals == [] {
      NoRuns();
    } else {
      var b := Before(h);
      LogShrinks(h);
      HistoryRefines(b);
      PendingFitsIff(b);
      HistorySound(b);
      SoundParts(EncoderOf(b));
      StepReceivedFits(EncoderOf(b), Gap(LatestSeq(b), LatestSeq(h)), (LatestTime(h) - LatestTime(b)) * 4);
    }
  }

  /** Whether the first call leaves a base: exactly when its timestamp is at least 64 ms. Below that, the next call sets
      the base again. */
  lemma {:induction false} BaseIsSetIff(ssrcs: seq<Byte>, feedbackCount: Byte, s: Word, t: Quad, maxLen: nat)
    requires |ssrcs| == 8 && t < TIME_LIMIT
    ensures var p := AddPacket(Fresh(ssrcs, feedbackCount), s, t, maxLen).1;
            && (p.latestTimestamp != 0 <==> t >= 64)
            && (t >= 64 ==> Tracks(p, History(s, t, [])))
            && (t < 64 ==> forall s', t' ::
                  AddPacket(p, s', t', maxLen) == AddPacket(Fresh(ssrcs, feedbackCount), s', t', maxLen))
  {
  }

  /** At or behind the latest number on the circle; the number exactly half-way counts as behind when it is
      numerically higher. */
  predicate Late(s: Word, latest: Word) {
    var d := (s - latest) % 0x1_0000;
    d == 0 || d > 0x8000 || (d == 0x8000 && s > latest)
  }

  /** Late packets, and only they, are ignored without a word. */
  lemma {:induction false} LateIgnoredIff(p: Packet, s: Word, t: Quad, maxLen: nat)
    requires p.latestTimestamp != 0
    ensures AddPacket(p, s, t, maxLen) == (Success, p) <==> Late(s, p.latestSequenceNumber)
    ensures AddOutcome(p, s, t, maxLen) == Recorded ==> !Late(s, p.latestSequenceNumber)
  {
    hide HigherThan, Delta64, SizeWithOneMore, Gap, Cut16;
    HigherIsHalfCircleAhead(s, p.latestSequenceNumber);
    RecordedDiffers(p, s, t);
  }

  lemma {:induction false} RecordedDiffers(p: Packet, s: Word, t: Quad)
    ensures Record(p, s, t) != p
  {
    hide Gap, Delta64;
    FillChunkDeltas(p.encoder, Gap(p.latestSequenceNumber, s), Delta64(p.latestTimestamp, t));
    assert Record(p, s, t).encoder.deltas != p.encoder.deltas;
  }

  /** The step of a recorded packet adds its delta. */
  lemma {:induction false} FillChunkDeltas(e: Encoder, gap: nat, delta: int)
    ensures FillChunk(e, gap, delta).deltas == e.deltas + [delta]
  {
  }

  /** What a call does once a base is set, in numbers: a late packet changes nothing; one more than 8192 above the
      latest number, or more than 8191 ms from the latest time, is fatal; one for which four more bytes, padded, find no
      room is refused; every other one is recorded. */
  lemma {:induction false} AddPacketExactly(p: Packet, s: Word, t: Quad, maxLen: nat)
    requires 0 < p.latestTimestamp < TIME_LIMIT && t < TIME_LIMIT
    ensures var (r, q) := AddPacket(p, s, t, maxLen);
            var ms := t - p.latestTimestamp;
            if Late(s, p.latestSequenceNumber) then r == Success && q == p
            else if s - p.latestSequenceNumber > 8192 || ms > 8191 || ms < -8191 then r == Fatal && q == p
            else if (20 + p.encoder.wireSize + 4 + 3) / 4 * 4 > maxLen then r == MaxSizeExceeded && q == p
            else
              && r == Success && q.encoder.deltas == p.encoder.deltas + [4 * ms]
              && q.latestSequenceNumber == s && q.latestTimestamp == t
              && q.base == p.base && q.referenceTime == p.referenceTime
              && q.ssrcs == p.ssrcs && q.feedbackCount == p.feedbackCount
  {
    hide HigherThan, Gap, Cut16, Delta64, FillChunk;
    HigherIsHalfCircleAhead(s, p.latestSequenceNumber);
    ExactDelta(p.latestTimestamp, t);
    FillChunkDeltas(p.encoder, Gap(p.latestSequenceNumber, s), Delta64(p.latestTimestamp, t));
  }

  /** What the call that sets a base does, in numbers: the base is the next number, the reference time bits 6 to 28 of
      the timestamp, and the time is rounded down to 64 ms; nothing is recorded. */
  lemma {:induction false} BaseExactly(p: Packet, s: Word, t: Quad, maxLen: nat)
    requires p.latestTimestamp == 0
    ensures var (r, q) := AddPacket(p, s, t, maxLen);
            && r == Success && q.base == (s + 1) % 0x1_0000 && q.referenceTime == t % 0x2000_0000 / 64
            && q.latestSequenceNumber == s && q.latestTimestamp == t - t % 64
            && q.encoder == p.encoder && q.ssrcs == p.ssrcs && q.feedbackCount == p.feedbackCount
  {
    hide FillChunk, Delta64, HigherThan;
  }

  /** Every recorded number lies ahead of the one before, by at most half the circle. */
  predicate Ahead(h: History) {
    forall k :: 0 <= k < |h.arrivals| ==>
      var previous := if k == 0 then h.start else h.arrivals[k - 1].sequenceNumber;
      0 < (h.arrivals[k].sequenceNumber - previous) % 0x1_0000 <= 0x8000
  }

  lemma {:induction false} AheadAfter(h: History, s: Word, t: int)
    requires Ahead(h) && 0 < (s - LatestSeq(h)) % 0x1_0000 <= 0x8000
    ensures Ahead(After(h, s, t))
  {
  }

  /** Every AddPacket call either sets a base, which it does exactly when the latest timestamp is zero, or leaves the
      packet alone, or appends exactly the arrival it was given. */
  lemma {:induction false} AddPacketTracks(p: Packet, h: History, s: Word, t: Quad, maxLen: nat)
    requires Tracks(p, h) && t < TIME_LIMIT
    ensures var (r, q) := AddPacket(p, s, t, maxLen);
            var o := AddOutcome(p, s, t, maxLen);
            && (o == SetsBase <==> LatestTime(h) == 0)
            && (o == Recorded ==> Tracks(q, After(h, s, t)))
            && (o !in {SetsBase, Recorded} ==> q == p)
  {
    if AddOutcome(p, s, t, maxLen) == Recorded {
      RecordTracks(p, h, s, t);
    }
  }

  lemma {:induction false} RecordTracks(p: Packet, h: History, s: Word, t: Quad)
    requires Tracks(p, h) && t < TIME_LIMIT
    requires -MAX_DELTA <= Delta64(p.latestTimestamp, t) <= MAX_DELTA
    ensures Tracks(Record(p, s, t), After(h, s, t))
  {
    hide Sound, LogOf, FillChunk, Delta64, Gap, FloorTo64, ReferenceTimeOf, NextSeq, GapsFit, EncoderOf;
    ExactDelta(p.latestTimestamp, t);
    EncoderAfter(h, s, t);
    HistorySound(h);
    FillChunkSound(EncoderOf(h), Gap(LatestSeq(h), s), (t - LatestTime(h)) * 4);
  }

  // ----- what the log of a history reports

  /** The received results only. */
  function Heard(rs: seq<PacketResult>): seq<PacketResult> {
    if rs == [] then []
    else Heard(rs[..|rs| - 1]) + (if rs[|rs| - 1].received then [rs[|rs| - 1]] else [])
  }

  lemma {:induction false} HeardAppend(a: seq<PacketResult>, b: seq<PacketResult>)
    ensures Heard(a + b) == Heard(a) + Heard(b)
  {
    if b == [] {
      assert a + b == a;
    } else {
      assert (a + b)[..|a + b| - 1] == a + b[..|b| - 1];
      HeardAppend(a, b[..|b| - 1]);
    }
  }

  /** The multiple of 2^29 ms the 24-bit reference time cannot carry. */
  function LostTime(h: History): int {
    h.startTime / 0x2000_0000 * 0x2000_0000
  }

  /** What the receiver of a packet should hear: each arrival's own sequence number, the exact
      time since the one before, and its timestamp up to the lost multiple of 2^29 ms. */
  function Expected(h: History): seq<PacketResult>
    decreases |h.arrivals|
  {
    if h.arrivals == [] then []
    else
      var b := Before(h);
      Expected(b)
      + [PacketResult(LatestSeq(h), true, (LatestTime(h) - LatestTime(b)) * 4, LatestTime(h) - LostTime(h))]
  }

  /** Sum of the whole milliseconds of a list of deltas. */
  function Elapsed(ds: seq<int>): int {
    if ds == [] then 0 else Elapsed(ds[..|ds| - 1]) + QuarterOf(ds[|ds| - 1])
  }

  lemma {:induction false} LogResultsExtend(log: seq<Entry>, gap: nat, delta: int, s: Word, clock: int)
    ensures LogResults(Extend(log, gap, delta), s, clock)
         == LogResults(log, s, clock)
            + LogResults(Extend([], gap, delta), Cut16(s + |log|), clock + Elapsed(DeltasOf(log)))
  {
    LogResultsAppend(log, Extend([], gap, delta), s, clock);
    assert Extend(log, gap, delta) == log + Extend([], gap, delta);
  }

  lemma {:induction false} ElapsedCons(d: int, ds: seq<int>)
    ensures Elapsed([d] + ds) == QuarterOf(d) + Elapsed(ds)
  {
    if ds == [] {
      assert [d] + ds == [d] && [d][..0] == [];
    } else {
      ElapsedCons(d, ds[..|ds| - 1]);
      assert ([d] + ds)[..|ds|] == [d] + ds[..|ds| - 1];
    }
  }

  /** The result of the first entry of a log. */
  function FirstResult(x: Entry, s: Word, clock: int): PacketResult {
    match x
    case Missing => PacketResult(s, false, 0, 0)
    case Arrived(d) => PacketResult(s, true, d, clock + QuarterOf(d))
  }

  function ClockAfter(x: Entry, clock: int): int {
    match x
    case Missing => clock
    case Arrived(d) => clock + QuarterOf(d)
  }

  lemma {:induction false} LogResultsCons(x: Entry, log: seq<Entry>, s: Word, clock: int)
    ensures LogResults([x] + log, s, clock)
         == [FirstResult(x, s, clock)] + LogResults(log, NextSeq(s), ClockAfter(x, clock))
  {
    hide Cut16;
    assert ([x] + log)[0] == x && ([x] + log)[1..] == log;
  }

  lemma {:induction false} ClockCons(x: Entry, log: seq<Entry>, clock: int)
    ensures ClockAfter(x, clock) + Elapsed(DeltasOf(log)) == clock + Elapsed(DeltasOf([x] + log))
  {
    assert ([x] + log)[0] == x && ([x] + log)[1..] == log;
    DeltasOfCons([x] + log);
    hide DeltasOf, Elapsed, QuarterOf;
    match x
    case Missing => assert [] + DeltasOf(log) == DeltasOf(log);
    case Arrived(d) => ElapsedCons(d, DeltasOf(log));
  }

  lemma {:induction false} CutNextAdd(s: Word, n: nat)
    ensures Cut16(NextSeq(s) + n) == Cut16(s + (n + 1))
  {
    CutAdd(s + 1, n);
  }

  lemma {:induction false} LogResultsNone(b: seq<Entry>, s: Word, clock: int)
    ensures LogResults([] + b, s, clock)
         == LogResults([], s, clock) + LogResults(b, Cut16(s + 0), clock + Elapsed(DeltasOf([])))
  {
    assert [] + b == b;
    NoWrap(s);
  }

  lemma {:induction false} LogResultsAppend(a: seq<Entry>, b: seq<Entry>, s: Word, clock: int)
    ensures LogResults(a + b, s, clock)
         == LogResults(a, s, clock) + LogResults(b, Cut16(s + |a|), clock + Elapsed(DeltasOf(a)))
  {
    hide LogResults, Cut16, Elapsed, DeltasOf, FirstResult, ClockAfter, NextSeq;
    if a == [] {
      LogResultsNone(b, s, clock);
    } else {
      var x, rest := a[0], a[1..];
      assert a == [x] + rest && a + b == [x] + (rest + b);
      LogResultsCons(x, rest, s, clock);
      LogResultsCons(x, rest + b, s, clock);
      ClockCons(x, rest, clock);
      var s', clock' := NextSeq(s), ClockAfter(x, clock);
      LogResultsAppend(rest, b, s', clock');
      CutNextAdd(s, |rest|);
      var f, front := FirstResult(x, s, clock), LogResults(rest, s', clock');
      var back := LogResults(b, Cut16(s' + |rest|), clock' + Elapsed(DeltasOf(rest)));
      assert [f] + (front + back) == ([f] + front) + back;
    }
  }

  /** `gap` missing packets and one received. */
  lemma {:induction false} StepResults(gap: nat, delta: int, s: Word, clock: int)
    ensures var rs := LogResults(Extend([], gap, delta), s, clock);
            && |rs| == gap + 1
            && Heard(rs) == [PacketResult(Cut16(s + gap), true, delta, clock + QuarterOf(delta))]
            && rs[gap] == PacketResult(Cut16(s + gap), true, delta, clock + QuarterOf(delta))
  {
    var log := Extend([], gap, delta);
    if gap == 0 {
      assert log == [Arrived(delta)];
      NoWrap(s);
      var r := PacketResult(s, true, delta, clock + QuarterOf(delta));
      assert LogResults(log, s, clock) == [r] + LogResults([], NextSeq(s), clock + QuarterOf(delta)) == [r];
      assert [r][..0] == [];
    } else {
      assert log[0] == Missing && log[1..] == Extend([], gap - 1, delta);
      StepResults(gap - 1, delta, NextSeq(s), clock);
      CutAdd(s + 1, gap - 1);
      var first := PacketResult(s, false, 0, 0);
      HeardAppend([first], LogResults(log[1..], NextSeq(s), clock));
      assert [first][..0] == [];
      assert Heard([first]) == [];
    }
  }

  /** Counting on from the number behind `a` by the gap to `b` arrives at `b`. */
  lemma {:induction false} GapClosesUp(base: Word, n: nat, a: Word, b: Word)
    requires Cut16(base + n) == NextSeq(a)
    ensures Cut16(Cut16(base + n) + Gap(a, b)) == b
    ensures Cut16(base + (n + Gap(a, b) + 1)) == NextSeq(b)
  {
    GapFromNext(a, b);
    hide Cut16, Gap;
    var gap: int := Gap(a, b);
    var m: int := base + n;
    CutAdd(m, gap);
    CutAdd(m + gap, 1);
  }

  lemma {:induction false} GapFromNext(a: Word, b: Word)
    ensures Cut16(NextSeq(a) + Gap(a, b)) == b
  {
  }

  /** Where the log of a history ends: at the latest sequence number. */
  lemma {:induction false} LogPosition(h: History)
    ensures Cut16(NextSeq(h.start) + |LogOf(h)|) == NextSeq(LatestSeq(h))
    decreases |h.arrivals|
  {
    hide Cut16, NextSeq, Gap;
    if h.arrivals == [] {
      NoWrap(NextSeq(h.start));
    } else {
      var b := Before(h);
      LogPosition(b);
      GapClosesUp(NextSeq(h.start), |LogOf(b)|, LatestSeq(b), LatestSeq(h));
    }
  }

  /** How much time its deltas add up to: all of it. */
  lemma {:induction false} LogClock(h: History)
    ensures FloorTo64(h.startTime) + Elapsed(DeltasOf(LogOf(h))) == LatestTime(h)
    decreases |h.arrivals|
  {
    hide FloorTo64, Gap, DeltasOf, StatusesOf, QuarterOf;
    if h.arrivals == [] {
      NoDeltas();
    } else {
      var b := Before(h);
      LogClock(b);
      var gap, delta := Gap(LatestSeq(b), LatestSeq(h)), (LatestTime(h) - LatestTime(b)) * 4;
      StatusesOfExtend(LogOf(b), gap, delta);
      ElapsedSnoc(DeltasOf(LogOf(b)), delta);
      WholeMilliseconds(LatestTime(h) - LatestTime(b));
    }
  }

  lemma {:induction false} ElapsedSnoc(ds: seq<int>, d: int)
    ensures Elapsed(ds + [d]) == Elapsed(ds) + QuarterOf(d)
  {
    assert (ds + [d])[..|ds|] == ds;
  }

  /** Reading the log of a history from its base tells every arrival apart: who, how long after the last, and when. */
  lemma {:induction false} HistoryHeard(h: History)
    ensures var rs := LogResults(LogOf(h), NextSeq(h.start), FloorTo64(h.startTime) - LostTime(h));
            && Heard(rs) == Expected(h)
            && |rs| == |LogOf(h)|
            && (rs != [] ==> rs[|rs| - 1].sequenceNumber == LatestSeq(h) && rs[|rs| - 1].received)
    decreases |h.arrivals|
  {
    hide Cut16, NextSeq, Gap, FloorTo64, LogResults, LostTime, Elapsed, DeltasOf, QuarterOf;
    if h.arrivals == [] {
      NothingHeard(NextSeq(h.start), FloorTo64(h.startTime) - LostTime(h));
    } else {
      var b := Before(h);
      HistoryHeard(b);
      LogPosition(b);
      LogClock(b);
      SameLostTime(h);
      var gap, delta := Gap(LatestSeq(b), LatestSeq(h)), (LatestTime(h) - LatestTime(b)) * 4;
      var s, clock := NextSeq(h.start), FloorTo64(h.startTime) - LostTime(h);
      var s', clock' := NextSeq(LatestSeq(b)), LatestTime(b) - LostTime(h);
      LogResultsExtend(LogOf(b), gap, delta, s, clock);
      StepResults(gap, delta, s', clock');
      GapClosesUp(s, |LogOf(b)|, LatestSeq(b), LatestSeq(h));
      WholeMilliseconds(LatestTime(h) - LatestTime(b));
      HeardAppend(LogResults(LogOf(b), s, clock), LogResults(Extend([], gap, delta), s', clock'));
    }
  }

  lemma {:induction false} NoDeltas()
    ensures DeltasOf([]) == []
  {
  }

  lemma {:induction false} SameLostTime(h: History)
    requires h.arrivals != []
    ensures LostTime(Before(h)) == LostTime(h)
  {
  }

  lemma {:induction false} NothingHeard(s: Word, clock: int)
    ensures LogResults([], s, clock) == [] && Heard([]) == []
  {
  }

  lemma {:induction false} WholeMilliseconds(ms: int)
    ensures QuarterOf(ms * 4) == ms
  {
  }

  // ----- whole runs

  /** A received RTP packet: its 16-bit sequence number and the local clock. */
  datatype Event = Event(sequenceNumber: Word, now: Quad)

  /** The packet after a run of AddPacket calls. */
  function FeedAll(p: Packet, events: seq<Event>, maxLen: nat): Packet {
    if events == [] then p
    else
      var x := events[|events| - 1];
      AddPacket(FeedAll(p, events[..|events| - 1], maxLen), x.sequenceNumber, x.now, maxLen).1
  }

  /** What the run recorded: the events whose call took the Recorded way. */
  function HistoryAll(p: Packet, h: History, events: seq<Event>, maxLen: nat): History {
    if events == [] then h
    else
      var init, x := events[..|events| - 1], events[|events| - 1];
      var before := HistoryAll(p, h, init, maxLen);
      if AddOutcome(FeedAll(p, init, maxLen), x.sequenceNumber, x.now, maxLen) == Recorded
      then After(before, x.sequenceNumber, x.now)
      else before
  }

  predicate TimesOk(events: seq<Event>) {
    forall i :: 0 <= i < |events| ==> events[i].now < TIME_LIMIT
  }

  // ----- whether the base survives

  /** No call of the run sets the base again. */
  predicate KeepsBase(p: Packet, events: seq<Event>, maxLen: nat) {
    events == [] ||
    var init, x := events[..|events| - 1], events[|events| - 1];
    KeepsBase(p, init, maxLen) && AddOutcome(FeedAll(p, init, maxLen), x.sequenceNumber, x.now, maxLen) != SetsBase
  }

  /** No arrival was recorded at time zero, which the packet would take for no base at all. */
  predicate NoneAtZero(h: History) {
    forall i :: 0 <= i < |h.arrivals| ==> h.arrivals[i].timestamp != 0
  }

  lemma {:induction false} BaseHeldIff(p: Packet, h: History, events: seq<Event>, maxLen: nat)
    requires p.latestTimestamp != 0 && NoneAtZero(h)
    ensures KeepsBase(p, events, maxLen) && FeedAll(p, events, maxLen).latestTimestamp != 0 <==>
            NoneAtZero(HistoryAll(p, h, events, maxLen))
  {
    hide FillChunk, Gap, Delta64, SizeWithOneMore, SeqHigherThan;
    if events != [] {
      var init, x := events[..|events| - 1], events[|events| - 1];
      BaseHeldIff(p, h, init, maxLen);
      ZeroAfter(HistoryAll(p, h, init, maxLen), x.sequenceNumber, x.now);
    }
  }

  lemma {:induction false} ZeroAfter(h: History, s: Word, t: int)
    ensures NoneAtZero(After(h, s, t)) <==> NoneAtZero(h) && t != 0
  {
    var g := After(h, s, t);
    assert g.arrivals[|h.arrivals|].timestamp == t;
    assert forall i :: 0 <= i < |h.arrivals| ==> g.arrivals[i] == h.arrivals[i];
  }

  /** The base survives a run exactly when no arrival recorded before its last call was stamped zero. */
  lemma {:induction false} BaseSurvivesIff(p: Packet, h: History, events: seq<Event>, maxLen: nat)
    requires p.latestTimestamp != 0 && NoneAtZero(h) && events != []
    ensures KeepsBase(p, events, maxLen) <==> NoneAtZero(HistoryAll(p, h, events[..|events| - 1], maxLen))
  {
    BaseHeldIff(p, h, events[..|events| - 1], maxLen);
  }

  /** So over every run that keeps its base, each recorded number lies ahead of the one before: no gap exceeds
      0x7FFF, and nothing late is ever reported. */
  lemma {:induction false} RunsAhead(p: Packet, h: History, events: seq<Event>, maxLen: nat)
    requires p.latestSequenceNumber == LatestSeq(h) && Ahead(h)
    requires KeepsBase(p, events, maxLen)
    ensures FeedAll(p, events, maxLen).latestSequenceNumber == LatestSeq(HistoryAll(p, h, events, maxLen))
    ensures Ahead(HistoryAll(p, h, events, maxLen))
  {
    if events != [] {
      hide SeqHigherThan, Gap, Cut16, Delta64, SizeWithOneMore, Ahead;
      var init, x := events[..|events| - 1], events[|events| - 1];
      RunsAhead(p, h, init, maxLen);
      var q, g := FeedAll(p, init, maxLen), HistoryAll(p, h, init, maxLen);
      if AddOutcome(q, x.sequenceNumber, x.now, maxLen) == Recorded {
        LateIgnoredIff(q, x.sequenceNumber, x.now, maxLen);
        AheadAfter(g, x.sequenceNumber, x.now);
      }
    }
  }

  // ----- the size every run keeps to

  /** The finished packet is at most eight bytes longer than the limit. */
  predicate Bounded(e: Encoder, maxLen: nat) {
    WireSize(Flush(e)) <= maxLen + 8
  }

  lemma {:induction false} PaddedGrowth(n: nat, m: nat, maxLen: nat)
    requires n + 4 + Padding(n + 4) <= maxLen && m <= n + 10
    ensures m + Padding(m) <= maxLen + 8
  {
  }

  lemma {:induction false} StepBounded(e: Encoder, gap: nat, delta: int, maxLen: nat)
    requires ContextOk(e) && SizeWithOneMore(e) <= maxLen
    ensures Bounded(FillChunk(e, gap, delta), maxLen)
  {
    hide FillChunk, Padding, Flush, ContextOk;
    ExactGrowth(e, gap, delta);
    PaddedGrowth(FIXED_SIZE + e.wireSize, FIXED_SIZE + Flush(FillChunk(e, gap, delta)).wireSize, maxLen);
  }

  /** A packet in step with its history: it tracks it within the size bound. */
  predicate InStep(p: Packet, h: History, maxLen: nat) {
    Tracks(p, h) && Bounded(p.encoder, maxLen)
  }

  lemma {:induction false} StartInStep(ssrcs: seq<Byte>, feedbackCount: Byte, s0: Word, t0: Quad, maxLen: nat)
    requires |ssrcs| == 8 && 64 <= t0 < TIME_LIMIT && FIXED_SIZE <= maxLen
    ensures InStep(SetBase(Fresh(ssrcs, feedbackCount), s0, t0), History(s0, t0, []), maxLen)
  {
  }

  /** The invariant of every run that keeps its base: the packet stays in step with its history. */
  lemma {:induction false} RunInvariant(p: Packet, h: History, events: seq<Event>, maxLen: nat)
    requires InStep(p, h, maxLen) && TimesOk(events) && KeepsBase(p, events, maxLen)
    ensures var q := FeedAll(p, events, maxLen);
            && InStep(q, HistoryAll(p, h, events, maxLen), maxLen)
            && q.ssrcs == p.ssrcs && q.feedbackCount == p.feedbackCount
  {
    hide InStep, AddOutcome, AddPacket;
    if events != [] {
      var init, x := events[..|events| - 1], events[|events| - 1];
      RunInvariant(p, h, init, maxLen);
      StepInStep(FeedAll(p, init, maxLen), HistoryAll(p, h, init, maxLen), x, maxLen);
    }
  }

  /** Every AddPacket call that does not set a base keeps packet and history in step. */
  lemma {:induction false} StepInStep(q: Packet, g: History, x: Event, maxLen: nat)
    requires InStep(q, g, maxLen) && x.now < TIME_LIMIT
    requires AddOutcome(q, x.sequenceNumber, x.now, maxLen) != SetsBase
    ensures var o := AddOutcome(q, x.sequenceNumber, x.now, maxLen);
            var r := AddPacket(q, x.sequenceNumber, x.now, maxLen).1;
            && InStep(r, if o == Recorded then After(g, x.sequenceNumber, x.now) else g, maxLen)
            && r.ssrcs == q.ssrcs && r.feedbackCount == q.feedbackCount
  {
    hide LogOf, Tracks, Bounded, Gap, FillChunk, Delta64, EncoderOf, Sound, DeltasOf, SizeWithOneMore;
    AddPacketTracks(q, g, x.sequenceNumber, x.now, maxLen);
    if AddOutcome(q, x.sequenceNumber, x.now, maxLen) == Recorded {
      TracksBase(q, g);
      HistorySound(g);
      SoundParts(q.encoder);
      StepBounded(q.encoder, Gap(q.latestSequenceNumber, x.sequenceNumber), Delta64(q.latestTimestamp, x.now), maxLen);
    }
  }

  // ----- end to end

  /** Finish and Serialize. */
  function WireBytes(p: Packet): seq<Byte>
    requires AllEncodable(Flush(p.encoder).chunks)
  {
    Encode(HeadOf(p), Flush(p.encoder))
  }

  /** What the sender side must get out of the bytes: every sequence number from the base to the latest once, in
      order; received exactly those recorded; each with its exact delta and arrival time. */
  predicate Delivers(data: seq<Byte>, p: Packet, h: History) {
    && Framed(data)
    && var d := Decode(data);
    && d.Some?
    && ReceivedCount(ExpandAll(d.value.chunks)) <= |d.value.deltas|
    && var rs := PacketResults(d.value);
    && |rs| == d.value.statusCount == |LogOf(h)|
    && Numbered(rs, p.base)
    && (rs != [] ==> rs[|rs| - 1].sequenceNumber == p.latestSequenceNumber)
    && Heard(rs) == Expected(h)
    && d.value.head.feedbackCount == p.feedbackCount
  }

  lemma {:induction false} ReferenceClock(t: Quad)
    ensures ReferenceTimeOf(t) * 64 == FloorTo64(t) - t / 0x2000_0000 * 0x2000_0000
    ensures 0 <= ReferenceTimeOf(t) < 0x80_0000
  {
    var q, r := t / 0x2000_0000, t % 0x2000_0000;
    assert t == 0x2000_0000 * q + r;
    assert t / 64 == 0x80_0000 * q + r / 64;
  }

  /** What there is to serialise, whatever the counts. */
  lemma {:induction false} ReadyToSerialize(p: Packet, h: History)
    requires Tracks(p, h)
    ensures AllEncodable(Flush(p.encoder).chunks) && Accounted(Flush(p.encoder)) && HeadOk(HeadOf(p))
    ensures |WireBytes(p)| == WireSize(Flush(p.encoder))
  {
    hide LogOf, EncoderOf, FloorTo64, Flush, LatestSeq, LatestTime, Encode, Accounted, AllEncodable;
    HistorySound(h);
    FlushSound(p.encoder);
    ReferenceClock(h.startTime);
    EncodeSize(HeadOf(p), Flush(p.encoder));
  }

  lemma {:induction false} FinishedPacket(p: Packet, h: History)
    requires Tracks(p, h) && |LogOf(h)| < 0x1_0000
    ensures var e := Flush(p.encoder);
            && HeadOk(HeadOf(p)) && Finished(e, LogOf(h)) && DeltasInRange(e.deltas)
            && (RunsFit(e.chunks) <==> GapsFit(h) && PendingFits(h))
  {
    hide LogOf, LatestSeq, LatestTime, EncoderOf, Padding, Refines, Finished, GapsFit, PendingFits, MissingRunsFit,
      ReceivedRunsFit, RunsFit, Sound;
    ReferenceClock(h.startTime);
    var e := p.encoder;
    HistoryRefines(h);
    FlushFinishes(e, LogOf(h));
    HistorySound(h);
    SoundParts(e);
    FlushSound(e);
    GapsFitIff(h);
    PendingFitsIff(h);
    FlushRunsFit(e);
    RunsFitBoth(Flush(e).chunks);
  }

  /** Every received result is one of the results. */
  lemma {:induction false} HeardWithin(rs: seq<PacketResult>, s: Word, k: nat)
    requires Numbered(rs, s) && k < |Heard(rs)|
    ensures exists i :: 0 <= i < |rs| && rs[i] == Heard(rs)[k]
  {
    var init := rs[..|rs| - 1];
    if k < |Heard(init)| {
      HeardWithin(init, s, k);
      var i :| 0 <= i < |init| && init[i] == Heard(init)[k];
      assert rs[i] == Heard(rs)[k];
    } else {
      assert rs[|rs| - 1] == Heard(rs)[k];
    }
  }

  lemma {:induction false} NumbersDiffer(s: Word, i: nat, j: nat)
    requires i < j < 0x1_0000
    ensures Cut16(s + i) != Cut16(s + j)
  {
  }

  /** A result heard at the end of one list cannot be heard in a shorter list of the same numbering. */
  lemma {:induction false} NotHeardBefore(rs: seq<PacketResult>, s: Word, r: PacketResult)
    requires Numbered(rs, s) && |rs| + 1 < 0x1_0000 && r.sequenceNumber == Cut16(s + |rs|)
    ensures Heard(rs) == [] || Heard(rs)[|Heard(rs)| - 1] != r
  {
    if Heard(rs) != [] {
      HeardWithin(rs, s, |Heard(rs)| - 1);
      var i :| 0 <= i < |rs| && rs[i] == Heard(rs)[|Heard(rs)| - 1];
      NumbersDiffer(s, i, |rs|);
    }
  }

  lemma {:induction false} LastHeard(x: seq<PacketResult>, y: seq<PacketResult>, r: PacketResult, t: PacketResult)
    requires (if r.received then x + [r] else x) == (if t.received then y + [t] else y)
    requires x == [] || x[|x| - 1] != t
    requires y == [] || y[|y| - 1] != r
    ensures r.received == t.received && x == y && (r.received ==> r == t)
  {
    var xr, yt := x + [r], y + [t];
    assert xr[|x|] == r && xr[..|x|] == x && yt[|y|] == t && yt[..|y|] == y;
  }

  /** Results of packets not received carry nothing else. */
  predicate Blank(rs: seq<PacketResult>) {
    forall i :: 0 <= i < |rs| && !rs[i].received ==> rs[i].delta == 0 && rs[i].receivedAtMs == 0
  }

  lemma {:induction false} SameLast(a: seq<PacketResult>, b: seq<PacketResult>, s: Word)
    requires a != [] && Numbered(a, s) && Numbered(b, s) && |a| == |b| < 0x1_0000 && Heard(a) == Heard(b)
    requires Blank(a) && Blank(b)
    ensures a[|a| - 1] == b[|a| - 1] && Heard(a[..|a| - 1]) == Heard(b[..|a| - 1])
  {
    hide Cut16;
    var n := |a| - 1;
    NotHeardBefore(a[..n], s, b[n]);
    NotHeardBefore(b[..n], s, a[n]);
    var x, y := Heard(a[..n]), Heard(b[..n]);
    assert Heard(a) == (if a[n].received then x + [a[n]] else x);
    assert Heard(b) == (if b[n].received then y + [b[n]] else y);
    hide Heard;
    LastHeard(x, y, a[n], b[n]);
  }

  lemma {:induction false} FrontOk(rs: seq<PacketResult>, s: Word)
    requires rs != [] && Numbered(rs, s) && Blank(rs)
    ensures Numbered(rs[..|rs| - 1], s) && Blank(rs[..|rs| - 1])
  {
  }

  /** Two equally numbered lists that let the same results be heard are the same. */
  lemma {:induction false} SameHeardSame(a: seq<PacketResult>, b: seq<PacketResult>, s: Word)
    requires Numbered(a, s) && Numbered(b, s) && |a| == |b| < 0x1_0000 && Heard(a) == Heard(b)
    requires Blank(a) && Blank(b)
    ensures a == b
  {
    if a != [] {
      hide Heard, Numbered, Blank;
      var n := |a| - 1;
      SameLast(a, b, s);
      FrontOk(a, s);
      FrontOk(b, s);
      SameHeardSame(a[..n], b[..n], s);
      assert a == a[..n] + [a[n]] && b == b[..n] + [b[n]];
    }
  }

  lemma {:induction false} BlankResults(ss: seq<Status>, ds: seq<int>, s: Word, clock: int)
    requires ReceivedCount(ss) <= |ds|
    ensures Blank(ResultsFrom(ss, ds, s, clock))
  {
    if ss != [] {
      CountFirst(ss);
      var rest := if IsReceived(ss[0]) then ds[1..] else ds;
      var t := if IsReceived(ss[0]) then clock + QuarterOf(ds[0]) else clock;
      BlankResults(ss[1..], rest, NextSeq(s), t);
      assert ResultsFrom(ss, ds, s, clock)[1..] == ResultsFrom(ss[1..], rest, NextSeq(s), t);
    }
  }

  /** What the log of a history reports is numbered from the base, and blank where nothing was received. */
  lemma {:induction false} LogNumbered(log: seq<Entry>, s: Word, clock: int)
    ensures Numbered(LogResults(log, s, clock), s) && Blank(LogResults(log, s, clock))
  {
    ResultsOfLog(log, s, clock);
    NumbersOfResults(StatusesOf(log), DeltasOf(log), s, clock);
    BlankResults(StatusesOf(log), DeltasOf(log), s, clock);
  }

  /** Bytes that deliver a history report its log, entry by entry. */
  lemma {:induction false} DeliversReports(data: seq<Byte>, p: Packet, h: History)
    requires Tracks(p, h) && Delivers(data, p, h)
    ensures |LogOf(h)| < 0x1_0000 && Reports(data, LogOf(h), p.base, p.referenceTime * 64)
  {
    hide LogOf, Decode, EncoderOf, ExpandAll, LogResults, Heard, Expected, ReceivedCount, Numbered, Blank;
    var d := Decode(data).value;
    ReferenceClock(h.startTime);
    HistoryHeard(h);
    LogNumbered(LogOf(h), p.base, p.referenceTime * 64);
    BlankResults(ExpandAll(d.chunks), d.deltas, d.head.base, d.head.referenceTime * 64);
    SameHeardSame(PacketResults(d), LogResults(LogOf(h), p.base, p.referenceTime * 64), p.base);
  }

  /** For any packet that tracks a history: its bytes deliver the history exactly when every gap fits a 13-bit run, so
      does every stretch of equal statuses, and the number of statuses fits the 16-bit count. */
  lemma {:induction false} PacketDeliversIff(p: Packet, h: History)
    requires Tracks(p, h)
    ensures AllEncodable(Flush(p.encoder).chunks) && |WireBytes(p)| == WireSize(Flush(p.encoder))
    ensures |LogOf(h)| < 0x1_0000 ==> Finished(Flush(p.encoder), LogOf(h)) && Framed(WireBytes(p))
    ensures Delivers(WireBytes(p), p, h) <==> GapsFit(h) && PendingFits(h) && |LogOf(h)| < 0x1_0000
  {
    hide Tracks, LogOf, GapsFit, PendingFits, Encode, WireSize, Flush, Delivers, Finished, RunsFit, Reports;
    ReadyToSerialize(p, h);
    if Delivers(WireBytes(p), p, h) {
      DeliversReports(WireBytes(p), p, h);
    }
    if |LogOf(h)| < 0x1_0000 {
      FinishedPacket(p, h);
      ReportsIffRunsFit(HeadOf(p), Flush(p.encoder), LogOf(h));
      if RunsFit(Flush(p.encoder).chunks) {
        DecodeEncode(HeadOf(p), Flush(p.encoder), LogOf(h));
        DeliveredLog(p, h);
      }
    }
  }

  lemma {:induction false} DeliveredLog(p: Packet, h: History)
    requires Tracks(p, h) && |LogOf(h)| < 0x1_0000 && Finished(Flush(p.encoder), LogOf(h))
    requires Framed(WireBytes(p))
    requires Reports(WireBytes(p), LogOf(h), p.base, p.referenceTime * 64)
    requires Mirrors(Decode(WireBytes(p)).value, HeadOf(p), Flush(p.encoder))
    ensures Delivers(WireBytes(p), p, h)
  {
    hide LogOf, WireBytes, Decode, LogResults, Flush, EncoderOf, ReferenceTimeOf, FloorTo64;
    HistoryHeard(h);
    ReferenceClock(h.startTime);
    var d := Decode(WireBytes(p)).value;
    NumbersOfResults(ExpandAll(d.chunks), d.deltas, p.base, p.referenceTime * 64);
    NoWrap(|LogOf(h)|);
  }

  /** END TO END, over every run that keeps its base, under any limit: what is written is as long as GetSize says and at
      most eight bytes longer than the limit, and the receiver of the bytes learns exactly what happened (every sequence
      number, delta and arrival time) if and only if every gap and every stretch of equal statuses fits a 13-bit run and
      the number of statuses the 16-bit count. */
  lemma {:induction false} EndToEnd(
      ssrcs: seq<Byte>, feedbackCount: Byte, s0: Word, t0: Quad, events: seq<Event>, maxLen: nat)
    requires |ssrcs| == 8 && 64 <= t0 < TIME_LIMIT && TimesOk(events) && FIXED_SIZE <= maxLen
    requires KeepsBase(SetBase(Fresh(ssrcs, feedbackCount), s0, t0), events, maxLen)
    ensures var p0 := SetBase(Fresh(ssrcs, feedbackCount), s0, t0);
            var h := HistoryAll(p0, History(s0, t0, []), events, maxLen);
            var p := FeedAll(p0, events, maxLen);
            && AllEncodable(Flush(p.encoder).chunks)
            && |WireBytes(p)| == WireSize(Flush(p.encoder)) <= maxLen + 8
            && (|LogOf(h)| < 0x1_0000 ==> Finished(Flush(p.encoder), LogOf(h)) && Framed(WireBytes(p)))
            && (Delivers(WireBytes(p), p, h) <==> GapsFit(h) && PendingFits(h) && |LogOf(h)| < 0x1_0000)
            && p.feedbackCount == feedbackCount
  {
    hide Delivers, Encode, LogOf, GapsFit, PendingFits, Tracks, AllEncodable, WireSize, Flush, FeedAll, HistoryAll,
      Finished, Framed,
      KeepsBase, ReferenceTimeOf, FloorTo64;
    var p0 := SetBase(Fresh(ssrcs, feedbackCount), s0, t0);
    StartInStep(ssrcs, feedbackCount, s0, t0, maxLen);
    RunInvariant(p0, History(s0, t0, []), events, maxLen);
    PacketDeliversIff(FeedAll(p0, events, maxLen), HistoryAll(p0, History(s0, t0, []), events, maxLen));
  }
}
