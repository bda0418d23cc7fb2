/** Where AddPacket's own guards bind, where they do not, and how far the size check lets a packet grow. */
module FeedbackLimits {
  import opened Bytes
  import opened SeqOrder
  import opened Chunks
  import opened FeedbackEncoder
  import opened FeedbackWire
  import opened FeedbackRoundTrip
  import opened FeedbackRuns

  /** The missing-packets guard works on plain integers: it stops a gap beyond 8191 exactly when the
      sequence number has not wrapped since the latest one. */
  lemma {:induction false} GuardExact(p: Packet, s: Word, t: Quad, maxLen: nat)
    requires p.latestTimestamp != 0 && SeqHigherThan(s, p.latestSequenceNumber)
    ensures AddOutcome(p, s, t, maxLen) == TooManyMissing <==>
            s > p.latestSequenceNumber && Gap(p.latestSequenceNumber, s) > MAX_MISSING
    ensures AddOutcome(p, s, t, maxLen) == Recorded && s > p.latestSequenceNumber ==>
            Gap(p.latestSequenceNumber, s) <= MAX_RUN
  {
    hide Delta64, SizeWithOneMore;
  }

  /** So a run whose sequence numbers never wrap has short gaps only, and its status count fits too. */
  lemma {:induction false} UnwrappedGapsFit(p: Packet, h: History, events: seq<Event>, maxLen: nat)
    requires p.latestSequenceNumber == LatestSeq(h) && ShortGaps(h) && |LogOf(h)| == LatestSeq(h) - h.start
    requires KeepsBase(p, events, maxLen) && NeverWraps(p, events, maxLen)
    ensures var q, g := FeedAll(p, events, maxLen), HistoryAll(p, h, events, maxLen);
            && q.latestSequenceNumber == LatestSeq(g)
            && ShortGaps(g) && |LogOf(g)| == LatestSeq(g) - g.start
  {
    hide Gap, Delta64, SizeWithOneMore, FillChunk, LogOf;
    if events != [] {
      var init, x := events[..|events| - 1], events[|events| - 1];
      UnwrappedGapsFit(p, h, init, maxLen);
      var q, g := FeedAll(p, init, maxLen), HistoryAll(p, h, init, maxLen);
      if AddOutcome(q, x.sequenceNumber, x.now, maxLen) == Recorded {
        GuardExact(q, x.sequenceNumber, x.now, maxLen);
        AfterBefore(g, x.sequenceNumber, x.now);
        GapUnwrapped(q.latestSequenceNumber, x.sequenceNumber);
      }
    }
  }

  lemma {:induction false} GapUnwrapped(a: Word, b: Word)
    requires b > a
    ensures Gap(a, b) == b - a - 1
  {
  }

  /** The smallest limit under which a stretch of equal statuses can outgrow a 13-bit run. */
  const LONG_LIMIT: nat := 8216

  lemma {:induction false} PendingGrowth(e: Encoder, gap: nat, delta: int)
    requires ContextOk(e)
    ensures |FillChunk(e, gap, delta).pending| <= |e.pending| + 1 || |FillChunk(e, gap, delta).pending| <= 7
  {
    if gap > 0 {
      MissContext(e, gap);
    }
  }

  lemma {:induction false} InStepTracks(p: Packet, h: History, maxLen: nat)
    requires InStep(p, h, maxLen)
    ensures Tracks(p, h)
  {
    hide Tracks;
  }

  /** Under a smaller limit the packet is full before that. */
  lemma {:induction false} SmallLimitPendingFits(p: Packet, h: History, events: seq<Event>, maxLen: nat)
    requires InStep(p, h, maxLen) && PendingFits(h) && TimesOk(events) && KeepsBase(p, events, maxLen)
    requires maxLen < LONG_LIMIT
    ensures PendingFits(HistoryAll(p, h, events, maxLen))
  {
    hide InStep, SeqHigherThan, Delta64, Padding, EncoderOf;
    if events != [] {
      var init, x := events[..|events| - 1], events[|events| - 1];
      SmallLimitPendingFits(p, h, init, maxLen);
      RunInvariant(p, h, init, maxLen);
      InStepTracks(FeedAll(p, init, maxLen), HistoryAll(p, h, init, maxLen), maxLen);
      if AddOutcome(FeedAll(p, init, maxLen), x.sequenceNumber, x.now, maxLen) == Recorded {
        hide AddOutcome, PendingFits, Tracks;
        SmallLimitStep(FeedAll(p, init, maxLen), HistoryAll(p, h, init, maxLen), x, maxLen);
      }
    }
  }

  lemma {:induction false} PendingAfter(h: History)
    requires h.arrivals != [] && PendingFits(Before(h)) && |EncoderOf(h).pending| <= MAX_RUN
    ensures PendingFits(h)
  {
    hide EncoderOf;
  }

  lemma {:induction false} RoomLeft(e: Encoder, maxLen: nat)
    requires Sound(e) && SizeWithOneMore(e) <= maxLen < LONG_LIMIT
    ensures ContextOk(e) && |e.pending| < MAX_RUN
  {
    hide ContextOk;
    PendingBound(e);
  }

  lemma {:induction false} SmallLimitStep(q: Packet, g: History, x: Event, maxLen: nat)
    requires Tracks(q, g) && PendingFits(g) && maxLen < LONG_LIMIT
    requires AddOutcome(q, x.sequenceNumber, x.now, maxLen) == Recorded
    ensures PendingFits(After(g, x.sequenceNumber, x.now))
  {
    hide FillChunk, Sound, ContextOk, LogOf, Gap, GapsFit, Delta64, SeqHigherThan, FloorTo64, EncoderOf, LatestSeq,
      LatestTime, SizeWithOneMore, PendingFits;
    HistorySound(g);
    RoomLeft(EncoderOf(g), maxLen);
    PendingGrowth(EncoderOf(g), Gap(LatestSeq(g), x.sequenceNumber), (x.now - LatestTime(g)) * 4);
    AfterBefore(g, x.sequenceNumber, x.now);
    EncoderAfter(g, x.sequenceNumber, x.now);
    PendingAfter(After(g, x.sequenceNumber, x.now));
  }

  /** A run whose recorded sequence numbers never wrap delivers exactly when no stretch of equal statuses outgrows a
      13-bit run, which no limit below LONG_LIMIT lets happen. */
  lemma {:induction false} UnwrappedDelivers(
      ssrcs: seq<Byte>, feedbackCount: Byte, s0: Word, t0: Quad, events: seq<Event>, maxLen: nat)
    requires |ssrcs| == 8 && 64 <= t0 < TIME_LIMIT && TimesOk(events) && FIXED_SIZE <= maxLen
    requires KeepsBase(SetBase(Fresh(ssrcs, feedbackCount), s0, t0), events, maxLen)
    requires NeverWraps(SetBase(Fresh(ssrcs, feedbackCount), s0, t0), events, maxLen)
    ensures var p0 := SetBase(Fresh(ssrcs, feedbackCount), s0, t0);
            var h := HistoryAll(p0, History(s0, t0, []), events, maxLen);
            var p := FeedAll(p0, events, maxLen);
            && Finished(Flush(p.encoder), LogOf(h)) && Framed(WireBytes(p))
            && (Delivers(WireBytes(p), p, h) <==> PendingFits(h))
            && (maxLen < LONG_LIMIT ==> Delivers(WireBytes(p), p, h))
  {
    var p0, h0 := SetBase(Fresh(ssrcs, feedbackCount), s0, t0), History(s0, t0, []);
    assert PendingFits(h0);
    hide Delivers, Encode, FeedAll, HistoryAll, NeverWraps, KeepsBase, GapsFit, PendingFits, EncoderOf, Flush, WireSize,
      AllEncodable, InStep, FloorTo64, ReferenceTimeOf;
    EndToEnd(ssrcs, feedbackCount, s0, t0, events, maxLen);
    UnwrappedGapsFit(p0, h0, events, maxLen);
    ShortGapsFit(HistoryAll(p0, h0, events, maxLen));
    if maxLen < LONG_LIMIT {
      StartInStep(ssrcs, feedbackCount, s0, t0, maxLen);
      SmallLimitPendingFits(p0, h0, events, maxLen);
    }
  }

  /** No recorded sequence number is numerically below the one recorded before it. */
  predicate NeverWraps(p: Packet, events: seq<Event>, maxLen: nat) {
    events == [] ||
    var init, x := events[..|events| - 1], events[|events| - 1];
    var q := FeedAll(p, init, maxLen);
    && NeverWraps(p, init, maxLen)
    && (AddOutcome(q, x.sequenceNumber, x.now, maxLen) == Recorded ==> x.sequenceNumber > q.latestSequenceNumber)
  }

  /** The step of FeedAll from its right end. */
  lemma {:induction false} FeedOneMore(p: Packet, events: seq<Event>, x: Event, maxLen: nat)
    ensures FeedAll(p, events + [x], maxLen) == AddPacket(FeedAll(p, events, maxLen), x.sequenceNumber, x.now, maxLen).1
  {
    assert (events + [x])[..|events|] == events;
  }

  /** Across the wrap the guard lets 15535 missing packets through, and the bytes no longer tell the truth. */
  lemma {:induction false} GuardMissesWrap()
    ensures var p0 := SetBase(Fresh(Repeat(0, 8), 0), 60000, 64000);
            var events := [Event(10000, 64010)];
            var p := FeedAll(p0, events, 1400);
            var h := HistoryAll(p0, History(60000, 64000, []), events, 1400);
            && h.arrivals == [Arrival(10000, 64010)]
            && Finished(Flush(p.encoder), LogOf(h)) && Framed(WireBytes(p)) && !Delivers(WireBytes(p), p, h)
  {
    var p0 := SetBase(Fresh(Repeat(0, 8), 0), 60000, 64000);
    var h0 := History(60000, 64000, []);
    var events := [Event(10000, 64010)];
    assert events[..0] == [];
    ExactDelta(64000, 64010);
    assert SizeWithOneMore(EMPTY) == 24;
    assert AddOutcome(p0, 10000, 64010, 1400) == Recorded;
    assert Gap(60000, 10000) == 15535;
    assert HistoryAll(p0, h0, events, 1400) == After(h0, 10000, 64010);
    EncoderAfter(h0, 10000, 64010);
    AfterBefore(h0, 10000, 64010);
    assert LogOf(h0) == [] && |LogOf(After(h0, 10000, 64010))| == 15536;
    assert !GapsFit(After(h0, 10000, 64010));
    hide Delivers, Encode, Flush, FillChunk, GapsFit, PendingFits, WireSize, LogOf, Finished, Framed;
    EndToEnd(Repeat(0, 8), 0, 60000, 64000, events, 1400);
  }

  lemma {:induction false} ZeroStep(p: Packet)
    requires p.encoder == EMPTY && p.latestSequenceNumber == 10 && p.latestTimestamp == 64
    ensures AddPacket(p, 11, 0, 1400).1.latestTimestamp == 0 && AddPacket(p, 11, 0, 1400).1.encoder.deltas == [-256]
  {
    ExactDelta(64, 0);
    hide Delta64;
    assert SizeWithOneMore(EMPTY) == 24 && Gap(10, 11) == 0;
    assert AddOutcome(p, 11, 0, 1400) == Recorded;
  }

  /** A base, an arrival stamped zero, and the next call sets another base: the delta of the arrival stays behind. */
  lemma {:induction false} BaseSetAgain(ssrcs: seq<Byte>)
    requires |ssrcs| == 8
    ensures var p := FeedAll(Fresh(ssrcs, 0), [Event(10, 64), Event(11, 0), Event(500, 1000)], 1400);
            p.base == 501 && p.latestSequenceNumber == 500 && p.encoder.deltas == [-256]
  {
    var p0, a, b, c := Fresh(ssrcs, 0), Event(10, 64), Event(11, 0), Event(500, 1000);
    assert FeedAll(p0, [], 1400) == p0;
    assert [] + [a] == [a] && [a] + [b] == [a, b] && [a, b] + [c] == [a, b, c];
    hide FeedAll, Record, Delta64, SizeWithOneMore, SeqHigherThan;
    FeedOneMore(p0, [], a, 1400);
    var p1 := SetBase(p0, 10, 64);
    assert FeedAll(p0, [a], 1400) == p1;
    FeedOneMore(p0, [a], b, 1400);
    ZeroStep(p1);
    hide AddPacket, AddOutcome;
    FeedOneMore(p0, [a, b], c, 1400);
    SetsAgain(AddPacket(p1, 11, 0, 1400).1, c);
  }

  lemma {:induction false} SetsAgain(p: Packet, x: Event)
    requires p.latestTimestamp == 0
    ensures AddPacket(p, x.sequenceNumber, x.now, 1400).1 == SetBase(p, x.sequenceNumber, x.now)
  {
    hide Record, SetBase;
  }

  /** The 16-bit status count on the wire is the number of statuses exactly while that number fits;
      IsFull alone does not see to it, a single gap can carry the count past the seven it reserves. */
  lemma {:induction false} StatusCountExact(p: Packet, h: History)
    requires Tracks(p, h)
    ensures Flush(p.encoder).statusCount == |LogOf(h)| <==> |LogOf(h)| < 0x1_0000
  {
    hide LogOf, EncoderOf, Flush, Refines, Cut16;
    if |LogOf(h)| < 0x1_0000 {
      HistoryRefines(h);
      FlushFinishes(p.encoder, LogOf(h));
      NoWrap(|LogOf(h)|);
    }
  }

  // ----- exactly when the finished packet stays within the limit

  /** The bytes of a packet finished right after a step, before they are padded. */
  function SizeAfter(e: Encoder, gap: nat, delta: int): nat {
    FIXED_SIZE + e.wireSize + DeltaSize(delta) + 2 * ChunksAdded(e, gap, delta)
  }

  /** AddPacket checks for one chunk and two bytes of delta; a recorded packet stays within the limit exactly when the
      chunks and the delta its step really writes do. */
  lemma {:induction false} StaysWithinIff(p: Packet, h: History, s: Word, t: Quad, maxLen: nat)
    requires Tracks(p, h) && AddOutcome(p, s, t, maxLen) == Recorded
    ensures var n := SizeAfter(p.encoder, Gap(p.latestSequenceNumber, s), Delta64(p.latestTimestamp, t));
            && WireSize(Flush(AddPacket(p, s, t, maxLen).1.encoder)) == n + Padding(n)
            && (WireSize(Flush(AddPacket(p, s, t, maxLen).1.encoder)) <= maxLen <==> n + Padding(n) <= maxLen)
  {
    hide Sound, EncoderOf, LogOf, FillChunk, Flush, ChunksAdded, Gap, Delta64, SeqHigherThan, SizeWithOneMore, Padding,
      ContextOk, LatestTime, LatestSeq, FloorTo64, ReferenceTimeOf;
    HistorySound(h);
    SoundParts(p.encoder);
    ExactGrowth(p.encoder, Gap(p.latestSequenceNumber, s), Delta64(p.latestTimestamp, t));
  }

  /** A step that writes one chunk only stays within the limit: it takes a gap behind a long run, a completed vector
      with more missing, or a broken run to exceed it. */
  lemma {:induction false} OneChunkStaysWithin(p: Packet, h: History, s: Word, t: Quad, maxLen: nat)
    requires Tracks(p, h) && AddOutcome(p, s, t, maxLen) == Recorded
    requires ChunksAdded(p.encoder, Gap(p.latestSequenceNumber, s), Delta64(p.latestTimestamp, t)) == 1
    ensures WireSize(Flush(AddPacket(p, s, t, maxLen).1.encoder)) <= maxLen
  {
    hide EncoderOf, LogOf, FillChunk, Flush, ChunksAdded, Gap, Delta64, SeqHigherThan, WireSize, AddPacket;
    StaysWithinIff(p, h, s, t, maxLen);
    PaddedMonotone(SizeAfter(p.encoder, Gap(p.latestSequenceNumber, s), Delta64(p.latestTimestamp, t)),
                   FIXED_SIZE + p.encoder.wireSize + 4);
  }

  lemma {:induction false} PaddedMonotone(a: nat, b: nat)
    requires a <= b
    ensures a + Padding(a) <= b + Padding(b)
  {
  }

  /** The size of a packet finished with its last arrival. */
  function FinishedSize(h: History): nat
    requires h.arrivals != []
  {
    var b := Before(h);
    SizeAfter(EncoderOf(b), Gap(LatestSeq(b), LatestSeq(h)), (LatestTime(h) - LatestTime(b)) * 4)
  }

  lemma {:induction false} FinishedSizeExact(h: History)
    requires h.arrivals != []
    ensures WireSize(Flush(EncoderOf(h))) == FinishedSize(h) + Padding(FinishedSize(h))
  {
    hide Sound, LogOf, FillChunk, Flush, ChunksAdded, Gap;
    var b := Before(h);
    HistorySound(b);
    SoundParts(EncoderOf(b));
    ExactGrowth(EncoderOf(b), Gap(LatestSeq(b), LatestSeq(h)), (LatestTime(h) - LatestTime(b)) * 4);
  }

  // ----- packets in order, one a millisecond

  /** Sequence numbers 1, 2, ..., a millisecond apart. */
  function SmallEvents(n: nat): seq<Event>
    requires n < 0xFFFF
  {
    seq(n, i requires 0 <= i < n => Event(1 + i, 6401 + i))
  }

  function SmallState(n: nat): Packet
    requires n < 0x1_0000
  {
    Packet(Repeat(0, 8), 1, 100, n, 6400 + n, 0,
           Encoder(true, if n == 0 then Unset else SmallDelta, Repeat(SmallDelta, n), [], Repeat(4, n), 0, n))
  }

  /** Room for the n-th of them. */
  predicate RoomFor(n: nat, maxLen: nat) {
    FIXED_SIZE + n + 3 + Padding(FIXED_SIZE + n + 3) <= maxLen
  }

  lemma {:induction false} SmallRun(n: nat, maxLen: nat)
    requires n < 0xFFFF && RoomFor(n, maxLen)
    ensures FeedAll(SmallState(0), SmallEvents(n), maxLen) == SmallState(n)
    ensures KeepsBase(SmallState(0), SmallEvents(n), maxLen)
  {
    if n > 0 {
      PaddedMonotone(FIXED_SIZE + n + 2, FIXED_SIZE + n + 3);
      SmallRun(n - 1, maxLen);
      assert SmallEvents(n)[..n - 1] == SmallEvents(n - 1);
      assert SmallEvents(n)[n - 1] == Event(n, 6400 + n);
      hide SmallState, SmallEvents, AddPacket, AddOutcome, RoomFor;
      SmallStep(n, maxLen);
    }
  }

  lemma {:induction false} SmallStep(n: nat, maxLen: nat)
    requires 0 < n < 0xFFFF && RoomFor(n, maxLen)
    ensures AddOutcome(SmallState(n - 1), n, 6400 + n, maxLen) == Recorded
    ensures AddPacket(SmallState(n - 1), n, 6400 + n, maxLen).1 == SmallState(n)
  {
    var p := SmallState(n - 1);
    assert Repeat(SmallDelta, n - 1) + [SmallDelta] == Repeat(SmallDelta, n);
    assert Repeat(4, n - 1) + [4] == Repeat(4, n);
    assert Delta64(p.latestTimestamp, 6400 + n) == 4;
    assert Gap(n - 1, n) == 0;
    assert SizeWithOneMore(p.encoder) <= maxLen;
  }

  lemma {:induction false} SmallStart()
    ensures SmallState(0) == SetBase(Fresh(Repeat(0, 8), 0), 0, 6400)
  {
  }

  /** Under every limit from LONG_LIMIT on, 8192 packets in order do not arrive: their one run is cut to none. */
  lemma {:induction false} LongRunLost(maxLen: nat)
    requires LONG_LIMIT <= maxLen
    ensures var p0, events := SetBase(Fresh(Repeat(0, 8), 0), 0, 6400), SmallEvents(8192);
            var p := FeedAll(p0, events, maxLen);
            && Flush(p.encoder).chunks == [RunLength(SmallDelta, 8192)]
            && ParseChunk(ChunkWord(RunLength(SmallDelta, 8192)), 8192) == Some(RunLength(SmallDelta, 0))
            && !Delivers(WireBytes(p), p, HistoryAll(p0, History(0, 6400, []), events, maxLen))
  {
    var p0, h0, events := SmallState(0), History(0, 6400, []), SmallEvents(8192);
    SmallStart();
    SmallRun(8192, maxLen);
    LongRunChunk();
    SmallTimes(8192);
    RunRoundTrip(SmallDelta, 8192, 8192);
    hide SmallState, SmallEvents, FeedAll, HistoryAll, KeepsBase, Delivers, Encode, WireSize, TimesOk, InStep, Fresh,
      SetBase, GapsFit, LogOf, EncoderOf, Tracks;
    StartInStep(Repeat(0, 8), 0, 0, 6400, maxLen);
    RunInvariant(p0, h0, events, maxLen);
    LongPending(FeedAll(p0, events, maxLen), HistoryAll(p0, h0, events, maxLen), maxLen);
    EndToEnd(Repeat(0, 8), 0, 0, 6400, events, maxLen);
  }

  lemma {:induction false} LongRunChunk()
    ensures Flush(SmallState(8192).encoder).chunks == [RunLength(SmallDelta, 8192)]
    ensures |SmallState(8192).encoder.pending| == 8192
  {
    assert [] + [RunLength(SmallDelta, 8192)] == [RunLength(SmallDelta, 8192)];
  }

  /** Packets in order become one run, however few; a run of seven or more that another status breaks is written at
      once, and what breaks it goes into a vector, even alone. */
  lemma {:induction false} RunsWritten(n: nat)
    requires 0 < n < 0x2000
    ensures Flush(SmallState(n).encoder).chunks == [RunLength(SmallDelta, n)]
    ensures var e := FillChunk(SmallState(n).encoder, 0, 400);
            Flush(e).chunks == if n >= 7 then [RunLength(SmallDelta, n), TwoBitVector([LargeDelta])]
                               else [TwoBitVector(Repeat(SmallDelta, n) + [LargeDelta])]
  {
    hide Repeat;
    var e := SmallState(n).encoder;
    assert e.pending == Repeat(SmallDelta, n) && |e.pending| == n;
    NoWrap(n);
    assert [] + [RunLength(SmallDelta, n)] == [RunLength(SmallDelta, n)];
    assert [] + [LargeDelta] == [LargeDelta];
    assert [RunLength(SmallDelta, n)] + [TwoBitVector([LargeDelta])]
        == [RunLength(SmallDelta, n), TwoBitVector([LargeDelta])];
    assert [] + [TwoBitVector(e.pending + [LargeDelta])] == [TwoBitVector(e.pending + [LargeDelta])];
  }

  lemma {:induction false} SmallTimes(n: nat)
    requires n < 0xFFFF
    ensures TimesOk(SmallEvents(n))
  {
  }

  lemma {:induction false} LongPending(p: Packet, h: History, maxLen: nat)
    requires InStep(p, h, maxLen) && |p.encoder.pending| > MAX_RUN
    ensures !PendingFits(h)
  {
    hide EncoderOf, LogOf;
  }

  // ----- the size bound is reached

  lemma {:induction false} StepSize(n: nat, s: Word, t: Quad, maxLen: nat, gap: Word, delta: int)
    requires n < 0x1_0000 && AddOutcome(SmallState(n), s, t, maxLen) == Recorded
    requires Gap(n, s) == gap && Delta64(6400 + n, t) == delta && ContextOk(SmallState(n).encoder)
    ensures var w := FIXED_SIZE + n + DeltaSize(delta) + 2 * ChunksAdded(SmallState(n).encoder, gap, delta);
            WireSize(Flush(AddPacket(SmallState(n), s, t, maxLen).1.encoder)) == w + Padding(w)
  {
    hide FillChunk, Flush, ContextOk, ChunksAdded, Gap, Delta64, SeqHigherThan, SizeWithOneMore;
    ExactGrowth(SmallState(n).encoder, gap, delta);
  }

  /** The last packet is the ninth after the last one in order, 100 ms later: seven missing packets fill a vector, one
      is left for a run, and the delta is a large one. */
  lemma {:induction false} LateStep(n: nat, maxLen: nat)
    requires 7 <= n < 0xFFF0 && RoomFor(n + 1, maxLen)
    ensures AddOutcome(SmallState(n), n + 9, 6500 + n, maxLen) == Recorded
    ensures Gap(n, n + 9) == 8 && Delta64(6400 + n, 6500 + n) == 400
    ensures ContextOk(SmallState(n).encoder) && ChunksAdded(SmallState(n).encoder, 8, 400) == 4
  {
    ExactDelta(6400 + n, 6500 + n);
  }

  /** Three chunks, one large delta and one pending chunk in the last step: eight bytes above the limit, whatever the
      limit. */
  lemma {:induction false} SizeBoundReached(maxLen: nat)
    requires 32 <= maxLen < 0x1_0000 && maxLen % 4 == 0
    ensures var n := maxLen - 25;
            var p0 := SetBase(Fresh(Repeat(0, 8), 0), 0, 6400);
            var p := FeedAll(p0, SmallEvents(n) + [Event(n + 9, 6500 + n)], maxLen);
            WireSize(Flush(p.encoder)) == maxLen + 8
  {
    hide SmallEvents, SmallState, FeedAll, AddOutcome, AddPacket, Flush, ContextOk, ChunksAdded, WireSize, Gap,
      Delta64, Fresh, SetBase;
    var n := maxLen - 25;
    SmallStart();
    SmallRun(n, maxLen);
    FeedOneMore(SmallState(0), SmallEvents(n), Event(n + 9, 6500 + n), maxLen);
    LateStep(n, maxLen);
    StepSize(n, n + 9, 6500 + n, maxLen, 8, 400);
  }

  /** One packet lost behind 1376 in order, a millisecond apart. */
  lemma {:induction false} LostStep()
    ensures AddOutcome(SmallState(1376), 1378, 7777, 1400) == Recorded
    ensures Gap(1376, 1378) == 1 && Delta64(7776, 7777) == 4
    ensures ContextOk(SmallState(1376).encoder) && ChunksAdded(SmallState(1376).encoder, 1, 4) == 2
  {
    ExactDelta(7776, 7777);
  }
}
