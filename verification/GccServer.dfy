/** GCCServer::rtp_handler and SendTransportCcFeedback as a state machine over runs of received RTP
    packets, and how the feedback packets it sends tile the run. */
module GccServer {
  import opened Bytes
  import opened SeqOrder
  import opened Chunks
  import opened FeedbackEncoder
  import opened FeedbackWire
  import opened FeedbackRoundTrip
  import opened FeedbackRuns
  import opened FeedbackLimits

  const MTU: nat := 1400

  /** The open feedback packet, the 8-bit count, and what went to the socket, as it was when serialised. */
  datatype Server = Server(open: Packet, packetCount: Byte, sent: seq<Packet>)

  function Start(ssrcs: seq<Byte>): Server {
    Server(Fresh(ssrcs, 0), 0, [])
  }

  function NextCount(n: Byte): Byte {
    (n + 1) % 0x100
  }

  /** The packet that follows a sent one: its base is passed on from the latest packet of the sent one. */
  function Successor(p: Packet, count: Byte): Packet {
    var blank := Fresh(p.ssrcs, count);
    if p.latestTimestamp > 0 then AddPacket(blank, p.latestSequenceNumber, p.latestTimestamp, MTU).1 else blank
  }

  predicate IsSerializable(p: Packet) {
    |p.encoder.deltas| > 0
  }

  predicate IsFull(p: Packet) {
    p.encoder.statusCount >= 0xFFFF - 7
  }

  /** SendTransportCcFeedback. */
  function Send(s: Server): Server {
    if !IsSerializable(s.open) then s
    else Server(Successor(s.open, NextCount(s.packetCount)), NextCount(s.packetCount), s.sent + [s.open])
  }

  /** rtp_handler. The result of the second AddPacket is ignored. */
  function Handle(s: Server, x: Event): Server {
    var (result, p) := AddPacket(s.open, x.sequenceNumber, x.now, MTU);
    match result
    case Success => if IsFull(p) then Send(s.(open := p)) else s.(open := p)
    case MaxSizeExceeded =>
      var after := Send(s.(open := p));
      after.(open := AddPacket(after.open, x.sequenceNumber, x.now, MTU).1)
    case Fatal => s.(open := Fresh(s.open.ssrcs, s.packetCount))
  }

  function HandleAll(s: Server, events: seq<Event>): Server {
    if events == [] then s else Handle(HandleAll(s, events[..|events| - 1]), events[|events| - 1])
  }

  /** Whether the event gets recorded: at once, or in the packet that replaces a full one. */
  predicate Records(s: Server, x: Event) {
    match AddOutcome(s.open, x.sequenceNumber, x.now, MTU)
    case Recorded => true
    case Oversized => AddOutcome(Send(s).open, x.sequenceNumber, x.now, MTU) == Recorded
    case _ => false
  }

  predicate Resets(s: Server, x: Event) {
    AddOutcome(s.open, x.sequenceNumber, x.now, MTU) in {TooManyMissing, DeltaTooLarge}
  }

  // ----- what the run means

  /** What happened since the last reset: the histories of the packets sent, the one being filled
      (none before a base is set), and every arrival recorded, in order. */
  datatype Epoch = Epoch(sent: seq<History>, open: Option<History>, recorded: seq<Arrival>)

  /** Epochs ended by a reset, and the current one. */
  datatype Trace = Trace(past: seq<Epoch>, current: Epoch)

  const NEW_EPOCH := Epoch([], None, [])

  function TraceSend(s: Server, e: Epoch): Epoch {
    if !IsSerializable(s.open) || e.open.None? then e
    else e.(sent := e.sent + [e.open.value],
            open := Some(History(s.open.latestSequenceNumber, s.open.latestTimestamp, [])))
  }

  function TraceRecord(e: Epoch, x: Event): Epoch {
    if e.open.None? then e
    else e.(open := Some(After(e.open.value, x.sequenceNumber, x.now)))
  }

  /** How an event moves the histories; `recorded` is kept by Records alone. */
  function TraceStep(s: Server, t: Trace, x: Event): Trace {
    if Resets(s, x) then Trace(t.past + [t.current], NEW_EPOCH)
    else
      var e := if Records(s, x) then t.current.(recorded := t.current.recorded + [Arrival(x.sequenceNumber, x.now)])
               else t.current;
      match AddOutcome(s.open, x.sequenceNumber, x.now, MTU)
      case SetsBase => t.(current := e.(open := Some(History(x.sequenceNumber, x.now, []))))
      case Recorded =>
        var p := Record(s.open, x.sequenceNumber, x.now);
        var recorded := TraceRecord(e, x);
        t.(current := if IsFull(p) then TraceSend(s.(open := p), recorded) else recorded)
      case Oversized =>
        var sent := TraceSend(s, e);
        t.(current := if Records(s, x) then TraceRecord(sent, x) else sent)
      case _ => t.(current := if IsFull(s.open) then TraceSend(s, e) else e)
  }

  function TraceAll(s: Server, t: Trace, events: seq<Event>): Trace {
    if events == [] then t
    else
      var init := events[..|events| - 1];
      TraceStep(HandleAll(s, init), TraceAll(s, t, init), events[|events| - 1])
  }

  function SentHistories(es: seq<Epoch>): seq<History> {
    if es == [] then [] else SentHistories(es[..|es| - 1]) + es[|es| - 1].sent
  }

  function AllSent(t: Trace): seq<History> {
    SentHistories(t.past) + t.current.sent
  }

  /** The arrivals of a list of histories, one after the other. */
  function ArrivalsOf(hs: seq<History>): seq<Arrival> {
    if hs == [] then [] else ArrivalsOf(hs[..|hs| - 1]) + hs[|hs| - 1].arrivals
  }

  /** The next packet starts where this one ended. */
  predicate Follows(h: History, next: History) {
    next.start == LatestSeq(h) && next.startTime == LatestTime(h)
  }

  predicate Chained(hs: seq<History>) {
    forall k :: 0 <= k < |hs| - 1 ==> Follows(hs[k], hs[k + 1])
  }

  /** Sent packets and the open one tile what the epoch recorded: adjacent ranges, every arrival in exactly one. */
  predicate Tiles(e: Epoch) {
    && Chained(e.sent)
    && (e.sent != [] ==> e.open.Some? && Follows(e.sent[|e.sent| - 1], e.open.value))
    && AllArrive(e.sent)
    && e.recorded == ArrivalsOf(e.sent) + (if e.open.Some? then e.open.value.arrivals else [])
  }

  predicate AllArrive(hs: seq<History>) {
    forall k :: 0 <= k < |hs| ==> hs[k].arrivals != []
  }

  /** The k-th packet sent: it is in step with its history, has something to report, and carries k modulo 256. */
  predicate SentOk(p: Packet, h: History, k: nat) {
    InStep(p, h, MTU) && PendingFits(h) && h.arrivals != [] && p.feedbackCount == k % 0x100
  }

  predicate OpenOk(p: Packet, open: Option<History>) {
    && |p.ssrcs| == 8
    && match open
       case None => p == Fresh(p.ssrcs, p.feedbackCount)
       case Some(h) =>
         InStep(p, h, MTU) && PendingFits(h) && 64 <= LatestTime(h)
  }

  predicate Good(s: Server, t: Trace) {
    && OpenOk(s.open, t.current.open)
    && s.packetCount == |s.sent| % 0x100 && s.open.feedbackCount == s.packetCount
    && AllSentOk(s.sent, AllSent(t))
    && Tiles(t.current)
    && (forall i :: 0 <= i < |t.past| ==> Tiles(t.past[i]))
  }

  /** The only thing asked of a run: clocks from 64 ms to 2^61 ms. */
  predicate ClockOk(x: Event) {
    64 <= x.now < TIME_LIMIT
  }

  predicate ClocksOk(events: seq<Event>) {
    forall i :: 0 <= i < |events| ==> ClockOk(events[i])
  }

  // ----- proofs

  /** Recording an event keeps the open packet in order. */
  lemma {:induction false} RecordKeepsOpen(p: Packet, h: History, x: Event)
    requires OpenOk(p, Some(h)) && ClockOk(x)
    requires AddOutcome(p, x.sequenceNumber, x.now, MTU) == Recorded
    ensures OpenOk(Record(p, x.sequenceNumber, x.now), Some(After(h, x.sequenceNumber, x.now)))
  {
    hide InStep, AddOutcome, Gap, PendingFits, Tracks;
    StepInStep(p, h, x, MTU);
    InStepTracks(p, h, MTU);
    SmallLimitStep(p, h, x, MTU);
  }

  /** A fresh packet with the base passed on is in order, and its history starts where the old one ended. */
  lemma {:induction false} SuccessorOpens(p: Packet, h: History, count: Byte)
    requires OpenOk(p, Some(h))
    ensures OpenOk(Successor(p, count), Some(History(p.latestSequenceNumber, p.latestTimestamp, [])))
    ensures Successor(p, count).feedbackCount == count && Successor(p, count).ssrcs == p.ssrcs
    ensures Successor(p, count) == SetBase(Fresh(p.ssrcs, count), p.latestSequenceNumber, p.latestTimestamp)
    ensures p.latestSequenceNumber == LatestSeq(h) && p.latestTimestamp == LatestTime(h)
  {
    hide LogOf, Tracks, Bounded, FloorTo64, LatestSeq;
    TracksBase(p, h);
    BlankPendingFits(p.latestSequenceNumber, p.latestTimestamp);
    hide PendingFits;
    FloorKeeps64(p.latestTimestamp);
    StartInStep(p.ssrcs, count, p.latestSequenceNumber, p.latestTimestamp, MTU);
  }

  lemma {:induction false} BlankPendingFits(s: Word, t: Quad)
    ensures PendingFits(History(s, t, []))
  {
  }

  lemma {:induction false} FloorKeeps64(t: Quad)
    ensures t >= 64 ==> FloorTo64(t) >= 64
  {
  }

  lemma {:induction false} CountUp(k: nat)
    ensures NextCount(k % 0x100) == (k + 1) % 0x100
  {
  }

  lemma {:induction false} ArrivalsSnoc(hs: seq<History>, h: History)
    ensures ArrivalsOf(hs + [h]) == ArrivalsOf(hs) + h.arrivals
  {
    assert (hs + [h])[..|hs|] == hs;
  }

  lemma {:induction false} SerializableHasArrivals(p: Packet, h: History)
    requires Tracks(p, h)
    ensures IsSerializable(p) <==> h.arrivals != []
  {
    HistorySound(h);
  }

  lemma {:induction false} SendTiles(s: Server, e: Epoch)
    requires Tiles(e) && OpenOk(s.open, e.open)
    ensures Tiles(TraceSend(s, e))
  {
    if IsSerializable(s.open) && e.open.Some? {
      hide Tracks, Bounded, LogOf, LatestSeq, LatestTime, Successor, Chained, ArrivalsOf, AllArrive;
      var h := e.open.value;
      TracksBase(s.open, h);
      SerializableHasArrivals(s.open, h);
      ClosedTiles(e, h, History(s.open.latestSequenceNumber, s.open.latestTimestamp, []));
    }
  }

  /** Closing the open history and going on from its end keeps an epoch tiled. */
  lemma {:induction false} ClosedTiles(e: Epoch, h: History, next: History)
    requires Tiles(e) && e.open == Some(h) && h.arrivals != []
    requires Follows(h, next) && next.arrivals == []
    ensures Tiles(e.(sent := e.sent + [h], open := Some(next)))
  {
    hide Chained, ArrivalsOf, AllArrive, Follows;
    ArrivalsSnoc(e.sent, h);
    ChainedSnoc(e.sent, h);
    var sent := e.sent + [h];
    assert AllArrive(sent) by { AllArriveSnoc(e.sent, h); }
    assert sent[|sent| - 1] == h;
    assert ArrivalsOf(sent) + next.arrivals == ArrivalsOf(sent);
  }

  lemma {:induction false} AllArriveSnoc(hs: seq<History>, h: History)
    requires AllArrive(hs) && h.arrivals != []
    ensures AllArrive(hs + [h])
  {
  }

  lemma {:induction false} ChainedSnoc(hs: seq<History>, h: History)
    requires Chained(hs) && (hs != [] ==> Follows(hs[|hs| - 1], h))
    ensures Chained(hs + [h])
  {
    hide Follows;
  }

  predicate AllSentOk(ps: seq<Packet>, hs: seq<History>) {
    |ps| == |hs| && forall k :: 0 <= k < |ps| ==> SentOk(ps[k], hs[k], k)
  }

  lemma {:induction false} SendOpens(s: Server, t: Trace)
    requires Good(s, t) && IsSerializable(s.open)
    ensures t.current.open.Some?
    ensures var e := TraceSend(s, t.current);
            && OpenOk(Send(s).open, e.open)
            && Send(s).open.feedbackCount == Send(s).packetCount == (|s.sent| + 1) % 0x100
            && SentOk(s.open, t.current.open.value, |s.sent|)
            && Send(s).sent == s.sent + [s.open]
            && AllSent(t.(current := e)) == AllSent(t) + [t.current.open.value]
  {
    hide Tracks, Bounded, LogOf, Tiles, Successor, Fresh, AllSentOk, SentHistories;
    FreshNotSerializable(s.open, t.current);
    InStepTracks(s.open, t.current.open.value, MTU);
    SerializableHasArrivals(s.open, t.current.open.value);
    SuccessorOpens(s.open, t.current.open.value, NextCount(s.packetCount));
    CountUp(|s.sent|);
  }

  lemma {:induction false} SendKeeps(s: Server, t: Trace)
    requires Good(s, t)
    ensures Good(Send(s), t.(current := TraceSend(s, t.current)))
  {
    hide Tiles, OpenOk, AllSent, AllSentOk, IsSerializable;
    SendTiles(s, t.current);
    if IsSerializable(s.open) {
      SendOpens(s, t);
      SentGrows(s.sent, AllSent(t), s.open, t.current.open.value);
      hide Send, TraceSend;
    }
  }

  lemma {:induction false} SentGrows(ps: seq<Packet>, hs: seq<History>, p: Packet, h: History)
    requires AllSentOk(ps, hs) && SentOk(p, h, |ps|)
    ensures AllSentOk(ps + [p], hs + [h])
  {
    hide SentOk;
  }

  lemma {:induction false} FreshNotSerializable(p: Packet, e: Epoch)
    requires OpenOk(p, e.open) && IsSerializable(p)
    ensures e.open.Some?
  {
  }

  lemma {:induction false} RecordTiles(e: Epoch, x: Event)
    requires Tiles(e) && e.open.Some?
    ensures Tiles(TraceRecord(e.(recorded := e.recorded + [Arrival(x.sequenceNumber, x.now)]), x))
  {
    var a := Arrival(x.sequenceNumber, x.now);
    assert ArrivalsOf(e.sent) + (e.open.value.arrivals + [a]) == (ArrivalsOf(e.sent) + e.open.value.arrivals) + [a];
  }

  lemma {:induction false} RecordKeeps(s: Server, t: Trace, x: Event)
    requires Good(s, t) && ClockOk(x)
    requires AddOutcome(s.open, x.sequenceNumber, x.now, MTU) == Recorded
    ensures var e := t.current.(recorded := t.current.recorded + [Arrival(x.sequenceNumber, x.now)]);
            Good(s.(open := Record(s.open, x.sequenceNumber, x.now)), t.(current := TraceRecord(e, x)))
  {
    hide Tiles, Tracks, Bounded, LogOf, Contents, Gap, FillChunk;
    RecordedHasBase(s.open, t.current, x);
    RecordKeepsOpen(s.open, t.current.open.value, x);
    RecordTiles(t.current, x);
  }

  lemma {:induction false} RecordedHasBase(p: Packet, e: Epoch, x: Event)
    requires OpenOk(p, e.open) && AddOutcome(p, x.sequenceNumber, x.now, MTU) != SetsBase
    ensures e.open.Some?
  {
  }

  lemma {:induction false} BaseOpens(p: Packet, x: Event)
    requires |p.ssrcs| == 8 && p == Fresh(p.ssrcs, p.feedbackCount) && ClockOk(x)
    ensures OpenOk(SetBase(p, x.sequenceNumber, x.now), Some(History(x.sequenceNumber, x.now, [])))
    ensures !IsFull(SetBase(p, x.sequenceNumber, x.now))
    ensures SetBase(p, x.sequenceNumber, x.now).feedbackCount == p.feedbackCount
  {
    hide LogOf;
    BlankPendingFits(x.sequenceNumber, x.now);
    StartInStep(p.ssrcs, p.feedbackCount, x.sequenceNumber, x.now, MTU);
  }

  lemma {:induction false} BaseTiles(e: Epoch, x: Event)
    requires Tiles(e) && e.open.None?
    ensures Tiles(e.(open := Some(History(x.sequenceNumber, x.now, []))))
  {
    assert ArrivalsOf(e.sent) + [] == ArrivalsOf(e.sent);
  }

  lemma {:induction false} BaseKeeps(s: Server, t: Trace, x: Event)
    requires Good(s, t) && ClockOk(x)
    requires AddOutcome(s.open, x.sequenceNumber, x.now, MTU) == SetsBase
    ensures Good(s.(open := SetBase(s.open, x.sequenceNumber, x.now)),
                 t.(current := t.current.(open := Some(History(x.sequenceNumber, x.now, [])))))
    ensures !IsFull(SetBase(s.open, x.sequenceNumber, x.now))
  {
    hide Tiles, Tracks, Bounded, LogOf, SetBase, Fresh, IsFull, SentOk;
    BasedIsTimed(s.open, t.current);
    BaseTiles(t.current, x);
    BaseOpens(s.open, x);
  }

  lemma {:induction false} BasedIsTimed(p: Packet, e: Epoch)
    requires OpenOk(p, e.open)
    ensures e.open.Some? <==> p.latestTimestamp != 0
  {
  }

  lemma {:induction false} ResetKeeps(s: Server, t: Trace)
    requires Good(s, t)
    ensures Good(s.(open := Fresh(s.open.ssrcs, s.packetCount)), Trace(t.past + [t.current], NEW_EPOCH))
  {
    hide Tracks, Bounded, LogOf;
    var u := Trace(t.past + [t.current], NEW_EPOCH);
    assert u.past[..|t.past|] == t.past;
    assert AllSent(u) == AllSent(t);
  }

  /** After a full packet has been sent, the event is recorded in the next one exactly when it is no more than
      32767 quarter-milliseconds after the latest arrival rounded down to 64 ms; otherwise it goes unreported. */
  lemma {:induction false} RetryRecordsIff(s: Server, t: Trace, x: Event)
    requires Good(s, t) && ClockOk(x)
    requires AddOutcome(s.open, x.sequenceNumber, x.now, MTU) == Oversized
    ensures IsSerializable(s.open)
    ensures AddOutcome(Send(s).open, x.sequenceNumber, x.now, MTU) in {Recorded, DeltaTooLarge}
    ensures Records(s, x) <==> (x.now - FloorTo64(s.open.latestTimestamp)) * 4 <= MAX_DELTA
    ensures !Records(s, x) ==> Handle(s, x) == Send(s)
  {
    hide InStep, FloorTo64, AddOutcome, SizeWithOneMore, LogOf;
    OversizedIsSerializable(s.open, t.current, x);
    SuccessorOpens(s.open, t.current.open.value, NextCount(s.packetCount));
    OpenTimes(s.open, t.current.open.value);
    SuccessorOutcome(s.open, NextCount(s.packetCount), x);
  }

  lemma {:induction false} OpenTimes(p: Packet, h: History)
    requires OpenOk(p, Some(h))
    ensures 64 <= p.latestTimestamp < TIME_LIMIT
  {
    hide LogOf;
  }

  /** What becomes of a retried event in the packet that follows. */
  lemma {:induction false} SuccessorOutcome(p: Packet, count: Byte, x: Event)
    requires 64 <= p.latestTimestamp < TIME_LIMIT && ClockOk(x)
    requires AddOutcome(p, x.sequenceNumber, x.now, MTU) == Oversized
    ensures var q := SetBase(Fresh(p.ssrcs, count), p.latestSequenceNumber, p.latestTimestamp);
            AddOutcome(q, x.sequenceNumber, x.now, MTU) ==
            if (x.now - FloorTo64(p.latestTimestamp)) * 4 <= MAX_DELTA then Recorded else DeltaTooLarge
  {
    ExactDelta(p.latestTimestamp, x.now);
    ExactDelta(FloorTo64(p.latestTimestamp), x.now);
    hide Delta64;
    assert SizeWithOneMore(EMPTY) == 24;
  }

  lemma {:induction false} OversizedIsSerializable(p: Packet, e: Epoch, x: Event)
    requires OpenOk(p, e.open) && AddOutcome(p, x.sequenceNumber, x.now, MTU) == Oversized
    ensures e.open.Some? && IsSerializable(p)
  {
    hide Bounded, LogOf, GapsFit, PendingFits;
    RecordedHasBase(p, e, x);
    SerializableHasArrivals(p, e.open.value);
    assert e.open.value.arrivals == [] ==> p.encoder == EMPTY;
  }

  lemma {:induction false} TraceSendCommutes(s: Server, e: Epoch, recorded: seq<Arrival>)
    ensures TraceSend(s, e.(recorded := recorded)) == TraceSend(s, e).(recorded := recorded)
    ensures TraceSend(s, e).recorded == e.recorded
  {
  }

  lemma {:induction false} OversizedKeeps(s: Server, t: Trace, x: Event)
    requires Good(s, t) && ClockOk(x) && AddOutcome(s.open, x.sequenceNumber, x.now, MTU) == Oversized
    ensures Good(Handle(s, x), TraceStep(s, t, x))
  {
    hide Tiles, Tracks, Bounded, LogOf, Gap, TraceSend, TraceRecord, Record, SentOk, FloorTo64;
    SendKeeps(s, t);
    RetryRecordsIff(s, t, x);
    TraceSendCommutes(s, t.current, t.current.recorded + [Arrival(x.sequenceNumber, x.now)]);
    if Records(s, x) {
      RecordKeeps(Send(s), t.(current := TraceSend(s, t.current)), x);
    }
  }

  lemma {:induction false} StepKeeps(s: Server, t: Trace, x: Event)
    requires Good(s, t) && ClockOk(x)
    ensures Good(Handle(s, x), TraceStep(s, t, x))
  {
    hide Good, Tracks, Bounded, LogOf, Contents, Gap, IsFull, Send, TraceSend, TraceRecord, Record, SetBase;
    match AddOutcome(s.open, x.sequenceNumber, x.now, MTU)
    case SetsBase => BaseKeeps(s, t, x);
    case Ignored => SendKeeps(s, t);
    case TooManyMissing => ResetKeeps(s, t);
    case DeltaTooLarge => ResetKeeps(s, t);
    case Recorded =>
      RecordKeeps(s, t, x);
      var e := t.current.(recorded := t.current.recorded + [Arrival(x.sequenceNumber, x.now)]);
      SendKeeps(s.(open := Record(s.open, x.sequenceNumber, x.now)), t.(current := TraceRecord(e, x)));
    case Oversized => OversizedKeeps(s, t, x);
  }

  lemma {:induction false} StartGood(ssrcs: seq<Byte>)
    requires |ssrcs| == 8
    ensures Good(Start(ssrcs), Trace([], NEW_EPOCH))
  {
  }

  lemma {:induction false} RunKeeps(s: Server, t: Trace, events: seq<Event>)
    requires Good(s, t) && ClocksOk(events)
    ensures Good(HandleAll(s, events), TraceAll(s, t, events))
  {
    if events != [] {
      hide Good, Handle, TraceStep;
      var init := events[..|events| - 1];
      RunKeeps(s, t, init);
      StepKeeps(HandleAll(s, init), TraceAll(s, t, init), events[|events| - 1]);
    }
  }

  // ----- when a packet is sent

  /** The statuses written in chunks, as 16 bits count them. */
  function StatusesWritten(p: Packet): nat {
    |ExpandAll(p.encoder.chunks)| % 0x1_0000
  }

  lemma {:induction false} OpenCounts(p: Packet, e: Epoch)
    requires OpenOk(p, e.open)
    ensures p.encoder.statusCount == StatusesWritten(p)
    ensures StatusesWritten(p) > 0 ==> p.encoder.deltas != []
  {
    hide Bounded, LogOf, PendingFits, ContextOk, ReferenceTimeOf, FloorTo64, DeltasInRange, GapsFit;
    if e.open.Some? {
      HistorySound(e.open.value);
      assert e.open.value.arrivals == [] ==> p.encoder == EMPTY;
    }
  }

  /** A received packet makes the server send its feedback on two occasions only: when no room is left for it, the
      packet so far is sent without it; otherwise, with it in when it was recorded, exactly when at least 65528
      statuses have been written in chunks, counted modulo 2^16. A reset sends nothing. */
  lemma {:induction false} SendsIff(s: Server, t: Trace, x: Event)
    requires Good(s, t) && ClockOk(x)
    ensures var (r, q) := AddPacket(s.open, x.sequenceNumber, x.now, MTU);
            Handle(s, x).sent ==
              match r
              case Success => (if StatusesWritten(q) >= 65528 then s.sent + [q] else s.sent)
              case MaxSizeExceeded => s.sent + [s.open]
              case Fatal => s.sent
    ensures Handle(s, x).packetCount ==
            if Handle(s, x).sent == s.sent then s.packetCount else (s.packetCount + 1) % 0x100
    ensures AddPacket(s.open, x.sequenceNumber, x.now, MTU).0 == Fatal ==>
              Handle(s, x).open == Packet(s.open.ssrcs, 0, 0, 0, 0, s.packetCount, EMPTY)
  {
    hide Tiles, Tracks, Bounded, AllSentOk, SentHistories, PendingFits, Successor, StatusesWritten, Record, SetBase,
      OpenOk;
    var r := AddPacket(s.open, x.sequenceNumber, x.now, MTU).0;
    if r == MaxSizeExceeded {
      OversizedIsSerializable(s.open, t.current, x);
    } else if r == Success {
      AddedCounts(s, t, x);
    }
  }

  /** The open packet after a call that succeeds. */
  lemma {:induction false} AddedCounts(s: Server, t: Trace, x: Event)
    requires Good(s, t) && ClockOk(x)
    requires AddPacket(s.open, x.sequenceNumber, x.now, MTU).0 == Success
    ensures var q := AddPacket(s.open, x.sequenceNumber, x.now, MTU).1;
            && q.encoder.statusCount == StatusesWritten(q)
            && (StatusesWritten(q) > 0 ==> q.encoder.deltas != [])
  {
    hide Tiles, Tracks, Bounded, AllSentOk, SentHistories, PendingFits, StatusesWritten, Record, SetBase, OpenOk,
      IsFull;
    match AddOutcome(s.open, x.sequenceNumber, x.now, MTU)
    case SetsBase =>
      BaseKeeps(s, t, x);
      OpenCounts(SetBase(s.open, x.sequenceNumber, x.now),
                 t.current.(open := Some(History(x.sequenceNumber, x.now, []))));
    case Recorded =>
      RecordKeeps(s, t, x);
      OpenCounts(Record(s.open, x.sequenceNumber, x.now), TraceRecord(t.current, x));
    case _ => OpenCounts(s.open, t.current);
  }

  /** Which received packets are reported, and which end an epoch, in numbers: a late one does neither; one more than
      8192 above the latest number or more than 8191 ms from the latest time ends the epoch; every other one is
      recorded, unless it found no room and came more than 8191 ms after the latest time rounded down to 64 ms. */
  lemma {:induction false} BranchesIff(s: Server, t: Trace, x: Event)
    requires Good(s, t) && ClockOk(x)
    ensures var p := s.open;
            var ms := x.now - p.latestTimestamp;
            var far := x.sequenceNumber - p.latestSequenceNumber > 8192 || ms > 8191 || ms < -8191;
            var reported := p.latestTimestamp != 0 && !Late(x.sequenceNumber, p.latestSequenceNumber);
            && (Resets(s, x) <==> reported && far)
            && (Records(s, x) <==>
                (reported && !far &&
                 ((20 + p.encoder.wireSize + 4 + 3) / 4 * 4 <= 1400 || x.now - p.latestTimestamp / 64 * 64 <= 8191)))
  {
    hide Tiles, Tracks, Bounded, AllSentOk, SentHistories, PendingFits, Send, Late, Record, SetBase, AddOutcome;
    BasedIsTimed(s.open, t.current);
    var o := AddOutcome(s.open, x.sequenceNumber, x.now, MTU);
    assert o == SetsBase <==> s.open.latestTimestamp == 0 by { OutcomeBase(s.open, x); }
    if t.current.open.Some? {
      OpenTimes(s.open, t.current.open.value);
      OutcomeExactly(s.open, x);
      if o == Oversized {
        RetryRecordsIff(s, t, x);
      }
    }
  }

  lemma {:induction false} OutcomeBase(p: Packet, x: Event)
    ensures AddOutcome(p, x.sequenceNumber, x.now, MTU) == SetsBase <==> p.latestTimestamp == 0
  {
    hide Delta64, HigherThan, SizeWithOneMore;
  }

  lemma {:induction false} OutcomeExactly(p: Packet, x: Event)
    requires 0 < p.latestTimestamp < TIME_LIMIT && ClockOk(x)
    ensures var ms := x.now - p.latestTimestamp;
            var far := x.sequenceNumber - p.latestSequenceNumber > 8192 || ms > 8191 || ms < -8191;
            AddOutcome(p, x.sequenceNumber, x.now, MTU) in
              if Late(x.sequenceNumber, p.latestSequenceNumber) then {Ignored}
              else if far then {TooManyMissing, DeltaTooLarge}
              else if (20 + p.encoder.wireSize + 4 + 3) / 4 * 4 > 1400 then {Oversized}
              else {Recorded}
  {
    hide HigherThan, Delta64;
    HigherIsHalfCircleAhead(x.sequenceNumber, p.latestSequenceNumber);
    ExactDelta(p.latestTimestamp, x.now);
  }

  // ----- the whole run

  /** The arrivals recorded between resets, epoch by epoch, by the definition of Records and Resets alone. */
  function RecordedEpochs(s: Server, events: seq<Event>): (r: seq<seq<Arrival>>)
    ensures r != []
  {
    if events == [] then [[]]
    else
      var init, x := events[..|events| - 1], events[|events| - 1];
      var q, before := HandleAll(s, init), RecordedEpochs(s, init);
      var last := |before| - 1;
      if Resets(q, x) then before + [[]]
      else if Records(q, x) then before[last := before[last] + [Arrival(x.sequenceNumber, x.now)]]
      else before
  }

  function RecordedOf(t: Trace): (r: seq<seq<Arrival>>)
    ensures |r| == |t.past| + 1
  {
    seq(|t.past|, i requires 0 <= i < |t.past| => t.past[i].recorded) + [t.current.recorded]
  }

  lemma {:induction false} RecordedStep(s: Server, t: Trace, x: Event)
    ensures TraceStep(s, t, x).past == if Resets(s, x) then t.past + [t.current] else t.past
    ensures TraceStep(s, t, x).current.recorded ==
            if Resets(s, x) then []
            else if Records(s, x) then t.current.recorded + [Arrival(x.sequenceNumber, x.now)]
            else t.current.recorded
  {
    hide IsFull, IsSerializable, Send, Record, After;
  }

  lemma {:induction false} RecordedMatches(s: Server, events: seq<Event>)
    ensures RecordedOf(TraceAll(s, Trace([], NEW_EPOCH), events)) == RecordedEpochs(s, events)
  {
    hide Records, Resets, TraceStep, HandleAll;
    if events == [] {
      assert RecordedOf(Trace([], NEW_EPOCH)) == [[]];
    } else {
      var init, x := events[..|events| - 1], events[|events| - 1];
      RecordedMatches(s, init);
      var t := TraceAll(s, Trace([], NEW_EPOCH), init);
      RecordedStep(HandleAll(s, init), t, x);
      assert RecordedOf(t)[|t.past|] == t.current.recorded;
    }
  }

  /** Everything the server puts on the wire, over every run: each packet carries its own number modulo 256, is as long
      as its last step made it, fits its datagram exactly when that is no more than the buffer holds, and parsed back
      reports exactly its history if and only if its gaps and its status count fit. Within every epoch the packets sent
      and the open one tile all arrivals recorded between resets, in order, none twice and none missing. */
  lemma {:induction false} WholeRun(ssrcs: seq<Byte>, events: seq<Event>)
    requires |ssrcs| == 8 && ClocksOk(events)
    ensures var s := HandleAll(Start(ssrcs), events);
            var t := TraceAll(Start(ssrcs), Trace([], NEW_EPOCH), events);
            && |s.sent| == |AllSent(t)|
            && (forall k :: 0 <= k < |s.sent| ==> DeliveredAs(s.sent[k], AllSent(t)[k], k))
            && (forall i :: 0 <= i < |t.past| ==> Tiles(t.past[i]))
            && Tiles(t.current)
            && RecordedOf(t) == RecordedEpochs(Start(ssrcs), events)
  {
    var s0, t0 := Start(ssrcs), Trace([], NEW_EPOCH);
    StartGood(ssrcs);
    RunKeeps(s0, t0, events);
    RecordedMatches(s0, events);
    hide Tiles, HandleAll, TraceAll, OpenOk, SentOk, DeliveredAs, Start;
    var s, t := HandleAll(s0, events), TraceAll(s0, t0, events);
    forall k | 0 <= k < |s.sent| ensures DeliveredAs(s.sent[k], AllSent(t)[k], k) {
      SentDelivers(s.sent[k], AllSent(t)[k], k);
    }
  }

  /** What the receiver of the k-th packet sent learns, and how long its datagram is. */
  predicate DeliveredAs(p: Packet, h: History, k: nat) {
    && AllEncodable(Flush(p.encoder).chunks)
    && h.arrivals != []
    && |WireBytes(p)| == FinishedSize(h) + Padding(FinishedSize(h)) <= MTU + 8
    && Framed(WireBytes(p))
    && (|WireBytes(p)| <= UDP_PACKET_MAX_BYTES <==> FinishedSize(h) <= UDP_PACKET_MAX_BYTES)
    && (Delivers(WireBytes(p), p, h) <==> GapsFit(h) && |LogOf(h)| < 0x1_0000)
    && p.feedbackCount == k % 0x100
    && p.base == NextSeq(h.start)
  }

  lemma {:induction false} SentDelivers(p: Packet, h: History, k: nat)
    requires SentOk(p, h, k)
    ensures DeliveredAs(p, h, k)
  {
    hide Tracks, LogOf, Delivers, Encode, Flush, FinishedSize, GapsFit, PendingFits, AllEncodable;
    InStepTracks(p, h, MTU);
    PacketDeliversIff(p, h);
    FramedWithin(p, h);
    TracksBase(p, h);
    FinishedSizeExact(h);
    PaddedWithin(FinishedSize(h));
  }

  /** So short a packet fits its length field, whatever its counts. */
  lemma {:induction false} FramedWithin(p: Packet, h: History)
    requires Tracks(p, h) && WireSize(Flush(p.encoder)) <= MTU + 8
    ensures AllEncodable(Flush(p.encoder).chunks) && Framed(WireBytes(p))
  {
    hide Tracks, Encode, WireSize, Flush, Accounted, AllEncodable, HeadOk, HeadAt, WordAt, ChunkBytes, Framed;
    ReadyToSerialize(p, h);
    EncodeFrame(HeadOf(p), Flush(p.encoder));
  }

  lemma {:induction false} PaddedWithin(n: nat)
    ensures n + Padding(n) <= UDP_PACKET_MAX_BYTES <==> n <= UDP_PACKET_MAX_BYTES
  {
  }

  // ----- runs whose sequence numbers never wrap

  /** No sequence number recorded is numerically below the one before it. */
  predicate RunNeverWraps(s: Server, events: seq<Event>) {
    events == [] ||
    var init, x := events[..|events| - 1], events[|events| - 1];
    var q := HandleAll(s, init);
    RunNeverWraps(s, init) && (Records(q, x) ==> x.sequenceNumber > q.open.latestSequenceNumber)
  }

  predicate Unwrapped(h: History) {
    ShortGaps(h) && |LogOf(h)| == LatestSeq(h) - h.start
  }

  predicate AllUnwrapped(t: Trace) {
    && (forall k :: 0 <= k < |AllSent(t)| ==> Unwrapped(AllSent(t)[k]))
    && (t.current.open.Some? ==> Unwrapped(t.current.open.value))
  }

  lemma {:induction false} UnwrappedAfter(p: Packet, h: History, x: Event)
    requires p.latestSequenceNumber == LatestSeq(h) && Unwrapped(h)
    requires AddOutcome(p, x.sequenceNumber, x.now, MTU) == Recorded && x.sequenceNumber > p.latestSequenceNumber
    ensures Unwrapped(After(h, x.sequenceNumber, x.now))
  {
    hide Gap, Delta64, SizeWithOneMore, LogOf;
    GuardExact(p, x.sequenceNumber, x.now, MTU);
    AfterBefore(h, x.sequenceNumber, x.now);
    GapUnwrapped(p.latestSequenceNumber, x.sequenceNumber);
  }

  lemma {:induction false} UnwrappedBlank(s: Word, t: Quad)
    ensures Unwrapped(History(s, t, []))
  {
  }

  lemma {:induction false} SendUnwrapped(s: Server, t: Trace)
    requires AllUnwrapped(t)
    ensures AllUnwrapped(t.(current := TraceSend(s, t.current)))
  {
    hide Unwrapped, IsSerializable;
    UnwrappedBlank(s.open.latestSequenceNumber, s.open.latestTimestamp);
    if IsSerializable(s.open) && t.current.open.Some? {
      var u := t.(current := TraceSend(s, t.current));
      assert AllSent(u) == AllSent(t) + [t.current.open.value];
    }
  }

  lemma {:induction false} OpenLatest(p: Packet, h: History)
    requires OpenOk(p, Some(h))
    ensures p.latestSequenceNumber == LatestSeq(h) && p.latestTimestamp != 0
  {
    hide LogOf;
  }

  lemma {:induction false} ResetUnwrapped(t: Trace)
    requires AllUnwrapped(t)
    ensures AllUnwrapped(Trace(t.past + [t.current], NEW_EPOCH))
  {
    hide Unwrapped;
    var u := Trace(t.past + [t.current], NEW_EPOCH);
    assert u.past[..|t.past|] == t.past;
    assert AllSent(u) == AllSent(t);
  }

  lemma {:induction false} RecordUnwrapped(p: Packet, t: Trace, x: Event, recorded: seq<Arrival>)
    requires AllUnwrapped(t) && OpenOk(p, t.current.open)
    requires AddOutcome(p, x.sequenceNumber, x.now, MTU) == Recorded && x.sequenceNumber > p.latestSequenceNumber
    ensures AllUnwrapped(t.(current := TraceRecord(t.current.(recorded := recorded), x)))
  {
    hide Unwrapped, AddOutcome, OpenOk, After;
    RecordedHasBase(p, t.current, x);
    OpenLatest(p, t.current.open.value);
    UnwrappedAfter(p, t.current.open.value, x);
    assert AllSent(t.(current := TraceRecord(t.current.(recorded := recorded), x))) == AllSent(t);
  }

  lemma {:induction false} BaseUnwrapped(t: Trace, x: Event)
    requires AllUnwrapped(t)
    ensures AllUnwrapped(t.(current := t.current.(open := Some(History(x.sequenceNumber, x.now, [])))))
  {
    UnwrappedBlank(x.sequenceNumber, x.now);
    hide Unwrapped;
    assert AllSent(t.(current := t.current.(open := Some(History(x.sequenceNumber, x.now, []))))) == AllSent(t);
  }

  lemma {:induction false} StepUnwrapped(s: Server, t: Trace, x: Event)
    requires Good(s, t) && ClockOk(x) && AllUnwrapped(t)
    requires Records(s, x) ==> x.sequenceNumber > s.open.latestSequenceNumber
    ensures AllUnwrapped(TraceStep(s, t, x))
  {
    hide AllUnwrapped, Good, IsFull, TraceSend, TraceRecord, Record;
    var recorded := t.current.recorded + [Arrival(x.sequenceNumber, x.now)];
    match AddOutcome(s.open, x.sequenceNumber, x.now, MTU)
    case SetsBase => BaseUnwrapped(t, x);
    case Ignored => SendUnwrapped(s, t);
    case TooManyMissing => ResetUnwrapped(t);
    case DeltaTooLarge => ResetUnwrapped(t);
    case Recorded =>
      GoodOpen(s, t);
      RecordUnwrapped(s.open, t, x, recorded);
      SendUnwrapped(s.(open := Record(s.open, x.sequenceNumber, x.now)),
                    t.(current := TraceRecord(t.current.(recorded := recorded), x)));
    case Oversized => OversizedUnwrapped(s, t, x);
  }

  lemma {:induction false} GoodOpen(s: Server, t: Trace)
    requires Good(s, t)
    ensures OpenOk(s.open, t.current.open)
  {
  }

  lemma {:induction false} OversizedUnwrapped(s: Server, t: Trace, x: Event)
    requires Good(s, t) && ClockOk(x) && AllUnwrapped(t)
    requires AddOutcome(s.open, x.sequenceNumber, x.now, MTU) == Oversized
    requires Records(s, x) ==> x.sequenceNumber > s.open.latestSequenceNumber
    ensures AllUnwrapped(TraceStep(s, t, x))
  {
    hide AllUnwrapped, Tiles, OpenOk, TraceSend, TraceRecord, Record, SentOk, FloorTo64, AllSentOk;
    var recorded := t.current.recorded + [Arrival(x.sequenceNumber, x.now)];
    TraceSendCommutes(s, t.current, recorded);
    SendUnwrapped(s, t);
    if Records(s, x) {
      SendKeeps(s, t);
      RetryRecordsIff(s, t, x);
      OversizedIsSerializable(s.open, t.current, x);
      SuccessorOpens(s.open, t.current.open.value, NextCount(s.packetCount));
      RecordUnwrapped(Send(s).open, t.(current := TraceSend(s, t.current)), x, recorded);
    }
  }

  lemma {:induction false} RunUnwrapped(s: Server, t: Trace, events: seq<Event>)
    requires Good(s, t) && AllUnwrapped(t) && ClocksOk(events) && RunNeverWraps(s, events)
    ensures AllUnwrapped(TraceAll(s, t, events))
  {
    if events != [] {
      hide Good, AllUnwrapped, Handle, TraceStep, Records;
      var init := events[..|events| - 1];
      RunUnwrapped(s, t, init);
      RunKeeps(s, t, init);
      StepUnwrapped(HandleAll(s, init), TraceAll(s, t, init), events[|events| - 1]);
    }
  }

  /** A run whose recorded sequence numbers never wrap has every packet it sends deliver its history. */
  lemma {:induction false} UnwrappedRunDelivers(ssrcs: seq<Byte>, events: seq<Event>)
    requires |ssrcs| == 8 && ClocksOk(events) && RunNeverWraps(Start(ssrcs), events)
    ensures var s := HandleAll(Start(ssrcs), events);
            var t := TraceAll(Start(ssrcs), Trace([], NEW_EPOCH), events);
            && |s.sent| == |AllSent(t)|
            && forall k :: 0 <= k < |s.sent| ==>
                 && AllEncodable(Flush(s.sent[k].encoder).chunks)
                 && Delivers(WireBytes(s.sent[k]), s.sent[k], AllSent(t)[k])
  {
    var s0, t0 := Start(ssrcs), Trace([], NEW_EPOCH);
    StartGood(ssrcs);
    assert AllUnwrapped(t0);
    RunUnwrapped(s0, t0, events);
    WholeRun(ssrcs, events);
    hide HandleAll, TraceAll, Start, Unwrapped, DeliveredAs, Tiles, RecordedOf, RecordedEpochs, Delivers, AllEncodable,
      AllSent, Encode;
    var s, t := HandleAll(s0, events), TraceAll(s0, t0, events);
    forall k | 0 <= k < |s.sent|
      ensures AllEncodable(Flush(s.sent[k].encoder).chunks) && Delivers(WireBytes(s.sent[k]), s.sent[k], AllSent(t)[k])
    {
      UnwrappedDelivered(s.sent[k], AllSent(t)[k], k);
    }
  }

  lemma {:induction false} UnwrappedDelivered(p: Packet, h: History, k: nat)
    requires DeliveredAs(p, h, k) && Unwrapped(h)
    ensures AllEncodable(Flush(p.encoder).chunks) && Delivers(WireBytes(p), p, h)
  {
    hide Delivers, GapsFit, LogOf, WireBytes, FinishedSize, AllEncodable, Flush;
    ShortGapsFit(h);
  }

  // ----- a datagram that does not fit

  lemma {:induction false} HandleOneMore(s: Server, events: seq<Event>, x: Event)
    ensures HandleAll(s, events + [x]) == Handle(HandleAll(s, events), x)
  {
    assert (events + [x])[..|events|] == events;
  }

  /** A base, and then packets in order, one a millisecond. */
  function InOrder(n: nat): seq<Event>
    requires n < 0xFFFF
  {
    [Event(0, 6400)] + SmallEvents(n)
  }

  lemma {:induction false} HandleAdds(s: Server, x: Event, p: Packet)
    requires AddOutcome(s.open, x.sequenceNumber, x.now, MTU) in {SetsBase, Recorded}
    requires AddPacket(s.open, x.sequenceNumber, x.now, MTU).1 == p && !IsFull(p)
    ensures Handle(s, x) == s.(open := p)
  {
    hide AddOutcome, Record, SetBase, IsFull;
  }

  lemma {:induction false} InOrderStart()
    ensures HandleAll(Start(Repeat(0, 8)), InOrder(0)) == Server(SmallState(0), 0, [])
  {
    var s0 := Start(Repeat(0, 8));
    SmallStart();
    SmallNotFull(0);
    HandleOneMore(s0, [], Event(0, 6400));
    assert [] + [Event(0, 6400)] == InOrder(0);
    HandleAdds(s0, Event(0, 6400), SmallState(0));
  }

  lemma {:induction false} InOrderMore(n: nat)
    requires 0 < n < 0xFFFF
    ensures InOrder(n) == InOrder(n - 1) + [Event(n, 6400 + n)]
  {
  }

  lemma {:induction false} RoomBefore(n: nat)
    requires n > 0 && RoomFor(n, MTU)
    ensures RoomFor(n - 1, MTU)
  {
  }

  lemma {:induction false} InOrderRun(n: nat)
    requires n < 0xFFFF && RoomFor(n, MTU)
    ensures HandleAll(Start(Repeat(0, 8)), InOrder(n)) == Server(SmallState(n), 0, [])
  {
    if n == 0 {
      InOrderStart();
    } else {
      hide SmallState, RoomFor, HandleAll, InOrder, AddOutcome, AddPacket, Handle, IsFull, Start;
      RoomBefore(n);
      InOrderRun(n - 1);
      InOrderMore(n);
      HandleOneMore(Start(Repeat(0, 8)), InOrder(n - 1), Event(n, 6400 + n));
      SmallStep(n, MTU);
      SmallNotFull(n);
      HandleAdds(Server(SmallState(n - 1), 0, []), Event(n, 6400 + n), SmallState(n));
    }
  }

  lemma {:induction false} SmallNotFull(n: nat)
    requires n < 0x1_0000
    ensures !IsFull(SmallState(n))
  {
  }

  const LOST: seq<Event> := InOrder(1376) + [Event(1378, 7777)]

  function LostState(): Packet {
    AddPacket(SmallState(1376), 1378, 7777, MTU).1
  }

  lemma {:induction false} LostRun()
    ensures HandleAll(Start(Repeat(0, 8)), LOST) == Server(LostState(), 0, [])
  {
    InOrderRun(1376);
    HandleOneMore(Start(Repeat(0, 8)), InOrder(1376), Event(1378, 7777));
    LostStep();
    LostEncoder();
    hide SmallState, HandleAll, ChunksAdded, ContextOk;
  }

  /** The closed run is written, the lost packet and the one behind it are pending. */
  lemma {:induction false} LostEncoder()
    ensures LostState().encoder.statusCount == 1376 && LostState().encoder.wireSize == 1379
    ensures LostState().encoder.deltas != []
    ensures LostState().latestSequenceNumber == 1378 && LostState().latestTimestamp == 7777
  {
    LostStep();
    hide AddOutcome, ContextOk, ChunksAdded, Gap, Delta64;
    var e := SmallState(1376).encoder;
    var f := FlushLongRun(e);
    assert f.statusCount == 1376 && f.wireSize == 1378 && f.pending == [] && f.current == Unset;
    assert TopUpCount(0, 1) == 1;
    assert Miss(e, 1) == TopUp(f, 1);
  }

  lemma {:induction false} LostClocks()
    ensures ClocksOk(LOST)
  {
    SmallTimes(1376);
  }

  lemma {:induction false} OpenSize(s: Server, t: Trace)
    requires Good(s, t) && IsSerializable(s.open)
    ensures AllEncodable(Flush(s.open.encoder).chunks) && |WireBytes(s.open)| == WireSize(Flush(s.open.encoder))
  {
    hide Tracks, Bounded, Tiles, AllSentOk, SentHistories, Encode, Flush, WireSize, PendingFits, LogOf, AllEncodable,
      Fresh, IsSerializable;
    FreshNotSerializable(s.open, t.current);
    InStepTracks(s.open, t.current.open.value, MTU);
    ReadyToSerialize(s.open, t.current.open.value);
  }

  lemma {:induction false} LostWireSize()
    ensures WireSize(Flush(LostState().encoder)) == UDP_PACKET_MAX_BYTES + 4
  {
    LostStep();
    hide SmallState, ContextOk, ChunksAdded, AddOutcome, AddPacket, Flush, WireSize, Gap, Delta64;
    StepSize(1376, 1378, 7777, MTU, 1, 4);
  }

  lemma {:induction false} LostSize()
    ensures AllEncodable(Flush(LostState().encoder).chunks)
    ensures |WireBytes(LostState())| == UDP_PACKET_MAX_BYTES + 4
  {
    hide *;
    LostWireSize();
    LostRun();
    LostClocks();
    StartGood(Repeat(0, 8));
    RunKeeps(Start(Repeat(0, 8)), Trace([], NEW_EPOCH), LOST);
    LostSerializable();
    OpenSize(Server(LostState(), 0, []), TraceAll(Start(Repeat(0, 8)), Trace([], NEW_EPOCH), LOST));
  }

  lemma {:induction false} LostSerializable()
    ensures IsSerializable(LostState())
  {
    LostEncoder();
    hide LostState;
  }

  /** With no room for an event, the packet is sent. */
  lemma {:induction false} HandleSends(s: Server, x: Event)
    requires AddOutcome(s.open, x.sequenceNumber, x.now, MTU) == Oversized && IsSerializable(s.open)
    ensures Handle(s, x).sent == s.sent + [s.open]
  {
    hide AddOutcome, Record, SetBase, IsSerializable, Successor;
  }

  lemma {:induction false} LostOversized()
    ensures AddOutcome(LostState(), 1379, 7778, MTU) == Oversized
  {
    LostEncoder();
    ExactDelta(7777, 7778);
    hide LostState, Delta64;
    assert SizeWithOneMore(LostState().encoder) == 1404;
    hide SizeWithOneMore;
  }

  /** The packet behind it finds no room, and what is sent then is four bytes longer than the datagram's buffer. */
  lemma {:induction false} DatagramOverruns()
    ensures var s := HandleAll(Start(Repeat(0, 8)), LOST + [Event(1379, 7778)]);
            && s.sent == [LostState()]
            && AllEncodable(Flush(LostState().encoder).chunks)
            && |WireBytes(LostState())| == UDP_PACKET_MAX_BYTES + 4
  {
    hide *;
    LostRun();
    LostSize();
    LostOversized();
    LostSerializable();
    HandleOneMore(Start(Repeat(0, 8)), LOST, Event(1379, 7778));
    HandleSends(Server(LostState(), 0, []), Event(1379, 7778));
  }
}
