/** The online compressor inside FeedbackRtpTransportPacket: FillChunk and AddPendingChunks as
    functions of the encoder state, and the proof that they refine a plain list of entries. */
module FeedbackEncoder {
  import opened Bytes
  import opened Chunks

  /** What one position of a packet reports: a lost packet, or one received `delta` quarter-milliseconds later. */
  datatype Entry = Missing | Arrived(delta: int)

  /** The fields FillChunk works on: Context (allSame, current, pending), chunks, deltas,
      packetStatusCount (16 bits) and deltasAndChunksSize. */
  datatype Encoder = Encoder(
    allSame: bool,
    current: Status,
    pending: seq<Status>,
    chunks: seq<Chunk>,
    deltas: seq<int>,
    statusCount: Word,
    wireSize: nat)

  const EMPTY := Encoder(true, Unset, [], [], [], 0, 0)

  // ----- the encoder's steps

  function StatusOfDelta(delta: int): Status {
    if 0 <= delta <= 255 then SmallDelta else LargeDelta
  }

  function DeltaSize(delta: int): nat {
    if 0 <= delta <= 255 then 1 else 2
  }

  function AddChunk(e: Encoder, c: Chunk): Encoder {
    e.(chunks := e.chunks + [c],
       statusCount := Cut16(e.statusCount + |Expand(c)|),
       wireSize := e.wireSize + 2)
  }

  /** CreateRunLengthChunk takes its count as a uint16_t. */
  function AddRun(e: Encoder, status: Status, count: nat): Encoder {
    AddChunk(e, RunLength(status, Cut16(count)))
  }

  /** CreateTwoBitVectorChunk on the pending statuses, which are then cleared. */
  function AddVector(e: Encoder): Encoder {
    AddChunk(e, TwoBitVector(e.pending)).(pending := [], current := Unset)
  }

  predicate HasLongRun(e: Encoder) {
    |e.pending| >= 7 && e.allSame
  }

  function FlushLongRun(e: Encoder): Encoder {
    if HasLongRun(e) then AddRun(e, e.current, |e.pending|).(pending := [], current := Unset) else e
  }

  /** How many missing packets top the pending list up to seven. */
  function TopUpCount(pending: nat, gap: nat): nat {
    if pending < 7 then Min(gap, 7 - pending) else 0
  }

  function TopUp(e: Encoder, n: nat): Encoder {
    e.(current := NotReceived, pending := e.pending + Repeat(NotReceived, n))
  }

  function PackSeven(e: Encoder): Encoder {
    if |e.pending| == 7 then AddVector(e) else e
  }

  function RunOfMissing(e: Encoder, n: nat): Encoder {
    if n > 0 then AddRun(e, NotReceived, n).(pending := [], current := Unset) else e
  }

  /** FillChunk, first half: `gap` missing packets. */
  function Miss(e: Encoder, gap: nat): Encoder
    requires gap > 0
  {
    var flushed := FlushLongRun(e);
    var n := TopUpCount(|flushed.pending|, gap);
    RunOfMissing(PackSeven(TopUp(flushed, n)), gap - n)
  }

  /** A long run ends when a different status arrives. */
  function BreakRun(e: Encoder, status: Status): Encoder {
    if HasLongRun(e) && status != e.current then AddRun(e, e.current, |e.pending|).(pending := []) else e
  }

  function Append(e: Encoder, status: Status, delta: int): Encoder {
    e.(pending := e.pending + [status],
       deltas := e.deltas + [delta],
       wireSize := e.wireSize + DeltaSize(delta),
       allSame := e.current == Unset || (e.allSame && e.current == status),
       current := status)
  }

  function PackMixedSeven(e: Encoder): Encoder {
    if |e.pending| == 7 && !e.allSame then AddVector(e) else e
  }

  /** FillChunk, second half: a packet received `delta` after the previous one. */
  function Arrive(e: Encoder, delta: int): Encoder {
    var status := StatusOfDelta(delta);
    PackMixedSeven(Append(BreakRun(e, status), status, delta))
  }

  function FillChunk(e: Encoder, gap: nat, delta: int): Encoder {
    Arrive(if gap > 0 then Miss(e, gap) else e, delta)
  }

  /** The chunk AddPendingChunks makes of the pending statuses. */
  function PendingChunk(e: Encoder): Chunk {
    if e.allSame then RunLength(e.current, Cut16(|e.pending|)) else TwoBitVector(e.pending)
  }

  /** AddPendingChunks. */
  function Flush(e: Encoder): Encoder {
    if e.pending == [] then e else AddChunk(e, PendingChunk(e)).(pending := [])
  }

  // ----- what the steps refine

  function StatusOfEntry(x: Entry): Status {
    match x
    case Missing => NotReceived
    case Arrived(d) => StatusOfDelta(d)
  }

  function StatusesOf(log: seq<Entry>): (r: seq<Status>)
    ensures |r| == |log|
  {
    seq(|log|, i requires 0 <= i < |log| => StatusOfEntry(log[i]))
  }

  function DeltasOf(log: seq<Entry>): seq<int> {
    if log == [] then []
    else DeltasOf(log[..|log| - 1]) + (match log[|log| - 1] case Missing => [] case Arrived(d) => [d])
  }

  function DeltaBytes(ds: seq<int>): nat {
    if ds == [] then 0 else DeltaBytes(ds[..|ds| - 1]) + DeltaSize(ds[|ds| - 1])
  }

  /** The log after a step that found `gap` packets missing before a received one. */
  function Extend(log: seq<Entry>, gap: nat, delta: int): seq<Entry> {
    log + Repeat(Missing, gap) + [Arrived(delta)]
  }

  /** Everything the encoder stands for: its chunks expanded, then the pending statuses. */
  function Contents(e: Encoder): seq<Status> {
    ExpandAll(e.chunks) + e.pending
  }

  /** The context invariant between two FillChunk calls. */
  predicate ContextOk(e: Encoder) {
    && (e.pending != [] ==> IsReceived(e.current) && e.pending[|e.pending| - 1] == e.current)
    && (e.allSame ==> forall i :: 0 <= i < |e.pending| ==> e.pending[i] == e.current)
    && (|e.pending| >= 7 ==> e.allSame)
    && (e.current == Unset ==> e.pending == [])
    && AllPlain(e.pending)
  }

  /** What remains of it between the two halves of FillChunk. */
  predicate MidOk(e: Encoder) {
    && |e.pending| < 7
    && (e.current == Unset ==> e.pending == [])
    && e.current in {Unset, NotReceived}
    && AllPlain(e.pending)
  }

  /** A chunk created before the packet is finished: only the chunk flushed last may stand for fewer than seven
      received packets. */
  predicate FullChunk(c: Chunk) {
    && Encodable(c)
    && (c.TwoBitVector? ==> |c.statuses| == 7)
    && (c.RunLength? ==> c.count > 0 && (IsReceived(c.status) ==> c.count >= 7))
  }

  predicate AllFull(cs: seq<Chunk>) {
    forall i :: 0 <= i < |cs| ==> FullChunk(cs[i])
  }

  /** The size and count fields against what they account for. */
  predicate Accounted(e: Encoder) {
    && e.statusCount == Cut16(|ExpandAll(e.chunks)|)
    && e.wireSize == 2 * |e.chunks| + DeltaBytes(e.deltas)
  }

  predicate AllEncodable(cs: seq<Chunk>) {
    forall i :: 0 <= i < |cs| ==> Encodable(cs[i])
  }

  /** What holds whatever the counts, also once a count has wrapped 16 bits: context, size and count laws, serialisable
      chunks, and a delta behind every pending received packet. */
  predicate Sound(e: Encoder) {
    && ContextOk(e)
    && Accounted(e)
    && AllEncodable(e.chunks)
    && ReceivedCount(e.pending) <= |e.deltas|
  }

  predicate Refines(e: Encoder, log: seq<Entry>) {
    && ContextOk(e)
    && AllFull(e.chunks)
    && Accounted(e)
    && Contents(e) == StatusesOf(log)
    && e.deltas == DeltasOf(log)
    && RunsEnd(e.chunks, e.pending)
  }

  /** `f` is `e` with `added` further statuses, its chunks still well formed and accounted for. */
  predicate Grows(e: Encoder, f: Encoder, added: seq<Status>) {
    && (AllFull(e.chunks) ==> AllFull(f.chunks))
    && (Accounted(e) ==> Accounted(f))
    && Contents(f) == Contents(e) + added
  }

  lemma {:induction false} GrowsTrans(e: Encoder, f: Encoder, g: Encoder, a: seq<Status>, b: seq<Status>)
    requires Grows(e, f, a) && Grows(f, g, b)
    ensures Grows(e, g, a + b)
  {
  }

  lemma {:induction false} AddChunkEffect(e: Encoder, c: Chunk)
    ensures ExpandAll(AddChunk(e, c).chunks) == ExpandAll(e.chunks) + Expand(c)
    ensures Accounted(e) ==> Accounted(AddChunk(e, c))
  {
    hide Cut16, ExpandAll;
    ExpandAllSnoc(e.chunks, c);
    CutAdd(|ExpandAll(e.chunks)|, |Expand(c)|);
  }

  /** Moving the whole pending list into one chunk keeps the contents. */
  lemma {:induction false} PackEffect(e: Encoder, c: Chunk, f: Encoder)
    requires FullChunk(c) && Expand(c) == e.pending
    requires f == AddChunk(e, c).(pending := [], current := f.current)
    ensures Grows(e, f, [])
  {
    hide Cut16, ExpandAll;
    AddChunkEffect(e, c);
  }

  lemma {:induction false} FlushLongRunEffect(e: Encoder)
    requires ContextOk(e) && |e.pending| < 0x1_0000
    ensures var f := FlushLongRun(e);
            && Grows(e, f, [])
            && |f.pending| < 7 && AllPlain(f.pending)
            && f.deltas == e.deltas
            && (f != e ==> |f.chunks| == |e.chunks| + 1 && f.pending == [])
  {
    if HasLongRun(e) {
      PackEffect(e, RunLength(e.current, |e.pending|), FlushLongRun(e));
    }
  }

  lemma {:induction false} RunOfMissingEffect(e: Encoder, n: nat)
    requires n < 0x1_0000 && (n > 0 ==> e.pending == [])
    ensures Grows(e, RunOfMissing(e, n), Repeat(NotReceived, n))
  {
    if n > 0 {
      hide Cut16, ExpandAll;
      NoWrap(n);
      AddChunkEffect(e, RunLength(NotReceived, n));
    }
  }

  /** A run of missing packets leaves the encoder ready for the received packet that ends it. */
  lemma {:induction false} MissContext(e: Encoder, gap: nat)
    requires ContextOk(e) && gap > 0
    ensures var m := Miss(e, gap);
            && MidOk(m) && m.deltas == e.deltas
            && |e.chunks| <= |m.chunks| <= |e.chunks| + 3
            && (m.pending != [] ==> |m.chunks| <= |e.chunks| + 1)
  {
  }

  lemma {:induction false} MissContents(e: Encoder, gap: nat)
    requires ContextOk(e) && |e.pending| < 0x1_0000 && 0 < gap < 0x1_0000
    ensures Grows(e, Miss(e, gap), Repeat(NotReceived, gap))
  {
    FlushLongRunEffect(e);
    var f := FlushLongRun(e);
    var n := TopUpCount(|f.pending|, gap);
    TopUpEffect(f, n);
    var p := PackSeven(TopUp(f, n));
    RunOfMissingEffect(p, gap - n);
    GrowsRuns(e, f, p, Miss(e, gap), NotReceived, n, gap - n);
  }

  lemma {:induction false} GrowsRuns(e: Encoder, f: Encoder, g: Encoder, h: Encoder, s: Status, m: nat, n: nat)
    requires Grows(e, f, []) && Grows(f, g, Repeat(s, m)) && Grows(g, h, Repeat(s, n))
    ensures Grows(e, h, Repeat(s, m + n))
  {
    assert Contents(e) + [] + Repeat(s, m) + Repeat(s, n) == Contents(e) + Repeat(s, m + n);
  }

  lemma {:induction false} TopUpEffect(e: Encoder, n: nat)
    requires AllPlain(e.pending)
    ensures Grows(e, PackSeven(TopUp(e, n)), Repeat(NotReceived, n))
  {
    var t := TopUp(e, n);
    assert Grows(e, t, Repeat(NotReceived, n));
    if |t.pending| == 7 {
      PackEffect(t, TwoBitVector(t.pending), PackSeven(t));
      assert Repeat(NotReceived, n) + [] == Repeat(NotReceived, n);
    }
  }

  lemma {:induction false} AppendEffect(e: Encoder, status: Status, delta: int)
    requires status == StatusOfDelta(delta)
    ensures Grows(e, Append(e, status, delta), [status])
  {
    assert (e.deltas + [delta])[..|e.deltas|] == e.deltas;
  }

  lemma {:induction false} ArriveContext(e: Encoder, delta: int)
    requires ContextOk(e) || MidOk(e)
    ensures var a := Arrive(e, delta);
            && ContextOk(a) && a.deltas == e.deltas + [delta]
            && |e.chunks| <= |a.chunks| <= |e.chunks| + 1
            && (e.pending == [] ==> a.chunks == e.chunks)
  {
  }

  lemma {:induction false} ArriveContents(e: Encoder, delta: int)
    requires (ContextOk(e) || MidOk(e)) && |e.pending| < 0x1_0000
    ensures Grows(e, Arrive(e, delta), [StatusOfDelta(delta)])
  {
    var status := StatusOfDelta(delta);
    var b := BreakRun(e, status);
    if b != e {
      PackEffect(e, RunLength(e.current, |e.pending|), b);
    }
    hide Cut16, ExpandAll;
    var p := Append(b, status, delta);
    AppendEffect(b, status, delta);
    GrowsTrans(e, b, p, [], [status]);
    var a := PackMixedSeven(p);
    if a != p {
      PackEffect(p, TwoBitVector(p.pending), a);
      GrowsTrans(e, p, a, [] + [status], []);
      assert [] + [status] + [] == [status];
    }
  }

  // ----- every run of missing packets is ended by a received one

  predicate IsMissingRun(c: Chunk) {
    c.RunLength? && c.status == NotReceived
  }

  predicate StartsReceived(ss: seq<Status>) {
    ss != [] && IsReceived(ss[0])
  }

  /** Whatever follows a run of missing packets, in `cs` or in `next` after it, starts with a received packet. */
  predicate RunsEnd(cs: seq<Chunk>, next: seq<Status>) {
    forall i :: 0 <= i < |cs| && IsMissingRun(cs[i]) ==> StartsReceived(Following(cs, i, next))
  }

  function Following(cs: seq<Chunk>, i: nat, next: seq<Status>): seq<Status> {
    if i + 1 < |cs| then Expand(cs[i + 1]) else next
  }

  lemma {:induction false} RunsEndSnoc(cs: seq<Chunk>, c: Chunk, next: seq<Status>)
    requires RunsEnd(cs, Expand(c)) && (IsMissingRun(c) ==> StartsReceived(next))
    ensures RunsEnd(cs + [c], next)
  {
    forall i | 0 <= i < |cs| + 1 && IsMissingRun((cs + [c])[i])
      ensures StartsReceived(Following(cs + [c], i, next))
    {
      if i < |cs| {
        assert IsMissingRun(cs[i]);
        assert Following(cs + [c], i, next) == Following(cs, i, Expand(c));
      }
    }
  }

  lemma {:induction false} RunsEndNext(cs: seq<Chunk>, a: seq<Status>, b: seq<Status>)
    requires RunsEnd(cs, a) && (StartsReceived(a) ==> StartsReceived(b))
    ensures RunsEnd(cs, b)
  {
    forall i | 0 <= i < |cs| && IsMissingRun(cs[i]) ensures StartsReceived(Following(cs, i, b)) {
      assert StartsReceived(Following(cs, i, a));
    }
  }

  lemma {:induction false} FillChunkRunsEnd(e: Encoder, gap: nat, delta: int)
    requires ContextOk(e) && |e.pending| < 0x1_0000 && gap < 0x1_0000 && RunsEnd(e.chunks, e.pending)
    ensures var f := FillChunk(e, gap, delta); RunsEnd(f.chunks, f.pending)
  {
    if gap > 0 {
      MissRunsEnd(e, gap);
      MissContext(e, gap);
      ArriveRunsEnd(Miss(e, gap), delta);
    } else {
      RunsEndNext(e.chunks, e.pending, e.pending + [SmallDelta]);
      ArriveRunsEnd(e, delta);
    }
  }

  lemma {:induction false} MissRunsEnd(e: Encoder, gap: nat)
    requires ContextOk(e) && |e.pending| < 0x1_0000 && 0 < gap < 0x1_0000 && RunsEnd(e.chunks, e.pending)
    ensures var m := Miss(e, gap); RunsEnd(m.chunks, m.pending + [SmallDelta])
  {
    var f := FlushLongRun(e);
    if f != e {
      NoWrap(|e.pending|);
      RunsEndNext(e.chunks, e.pending, Expand(RunLength(e.current, |e.pending|)));
      RunsEndSnoc(e.chunks, RunLength(e.current, |e.pending|), []);
    }
    var n := TopUpCount(|f.pending|, gap);
    var t := TopUp(f, n);
    RunsEndNext(f.chunks, f.pending, t.pending);
    var p := PackSeven(t);
    if p != t {
      RunsEndSnoc(t.chunks, TwoBitVector(t.pending), []);
    }
    if gap > n {
      RunsEndNext(p.chunks, p.pending, Expand(RunLength(NotReceived, gap - n)));
      RunsEndSnoc(p.chunks, RunLength(NotReceived, gap - n), [SmallDelta]);
    } else {
      RunsEndNext(p.chunks, p.pending, p.pending + [SmallDelta]);
    }
  }

  lemma {:induction false} ArriveRunsEnd(e: Encoder, delta: int)
    requires (ContextOk(e) || MidOk(e)) && |e.pending| < 0x1_0000 && RunsEnd(e.chunks, e.pending + [SmallDelta])
    ensures var a := Arrive(e, delta); RunsEnd(a.chunks, a.pending)
  {
    var status := StatusOfDelta(delta);
    var b := BreakRun(e, status);
    if b != e {
      NoWrap(|e.pending|);
      RunsEndNext(e.chunks, e.pending + [SmallDelta], Expand(RunLength(e.current, |e.pending|)));
      RunsEndSnoc(e.chunks, RunLength(e.current, |e.pending|), [status]);
    } else {
      RunsEndNext(e.chunks, e.pending + [SmallDelta], e.pending + [status]);
    }
    var p := Append(b, status, delta);
    assert RunsEnd(p.chunks, p.pending);
    if |p.pending| == 7 && !p.allSame {
      RunsEndSnoc(p.chunks, TwoBitVector(p.pending), []);
    }
  }

  lemma {:induction false} FlushRunsEnd(e: Encoder)
    requires ContextOk(e) && |e.pending| < 0x1_0000 && RunsEnd(e.chunks, e.pending)
    ensures RunsEnd(Flush(e).chunks, [])
  {
    if e.pending != [] {
      PendingChunkExpands(e);
      RunsEndSnoc(e.chunks, PendingChunk(e), []);
    }
  }

  // ----- FillChunk refines the entry log

  lemma {:induction false} StatusesOfExtend(log: seq<Entry>, gap: nat, delta: int)
    ensures StatusesOf(Extend(log, gap, delta)) == StatusesOf(log) + Repeat(NotReceived, gap) + [StatusOfDelta(delta)]
    ensures DeltasOf(Extend(log, gap, delta)) == DeltasOf(log) + [delta]
  {
    var missed := log + Repeat(Missing, gap);
    DeltasOfMissing(log, gap);
    assert Extend(log, gap, delta)[..|missed|] == missed;
  }

  lemma {:induction false} DeltasOfMissing(log: seq<Entry>, gap: nat)
    ensures DeltasOf(log + Repeat(Missing, gap)) == DeltasOf(log)
  {
    if gap == 0 {
      assert log + Repeat(Missing, gap) == log;
    } else {
      DeltasOfMissing(log, gap - 1);
      assert (log + Repeat(Missing, gap))[..|log| + gap - 1] == log + Repeat(Missing, gap - 1);
    }
  }

  lemma {:induction false} EmptyRefines()
    ensures Refines(EMPTY, [])
  {
  }

  /** Every FillChunk call appends its missing packets and its received packet to what the
      chunks and the pending statuses stand for, and keeps the context, size and count laws. */
  lemma {:induction false} FillChunkRefines(e: Encoder, log: seq<Entry>, gap: nat, delta: int)
    requires Refines(e, log) && |e.pending| < 0x1_0000 && gap < 0x1_0000
    ensures Refines(FillChunk(e, gap, delta), Extend(log, gap, delta))
  {
    FillChunkRunsEnd(e, gap, delta);
    StatusesOfExtend(log, gap, delta);
    if gap > 0 {
      MissContext(e, gap);
      MissContents(e, gap);
      var m := Miss(e, gap);
      ArriveContext(m, delta);
      ArriveContents(m, delta);
    } else {
      ArriveContext(e, delta);
      ArriveContents(e, delta);
      assert StatusesOf(log) + Repeat(NotReceived, 0) == StatusesOf(log);
    }
  }

  predicate Closed(cs: seq<Chunk>) {
    && AllEncodable(cs)
    && (forall i :: 0 <= i < |cs| ==> Expand(cs[i]) != [])
    && (forall i :: 0 <= i < |cs| - 1 ==> FullChunk(cs[i]))
  }

  /** A flushed encoder: nothing pending, and only its last chunk may be a short vector. */
  predicate Finished(e: Encoder, log: seq<Entry>) {
    && e.pending == []
    && Closed(e.chunks)
    && ExpandAll(e.chunks) == StatusesOf(log)
    && e.deltas == DeltasOf(log)
    && Accounted(e)
    && RunsEnd(e.chunks, [])
  }

  lemma {:induction false} FlushEffect(e: Encoder, c: Chunk)
    requires AllFull(e.chunks) && Accounted(e) && Expand(c) == e.pending != [] && Encodable(c)
    ensures var f := AddChunk(e, c).(pending := []);
            && ExpandAll(f.chunks) == Contents(e) && Accounted(f)
            && Closed(f.chunks)
  {
    hide Cut16, ExpandAll;
    AddChunkEffect(e, c);
  }

  lemma {:induction false} PendingChunkExpands(e: Encoder)
    requires ContextOk(e) && 0 < |e.pending| < 0x1_0000
    ensures Expand(PendingChunk(e)) == e.pending && Encodable(PendingChunk(e))
  {
  }

  /** Finish loses nothing, and finishing twice changes nothing. */
  lemma {:induction false} FlushFinishes(e: Encoder, log: seq<Entry>)
    requires Refines(e, log) && |e.pending| < 0x1_0000
    ensures Finished(Flush(e), log)
    ensures Flush(Flush(e)) == Flush(e)
  {
    FlushRunsEnd(e);
    if e.pending == [] {
      assert Contents(e) == ExpandAll(e.chunks);
    } else {
      PendingChunkExpands(e);
      FlushEffect(e, PendingChunk(e));
    }
  }

  // ----- run lengths

  predicate RunsFit(cs: seq<Chunk>) {
    forall i :: 0 <= i < |cs| && cs[i].RunLength? ==> cs[i].count <= MAX_RUN
  }

  predicate MissingRunsFit(cs: seq<Chunk>) {
    forall i :: 0 <= i < |cs| && IsMissingRun(cs[i]) ==> cs[i].count <= MAX_RUN
  }

  predicate ReceivedRunsFit(cs: seq<Chunk>) {
    forall i :: 0 <= i < |cs| && cs[i].RunLength? && !IsMissingRun(cs[i]) ==> cs[i].count <= MAX_RUN
  }

  /** The run of missing packets FillChunk emits after topping up the pending vector. */
  function RunAfterVector(e: Encoder, gap: nat): nat {
    gap - TopUpCount(if HasLongRun(e) then 0 else |e.pending|, gap)
  }

  lemma {:induction false} MissingFitSnoc(cs: seq<Chunk>, c: Chunk)
    ensures MissingRunsFit(cs + [c]) <==> MissingRunsFit(cs) && (IsMissingRun(c) ==> c.count <= MAX_RUN)
  {
    assert forall i :: 0 <= i < |cs| ==> (cs + [c])[i] == cs[i];
    assert (cs + [c])[|cs|] == c;
  }

  lemma {:induction false} ReceivedFitSnoc(cs: seq<Chunk>, c: Chunk)
    ensures ReceivedRunsFit(cs + [c]) <==>
            ReceivedRunsFit(cs) && (c.RunLength? && !IsMissingRun(c) ==> c.count <= MAX_RUN)
  {
    assert forall i :: 0 <= i < |cs| ==> (cs + [c])[i] == cs[i];
    assert (cs + [c])[|cs|] == c;
  }

  /** A step keeps all runs of missing packets within 13 bits exactly when the one it emits fits. */
  lemma {:induction false} StepMissingRunsFit(e: Encoder, gap: nat, delta: int)
    requires ContextOk(e) && gap < 0x1_0000
    ensures MissingRunsFit(FillChunk(e, gap, delta).chunks) <==>
            MissingRunsFit(e.chunks) && RunAfterVector(e, gap) <= MAX_RUN
  {
    hide MissingRunsFit;
    if gap > 0 {
      MissMissingRunsFit(e, gap);
      MissContext(e, gap);
      ArriveMissingRunsFit(Miss(e, gap), delta);
    } else {
      ArriveMissingRunsFit(e, delta);
    }
  }

  lemma {:induction false} MissMissingRunsFit(e: Encoder, gap: nat)
    requires ContextOk(e) && 0 < gap < 0x1_0000
    ensures MissingRunsFit(Miss(e, gap).chunks) <==> MissingRunsFit(e.chunks) && RunAfterVector(e, gap) <= MAX_RUN
  {
    hide MissingRunsFit, RunOfMissing;
    var f := FlushLongRun(e);
    MissingFitSnoc(e.chunks, RunLength(e.current, Cut16(|e.pending|)));
    assert HasLongRun(e) ==> IsReceived(e.current);
    var n := TopUpCount(|f.pending|, gap);
    var t := TopUp(f, n);
    var p := PackSeven(t);
    MissingFitSnoc(t.chunks, TwoBitVector(t.pending));
    EmittedRunFits(p, gap - n);
  }

  lemma {:induction false} EmittedRunFits(e: Encoder, n: nat)
    requires n < 0x1_0000
    ensures MissingRunsFit(RunOfMissing(e, n).chunks) <==> MissingRunsFit(e.chunks) && n <= MAX_RUN
  {
    NoWrap(n);
    MissingFitSnoc(e.chunks, RunLength(NotReceived, n));
  }

  lemma {:induction false} ArriveMissingRunsFit(e: Encoder, delta: int)
    requires ContextOk(e) || MidOk(e)
    ensures MissingRunsFit(Arrive(e, delta).chunks) <==> MissingRunsFit(e.chunks)
  {
    hide MissingRunsFit;
    var b := BreakRun(e, StatusOfDelta(delta));
    MissingFitSnoc(e.chunks, RunLength(e.current, Cut16(|e.pending|)));
    assert b != e ==> IsReceived(e.current);
    var p := Append(b, StatusOfDelta(delta), delta);
    MissingFitSnoc(p.chunks, TwoBitVector(p.pending));
  }

  /** A run of received packets is written when the pending list is flushed, as long as that list. */
  lemma {:induction false} FlushRunsFit(e: Encoder)
    requires ContextOk(e) && |e.pending| < 0x1_0000
    ensures MissingRunsFit(Flush(e).chunks) <==> MissingRunsFit(e.chunks)
    ensures ReceivedRunsFit(Flush(e).chunks) <==> ReceivedRunsFit(e.chunks) && |e.pending| <= MAX_RUN
  {
    hide MissingRunsFit, ReceivedRunsFit;
    if e.pending != [] {
      NoWrap(|e.pending|);
      MissingFitSnoc(e.chunks, PendingChunk(e));
      ReceivedFitSnoc(e.chunks, PendingChunk(e));
    }
  }

  /** Received runs fit, written or pending. */
  predicate ReceivedFits(e: Encoder) {
    ReceivedRunsFit(e.chunks) && |e.pending| <= MAX_RUN
  }

  /** A step keeps received runs within 13 bits exactly when the pending list stays that short. */
  lemma {:induction false} StepReceivedFits(e: Encoder, gap: nat, delta: int)
    requires ContextOk(e) && |e.pending| < 0x1_0000 && gap < 0x1_0000
    ensures var f := FillChunk(e, gap, delta); ReceivedFits(f) <==> ReceivedFits(e) && |f.pending| <= MAX_RUN
  {
    hide ReceivedRunsFit;
    if gap > 0 {
      MissReceivedFits(e, gap);
      MissContext(e, gap);
      ArriveReceivedFits(Miss(e, gap), delta);
    } else {
      ArriveReceivedFits(e, delta);
    }
  }

  lemma {:induction false} MissReceivedFits(e: Encoder, gap: nat)
    requires ContextOk(e) && |e.pending| < 0x1_0000 && 0 < gap < 0x1_0000
    ensures ReceivedFits(Miss(e, gap)) <==> ReceivedFits(e)
    ensures |Miss(e, gap).pending| < 7
  {
    hide ReceivedRunsFit;
    MissContext(e, gap);
    NoWrap(|e.pending|);
    var f := FlushLongRun(e);
    ReceivedFitSnoc(e.chunks, RunLength(e.current, |e.pending|));
    var n := TopUpCount(|f.pending|, gap);
    var t := TopUp(f, n);
    ReceivedFitSnoc(t.chunks, TwoBitVector(t.pending));
    ReceivedFitSnoc(PackSeven(t).chunks, RunLength(NotReceived, Cut16(gap - n)));
  }

  lemma {:induction false} ArriveReceivedFits(e: Encoder, delta: int)
    requires (ContextOk(e) || MidOk(e)) && |e.pending| < 0x1_0000
    ensures var a := Arrive(e, delta); ReceivedFits(a) <==> ReceivedFits(e) && |a.pending| <= MAX_RUN
  {
    hide ReceivedRunsFit;
    NoWrap(|e.pending|);
    ReceivedFitSnoc(e.chunks, RunLength(e.current, |e.pending|));
    var p := Append(BreakRun(e, StatusOfDelta(delta)), StatusOfDelta(delta), delta);
    ReceivedFitSnoc(p.chunks, TwoBitVector(p.pending));
  }

  lemma {:induction false} RunsFitBoth(cs: seq<Chunk>)
    ensures RunsFit(cs) <==> MissingRunsFit(cs) && ReceivedRunsFit(cs)
  {
  }

  lemma {:induction false} DeltaCount(log: seq<Entry>)
    ensures ReceivedCount(StatusesOf(log)) == |DeltasOf(log)| <= DeltaBytes(DeltasOf(log))
  {
    if log != [] {
      var init := log[..|log| - 1];
      DeltaCount(init);
      assert StatusesOf(log)[..|log| - 1] == StatusesOf(init);
      match log[|log| - 1]
      case Missing => assert DeltasOf(init) + [] == DeltasOf(init);
      case Arrived(d) => assert (DeltasOf(init) + [d])[..|DeltasOf(init)|] == DeltasOf(init);
    }
  }

  lemma {:induction false} DeltaBytesBounds(ds: seq<int>)
    ensures |ds| <= DeltaBytes(ds) <= 2 * |ds|
  {
    if ds != [] {
      DeltaBytesBounds(ds[..|ds| - 1]);
    }
  }

  lemma {:induction false} DeltaBytesAppend(a: seq<int>, b: seq<int>)
    ensures DeltaBytes(a + b) == DeltaBytes(a) + DeltaBytes(b)
  {
    if b == [] {
      assert a + b == a;
    } else {
      assert (a + b)[..|a + b| - 1] == a + b[..|b| - 1];
      DeltaBytesAppend(a, b[..|b| - 1]);
    }
  }

  /** A long pending run costs at least a byte of delta for each of its packets. */
  lemma {:induction false} PendingBound(e: Encoder)
    requires Sound(e)
    ensures |e.pending| < 7 || |e.pending| <= e.wireSize
  {
    if |e.pending| >= 7 {
      AllReceivedCount(e.pending);
      DeltaBytesBounds(e.deltas);
    }
  }

  // ----- what every step keeps, and what it writes

  lemma {:induction false} MissSound(e: Encoder, gap: nat)
    requires Sound(e) && 0 < gap < 0x1_0000
    ensures var m := Miss(e, gap);
            && MidOk(m) && Accounted(m) && AllEncodable(m.chunks)
            && m.deltas == e.deltas && ReceivedCount(m.pending) <= |m.deltas|
  {
    MissContext(e, gap);
    MissAccounted(e, gap);
    var f := FlushLongRun(e);
    ReceivedCountAppend(f.pending, Repeat(NotReceived, TopUpCount(|f.pending|, gap)));
    NoneReceived(TopUpCount(|f.pending|, gap));
  }

  lemma {:induction false} MissAccounted(e: Encoder, gap: nat)
    requires ContextOk(e) && Accounted(e) && AllEncodable(e.chunks) && gap > 0
    ensures Accounted(Miss(e, gap)) && AllEncodable(Miss(e, gap).chunks)
  {
    var f := FlushLongRun(e);
    if f != e {
      WritesChunk(e, RunLength(e.current, Cut16(|e.pending|)), f);
    }
    var n := TopUpCount(|f.pending|, gap);
    var t := TopUp(f, n);
    var p := PackSeven(t);
    if p != t {
      WritesChunk(t, TwoBitVector(t.pending), p);
    }
    if gap > n {
      hide Accounted, FlushLongRun, TopUp, PackSeven;
      WritesChunk(p, RunLength(NotReceived, Cut16(gap - n)), Miss(e, gap));
    }
  }

  lemma {:induction false} ArriveSound(e: Encoder, delta: int)
    requires ContextOk(e) || MidOk(e)
    requires Accounted(e) && AllEncodable(e.chunks) && ReceivedCount(e.pending) <= |e.deltas|
    ensures Sound(Arrive(e, delta))
  {
    ArriveContext(e, delta);
    ArriveAccounted(e, delta);
    var status := StatusOfDelta(delta);
    var b := BreakRun(e, status);
    assert (b.pending + [status])[..|b.pending|] == b.pending;
  }

  lemma {:induction false} ArriveAccounted(e: Encoder, delta: int)
    requires (ContextOk(e) || MidOk(e)) && Accounted(e) && AllEncodable(e.chunks)
    ensures Accounted(Arrive(e, delta)) && AllEncodable(Arrive(e, delta).chunks)
  {
    var status := StatusOfDelta(delta);
    var b := BreakRun(e, status);
    if b != e {
      WritesChunk(e, RunLength(e.current, Cut16(|e.pending|)), b);
    }
    var p := Append(b, status, delta);
    AppendAccounted(b, status, delta);
    var a := PackMixedSeven(p);
    if a != p {
      hide Accounted, BreakRun, Append;
      WritesChunk(p, TwoBitVector(p.pending), a);
    }
  }

  lemma {:induction false} AppendAccounted(e: Encoder, status: Status, delta: int)
    requires Accounted(e)
    ensures Accounted(Append(e, status, delta))
  {
    assert (e.deltas + [delta])[..|e.deltas|] == e.deltas;
  }

  lemma {:induction false} WritesChunk(e: Encoder, c: Chunk, f: Encoder)
    requires Accounted(e) && AllEncodable(e.chunks) && Encodable(c)
    requires f == AddChunk(e, c).(pending := f.pending, current := f.current)
    ensures Accounted(f) && AllEncodable(f.chunks)
  {
    hide Cut16, ExpandAll;
    AddChunkEffect(e, c);
  }

  /** Every step keeps the laws that hold whatever the counts. */
  lemma {:induction false} FillChunkSound(e: Encoder, gap: nat, delta: int)
    requires Sound(e) && gap < 0x1_0000
    ensures Sound(FillChunk(e, gap, delta)) && FillChunk(e, gap, delta).deltas == e.deltas + [delta]
  {
    hide Sound, Accounted, AllEncodable, ReceivedCount;
    SoundParts(e);
    if gap > 0 {
      MissSound(e, gap);
      ArriveSound(Miss(e, gap), delta);
      ArriveContext(Miss(e, gap), delta);
    } else {
      ArriveSound(e, delta);
      ArriveContext(e, delta);
    }
  }

  lemma {:induction false} SoundParts(e: Encoder)
    requires Sound(e)
    ensures ContextOk(e) && Accounted(e) && AllEncodable(e.chunks) && ReceivedCount(e.pending) <= |e.deltas|
  {
  }

  /** Finish keeps the size and count laws, and leaves chunks that can be written. */
  lemma {:induction false} FlushSound(e: Encoder)
    requires Sound(e)
    ensures Accounted(Flush(e)) && AllEncodable(Flush(e).chunks) && Flush(e).deltas == e.deltas
  {
    hide Cut16, ExpandAll;
    AddChunkEffect(e, PendingChunk(e));
  }

  /** How many chunks a step and a Finish right after it write. A gap closes a long run, tops the pending list up to
      seven and may leave a run of missing packets; an arrival may break a long run. One chunk always remains to be
      written: what is pending, or the vector the arrival completed. */
  function ChunksAdded(e: Encoder, gap: nat, delta: int): nat {
    var closed := if HasLongRun(e) then 1 else 0;
    if gap == 0 then 1 + (if StatusOfDelta(delta) != e.current then closed else 0)
    else
      var free := 7 - (if HasLongRun(e) then 0 else |e.pending|);
      1 + closed + (if gap >= free then 1 else 0) + (if gap > free then 1 else 0)
  }

  lemma {:induction false} MissGrowth(e: Encoder, gap: nat)
    requires ContextOk(e) && gap > 0
    ensures var m, closed := Miss(e, gap), if HasLongRun(e) then 1 else 0;
            var free := 7 - (if HasLongRun(e) then 0 else |e.pending|);
            var written := closed + (if gap >= free then 1 else 0) + (if gap > free then 1 else 0);
            && |m.chunks| == |e.chunks| + written && m.wireSize == e.wireSize + 2 * written
            && (gap > free ==> m.pending == [])
  {
  }

  lemma {:induction false} ArriveGrowth(e: Encoder, delta: int)
    requires ContextOk(e) || MidOk(e)
    ensures var f := Flush(Arrive(e, delta));
            var written := if HasLongRun(e) && StatusOfDelta(delta) != e.current then 2 else 1;
            && |f.chunks| == |e.chunks| + written
            && f.wireSize == e.wireSize + DeltaSize(delta) + 2 * written
    ensures e.wireSize + DeltaSize(delta) <= Arrive(e, delta).wireSize <= Flush(Arrive(e, delta)).wireSize
    ensures e.pending == [] ==> Arrive(e, delta).wireSize == e.wireSize + DeltaSize(delta)
  {
  }

  /** Exactly what a step adds to the size of the finished packet. */
  lemma {:induction false} ExactGrowth(e: Encoder, gap: nat, delta: int)
    requires ContextOk(e)
    ensures var f := Flush(FillChunk(e, gap, delta));
            && |f.chunks| == |e.chunks| + ChunksAdded(e, gap, delta)
            && f.wireSize == e.wireSize + DeltaSize(delta) + 2 * ChunksAdded(e, gap, delta)
    ensures 1 <= ChunksAdded(e, gap, delta) <= 4
    ensures var f := FillChunk(e, gap, delta); e.wireSize + DeltaSize(delta) <= f.wireSize <= Flush(f).wireSize
    ensures FillChunk(e, gap, delta).wireSize <= e.wireSize + DeltaSize(delta) + 6
  {
    hide Cut16;
    if gap > 0 {
      MissGrowth(e, gap);
      MissContext(e, gap);
      ArriveGrowth(Miss(e, gap), delta);
    } else {
      ArriveGrowth(e, delta);
    }
  }
}
