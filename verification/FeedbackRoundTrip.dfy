/** Reports rebuilt from a packet, and the round trip through its bytes. */
module FeedbackRoundTrip {
  import opened Bytes
  import opened Chunks
  import opened FeedbackEncoder
  import opened FeedbackWire

  datatype PacketResult = PacketResult(sequenceNumber: Word, received: bool, delta: int, receivedAtMs: int)

  /** C++ integer division by four: truncates toward zero. */
  function QuarterOf(d: int): int {
    if d >= 0 then d / 4 else -((-d) / 4)
  }

  function NextSeq(s: Word): Word {
    Cut16(s + 1)
  }

  // ----- GetPacketResults

  /** One result per status, numbered from `s`; each received one takes the next delta and advances the clock. */
  function ResultsFrom(ss: seq<Status>, ds: seq<int>, s: Word, clock: int): (r: seq<PacketResult>)
    requires ReceivedCount(ss) <= |ds|
  {
    if ss == [] then []
    else
      CountFirst(ss);
      if IsReceived(ss[0]) then
        var t := clock + QuarterOf(ds[0]);
        [PacketResult(s, true, ds[0], t)] + ResultsFrom(ss[1..], ds[1..], NextSeq(s), t)
      else
        [PacketResult(s, false, 0, 0)] + ResultsFrom(ss[1..], ds, NextSeq(s), clock)
  }

  lemma {:induction false} CountFirst(ss: seq<Status>)
    requires ss != []
    ensures ReceivedCount(ss) == (if IsReceived(ss[0]) then 1 else 0) + ReceivedCount(ss[1..])
  {
    ReceivedCountAppend([ss[0]], ss[1..]);
    assert [ss[0]] + ss[1..] == ss;
    assert ReceivedCount([ss[0]]) == (if IsReceived(ss[0]) then 1 else 0) by {
      assert [ss[0]][..0] == [];
    }
  }

  /** GetPacketResults; std::vector::at throws unless every received status has its delta. */
  function PacketResults(p: Parsed): seq<PacketResult>
    requires ReceivedCount(ExpandAll(p.chunks)) <= |p.deltas|
  {
    ResultsFrom(ExpandAll(p.chunks), p.deltas, p.head.base, p.head.referenceTime * 64)
  }

  /** What a log entitles its reader to. */
  function LogResults(log: seq<Entry>, s: Word, clock: int): seq<PacketResult> {
    if log == [] then []
    else
      match log[0]
      case Missing => [PacketResult(s, false, 0, 0)] + LogResults(log[1..], NextSeq(s), clock)
      case Arrived(d) =>
        [PacketResult(s, true, d, clock + QuarterOf(d))] + LogResults(log[1..], NextSeq(s), clock + QuarterOf(d))
  }

  lemma {:induction false} DeltasOfCons(log: seq<Entry>)
    requires log != []
    ensures DeltasOf(log) == (match log[0] case Missing => [] case Arrived(d) => [d]) + DeltasOf(log[1..])
  {
    if |log| > 1 {
      DeltasOfCons(log[..|log| - 1]);
      assert log[..|log| - 1][1..] == log[1..][..|log| - 2];
    } else {
      assert log[..0] == [] && log[1..] == [];
    }
  }

  lemma {:induction false} NothingToReport(s: Word, clock: int)
    ensures StatusesOf([]) == [] && DeltasOf([]) == [] && ReceivedCount([]) == 0
    ensures ResultsFrom([], [], s, clock) == LogResults([], s, clock) == []
  {
  }

  lemma {:induction false} ResultsOfLog(log: seq<Entry>, s: Word, clock: int)
    ensures ReceivedCount(StatusesOf(log)) == |DeltasOf(log)|
    ensures ResultsFrom(StatusesOf(log), DeltasOf(log), s, clock) == LogResults(log, s, clock)
  {
    DeltaCount(log);
    if log == [] {
      NothingToReport(s, clock);
    } else {
      hide ReceivedCount, DeltasOf, Cut16, QuarterOf, NextSeq;
      DeltasOfCons(log);
      CountFirst(StatusesOf(log));
      assert StatusesOf(log)[1..] == StatusesOf(log[1..]);
      match log[0]
      case Missing =>
        assert DeltasOf(log) == DeltasOf(log[1..]);
        ResultsOfLog(log[1..], NextSeq(s), clock);
      case Arrived(d) =>
        assert DeltasOf(log)[0] == d && DeltasOf(log)[1..] == DeltasOf(log[1..]);
        ResultsOfLog(log[1..], NextSeq(s), clock + QuarterOf(d));
    }
  }

  // ----- the frame of a serialised packet

  lemma {:induction false} PaddingAligns(n: nat)
    ensures (n + Padding(n)) % 4 == 0 && Padding(n) < 4
  {
  }

  lemma {:induction false} HeaderReadBack(size: nat, h: Head, statusCount: Word, body: seq<Byte>)
    requires HeadOk(h) && 4 <= size <= MAX_WIRE_SIZE && size % 4 == 0
    ensures var data := HeaderBytes(size, h, statusCount) + body;
            && |data| == FIXED_SIZE + |body| && data[FIXED_SIZE..] == body
            && DeclaredSize(data) == size
            && HeadAt(data) == h && WordAt(data, 14) == statusCount
  {
    var data := HeaderBytes(size, h, statusCount) + body;
    NoWrap(size / 4 - 1);
    assert WordAt(data, 2) == size / 4 - 1;
    assert data[4..12] == h.ssrcs;
    assert data[16..19] == ReferenceTimeBytes(h.referenceTime);
    ReferenceTimeReadBack(data, h.referenceTime);
  }

  lemma {:induction false} ReferenceTimeReadBack(data: seq<Byte>, t: int)
    requires |data| >= FIXED_SIZE && 0 <= t < 0x80_0000 && data[16..19] == ReferenceTimeBytes(t)
    ensures ReferenceTimeAt(data, 16) == t
  {
    assert data[16] == data[16..19][0] && data[17] == data[16..19][1] && data[18] == data[16..19][2];
  }

  /** Deltas and padding. */
  function Tail(e: Encoder): seq<Byte> {
    DeltasWire(e.deltas) + Repeat(0, Padding(FIXED_SIZE + e.wireSize))
  }

  lemma {:induction false} EncodeSize(h: Head, e: Encoder)
    requires HeadOk(h) && Accounted(e) && AllEncodable(e.chunks)
    ensures |Encode(h, e)| == WireSize(e)
  {
    hide ExpandAll, Padding, ChunkBytes, DeltasWire, PutWord, ReferenceTimeBytes;
    DeltasWireSize(e.deltas);
  }

  /** Serialize writes exactly GetSize bytes, the length field declares them, each field is where the parser looks. */
  lemma {:induction false} EncodeFrame(h: Head, e: Encoder)
    requires HeadOk(h) && Accounted(e) && AllEncodable(e.chunks)
    requires WireSize(e) <= MAX_WIRE_SIZE
    ensures var data := Encode(h, e);
            && |data| == WireSize(e) && |data| % 4 == 0 && Framed(data)
            && HeadAt(data) == h && WordAt(data, 14) == e.statusCount
            && data[FIXED_SIZE..] == ChunkBytes(e.chunks) + Tail(e)
  {
    hide HeaderBytes, HeadAt, WordAt, DeltasWire, ChunkBytes, ExpandAll;
    DeltasWireSize(e.deltas);
    PaddingAligns(FIXED_SIZE + e.wireSize);
    HeaderReadBack(WireSize(e), h, e.statusCount, ChunkBytes(e.chunks) + Tail(e));
    assert Encode(h, e) == HeaderBytes(WireSize(e), h, e.statusCount) + (ChunkBytes(e.chunks) + Tail(e));
  }

  // ----- the bytes, one by one

  /** The fixed fields of a packet, byte by byte: version 2 and message type 15, packet type 205, the length in words
      less one, SSRCs, base, status count, reference time in 24 bits, feedback count. */
  predicate FixedFields(data: seq<Byte>, size: nat, h: Head, statusCount: Word) {
    && |data| >= 20
    && data[0] == 0x8F && data[1] == 205 && 4 * (Joined(data[2], data[3]) + 1) == size
    && data[4..12] == h.ssrcs
    && Joined(data[12], data[13]) == h.base && Joined(data[14], data[15]) == statusCount
    && Joined3(data[16], data[17], data[18]) == h.referenceTime && data[19] == h.feedbackCount
  }

  /** What Serialize writes starts with them, and is padded to a multiple of four bytes. */
  lemma {:induction false} FixedFieldsWritten(h: Head, e: Encoder)
    requires HeadOk(h) && Accounted(e) && AllEncodable(e.chunks)
    requires WireSize(e) <= MAX_WIRE_SIZE
    ensures FixedFields(Encode(h, e), |Encode(h, e)|, h, e.statusCount)
    ensures |Encode(h, e)| == (20 + e.wireSize + 3) / 4 * 4
  {
    hide Encode, HeaderBytes, HeadAt, WordAt, Framed, ChunkBytes, Accounted, AllEncodable, DeltasWire, WireSize,
      FixedFields;
    EncodeFrame(h, e);
    WireSizeRounded(e);
    HeaderInFront(h, e);
    HeaderParts(WireSize(e), h, e.statusCount);
    FieldsKept(HeaderBytes(WireSize(e), h, e.statusCount), Encode(h, e), WireSize(e), h, e.statusCount);
  }

  lemma {:induction false} WireSizeRounded(e: Encoder)
    ensures WireSize(e) == (20 + e.wireSize + 3) / 4 * 4 && WireSize(e) >= 20 && WireSize(e) % 4 == 0
  {
  }

  lemma {:induction false} FieldsKept(header: seq<Byte>, data: seq<Byte>, size: nat, h: Head, statusCount: Word)
    requires FixedFields(header, size, h, statusCount) && header <= data
    ensures FixedFields(data, size, h, statusCount)
  {
    assert forall i :: 0 <= i < 20 ==> data[i] == header[i];
    assert data[4..12] == header[4..12];
  }

  lemma {:induction false} HeaderInFront(h: Head, e: Encoder)
    requires HeadOk(h) && AllEncodable(e.chunks)
    ensures HeaderBytes(WireSize(e), h, e.statusCount) <= Encode(h, e)
  {
    hide HeaderBytes, ChunkBytes, DeltasWire, Padding, WireSize;
  }

  lemma {:induction false} HeaderParts(size: nat, h: Head, statusCount: Word)
    requires HeadOk(h) && 4 <= size <= MAX_WIRE_SIZE && size % 4 == 0
    ensures FixedFields(HeaderBytes(size, h, statusCount), size, h, statusCount)
  {
    NoWrap(size / 4 - 1);
    WordParts(size / 4 - 1);
    WordParts(h.base);
    WordParts(statusCount);
    TimeParts(h.referenceTime);
    hide Cut16, PutWord, Joined, Joined3, ReferenceTimeBytes;
  }

  lemma {:induction false} WordParts(w: Word)
    ensures Joined(PutWord(w)[0], PutWord(w)[1]) == w
  {
  }

  lemma {:induction false} TimeParts(t: int)
    requires 0 <= t < 0x80_0000
    ensures var b := ReferenceTimeBytes(t); Joined3(b[0], b[1], b[2]) == t
  {
    var q, r := t / 0x1_0000, t % 0x1_0000;
    assert t / 0x100 == 0x100 * q + r / 0x100;
    assert (t / 0x100) % 0x100 == r / 0x100;
  }

  lemma {:induction false} ChunkBytesAt(cs: seq<Chunk>, k: nat)
    requires AllEncodable(cs) && k < |cs|
    ensures Joined(ChunkBytes(cs)[2 * k], ChunkBytes(cs)[2 * k + 1]) == ChunkWord(cs[k])
  {
    hide ChunkWord, Encodable;
    if k > 0 { ChunkBytesAt(cs[1..], k - 1); }
  }

  /** What is behind the fixed fields: words for the chunks, in order, then `deltaBytes`, then zeros. */
  predicate BodyLaidOut(body: seq<Byte>, cs: seq<Chunk>, deltaBytes: seq<Byte>)
    requires AllEncodable(cs)
  {
    && |body| >= 2 * |cs| + |deltaBytes|
    && (forall k :: 0 <= k < |cs| ==> Joined(body[2 * k], body[2 * k + 1]) == ChunkWord(cs[k]))
    && body[2 * |cs|..2 * |cs| + |deltaBytes|] == deltaBytes
    && (forall i :: 2 * |cs| + |deltaBytes| <= i < |body| ==> body[i] == 0)
  }

  lemma {:induction false} BodyWritten(h: Head, e: Encoder)
    requires HeadOk(h) && Accounted(e) && AllEncodable(e.chunks)
    requires WireSize(e) <= MAX_WIRE_SIZE
    ensures |Encode(h, e)| >= 20 && BodyLaidOut(Encode(h, e)[20..], e.chunks, DeltasWire(e.deltas))
  {
    hide Encode, HeadAt, WordAt, Framed, ChunkBytes, Accounted, DeltasWire, WireSize, BodyLaidOut;
    EncodeFrame(h, e);
    WireSizeRounded(e);
    TailLaidOut(e.chunks, DeltasWire(e.deltas), Repeat(0, Padding(FIXED_SIZE + e.wireSize)));
    assert Tail(e) == DeltasWire(e.deltas) + Repeat(0, Padding(FIXED_SIZE + e.wireSize));
  }

  lemma {:induction false} TailLaidOut(cs: seq<Chunk>, deltaBytes: seq<Byte>, pad: seq<Byte>)
    requires AllEncodable(cs) && forall i :: 0 <= i < |pad| ==> pad[i] == 0
    ensures BodyLaidOut(ChunkBytes(cs) + (deltaBytes + pad), cs, deltaBytes)
  {
    hide ChunkBytes, ChunkWord, Encodable, Joined;
    var body := ChunkBytes(cs) + (deltaBytes + pad);
    forall k | 0 <= k < |cs| ensures Joined(body[2 * k], body[2 * k + 1]) == ChunkWord(cs[k]) {
      ChunkBytesAt(cs, k);
    }
  }

  /** A delta of 0 to 255 quarter-milliseconds is a small one and takes a byte; every other one is large and takes two,
      as a two's complement. */
  lemma {:induction false} DeltaWritten(d: int)
    requires -0x8000 <= d < 0x8000
    ensures 0 <= d <= 255 ==> StatusOfDelta(d) == SmallDelta && DeltasWire([d]) == [d]
    ensures !(0 <= d <= 255) ==>
              && StatusOfDelta(d) == LargeDelta && |DeltasWire([d])| == 2
              && Joined(DeltasWire([d])[0], DeltasWire([d])[1]) == if d < 0 then d + 0x1_0000 else d
  {
    assert DeltasWire([d]) == DeltaWire(d) + DeltasWire([]) == DeltaWire(d);
  }

  /** What the parser takes the fixed fields of any packet for; the reference time is signed. */
  lemma {:induction false} FixedFieldsRead(data: seq<Byte>)
    requires Framed(data) && Decode(data).Some?
    ensures |data| >= 20 && |data| == 4 * (Joined(data[2], data[3]) + 1)
    ensures var p := Decode(data).value;
            && p.statusCount == Joined(data[14], data[15])
            && p.head.ssrcs == data[4..12] && p.head.base == Joined(data[12], data[13])
            && p.head.referenceTime ==
               Joined3(data[16], data[17], data[18]) - (if data[16] < 0x80 then 0 else 0x100_0000)
            && p.head.feedbackCount == data[19]
  {
    hide ParseChunks, ReadChunkDeltas, ExpandAll;
  }

  /** A delta's whole milliseconds: rounded towards zero. */
  lemma {:induction false} QuartersRounded(d: int)
    ensures d >= 0 ==> 4 * QuarterOf(d) <= d < 4 * QuarterOf(d) + 4
    ensures d < 0 ==> 4 * QuarterOf(d) - 4 < d <= 4 * QuarterOf(d)
  {
  }

  // ----- the round trip

  /** What parsing must find in a finished packet: every field as it was. */
  predicate Mirrors(p: Parsed, h: Head, e: Encoder) {
    && p.head == h
    && p.statusCount == e.statusCount
    && p.chunks == e.chunks
    && p.deltas == e.deltas
    && p.wireSize == e.wireSize
    && p.size == WireSize(e)
  }

  lemma {:induction false} DecodeBody(cs: seq<Chunk>, log: seq<Entry>, pad: seq<Byte>)
    requires Closed(cs) && RunsFit(cs) && |log| < 0x1_0000
    requires ExpandAll(cs) == StatusesOf(log) && DeltasInRange(DeltasOf(log))
    ensures var read := ParseChunks(ChunkBytes(cs) + (DeltasWire(DeltasOf(log)) + pad), |log|, 0);
            read.Some? && read.value.0 == cs && read.value.1 == DeltasWire(DeltasOf(log)) + pad
    ensures ReadChunkDeltas(cs, DeltasWire(DeltasOf(log)) + pad) == Some((DeltasOf(log), pad))
    ensures |DeltasOf(log)| == ReceivedCount(ExpandAll(cs)) <= |log|
  {
    ParseChunksOfBytes(cs, DeltasWire(DeltasOf(log)) + pad, |log|, 0);
    ReadDeltasOfLog(log, pad);
    ReadChunkDeltasFlat(cs, DeltasWire(DeltasOf(log)) + pad, DeltasOf(log), pad);
    DeltaCount(log);
    ReceivedAtMost(StatusesOf(log));
  }

  lemma {:induction false} AssembleParts(
      h: Head, statusCount: Word, size: nat, cs: seq<Chunk>, deltaBytes: seq<Byte>, ds: seq<int>, rest: seq<Byte>)
    requires ReadChunkDeltas(cs, deltaBytes) == Some((ds, rest))
    requires Cut16(ReceivedCount(ExpandAll(cs))) == |ds|
    ensures var r := Assemble(h, statusCount, size, cs, deltaBytes);
            && r.Some?
            && r.value.head == h && r.value.statusCount == statusCount && r.value.size == size
            && r.value.chunks == cs && r.value.deltas == ds
            && r.value.wireSize == 2 * |cs| + (|deltaBytes| - |rest|)
  {
  }

  // ----- a packet whose count fits 16 bits fits the length field too

  /** Two bytes a chunk and at most two a delta come to at most three a status, and one for a short last chunk. */
  lemma {:induction false} ClosedBudget(cs: seq<Chunk>)
    requires Closed(cs)
    ensures 2 * |cs| + 2 * ReceivedCount(ExpandAll(cs)) <= 3 * |ExpandAll(cs)| + 1
  {
    if cs != [] {
      ClosedHead(cs, |ExpandAll(cs)|);
      ClosedBudget(cs[1..]);
      ReceivedCountAppend(Expand(cs[0]), ExpandAll(cs[1..]));
      ReceivedAtMost(Expand(cs[0]));
      if |cs| > 1 {
        FullBudget(cs[0]);
      }
    }
  }

  lemma {:induction false} FullBudget(c: Chunk)
    requires FullChunk(c)
    ensures 2 + 2 * ReceivedCount(Expand(c)) <= 3 * |Expand(c)|
  {
    ReceivedAtMost(Expand(c));
    if c.RunLength? && c.status == NotReceived {
      NoneReceived(c.count);
    }
  }

  lemma {:induction false} FinishedFitsLengthField(e: Encoder, log: seq<Entry>)
    requires Finished(e, log) && |log| < 0x1_0000
    ensures WireSize(e) <= MAX_WIRE_SIZE
  {
    ClosedBudget(e.chunks);
    DeltaCount(log);
    DeltaBytesBounds(e.deltas);
  }

  lemma {:induction false} DecodeMirrors(h: Head, e: Encoder, log: seq<Entry>)
    requires HeadOk(h) && Finished(e, log) && RunsFit(e.chunks)
    requires |log| < 0x1_0000 && DeltasInRange(e.deltas)
    ensures Framed(Encode(h, e))
    ensures var p := Decode(Encode(h, e)); p.Some? && Mirrors(p.value, h, e)
  {
    hide Encode, HeadAt, WordAt, WireSize, Padding, ChunkBytes, DeltasWire, ParseChunks, ReadChunkDeltas, RunsFit,
      RunsEnd;
    FinishedFitsLengthField(e, log);
    EncodeFrame(h, e);
    var pad := Repeat(0 as Byte, Padding(FIXED_SIZE + e.wireSize));
    NoWrap(|log|);
    DecodeBody(e.chunks, log, pad);
    NoWrap(|e.deltas|);
    AssembleParts(h, e.statusCount, WireSize(e), e.chunks, DeltasWire(e.deltas) + pad, e.deltas, pad);
    DeltasWireSize(e.deltas);
  }

  /** A finished packet whose runs fit 13 bits is parsed back field by field, and reports its log. */
  lemma {:induction false} DecodeEncode(h: Head, e: Encoder, log: seq<Entry>)
    requires HeadOk(h) && Finished(e, log) && RunsFit(e.chunks)
    requires |log| < 0x1_0000 && DeltasInRange(e.deltas)
    ensures Framed(Encode(h, e))
    ensures var p := Decode(Encode(h, e));
            && p.Some? && Mirrors(p.value, h, e)
            && ReceivedCount(ExpandAll(p.value.chunks)) == |p.value.deltas|
            && PacketResults(p.value) == LogResults(log, h.base, h.referenceTime * 64)
  {
    DecodeMirrors(h, e, log);
    ResultsOfLog(log, h.base, h.referenceTime * 64);
  }

  // ----- exactly when the bytes can be trusted

  function Flags(ss: seq<Status>): (r: seq<bool>)
    ensures |r| == |ss|
  {
    seq(|ss|, i requires 0 <= i < |ss| => IsReceived(ss[i]))
  }

  lemma {:induction false} FlagsAppend(a: seq<Status>, b: seq<Status>)
    ensures Flags(a + b) == Flags(a) + Flags(b)
  {
  }

  lemma {:induction false} ExpandAllCons(c: Chunk, cs: seq<Chunk>)
    ensures ExpandAll([c] + cs) == Expand(c) + ExpandAll(cs)
  {
    assert ([c] + cs)[1..] == cs;
  }

  /** The first symbol read from the word of a chunk that starts with a received packet is a received one. */
  lemma {:induction false} FirstSymbolReadBack(c: Chunk, remaining: nat)
    requires Encodable(c) && StartsReceived(Expand(c)) && remaining > 0 && (c.RunLength? ==> c.count <= MAX_RUN)
    ensures var p := ParseChunk(ChunkWord(c), remaining); p.Some? && StartsReceived(Expand(p.value))
  {
    match c
    case RunLength(s, n) =>
      ChunkRoundTrip(c, remaining);
    case TwoBitVector(ss) =>
      var p := ParseChunk(ChunkWord(c), remaining).value;
      assert p.TwoBitVector? && |p.statuses| > 0 && p.statuses[0] == TwoBitSymbol(TwoBitWord(ss), 0);
      TwoBitSymbolOfWord(ss, 0);
  }

  lemma {:induction false} LongRunCut(c: Chunk, remaining: nat)
    requires Encodable(c) && IsMissingRun(c)
    ensures ParseChunk(ChunkWord(c), remaining) == Some(RunLength(NotReceived, c.count % 0x2000))
  {
  }

  /** What the parser makes of a cut run and the chunk behind it. */
  lemma {:induction false} LongRunRead(c: Chunk, d: Chunk, content: seq<Byte>, statusCount: Word, count: Word)
    requires Encodable(c) && IsMissingRun(c) && count + c.count < statusCount
    requires Encodable(d) && StartsReceived(Expand(d)) && (d.RunLength? ==> d.count <= MAX_RUN)
    ensures var read := ParseChunks(PutWord(ChunkWord(c)) + (PutWord(ChunkWord(d)) + content), statusCount, count);
            read.Some? ==>
              && |read.value.0| >= 2
              && read.value.0[0] == RunLength(NotReceived, c.count % 0x2000)
              && StartsReceived(Expand(read.value.0[1]))
  {
    hide ParseChunks, ParseChunk, ChunkWord, PutWord;
    LongRunCut(c, statusCount - count);
    var short := RunLength(NotReceived, c.count % 0x2000);
    var next := count + short.count;
    NoWrap(next);
    ParseChunksTurn(ChunkWord(c), short, PutWord(ChunkWord(d)) + content, statusCount, count, next);
    FirstSymbolReadBack(d, statusCount - next);
    var c1 := ParseChunk(ChunkWord(d), statusCount - next).value;
    ParseChunksTurn(ChunkWord(d), c1, content, statusCount, next, Cut16(next + |Expand(c1)|));
  }

  /** A run of missing packets longer than 13 bits hides the received packet behind it. */
  lemma {:induction false} LongRunFlags(n: Word, cs: seq<Chunk>, read: seq<Chunk>)
    requires n > MAX_RUN && |cs| >= 1 && cs[0] == RunLength(NotReceived, n)
    requires |read| >= 2 && read[0] == RunLength(NotReceived, n % 0x2000) && StartsReceived(Expand(read[1]))
    ensures Flags(ExpandAll(read)) != Flags(ExpandAll(cs))
  {
    var m := n % 0x2000;
    assert read == [read[0]] + ([read[1]] + read[2..]);
    ExpandAllCons(read[0], [read[1]] + read[2..]);
    ExpandAllCons(read[1], read[2..]);
    assert ExpandAll(read)[m] == Expand(read[1])[0];
    assert cs == [cs[0]] + cs[1..];
    ExpandAllCons(cs[0], cs[1..]);
    assert ExpandAll(cs)[m] == NotReceived;
    assert Flags(ExpandAll(read))[m] && !Flags(ExpandAll(cs))[m];
  }

  lemma {:induction false} FlagsOfTail(c: Chunk, a: seq<Chunk>, b: seq<Chunk>)
    requires Flags(ExpandAll(a)) != Flags(ExpandAll(b))
    ensures Flags(ExpandAll([c] + a)) != Flags(ExpandAll([c] + b))
  {
    ExpandAllCons(c, a);
    ExpandAllCons(c, b);
    FlagsAppend(Expand(c), ExpandAll(a));
    FlagsAppend(Expand(c), ExpandAll(b));
    var n := |Flags(Expand(c))|;
    assert (Flags(Expand(c)) + Flags(ExpandAll(a)))[n..] == Flags(ExpandAll(a));
    assert (Flags(Expand(c)) + Flags(ExpandAll(b)))[n..] == Flags(ExpandAll(b));
  }

  lemma {:induction false} RunsEndTail(cs: seq<Chunk>)
    requires cs != [] && RunsEnd(cs, [])
    ensures RunsEnd(cs[1..], [])
    ensures IsMissingRun(cs[0]) ==> |cs| >= 2 && StartsReceived(Expand(cs[1]))
  {
    var others := cs[1..];
    forall i | 0 <= i < |others| && IsMissingRun(others[i]) ensures StartsReceived(Following(others, i, [])) {
      assert StartsReceived(Following(cs, i + 1, []));
    }
    assert IsMissingRun(cs[0]) ==> StartsReceived(Following(cs, 0, []));
  }

  /** A chunk list holding a run of missing packets longer than 13 bits is never read back with the same flags. */
  lemma {:induction false} LongRunMisread(cs: seq<Chunk>, tail: seq<Byte>, statusCount: Word, count: Word)
    requires Closed(cs) && RunsEnd(cs, []) && ReceivedRunsFit(cs) && !RunsFit(cs)
    requires count + |ExpandAll(cs)| == statusCount
    ensures var read := ParseChunks(ChunkBytes(cs) + tail, statusCount, count);
            read.Some? ==> Flags(ExpandAll(read.value.0)) != Flags(ExpandAll(cs))
  {
    hide ParseChunks, ParseChunk, ChunkWord, PutWord, ExpandAll, ChunkBytes, Flags, FullChunk;
    var c, others := cs[0], cs[1..];
    assert cs == [c] + others;
    RunsEndTail(cs);
    ClosedHead(cs, statusCount - count);
    ChunkBytesCons(c, others, tail);
    var read := ParseChunks(ChunkBytes(cs) + tail, statusCount, count);
    if IsMissingRun(c) && c.count > MAX_RUN {
      var d := cs[1];
      ClosedHead(others, |ExpandAll(others)|);
      assert others == [d] + cs[2..];
      ChunkBytesCons(d, cs[2..], tail);
      LongRunRead(c, d, ChunkBytes(cs[2..]) + tail, statusCount, count);
      if read.Some? {
        LongRunFlags(c.count, cs, read.value.0);
      }
    } else {
      var next := count + |Expand(c)|;
      NoWrap(next);
      ChunkRoundTrip(c, statusCount - count);
      LongRunMisread(others, tail, statusCount, next);
      ParseChunksTurn(ChunkWord(c), c, ChunkBytes(others) + tail, statusCount, count, next);
      if read.Some? {
        FlagsOfTail(c, ParseChunks(ChunkBytes(others) + tail, statusCount, next).value.0, others);
      }
    }
  }

  lemma {:induction false} FlagsOfResults(ss: seq<Status>, ds: seq<int>, s: Word, clock: int)
    requires ReceivedCount(ss) <= |ds|
    ensures var rs := ResultsFrom(ss, ds, s, clock);
            |rs| == |ss| && forall i :: 0 <= i < |rs| ==> rs[i].received == IsReceived(ss[i])
  {
    if ss != [] {
      CountFirst(ss);
      var received := IsReceived(ss[0]);
      var rest := if received then ds[1..] else ds;
      var t := if received then clock + QuarterOf(ds[0]) else clock;
      FlagsOfResults(ss[1..], rest, NextSeq(s), t);
      assert ResultsFrom(ss, ds, s, clock)[1..] == ResultsFrom(ss[1..], rest, NextSeq(s), t);
    }
  }

  predicate Numbered(rs: seq<PacketResult>, s: Word) {
    forall i :: 0 <= i < |rs| ==> rs[i].sequenceNumber == Cut16(s + i)
  }

  lemma {:induction false} NumberedCons(r: PacketResult, rs: seq<PacketResult>, s: Word)
    requires r.sequenceNumber == s && Numbered(rs, NextSeq(s))
    ensures Numbered([r] + rs, s)
  {
    forall i | 0 <= i < |rs| + 1 ensures ([r] + rs)[i].sequenceNumber == Cut16(s + i) {
      if i > 0 {
        CutAdd(s + 1, i - 1);
      }
    }
  }

  lemma {:induction false} NumbersOfResults(ss: seq<Status>, ds: seq<int>, s: Word, clock: int)
    requires ReceivedCount(ss) <= |ds|
    ensures Numbered(ResultsFrom(ss, ds, s, clock), s)
  {
    if ss != [] {
      CountFirst(ss);
      var received := IsReceived(ss[0]);
      var rest := if received then ds[1..] else ds;
      var t := if received then clock + QuarterOf(ds[0]) else clock;
      NumbersOfResults(ss[1..], rest, NextSeq(s), t);
      NumberedCons(ResultsFrom(ss, ds, s, clock)[0], ResultsFrom(ss[1..], rest, NextSeq(s), t), s);
    }
  }

  lemma {:induction false} SameResultsSameFlags(p: Parsed, log: seq<Entry>, s: Word, clock: int)
    requires ReceivedCount(ExpandAll(p.chunks)) <= |p.deltas| && PacketResults(p) == LogResults(log, s, clock)
    ensures Flags(ExpandAll(p.chunks)) == Flags(StatusesOf(log))
  {
    ResultsOfLog(log, s, clock);
    FlagsOfResults(StatusesOf(log), DeltasOf(log), s, clock);
    FlagsOfResults(ExpandAll(p.chunks), p.deltas, p.head.base, p.head.referenceTime * 64);
  }

  lemma {:induction false} DecodedChunks(data: seq<Byte>)
    requires Framed(data) && Decode(data).Some?
    ensures var read := ParseChunks(data[FIXED_SIZE..], WordAt(data, 14), 0);
            read.Some? && read.value.0 == Decode(data).value.chunks
  {
  }

  /** Whether the receiver of the bytes learns exactly what the log says. */
  predicate Reports(data: seq<Byte>, log: seq<Entry>, s: Word, clock: int)
    requires Framed(data)
  {
    var p := Decode(data);
    && p.Some?
    && ReceivedCount(ExpandAll(p.value.chunks)) <= |p.value.deltas|
    && PacketResults(p.value) == LogResults(log, s, clock)
  }

  // ----- a cut run of received packets

  /** The received packets a chunk list tells of once its runs are cut to 13 bits. */
  function CutReceived(cs: seq<Chunk>): nat {
    if cs == [] then 0 else ReceivedCount(Expand(CutChunk(cs[0]))) + CutReceived(cs[1..])
  }

  /** However the bytes behind the chunks read, one chunk too many makes up for at most one longest run. */
  lemma {:induction false} ReadReceived(cs: seq<Chunk>, tail: seq<Byte>, statusCount: Word, count: Word)
    requires AllEncodable(cs)
    ensures var read := ParseChunks(ChunkBytes(cs) + tail, statusCount, count);
            read.Some? && |read.value.0| <= |cs| + 1 ==>
              ReceivedCount(ExpandAll(read.value.0)) <= CutReceived(cs) + MAX_RUN
  {
    hide ParseChunk, ChunkWord, PutWord, CutChunk, Expand, Cut16;
    if cs == [] {
      assert ChunkBytes(cs) + tail == tail;
      ReadOneReceived(tail, statusCount, count);
    } else {
      var c, others := cs[0], cs[1..];
      assert cs == [c] + others;
      ChunkBytesCons(c, others, tail);
      if count < statusCount {
        WordReceived(c, statusCount - count);
        var p := ParseChunk(ChunkWord(c), statusCount - count).value;
        var next := Cut16(count + |Expand(p)|);
        ParseChunksTurn(ChunkWord(c), p, ChunkBytes(others) + tail, statusCount, count, next);
        ReadReceived(others, tail, statusCount, next);
        var more := ParseChunks(ChunkBytes(others) + tail, statusCount, next);
        if more.Some? {
          ExpandAllCons(p, more.value.0);
          ReceivedCountAppend(Expand(p), ExpandAll(more.value.0));
        }
      }
    }
  }

  lemma {:induction false} ReadOneReceived(content: seq<Byte>, statusCount: Word, count: Word)
    ensures var read := ParseChunks(content, statusCount, count);
            read.Some? && |read.value.0| <= 1 ==> ReceivedCount(ExpandAll(read.value.0)) <= MAX_RUN
  {
    hide ParseChunk, WordAt, Cut16;
    var read := ParseChunks(content, statusCount, count);
    if count < statusCount && |content| > 0 && read.Some? && |read.value.0| == 1 {
      var c := ParseChunk(WordAt(content, 0), statusCount - count).value;
      AnyWordReceived(WordAt(content, 0), statusCount - count);
      assert read.value.0 == [c];
      ExpandAllCons(c, []);
      assert Expand(c) + ExpandAll([]) == Expand(c);
    }
  }

  lemma {:induction false} CutLoses(c: Chunk)
    requires Encodable(c)
    ensures ReceivedCount(Expand(CutChunk(c))) <= ReceivedCount(Expand(c))
    ensures c.RunLength? && !IsMissingRun(c) && c.count > MAX_RUN ==>
            ReceivedCount(Expand(CutChunk(c))) + MAX_RUN < ReceivedCount(Expand(c))
  {
    if c.RunLength? {
      if c.status == NotReceived {
        NoneReceived(c.count);
        NoneReceived(c.count % 0x2000);
      } else {
        AllReceivedCount(Repeat(c.status, c.count));
        AllReceivedCount(Repeat(c.status, c.count % 0x2000));
      }
    }
  }

  /** A run of received packets longer than 13 bits loses more of them than any one chunk could bring back. */
  lemma {:induction false} LongReceivedLoses(cs: seq<Chunk>)
    requires AllEncodable(cs)
    ensures CutReceived(cs) <= ReceivedCount(ExpandAll(cs))
    ensures !ReceivedRunsFit(cs) ==> CutReceived(cs) + MAX_RUN < ReceivedCount(ExpandAll(cs))
  {
    hide CutChunk, Expand;
    if cs != [] {
      CutLoses(cs[0]);
      LongReceivedLoses(cs[1..]);
      ReceivedCountAppend(Expand(cs[0]), ExpandAll(cs[1..]));
      assert forall i :: 0 < i < |cs| ==> cs[i] == cs[1..][i - 1];
    }
  }

  /** Parsed back with the same deltas, a packet has at most one chunk too many: only the padding is to spare. */
  lemma {:induction false} ChunksReadBack(h: Head, e: Encoder)
    requires HeadOk(h) && Accounted(e) && AllEncodable(e.chunks) && WireSize(e) <= MAX_WIRE_SIZE
    requires Framed(Encode(h, e)) && Decode(Encode(h, e)).Some? && Decode(Encode(h, e)).value.deltas == e.deltas
    ensures |Decode(Encode(h, e)).value.chunks| <= |e.chunks| + 1
  {
    var data := Encode(h, e);
    var p := Decode(data).value;
    hide Encode, Decode, ParseChunks, ReadChunkDeltas, ExpandAll, ReceivedCount, WordAt, HeadAt, DeltaBytes;
    EncodeFrame(h, e);
    DecodeParts(data);
    ParseChunksCovers(data[FIXED_SIZE..], p.statusCount, 0);
    ReadChunkDeltasUse(p.chunks, ParseChunks(data[FIXED_SIZE..], p.statusCount, 0).value.1);
  }

  lemma {:induction false} AllReadNoneCut(cs: seq<Chunk>, tail: seq<Byte>, statusCount: Word)
    requires AllEncodable(cs) && ParseChunks(ChunkBytes(cs) + tail, statusCount, 0).Some?
    requires var read := ParseChunks(ChunkBytes(cs) + tail, statusCount, 0).value.0;
             |read| <= |cs| + 1 && ReceivedCount(ExpandAll(read)) == ReceivedCount(ExpandAll(cs))
    ensures ReceivedRunsFit(cs)
  {
    hide ParseChunks, ChunkBytes, ExpandAll, ReceivedCount, CutReceived, ReceivedRunsFit;
    ReadReceived(cs, tail, statusCount, 0);
    LongReceivedLoses(cs);
  }

  lemma {:induction false} FinishedParts(e: Encoder, log: seq<Entry>)
    requires Finished(e, log)
    ensures Accounted(e) && AllEncodable(e.chunks) && e.deltas == DeltasOf(log)
    ensures ReceivedCount(ExpandAll(e.chunks)) == |DeltasOf(log)|
  {
    DeltaCount(log);
  }

  /** Bytes that report their log have every received packet in its chunks, so no run of them was cut. */
  lemma {:induction false} ReportsReceivedFit(h: Head, e: Encoder, log: seq<Entry>)
    requires HeadOk(h) && Finished(e, log) && |log| < 0x1_0000
    requires Framed(Encode(h, e)) && Reports(Encode(h, e), log, h.base, h.referenceTime * 64)
    ensures ReceivedRunsFit(e.chunks)
  {
    var data := Encode(h, e);
    hide *;
    FinishedFitsLengthField(e, log);
    FinishedParts(e, log);
    EncodeFrame(h, e);
    ReportsDeltas(data, log, h.base, h.referenceTime * 64);
    ChunksReadBack(h, e);
    DecodedChunks(data);
    AllReadNoneCut(e.chunks, Tail(e), WordAt(data, 14));
  }

  /** The deltas of the received results. */
  function DeltasHeard(rs: seq<PacketResult>): seq<int> {
    if rs == [] then [] else (if rs[0].received then [rs[0].delta] else []) + DeltasHeard(rs[1..])
  }

  lemma {:induction false} DeltasOfResults(ss: seq<Status>, ds: seq<int>, s: Word, clock: int)
    requires ReceivedCount(ss) == |ds|
    ensures DeltasHeard(ResultsFrom(ss, ds, s, clock)) == ds
  {
    if ss == [] {
      assert ds == [];
    } else {
      CountFirst(ss);
      var rs := ResultsFrom(ss, ds, s, clock);
      if IsReceived(ss[0]) {
        var t := clock + QuarterOf(ds[0]);
        DeltasOfResults(ss[1..], ds[1..], NextSeq(s), t);
        assert rs[1..] == ResultsFrom(ss[1..], ds[1..], NextSeq(s), t);
        assert ds == [ds[0]] + ds[1..];
      } else {
        DeltasOfResults(ss[1..], ds, NextSeq(s), clock);
        assert rs[1..] == ResultsFrom(ss[1..], ds, NextSeq(s), clock);
      }
    }
  }

  /** A parsed packet that reports a log holds its deltas, all of them. */
  lemma {:induction false} ReportedDeltas(p: Parsed, log: seq<Entry>, s: Word, clock: int)
    requires |p.deltas| == Cut16(ReceivedCount(ExpandAll(p.chunks))) && ReceivedCount(ExpandAll(p.chunks)) <= |p.deltas|
    requires PacketResults(p) == LogResults(log, s, clock)
    ensures p.deltas == DeltasOf(log) && ReceivedCount(ExpandAll(p.chunks)) == |DeltasOf(log)|
  {
    hide ExpandAll, LogResults, ResultsFrom, DeltasHeard;
    ResultsOfLog(log, s, clock);
    DeltasOfResults(StatusesOf(log), DeltasOf(log), s, clock);
    DeltasOfResults(ExpandAll(p.chunks), p.deltas, p.head.base, p.head.referenceTime * 64);
  }

  lemma {:induction false} ReportsDeltas(data: seq<Byte>, log: seq<Entry>, s: Word, clock: int)
    requires Framed(data) && Reports(data, log, s, clock)
    ensures Decode(data).Some? && Decode(data).value.deltas == DeltasOf(log)
    ensures ReceivedCount(ExpandAll(Decode(data).value.chunks)) == |DeltasOf(log)|
  {
    DecodeParts(data);
    hide Decode, ParseChunks, ReadChunkDeltas, ExpandAll, LogResults, PacketResults, WordAt, HeadAt, Cut16;
    ReportedDeltas(Decode(data).value, log, s, clock);
  }

  /** The bytes of a finished packet report its log exactly when no run exceeds 13 bits, of missing packets or of
      received ones. */
  lemma {:induction false} ReportsIffRunsFit(h: Head, e: Encoder, log: seq<Entry>)
    requires HeadOk(h) && Finished(e, log)
    requires |log| < 0x1_0000 && DeltasInRange(e.deltas)
    ensures Framed(Encode(h, e))
    ensures Reports(Encode(h, e), log, h.base, h.referenceTime * 64) <==> RunsFit(e.chunks)
  {
    hide ParseChunks, PacketResults, LogResults, ExpandAll, Encode, HeadAt, WordAt;
    FinishedFitsLengthField(e, log);
    EncodeFrame(h, e);
    if RunsFit(e.chunks) {
      DecodeEncode(h, e, log);
    } else if Reports(Encode(h, e), log, h.base, h.referenceTime * 64) {
      ReportsReceivedFit(h, e, log);
      var p := Decode(Encode(h, e)).value;
      SameResultsSameFlags(p, log, h.base, h.referenceTime * 64);
      NoWrap(|log|);
      LongRunMisread(e.chunks, Tail(e), |log|, 0);
      DecodedChunks(Encode(h, e));
    }
  }

  // ----- what the parser guarantees about any bytes

  /** The chunks read cover the announced count (in 16 bits) and the rest of the bytes is left to the deltas. */
  lemma {:induction false} ParseChunksCovers(content: seq<Byte>, statusCount: Word, count: Word)
    ensures var read := ParseChunks(content, statusCount, count);
            read.Some? ==>
              && Cut16(count + |ExpandAll(read.value.0)|) == statusCount
              && 2 * |read.value.0| <= |content|
              && read.value.1 == content[2 * |read.value.0|..]
    decreases |content|
  {
    hide ParseChunk, WordAt, Cut16;
    var read := ParseChunks(content, statusCount, count);
    if count < statusCount && |content| > 0 {
      if read.Some? {
        var c := ParseChunk(WordAt(content, 0), statusCount - count).value;
        var next := Cut16(count + |Expand(c)|);
        ParseChunksCovers(content[2..], statusCount, next);
        var more := ParseChunks(content[2..], statusCount, next).value;
        assert read.value.0 == [c] + more.0;
        assert read.value.1 == more.1;
        hide ParseChunks;
        ExpandAllCons(c, more.0);
        CutAdd(count + |Expand(c)|, |ExpandAll(more.0)|);
      }
    } else {
      NoWrap(count);
    }
  }

  /** One result per announced status, numbered from the base, and one delta per received status. */
  predicate Complete(p: Parsed) {
    && ReceivedCount(ExpandAll(p.chunks)) == |p.deltas|
    && var rs := PacketResults(p);
    && |rs| == p.statusCount == |ExpandAll(p.chunks)|
    && Numbered(rs, p.head.base)
    && forall i :: 0 <= i < |rs| ==> rs[i].received == IsReceived(ExpandAll(p.chunks)[i])
  }

  lemma {:induction false} CompleteWhenCounted(p: Parsed)
    requires ReceivedCount(ExpandAll(p.chunks)) == |p.deltas| && |ExpandAll(p.chunks)| == p.statusCount
    ensures Complete(p)
  {
    FlagsOfResults(ExpandAll(p.chunks), p.deltas, p.head.base, p.head.referenceTime * 64);
    NumbersOfResults(ExpandAll(p.chunks), p.deltas, p.head.base, p.head.referenceTime * 64);
  }

  /** The deltas are those the statuses announce, read from right behind the chunks; wireSize counts both. */
  predicate ConsumesExactly(data: seq<Byte>, p: Parsed) {
    && FIXED_SIZE + 2 * |p.chunks| <= |data|
    && var consumed := ReadDeltas(ExpandAll(p.chunks), data[FIXED_SIZE + 2 * |p.chunks|..]);
    && consumed.Some? && consumed.value.0 == p.deltas
    && FIXED_SIZE + p.wireSize + |consumed.value.1| == |data|
  }

  lemma {:induction false} DecodeParts(data: seq<Byte>)
    requires Framed(data) && Decode(data).Some?
    ensures var p := Decode(data).value;
            var read := ParseChunks(data[FIXED_SIZE..], p.statusCount, 0);
            && read.Some? && read.value.0 == p.chunks
            && var r := ReadChunkDeltas(p.chunks, read.value.1);
            && r.Some? && r.value.0 == p.deltas
            && |p.deltas| == Cut16(ReceivedCount(ExpandAll(p.chunks)))
            && p.wireSize == 2 * |p.chunks| + (|read.value.1| - |r.value.1|)
  {
    hide ParseChunks, ReadChunkDeltas, HeadAt, WordAt, Cut16;
  }

  /** Accepted bytes whose statuses were counted without wrapping yield one result per announced status, numbered
      from the base, and a delta for each received one: none missing, none left over, nothing read elsewhere. */
  lemma {:induction false} DecodeSound(data: seq<Byte>)
    requires Framed(data) && Decode(data).Some?
    requires |ExpandAll(Decode(data).value.chunks)| < 0x1_0000
    ensures Complete(Decode(data).value)
    ensures ConsumesExactly(data, Decode(data).value)
  {
    hide ParseChunks, ReadChunkDeltas, ReadDeltas, Decode, Complete, ExpandAll, ReceivedCount, WordAt;
    var p := Decode(data).value;
    DecodeParts(data);
    ParseChunksCovers(data[FIXED_SIZE..], p.statusCount, 0);
    var deltaBytes := ParseChunks(data[FIXED_SIZE..], p.statusCount, 0).value.1;
    assert deltaBytes == data[FIXED_SIZE + 2 * |p.chunks|..];
    NoWrap(|ExpandAll(p.chunks)|);
    ReceivedAtMost(ExpandAll(p.chunks));
    NoWrap(ReceivedCount(ExpandAll(p.chunks)));
    var rest := ReadChunkDeltas(p.chunks, deltaBytes).value.1;
    assert ReadChunkDeltas(p.chunks, deltaBytes) == Some((p.deltas, rest));
    ReadChunkDeltasFlat(p.chunks, deltaBytes, p.deltas, rest);
    CompleteWhenCounted(p);
  }
}
