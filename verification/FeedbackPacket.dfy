/** FeedbackRtpTransportPacket: its fields updated in place, each method proved against the
    functions of FeedbackEncoder, FeedbackWire, FeedbackRoundTrip and FeedbackRuns. */
module FeedbackPacket {
  import opened Bytes
  import opened SeqOrder
  import opened Chunks
  import opened ChunkCodec
  import opened FeedbackEncoder
  import opened FeedbackWire
  import opened FeedbackRoundTrip
  import Runs = FeedbackRuns

  class FeedbackRtpTransportPacket {
    var ssrcs: seq<Byte>
    var baseSequenceNumber: Word
    var referenceTime: int
    var latestSequenceNumber: Word
    var latestTimestamp: Runs.Quad
    var packetStatusCount: Word
    var feedbackPacketCount: Byte
    var chunks: seq<Chunk>
    var deltas: seq<int>
    // Context
    var allSameStatus: bool
    var currentStatus: Status
    var statuses: seq<Status>
    var deltasAndChunksSize: nat
    var size: nat
    var isCorrect: bool

    function EncoderState(): Encoder
      reads this
    {
      Encoder(allSameStatus, currentStatus, statuses, chunks, deltas, packetStatusCount, deltasAndChunksSize)
    }

    /** The abstract value of a locally generated packet. */
    function State(): Runs.Packet
      reads this
    {
      Runs.Packet(ssrcs, baseSequenceNumber, referenceTime, latestSequenceNumber, latestTimestamp,
                  feedbackPacketCount, EncoderState())
    }

    constructor (ssrcs: seq<Byte>)
      ensures State() == Runs.Fresh(ssrcs, 0) && size == 0 && isCorrect
    {
      this.ssrcs := ssrcs;
      baseSequenceNumber, referenceTime := 0, 0;
      latestSequenceNumber, latestTimestamp := 0, 0;
      packetStatusCount, feedbackPacketCount := 0, 0;
      chunks, deltas := [], [];
      allSameStatus, currentStatus, statuses := true, Unset, [];
      deltasAndChunksSize, size, isCorrect := 0, 0, true;
    }

    method SetFeedbackPacketCount(count: Byte)
      modifies `feedbackPacketCount
      ensures State() == old(State()).(feedbackCount := count)
    {
      feedbackPacketCount := count;
    }

    // ----- building

    method CreateRunLengthChunk(status: Status, count: nat)
      modifies `chunks, `packetStatusCount, `deltasAndChunksSize
      ensures EncoderState() == AddRun(old(EncoderState()), status, count)
    {
      var cut := Cut16(count);
      chunks := chunks + [RunLength(status, cut)];
      packetStatusCount := Cut16(packetStatusCount + cut);
      deltasAndChunksSize := deltasAndChunksSize + 2;
    }

    method CreateTwoBitVectorChunk(statuses: seq<Status>)
      modifies `chunks, `packetStatusCount, `deltasAndChunksSize
      ensures EncoderState() == AddChunk(old(EncoderState()), TwoBitVector(statuses))
    {
      chunks := chunks + [TwoBitVector(statuses)];
      packetStatusCount := Cut16(packetStatusCount + |statuses|);
      deltasAndChunksSize := deltasAndChunksSize + 2;
    }

    /** The loop of FillChunk that tops the pending statuses up to seven. */
    method TopUpPending(missingPackets: Word) returns (representedPackets: nat)
      modifies `currentStatus, `statuses
      ensures representedPackets == TopUpCount(|old(statuses)|, missingPackets)
      ensures EncoderState() == TopUp(old(EncoderState()), representedPackets)
    {
      currentStatus := NotReceived;
      representedPackets := 0;
      while representedPackets < missingPackets && |statuses| < 7
        invariant representedPackets <= TopUpCount(|old(statuses)|, missingPackets)
        invariant currentStatus == NotReceived && statuses == old(statuses) + Repeat(NotReceived, representedPackets)
      {
        statuses := statuses + [NotReceived];
        representedPackets := representedPackets + 1;
      }
    }

    /** FillChunk, first half. */
    method FillMissing(missingPackets: Word)
      requires missingPackets > 0
      modifies `currentStatus, `statuses, `chunks, `packetStatusCount, `deltasAndChunksSize
      ensures EncoderState() == Miss(old(EncoderState()), missingPackets)
    {
      hide AddRun, AddChunk, TopUp;
      // Create a long run chunk before processing this packet, if needed.
      if |statuses| >= 7 && allSameStatus {
        CreateRunLengthChunk(currentStatus, |statuses|);
        statuses := [];
        currentStatus := Unset;
      }
      // Fill statuses vector.
      var representedPackets := TopUpPending(missingPackets);
      // Create a two bit vector if needed.
      if |statuses| == 7 {
        CreateTwoBitVectorChunk(statuses);
        statuses := [];
        currentStatus := Unset;
      }
      // Not all missing packets have been represented.
      if missingPackets - representedPackets != 0 {
        CreateRunLengthChunk(NotReceived, missingPackets - representedPackets);
        statuses := [];
        currentStatus := Unset;
      }
    }

    method AppendStatus(status: Status, delta: int)
      requires status == (if 0 <= delta <= 255 then SmallDelta else LargeDelta)
      modifies `allSameStatus, `currentStatus, `statuses, `deltasAndChunksSize, `deltas
      ensures EncoderState() == Append(old(EncoderState()), status, delta)
    {
      statuses := statuses + [status];
      deltas := deltas + [delta];
      deltasAndChunksSize := deltasAndChunksSize + (if status == SmallDelta then 1 else 2);
      // Update context info.
      if currentStatus == Unset || (allSameStatus && currentStatus == status) {
        allSameStatus := true;
      } else {
        allSameStatus := false;
      }
      currentStatus := status;
    }

    /** FillChunk, second half. */
    method FillReceived(delta: int)
      modifies `allSameStatus, `currentStatus, `statuses, `chunks, `packetStatusCount, `deltasAndChunksSize, `deltas
      ensures EncoderState() == Arrive(old(EncoderState()), delta)
    {
      hide AddRun, Append;
      var status := if 0 <= delta <= 255 then SmallDelta else LargeDelta;
      // Create a long run chunk before processing this packet, if needed.
      if |statuses| >= 7 && allSameStatus && status != currentStatus {
        CreateRunLengthChunk(currentStatus, |statuses|);
        statuses := [];
      }
      AppendStatus(status, delta);
      // Not enough packet infos for creating a chunk.
      if |statuses| < 7 {
        return;
      } else if |statuses| == 7 && !allSameStatus {
        // 7 packet infos with heterogeneous status, create the chunk.
        currentStatus := Unset;
        CreateTwoBitVectorChunk(statuses);
        statuses := [];
      }
    }

    method FillChunk(previousSequenceNumber: Word, sequenceNumber: Word, delta: int)
      modifies `allSameStatus, `currentStatus, `statuses, `chunks, `packetStatusCount, `deltasAndChunksSize, `deltas
      ensures EncoderState() ==
              FeedbackEncoder.FillChunk(old(EncoderState()), Gap(previousSequenceNumber, sequenceNumber), delta)
    {
      var missingPackets := Gap(previousSequenceNumber, sequenceNumber);
      if missingPackets > 0 {
        FillMissing(missingPackets);
      }
      FillReceived(delta);
    }

    method AddPendingChunks()
      modifies `statuses, `chunks, `packetStatusCount, `deltasAndChunksSize
      ensures EncoderState() == Flush(old(EncoderState()))
    {
      if statuses == [] {
        return;
      }
      if allSameStatus {
        CreateRunLengthChunk(currentStatus, |statuses|);
      } else {
        CreateTwoBitVectorChunk(statuses);
      }
      statuses := [];
    }

    method Finish()
      modifies `statuses, `chunks, `packetStatusCount, `deltasAndChunksSize
      ensures EncoderState() == Flush(old(EncoderState()))
    {
      AddPendingChunks();
    }

    method AddPacket(sequenceNumber: Word, timestamp: Runs.Quad, maxRtcpPacketLen: nat)
      returns (result: Runs.AddPacketResult)
      modifies this
      ensures (result, State()) == Runs.AddPacket(old(State()), sequenceNumber, timestamp, maxRtcpPacketLen)
      ensures size == old(size) && isCorrect == old(isCorrect)
    {
      hide SignedQuad, Padding, SeqHigherThan, Gap, FeedbackEncoder.FillChunk, Cut16;
      // Let's see if we must set our base.
      if latestTimestamp == 0 {
        baseSequenceNumber := Cut16(sequenceNumber + 1);
        referenceTime := (timestamp % 0x2000_0000) / 64;
        latestSequenceNumber := sequenceNumber;
        latestTimestamp := timestamp / 64 * 64;
        return Runs.Success;
      }
      // Ignore a sequence number lower than, or equal to, the latest seen.
      if !SeqHigherThan(sequenceNumber, latestSequenceNumber) {
        return Runs.Success;
      }
      // Check if there are too many missing packets.
      if sequenceNumber - (latestSequenceNumber + 1) > Runs.MAX_MISSING {
        return Runs.Fatal;
      }
      // Deltas are multiples of 250 us.
      var delta := SignedQuad((timestamp - latestTimestamp) * 4);
      if delta > Runs.MAX_DELTA || delta < -1 * Runs.MAX_DELTA {
        return Runs.Fatal;
      }
      // Check whether another chunk and its delta could be added.
      var needed := FIXED_SIZE + deltasAndChunksSize;
      needed := needed + 4;
      needed := needed + Padding(needed);
      if needed > maxRtcpPacketLen {
        return Runs.MaxSizeExceeded;
      }
      FillChunk(latestSequenceNumber, sequenceNumber, delta);
      latestSequenceNumber := sequenceNumber;
      latestTimestamp := timestamp;
      return Runs.Success;
    }

    /** 65535 less the seven statuses reserved for what is pending. */
    predicate IsFull()
      reads this
    {
      packetStatusCount >= 0xFFFF - 7
    }

    predicate IsSerializable()
      reads this
    {
      |deltas| > 0
    }

    function GetSize(): nat
      reads this
    {
      if size != 0 then size else WireSize(EncoderState())
    }

    // ----- serialising

    method Serialize(buffer: array<Byte>) returns (offset: nat)
      requires |ssrcs| == 8 && (size == 0 || size >= FIXED_SIZE)
      requires AllEncodable(Flush(EncoderState()).chunks)
      requires Accounted(Flush(EncoderState())) && WireSize(Flush(EncoderState())) <= buffer.Length
      modifies this, buffer
      ensures State() == old(State()).(encoder := Flush(old(EncoderState()))) && size == old(size)
      ensures offset == WireSize(EncoderState())
      ensures buffer[..offset] == EncodeAs(GetSize(), Runs.HeadOf(State()), EncoderState())
      ensures forall i :: offset <= i < buffer.Length ==> buffer[i] == old(buffer[i])
    {
      hide HeaderBytes, ChunkBytes, DeltasWire, Padding, Flush;
      AddPendingChunks();
      DeltasWireSize(deltas);
      offset := SerializeHeader(buffer);
      offset := WriteChunks(buffer, offset, chunks);
      offset := WriteDeltas(buffer, offset, deltas);
      // 32 bits padding.
      offset := WriteZeros(buffer, offset, Padding(offset));
    }

    /** Packet::Serialize, FeedbackPacket::Serialize and the fixed fields. */
    method SerializeHeader(buffer: array<Byte>) returns (offset: nat)
      requires |ssrcs| == 8 && GetSize() >= FIXED_SIZE && FIXED_SIZE <= buffer.Length
      modifies buffer
      ensures offset == FIXED_SIZE
      ensures buffer[..offset] == HeaderBytes(GetSize(), Runs.HeadOf(State()), packetStatusCount)
      ensures forall i :: offset <= i < buffer.Length ==> buffer[i] == old(buffer[i])
    {
      hide WireSize, ReferenceTimeBytes, PutWord, Cut16;
      var length := GetSize() / 4 - 1;
      offset := WriteBytes(buffer, 0, [0x80 + MESSAGE_TYPE_TCC, PACKET_TYPE_RTPFB] + PutWord(Cut16(length)));
      offset := WriteBytes(buffer, offset, ssrcs);
      offset := WriteBytes(buffer, offset, PutWord(baseSequenceNumber));
      offset := WriteBytes(buffer, offset, PutWord(packetStatusCount));
      offset := WriteBytes(buffer, offset, ReferenceTimeBytes(referenceTime));
      offset := WriteBytes(buffer, offset, [feedbackPacketCount]);
    }

    // ----- parsing

    /** The fields of a parsed packet. */
    predicate Holds(p: Parsed)
      reads this
    {
      && p.head == Head(ssrcs, baseSequenceNumber, referenceTime, feedbackPacketCount)
      && packetStatusCount == p.statusCount
      && chunks == p.chunks
      && deltas == p.deltas
      && deltasAndChunksSize == p.wireSize
      && size == p.size
    }

    /** The parsing constructor; what follows the bytes the common header declares is not looked at. */
    constructor FromBytes(data: seq<Byte>)
      requires |data| >= FIXED_SIZE && DeclaredSize(data) >= FIXED_SIZE
      ensures isCorrect <==> DeclaredSize(data) <= |data| && Decode(Own(data)).Some?
      ensures isCorrect ==> Holds(Decode(Own(data)).value) && forall c :: c in chunks ==> FromWire(c)
    {
      hide WordAt, ReferenceTimeAt, Decode, DeclaredSize;
      // Just for locally generated packets.
      latestSequenceNumber, latestTimestamp := 0, 0;
      allSameStatus, currentStatus, statuses := true, Unset, [];
      ssrcs := data[4..12];
      baseSequenceNumber, packetStatusCount, referenceTime, feedbackPacketCount := 0, 0, 0, 0;
      size, chunks, deltas, deltasAndChunksSize := 0, [], [], 0;
      isCorrect := false;
      new;
      var len := DeclaredSize(data);
      if len > |data| {
        return;
      }
      OwnFrame(data);
      baseSequenceNumber := WordAt(data, 12);
      packetStatusCount := WordAt(data, 14);
      referenceTime := ReferenceTimeAt(data, 16);
      feedbackPacketCount := data[19];
      size := len;
      isCorrect, chunks, deltas, deltasAndChunksSize := ReadBody(data[..len]);
    }

    // ----- reporting

    /** None where std::vector::at throws: a received status has no delta. */
    method GetPacketResults() returns (packetResults: Option<seq<PacketResult>>)
      ensures packetResults.Some? <==> ReceivedCount(ExpandAll(chunks)) <= |deltas|
      ensures packetResults.Some? ==>
                packetResults.value == ResultsFrom(ExpandAll(chunks), deltas, baseSequenceNumber, referenceTime * 64)
    {
      var marks := MarkResults(chunks, Cut16(baseSequenceNumber - 1));
      BeforeBase(baseSequenceNumber);
      packetResults := StampResults(marks, ExpandAll(chunks), deltas, baseSequenceNumber, referenceTime * 64);
    }

    /** The share of lost packets in 1/256ths, in one byte: rounded down, and 255 when all are lost. The counts are
        16 bits wide; while that is enough for the statuses, the byte is the share. */
    method GetPacketFractionLost() returns (fraction: Byte)
      ensures fraction == LossFraction(Cut16(LostCount(ExpandAll(chunks))), packetStatusCount)
      ensures packetStatusCount == |ExpandAll(chunks)| ==>
                IsShare(fraction, LostCount(ExpandAll(chunks)), packetStatusCount)
    {
      hide ExpandAll, ReceivedCount, LostCount, Cut16;
      ShareOfStatuses(chunks, packetStatusCount);
      var expected := packetStatusCount;
      if expected == 0 {
        return 0;
      }
      var lost := CountLost(chunks);
      // all lost would give 256, which does not fit
      if lost == expected {
        return 255;
      }
      return Shifted(lost, expected) % 0x100;
    }
  }

  /** The bytes a common header declares. */
  function Own(data: seq<Byte>): seq<Byte>
    requires |data| >= FIXED_SIZE
  {
    if DeclaredSize(data) <= |data| then data[..DeclaredSize(data)] else data
  }

  lemma {:induction false} OwnFrame(data: seq<Byte>)
    requires |data| >= FIXED_SIZE && FIXED_SIZE <= DeclaredSize(data) <= |data|
    ensures Framed(Own(data)) && HeadAt(Own(data)) == HeadAt(data) && WordAt(Own(data), 14) == WordAt(data, 14)
  {
    assert Own(data)[4..12] == data[4..12];
  }

  /** `(lost << 8) / expected`, in plain integers. */
  function Shifted(lost: int, expected: int): int
    requires expected != 0
  {
    lost * 256 / expected
  }

  /** What the code returns for 16-bit counts of lost and expected packets. */
  function LossFraction(lost: Word, expected: Word): Byte {
    if expected == 0 then 0 else if lost == expected then 255 else Shifted(lost, expected) % 0x100
  }

  /** 0 for an empty packet, 255 for a fully lost one, else the lost share rounded down to 1/256. */
  predicate IsShare(fraction: Byte, lost: nat, expected: nat) {
    if expected == 0 then fraction == 0
    else if lost == expected then fraction == 255
    else fraction * expected <= 256 * lost < (fraction + 1) * expected
  }

  lemma {:induction false} LossIsShare(lost: Word, expected: Word)
    requires lost <= expected
    ensures IsShare(LossFraction(lost, expected), lost, expected)
  {
    if lost < expected {
      ShareBounds(lost * 256, expected);
    }
  }

  lemma {:induction false} ShareBounds(n: nat, d: nat)
    requires 0 < d && n < 256 * d
    ensures 0 <= n / d < 256 && n / d * d <= n < (n / d + 1) * d
  {
    var q := n / d;
    assert n == q * d + n % d;
    assert q >= 256 ==> q * d >= 256 * d;
  }

  lemma {:induction false} ShareOfStatuses(cs: seq<Chunk>, expected: Word)
    ensures expected == |ExpandAll(cs)| ==>
              IsShare(LossFraction(Cut16(LostCount(ExpandAll(cs))), expected), LostCount(ExpandAll(cs)), expected)
  {
    hide ExpandAll, LossFraction, IsShare;
    if expected == |ExpandAll(cs)| {
      NoWrap(LostCount(ExpandAll(cs)));
      LossIsShare(LostCount(ExpandAll(cs)), expected);
    }
  }

  // ----- the parser's loops

  /** What is left to parse once `chunks` have been read. */
  predicate Parsing(content: seq<Byte>, statusCount: Word, chunks: seq<Chunk>, offset: nat, count: Word) {
    && offset == 2 * |chunks| <= |content|
    && var rest := ParseChunks(content[offset..], statusCount, count);
    && var whole := ParseChunks(content, statusCount, 0);
    && (whole.Some? <==> rest.Some?)
    && (whole.Some? ==> whole.value.0 == chunks + rest.value.0 && whole.value.1 == rest.value.1)
  }

  lemma {:induction false} ParsingStep(
      content: seq<Byte>, statusCount: Word, chunks: seq<Chunk>, offset: nat, count: Word)
    requires Parsing(content, statusCount, chunks, offset, count) && count < statusCount && offset < |content|
    ensures offset + 2 > |content| ==> ParseChunks(content, statusCount, 0) == None
    ensures offset + 2 <= |content| ==>
              var c := ParseChunk(WordAt(content, offset), statusCount - count);
              && (c.None? ==> ParseChunks(content, statusCount, 0) == None)
              && (c.Some? ==>
                    Parsing(content, statusCount, chunks + [c.value], offset + 2, Cut16(count + |Expand(c.value)|)))
  {
    hide ParseChunk, Cut16;
    var data := content[offset..];
    if offset + 2 <= |content| {
      assert WordAt(data, 0) == WordAt(content, offset);
      assert data[2..] == content[offset + 2..];
      hide WordAt;
      var c := ParseChunk(WordAt(content, offset), statusCount - count);
      if c.Some? {
        var more := ParseChunks(data[2..], statusCount, Cut16(count + |Expand(c.value)|));
        if more.Some? {
          assert (chunks + [c.value]) + more.value.0 == chunks + ([c.value] + more.value.0);
        }
      }
    }
  }

  lemma {:induction false} ParsingDone(
      content: seq<Byte>, statusCount: Word, chunks: seq<Chunk>, offset: nat, count: Word)
    requires Parsing(content, statusCount, chunks, offset, count) && !(count < statusCount && offset < |content|)
    ensures var whole := ParseChunks(content, statusCount, 0);
            && (whole.Some? <==> count == statusCount)
            && (whole.Some? ==> whole.value.0 == chunks && whole.value.1 == content[offset..])
  {
    assert chunks + [] == chunks;
  }

  lemma {:induction false} ReceivedWith(cs: seq<Chunk>, c: Chunk)
    ensures Cut16(Cut16(ReceivedCount(ExpandAll(cs))) + ReceivedCount(Expand(c))) ==
            Cut16(ReceivedCount(ExpandAll(cs + [c])))
  {
    hide Cut16;
    ExpandAllSnoc(cs, c);
    ReceivedCountAppend(ExpandAll(cs), Expand(c));
    CutAdd(ReceivedCount(ExpandAll(cs)), ReceivedCount(Expand(c)));
  }

  /** The chunk loop of the parsing constructor. */
  method ReadChunks(content: seq<Byte>, statusCount: Word)
    returns (ok: bool, chunks: seq<Chunk>, received: Word, offset: nat)
    ensures ok <==> ParseChunks(content, statusCount, 0).Some?
    ensures ok ==>
              && offset <= |content| && offset == 2 * |chunks|
              && ParseChunks(content, statusCount, 0).value.0 == chunks
              && ParseChunks(content, statusCount, 0).value.1 == content[offset..]
              && received == Cut16(ReceivedCount(ExpandAll(chunks)))
              && (forall c :: c in chunks ==> FromWire(c))
  {
    hide ParseChunks, ParseChunk, WordAt, Cut16, FromWire, Parsing, ExpandAll, ReceivedCount, Expand;
    chunks, received, offset := [], 0, 0;
    var count: Word := 0;
    StartParsing(content, statusCount);
    while count < statusCount && |content| > offset
      invariant offset == 2 * |chunks| <= |content| && Parsing(content, statusCount, chunks, offset, count)
      invariant received == Cut16(ReceivedCount(ExpandAll(chunks)))
      invariant forall c :: c in chunks ==> FromWire(c)
      decreases |content| - offset
    {
      ParsingStep(content, statusCount, chunks, offset, count);
      if |content| - offset < 2 {
        return false, chunks, received, offset;
      }
      var chunk := ParseChunkWord(WordAt(content, offset), statusCount - count);
      if chunk == None {
        return false, chunks, received, offset;
      }
      ParsedFromWire(WordAt(content, offset), statusCount - count);
      ReceivedWith(chunks, chunk.value);
      chunks := chunks + [chunk.value];
      offset := offset + 2;
      count := Cut16(count + |Expand(chunk.value)|);
      received := Cut16(received + ReceivedCount(Expand(chunk.value)));
    }
    ParsingDone(content, statusCount, chunks, offset, count);
    ok := count == statusCount;
  }

  lemma {:induction false} StartParsing(content: seq<Byte>, statusCount: Word)
    ensures Parsing(content, statusCount, [], 0, 0)
    ensures Cut16(ReceivedCount(ExpandAll([]))) == 0
  {
    assert content[0..] == content;
    assert ReceivedCount(ExpandAll([])) == 0;
    hide ParseChunks, ReceivedCount, ExpandAll;
    var whole := ParseChunks(content, statusCount, 0);
    if whole.Some? {
      assert [] + whole.value.0 == whole.value.0;
    }
  }

  /** The delta loop of the parsing constructor. */
  method ReadAllDeltas(chunks: seq<Chunk>, data: seq<Byte>) returns (ok: bool, deltas: seq<int>, offset: nat)
    requires forall c :: c in chunks ==> FromWire(c)
    ensures ok <==> ReadChunkDeltas(chunks, data).Some?
    ensures ok ==> offset <= |data| && ReadChunkDeltas(chunks, data) == Some((deltas, data[offset..]))
  {
    hide ReadChunkDeltas, FromWire, ReadingChunks, AddsDeltas;
    deltas, offset := [], 0;
    var k := 0;
    StartReadingChunks(chunks, data);
    while k < |chunks| && |data| > offset
      invariant k <= |chunks| && offset <= |data| && ReadingChunks(chunks, data, k, offset, deltas)
      decreases |chunks| - k
    {
      assert chunks[k] in chunks;
      var added, more, deltasOffset := AddDeltas(chunks[k], data[offset..]);
      ReadingChunksStep(chunks, data, k, offset, deltas, added, more, deltasOffset);
      if !added {
        return false, deltas, offset;
      }
      deltas := deltas + more;
      offset := offset + deltasOffset;
      k := k + 1;
    }
    ReadingChunksDone(chunks, data, k, offset, deltas);
    ok := true;
  }

  /** What is left to read once the first `k` chunks have used `offset` bytes and given `taken`. */
  predicate ReadingChunks(cs: seq<Chunk>, data: seq<Byte>, k: nat, offset: nat, taken: seq<int>)
    requires k <= |cs| && offset <= |data|
  {
    var rest := ReadChunkDeltas(cs[k..], data[offset..]);
    var whole := ReadChunkDeltas(cs, data);
    && (whole.Some? <==> rest.Some?)
    && (whole.Some? ==> whole.value.0 == taken + rest.value.0 && whole.value.1 == rest.value.1)
  }

  lemma {:induction false} StartReadingChunks(cs: seq<Chunk>, data: seq<Byte>)
    ensures ReadingChunks(cs, data, 0, 0, [])
  {
    assert cs[0..] == cs && data[0..] == data;
    hide ReadChunkDeltas;
    var whole := ReadChunkDeltas(cs, data);
    if whole.Some? {
      assert [] + whole.value.0 == whole.value.0;
    }
  }

  lemma {:induction false} ReadingChunksStep(
      cs: seq<Chunk>, data: seq<Byte>, k: nat, offset: nat, taken: seq<int>, ok: bool, more: seq<int>, used: nat)
    requires k < |cs| && offset < |data| && ReadingChunks(cs, data, k, offset, taken)
    requires AddsDeltas(Expand(cs[k]), data[offset..], ok, more, used)
    ensures !ok ==> ReadChunkDeltas(cs, data).None?
    ensures ok ==> offset + used <= |data| && ReadingChunks(cs, data, k + 1, offset + used, taken + more)
  {
    hide ReadDeltas, Expand;
    assert cs[k..][1..] == cs[k + 1..] && cs[k..][0] == cs[k];
    if ok {
      assert data[offset..][used..] == data[offset + used..];
      var rest := ReadChunkDeltas(cs[k + 1..], data[offset + used..]);
      if rest.Some? {
        assert (taken + more) + rest.value.0 == taken + (more + rest.value.0);
      }
    }
  }

  lemma {:induction false} ReadingChunksDone(cs: seq<Chunk>, data: seq<Byte>, k: nat, offset: nat, taken: seq<int>)
    requires k <= |cs| && offset <= |data| && ReadingChunks(cs, data, k, offset, taken)
    requires k == |cs| || offset == |data|
    ensures ReadChunkDeltas(cs, data) == Some((taken, data[offset..]))
  {
    assert taken + [] == taken;
  }

  /** The constructor from the chunks on. */
  method ReadBody(data: seq<Byte>) returns (ok: bool, chunks: seq<Chunk>, deltas: seq<int>, wireSize: nat)
    requires Framed(data)
    ensures ok <==> Decode(data).Some?
    ensures ok ==>
              var p := Decode(data).value;
              && p.head == HeadAt(data) && p.statusCount == WordAt(data, 14) && p.size == |data|
              && p.chunks == chunks && p.deltas == deltas && p.wireSize == wireSize
    ensures ok ==> forall c :: c in chunks ==> FromWire(c)
  {
    hide HeadAt, WordAt, ParseChunks, ReadChunkDeltas, Decode, Cut16, ExpandAll, ReceivedCount, FromWire, DeclaredSize;
    var contentData := data[FIXED_SIZE..];
    var received, offset;
    ok, chunks, received, offset := ReadChunks(contentData, WordAt(data, 14));
    deltas, wireSize := [], 2 * |chunks|;
    ParseFailure(data);
    if !ok {
      return;
    }
    DecodeFromLoops(data, chunks, contentData[offset..]);
    var deltasOffset;
    ok, deltas, deltasOffset := ReadAllDeltas(chunks, contentData[offset..]);
    if !ok {
      return;
    }
    wireSize := wireSize + deltasOffset;
    ok := |deltas| == received;
  }

  lemma {:induction false} ParseFailure(data: seq<Byte>)
    requires Framed(data)
    ensures ParseChunks(data[FIXED_SIZE..], WordAt(data, 14), 0).None? ==> Decode(data).None?
  {
  }

  /** Decode, put together from its two loops. */
  lemma {:induction false} DecodeFromLoops(data: seq<Byte>, cs: seq<Chunk>, deltaBytes: seq<Byte>)
    requires Framed(data)
    requires var read := ParseChunks(data[FIXED_SIZE..], WordAt(data, 14), 0);
             read.Some? && read.value.0 == cs && read.value.1 == deltaBytes
    ensures ReadChunkDeltas(cs, deltaBytes).None? ==> Decode(data).None?
    ensures forall ds, rest :: ReadChunkDeltas(cs, deltaBytes) == Some((ds, rest)) ==>
              && (Decode(data).Some? <==> |ds| == Cut16(ReceivedCount(ExpandAll(cs))))
              && (Decode(data).Some? ==>
                    var p := Decode(data).value;
                    && p.head == HeadAt(data) && p.statusCount == WordAt(data, 14) && p.chunks == cs && p.deltas == ds
                    && p.wireSize == 2 * |cs| + (|deltaBytes| - |rest|) && p.size == |data|)
  {
    hide ParseChunks, ReadChunkDeltas, WordAt, ReferenceTimeAt, Cut16, ExpandAll, ReceivedCount;
  }

  // ----- the reporting loops

  function LostCount(ss: seq<Status>): (r: nat)
    ensures r <= |ss|
  {
    ReceivedAtMost(ss);
    |ss| - ReceivedCount(ss)
  }

  method CountLost(chunks: seq<Chunk>) returns (lost: Word)
    ensures lost == Cut16(LostCount(ExpandAll(chunks)))
  {
    hide Cut16, ExpandAll, ReceivedCount, Expand;
    lost := 0;
    NoneLost();
    for k := 0 to |chunks|
      invariant lost == Cut16(LostCount(ExpandAll(chunks[..k])))
    {
      assert chunks[..k + 1] == chunks[..k] + [chunks[k]];
      LostWith(chunks[..k], chunks[k]);
      lost := Cut16(lost + (|Expand(chunks[k])| - ReceivedCount(Expand(chunks[k]))));
    }
    assert chunks[..|chunks|] == chunks;
  }

  lemma {:induction false} NoneLost()
    ensures Cut16(LostCount(ExpandAll([]))) == 0
  {
  }

  lemma {:induction false} LostWith(cs: seq<Chunk>, c: Chunk)
    ensures Cut16(Cut16(LostCount(ExpandAll(cs))) + LostCount(Expand(c))) == Cut16(LostCount(ExpandAll(cs + [c])))
  {
    hide Cut16;
    ExpandAllSnoc(cs, c);
    ReceivedCountAppend(ExpandAll(cs), Expand(c));
    CutAdd(LostCount(ExpandAll(cs)), LostCount(Expand(c)));
  }

  /** The results before deltas and times are filled in. */
  function Marks(ss: seq<Status>, s: Word): seq<PacketResult> {
    seq(|ss|, i requires 0 <= i < |ss| => PacketResult(Cut16(s + i), IsReceived(ss[i]), 0, 0))
  }

  lemma {:induction false} MarksAppend(a: seq<Status>, b: seq<Status>, s: Word)
    ensures Marks(a + b, s) == Marks(a, s) + Marks(b, Cut16(s + |a|))
  {
    forall i | |a| <= i < |a| + |b| ensures Marks(a + b, s)[i] == Marks(b, Cut16(s + |a|))[i - |a|] {
      CutAdd(s + |a|, i - |a|);
    }
  }

  lemma {:induction false} MarkMore(ss: seq<Status>, s: Word, i: nat)
    requires i < |ss|
    ensures Marks(ss, s)[..i + 1] == Marks(ss, s)[..i] + [PacketResult(Cut16(s + i), IsReceived(ss[i]), 0, 0)]
  {
    hide Cut16;
  }

  /** The number after the i-th one from `current` on, counted either way. */
  lemma {:induction false} NumberAfter(current: Word, i: nat)
    ensures Cut16(Cut16(current + i) + 1) == Cut16(NextSeq(current) + i) == Cut16(current + (i + 1))
    ensures Cut16(current + 0) == current
  {
    NoWrap(current);
    hide Cut16;
    CutAdd(current + i, 1);
    CutAdd(current + 1, i);
  }

  /** RunLengthChunk::FillResults and its vector counterparts; `current` is the number before the first. */
  method FillResults(c: Chunk, current: Word) returns (results: seq<PacketResult>, last: Word)
    ensures results == Marks(Expand(c), NextSeq(current))
    ensures NextSeq(last) == Cut16(NextSeq(current) + |Expand(c)|)
  {
    var ss := Expand(c);
    results, last := [], current;
    NumberAfter(current, 0);
    NumberAfter(current, |ss|);
    assert |Marks(ss, NextSeq(current))| == |ss|;
    hide Cut16, Expand, Marks;
    for i := 0 to |ss|
      invariant last == Cut16(current + i)
      invariant results == Marks(ss, NextSeq(current))[..i]
    {
      NumberAfter(current, i);
      MarkMore(ss, NextSeq(current), i);
      last := Cut16(last + 1);
      results := results + [PacketResult(last, IsReceived(ss[i]), 0, 0)];
    }
    assert results == Marks(ss, NextSeq(current));
  }

  /** The first loop of GetPacketResults. */
  method MarkResults(chunks: seq<Chunk>, before: Word) returns (results: seq<PacketResult>)
    ensures results == Marks(ExpandAll(chunks), NextSeq(before))
  {
    hide Cut16, ExpandAll, Expand, NextSeq, Marks;
    results := [];
    var current := before;
    StartMarks(NextSeq(before));
    for k := 0 to |chunks|
      invariant results == Marks(ExpandAll(chunks[..k]), NextSeq(before))
      invariant NextSeq(current) == Cut16(NextSeq(before) + |ExpandAll(chunks[..k])|)
    {
      assert chunks[..k + 1] == chunks[..k] + [chunks[k]];
      ExpandAllSnoc(chunks[..k], chunks[k]);
      MarksAppend(ExpandAll(chunks[..k]), Expand(chunks[k]), NextSeq(before));
      ghost var soFar: int := NextSeq(before) + |ExpandAll(chunks[..k])|;
      CutAdd(soFar, |Expand(chunks[k])|);
      var more;
      more, current := FillResults(chunks[k], current);
      results := results + more;
    }
    assert chunks[..|chunks|] == chunks;
  }

  lemma {:induction false} StartMarks(s: Word)
    ensures Marks(ExpandAll([]), s) == [] && Cut16(s + |ExpandAll([])|) == s
  {
  }

  lemma {:induction false} BeforeBase(s: Word)
    ensures NextSeq(Cut16(s - 1)) == s
  {
  }

  /** What is left to stamp from position `idx` on. */
  predicate Stamping(
      results: seq<PacketResult>, marks: seq<PacketResult>, ss: seq<Status>, ds: seq<int>, s: Word, clock: int,
      idx: nat, deltaIdx: nat, now: int)
    requires ReceivedCount(ss) <= |ds|
  {
    && |results| == |ss| == |marks| && idx <= |ss| && deltaIdx <= |ds|
    && (forall i :: idx <= i < |ss| ==> results[i] == marks[i])
    && ReceivedCount(ss[idx..]) <= |ds[deltaIdx..]|
    && ResultsFrom(ss, ds, s, clock) == results[..idx] + ResultsFrom(ss[idx..], ds[deltaIdx..], Cut16(s + idx), now)
  }

  lemma {:induction false} StampStep(
      results: seq<PacketResult>, marks: seq<PacketResult>, ss: seq<Status>, ds: seq<int>, s: Word, clock: int,
      idx: nat, deltaIdx: nat, now: int)
    requires ReceivedCount(ss) <= |ds| && idx < |ss| && marks == Marks(ss, s)
    requires Stamping(results, marks, ss, ds, s, clock, idx, deltaIdx, now)
    ensures !results[idx].received ==> Stamping(results, marks, ss, ds, s, clock, idx + 1, deltaIdx, now)
    ensures results[idx].received ==>
              && deltaIdx < |ds|
              && var t := now + QuarterOf(ds[deltaIdx]);
              Stamping(results[idx := results[idx].(delta := ds[deltaIdx], receivedAtMs := t)],
                       marks, ss, ds, s, clock, idx + 1, deltaIdx + 1, t)
  {
    hide ReceivedCount, Cut16, QuarterOf;
    CountFirst(ss[idx..]);
    assert ss[idx..][1..] == ss[idx + 1..] && ss[idx..][0] == ss[idx];
    assert NextSeq(Cut16(s + idx)) == Cut16(s + (idx + 1)) by { CutAdd(s + idx, 1); }
    var rest := ResultsFrom(ss[idx..], ds[deltaIdx..], Cut16(s + idx), now);
    if IsReceived(ss[idx]) {
      assert ds[deltaIdx..][1..] == ds[deltaIdx + 1..];
      var t := now + QuarterOf(ds[deltaIdx]);
      var stamped := results[idx := results[idx].(delta := ds[deltaIdx], receivedAtMs := t)];
      assert stamped[..idx + 1] == results[..idx] + [rest[0]];
    } else {
      assert results[..idx + 1] == results[..idx] + [rest[0]];
    }
  }

  /** While the deltas last: as many used as received statuses passed, and the rest still to stamp. */
  predicate StampingTo(
      results: seq<PacketResult>, marks: seq<PacketResult>, ss: seq<Status>, ds: seq<int>, s: Word, clock: int,
      idx: nat, deltaIdx: nat, now: int)
  {
    && |results| == |ss| == |marks| && idx <= |ss|
    && (forall i :: idx <= i < |ss| ==> results[i] == marks[i])
    && deltaIdx == ReceivedCount(ss[..idx]) <= |ds|
    && (ReceivedCount(ss) <= |ds| ==> Stamping(results, marks, ss, ds, s, clock, idx, deltaIdx, now))
  }

  lemma {:induction false} StampToStep(
      results: seq<PacketResult>, marks: seq<PacketResult>, ss: seq<Status>, ds: seq<int>, s: Word, clock: int,
      idx: nat, deltaIdx: nat, now: int)
    requires idx < |ss| && marks == Marks(ss, s)
    requires StampingTo(results, marks, ss, ds, s, clock, idx, deltaIdx, now)
    ensures !results[idx].received ==> StampingTo(results, marks, ss, ds, s, clock, idx + 1, deltaIdx, now)
    ensures results[idx].received && deltaIdx == |ds| ==> ReceivedCount(ss) > |ds|
    ensures results[idx].received && deltaIdx < |ds| ==>
              var t := now + QuarterOf(ds[deltaIdx]);
              StampingTo(results[idx := results[idx].(delta := ds[deltaIdx], receivedAtMs := t)],
                         marks, ss, ds, s, clock, idx + 1, deltaIdx + 1, t)
  {
    hide Stamping, QuarterOf, Cut16;
    assert ss[..idx + 1][..idx] == ss[..idx];
    assert results[idx].received == IsReceived(ss[idx]);
    ReceivedCountPrefix(ss, idx + 1);
    if ReceivedCount(ss) <= |ds| {
      StampStep(results, marks, ss, ds, s, clock, idx, deltaIdx, now);
    }
  }

  /** The second loop of GetPacketResults: each received result takes the next delta and advances the clock. */
  method StampResults(marks: seq<PacketResult>, ghost ss: seq<Status>, deltas: seq<int>, s: Word, clock: int)
    returns (stamped: Option<seq<PacketResult>>)
    requires marks == Marks(ss, s)
    ensures stamped.Some? <==> ReceivedCount(ss) <= |deltas|
    ensures stamped.Some? ==> stamped.value == ResultsFrom(ss, deltas, s, clock)
  {
    hide ResultsFrom, Marks, Cut16, ReceivedCount, StampingTo, Stamping;
    var results := marks;
    var deltaIdx, currentReceivedAtMs := 0, clock;
    StartStamping(ss, deltas, s, clock);
    for idx := 0 to |results|
      invariant |results| == |marks| == |ss|
      invariant deltaIdx <= |deltas|
      invariant StampingTo(results, marks, ss, deltas, s, clock, idx, deltaIdx, currentReceivedAtMs)
    {
      StampToStep(results, marks, ss, deltas, s, clock, idx, deltaIdx, currentReceivedAtMs);
      if results[idx].received {
        if deltaIdx == |deltas| {
          return None;
        }
        currentReceivedAtMs := currentReceivedAtMs + QuarterOf(deltas[deltaIdx]);
        results := results[idx := results[idx].(delta := deltas[deltaIdx], receivedAtMs := currentReceivedAtMs)];
        deltaIdx := deltaIdx + 1;
      }
    }
    StampDone(results, marks, ss, deltas, s, clock, deltaIdx, currentReceivedAtMs);
    return Some(results);
  }

  lemma {:induction false} StartStamping(ss: seq<Status>, ds: seq<int>, s: Word, clock: int)
    ensures |Marks(ss, s)| == |ss| && StampingTo(Marks(ss, s), Marks(ss, s), ss, ds, s, clock, 0, 0, clock)
  {
    NoWrap(s);
    hide Cut16;
    assert ss[0..] == ss && ds[0..] == ds && ss[..0] == [];
    if ReceivedCount(ss) <= |ds| {
      var rs := ResultsFrom(ss, ds, s, clock);
      assert [] + rs == rs;
    }
  }

  lemma {:induction false} StampDone(
      results: seq<PacketResult>, marks: seq<PacketResult>, ss: seq<Status>, ds: seq<int>, s: Word, clock: int,
      deltaIdx: nat, now: int)
    requires StampingTo(results, marks, ss, ds, s, clock, |ss|, deltaIdx, now)
    ensures ReceivedCount(ss) <= |ds| && results == ResultsFrom(ss, ds, s, clock)
  {
    assert ss[|ss|..] == [] && ss[..|ss|] == ss;
    assert results[..|ss|] + [] == results;
  }

  /** memcpy and the Set*Bytes helpers. */
  method WriteBytes(buffer: array<Byte>, offset: nat, bytes: seq<Byte>) returns (next: nat)
    requires offset + |bytes| <= buffer.Length
    modifies buffer
    ensures next == offset + |bytes|
    ensures buffer[..next] == old(buffer[..offset]) + bytes
    ensures forall i :: next <= i < buffer.Length ==> buffer[i] == old(buffer[i])
  {
    forall i | 0 <= i < |bytes| {
      buffer[offset + i] := bytes[i];
    }
    next := offset + |bytes|;
    assert forall i :: 0 <= i < offset ==> buffer[i] == old(buffer[..])[i];
    assert forall i :: offset <= i < next ==> buffer[i] == bytes[i - offset];
  }

  method WriteChunks(buffer: array<Byte>, start: nat, chunks: seq<Chunk>) returns (offset: nat)
    requires AllEncodable(chunks)
    requires start + 2 * |chunks| <= buffer.Length
    modifies buffer
    ensures offset == start + 2 * |chunks|
    ensures buffer[..offset] == old(buffer[..start]) + ChunkBytes(chunks)
    ensures forall i :: offset <= i < buffer.Length ==> buffer[i] == old(buffer[i])
  {
    offset := start;
    ghost var front := buffer[..start];
    assert front + ChunkBytes(chunks[..0]) == front;
    for k := 0 to |chunks|
      invariant offset == start + 2 * k
      invariant buffer[..offset] == front + ChunkBytes(chunks[..k])
      invariant forall i :: offset <= i < buffer.Length ==> buffer[i] == old(buffer[i])
    {
      var bytes := SerializeChunk(chunks[k]);
      ChunkBytesSnoc(chunks, k, front);
      offset := WriteBytes(buffer, offset, PutWord(bytes));
    }
    assert chunks[..|chunks|] == chunks;
  }

  method WriteDeltas(buffer: array<Byte>, start: nat, deltas: seq<int>) returns (offset: nat)
    requires start + DeltaBytes(deltas) <= buffer.Length
    modifies buffer
    ensures offset == start + |DeltasWire(deltas)| == start + DeltaBytes(deltas)
    ensures buffer[..offset] == old(buffer[..start]) + DeltasWire(deltas)
    ensures forall i :: offset <= i < buffer.Length ==> buffer[i] == old(buffer[i])
  {
    offset := start;
    ghost var front := buffer[..start];
    assert front + DeltasWire(deltas[..0]) == front;
    for k := 0 to |deltas|
      invariant offset == start + |DeltasWire(deltas[..k])| <= buffer.Length
      invariant buffer[..offset] == front + DeltasWire(deltas[..k])
      invariant forall i :: offset <= i < buffer.Length ==> buffer[i] == old(buffer[i])
    {
      DeltasWireTo(deltas, k, front);
      if 0 <= deltas[k] <= 255 {
        offset := WriteBytes(buffer, offset, [deltas[k]]);
      } else {
        offset := WriteBytes(buffer, offset, PutWord(Cut16(deltas[k])));
      }
    }
    assert deltas[..|deltas|] == deltas;
    DeltasWireSize(deltas);
  }

  method WriteZeros(buffer: array<Byte>, start: nat, padding: nat) returns (offset: nat)
    requires start + padding <= buffer.Length
    modifies buffer
    ensures offset == start + padding
    ensures buffer[..offset] == old(buffer[..start]) + Repeat(0, padding)
    ensures forall i :: offset <= i < buffer.Length ==> buffer[i] == old(buffer[i])
  {
    for k := 0 to padding
      invariant forall i :: 0 <= i < start ==> buffer[i] == old(buffer[i])
      invariant forall i :: start <= i < start + k ==> buffer[i] == 0
      invariant forall i :: start + k <= i < buffer.Length ==> buffer[i] == old(buffer[i])
    {
      buffer[start + k] := 0;
    }
    offset := start + padding;
  }

  lemma {:induction false} ChunkBytesAppend(cs: seq<Chunk>, c: Chunk)
    requires Encodable(c) && AllEncodable(cs)
    ensures ChunkBytes(cs + [c]) == ChunkBytes(cs) + PutWord(ChunkWord(c))
  {
    if cs == [] {
      assert cs + [c] == [c] && [c][1..] == [];
      assert ChunkBytes([c]) == PutWord(ChunkWord(c)) + ChunkBytes([]);
    } else {
      assert (cs + [c])[1..] == cs[1..] + [c];
      ChunkBytesAppend(cs[1..], c);
    }
  }

  lemma {:induction false} ChunkBytesSnoc(cs: seq<Chunk>, k: nat, front: seq<Byte>)
    requires k < |cs| && AllEncodable(cs)
    ensures front + ChunkBytes(cs[..k + 1]) == front + ChunkBytes(cs[..k]) + PutWord(ChunkWord(cs[k]))
  {
    assert cs[..k + 1] == cs[..k] + [cs[k]];
    ChunkBytesAppend(cs[..k], cs[k]);
  }

  lemma {:induction false} DeltasWireTo(ds: seq<int>, k: nat, front: seq<Byte>)
    requires k < |ds|
    ensures front + DeltasWire(ds[..k + 1]) == front + DeltasWire(ds[..k]) + DeltaWire(ds[k])
    ensures |DeltasWire(ds[..k + 1])| <= DeltaBytes(ds)
  {
    assert ds[..k + 1] == ds[..k] + [ds[k]];
    DeltasWireSnoc(ds[..k], ds[k]);
    DeltasWireSize(ds[..k + 1]);
    DeltaBytesMonotone(ds, k + 1);
  }

  lemma {:induction false} DeltaBytesMonotone(ds: seq<int>, k: nat)
    requires k <= |ds|
    ensures DeltaBytes(ds[..k]) <= DeltaBytes(ds)
    decreases |ds| - k
  {
    if k < |ds| {
      assert ds[..k + 1][..k] == ds[..k];
      DeltaBytesMonotone(ds, k + 1);
    } else {
      assert ds[..k] == ds;
    }
  }
}
