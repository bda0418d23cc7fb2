/** The byte format of a transport feedback packet
    (draft-holmer-rmcat-transport-wide-cc-extensions-01, section 3.1): serialisation, parsing, round trip. */
module FeedbackWire {
  import opened Bytes
  import opened Chunks
  import opened FeedbackEncoder

  const FIXED_SIZE: nat := 20       // common header 4, SSRCs 8, fixed feedback header 8
  const PACKET_TYPE_RTPFB: Byte := 205
  const MESSAGE_TYPE_TCC: Byte := 15
  const MAX_WIRE_SIZE: nat := 0x4_0000  // what a 16-bit length field can declare

  /** The fixed fields of a packet. */
  datatype Head = Head(ssrcs: seq<Byte>, base: Word, referenceTime: int, feedbackCount: Byte)

  predicate HeadOk(h: Head) {
    |h.ssrcs| == 8 && 0 <= h.referenceTime < 0x80_0000
  }

  // ----- serialisation

  function ChunkBytes(cs: seq<Chunk>): (r: seq<Byte>)
    requires AllEncodable(cs)
    ensures |r| == 2 * |cs|
  {
    if cs == [] then [] else PutWord(ChunkWord(cs[0])) + ChunkBytes(cs[1..])
  }

  function DeltaWire(d: int): (r: seq<Byte>)
    ensures |r| == DeltaSize(d)
  {
    if 0 <= d <= 255 then [d] else PutWord(Cut16(d))
  }

  function DeltasWire(ds: seq<int>): seq<Byte> {
    if ds == [] then [] else DeltaWire(ds[0]) + DeltasWire(ds[1..])
  }

  function ReferenceTimeBytes(t: int): (r: seq<Byte>)
    ensures |r| == 3
  {
    [(t / 0x1_0000) % 0x100, (t / 0x100) % 0x100, t % 0x100]
  }

  /** GetSize of a locally generated packet. */
  function WireSize(e: Encoder): nat {
    FIXED_SIZE + e.wireSize + Padding(FIXED_SIZE + e.wireSize)
  }

  function HeaderBytes(size: nat, h: Head, statusCount: Word): seq<Byte> {
    [0x80 + MESSAGE_TYPE_TCC, PACKET_TYPE_RTPFB] + PutWord(Cut16(size / 4 - 1))
    + h.ssrcs
    + PutWord(h.base) + PutWord(statusCount) + ReferenceTimeBytes(h.referenceTime) + [h.feedbackCount]
  }

  /** Serialize, for an encoder that has been flushed; `size` goes into the length field. */
  function EncodeAs(size: nat, h: Head, e: Encoder): seq<Byte>
    requires AllEncodable(e.chunks)
  {
    HeaderBytes(size, h, e.statusCount) + ChunkBytes(e.chunks) + DeltasWire(e.deltas)
    + Repeat(0, Padding(FIXED_SIZE + e.wireSize))
  }

  /** Serialize, for a locally generated packet. */
  function Encode(h: Head, e: Encoder): seq<Byte>
    requires AllEncodable(e.chunks)
  {
    EncodeAs(WireSize(e), h, e)
  }

  // ----- parsing

  datatype Parsed = Parsed(
    head: Head,
    statusCount: Word,
    chunks: seq<Chunk>,
    deltas: seq<int>,
    wireSize: nat,
    size: nat)

  /** The size a common header declares. */
  function DeclaredSize(data: seq<Byte>): nat
    requires |data| >= 4
  {
    (WordAt(data, 2) + 1) * 4
  }

  /** parseReferenceTime: a signed 24-bit number. */
  function ReferenceTimeAt(data: seq<Byte>, i: nat): int
    requires i + 2 < |data|
  {
    var high: int := data[i];
    var unsignedValue := 0x1_0000 * high + WordAt(data, i + 1);
    if high >= 0x80 then unsignedValue - 0x100_0000 else unsignedValue
  }

  /** The chunk loop: reads chunks until `statusCount` statuses are covered, counting in 16 bits. */
  function ParseChunks(content: seq<Byte>, statusCount: Word, count: Word): Option<(seq<Chunk>, seq<Byte>)> {
    if count < statusCount && |content| > 0 then
      if |content| < 2 then None
      else
        match ParseChunk(WordAt(content, 0), statusCount - count)
        case None => None
        case Some(c) =>
          match ParseChunks(content[2..], statusCount, Cut16(count + |Expand(c)|))
          case None => None
          case Some((cs, rest)) => Some(([c] + cs, rest))
    else if count == statusCount then Some(([], content))
    else None
  }

  /** Reads the delta each received status announces. */
  function ReadDeltas(ss: seq<Status>, data: seq<Byte>): (r: Option<(seq<int>, seq<Byte>)>)
    ensures r.Some? ==> |r.value.1| <= |data|
  {
    if ss == [] then Some(([], data))
    else if ss[0] == SmallDelta then
      if |data| < 1 then None
      else
        match ReadDeltas(ss[1..], data[1..])
        case None => None
        case Some((ds, rest)) => Some(([data[0] as int] + ds, rest))
    else if ss[0] == LargeDelta then
      if |data| < 2 then None
      else
        match ReadDeltas(ss[1..], data[2..])
        case None => None
        case Some((ds, rest)) => Some(([SignedWord(WordAt(data, 0))] + ds, rest))
    else ReadDeltas(ss[1..], data)
  }

  /** The delta loop: chunk by chunk, stopping early when the bytes run out. */
  function ReadChunkDeltas(cs: seq<Chunk>, data: seq<Byte>): (r: Option<(seq<int>, seq<Byte>)>)
    ensures r.Some? ==> |r.value.1| <= |data|
  {
    if cs == [] || data == [] then Some(([], data))
    else
      match ReadDeltas(Expand(cs[0]), data)
      case None => None
      case Some((ds, rest)) =>
        match ReadChunkDeltas(cs[1..], rest)
        case None => None
        case Some((more, last)) => Some((ds + more, last))
  }

  /** Packet::Parse hands the parser exactly the bytes the header declares, at least FIXED_SIZE of them. */
  predicate Framed(data: seq<Byte>) {
    |data| >= FIXED_SIZE && DeclaredSize(data) == |data|
  }

  function HeadAt(data: seq<Byte>): Head
    requires |data| >= FIXED_SIZE
  {
    Head(data[4..12], WordAt(data, 12), ReferenceTimeAt(data, 16), data[19])
  }

  /** The deltas must account for every received status; the parser counts those in 16 bits. */
  function Assemble(head: Head, statusCount: Word, size: nat, cs: seq<Chunk>, deltaBytes: seq<Byte>): Option<Parsed> {
    match ReadChunkDeltas(cs, deltaBytes)
    case None => None
    case Some((ds, rest)) =>
      if |ds| != Cut16(ReceivedCount(ExpandAll(cs))) then None
      else Some(Parsed(head, statusCount, cs, ds, 2 * |cs| + (|deltaBytes| - |rest|), size))
  }

  /** FeedbackRtpTransportPacket::Parse. */
  function Decode(data: seq<Byte>): Option<Parsed>
    requires Framed(data)
  {
    match ParseChunks(data[FIXED_SIZE..], WordAt(data, 14), 0)
    case None => None
    case Some((cs, deltaBytes)) => Assemble(HeadAt(data), WordAt(data, 14), |data|, cs, deltaBytes)
  }

  // ----- round trip

  lemma {:induction false} DeltasWireSnoc(ds: seq<int>, d: int)
    ensures DeltasWire(ds + [d]) == DeltasWire(ds) + DeltaWire(d)
  {
    if ds == [] {
      assert ds + [d] == [d];
      assert DeltasWire([d]) == DeltaWire(d) + DeltasWire([]);
    } else {
      assert (ds + [d])[1..] == ds[1..] + [d];
      DeltasWireSnoc(ds[1..], d);
    }
  }

  lemma {:induction false} DeltasWireSize(ds: seq<int>)
    ensures |DeltasWire(ds)| == DeltaBytes(ds)
  {
    if ds != [] {
      var init := ds[..|ds| - 1];
      DeltasWireSize(init);
      assert ds == init + [ds[|ds| - 1]];
      DeltasWireSnoc(init, ds[|ds| - 1]);
    }
  }

  lemma {:induction false} ChunkBytesCons(c: Chunk, cs: seq<Chunk>, tail: seq<Byte>)
    requires Encodable(c) && AllEncodable(cs)
    ensures ChunkBytes([c] + cs) + tail == PutWord(ChunkWord(c)) + (ChunkBytes(cs) + tail)
  {
    assert ([c] + cs)[1..] == cs;
  }

  /** A full or closing chunk leaves room for itself, whatever follows. */
  lemma {:induction false} ClosedHead(cs: seq<Chunk>, remaining: nat)
    requires Closed(cs) && cs != [] && remaining == |ExpandAll(cs)|
    ensures FillsSlots(cs[0], remaining) && 0 < |Expand(cs[0])| <= remaining && Closed(cs[1..])
    ensures remaining == |Expand(cs[0])| + |ExpandAll(cs[1..])|
    ensures Encodable(cs[0]) && AllEncodable(cs)
    ensures RunsFit(cs) ==> RunsFit(cs[1..]) && (cs[0].RunLength? ==> cs[0].count <= MAX_RUN)
  {
    if |cs| == 1 { assert ExpandAll(cs[1..]) == []; } else { assert FullChunk(cs[0]); }
  }

  /** What one turn of the chunk loop returns once it has read chunk `c`. */
  lemma {:induction false} ParseChunksTurn(
      w: Word, c: Chunk, content: seq<Byte>, statusCount: Word, count: Word, next: Word)
    requires count < statusCount && ParseChunk(w, statusCount - count) == Some(c)
    requires next == Cut16(count + |Expand(c)|)
    ensures var all := ParseChunks(PutWord(w) + content, statusCount, count);
            var more := ParseChunks(content, statusCount, next);
            && (all.Some? <==> more.Some?)
            && (all.Some? ==> all.value.0 == [c] + more.value.0 && all.value.1 == more.value.1)
  {
    var data := PutWord(w) + content;
    assert WordAt(data, 0) == w;
    assert data[2..] == content;
  }

  lemma {:induction false} ParseChunksEnd(tail: seq<Byte>, statusCount: Word)
    ensures var read := ParseChunks(ChunkBytes([]) + tail, statusCount, statusCount);
            read.Some? && read.value.0 == [] && read.value.1 == tail
  {
    assert ChunkBytes([]) + tail == tail;
  }

  /** A closed list of chunks whose runs fit 13 bits is read back from its words, and nothing more is read. */
  lemma {:induction false} ParseChunksOfBytes(cs: seq<Chunk>, tail: seq<Byte>, statusCount: Word, count: Word)
    requires Closed(cs) && RunsFit(cs)
    requires count + |ExpandAll(cs)| == statusCount
    ensures var read := ParseChunks(ChunkBytes(cs) + tail, statusCount, count);
            read.Some? && read.value.0 == cs && read.value.1 == tail
  {
    hide ParseChunks, ParseChunk, ChunkWord, PutWord, ChunkBytes, Closed, RunsFit, Encodable;
    if cs == [] {
      ParseChunksEnd(tail, statusCount);
    } else {
      var c, rest := cs[0], cs[1..];
      assert cs == [c] + rest;
      ClosedHead(cs, statusCount - count);
      var next := count + |Expand(c)|;
      NoWrap(next);
      ParseChunksOfBytes(rest, tail, statusCount, next);
      ChunkRoundTrip(c, statusCount - count);
      ChunkBytesCons(c, rest, tail);
      ParseChunksTurn(ChunkWord(c), c, ChunkBytes(rest) + tail, statusCount, count, next);
      var all := ParseChunks(PutWord(ChunkWord(c)) + (ChunkBytes(rest) + tail), statusCount, count);
      var more := ParseChunks(ChunkBytes(rest) + tail, statusCount, next);
      assert more.value.0 == rest;
      assert more.value.1 == tail;
      assert all.Some?;
      assert all.value.0 == [c] + rest;
      assert all.value.1 == tail;
      assert ParseChunks(ChunkBytes(cs) + tail, statusCount, count) == all;
    }
  }

  // ----- the delta section

  lemma {:induction false} ConsAppend(x: int, r: Option<(seq<int>, seq<Byte>)>, b: seq<Status>)
    requires r.Some? && ReadDeltas(b, r.value.1).Some?
    ensures ([x] + r.value.0) + ReadDeltas(b, r.value.1).value.0 == [x] + (r.value.0 + ReadDeltas(b, r.value.1).value.0)
  {
  }

  /** Reading statuses one after the other is reading the first list, then the second. */
  lemma {:induction false} ReadDeltasAppend(a: seq<Status>, b: seq<Status>, data: seq<Byte>)
    ensures var r := ReadDeltas(a + b, data);
            match ReadDeltas(a, data)
            case None => r == None
            case Some((d1, r1)) =>
              match ReadDeltas(b, r1)
              case None => r == None
              case Some((d2, r2)) => r == Some((d1 + d2, r2))
  {
    if a == [] {
      assert a + b == b;
      match ReadDeltas(b, data)
      case None =>
      case Some((d2, r2)) => assert [] + d2 == d2;
    } else {
      assert (a + b)[1..] == a[1..] + b;
      if a[0] == SmallDelta {
        if |data| >= 1 {
          ReadDeltasAppend(a[1..], b, data[1..]);
          var r := ReadDeltas(a[1..], data[1..]);
          if r.Some? && ReadDeltas(b, r.value.1).Some? { ConsAppend(data[0], r, b); }
        }
      } else if a[0] == LargeDelta {
        if |data| >= 2 {
          ReadDeltasAppend(a[1..], b, data[2..]);
          var r := ReadDeltas(a[1..], data[2..]);
          if r.Some? && ReadDeltas(b, r.value.1).Some? { ConsAppend(SignedWord(WordAt(data, 0)), r, b); }
        }
      } else {
        ReadDeltasAppend(a[1..], b, data);
      }
    }
  }

  lemma {:induction false} ReadDeltasCount(ss: seq<Status>, data: seq<Byte>)
    ensures match ReadDeltas(ss, data)
            case None => true
            case Some((ds, rest)) => |ds| == ReceivedCount(ss) && (data == [] ==> ds == [] && rest == [])
  {
    if ss != [] {
      ReceivedCountAppend([ss[0]], ss[1..]);
      assert [ss[0]] + ss[1..] == ss;
      if ss[0] == SmallDelta {
        if |data| >= 1 { ReadDeltasCount(ss[1..], data[1..]); }
      } else if ss[0] == LargeDelta {
        if |data| >= 2 { ReadDeltasCount(ss[1..], data[2..]); }
      } else {
        ReadDeltasCount(ss[1..], data);
      }
    }
  }

  /** The chunk-by-chunk loop reads as many deltas as there are received statuses exactly when
      reading the expanded statuses one by one succeeds, and then both read the same. */
  lemma {:induction false} ReadChunkDeltasFlat(cs: seq<Chunk>, data: seq<Byte>, ds: seq<int>, rest: seq<Byte>)
    ensures ReadDeltas(ExpandAll(cs), data) == Some((ds, rest))
       <==> ReadChunkDeltas(cs, data) == Some((ds, rest)) && |ds| == ReceivedCount(ExpandAll(cs))
    ensures match ReadChunkDeltas(cs, data)
            case None => true
            case Some((d, r)) => |d| <= ReceivedCount(ExpandAll(cs))
  {
    ReadDeltasCount(ExpandAll(cs), data);
    if cs != [] && data == [] {
      ReadDeltasAllOrNothing(ExpandAll(cs));
    } else if cs != [] {
      var first, others := Expand(cs[0]), ExpandAll(cs[1..]);
      ReadDeltasAppend(first, others, data);
      ReadDeltasCount(first, data);
      ReceivedCountAppend(first, others);
      match ReadDeltas(first, data)
      case None =>
      case Some((d1, r1)) =>
        if |d1| <= |ds| {
          ReadChunkDeltasFlat(cs[1..], r1, ds[|d1|..], rest);
        }
        match ReadChunkDeltas(cs[1..], r1)
        case None =>
          match ReadDeltas(others, r1) {
            case None =>
            case Some((d2, r2)) => ReadChunkDeltasFlat(cs[1..], r1, d2, r2);
          }
        case Some((d2, r2)) =>
          ReadChunkDeltasFlat(cs[1..], r1, d2, r2);
    }
  }

  lemma {:induction false} ReadDeltasAllOrNothing(ss: seq<Status>)
    ensures ReadDeltas(ss, []) == (if ReceivedCount(ss) == 0 then Some(([], [])) else None)
  {
    if ss != [] {
      ReceivedCountAppend([ss[0]], ss[1..]);
      assert [ss[0]] + ss[1..] == ss;
      ReadDeltasAllOrNothing(ss[1..]);
    }
  }

  /** Reading deltas uses at least the bytes they would be written in. */
  lemma {:induction false} ReadDeltasUse(ss: seq<Status>, data: seq<Byte>)
    ensures var r := ReadDeltas(ss, data); r.Some? ==> |r.value.1| + DeltaBytes(r.value.0) <= |data|
  {
    if ss != [] {
      if ss[0] == SmallDelta {
        if |data| >= 1 {
          ReadDeltasUse(ss[1..], data[1..]);
          UseOne(data[0], ReadDeltas(ss[1..], data[1..]));
        }
      } else if ss[0] == LargeDelta {
        if |data| >= 2 {
          ReadDeltasUse(ss[1..], data[2..]);
          UseOne(SignedWord(WordAt(data, 0)), ReadDeltas(ss[1..], data[2..]));
        }
      } else {
        ReadDeltasUse(ss[1..], data);
      }
    }
  }

  lemma {:induction false} UseOne(d: int, r: Option<(seq<int>, seq<Byte>)>)
    ensures r.Some? ==> DeltaBytes([d] + r.value.0) == DeltaSize(d) + DeltaBytes(r.value.0)
  {
    if r.Some? {
      DeltaBytesAppend([d], r.value.0);
      assert [d][..0] == [];
    }
  }

  lemma {:induction false} ReadChunkDeltasUse(cs: seq<Chunk>, data: seq<Byte>)
    ensures var r := ReadChunkDeltas(cs, data); r.Some? ==> |r.value.1| + DeltaBytes(r.value.0) <= |data|
  {
    if cs != [] && data != [] {
      ReadDeltasUse(Expand(cs[0]), data);
      match ReadDeltas(Expand(cs[0]), data)
      case None =>
      case Some((ds, rest)) =>
        ReadChunkDeltasUse(cs[1..], rest);
        var more := ReadChunkDeltas(cs[1..], rest);
        if more.Some? {
          DeltaBytesAppend(ds, more.value.0);
        }
    }
  }

  predicate DeltasInRange(ds: seq<int>) {
    forall i :: 0 <= i < |ds| ==> -0x8000 <= ds[i] < 0x8000
  }

  lemma {:induction false} ReadOneDelta(x: Entry, tail: seq<Byte>)
    requires x.Arrived? ==> -0x8000 <= x.delta < 0x8000
    ensures x.Missing? ==> ReadDeltas([StatusOfEntry(x)], tail) == Some(([], tail))
    ensures x.Arrived? ==> ReadDeltas([StatusOfEntry(x)], DeltaWire(x.delta) + tail) == Some(([x.delta], tail))
  {
    match x
    case Missing =>
    case Arrived(d) =>
      var data := DeltaWire(d) + tail;
      var ss := [StatusOfEntry(x)];
      assert ss[1..] == [] && [d] + [] == [d];
      if 0 <= d <= 255 {
        assert data[1..] == tail;
      } else {
        assert data[2..] == tail;
        assert SignedWord(WordAt(data, 0)) == d;
      }
  }

  /** The deltas of a log, written and read back against its statuses, are the same deltas. */
  lemma {:induction false} ReadDeltasOfLog(log: seq<Entry>, tail: seq<Byte>)
    requires DeltasInRange(DeltasOf(log))
    ensures ReadDeltas(StatusesOf(log), DeltasWire(DeltasOf(log)) + tail) == Some((DeltasOf(log), tail))
  {
    if log == [] {
      assert DeltasWire([]) + tail == tail;
    } else {
      var init, x := log[..|log| - 1], log[|log| - 1];
      var ds := DeltasOf(init);
      assert StatusesOf(log) == StatusesOf(init) + [StatusOfEntry(x)];
      match x
      case Missing =>
        assert DeltasOf(log) == ds;
        ReadDeltasOfLog(init, tail);
        ReadOneDelta(x, tail);
        ReadDeltasAppend(StatusesOf(init), [StatusOfEntry(x)], DeltasWire(ds) + tail);
      case Arrived(d) =>
        assert DeltasOf(log) == ds + [d];
        assert DeltasOf(log)[|ds|] == d;
        assert DeltasInRange(ds) by { assert forall i :: 0 <= i < |ds| ==> DeltasOf(log)[i] == ds[i]; }
        DeltasWireSnoc(ds, d);
        assert DeltasWire(ds + [d]) + tail == DeltasWire(ds) + (DeltaWire(d) + tail);
        ReadDeltasOfLog(init, DeltaWire(d) + tail);
        ReadOneDelta(x, tail);
        ReadDeltasAppend(StatusesOf(init), [StatusOfEntry(x)], DeltasWire(ds) + (DeltaWire(d) + tail));
    }
  }
}
