/** Packet::Parse: splitting a compound RTCP datagram into its packets. */
module CompoundPackets {
  import opened Bytes
  import opened Chunks
  import opened FeedbackEncoder
  import opened FeedbackWire
  import opened FeedbackRoundTrip
  import Runs = FeedbackRuns
  import opened FeedbackLimits
  import opened FeedbackPacket
  import opened GccServer
  import opened GccServerClass

  const COMMON_HEADER_SIZE: nat := 4
  const FEEDBACK_HEADER_SIZE: nat := 8

  /** Packet::IsRtcp. */
  predicate IsRtcp(data: seq<Byte>) {
    |data| >= COMMON_HEADER_SIZE && 127 < data[0] < 192 && data[0] / 64 == 2 && 192 <= data[1] <= 223
  }

  /** The length checks and the dispatch on packet type and message type, down to the parsing constructor. */
  function ParseOne(data: seq<Byte>): Option<Parsed>
    requires |data| >= COMMON_HEADER_SIZE && DeclaredSize(data) == |data|
  {
    if data[1] != PACKET_TYPE_RTPFB then None
    else if |data| < COMMON_HEADER_SIZE + FEEDBACK_HEADER_SIZE then None
    else if data[0] % 0x20 != MESSAGE_TYPE_TCC then None
    else if |data| < FIXED_SIZE then None
    else Decode(data)
  }

  /** Whether the bytes start with an RTCP packet that is there as a whole. */
  predicate StartsFrame(data: seq<Byte>) {
    IsRtcp(data) && DeclaredSize(data) <= |data|
  }

  lemma {:induction false} FrameDeclares(data: seq<Byte>)
    requires |data| >= COMMON_HEADER_SIZE && DeclaredSize(data) <= |data|
    ensures DeclaredSize(data) >= COMMON_HEADER_SIZE
    ensures DeclaredSize(data[..DeclaredSize(data)]) == DeclaredSize(data)
  {
  }

  /** The packets of a compound datagram, up to the first piece that is not a feedback packet. */
  function ParseCompound(data: seq<Byte>): seq<Parsed>
    decreases |data|
  {
    if data == [] || !StartsFrame(data) then []
    else
      FrameDeclares(data);
      var n := DeclaredSize(data);
      match ParseOne(data[..n])
      case None => []
      case Some(p) => [p] + ParseCompound(data[n..])
  }

  // ----- compound parsing is a homomorphism

  /** A byte string that is one acceptable packet, no more and no less. */
  predicate IsPiece(piece: seq<Byte>) {
    IsRtcp(piece) && DeclaredSize(piece) == |piece| && ParseOne(piece).Some?
  }

  /** In bytes: version 2 with message type 15, packet type 205, a length field that says how long it is, at least 20
      bytes, and contents the feedback parser accepts. */
  lemma {:induction false} PieceExactly(piece: seq<Byte>)
    ensures IsPiece(piece) <==>
            && |piece| >= 20 && piece[0] / 64 == 2 && piece[0] % 32 == 15 && piece[1] == 205
            && |piece| == 4 * (Joined(piece[2], piece[3]) + 1)
            && Decode(piece).Some?
    ensures IsPiece(piece) ==> Meaning(piece) == Decode(piece).value
  {
    hide Decode;
  }

  /** The packet a piece is on its own. */
  function Meaning(piece: seq<Byte>): Parsed
    requires IsPiece(piece)
  {
    ParseOne(piece).value
  }

  function Concat(pieces: seq<seq<Byte>>): seq<Byte> {
    if pieces == [] then [] else pieces[0] + Concat(pieces[1..])
  }

  lemma {:induction false} FirstPiece(piece: seq<Byte>, tail: seq<Byte>)
    requires IsPiece(piece)
    ensures ParseCompound(piece + tail) == [Meaning(piece)] + ParseCompound(tail)
  {
    hide Decode;
    var data := piece + tail;
    assert data[2] == piece[2] && data[3] == piece[3];
    assert data[..|piece|] == piece && data[|piece|..] == tail;
  }

  /** Parsing a concatenation of packets gives each packet's own parse, in order, and goes on with what follows. */
  lemma {:induction false} CompoundIsHomomorphic(pieces: seq<seq<Byte>>, tail: seq<Byte>)
    requires forall k :: 0 <= k < |pieces| ==> IsPiece(pieces[k])
    ensures var ps := ParseCompound(Concat(pieces) + tail);
            && |ps| == |pieces| + |ParseCompound(tail)|
            && (forall k :: 0 <= k < |pieces| ==> ps[k] == Meaning(pieces[k]))
            && ps[|pieces|..] == ParseCompound(tail)
  {
    hide IsPiece, Meaning, ParseCompound;
    if pieces == [] {
      assert Concat(pieces) + tail == tail;
    } else {
      var others := pieces[1..];
      CompoundIsHomomorphic(others, tail);
      FirstPiece(pieces[0], Concat(others) + tail);
      assert Concat(pieces) + tail == pieces[0] + (Concat(others) + tail);
    }
  }

  /** The pieces the parser cuts a datagram into. */
  function Pieces(data: seq<Byte>): (r: seq<seq<Byte>>)
    decreases |data|
  {
    if data == [] || !StartsFrame(data) then []
    else
      FrameDeclares(data);
      var n := DeclaredSize(data);
      if ParseOne(data[..n]).None? then [] else [data[..n]] + Pieces(data[n..])
  }

  /** Nothing at the front of these bytes is an acceptable packet. */
  predicate Stops(data: seq<Byte>) {
    data == [] || !StartsFrame(data) || (FrameDeclares(data); ParseOne(data[..DeclaredSize(data)]).None?)
  }

  /** What is left when the loop ends. */
  function Leftover(data: seq<Byte>): seq<Byte>
    decreases |data|
  {
    if Stops(data) then data
    else
      FrameDeclares(data);
      Leftover(data[DeclaredSize(data)..])
  }

  /** Any datagram at all is cut into acceptable packets and a rest no packet can be taken from;
      the result lists exactly those packets. */
  lemma {:induction false} CompoundSound(data: seq<Byte>)
    ensures data == Concat(Pieces(data)) + Leftover(data) && Stops(Leftover(data))
    ensures |ParseCompound(data)| == |Pieces(data)|
    ensures forall k :: 0 <= k < |Pieces(data)| ==>
              IsPiece(Pieces(data)[k]) && ParseCompound(data)[k] == Meaning(Pieces(data)[k])
    decreases |data|
  {
    hide Decode;
    if !Stops(data) {
      FrameDeclares(data);
      var n := DeclaredSize(data);
      CompoundSound(data[n..]);
      PieceOfFrame(data);
      hide Stops, ParseOne, IsPiece;
      assert Pieces(data) == [data[..n]] + Pieces(data[n..]);
      assert Pieces(data)[1..] == Pieces(data[n..]);
      assert data == data[..n] + data[n..];
      assert data == data[..n] + (Concat(Pieces(data[n..])) + Leftover(data[n..]));
    }
  }

  lemma {:induction false} PieceOfFrame(data: seq<Byte>)
    requires !Stops(data)
    ensures IsPiece(data[..DeclaredSize(data)])
  {
    hide Decode;
    FrameDeclares(data);
  }

  lemma {:induction false} FirstCut(piece: seq<Byte>, tail: seq<Byte>)
    requires IsPiece(piece)
    ensures Pieces(piece + tail) == [piece] + Pieces(tail) && Leftover(piece + tail) == Leftover(tail)
  {
    hide Decode;
    var data := piece + tail;
    assert data[2] == piece[2] && data[3] == piece[3];
    assert data[..|piece|] == piece && data[|piece|..] == tail;
  }

  /** And there is only one way to cut it: whatever acceptable packets come first are the ones found. */
  lemma {:induction false} PiecesUnique(pieces: seq<seq<Byte>>, rest: seq<Byte>)
    requires (forall k :: 0 <= k < |pieces| ==> IsPiece(pieces[k])) && Stops(rest)
    ensures Pieces(Concat(pieces) + rest) == pieces && Leftover(Concat(pieces) + rest) == rest
  {
    hide IsPiece, ParseOne;
    if pieces == [] {
      assert Concat(pieces) + rest == rest;
    } else {
      hide Pieces, Leftover, Stops;
      var others := pieces[1..];
      PiecesUnique(others, rest);
      FirstCut(pieces[0], Concat(others) + rest);
      assert Concat(pieces) + rest == pieces[0] + (Concat(others) + rest);
      assert pieces == [pieces[0]] + others;
    }
  }

  /** Parsing reads nothing beyond the lengths declared: bytes behind a whole but unacceptable packet do not matter. */
  lemma {:induction false} NothingReadBehind(pieces: seq<seq<Byte>>, bad: seq<Byte>, tail: seq<Byte>)
    requires forall k :: 0 <= k < |pieces| ==> IsPiece(pieces[k])
    requires IsRtcp(bad) && DeclaredSize(bad) == |bad| && ParseOne(bad).None?
    ensures |ParseCompound(Concat(pieces) + (bad + tail))| == |pieces|
    ensures forall k :: 0 <= k < |pieces| ==> ParseCompound(Concat(pieces) + (bad + tail))[k] == Meaning(pieces[k])
  {
    hide Decode;
    CompoundIsHomomorphic(pieces, bad + tail);
    var data := bad + tail;
    assert data[2] == bad[2] && data[3] == bad[3];
    assert data[..|bad|] == bad;
  }

  // ----- the loop

  /** FeedbackRtpPacket::Parse and FeedbackRtpTransportPacket::Parse on one packet; null where they return nullptr. */
  method ParsePacket(data: seq<Byte>) returns (packet: FeedbackRtpTransportPacket?)
    requires |data| >= COMMON_HEADER_SIZE && DeclaredSize(data) == |data|
    ensures packet != null <==> ParseOne(data).Some?
    ensures packet != null ==> fresh(packet) && packet.isCorrect && packet.Holds(ParseOne(data).value)
  {
    hide Decode, DeclaredSize;
    assert data[..|data|] == data;
    packet := null;
    if data[1] == PACKET_TYPE_RTPFB && |data| >= COMMON_HEADER_SIZE + FEEDBACK_HEADER_SIZE
       && data[0] % 0x20 == MESSAGE_TYPE_TCC && |data| >= FIXED_SIZE {
      var parsed := new FeedbackRtpTransportPacket.FromBytes(data);
      if parsed.isCorrect {
        packet := parsed;
      }
    }
  }

  /** Packet::Parse; the linked list it returns is a sequence here. */
  method Parse(data: seq<Byte>) returns (packets: seq<FeedbackRtpTransportPacket>)
    ensures |packets| == |ParseCompound(data)|
    ensures forall k :: 0 <= k < |packets| ==>
              fresh(packets[k]) && packets[k].isCorrect && packets[k].Holds(ParseCompound(data)[k])
  {
    hide ParseOne, DeclaredSize, IsRtcp;
    packets := [];
    var rest := data;
    while |rest| > 0
      invariant |ParseCompound(data)| == |packets| + |ParseCompound(rest)|
      invariant ParseCompound(data)[|packets|..] == ParseCompound(rest)
      invariant forall k :: 0 <= k < |packets| ==>
                  fresh(packets[k]) && packets[k].isCorrect && packets[k].Holds(ParseCompound(data)[k])
      decreases |rest|
    {
      if !IsRtcp(rest) {
        return;
      }
      RtcpHasHeader(rest);
      var packetLen := DeclaredSize(rest);
      if |rest| < packetLen {
        return;
      }
      FrameDeclares(rest);
      var current := ParsePacket(rest[..packetLen]);
      if current == null {
        return;
      }
      assert ParseCompound(data)[|packets|] == ParseCompound(rest)[0];
      rest := rest[packetLen..];
      packets := packets + [current];
    }
  }

  lemma {:induction false} RtcpHasHeader(data: seq<Byte>)
    requires IsRtcp(data)
    ensures |data| >= COMMON_HEADER_SIZE
  {
  }

  // ----- the server's datagrams as one compound

  lemma {:induction false} EncodedIsRtcp(h: Head, e: Encoder)
    requires AllEncodable(e.chunks) && |h.ssrcs| == 8
    ensures var data := Encode(h, e); IsRtcp(data) && data[1] == PACKET_TYPE_RTPFB && data[0] % 0x20 == MESSAGE_TYPE_TCC
  {
    hide ChunkBytes, DeltasWire, WireSize, Padding, Cut16, PutWord, ReferenceTimeBytes;
  }

  /** The history's gaps and status count fit the wire format, and its packet fits the datagram. */
  predicate Fits(h: Runs.History) {
    && Runs.GapsFit(h) && |Runs.LogOf(h)| < 0x1_0000
    && h.arrivals != [] && FinishedSize(h) <= UDP_PACKET_MAX_BYTES
  }

  lemma {:induction false} DatagramIsPiece(p: Runs.Packet, h: Runs.History, k: nat)
    requires DeliveredAs(p, h, k) && Fits(h) && |p.ssrcs| == 8
    ensures AllEncodable(Flush(p.encoder).chunks)
    ensures IsPiece(Runs.WireBytes(p)) && Framed(Runs.WireBytes(p))
    ensures Decode(Runs.WireBytes(p)) == Some(Meaning(Runs.WireBytes(p)))
    ensures DatagramOf(Runs.WireBytes(p)) == Intact(Runs.WireBytes(p))
  {
    hide Encode, Decode, Flush, FinishedSize, AllEncodable;
    EncodedIsRtcp(Runs.HeadOf(p), Flush(p.encoder));
  }

  predicate AllIntact(wire: seq<Datagram>) {
    forall k :: 0 <= k < |wire| ==> wire[k].Intact?
  }

  function BytesOf(wire: seq<Datagram>): (r: seq<seq<Byte>>)
    requires AllIntact(wire)
    ensures |r| == |wire|
  {
    seq(|wire|, k requires 0 <= k < |wire| => wire[k].bytes)
  }

  /** Laid end to end, the datagrams a server sent parse into exactly the packets it sent, in order, each
      delivering its own history, when the histories fit. */
  lemma {:induction false} DatagramsParseBack(wire: seq<Datagram>, sent: seq<Runs.Packet>, hs: seq<Runs.History>)
    requires OnWire(wire, sent, hs) && forall k :: 0 <= k < |sent| ==> |sent[k].ssrcs| == 8 && Fits(hs[k])
    ensures AllIntact(wire)
    ensures var ps := ParseCompound(Concat(BytesOf(wire)));
            && |ps| == |sent|
            && forall k :: 0 <= k < |sent| ==>
                 && ps[k].head.feedbackCount == k % 0x100
                 && ReceivedCount(ExpandAll(ps[k].chunks)) <= |ps[k].deltas|
                 && Numbered(PacketResults(ps[k]), NextSeq(hs[k].start))
                 && Runs.Heard(PacketResults(ps[k])) == Runs.Expected(hs[k])
  {
    hide Runs.WireBytes, Decode, ParseCompound, Concat, IsPiece, Meaning, DeliveredAs, PacketResults, Fits, DatagramOf;
    forall k | 0 <= k < |sent|
      ensures wire[k].Intact? && IsPiece(wire[k].bytes) && Framed(wire[k].bytes)
      ensures Decode(wire[k].bytes) == Some(Meaning(wire[k].bytes))
    {
      DatagramIsPiece(sent[k], hs[k], k);
    }
    var pieces := BytesOf(wire);
    CompoundIsHomomorphic(pieces, []);
    assert Concat(pieces) + [] == Concat(pieces);
    NothingToParse();
    forall k | 0 <= k < |sent| ensures
        var p := ParseCompound(Concat(pieces))[k];
        && p.head.feedbackCount == k % 0x100
        && ReceivedCount(ExpandAll(p.chunks)) <= |p.deltas|
        && Numbered(PacketResults(p), NextSeq(hs[k].start))
        && Runs.Heard(PacketResults(p)) == Runs.Expected(hs[k]) {
      DeliveredFields(sent[k], hs[k], k);
      DatagramIsPiece(sent[k], hs[k], k);
      assert pieces[k] == Runs.WireBytes(sent[k]);
    }
  }

  lemma {:induction false} NothingToParse()
    ensures ParseCompound([]) == []
  {
  }

  lemma {:induction false} DeliveredFields(p: Runs.Packet, h: Runs.History, k: nat)
    requires DeliveredAs(p, h, k) && Fits(h)
    ensures var d := Decode(Runs.WireBytes(p));
            && d.Some? && d.value.head.feedbackCount == k % 0x100
            && ReceivedCount(ExpandAll(d.value.chunks)) <= |d.value.deltas|
            && Numbered(PacketResults(d.value), NextSeq(h.start))
            && Runs.Heard(PacketResults(d.value)) == Runs.Expected(h)
  {
    hide Runs.WireBytes, Decode, PacketResults, ExpandAll, Runs.GapsFit, Runs.LogOf, Runs.Heard, Runs.Expected, Flush,
      Encode, Numbered, FinishedSize, AllEncodable;
  }
}
