/** GCCServer: the handlers with the fields they update, proved against the state machine of GccServer. */
module GccServerClass {
  import opened Bytes
  import opened SeqOrder
  import opened Chunks
  import opened FeedbackEncoder
  import opened FeedbackWire
  import Runs = FeedbackRuns
  import opened FeedbackLimits
  import opened FeedbackPacket
  import opened GccServer

  /** What the socket is given: the bytes of a packet, or a datagram whose packet was longer than its buffer. The copy
      writes behind the buffer then, and nothing is said about what is sent. */
  datatype Datagram = Intact(bytes: seq<Byte>) | Overrun(size: nat)

  function DatagramOf(bytes: seq<Byte>): Datagram {
    if |bytes| <= UDP_PACKET_MAX_BYTES then Intact(bytes) else Overrun(|bytes|)
  }

  /** The k-th datagram holds the k-th packet, serialised, and the packet delivers the k-th history. */
  predicate OnWire(wire: seq<Datagram>, sent: seq<Runs.Packet>, hs: seq<Runs.History>) {
    && |wire| == |sent| == |hs|
    && forall k :: 0 <= k < |sent| ==> DeliveredAs(sent[k], hs[k], k) && wire[k] == DatagramOf(Runs.WireBytes(sent[k]))
  }

  lemma {:induction false} OnWireSnoc(
      wire: seq<Datagram>, sent: seq<Runs.Packet>, hs: seq<Runs.History>, d: Datagram, p: Runs.Packet, h: Runs.History)
    requires OnWire(wire, sent, hs) && DeliveredAs(p, h, |sent|) && d == DatagramOf(Runs.WireBytes(p))
    ensures OnWire(wire + [d], sent + [p], hs + [h])
  {
    hide DeliveredAs;
  }

  /** A datagram is intact exactly when the size its packet's last step made fits the buffer. */
  lemma {:induction false} IntactIff(wire: seq<Datagram>, sent: seq<Runs.Packet>, hs: seq<Runs.History>, k: nat)
    requires OnWire(wire, sent, hs) && k < |sent|
    ensures hs[k].arrivals != []
    ensures wire[k].Intact? <==> FinishedSize(hs[k]) <= UDP_PACKET_MAX_BYTES
  {
    hide FinishedSize;
  }

  class GCCServer {
    var transportCcFeedbackPacket: FeedbackRtpTransportPacket
    var transportCcFeedbackPacketCount: Byte
    var ssrcs: seq<Byte>
    /** The datagrams handed to the socket. */
    var wire: seq<Datagram>
    ghost var sent: seq<Runs.Packet>
    ghost var trace: Trace

    ghost function State(): Server
      reads this, transportCcFeedbackPacket
    {
      Server(transportCcFeedbackPacket.State(), transportCcFeedbackPacketCount, sent)
    }

    ghost predicate WireOk(t: Trace)
      reads this
    {
      OnWire(wire, sent, AllSent(t))
    }

    ghost predicate Valid()
      reads this, transportCcFeedbackPacket
    {
      && transportCcFeedbackPacket.size == 0 && transportCcFeedbackPacket.ssrcs == ssrcs
      && Good(State(), trace) && WireOk(trace)
    }

    constructor (ssrcs: seq<Byte>)
      requires |ssrcs| == 8
      ensures Valid() && fresh(transportCcFeedbackPacket)
      ensures State() == Start(ssrcs) && wire == [] && trace == Trace([], NEW_EPOCH)
    {
      transportCcFeedbackPacket := new FeedbackRtpTransportPacket(ssrcs);
      transportCcFeedbackPacketCount := 0;
      this.ssrcs := ssrcs;
      wire, sent := [], [];
      trace := Trace([], NEW_EPOCH);
      new;
      StartGood(ssrcs);
    }

    method SendTransportCcFeedback(ghost t: Trace)
      requires transportCcFeedbackPacket.size == 0 && transportCcFeedbackPacket.ssrcs == ssrcs
      requires Good(State(), t) && WireOk(t)
      modifies this, transportCcFeedbackPacket
      ensures transportCcFeedbackPacket == old(transportCcFeedbackPacket) || fresh(transportCcFeedbackPacket)
      ensures transportCcFeedbackPacket.size == 0 && transportCcFeedbackPacket.ssrcs == ssrcs == old(ssrcs)
      ensures State() == Send(old(State()))
      ensures var u := t.(current := TraceSend(old(State()), t.current));
              Good(State(), u) && WireOk(u) && trace == old(trace)
    {
      hide Good, AllSent, DeliveredAs, Successor, NextCount, TraceSend, OnWire, SentOk;
      ghost var s := State();
      SendKeeps(s, t);
      if !transportCcFeedbackPacket.IsSerializable() {
        NothingSent(s, t);
        return;
      }
      WireGrows(s, t);
      var latestWideSeqNumber := transportCcFeedbackPacket.latestSequenceNumber;
      var latestTimestamp := transportCcFeedbackPacket.latestTimestamp;
      var datagram := BuildPacket(transportCcFeedbackPacket, t.current.open.value, |sent|);
      OnWireSnoc(wire, sent, AllSent(t), datagram, s.open, t.current.open.value);
      wire := wire + [datagram];
      sent := sent + [s.open];
      // Create a new feedback packet and increment the packet count.
      var count := NextCount(transportCcFeedbackPacketCount);
      transportCcFeedbackPacket := NextPacket(s.open, ssrcs, count, latestWideSeqNumber, latestTimestamp);
      transportCcFeedbackPacketCount := count;
    }

    /** rtp_handler, from the sequence number and the clock on. */
    method RtpHandler(x: Runs.Event)
      requires Valid() && ClockOk(x)
      modifies this, transportCcFeedbackPacket
      ensures transportCcFeedbackPacket == old(transportCcFeedbackPacket) || fresh(transportCcFeedbackPacket)
      ensures Valid() && ssrcs == old(ssrcs)
      ensures State() == Handle(old(State()), x)
      ensures trace == TraceStep(old(State()), old(trace), x)
    {
      hide Good, OnWire, Send, Handle, Added, TraceStep, TraceSend, TraceRecord, AllSent, Runs.AddPacket,
        Runs.AddOutcome, Runs.Record, Runs.SetBase;
      ghost var s, t := State(), trace;
      StepKeeps(s, t, x);
      SameSsrcs(transportCcFeedbackPacket.State(), x);
      var result := transportCcFeedbackPacket.AddPacket(x.sequenceNumber, x.now, MTU);
      match result {
        case Success =>
          SuccessStep(s, t, x);
          // If the feedback packet is full, send it now.
          if transportCcFeedbackPacket.IsFull() {
            SendTransportCcFeedback(Added(s, t, x));
          }
        case MaxSizeExceeded =>
          OversizedStep(s, t, x);
          // Send ongoing feedback packet and add the new packet info to the regenerated one.
          SendTransportCcFeedback(t);
          SameSsrcs(transportCcFeedbackPacket.State(), x);
          var _ := transportCcFeedbackPacket.AddPacket(x.sequenceNumber, x.now, MTU);
        case Fatal =>
          FatalStep(s, t, x);
          // Create a new feedback packet; the count is not incremented, the previous one was not sent.
          transportCcFeedbackPacket := new FeedbackRtpTransportPacket(ssrcs);
          transportCcFeedbackPacket.SetFeedbackPacketCount(transportCcFeedbackPacketCount);
      }
      trace := TraceStep(s, t, x);
    }
  }

  const BUFFER_SIZE: nat := 0x1_0000

  /** BuildClsRTCPPacket: the packet is serialised into the large buffer and copied from there into the datagram's. */
  method BuildPacket(packet: FeedbackRtpTransportPacket, ghost h: Runs.History, ghost k: nat)
    returns (datagram: Datagram)
    requires packet.size == 0 && SentOk(packet.State(), h, k)
    modifies packet
    ensures DeliveredAs(old(packet.State()), h, k)
    ensures datagram == DatagramOf(Runs.WireBytes(old(packet.State())))
    ensures packet.ssrcs == old(packet.ssrcs)
    ensures packet.latestSequenceNumber == old(packet.latestSequenceNumber)
    ensures packet.latestTimestamp == old(packet.latestTimestamp)
  {
    hide SentOk, EncodeAs, Flush, Runs.Delivers, WireSize, FinishedSize;
    ghost var p := packet.State();
    SentDelivers(p, h, k);
    ReadyToSend(p, h, k);
    var buffer := new Byte[BUFFER_SIZE];
    var len := packet.Serialize(buffer);
    assert packet.State() == p.(encoder := Flush(p.encoder));
    datagram := CopyOut(buffer, len);
  }

  /** memcpy into the buffer of a new datagram, as far as that has room. */
  method CopyOut(buffer: array<Byte>, len: nat) returns (datagram: Datagram)
    requires len <= buffer.Length
    ensures datagram == DatagramOf(buffer[..len])
  {
    if len > UDP_PACKET_MAX_BYTES {
      return Overrun(len);
    }
    var packet := new Byte[UDP_PACKET_MAX_BYTES](_ => 0);
    for i := 0 to len
      invariant packet[..i] == buffer[..i]
    {
      packet[i] := buffer[i];
    }
    return Intact(packet[..len]);
  }

  /** The packet that follows: the latest packet info (if any) is passed on as its pre base. */
  method NextPacket(ghost p: Runs.Packet, ssrcs: seq<Byte>, count: Byte, latestSeq: Word, latestTimestamp: Runs.Quad)
    returns (next: FeedbackRtpTransportPacket)
    requires p.ssrcs == ssrcs && p.latestSequenceNumber == latestSeq && p.latestTimestamp == latestTimestamp
    ensures fresh(next) && next.size == 0 && next.ssrcs == ssrcs
    ensures next.State() == Successor(p, count)
  {
    hide Runs.AddPacket;
    next := new FeedbackRtpTransportPacket(ssrcs);
    next.SetFeedbackPacketCount(count);
    if latestTimestamp > 0 {
      SameSsrcs(next.State(), Runs.Event(latestSeq, latestTimestamp));
      var _ := next.AddPacket(latestSeq, latestTimestamp, MTU);
    }
  }

  lemma {:induction false} NothingSent(s: Server, t: Trace)
    requires !IsSerializable(s.open)
    ensures Send(s) == s && t.(current := TraceSend(s, t.current)) == t
  {
  }

  lemma {:induction false} WireGrows(s: Server, t: Trace)
    requires Good(s, t) && IsSerializable(s.open)
    ensures t.current.open.Some? && SentOk(s.open, t.current.open.value, |s.sent|)
    ensures AllSent(t.(current := TraceSend(s, t.current))) == AllSent(t) + [t.current.open.value]
    ensures Send(s) == Server(Successor(s.open, NextCount(s.packetCount)), NextCount(s.packetCount), s.sent + [s.open])
  {
    SendOpens(s, t);
  }

  /** What Serialize needs of a packet in order. */
  lemma {:induction false} ReadyToSend(p: Runs.Packet, h: Runs.History, k: nat)
    requires SentOk(p, h, k)
    ensures |p.ssrcs| == 8 && AllEncodable(Flush(p.encoder).chunks)
    ensures Accounted(Flush(p.encoder)) && WireSize(Flush(p.encoder)) <= MTU + 8
  {
    hide Accounted, AllEncodable, Flush, WireSize, Runs.LogOf, Runs.EncoderOf, Runs.PendingFits;
    Runs.ReadyToSerialize(p, h);
  }

  /** The trace once AddPacket has succeeded and before a full packet is sent. */
  ghost function Added(s: Server, t: Trace, x: Runs.Event): Trace {
    match Runs.AddOutcome(s.open, x.sequenceNumber, x.now, MTU)
    case SetsBase => t.(current := t.current.(open := Some(Runs.History(x.sequenceNumber, x.now, []))))
    case Recorded =>
      var e := t.current.(recorded := t.current.recorded + [Runs.Arrival(x.sequenceNumber, x.now)]);
      t.(current := TraceRecord(e, x))
    case _ => t
  }

  lemma {:induction false} SuccessStep(s: Server, t: Trace, x: Runs.Event)
    requires Good(s, t) && ClockOk(x)
    requires Runs.AddPacket(s.open, x.sequenceNumber, x.now, MTU).0 == Runs.Success
    ensures var p := Runs.AddPacket(s.open, x.sequenceNumber, x.now, MTU).1;
            var s1, m := s.(open := p), Added(s, t, x);
            && Good(s1, m) && AllSent(m) == AllSent(t)
            && Handle(s, x) == (if IsFull(p) then Send(s1) else s1)
            && TraceStep(s, t, x) == (if IsFull(p) then m.(current := TraceSend(s1, m.current)) else m)
  {
    hide Good, IsFull, Send, TraceSend, Runs.Record, Runs.SetBase;
    match Runs.AddOutcome(s.open, x.sequenceNumber, x.now, MTU)
    case SetsBase => BaseKeeps(s, t, x);
    case Recorded => RecordKeeps(s, t, x);
    case _ =>
  }

  lemma {:induction false} SameSsrcs(p: Runs.Packet, x: Runs.Event)
    ensures Runs.AddPacket(p, x.sequenceNumber, x.now, MTU).1.ssrcs == p.ssrcs
  {
  }

  lemma {:induction false} OversizedStep(s: Server, t: Trace, x: Runs.Event)
    requires Runs.AddPacket(s.open, x.sequenceNumber, x.now, MTU).0 == Runs.MaxSizeExceeded
    ensures Runs.AddPacket(s.open, x.sequenceNumber, x.now, MTU).1 == s.open
    ensures Handle(s, x) ==
            var after := Send(s); after.(open := Runs.AddPacket(after.open, x.sequenceNumber, x.now, MTU).1)
    ensures AllSent(TraceStep(s, t, x)) == AllSent(t.(current := TraceSend(s, t.current)))
  {
    hide Send, TraceSend, Runs.Record;
    TraceSendCommutes(s, t.current, t.current.recorded + [Runs.Arrival(x.sequenceNumber, x.now)]);
  }

  lemma {:induction false} FatalStep(s: Server, t: Trace, x: Runs.Event)
    requires Runs.AddPacket(s.open, x.sequenceNumber, x.now, MTU).0 == Runs.Fatal
    ensures Handle(s, x) == s.(open := Runs.Fresh(s.open.ssrcs, s.packetCount))
    ensures AllSent(TraceStep(s, t, x)) == AllSent(t)
  {
    var u := Trace(t.past + [t.current], NEW_EPOCH);
    assert u.past[..|t.past|] == t.past;
    assert AllSent(u) == AllSent(t);
  }
}
