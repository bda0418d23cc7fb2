/** The bytes of an RTP packet: parsing, RTX (section 4 of RFC 4588) and replaced header extensions, as functions of the
    fields a packet is made of. */
module RtpWire {
  import opened Bytes
  import opened RtpExtensions

  const HEADER_SIZE: nat := 12
  const ONE_BYTE_ID: Word := 0xBEDE
  const TWO_BYTES_ID: Word := 0x1000
  const EXTENSION_BIT: nat := 0x10
  const PADDING_BIT: nat := 0x20

  /** What a packet is made of: fixed header and CSRC list, extension id and value, payload, padding. */
  datatype Rtp = Rtp(head: seq<Byte>, extension: Option<(Word, seq<Byte>)>, payload: seq<Byte>, padding: seq<Byte>)

  function ExtensionBytes(x: Option<(Word, seq<Byte>)>): seq<Byte> {
    match x
    case None => []
    case Some((id, value)) => PutWord(id) + PutWord(Cut16(|value| / 4)) + value
  }

  function PacketBytes(r: Rtp): seq<Byte> {
    r.head + ExtensionBytes(r.extension) + r.payload + r.padding
  }

  // ----- the fixed header

  predicate HasBit(b: Byte, bit: nat)
    requires bit > 0
  {
    (b / bit) % 2 == 1
  }

  function WithBit(b: Byte, bit: nat, on: bool): Byte
    requires bit == EXTENSION_BIT || bit == PADDING_BIT
  {
    b / (2 * bit) * (2 * bit) + (if on then bit else 0) + b % bit
  }

  /** The bits of the first byte: version, padding flag, extension flag, CSRC count. */
  lemma {:induction false} FirstByte(q: nat, p: nat, e: nat, c: nat)
    requires q < 4 && p < 2 && e < 2 && c < 16
    ensures var b := 64 * q + 32 * p + 16 * e + c;
            && b < 0x100 && b / 64 == q && (b / 32) % 2 == p && (b / 16) % 2 == e && b % 16 == c
            && b % 32 == 16 * e + c && b / 32 == 2 * q + p
  {
    var b := 64 * q + 32 * p + 16 * e + c;
    assert b / 16 == 4 * q + 2 * p + e;
    assert b / 32 == 2 * q + p;
  }

  lemma {:induction false} ByteParts(b: Byte)
    ensures b == 64 * (b / 64) + 32 * ((b / 32) % 2) + 16 * ((b / 16) % 2) + b % 16
  {
  }

  lemma {:induction false} WithBitParts(b: Byte, on: bool)
    ensures WithBit(b, PADDING_BIT, on) == 64 * (b / 64) + 32 * (if on then 1 else 0) + 16 * ((b / 16) % 2) + b % 16
    ensures WithBit(b, EXTENSION_BIT, on) == 64 * (b / 64) + 32 * ((b / 32) % 2) + 16 * (if on then 1 else 0) + b % 16
  {
    ByteParts(b);
    FirstByte(b / 64, (b / 32) % 2, (b / 16) % 2, b % 16);
  }

  /** Setting one flag changes that flag and nothing else. */
  lemma {:induction false} PaddingBitSet(b: Byte, on: bool)
    ensures HasBit(WithBit(b, PADDING_BIT, on), PADDING_BIT) == on
    ensures HasBit(WithBit(b, PADDING_BIT, on), EXTENSION_BIT) == HasBit(b, EXTENSION_BIT)
    ensures WithBit(b, PADDING_BIT, on) % 16 == b % 16 && WithBit(b, PADDING_BIT, on) / 64 == b / 64
  {
    hide WithBit;
    WithBitParts(b, on);
    FirstByte(b / 64, if on then 1 else 0, (b / 16) % 2, b % 16);
  }

  lemma {:induction false} ExtensionBitSet(b: Byte, on: bool)
    ensures HasBit(WithBit(b, EXTENSION_BIT, on), EXTENSION_BIT) == on
    ensures HasBit(WithBit(b, EXTENSION_BIT, on), PADDING_BIT) == HasBit(b, PADDING_BIT)
    ensures WithBit(b, EXTENSION_BIT, on) % 16 == b % 16 && WithBit(b, EXTENSION_BIT, on) / 64 == b / 64
  {
    hide WithBit;
    WithBitParts(b, on);
    FirstByte(b / 64, (b / 32) % 2, if on then 1 else 0, b % 16);
  }

  // ----- RTX (section 4 of RFC 4588)

  function PayloadType(r: Rtp): nat
    requires |r.head| >= HEADER_SIZE
  {
    r.head[1] % 0x80
  }

  function SequenceNumber(r: Rtp): Word
    requires |r.head| >= HEADER_SIZE
  {
    WordAt(r.head, 2)
  }

  function Ssrc(r: Rtp): seq<Byte>
    requires |r.head| >= HEADER_SIZE
  {
    r.head[8..12]
  }

  /** The header with another payload type (the marker stays), sequence number and SSRC, and the padding flag off. */
  function Rehead(
      head: seq<Byte>, payloadType: nat, seqNumber: Word, ssrc: seq<Byte>, keepPadding: bool): (r: seq<Byte>)
    requires |head| >= HEADER_SIZE && payloadType < 0x80 && |ssrc| == 4
    ensures |r| == |head|
  {
    [if keepPadding then head[0] else WithBit(head[0], PADDING_BIT, false)]
    + [head[1] / 0x80 * 0x80 + payloadType] + PutWord(seqNumber) + head[4..8] + ssrc + head[12..]
  }

  function RtxEncoded(r: Rtp, payloadType: nat, ssrc: seq<Byte>, seqNumber: Word): Rtp
    requires |r.head| >= HEADER_SIZE && payloadType < 0x80 && |ssrc| == 4
  {
    Rtp(Rehead(r.head, payloadType, seqNumber, ssrc, r.padding == []), r.extension,
        PutWord(SequenceNumber(r)) + r.payload, [])
  }

  /** None where the source returns false. */
  function RtxDecoded(r: Rtp, payloadType: nat, ssrc: seq<Byte>): Option<Rtp>
    requires |r.head| >= HEADER_SIZE && payloadType < 0x80 && |ssrc| == 4
  {
    if |r.payload| < 2 then None
    else
      var head := Rehead(r.head, payloadType, WordAt(r.payload, 0), ssrc, r.padding == []);
      Some(Rtp(head, r.extension, r.payload[2..], []))
  }

  /** The packet without its padding. */
  function Unpadded(r: Rtp): Rtp
    requires |r.head| >= HEADER_SIZE
  {
    if r.padding == [] then r
    else r.(head := [WithBit(r.head[0], PADDING_BIT, false)] + r.head[1..], padding := [])
  }

  lemma {:induction false} WordReadBack(w: Word, rest: seq<Byte>)
    ensures WordAt(PutWord(w) + rest, 0) == w && (PutWord(w) + rest)[2..] == rest
  {
  }

  lemma {:induction false} WordWriteBack(data: seq<Byte>, i: nat)
    requires i + 2 <= |data|
    ensures PutWord(WordAt(data, i)) == data[i..i + 2]
  {
    var high: int := data[i];
    assert (0x100 * high + data[i + 1]) / 0x100 == high;
  }

  /** The header that results from re-heading twice is the last one asked for. */
  lemma {:induction false} ReheadTwice(
      head: seq<Byte>, pt: nat, n: Word, ssrc: seq<Byte>, keep: bool, pt2: nat, n2: Word, ssrc2: seq<Byte>)
    requires |head| >= HEADER_SIZE && pt < 0x80 && |ssrc| == 4 && pt2 < 0x80 && |ssrc2| == 4
    ensures var h := Rehead(head, pt, n, ssrc, keep);
            |h| == |head| && Rehead(h, pt2, n2, ssrc2, true) == Rehead(head, pt2, n2, ssrc2, keep)
  {
    hide PutWord, WithBit;
    var h := Rehead(head, pt, n, ssrc, keep);
    assert h[4..8] == head[4..8] && h[12..] == head[12..];
    assert h[1] / 0x80 == head[1] / 0x80;
  }

  lemma {:induction false} ReheadSame(head: seq<Byte>, keep: bool)
    requires |head| >= HEADER_SIZE
    ensures Rehead(head, head[1] % 0x80, WordAt(head, 2), head[8..12], keep)
         == [if keep then head[0] else WithBit(head[0], PADDING_BIT, false)] + head[1..]
  {
    WordWriteBack(head, 2);
    hide PutWord, WithBit, WordAt;
  }

  /** Decoding a retransmission with the original payload type and SSRC restores the packet, sequence number and
      payload included; only the padding is gone. */
  lemma {:induction false} RtxRoundTrip(r: Rtp, payloadType: nat, ssrc: seq<Byte>, seqNumber: Word)
    requires |r.head| >= HEADER_SIZE && payloadType < 0x80 && |ssrc| == 4
    ensures var x := RtxEncoded(r, payloadType, ssrc, seqNumber);
            && |x.head| >= HEADER_SIZE
            && RtxDecoded(x, PayloadType(r), Ssrc(r)) == Some(Unpadded(r))
            && |PacketBytes(x)| == |PacketBytes(r)| + 2 - |r.padding|
  {
    WordReadBack(SequenceNumber(r), r.payload);
    ReheadTwice(r.head, payloadType, seqNumber, ssrc, r.padding == [], PayloadType(r), SequenceNumber(r), Ssrc(r));
    ReheadSame(r.head, r.padding == []);
    hide PutWord, WithBit, WordAt, Rehead;
    assert r.padding == [] ==> [r.head[0]] + r.head[1..] == r.head;
  }

  /** The other way round: a retransmission decoded and encoded again with its own numbers. */
  lemma {:induction false} RtxRoundTripBack(x: Rtp, payloadType: nat, ssrc: seq<Byte>)
    requires |x.head| >= HEADER_SIZE && payloadType < 0x80 && |ssrc| == 4 && |x.payload| >= 2
    ensures var r := RtxDecoded(x, payloadType, ssrc);
            && r.Some? && |r.value.head| >= HEADER_SIZE
            && RtxEncoded(r.value, PayloadType(x), Ssrc(x), SequenceNumber(x)) == Unpadded(x)
  {
    var n := WordAt(x.payload, 0);
    WordWriteBack(x.payload, 0);
    ReheadSeq(x.head, payloadType, n, ssrc, x.padding == []);
    ReheadTwice(x.head, payloadType, n, ssrc, x.padding == [], PayloadType(x), SequenceNumber(x), Ssrc(x));
    ReheadSame(x.head, x.padding == []);
    hide PutWord, WithBit, WordAt, Rehead;
    assert x.payload[0..2] + x.payload[2..] == x.payload;
  }

  lemma {:induction false} ReheadSeq(head: seq<Byte>, pt: nat, n: Word, ssrc: seq<Byte>, keep: bool)
    requires |head| >= HEADER_SIZE && pt < 0x80 && |ssrc| == 4
    ensures WordAt(Rehead(head, pt, n, ssrc, keep), 2) == n
  {
    hide WithBit;
  }

  // ----- parsing a packet

  /** A packet the parser accepts, field by field. */
  predicate WellFormed(r: Rtp) {
    && |r.head| >= HEADER_SIZE && r.head[0] / 64 == 2 && |r.head| == HEADER_SIZE + 4 * (r.head[0] % 16)
    && HasBit(r.head[0], EXTENSION_BIT) == r.extension.Some?
    && (r.extension.Some? ==> |r.extension.value.1| % 4 == 0 && |r.extension.value.1| < 0x4_0000)
    && HasBit(r.head[0], PADDING_BIT) == (r.padding != [])
    && (r.padding != [] ==> |r.padding| < 0x100 && r.padding[|r.padding| - 1] == |r.padding|)
  }

  function ParsePadding(
      head: seq<Byte>, extension: Option<(Word, seq<Byte>)>, rest: seq<Byte>): Option<Rtp>
    requires |head| >= HEADER_SIZE
  {
    if !HasBit(head[0], PADDING_BIT) then Some(Rtp(head, extension, rest, []))
    else if rest == [] then None
    else
      var padding := rest[|rest| - 1];
      if padding == 0 || |rest| < padding then None
      else Some(Rtp(head, extension, rest[..|rest| - padding], rest[|rest| - padding..]))
  }

  /** RtpPacket::Parse; None where the source returns nullptr. */
  function ParseRtp(data: seq<Byte>): Option<Rtp> {
    if |data| < HEADER_SIZE || !(127 < data[0] < 192) || data[0] / 64 != 2 then None
    else
      var at := HEADER_SIZE + 4 * (data[0] % 16);
      if |data| < at then None
      else if !HasBit(data[0], EXTENSION_BIT) then ParsePadding(data[..at], None, data[at..])
      else if |data| < at + 4 then None
      else
        var length := WordAt(data, at + 2) * 4;
        if |data| < at + 4 + length then None
        else ParsePadding(data[..at], Some((WordAt(data, at), data[at + 4..at + 4 + length])), data[at + 4 + length..])
  }

  lemma {:induction false} PaddingCut(
      head: seq<Byte>, x: Option<(Word, seq<Byte>)>, payload: seq<Byte>, padding: seq<Byte>)
    requires |head| >= HEADER_SIZE && HasBit(head[0], PADDING_BIT) == (padding != [])
    requires padding != [] ==> |padding| < 0x100 && padding[|padding| - 1] == |padding|
    ensures ParsePadding(head, x, payload + padding) == Some(Rtp(head, x, payload, padding))
  {
    var rest := payload + padding;
    if padding == [] {
      assert rest == payload;
    } else {
      assert rest[|rest| - 1] == padding[|padding| - 1];
      assert rest[..|payload|] == payload && rest[|payload|..] == padding;
    }
  }

  lemma {:induction false} ExtensionAt(data: seq<Byte>, at: nat, id: Word, value: seq<Byte>, rest: seq<Byte>)
    requires at <= |data| && data[at..] == PutWord(id) + PutWord(Cut16(|value| / 4)) + value + rest
    requires |value| % 4 == 0 && |value| < 0x4_0000
    ensures |data| == at + 4 + |value| + |rest| && WordAt(data, at) == id && WordAt(data, at + 2) * 4 == |value|
    ensures data[at + 4..at + 4 + |value|] == value && data[at + 4 + |value|..] == rest
  {
    NoWrap(|value| / 4);
    var tail := data[at..];
    assert data[at] == tail[0] && data[at + 1] == tail[1] && data[at + 2] == tail[2] && data[at + 3] == tail[3];
    assert tail[4..4 + |value|] == value && tail[4 + |value|..] == rest;
  }

  /** A header of `at` bytes, the extension `x` behind it, and then `rest`. */
  predicate LaidOut(data: seq<Byte>, at: nat, x: Option<(Word, seq<Byte>)>, rest: seq<Byte>) {
    && at <= |data|
    && match x
       case None => data[at..] == rest
       case Some((id, value)) =>
         && at + 4 + |value| <= |data|
         && WordAt(data, at) == id && WordAt(data, at + 2) * 4 == |value|
         && data[at + 4..at + 4 + |value|] == value && data[at + 4 + |value|..] == rest
  }

  /** Where the writer puts things is where the parser looks. */
  lemma {:induction false} PacketLaidOut(r: Rtp)
    requires WellFormed(r)
    ensures LaidOut(PacketBytes(r), |r.head|, r.extension, r.payload + r.padding)
    ensures HEADER_SIZE <= |r.head| <= |PacketBytes(r)| && PacketBytes(r)[..|r.head|] == r.head
    ensures PacketBytes(r)[0] == r.head[0]
  {
    hide HasBit, WordAt, PutWord, Cut16;
    var data, at := PacketBytes(r), |r.head|;
    match r.extension
    case None =>
    case Some((id, value)) =>
      assert data[at..] == PutWord(id) + PutWord(Cut16(|value| / 4)) + value + (r.payload + r.padding);
      ExtensionAt(data, at, id, value, r.payload + r.padding);
  }

  lemma {:induction false} VersionTwo(b: Byte)
    ensures b / 64 == 2 ==> 127 < b < 192
  {
  }

  /** The parser's branches, given where things are. */
  lemma {:induction false} ParseLaidOut(data: seq<Byte>, at: nat, x: Option<(Word, seq<Byte>)>, rest: seq<Byte>)
    requires HEADER_SIZE <= at <= |data| && at == HEADER_SIZE + 4 * (data[0] % 16) && data[0] / 64 == 2
    requires HasBit(data[0], EXTENSION_BIT) == x.Some? && LaidOut(data, at, x, rest)
    ensures ParseRtp(data) == ParsePadding(data[..at], x, rest)
  {
    VersionTwo(data[0]);
    hide HasBit, WordAt, ParsePadding;
  }

  lemma {:induction false} WellFormedParts(r: Rtp)
    requires WellFormed(r)
    ensures |r.head| >= HEADER_SIZE && r.head[0] / 64 == 2 && |r.head| == HEADER_SIZE + 4 * (r.head[0] % 16)
    ensures HasBit(r.head[0], EXTENSION_BIT) == r.extension.Some?
    ensures HasBit(r.head[0], PADDING_BIT) == (r.padding != [])
    ensures r.padding != [] ==> |r.padding| < 0x100 && r.padding[|r.padding| - 1] == |r.padding|
  {
  }

  /** Writing a well-formed packet and parsing it are inverse. */
  lemma {:induction false} ParseOfBytes(r: Rtp)
    requires WellFormed(r)
    ensures ParseRtp(PacketBytes(r)) == Some(r)
  {
    WellFormedParts(r);
    hide HasBit, WordAt, ParsePadding, PacketBytes, ParseRtp, WellFormed, LaidOut;
    PacketLaidOut(r);
    PaddingCut(r.head, r.extension, r.payload, r.padding);
    ParseLaidOut(PacketBytes(r), |r.head|, r.extension, r.payload + r.padding);
  }

  lemma {:induction false} ParsedPadding(head: seq<Byte>, x: Option<(Word, seq<Byte>)>, rest: seq<Byte>)
    requires |head| >= HEADER_SIZE && ParsePadding(head, x, rest).Some?
    ensures var r := ParsePadding(head, x, rest).value;
            && r.head == head && r.extension == x && r.payload + r.padding == rest
            && HasBit(head[0], PADDING_BIT) == (r.padding != [])
            && (r.padding != [] ==> |r.padding| < 0x100 && r.padding[|r.padding| - 1] == |r.padding|)
  {
    hide HasBit;
  }

  lemma {:induction false} CutAround(data: seq<Byte>, at: nat, n: nat)
    requires at + 4 + n <= |data|
    ensures data ==
            data[..at] + (data[at..at + 2] + data[at + 2..at + 4] + data[at + 4..at + 4 + n]) + data[at + 4 + n..]
  {
    assert data[at..at + 4 + n] == data[at..at + 2] + data[at + 2..at + 4] + data[at + 4..at + 4 + n];
    assert data == data[..at] + data[at..at + 4 + n] + data[at + 4 + n..];
  }

  lemma {:induction false} PacketBytesTail(r: Rtp)
    ensures PacketBytes(r) == r.head + ExtensionBytes(r.extension) + (r.payload + r.padding)
  {
    hide ExtensionBytes;
  }

  lemma {:induction false} JoinExtended(data: seq<Byte>, at: nat, n: nat, r: Rtp)
    requires at + 4 + n <= |data| && n == WordAt(data, at + 2) * 4
    requires r.head == data[..at] && r.extension == Some((WordAt(data, at), data[at + 4..at + 4 + n]))
    requires r.payload + r.padding == data[at + 4 + n..]
    ensures PacketBytes(r) == data
  {
    hide WordAt, PutWord, PacketBytes, Cut16;
    PacketBytesTail(r);
    WordWriteBack(data, at);
    WordWriteBack(data, at + 2);
    NoWrap(n / 4);
    CutAround(data, at, n);
  }

  lemma {:induction false} JoinPlain(data: seq<Byte>, at: nat, r: Rtp)
    requires at <= |data| && r.head == data[..at] && r.extension == None && r.payload + r.padding == data[at..]
    ensures PacketBytes(r) == data
  {
    hide PacketBytes;
    PacketBytesTail(r);
  }

  lemma {:induction false} ParsedPlain(data: seq<Byte>)
    requires ParseRtp(data).Some? && !HasBit(data[0], EXTENSION_BIT)
    ensures WellFormed(ParseRtp(data).value) && PacketBytes(ParseRtp(data).value) == data
  {
    hide HasBit, WordAt, PutWord, ParsePadding, PacketBytes;
    var at := HEADER_SIZE + 4 * (data[0] % 16);
    ParsedPadding(data[..at], None, data[at..]);
    JoinPlain(data, at, ParseRtp(data).value);
  }

  lemma {:induction false} ParsedExtended(data: seq<Byte>)
    requires ParseRtp(data).Some? && HasBit(data[0], EXTENSION_BIT)
    ensures WellFormed(ParseRtp(data).value) && PacketBytes(ParseRtp(data).value) == data
  {
    hide HasBit, WordAt, PutWord, ParsePadding, PacketBytes;
    var at := HEADER_SIZE + 4 * (data[0] % 16);
    var n := WordAt(data, at + 2) * 4;
    var x := Some((WordAt(data, at), data[at + 4..at + 4 + n]));
    ParsedPadding(data[..at], x, data[at + 4 + n..]);
    JoinExtended(data, at, n, ParseRtp(data).value);
  }

  /** Whatever the parser accepts is cut into fields without a byte lost or read twice. */
  lemma {:induction false} BytesOfParse(data: seq<Byte>)
    requires ParseRtp(data).Some?
    ensures WellFormed(ParseRtp(data).value) && PacketBytes(ParseRtp(data).value) == data
  {
    hide ParsePadding, PacketBytes, WellFormed, HasBit;
    if HasBit(data[0], EXTENSION_BIT) { ParsedExtended(data); } else { ParsedPlain(data); }
  }

  /** Parsing accepts exactly the byte strings of well-formed packets. */
  lemma {:induction false} ParseIff(data: seq<Byte>, r: Rtp)
    ensures ParseRtp(data) == Some(r) <==> WellFormed(r) && PacketBytes(r) == data
  {
    hide WellFormed, PacketBytes, ParseRtp;
    if ParseRtp(data) == Some(r) { BytesOfParse(data); }
    if WellFormed(r) { ParseOfBytes(r); }
  }

  // ----- the same in bytes

  /** Where the header with its CSRC list ends, and where the extension behind it does. */
  function HeadEnd(data: seq<Byte>): nat
    requires |data| >= 12
  {
    12 + 4 * (data[0] % 16)
  }

  function ExtensionEnd(data: seq<Byte>): nat
    requires |data| >= 12 && (data[0] / 16 % 2 == 1 ==> |data| >= HeadEnd(data) + 4)
  {
    var n := HeadEnd(data);
    if data[0] / 16 % 2 == 1 then n + 4 + 4 * Joined(data[n + 2], data[n + 3]) else n
  }

  /** Version 2, and room for the CSRC list and the extension. */
  predicate Roomy(data: seq<Byte>) {
    && |data| >= 12 && data[0] / 64 == 2
    && (data[0] / 16 % 2 == 1 ==> |data| >= HeadEnd(data) + 4)
    && |data| >= ExtensionEnd(data)
  }

  /** And, if there is padding, a count of at least one that leaves them alone. */
  predicate Acceptable(data: seq<Byte>) {
    Roomy(data) &&
    (data[0] / 32 % 2 == 1 ==> |data| > ExtensionEnd(data) && 0 < data[|data| - 1] <= |data| - ExtensionEnd(data))
  }

  function ExtensionIn(data: seq<Byte>): Option<(Word, seq<Byte>)>
    requires Roomy(data)
  {
    var n := HeadEnd(data);
    if data[0] / 16 % 2 == 1
    then Some((Cut16(Joined(data[n], data[n + 1])), data[n + 4..ExtensionEnd(data)])) else None
  }

  /** What the packet is taken apart into, given where its padding starts. */
  predicate TakenApart(r: Rtp, data: seq<Byte>, end: nat)
    requires Acceptable(data)
  {
    var n, e := HeadEnd(data), ExtensionEnd(data);
    && e <= end <= |data|
    && r.head == data[..n]
    && r.extension == ExtensionIn(data)
    && r.payload == data[e..end] && r.padding == data[end..]
  }

  lemma {:induction false} PaddingExactly(head: seq<Byte>, x: Option<(Word, seq<Byte>)>, rest: seq<Byte>)
    requires |head| >= HEADER_SIZE
    ensures var flag := head[0] / 32 % 2 == 1;
            && (ParsePadding(head, x, rest).Some? <==> (flag ==> rest != [] && 0 < rest[|rest| - 1] <= |rest|))
            && (ParsePadding(head, x, rest).Some? ==>
                 var end: nat := if flag then |rest| - rest[|rest| - 1] else |rest|;
                 ParsePadding(head, x, rest).value == Rtp(head, x, rest[..end], rest[end..]))
  {
  }

  lemma {:induction false} JoinedWord(data: seq<Byte>, i: nat)
    requires i + 1 < |data|
    ensures WordAt(data, i) == Joined(data[i], data[i + 1]) == Cut16(Joined(data[i], data[i + 1]))
  {
  }

  lemma {:induction false} VersionExactly(b: Byte)
    ensures 127 < b < 192 <==> b / 64 == 2
  {
  }

  lemma {:induction false} ParsedBeforePadding(data: seq<Byte>)
    ensures ParseRtp(data) ==
            if Roomy(data) then ParsePadding(data[..HeadEnd(data)], ExtensionIn(data), data[ExtensionEnd(data)..])
            else None
  {
    hide ParsePadding, WordAt, Joined, Cut16;
    if |data| >= 12 {
      VersionExactly(data[0]);
      var n := HeadEnd(data);
      if |data| >= n + 4 {
        JoinedWord(data, n);
        JoinedWord(data, n + 2);
      }
    }
  }

  /** Exactly these are accepted, and the padding is as long as the last byte says when the flag is set. */
  lemma {:induction false} ParsedExactly(data: seq<Byte>)
    ensures ParseRtp(data).Some? <==> Acceptable(data)
    ensures Acceptable(data) ==>
              TakenApart(ParseRtp(data).value, data,
                         if data[0] / 32 % 2 == 1 then |data| - data[|data| - 1] else |data|)
  {
    ParsedBeforePadding(data);
    hide ParsePadding, ParseRtp;
    if Roomy(data) {
      PaddingExactly(data[..HeadEnd(data)], ExtensionIn(data), data[ExtensionEnd(data)..]);
    }
    hide Roomy, ExtensionIn, ExtensionEnd;
  }

  /** A header with another payload type, sequence number and SSRC, and without the padding flag if `cleared`: version,
      extension flag, CSRC count and list, marker and timestamp are those of the old one. */
  predicate Readdressed(h: seq<Byte>, head: seq<Byte>, payloadType: nat, n: int, ssrc: seq<Byte>, cleared: bool) {
    && |h| == |head| >= 12
    && h[0] as int == head[0] as int - (if cleared then 32 else 0)
    && h[1] % 128 == payloadType && h[1] / 128 == head[1] / 128
    && Joined(h[2], h[3]) == n
    && h[4..8] == head[4..8] && h[8..12] == ssrc && h[12..] == head[12..]
  }

  lemma {:induction false} ReheadExactly(r: Rtp, payloadType: nat, n: Word, ssrc: seq<Byte>)
    requires WellFormed(r) && payloadType < 0x80 && |ssrc| == 4
    ensures Readdressed(Rehead(r.head, payloadType, n, ssrc, r.padding == []), r.head, payloadType, n, ssrc,
                        r.padding != [])
  {
    ByteParts(r.head[0]);
    WithBitParts(r.head[0], false);
    hide WithBit;
  }

  /** A retransmission: the original sequence number goes in front of the payload, and the padding is dropped. */
  lemma {:induction false} RtxEncodedExactly(r: Rtp, payloadType: nat, ssrc: seq<Byte>, seqNumber: Word)
    requires WellFormed(r) && payloadType < 0x80 && |ssrc| == 4
    ensures var x := RtxEncoded(r, payloadType, ssrc, seqNumber);
            && Readdressed(x.head, r.head, payloadType, seqNumber, ssrc, r.padding != [])
            && x.payload == r.head[2..4] + r.payload && x.padding == [] && x.extension == r.extension
  {
    ReheadExactly(r, payloadType, seqNumber, ssrc);
    WordWriteBack(r.head, 2);
    hide Rehead, PutWord, WordAt, Readdressed, HasBit;
  }

  /** The packet a retransmission stands for: its sequence number is the first two bytes of the payload, without which
      there is none. */
  lemma {:induction false} RtxDecodedExactly(r: Rtp, payloadType: nat, ssrc: seq<Byte>)
    requires WellFormed(r) && payloadType < 0x80 && |ssrc| == 4
    ensures var d := RtxDecoded(r, payloadType, ssrc);
            if |r.payload| < 2 then d == None
            else
              && d.Some?
              && Readdressed(d.value.head, r.head, payloadType, Joined(r.payload[0], r.payload[1]), ssrc,
                             r.padding != [])
              && d.value.payload == r.payload[2..] && d.value.padding == [] && d.value.extension == r.extension
  {
    if |r.payload| >= 2 {
      ReheadExactly(r, payloadType, WordAt(r.payload, 0), ssrc);
    }
    hide Rehead, Readdressed, HasBit;
  }

  // ----- the packet object

  function PayloadStart(r: Rtp): nat {
    |r.head| + |ExtensionBytes(r.extension)|
  }

  /** The id SetExtensions leaves in the header extension: one that already names the kind asked for stays. */
  function ExtensionId(k: Kind, x: Option<(Word, seq<Byte>)>): Word {
    match k
    case OneByte => ONE_BYTE_ID
    case TwoBytes => if x.Some? && x.value.0 / 16 == 0x100 then x.value.0 else TWO_BYTES_ID
  }

  function PaddedElements(k: Kind, es: seq<Extension>): (v: seq<Byte>)
    requires Sized(es)
    ensures |v| % 4 == 0
  {
    Elements(k, es) + Repeat(0, Padding(|Elements(k, es)|))
  }

  /** SetExtensions on the value of a packet. */
  function Extended(r: Rtp, k: Kind, es: seq<Extension>): Rtp
    requires |r.head| >= HEADER_SIZE && Sized(es)
  {
    r.(head := [WithBit(r.head[0], EXTENSION_BIT, true)] + r.head[1..],
       extension := Some((ExtensionId(k, r.extension), PaddedElements(k, es))))
  }

  lemma {:induction false} ExtendedWellFormed(r: Rtp, k: Kind, es: seq<Extension>)
    requires WellFormed(r) && Sized(es) && |PaddedElements(k, es)| < 0x4_0000
    ensures WellFormed(Extended(r, k, es))
  {
    hide HasBit, WithBit;
    ExtensionBitSet(r.head[0], true);
  }

  /** The kind of elements a header extension id announces. */
  function KindOf(id: Word): Option<Kind> {
    if id == ONE_BYTE_ID then Some(OneByte) else if id / 16 == 0x100 then Some(TwoBytes) else None
  }

  /** What SetExtensions wrote is what parsing the rewritten packet finds: the same elements at the same places; and
      asking for an id gives the last value written under it. Payload and padding are those of the old packet. */
  lemma {:induction false} ExtendedReadBack(r: Rtp, k: Kind, es: seq<Extension>, id: Byte)
    requires WellFormed(r) && Sized(es) && |PaddedElements(k, es)| < 0x4_0000
    ensures var x := Extended(r, k, es);
            && ParseRtp(PacketBytes(x)) == Some(x)
            && x.payload == r.payload && x.padding == r.padding && x.head[1..] == r.head[1..]
            && KindOf(x.extension.value.0) == Some(k)
            && var v := x.extension.value.1;
            && Scan(k, v, 0, map[]) == Placed(k, es, 0, map[])
            && PlacesOk(k, v, Scan(k, v, 0, map[]))
            && Lookup(k, v, Scan(k, v, 0, map[]), id) == LastValue(k, es, id)
  {
    ExtendedWellFormed(r, k, es);
    var x := Extended(r, k, es);
    hide WellFormed, PacketBytes, ParseRtp, Scan, Placed, PlacesOk, Lookup, LastValue, Elements, WithBit;
    ParseOfBytes(x);
    var v := PaddedElements(k, es);
    assert v[0..] == v && Elements(k, es) <= v;
    ScanFindsPlaced(k, es, v, 0, map[]);
    LookupGivesLast(k, es, v, id);
  }

  /** What SetExtensions changes, in numbers: the extension flag; the id, 0xBEDE or 0x1000, an old one from 0x1000 to
      0x100F being kept; and the value, which is the elements and zeros up to a multiple of four. */
  lemma {:induction false} ExtendedExactly(r: Rtp, k: Kind, es: seq<Extension>)
    requires WellFormed(r) && Sized(es) && |Elements(k, es)| <= 0x3_FFFC
    ensures var x := Extended(r, k, es);
            && x.extension.Some?
            && var (id, v) := x.extension.value;
            && (k == OneByte ==> id == 0xBEDE)
            && (k == TwoBytes ==>
                id == if r.extension.Some? && 0x1000 <= r.extension.value.0 <= 0x100F
                      then r.extension.value.0 else 0x1000)
            && Elements(k, es) <= v && |v| == (|Elements(k, es)| + 3) / 4 * 4 < 0x4_0000
            && (forall i :: |Elements(k, es)| <= i < |v| ==> v[i] == 0)
            && |x.head| == |r.head| && x.head[1..] == r.head[1..] && x.payload == r.payload && x.padding == r.padding
            && x.head[0] == r.head[0] - (if r.extension.Some? then 16 else 0) + 16
  {
    hide Elements, WithBit;
    WithBitParts(r.head[0], true);
    ByteParts(r.head[0]);
  }

  /** Which kind of elements a header extension id announces. */
  lemma {:induction false} KindExactly(id: Word)
    ensures KindOf(id) == Some(OneByte) <==> id == 0xBEDE
    ensures KindOf(id) == Some(TwoBytes) <==> 0x1000 <= id <= 0x100F
  {
  }

  /** After SetExtensions in the one-byte form the re-parsed packet gives, under an id of 1 to 14, the value of the last
      element of that id and of 1 to 16 bytes, and nothing if there is none; in the two-byte form, under an id other
      than 0, the value of the last element of that id unless it is empty. */
  lemma {:induction false} FoundExactly(r: Rtp, k: Kind, es: seq<Extension>, id: Byte)
    requires WellFormed(r) && Sized(es) && |PaddedElements(k, es)| < 0x4_0000
    ensures var x := Extended(r, k, es);
            && ParseRtp(PacketBytes(x)) == Some(x)
            && var v := x.extension.value.1;
            && PlacesOk(k, v, Scan(k, v, 0, map[]))
            && var found := Lookup(k, v, Scan(k, v, 0, map[]), id);
            && (forall i: nat :: k == OneByte && LastOneByte(es, i, id) ==> found == Some(es[i].value))
            && (k == OneByte && NoOneByte(es, id) ==> found == None)
            && (forall i: nat :: k == TwoBytes && LastTwoBytes(es, i, id) ==>
                  found == if es[i].value == [] then None else Some(es[i].value))
            && (k == TwoBytes && NoTwoBytes(es, id) ==> found == None)
  {
    ExtendedReadBack(r, k, es, id);
    LastValueExactly(k, es, id);
    hide *;
  }

  /** Where the parts of a packet are. */
  lemma {:induction false} PartsInPlace(r: Rtp)
    ensures var data, n, p, e := PacketBytes(r), |r.head|, PayloadStart(r), PayloadStart(r) + |r.payload|;
            && |data| == e + |r.padding|
            && data[..n] == r.head && data[n..p] == ExtensionBytes(r.extension)
            && data[p..e] == r.payload && data[e..] == r.padding
  {
    hide ExtensionBytes;
  }

  lemma {:induction false} ExtensionInPlace(r: Rtp)
    requires WellFormed(r) && r.extension.Some?
    ensures var data, n, v := PacketBytes(r), |r.head|, r.extension.value.1;
            && PayloadStart(r) == n + 4 + |v| <= |data|
            && WordAt(data, n) == r.extension.value.0 && WordAt(data, n + 2) * 4 == |v|
            && data[n + 4..n + 4 + |v|] == v
  {
    hide HasBit, WordAt, PutWord, PacketBytes;
    var data, n := PacketBytes(r), |r.head|;
    var (id, v) := r.extension.value;
    PacketBytesTail(r);
    PartsInPlace(r);
    assert data[n..] == PutWord(id) + PutWord(Cut16(|v| / 4)) + v + (r.payload + r.padding);
    ExtensionAt(data, n, id, v, r.payload + r.padding);
  }

  // ----- payload shifts

  function Expanded(payload: seq<Byte>, offset: nat, gap: seq<Byte>): seq<Byte>
    requires offset <= |payload|
  {
    payload[..offset] + gap + payload[offset..]
  }

  function Contracted(payload: seq<Byte>, offset: nat, shift: nat): seq<Byte>
    requires offset + shift <= |payload|
  {
    payload[..offset] + payload[offset + shift..]
  }

  /** Contracting what was expanded restores the payload, whatever was put in the gap; and the other way round. */
  lemma {:induction false} ShiftRoundTrip(payload: seq<Byte>, offset: nat, gap: seq<Byte>)
    requires offset <= |payload|
    ensures Contracted(Expanded(payload, offset, gap), offset, |gap|) == payload
    ensures offset + |gap| <= |payload| && payload[offset..offset + |gap|] == gap ==>
              Expanded(Contracted(payload, offset, |gap|), offset, gap) == payload
  {
  }

  /** Everything in front of `offset` stays, everything behind moves by the gap, or over what is cut out. */
  lemma {:induction false} ShiftedExactly(payload: seq<Byte>, offset: nat, gap: seq<Byte>, shift: nat, i: nat)
    requires offset <= |payload| && i < |payload|
    ensures |Expanded(payload, offset, gap)| == |payload| + |gap|
    ensures Expanded(payload, offset, gap)[if i < offset then i else i + |gap|] == payload[i]
    ensures offset + shift <= |payload| ==>
              && |Contracted(payload, offset, shift)| == |payload| - shift
              && (i < offset ==> Contracted(payload, offset, shift)[i] == payload[i])
              && (i >= offset + shift ==> Contracted(payload, offset, shift)[i - shift] == payload[i])
  {
  }

  lemma {:induction false} ReheadDropsFlag(head: seq<Byte>, pt: nat, n: Word, ssrc: seq<Byte>)
    requires |head| >= HEADER_SIZE && pt < 0x80 && |ssrc| == 4
    ensures var h := Rehead(head, pt, n, ssrc, true);
            && |h| == |head| && h[0] == head[0]
            && Rehead(head, pt, n, ssrc, false) == [WithBit(head[0], PADDING_BIT, false)] + h[1..]
  {
    hide WithBit, PutWord;
  }

  /** Re-heading keeps what the parser looks at, but for the padding flag. */
  lemma {:induction false} ReheadWellFormed(r: Rtp, pt: nat, n: Word, ssrc: seq<Byte>, payload: seq<Byte>)
    requires WellFormed(r) && pt < 0x80 && |ssrc| == 4
    ensures WellFormed(Rtp(Rehead(r.head, pt, n, ssrc, r.padding == []), r.extension, payload, []))
  {
    hide WithBit, HasBit, PutWord;
    PaddingBitSet(r.head[0], false);
  }
}
