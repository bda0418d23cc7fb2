/** RtpPacket: header extensions, RTX and payload shifts, rewritten in place in the packet's buffer and proved against
    the functions of RtpWire and RtpExtensions. */
module RtpPacketClass {
  import opened Bytes
  import opened RtpExtensions
  import opened RtpWire

  // ----- bytes in place

  /** `bytes` written over the bytes from `at` on. */
  function Patch(s: seq<Byte>, at: nat, bytes: seq<Byte>): (r: seq<Byte>)
    requires at + |bytes| <= |s|
    ensures |r| == |s|
  {
    s[..at] + bytes + s[at + |bytes|..]
  }

  lemma {:induction false} IsPatch(was: seq<Byte>, now: seq<Byte>, at: nat, bytes: seq<Byte>)
    requires |now| == |was| && at + |bytes| <= |was|
    requires forall i :: at <= i < at + |bytes| ==> now[i] == bytes[i - at]
    requires forall i :: 0 <= i < |was| && !(at <= i < at + |bytes|) ==> now[i] == was[i]
    ensures now == Patch(was, at, bytes)
  {
  }

  /** A part replaced by one of the same length. */
  lemma {:induction false} PatchPart(front: seq<Byte>, part: seq<Byte>, back: seq<Byte>, bytes: seq<Byte>)
    requires |bytes| == |part|
    ensures Patch(front + part + back, |front|, bytes) == front + bytes + back
  {
  }

  /** memcpy from a buffer of its own. */
  method PutBytes(buffer: array<Byte>, at: nat, bytes: seq<Byte>)
    requires at + |bytes| <= buffer.Length
    modifies buffer
    ensures buffer[..] == Patch(old(buffer[..]), at, bytes)
  {
    hide Patch;
    ghost var was := buffer[..];
    forall i | 0 <= i < |bytes| {
      buffer[at + i] := bytes[i];
    }
    assert forall i :: at <= i < at + |bytes| ==> buffer[i] == bytes[i - at];
    IsPatch(was, buffer[..], at, bytes);
  }

  /** memmove: the regions may overlap, so the copy runs away from the bytes still to be read. */
  method MoveBytes(buffer: array<Byte>, to: nat, from: nat, n: nat)
    requires to + n <= buffer.Length && from + n <= buffer.Length
    modifies buffer
    ensures buffer[..] == Patch(old(buffer[..]), to, old(buffer[..])[from..from + n])
  {
    hide Patch;
    ghost var was := buffer[..];
    ghost var moved := was[from..from + n];
    if to <= from {
      for k := 0 to n
        invariant forall i :: to <= i < to + k ==> buffer[i] == moved[i - to]
        invariant forall i :: 0 <= i < buffer.Length && !(to <= i < to + k) ==> buffer[i] == was[i]
      {
        buffer[to + k] := buffer[from + k];
      }
    } else {
      for k := n downto 0
        invariant forall i :: to + k <= i < to + n ==> buffer[i] == moved[i - to]
        invariant forall i :: 0 <= i < buffer.Length && !(to + k <= i < to + n) ==> buffer[i] == was[i]
      {
        buffer[to + k] := buffer[from + k];
      }
    }
    IsPatch(was, buffer[..], to, moved);
  }

  method PutZeros(buffer: array<Byte>, at: nat, n: nat)
    requires at + n <= buffer.Length
    modifies buffer
    ensures buffer[..] == Patch(old(buffer[..]), at, Repeat(0, n))
  {
    hide Patch;
    ghost var was := buffer[..];
    for k := 0 to n
      invariant forall i :: at <= i < at + k ==> buffer[i] == 0
      invariant forall i :: 0 <= i < buffer.Length && !(at <= i < at + k) ==> buffer[i] == was[i]
    {
      buffer[at + k] := 0;
    }
    IsPatch(was, buffer[..], at, Repeat(0, n));
  }

  /** "Calculate total size required for all extensions". */
  method ElementsSize(k: Kind, es: seq<Extension>) returns (total: nat)
    requires Sized(es)
    ensures total == |Elements(k, es)|
  {
    total := 0;
    assert es[..|es|] == es;
    for i := 0 to |es|
      invariant total == |Elements(k, es[..i])|
    {
      assert es[..i + 1] == es[..i] + [es[i]];
      ElementsSnoc(k, es[..i], es[i]);
      if Usable(k, es[i]) {
        total := total + (if k == OneByte then 1 else 2) + |es[i].value|;
      }
    }
  }

  lemma {:induction false} PrefixFits(k: Kind, es: seq<Extension>, i: nat)
    requires Sized(es) && i < |es|
    ensures Elements(k, es[..i + 1]) == Elements(k, es[..i]) + (if Usable(k, es[i]) then ElementBytes(k, es[i]) else [])
    ensures |Elements(k, es[..i + 1])| <= |Elements(k, es)|
    ensures Placed(k, es[..i + 1], 0, map[]) ==
            var m := Placed(k, es[..i], 0, map[]);
            if Usable(k, es[i]) then m[es[i].id := |Elements(k, es[..i])|] else m
    decreases |es| - i
  {
    assert es[..i + 1] == es[..i] + [es[i]];
    ElementsSnoc(k, es[..i], es[i]);
    PlacedSnoc(k, es[..i], es[i], 0, map[]);
    if i + 1 < |es| {
      PrefixFits(k, es, i + 1);
    } else {
      assert es[..i + 1] == es;
    }
  }

  /** "Write the new extensions into the header extension value", noting where each one starts. */
  method WriteElements(buffer: array<Byte>, start: nat, k: Kind, es: seq<Extension>) returns (ptr: nat, m: Places)
    requires Sized(es) && start + |Elements(k, es)| <= buffer.Length
    modifies buffer
    ensures ptr == start + |Elements(k, es)| && buffer[..] == Patch(old(buffer[..]), start, Elements(k, es))
    ensures m == Placed(k, es, 0, map[])
  {
    hide Usable, ElementBytes, Elements, Placed, Patch;
    ptr, m := start, map[];
    ghost var was := buffer[..];
    NoElements(k);
    NonePlaced(k);
    PatchNothing(was, start);
    for i := 0 to |es|
      invariant ptr == start + |Elements(k, es[..i])| <= buffer.Length
      invariant buffer[..] == Patch(was, start, Elements(k, es[..i]))
      invariant m == Placed(k, es[..i], 0, map[])
    {
      PrefixFits(k, es, i);
      assert Elements(k, es[..i]) + [] == Elements(k, es[..i]);
      if Usable(k, es[i]) {
        var bytes := ElementBytes(k, es[i]);
        PutBytes(buffer, ptr, bytes);
        PatchTwice(was, start, Elements(k, es[..i]), bytes);
        m := m[es[i].id := ptr - start];
        ptr := ptr + |bytes|;
      }
    }
    assert es[..|es|] == es;
  }

  lemma {:induction false} PatchNothing(s: seq<Byte>, at: nat)
    requires at <= |s|
    ensures Patch(s, at, []) == s
  {
  }

  lemma {:induction false} PatchTwice(s: seq<Byte>, at: nat, a: seq<Byte>, b: seq<Byte>)
    requires at + |a| + |b| <= |s|
    ensures Patch(Patch(s, at, a), at + |a|, b) == Patch(s, at, a + b)
  {
  }

  lemma {:induction false} NonePlaced(k: Kind)
    ensures Placed(k, [], 0, map[]) == map[]
  {
  }

  // ----- the loops of ParseExtensions

  /** "Counting padding bytes". */
  method CountPadding(v: seq<Byte>, at: nat) returns (ptr: nat)
    requires at <= |v|
    ensures ptr == SkipZeros(v, at)
  {
    ptr := at;
    while ptr < |v| && v[ptr] == 0
      invariant at <= ptr <= |v| && SkipZeros(v, ptr) == SkipZeros(v, at)
    {
      ptr := ptr + 1;
    }
  }

  method ScanOneByte(v: seq<Byte>) returns (m: Places)
    ensures m == Scan(OneByte, v, 0, map[])
  {
    hide SkipZeros;
    m := map[];
    var ptr := 0;
    while ptr < |v|
      invariant ptr <= |v| && Scan(OneByte, v, ptr, m) == Scan(OneByte, v, 0, map[])
    {
      var id, len := v[ptr] / 16, v[ptr] % 16 + 1;
      // id=15 in One-Byte extensions means "stop parsing here".
      if id == 15 {
        return;
      }
      if id != 0 {
        if ptr + 1 + len > |v| {
          return;
        }
        m := m[id := ptr];
        ptr := CountPadding(v, ptr + 1 + len);
      } else {
        // id=0 means alignment.
        ptr := CountPadding(v, ptr + 1);
      }
    }
  }

  method ScanTwoBytes(v: seq<Byte>) returns (m: Places)
    ensures m == Scan(TwoBytes, v, 0, map[])
  {
    hide SkipZeros;
    m := map[];
    var ptr := 0;
    while ptr + 1 < |v|
      invariant ptr <= |v| && Scan(TwoBytes, v, ptr, m) == Scan(TwoBytes, v, 0, map[])
    {
      var id, len := v[ptr], v[ptr + 1];
      if id != 0 {
        if ptr + 2 + len > |v| {
          return;
        }
        m := m[id := ptr];
        ptr := CountPadding(v, ptr + 2 + len);
      } else {
        ptr := CountPadding(v, ptr + 1);
      }
    }
  }

  // ----- moving parts of a packet about

  /** Two bytes put in front of a part, over the bytes behind it. */
  lemma {:induction false} PrependPatch(front: seq<Byte>, body: seq<Byte>, slack: seq<Byte>, word: seq<Byte>)
    requires |word| == 2 <= |slack|
    ensures var s := front + body + slack;
            Patch(Patch(s, |front| + 2, s[|front|..|front| + |body|]), |front|, word) ==
            front + (word + body) + slack[2..]
  {
    var s := front + body + slack;
    assert s[|front|..|front| + |body|] == body;
    var moved := Patch(s, |front| + 2, body);
    assert moved == front + (body + slack)[..2] + (body + slack[2..]);
  }

  /** The first two bytes of a part taken away. */
  lemma {:induction false} RemovePatch(front: seq<Byte>, body: seq<Byte>, slack: seq<Byte>)
    requires |body| >= 2
    ensures var s, n := front + body + slack, |front| + |body|;
            Patch(s, |front|, s[|front| + 2..n]) == front + body[2..] + (body[|body| - 2..] + slack)
  {
    var s := front + body + slack;
    assert s[|front| + 2..|front| + |body|] == body[2..];
  }

  /** A part moved up over the bytes behind it. */
  lemma {:induction false} OpenPatch(front: seq<Byte>, tail: seq<Byte>, slack: seq<Byte>, shift: nat)
    requires shift <= |slack|
    ensures var s, n := front + tail + slack, |front| + |tail|;
            Patch(s, |front| + shift, s[|front|..n]) == front + (tail + slack)[..shift] + tail + slack[shift..]
  {
    var s, both := front + tail + slack, tail + slack;
    assert s[|front|..|front| + |tail|] == tail;
    assert both == both[..shift] + both[shift..shift + |tail|] + both[shift + |tail|..];
    assert both[shift + |tail|..] == slack[shift..];
    assert s == (front + both[..shift]) + both[shift..shift + |tail|] + slack[shift..];
    PatchPart(front + both[..shift], both[shift..shift + |tail|], slack[shift..], tail);
    hide Patch;
  }

  /** A part moved down over the bytes in front of it. */
  lemma {:induction false} ClosePatch(front: seq<Byte>, gap: seq<Byte>, tail: seq<Byte>, slack: seq<Byte>)
    ensures var s, n := front + gap + tail + slack, |front| + |gap| + |tail|;
            Patch(s, |front|, s[|front| + |gap|..n]) == front + tail + ((gap + tail)[|tail|..] + slack)
  {
    var s := front + gap + tail + slack;
    assert s[|front| + |gap|..|front| + |gap| + |tail|] == tail;
    assert s == front + ((gap + tail)[..|tail|] + (gap + tail)[|tail|..]) + slack;
  }

  /** A header that differs just where Rehead puts something else. */
  lemma {:induction false} ReheadOf(was: seq<Byte>, now: seq<Byte>, pt: nat, n: Word, ssrc: seq<Byte>)
    requires |now| == |was| >= HEADER_SIZE && pt < 0x80 && |ssrc| == 4
    requires now[0] == was[0] && now[1] == was[1] / 0x80 * 0x80 + pt && now[2..4] == PutWord(n) && now[8..12] == ssrc
    requires forall i :: 4 <= i < |was| && !(8 <= i < 12) ==> now[i] == was[i]
    ensures now == Rehead(was, pt, n, ssrc, true)
  {
    hide PutWord;
    assert now[4..8] == was[4..8] && now[12..] == was[12..];
    assert now == [now[0]] + [now[1]] + now[2..4] + now[4..8] + now[8..12] + now[12..];
  }

  lemma {:induction false} ReheadAppend(head: seq<Byte>, rest: seq<Byte>, pt: nat, n: Word, ssrc: seq<Byte>)
    requires HEADER_SIZE <= |head| && pt < 0x80 && |ssrc| == 4
    ensures Rehead(head + rest, pt, n, ssrc, true) == Rehead(head, pt, n, ssrc, true) + rest
  {
    hide PutWord;
  }

  lemma {:induction false} WellFormedHead(r: Rtp)
    requires WellFormed(r)
    ensures |r.head| >= HEADER_SIZE
  {
  }

  lemma {:induction false} FoundFit(k: Kind, v: seq<Byte>)
    ensures PlacesOk(k, v, Scan(k, v, 0, map[]))
  {
    ScanPlacesOk(k, v, 0, map[]);
  }

  lemma {:induction false} ExpandedSize(payload: seq<Byte>, offset: nat, gap: seq<Byte>)
    requires offset <= |payload|
    ensures |Expanded(payload, offset, gap)| == |payload| + |gap|
  {
  }

  lemma {:induction false} ContractedSize(payload: seq<Byte>, offset: nat, shift: nat)
    requires offset + shift <= |payload|
    ensures |Contracted(payload, offset, shift)| == |payload| - shift
  {
  }

  lemma {:induction false} SamePayloadless(r: Rtp, x: Rtp)
    requires WellFormed(r) && x.head == r.head && x.extension == r.extension && x.padding == r.padding
    ensures WellFormed(x)
  {
    hide HasBit;
  }

  /** The padding byte count at the end of the packet, if the padding flag is set. */
  method ReadPadding(
      data: array<Byte>, len: nat, ptr: nat, flagged: bool, ghost head: seq<Byte>, ghost x: Option<(Word, seq<Byte>)>)
    returns (ok: bool, payloadLength: nat, payloadPadding: Byte)
    requires ptr <= len <= data.Length && |head| >= HEADER_SIZE && flagged == HasBit(head[0], PADDING_BIT)
    ensures ok <==> ParsePadding(head, x, data[ptr..len]).Some?
    ensures ok ==>
              var r := ParsePadding(head, x, data[ptr..len]).value;
              |r.payload| == payloadLength && |r.padding| == payloadPadding
  {
    hide HasBit;
    ok, payloadLength, payloadPadding := true, len - ptr, 0;
    if flagged {
      // Must be at least a single payload byte.
      if payloadLength == 0 {
        return false, 0, 0;
      }
      payloadPadding := data[len - 1];
      assert data[ptr..len][|data[ptr..len]| - 1] == data[len - 1];
      if payloadPadding == 0 || payloadLength < payloadPadding {
        return false, 0, 0;
      }
      payloadLength := payloadLength - payloadPadding;
    }
  }

  // ----- the object

  class RtpPacket {
    const buffer: array<Byte>
    /** Where the header extension starts, if there is one. */
    var headerExtension: Option<nat>
    var payload: nat
    var payloadLength: nat
    var payloadPadding: Byte
    var size: nat
    var oneByteExtensions: Places
    var mapTwoBytesExtensions: Places
    /** The packet the buffer holds. */
    ghost var value: Rtp

    /** The fields point where the packet's parts are. */
    ghost predicate Laid()
      reads this, buffer
    {
      && size <= buffer.Length && buffer[..size] == PacketBytes(value)
      && headerExtension == (if value.extension.None? then None else Some(|value.head|))
      && payload == PayloadStart(value)
      && payloadLength == |value.payload| && payloadPadding == |value.padding|
    }

    /** The elements known are those parsing the header extension finds. */
    ghost predicate Indexed()
      reads this
    {
      value.extension.Some? ==>
        var (id, v) := value.extension.value;
        && (KindOf(id) == Some(OneByte) ==> oneByteExtensions == Scan(OneByte, v, 0, map[]))
        && (KindOf(id) == Some(TwoBytes) ==> mapTwoBytesExtensions == Scan(TwoBytes, v, 0, map[]))
    }

    ghost predicate Valid()
      reads this, buffer
    {
      WellFormed(value) && Laid() && Indexed()
    }

    /** A valid object is what parsing its own bytes gives. */
    lemma {:induction false} Reparses()
      requires Valid()
      ensures ParseRtp(buffer[..size]) == Some(value)
    {
      ParseOfBytes(value);
    }

    constructor FromParts(
        buffer: array<Byte>, headerExtension: Option<nat>, payload: nat, payloadLength: nat, payloadPadding: Byte,
        size: nat, ghost r: Rtp)
      requires WellFormed(r) && size <= buffer.Length && buffer[..size] == PacketBytes(r)
      requires headerExtension == (if r.extension.None? then None else Some(|r.head|))
      requires payload == PayloadStart(r) && payloadLength == |r.payload| && payloadPadding == |r.padding|
      ensures Valid() && value == r && this.buffer == buffer && this.size == size
    {
      this.buffer := buffer;
      this.headerExtension := headerExtension;
      this.payload, this.payloadLength, this.payloadPadding, this.size := payload, payloadLength, payloadPadding, size;
      oneByteExtensions, mapTwoBytesExtensions := map[], map[];
      value := r;
      new;
      ParseExtensions();
    }

    /** null where the source returns nullptr. */
    static method Parse(data: array<Byte>, len: nat) returns (packet: RtpPacket?)
      requires len <= data.Length
      ensures packet != null <==> ParseRtp(data[..len]).Some?
      ensures packet != null ==>
                fresh(packet) && packet.buffer == data && packet.size == len
                && packet.Valid() && packet.value == ParseRtp(data[..len]).value
    {
      hide PacketBytes, WellFormed, ExtensionBytes, HasBit, WordAt, ParsePadding;
      packet := null;
      ghost var all := data[..len];
      if len < HEADER_SIZE || !(127 < data[0] < 192) || data[0] / 64 != 2 {
        return;
      }
      assert all[0] == data[0];
      var ptr := HEADER_SIZE;
      // Check CSRC list.
      var csrcCount := data[0] % 16;
      if csrcCount != 0 {
        // Packet size must be >= header size + CSRC list.
        if len < ptr + csrcCount * 4 {
          return;
        }
        ptr := ptr + csrcCount * 4;
      }
      ghost var at := ptr;
      assert at == HEADER_SIZE + 4 * (all[0] % 16);
      // Check header extension.
      var headerExtension: Option<nat> := None;
      if HasBit(data[0], EXTENSION_BIT) {
        // The header extension is at least 4 bytes.
        if len < ptr + 4 {
          return;
        }
        headerExtension := Some(ptr);
        var extensionValueSize := WordAt(data[..len], ptr + 2) * 4;
        // Packet size must be >= header size + CSRC list + header extension size.
        if len < ptr + 4 + extensionValueSize {
          return;
        }
        ptr := ptr + 4 + extensionValueSize;
      }
      ghost var x := if headerExtension.None? then None else Some((WordAt(all, at), all[at + 4..ptr]));
      assert ParseRtp(all) == ParsePadding(all[..at], x, all[ptr..]);
      // Get payload.
      assert data[ptr..len] == all[ptr..];
      var ok, payloadLength, payloadPadding := ReadPadding(data, len, ptr, HasBit(data[0], PADDING_BIT), all[..at], x);
      if !ok {
        return;
      }
      BytesOfParse(all);
      ParsedPadding(all[..at], x, all[ptr..]);
      ghost var r := ParseRtp(all).value;
      assert PayloadStart(r) == ptr by { StartOfPayload(r, all, at, ptr); }
      packet := new RtpPacket.FromParts(data, headerExtension, ptr, payloadLength, payloadPadding, len, r);
    }

    function GetHeaderExtensionId(): (id: Word)
      requires WellFormed(value) && Laid()
      reads this, buffer
      ensures value.extension.Some? ==> id == value.extension.value.0
    {
      if headerExtension.None? then 0
      else
        ExtensionInPlace(value);
        WordAt(buffer[..size], headerExtension.value)
    }

    function ExtensionValue(): (v: seq<Byte>)
      requires WellFormed(value) && Laid() && headerExtension.Some?
      reads this, buffer
      ensures v == value.extension.value.1
    {
      ExtensionInPlace(value);
      buffer[..size][headerExtension.value + 4..payload]
    }

    method ParseExtensions()
      requires WellFormed(value) && Laid()
      modifies `oneByteExtensions, `mapTwoBytesExtensions
      ensures Valid()
    {
      hide Scan, PacketBytes, WellFormed, KindOf;
      if headerExtension.None? {
        return;
      }
      var id, v := GetHeaderExtensionId(), ExtensionValue();
      if KindOf(id) == Some(OneByte) {
        oneByteExtensions := ScanOneByte(v);
      } else if KindOf(id) == Some(TwoBytes) {
        mapTwoBytesExtensions := ScanTwoBytes(v);
      }
    }

    /** GetExtension; None where the source returns nullptr. */
    method GetExtension(id: Byte) returns (extenValue: Option<seq<Byte>>)
      requires Valid()
      ensures value.extension.None? ==> extenValue == None
      ensures value.extension.Some? ==>
                var (xid, v) := value.extension.value;
                match KindOf(xid)
                case None => extenValue == None
                case Some(k) =>
                  var m := Scan(k, v, 0, map[]);
                  PlacesOk(k, v, m) && extenValue == Lookup(k, v, m, id)
    {
      hide Scan, PlacesOk, Lookup, PacketBytes, WellFormed;
      if headerExtension.None? {
        return None;
      }
      var xid, v := GetHeaderExtensionId(), ExtensionValue();
      FoundFit(OneByte, v);
      FoundFit(TwoBytes, v);
      if KindOf(xid) == Some(OneByte) {
        extenValue := Lookup(OneByte, v, oneByteExtensions, id);
      } else if KindOf(xid) == Some(TwoBytes) {
        extenValue := Lookup(TwoBytes, v, mapTwoBytesExtensions, id);
      } else {
        extenValue := None;
      }
    }

    // ----- RTX

    /** The buffer, cut into the parts of a packet and the bytes behind it. */
    ghost predicate Parts(head: seq<Byte>, extension: seq<Byte>, body: seq<Byte>, slack: seq<Byte>)
      reads buffer
    {
      buffer[..] == head + extension + body + slack
    }

    lemma {:induction false} ValidParts() returns (spare: seq<Byte>)
      requires Valid()
      ensures Parts(value.head, ExtensionBytes(value.extension), value.payload, value.padding + spare)
      ensures size == PayloadStart(value) + |value.payload| + |value.padding| && |spare| == buffer.Length - size
      ensures |value.head| >= HEADER_SIZE
    {
      hide ExtensionBytes, Scan, HasBit;
      PartsInPlace(value);
      spare := buffer[size..];
      assert buffer[..] == buffer[..size] + spare;
    }

    /** The fields of an object whose parts are in place. */
    lemma {:induction false} SettledIsValid(spare: seq<Byte>)
      requires WellFormed(value) && Indexed()
      requires Parts(value.head, ExtensionBytes(value.extension), value.payload, value.padding + spare)
      requires size == PayloadStart(value) + |value.payload| + |value.padding| && payload == PayloadStart(value)
      requires payloadLength == |value.payload| && payloadPadding == |value.padding|
      requires headerExtension == (if value.extension.None? then None else Some(|value.head|))
      ensures Valid()
    {
      hide Indexed, WellFormed, ExtensionBytes;
      var whole := PacketBytes(value) + spare;
      assert buffer[..] == whole;
      assert size <= buffer.Length && buffer[..size] == buffer[..][..size] == PacketBytes(value);
    }

    // ----- RTX

    /** SetPayloadType, SetSequenceNumber and SetSsrc. */
    method Rewrite(payloadType: nat, seqNumber: Word, ssrc: seq<Byte>)
      requires buffer.Length >= HEADER_SIZE && payloadType < 0x80 && |ssrc| == 4
      modifies buffer
      ensures buffer[..] == Rehead(old(buffer[..]), payloadType, seqNumber, ssrc, true)
    {
      hide PutWord, Rehead;
      ghost var was := buffer[..];
      buffer[1] := buffer[1] / 0x80 * 0x80 + payloadType;
      PutBytes(buffer, 2, PutWord(seqNumber));
      ghost var word := buffer[..];
      assert word[2..4] == PutWord(seqNumber);
      PutBytes(buffer, 8, ssrc);
      assert buffer[..][2..4] == word[2..4];
      ReheadOf(was, buffer[..], payloadType, seqNumber, ssrc);
    }

    /** SetPayloadPaddingFlag(false). */
    method ClearPaddingFlag()
      requires buffer.Length > 0
      modifies buffer
      ensures buffer[..] == [WithBit(old(buffer[0]), PADDING_BIT, false)] + old(buffer[..])[1..]
    {
      hide WithBit;
      buffer[0] := WithBit(buffer[0], PADDING_BIT, false);
    }

    /** Payload type, SSRC, sequence number, and the padding flag if there was padding. */
    method RewriteHead(
        ghost head: seq<Byte>, ghost extension: seq<Byte>, ghost body: seq<Byte>, ghost slack: seq<Byte>,
        payloadType: nat, seqNumber: Word, ssrc: seq<Byte>)
      requires Parts(head, extension, body, slack) && |head| >= HEADER_SIZE && payloadType < 0x80 && |ssrc| == 4
      modifies buffer
      ensures Parts(Rehead(head, payloadType, seqNumber, ssrc, payloadPadding == 0), extension, body, slack)
    {
      hide Rehead, WithBit;
      ghost var rest := extension + body + slack;
      assert buffer[..] == head + rest;
      Rewrite(payloadType, seqNumber, ssrc);
      ReheadAppend(head, rest, payloadType, seqNumber, ssrc);
      ReheadDropsFlag(head, payloadType, seqNumber, ssrc);
      ghost var h := Rehead(head, payloadType, seqNumber, ssrc, true);
      assert buffer[0] == buffer[..][0] == h[0];
      if payloadPadding != 0 {
        ClearPaddingFlag();
        assert buffer[..] == ([WithBit(head[0], PADDING_BIT, false)] + h[1..]) + rest;
      }
    }

    /** The original sequence number goes in front of the payload. */
    method PrependOriginal(
        ghost head: seq<Byte>, ghost extension: seq<Byte>, ghost body: seq<Byte>, ghost slack: seq<Byte>,
        original: Word)
      requires Parts(head, extension, body, slack) && |slack| >= 2
      requires payload == |head| + |extension| && payloadLength == |body|
      modifies buffer
      ensures Parts(head, extension, PutWord(original) + body, slack[2..])
    {
      hide PutWord, Patch;
      PrependPatch(head + extension, body, slack, PutWord(original));
      MoveBytes(buffer, payload + 2, payload, payloadLength);
      PutBytes(buffer, payload, PutWord(original));
    }

    /** The two bytes of the original sequence number are taken off the front of the payload. */
    method RemoveOriginal(
        ghost head: seq<Byte>, ghost extension: seq<Byte>, ghost body: seq<Byte>, ghost slack: seq<Byte>)
      requires Parts(head, extension, body, slack) && |body| >= 2
      requires payload == |head| + |extension| && payloadLength == |body|
      modifies buffer
      ensures Parts(head, extension, body[2..], body[|body| - 2..] + slack)
    {
      hide Patch;
      RemovePatch(head + extension, body, slack);
      MoveBytes(buffer, payload, payload + 2, payloadLength - 2);
    }

    /** Get2Bytes somewhere in a part of the packet. */
    method GetWord(at: nat, ghost front: seq<Byte>, ghost part: seq<Byte>, ghost back: seq<Byte>) returns (w: Word)
      requires buffer[..] == front + part + back && |front| <= at && at + 2 <= |front| + |part|
      ensures w == WordAt(part, at - |front|)
    {
      var high: int := buffer[at];
      w := 0x100 * high + buffer[at + 1];
      assert buffer[at] == buffer[..][at] && buffer[at + 1] == buffer[..][at + 1];
    }

    method RtxEncode(payloadType: Byte, ssrc: seq<Byte>, seqNumber: Word)
      requires Valid() && |ssrc| == 4
      requires payload + payloadLength + 2 <= buffer.Length
      modifies this, buffer
      ensures Valid() && value == RtxEncoded(old(value), payloadType % 0x80, ssrc, seqNumber)
    {
      ghost var spare := ValidParts();
      hide PutWord, WordAt, Rehead, ExtensionBytes, WithBit, Scan, PacketBytes, WellFormed;
      ghost var r := value;
      var pt := payloadType % 0x80;
      ghost var x := RtxEncoded(r, pt, ssrc, seqNumber);
      ghost var extension, slack := ExtensionBytes(r.extension), r.padding + spare;
      assert buffer[..] == [] + r.head + (extension + r.payload + slack);
      var original := GetWord(2, [], r.head, extension + r.payload + slack);
      hide Parts;
      // Write the original sequence number at the begining of the payload.
      PrependOriginal(r.head, extension, r.payload, slack, original);
      RewriteHead(r.head, extension, x.payload, slack[2..], pt, seqNumber, ssrc);
      payloadLength := payloadLength + 2;
      // Fix the packet size and remove padding if present.
      size := size + 2;
      if payloadPadding != 0 {
        size := size - payloadPadding;
        payloadPadding := 0;
      }
      ReheadWellFormed(r, pt, seqNumber, ssrc, x.payload);
      value := x;
      assert [] + slack[2..] == slack[2..];
      SettledIsValid(slack[2..]);
    }

    method RtxDecode(payloadType: Byte, ssrc: seq<Byte>) returns (ok: bool)
      requires Valid() && |ssrc| == 4
      modifies this, buffer
      ensures Valid() && (ok <==> |old(value).payload| >= 2)
      ensures ok ==> RtxDecoded(old(value), payloadType % 0x80, ssrc) == Some(value)
      ensures !ok ==> value == old(value) && buffer[..] == old(buffer[..])
    {
      // Chrome sends some RTX packets with no payload when the stream is started. Just ignore them.
      if payloadLength < 2 {
        return false;
      }
      ghost var spare := ValidParts();
      hide PutWord, WordAt, Rehead, ExtensionBytes, WithBit, Scan, PacketBytes, WellFormed;
      ghost var r := value;
      var pt := payloadType % 0x80;
      ghost var x := RtxDecoded(r, pt, ssrc).value;
      ghost var extension, slack := ExtensionBytes(r.extension), r.padding + spare;
      assert buffer[..] == (r.head + extension) + r.payload + slack;
      var original := GetWord(payload, r.head + extension, r.payload, slack);
      hide Parts;
      // Shift the payload to its original place.
      RemoveOriginal(r.head, extension, r.payload, slack);
      ghost var left := r.payload[|r.payload| - 2..] + slack;
      RewriteHead(r.head, extension, x.payload, left, pt, original, ssrc);
      payloadLength := payloadLength - 2;
      // Fix the packet size and remove padding if present.
      size := size - 2;
      if payloadPadding != 0 {
        size := size - payloadPadding;
        payloadPadding := 0;
      }
      ReheadWellFormed(r, pt, original, ssrc, x.payload);
      value := x;
      assert [] + left == left;
      SettledIsValid(left);
      ok := true;
    }

    // ----- shifting the payload

    method MoveUp(
        ghost head: seq<Byte>, ghost extension: seq<Byte>, ghost body: seq<Byte>, ghost padding: seq<Byte>,
        ghost spare: seq<Byte>, payloadOffset: nat, shift: nat)
      returns (ghost gap: seq<Byte>)
      requires Parts(head, extension, body, padding + spare) && payloadOffset <= |body| && shift <= |spare|
      requires payload == |head| + |extension| && payloadLength == |body| && payloadPadding == |padding|
      modifies buffer
      ensures |gap| == shift && Parts(head, extension, Expanded(body, payloadOffset, gap), padding + spare[shift..])
      ensures payload + payloadOffset + shift <= buffer.Length
      ensures buffer[..][payload + payloadOffset..payload + payloadOffset + shift] == gap
    {
      hide Expanded, Patch;
      gap := ExpandBytes(head, extension, body, padding, spare, payloadOffset, shift);
      MoveBytes(buffer, payload + payloadOffset + shift, payload + payloadOffset,
                payloadLength + payloadPadding - payloadOffset);
    }

    method MoveDown(
        ghost head: seq<Byte>, ghost extension: seq<Byte>, ghost body: seq<Byte>, ghost padding: seq<Byte>,
        ghost spare: seq<Byte>, payloadOffset: nat, shift: nat)
      returns (ghost left: seq<Byte>)
      requires Parts(head, extension, body, padding + spare) && payloadOffset + shift <= |body|
      requires payload == |head| + |extension| && payloadLength == |body| && payloadPadding == |padding|
      modifies buffer
      ensures Parts(head, extension, Contracted(body, payloadOffset, shift), padding + left)
    {
      hide Contracted, Patch;
      left := ContractBytes(head, extension, body, padding, spare, payloadOffset, shift);
      MoveBytes(buffer, payload + payloadOffset, payload + payloadOffset + shift,
                payloadLength + payloadPadding - payloadOffset - shift);
    }

    method ExpandPayload(payloadOffset: nat, shift: nat)
      requires Valid() && payloadOffset <= payloadLength && size + shift <= buffer.Length
      modifies this, buffer
      ensures Valid() && payload == old(payload) && payload + payloadOffset + shift <= buffer.Length
      ensures var gap := buffer[..][payload + payloadOffset..payload + payloadOffset + shift];
              value == old(value).(payload := Expanded(old(value).payload, payloadOffset, gap))
    {
      ghost var spare := ValidParts();
      hide ExtensionBytes, Scan, PacketBytes, WellFormed, Expanded, Patch;
      ghost var r := value;
      hide Parts;
      ghost var gap := MoveUp(r.head, ExtensionBytes(r.extension), r.payload, r.padding, spare, payloadOffset, shift);
      ExpandedSize(r.payload, payloadOffset, gap);
      SamePayloadless(r, r.(payload := Expanded(r.payload, payloadOffset, gap)));
      payloadLength := payloadLength + shift;
      size := size + shift;
      value := r.(payload := Expanded(r.payload, payloadOffset, gap));
      SettledIsValid(spare[shift..]);
    }

    method ContractPayload(payloadOffset: nat, shift: nat)
      requires Valid() && payloadOffset + shift <= payloadLength
      modifies this, buffer
      ensures Valid() && value == old(value).(payload := Contracted(old(value).payload, payloadOffset, shift))
    {
      ghost var spare := ValidParts();
      hide ExtensionBytes, Scan, PacketBytes, WellFormed, Contracted, Patch;
      ghost var r := value;
      hide Parts;
      ghost var left := MoveDown(r.head, ExtensionBytes(r.extension), r.payload, r.padding, spare, payloadOffset,
                                 shift);
      ContractedSize(r.payload, payloadOffset, shift);
      SamePayloadless(r, r.(payload := Contracted(r.payload, payloadOffset, shift)));
      payloadLength := payloadLength - shift;
      size := size - shift;
      value := r.(payload := Contracted(r.payload, payloadOffset, shift));
      SettledIsValid(left);
    }

    /** What stands in the gap after expanding is left to the caller. */
    method ShiftPayload(payloadOffset: nat, shift: nat, expand: bool)
      requires Valid()
      requires shift > 0 ==> payloadOffset < payloadLength
      requires shift > 0 && expand ==> size + shift <= buffer.Length
      requires shift > 0 && !expand ==> shift <= payloadLength - payloadOffset
      modifies this, buffer
      ensures Valid() && (shift == 0 ==> value == old(value))
      ensures shift > 0 && expand ==>
                && payload == old(payload) && payload + payloadOffset + shift <= buffer.Length
                && var gap := buffer[..][payload + payloadOffset..payload + payloadOffset + shift];
                   value == old(value).(payload := Expanded(old(value).payload, payloadOffset, gap))
      ensures shift > 0 && !expand ==>
                value == old(value).(payload := Contracted(old(value).payload, payloadOffset, shift))
    {
      hide Valid;
      if shift == 0 {
        return;
      }
      if expand {
        ExpandPayload(payloadOffset, shift);
      } else {
        ContractPayload(payloadOffset, shift);
      }
    }

    // ----- rewriting the extensions

    /** Room of the right size between the first four bytes of the header extension and the payload. */
    ghost predicate Roomy(head: seq<Byte>, id: Word, room: seq<Byte>, tail: seq<Byte>, slack: seq<Byte>)
      reads buffer
    {
      buffer[..] == head + PutWord(id) + PutWord(Cut16(|room| / 4)) + room + tail + slack
    }

    /** A header extension that is there gets the id of the kind asked for, and another length. */
    method ResizeExtension(
        k: Kind, total: nat, ghost head: seq<Byte>, ghost oldId: Word, ghost v: seq<Byte>, ghost tail: seq<Byte>,
        ghost spare: seq<Byte>)
      returns (ghost room: seq<Byte>, ghost slack: seq<Byte>)
      requires Roomy(head, oldId, v, tail, spare)
      requires headerExtension == Some(|head|) && payload == |head| + 4 + |v|
      requires |tail| == payloadLength + payloadPadding
      requires size == payload + |tail| && -0x8000 <= total - |v| < 0x8000 && total - |v| <= |spare|
      modifies buffer, `payload, `size
      ensures Roomy(head, ExtensionId(k, Some((oldId, v))), room, tail, slack) && |room| == total
      ensures payload == |head| + 4 + total && size == payload + |tail|
    {
      hide PutWord, Cut16, Patch, SignedWord, ExtensionId;
      var at := headerExtension.value;
      var was := GetId(at, head, oldId, PutWord(Cut16(|v| / 4)) + v + tail + spare);
      SameExtensionId(k, oldId, v);
      // If there is header extension of non matching type, modify its id.
      PutBytes(buffer, at, PutWord(ExtensionId(k, Some((was, [])))));
      ghost var id := ExtensionId(k, Some((oldId, v)));
      IdPatch(head, PutWord(oldId), PutWord(Cut16(|v| / 4)), v, tail, spare, PutWord(id));
      room, slack := v, spare;
      ShiftFits(total - |v|);
      var shift := SignedWord(Cut16(total - (payload - at - 4)));
      if shift != 0 {
        // Shift the payload.
        MoveBytes(buffer, payload + shift, payload, payloadLength + payloadPadding);
        room, slack := ResizedRoom(head + PutWord(id) + PutWord(Cut16(|v| / 4)), v, tail, spare, total);
        payload := payload + shift;
        size := size + shift;
        // Update the header extension length.
        PutBytes(buffer, at + 2, PutWord(Cut16(total / 4)));
        LengthPatch(head, PutWord(id), PutWord(Cut16(|v| / 4)), room, tail, slack, PutWord(Cut16(total / 4)));
      }
    }

    /** The id in the buffer. */
    method GetId(at: nat, ghost head: seq<Byte>, ghost id: Word, ghost rest: seq<Byte>) returns (w: Word)
      requires at == |head| && buffer[..] == head + PutWord(id) + rest
      ensures w == id
    {
      hide PutWord, WordAt;
      WordReadBack(id, []);
      assert PutWord(id) + [] == PutWord(id);
      w := GetWord(at, head, PutWord(id), rest);
    }

    /** The extension bit in place. */
    method SetExtensionBit(ghost head: seq<Byte>, ghost rest: seq<Byte>)
      requires buffer[..] == head + rest && |head| >= HEADER_SIZE
      modifies buffer
      ensures buffer[..] == [WithBit(head[0], EXTENSION_BIT, true)] + head[1..] + rest
    {
      hide WithBit;
      ghost var was := buffer[..];
      assert buffer[0] == was[0] == head[0];
      buffer[0] := WithBit(buffer[0], EXTENSION_BIT, true);
      assert buffer[..] == [buffer[0]] + was[1..];
    }

    /** A header extension goes between header and payload. */
    method InsertExtension(
        k: Kind, total: nat, ghost head: seq<Byte>, ghost tail: seq<Byte>, ghost spare: seq<Byte>)
      returns (ghost room: seq<Byte>, ghost slack: seq<Byte>)
      requires buffer[..] == head + (tail + spare) && |head| >= HEADER_SIZE && |tail| == payloadLength + payloadPadding
      requires headerExtension == None && payload == |head| && size == payload + |tail|
      requires total + 4 < 0x8000 && total + 4 <= |spare|
      modifies buffer, `headerExtension, `payload, `size
      ensures Roomy([WithBit(head[0], EXTENSION_BIT, true)] + head[1..], ExtensionId(k, None), room, tail, slack)
      ensures |room| == total
      ensures headerExtension == Some(|head|) && payload == |head| + 4 + total && size == payload + |tail|
    {
      hide PutWord, Cut16, Patch, SignedWord, WithBit, ExtensionId;
      // Set the header extension bit.
      SetExtensionBit(head, tail + spare);
      ghost var head' := [WithBit(head[0], EXTENSION_BIT, true)] + head[1..];
      // Set the header extension pointing to the current payload.
      headerExtension := Some(payload);
      // Shift the payload.
      ShiftFits(total);
      var shift := 4 + SignedWord(Cut16(total));
      MoveBytes(buffer, payload + shift, payload, payloadLength + payloadPadding);
      ghost var i, l;
      i, l, room, slack := InsertedRoom(head', tail, spare, total);
      var at := payload;
      payload := payload + shift;
      size := size + shift;
      // Set the header extension id and length.
      PutBytes(buffer, at, PutWord(ExtensionId(k, None)));
      IdPatch(head', i, l, room, tail, slack, PutWord(ExtensionId(k, None)));
      PutBytes(buffer, at + 2, PutWord(Cut16(total / 4)));
      LengthPatch(head', PutWord(ExtensionId(k, None)), l, room, tail, slack, PutWord(Cut16(total / 4)));
    }

    /** The elements and their padding fill the room. */
    method FillRoom(
        k: Kind, es: seq<Extension>, ghost head: seq<Byte>, ghost id: Word, ghost room: seq<Byte>,
        ghost tail: seq<Byte>,
        ghost slack: seq<Byte>)
      returns (m: Places)
      requires Sized(es) && Roomy(head, id, room, tail, slack) && |room| == |PaddedElements(k, es)|
      requires headerExtension == Some(|head|)
      modifies buffer
      ensures Roomy(head, id, PaddedElements(k, es), tail, slack) && m == Placed(k, es, 0, map[])
    {
      hide PutWord, Cut16, Patch, Elements, Placed, Padding;
      ghost var bytes, zeros := Elements(k, es), Repeat(0 as Byte, Padding(|Elements(k, es)|));
      ghost var front := head + PutWord(id) + PutWord(Cut16(|room| / 4));
      ghost var n := |bytes|;
      assert buffer[..] == front + room[..n] + (room[n..] + tail + slack) by { assert room == room[..n] + room[n..]; }
      var ptr;
      ptr, m := WriteElements(buffer, headerExtension.value + 4, k, es);
      PatchPart(front, room[..n], room[n..] + tail + slack, bytes);
      assert buffer[..] == (front + bytes) + room[n..] + (tail + slack);
      PutZeros(buffer, ptr, Padding(ptr - headerExtension.value - 4));
      PatchPart(front + bytes, room[n..], tail + slack, zeros);
    }

    /** Room for the new elements, whether the header extension grows, shrinks or is new. */
    method MakeRoom(k: Kind, total: nat, ghost r: Rtp, ghost spare: seq<Byte>)
      returns (ghost room: seq<Byte>, ghost slack: seq<Byte>)
      requires WellFormed(r) && Parts(r.head, ExtensionBytes(r.extension), r.payload, r.padding + spare)
      requires headerExtension == (if r.extension.None? then None else Some(|r.head|)) && payload == PayloadStart(r)
      requires payloadLength == |r.payload| && payloadPadding == |r.padding|
      requires size == payload + payloadLength + payloadPadding
      requires total % 4 == 0 && total + 4 < 0x8000
      requires |r.head| + 4 + total + |r.payload| + |r.padding| <= size + |spare|
      requires r.extension.Some? ==> |r.extension.value.1| - total <= 0x8000
      modifies buffer, `headerExtension, `payload, `size
      ensures Roomy([WithBit(r.head[0], EXTENSION_BIT, true)] + r.head[1..], ExtensionId(k, r.extension), room,
                    r.payload + r.padding, slack)
      ensures |room| == total && headerExtension == Some(|r.head|)
      ensures payload == |r.head| + 4 + total && size == payload + payloadLength + payloadPadding
    {
      hide PutWord, Cut16, WithBit;
      WellFormedHead(r);
      ExtensionOfPacket(r, spare);
      ghost var tail := r.payload + r.padding;
      if headerExtension.Some? {
        HeadKeepsBit(r);
        room, slack := ResizeExtension(k, total, r.head, r.extension.value.0, r.extension.value.1, tail, spare);
      } else {
        room, slack := InsertExtension(k, total, r.head, tail, spare);
      }
    }

    lemma {:induction false} RoomyParts(x: Rtp, slack: seq<Byte>)
      requires x.extension.Some?
      requires Roomy(x.head, x.extension.value.0, x.extension.value.1, x.payload + x.padding, slack)
      ensures Parts(x.head, ExtensionBytes(x.extension), x.payload, x.padding + slack)
    {
      ExtendedParts(x, slack);
      hide PutWord, Cut16;
    }

    /** Replaces the header extension by the elements of the list, in the form of the kind asked for. The sizes must fit
        the 16-bit integers the source computes them in, and the buffer. */
    method SetExtensions(k: Kind, es: seq<Extension>)
      requires Valid() && Sized(es) && |PaddedElements(k, es)| + 4 < 0x8000
      requires value.extension.Some? ==> |value.extension.value.1| - |PaddedElements(k, es)| <= 0x8000
      requires |PacketBytes(Extended(value, k, es))| <= buffer.Length
      modifies this, buffer
      ensures Valid() && value == Extended(old(value), k, es)
      ensures ParseRtp(buffer[..size]) == Some(value)
      ensures k == OneByte ==> oneByteExtensions == Placed(k, es, 0, map[]) && mapTwoBytesExtensions == map[]
      ensures k == TwoBytes ==> mapTwoBytesExtensions == Placed(k, es, 0, map[]) && oneByteExtensions == map[]
    {
      ghost var spare := ValidParts();
      ghost var r := value;
      ghost var x := Extended(r, k, es);
      ExtendedWellFormed(r, k, es);
      ExtendedFields(r, k, es);
      hide Elements, Placed, Padding, WithBit, Scan, WellFormed, PacketBytes, Parts, Roomy, Extended, ExtensionId,
        PayloadStart;
      // Calculate total size required for all extensions (with padding if needed).
      var total := ElementsSize(k, es);
      total := total + Padding(total);
      ghost var room, slack := MakeRoom(k, total, r, spare);
      var m := FillRoom(k, es, x.head, x.extension.value.0, room, r.payload + r.padding, slack);
      if k == OneByte {
        oneByteExtensions, mapTwoBytesExtensions := m, map[];
      } else {
        oneByteExtensions, mapTwoBytesExtensions := map[], m;
      }
      value := x;
      RoomyParts(x, slack);
      SettledIsValid(slack);
      Reparses();
    }
  }

  lemma {:induction false} StartOfPayload(r: Rtp, all: seq<Byte>, at: nat, ptr: nat)
    requires at <= ptr <= |all| && r.head == all[..at]
    requires r.extension.None? ==> ptr == at
    requires r.extension.Some? ==> at + 4 <= ptr && r.extension.value.1 == all[at + 4..ptr]
    ensures PayloadStart(r) == ptr
  {
  }

  lemma {:induction false} ExtendedFields(r: Rtp, k: Kind, es: seq<Extension>)
    requires WellFormed(r) && Sized(es) && |PaddedElements(k, es)| < 0x4_0000
    ensures var x := Extended(r, k, es);
            && x.head == [WithBit(r.head[0], EXTENSION_BIT, true)] + r.head[1..] && |x.head| == |r.head|
            && x.extension == Some((ExtensionId(k, r.extension), PaddedElements(k, es)))
            && x.payload == r.payload && x.padding == r.padding
            && PayloadStart(x) == |r.head| + 4 + |PaddedElements(k, es)|
            && |PacketBytes(x)| == |r.head| + 4 + |PaddedElements(k, es)| + |r.payload| + |r.padding|
            && KindOf(ExtensionId(k, r.extension)) == Some(k)
            && Scan(k, PaddedElements(k, es), 0, map[]) == Placed(k, es, 0, map[])
  {
    ExtendedReadBack(r, k, es, 0);
    ExtendedSize(r, k, es);
    hide Elements, WithBit, Scan, Placed, PacketBytes, Lookup, PlacesOk, ParseRtp;
  }

  lemma {:induction false} ExtendedSize(r: Rtp, k: Kind, es: seq<Extension>)
    requires |r.head| >= HEADER_SIZE && Sized(es)
    ensures |PacketBytes(Extended(r, k, es))| == |r.head| + 4 + |PaddedElements(k, es)| + |r.payload| + |r.padding|
    ensures |PacketBytes(r)| == PayloadStart(r) + |r.payload| + |r.padding|
    ensures PayloadStart(r) == |r.head| + (if r.extension.Some? then 4 + |r.extension.value.1| else 0)
  {
    hide Elements, WithBit;
  }

  /** With an extension the bytes of a packet are laid out as Roomy says; without one the payload follows the header. */
  lemma {:induction false} ExtensionOfPacket(r: Rtp, spare: seq<Byte>)
    ensures var whole := r.head + ExtensionBytes(r.extension) + r.payload + (r.padding + spare);
            && (r.extension.Some? ==>
                  var (id, v) := r.extension.value;
                  whole == r.head + PutWord(id) + PutWord(Cut16(|v| / 4)) + v + (r.payload + r.padding) + spare)
            && (r.extension.None? ==> whole == r.head + (r.payload + r.padding + spare))
  {
    hide PutWord, Cut16;
  }

  /** A packet that has an extension already has its bit set. */
  lemma {:induction false} HeadKeepsBit(r: Rtp)
    requires WellFormed(r) && r.extension.Some?
    ensures [WithBit(r.head[0], EXTENSION_BIT, true)] + r.head[1..] == r.head
  {
    WithBitParts(r.head[0], true);
    ByteParts(r.head[0]);
    hide WithBit;
  }

  lemma {:induction false} ExtendedParts(x: Rtp, slack: seq<Byte>)
    requires x.extension.Some?
    ensures var (id, v) := x.extension.value;
            && x.head + PutWord(id) + PutWord(Cut16(|v| / 4)) + v + (x.payload + x.padding) + slack
               == x.head + ExtensionBytes(x.extension) + x.payload + (x.padding + slack)
  {
    hide PutWord, Cut16;
  }

  lemma {:induction false} ShiftFits(d: int)
    requires -0x8000 <= d < 0x8000
    ensures SignedWord(Cut16(d)) == d
  {
  }

  /** What moving the tail of a packet to the end of a longer or shorter part leaves. */
  lemma {:induction false} ResizedRoom(front: seq<Byte>, v: seq<Byte>, tail: seq<Byte>, spare: seq<Byte>, total: nat)
    returns (room: seq<Byte>, slack: seq<Byte>)
    requires total <= |v| + |spare|
    ensures var s, p := front + v + tail + spare, |front| + |v|;
            && |room| == total && |s| == |front + room + tail + slack|
            && Patch(s, |front| + total, s[p..p + |tail|]) == front + room + tail + slack
  {
    hide Patch;
    if total >= |v| {
      var shift := total - |v|;
      OpenPatch(front + v, tail, spare, shift);
      room, slack := v + (tail + spare)[..shift], spare[shift..];
      assert front + v + (tail + spare)[..shift] == front + room;
    } else {
      var gap := v[total..];
      assert v == v[..total] + gap;
      ClosePatch(front + v[..total], gap, tail, spare);
      room, slack := v[..total], (gap + tail)[|tail|..] + spare;
      assert front + v[..total] + gap + tail + spare == front + v + tail + spare;
    }
  }

  lemma {:induction false} InsertedRoom(head: seq<Byte>, tail: seq<Byte>, spare: seq<Byte>, total: nat)
    returns (i: seq<Byte>, l: seq<Byte>, room: seq<Byte>, slack: seq<Byte>)
    requires total + 4 <= |spare|
    ensures |i| == |l| == 2 && |room| == total
    ensures var s := head + (tail + spare);
            Patch(s, |head| + 4 + total, s[|head|..|head| + |tail|]) == head + i + l + room + tail + slack
  {
    hide Patch;
    assert head + (tail + spare) == head + tail + spare;
    OpenPatch(head, tail, spare, 4 + total);
    var gap := (tail + spare)[..4 + total];
    i, l, room, slack := gap[..2], gap[2..4], gap[4..], spare[4 + total..];
    assert gap == i + l + room;
  }

  lemma {:induction false} IdPatch(
      head: seq<Byte>, i: seq<Byte>, l: seq<Byte>, v: seq<Byte>, tail: seq<Byte>, spare: seq<Byte>, id: seq<Byte>)
    requires |i| == |id|
    ensures Patch(head + i + l + v + tail + spare, |head|, id) == head + id + l + v + tail + spare
  {
    hide Patch;
    var rest := l + v + tail + spare;
    PatchPart(head, i, rest, id);
    assert head + i + l + v + tail + spare == head + i + rest;
    assert head + id + l + v + tail + spare == head + id + rest;
  }

  lemma {:induction false} LengthPatch(
      head: seq<Byte>, i: seq<Byte>, l: seq<Byte>, v: seq<Byte>, tail: seq<Byte>, spare: seq<Byte>, length: seq<Byte>)
    requires |l| == |length| && |i| == 2
    ensures Patch(head + i + l + v + tail + spare, |head| + 2, length) == head + i + length + v + tail + spare
  {
    hide Patch;
    var rest := v + tail + spare;
    PatchPart(head + i, l, rest, length);
    assert head + i + l + v + tail + spare == head + i + l + rest;
    assert head + i + length + v + tail + spare == head + i + length + rest;
  }

  lemma {:induction false} SameExtensionId(k: Kind, id: Word, v: seq<Byte>)
    ensures ExtensionId(k, Some((id, []))) == ExtensionId(k, Some((id, v)))
  {
  }

  lemma {:induction false} SliceInside(front: seq<Byte>, part: seq<Byte>, back: seq<Byte>)
    ensures (front + part + back)[|front|..|front| + |part|] == part
  {
  }

  lemma {:induction false} ExpandedAround(
      front: seq<Byte>, body: seq<Byte>, padding: seq<Byte>, spare: seq<Byte>, offset: nat, gap: seq<Byte>)
    requires offset <= |body|
    ensures front + body + (padding + spare) == front + body[..offset] + (body[offset..] + padding) + spare
    ensures front + body[..offset] + gap + (body[offset..] + padding) + spare
         == front + Expanded(body, offset, gap) + (padding + spare)
  {
    assert body == body[..offset] + body[offset..];
  }

  /** What moving the end of a payload up leaves. */
  lemma {:induction false} ExpandBytes(
      head: seq<Byte>, extension: seq<Byte>, body: seq<Byte>, padding: seq<Byte>, spare: seq<Byte>, offset: nat,
      shift: nat)
    returns (gap: seq<Byte>)
    requires offset <= |body| && shift <= |spare|
    ensures |gap| == shift
    ensures var s, at := head + extension + body + (padding + spare), |head| + |extension| + offset;
            && Patch(s, at + shift, s[at..|head| + |extension| + |body| + |padding|])
               == head + extension + Expanded(body, offset, gap) + (padding + spare[shift..])
            && (head + extension + Expanded(body, offset, gap) + (padding + spare[shift..]))[at..at + shift] == gap
  {
    hide Patch, Expanded;
    var front, tail := head + extension + body[..offset], body[offset..] + padding;
    ExpandedAround(head + extension, body, padding, spare, offset, []);
    OpenPatch(front, tail, spare, shift);
    gap := (tail + spare)[..shift];
    ExpandedAround(head + extension, body, padding, spare[shift..], offset, gap);
    SliceInside(front, gap, tail + spare[shift..]);
    assert front + gap + tail + spare[shift..] == front + gap + (tail + spare[shift..]);
  }

  lemma {:induction false} ContractBytes(
      head: seq<Byte>, extension: seq<Byte>, body: seq<Byte>, padding: seq<Byte>, spare: seq<Byte>, offset: nat,
      shift: nat)
    returns (left: seq<Byte>)
    requires offset + shift <= |body|
    ensures var s, at := head + extension + body + (padding + spare), |head| + |extension| + offset;
            && Patch(s, at, s[at + shift..|head| + |extension| + |body| + |padding|])
               == head + extension + Contracted(body, offset, shift) + (padding + left)
  {
    hide Patch;
    var front, gap := head + extension + body[..offset], body[offset..offset + shift];
    var tail := body[offset + shift..] + padding;
    assert body == body[..offset] + gap + body[offset + shift..];
    assert head + extension + body + (padding + spare) == front + gap + tail + spare;
    ClosePatch(front, gap, tail, spare);
    left := (gap + tail)[|tail|..] + spare;
    assert front + tail + left == head + extension + Contracted(body, offset, shift) + (padding + left);
  }
}
