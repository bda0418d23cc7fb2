/** packing_nack, unpacking_nack and the bitrate loop of packing_remb, on bytes. */
module NackPacket {
  import opened Bytes
  import opened Nack

  // ----- the wire format

  function ItemBytes(items: seq<Item>): (r: seq<Byte>)
    ensures |r| == NACK_ITEM_BYTES * |items|
  {
    if items == [] then []
    else ItemBytes(items[..|items| - 1]) + PutWord(items[|items| - 1].pid) + PutWord(items[|items| - 1].blp)
  }

  function HeaderBytes(length: Word, senderSsrc: seq<Byte>, mediaSsrc: seq<Byte>): seq<Byte> {
    [0x81, PT_NACK] + PutWord(length) + senderSsrc + mediaSsrc
  }

  function NackBytes(senderSsrc: seq<Byte>, mediaSsrc: seq<Byte>, ns: seq<Word>): (r: seq<Byte>)
    requires |senderSsrc| == 4 && |mediaSsrc| == 4
    ensures ITEMS_START <= |r| <= UDP_PACKET_MAX_BYTES && |r| % 4 == 0
    ensures |r| == ITEMS_START + NACK_ITEM_BYTES * |Items(ns, MAX_NACK_ITEM_NUM)|
  {
    var items := Items(ns, MAX_NACK_ITEM_NUM);
    HeaderBytes((ITEMS_START + NACK_ITEM_BYTES * |items|) / 4 - 1, senderSsrc, mediaSsrc) + ItemBytes(items)
  }

  /** get_length: the declared size in bytes, cut to 16 bits. */
  function DeclaredLength(data: seq<Byte>): Word
    requires |data| >= RTCP_HEADER_SIZE_BYTES
  {
    Cut16((WordAt(data, 2) + 1) * 4)
  }

  function ItemAt(data: seq<Byte>, k: nat): Item
    requires ITEMS_START + NACK_ITEM_BYTES * (k + 1) <= |data|
  {
    Item(WordAt(data, ITEMS_START + NACK_ITEM_BYTES * k), WordAt(data, ITEMS_START + NACK_ITEM_BYTES * k + 2))
  }

  function ItemsIn(data: seq<Byte>, n: nat): seq<Item>
    requires ITEMS_START + NACK_ITEM_BYTES * n <= |data|
  {
    seq(n, k requires 0 <= k < n => ItemAt(data, k))
  }

  /** None where the source returns false. */
  function UnpackNack(data: seq<Byte>): Option<seq<Word>>
    requires |data| >= RTCP_HEADER_SIZE_BYTES && |data| >= DeclaredLength(data)
  {
    var len := DeclaredLength(data);
    if len < ITEMS_START then None else Some(Unpacked(ItemsIn(data, (len - ITEMS_START) / NACK_ITEM_BYTES)))
  }

  // ----- round trip over the bytes

  lemma {:induction false} ItemBytesAt(items: seq<Item>, k: nat)
    requires k < |items|
    ensures ItemBytes(items)[NACK_ITEM_BYTES * k..NACK_ITEM_BYTES * (k + 1)] ==
            PutWord(items[k].pid) + PutWord(items[k].blp)
  {
    hide PutWord;
    var init := items[..|items| - 1];
    if k < |init| {
      ItemBytesAt(init, k);
    }
  }

  lemma {:induction false} WordOfSlice(data: seq<Byte>, i: nat, w: Word)
    requires i + 2 <= |data| && data[i..i + 2] == PutWord(w)
    ensures WordAt(data, i) == w
  {
    assert data[i] == data[i..i + 2][0] && data[i + 1] == data[i..i + 2][1];
  }

  lemma {:induction false} ItemReadBack(front: seq<Byte>, items: seq<Item>, k: nat)
    requires |front| == ITEMS_START && k < |items|
    ensures ItemAt(front + ItemBytes(items), k) == items[k]
  {
    hide PutWord, WordAt;
    ItemBytesAt(items, k);
    var data := front + ItemBytes(items);
    var i := ITEMS_START + NACK_ITEM_BYTES * k;
    var four := PutWord(items[k].pid) + PutWord(items[k].blp);
    assert data[i..i + 4] == four;
    assert data[i..i + 2] == four[..2] == PutWord(items[k].pid);
    assert data[i + 2..i + 4] == four[2..] == PutWord(items[k].blp);
    WordOfSlice(data, i, items[k].pid);
    WordOfSlice(data, i + 2, items[k].blp);
  }

  /** The length field declares the whole packet, which fits a datagram, and the items are where they are looked for. */
  lemma {:induction false} NackReadBack(senderSsrc: seq<Byte>, mediaSsrc: seq<Byte>, ns: seq<Word>)
    requires |senderSsrc| == 4 && |mediaSsrc| == 4
    ensures var data := NackBytes(senderSsrc, mediaSsrc, ns);
            && DeclaredLength(data) == |data|
            && UnpackNack(data) == Some(Unpacked(Items(ns, MAX_NACK_ITEM_NUM)))
  {
    hide Unpacked, Items, PutWord;
    var items := Items(ns, MAX_NACK_ITEM_NUM);
    var length := ITEMS_START + NACK_ITEM_BYTES * |items|;
    var front := HeaderBytes(length / 4 - 1, senderSsrc, mediaSsrc);
    var data := front + ItemBytes(items);
    assert data[2..4] == PutWord(length / 4 - 1);
    WordOfSlice(data, 2, length / 4 - 1);
    NoWrap(length);
    hide WordAt;
    forall k | 0 <= k < |items| ensures ItemAt(data, k) == items[k] {
      ItemReadBack(front, items, k);
    }
    assert ItemsIn(data, |items|) == items;
  }

  /** The bytes of a NACK packet: version 2 and format 1, type 205, the length in words less one, the sender's SSRC, the
      one of the media, and two words for each item. */
  lemma {:induction false} NackLaidOut(senderSsrc: seq<Byte>, mediaSsrc: seq<Byte>, ns: seq<Word>)
    requires |senderSsrc| == 4 && |mediaSsrc| == 4
    ensures var data, items := NackBytes(senderSsrc, mediaSsrc, ns), Items(ns, 347);
            && |data| == 12 + 4 * |items| == 4 * (Joined(data[2], data[3]) + 1)
            && data[0] == 0x81 && data[1] == 205 && data[4..8] == senderSsrc && data[8..12] == mediaSsrc
            && forall k :: 0 <= k < |items| ==>
                 && Joined(data[12 + 4 * k], data[13 + 4 * k]) == items[k].pid
                 && Joined(data[14 + 4 * k], data[15 + 4 * k]) == items[k].blp
  {
    var items := Items(ns, 347);
    var header := HeaderBytes((12 + 4 * |items|) / 4 - 1, senderSsrc, mediaSsrc);
    HeaderLaidOut((12 + 4 * |items|) / 4 - 1, senderSsrc, mediaSsrc);
    var data := NackBytes(senderSsrc, mediaSsrc, ns);
    assert data == header + ItemBytes(items);
    hide NackBytes, HeaderBytes, Items, PutWord, WordAt, ItemBytes, Joined;
    assert data[4..8] == header[4..8] && data[8..12] == header[8..12];
    forall k | 0 <= k < |items|
      ensures Joined(data[12 + 4 * k], data[13 + 4 * k]) == items[k].pid
      ensures Joined(data[14 + 4 * k], data[15 + 4 * k]) == items[k].blp
    {
      ItemReadBack(header, items, k);
      ItemJoined(data, k);
    }
  }

  lemma {:induction false} HeaderLaidOut(length: Word, senderSsrc: seq<Byte>, mediaSsrc: seq<Byte>)
    requires |senderSsrc| == 4 && |mediaSsrc| == 4
    ensures var b := HeaderBytes(length, senderSsrc, mediaSsrc);
            && |b| == 12 && b[0] == 0x81 && b[1] == 205 && Joined(b[2], b[3]) == length
            && b[4..8] == senderSsrc && b[8..12] == mediaSsrc
  {
  }

  lemma {:induction false} ItemJoined(data: seq<Byte>, k: nat)
    requires 16 + 4 * k <= |data|
    ensures ItemAt(data, k).pid == Joined(data[12 + 4 * k], data[13 + 4 * k])
    ensures ItemAt(data, k).blp == Joined(data[14 + 4 * k], data[15 + 4 * k])
  {
  }

  /** A NACK packet gives back the lost numbers it has room for, in order, exactly when none repeats or steps back
      behind another number of its item; numbers that advance by 1 to 65520 never do. */
  lemma {:induction false} NackRoundTripIff(senderSsrc: seq<Byte>, mediaSsrc: seq<Byte>, ns: seq<Word>)
    requires |senderSsrc| == 4 && |mediaSsrc| == 4
    ensures var data := NackBytes(senderSsrc, mediaSsrc, ns);
            && DeclaredLength(data) == |data|
            && (UnpackNack(data) == Some(ns[..Taken(ns, MAX_NACK_ITEM_NUM)]) <==> Tidy(ns, MAX_NACK_ITEM_NUM))
            && (Advancing(ns) ==> Tidy(ns, MAX_NACK_ITEM_NUM))
  {
    hide NackBytes, UnpackNack, Items, Unpacked, Taken, Tidy, Advancing, DeclaredLength;
    NackReadBack(senderSsrc, mediaSsrc, ns);
    RoundTripIff(ns, MAX_NACK_ITEM_NUM);
    if Advancing(ns) {
      AdvancingIsTidy(ns, MAX_NACK_ITEM_NUM);
    }
  }

  /** Every number is taken exactly when 347 items have room for them all. */
  lemma {:induction false} AllTakenIff(ns: seq<Word>, room: nat)
    ensures Taken(ns, room) == |ns| <==> |Items(ns, room + 1)| <= room
    decreases room
  {
    hide Fill;
    if ns != [] {
      var tail := ns[GroupSize(ns)..];
      if room > 0 {
        AllTakenIff(tail, room - 1);
        assert |Items(ns, room + 1)| == 1 + |Items(tail, room)|;
        assert Taken(ns, room) == GroupSize(ns) + Taken(tail, room - 1);
      } else {
        assert |Items(ns, 1)| == 1 + |Items(tail, 0)|;
      }
    }
  }

  // ----- packing_nack

  /** The inner loop. */
  method FillMask(pid: Word, ns: seq<Word>, start: nat) returns (blp: Word, next: nat)
    requires start <= |ns|
    ensures next <= |ns| && (blp, next - start) == Fill(pid, 0, ns[start..])
  {
    hide Shift, SetBit;
    blp, next := 0, start;
    while next < |ns|
      invariant start <= next <= |ns|
      invariant Fill(pid, 0, ns[start..]) == (Fill(pid, blp, ns[next..]).0, next - start + Fill(pid, blp, ns[next..]).1)
    {
      var shift := Shift(pid, ns[next]);
      assert ns[next..][1..] == ns[next + 1..];
      if shift > 15 {
        break;
      }
      blp := SetBit(blp, shift);
      next := next + 1;
    }
  }

  method PutItem(buffer: array<Byte>, at: nat, item: Item)
    requires at + NACK_ITEM_BYTES <= buffer.Length
    modifies buffer
    ensures buffer[..at + NACK_ITEM_BYTES] == old(buffer[..at]) + PutWord(item.pid) + PutWord(item.blp)
  {
    var pid, blp := PutWord(item.pid), PutWord(item.blp);
    ghost var front := buffer[..at];
    buffer[at], buffer[at + 1] := pid[0], pid[1];
    buffer[at + 2], buffer[at + 3] := blp[0], blp[1];
    assert buffer[..at] == front;
    assert buffer[at..at + 2] == pid && buffer[at + 2..at + 4] == blp;
    assert buffer[..at + 4] == buffer[..at] + buffer[at..at + 2] + buffer[at + 2..at + 4];
  }

  method PutHeader(buffer: array<Byte>, length: Word, senderSsrc: seq<Byte>, mediaSsrc: seq<Byte>)
    requires |senderSsrc| == 4 && |mediaSsrc| == 4 && buffer.Length >= ITEMS_START
    modifies buffer
    ensures buffer[..ITEMS_START] == HeaderBytes(length, senderSsrc, mediaSsrc)
    ensures forall i :: ITEMS_START <= i < buffer.Length ==> buffer[i] == old(buffer[i])
  {
    var header := HeaderBytes(length, senderSsrc, mediaSsrc);
    forall i | 0 <= i < ITEMS_START {
      buffer[i] := header[i];
    }
    assert forall i :: 0 <= i < ITEMS_START ==> buffer[i] == header[i];
  }

  /** What is left to pack once `items` have been packed. */
  predicate Packing(ns: seq<Word>, it: nat, items: seq<Item>) {
    && it <= |ns| && |items| <= MAX_NACK_ITEM_NUM
    && Items(ns, MAX_NACK_ITEM_NUM) == items + Items(ns[it..], MAX_NACK_ITEM_NUM - |items|)
  }

  lemma {:induction false} PackingStep(ns: seq<Word>, it: nat, items: seq<Item>, blp: Word, next: nat)
    requires Packing(ns, it, items) && it < |ns| && |items| < MAX_NACK_ITEM_NUM
    requires it < next <= |ns| && (blp, next - (it + 1)) == Fill(ns[it], 0, ns[it + 1..])
    ensures Packing(ns, next, items + [Item(ns[it], blp)])
  {
    hide Fill;
    var rest, room := ns[it..], MAX_NACK_ITEM_NUM - |items|;
    assert rest[1..] == ns[it + 1..];
    assert rest[GroupSize(rest)..] == ns[next..];
    assert Items(rest, room) == [Item(ns[it], blp)] + Items(ns[next..], room - 1);
    hide Items;
    var more := Items(ns[next..], room - 1);
    assert items + ([Item(ns[it], blp)] + more) == (items + [Item(ns[it], blp)]) + more;
  }

  lemma {:induction false} PackingEnds(ns: seq<Word>, it: nat, items: seq<Item>)
    ensures Packing(ns, 0, [])
    ensures Packing(ns, it, items) && (it == |ns| || |items| == MAX_NACK_ITEM_NUM) ==>
              items == Items(ns, MAX_NACK_ITEM_NUM)
  {
    assert ns[0..] == ns;
    assert [] + Items(ns, MAX_NACK_ITEM_NUM) == Items(ns, MAX_NACK_ITEM_NUM);
  }

  lemma {:induction false} ItemBytesSnoc(items: seq<Item>, item: Item)
    ensures ItemBytes(items + [item]) == ItemBytes(items) + PutWord(item.pid) + PutWord(item.blp)
  {
    hide PutWord;
    assert (items + [item])[..|items|] == items;
  }

  /** The loop over the items, behind a header already in place. */
  method PackItems(buffer: array<Byte>, ns: seq<Word>) returns (nackItemCount: nat)
    requires buffer.Length == UDP_PACKET_MAX_BYTES
    modifies buffer
    ensures nackItemCount == |Items(ns, MAX_NACK_ITEM_NUM)|
    ensures buffer[..ITEMS_START + NACK_ITEM_BYTES * nackItemCount] ==
            old(buffer[..ITEMS_START]) + ItemBytes(Items(ns, MAX_NACK_ITEM_NUM))
  {
    hide Fill, PutWord, Items, ItemBytes, Packing;
    ghost var front := buffer[..ITEMS_START];
    var it := 0;
    nackItemCount := 0;
    ghost var items: seq<Item> := [];
    PackingEnds(ns, it, items);
    assert front + ItemBytes([]) == front;
    while it < |ns|
      invariant it <= |ns| && Packing(ns, it, items) && |items| == nackItemCount
      invariant nackItemCount <= MAX_NACK_ITEM_NUM && (it < |ns| ==> nackItemCount < MAX_NACK_ITEM_NUM)
      invariant buffer[..ITEMS_START + NACK_ITEM_BYTES * nackItemCount] == front + ItemBytes(items)
      decreases |ns| - it
    {
      var pid := ns[it];
      var blp, next := FillMask(pid, ns, it + 1);
      PutItem(buffer, ITEMS_START + NACK_ITEM_BYTES * nackItemCount, Item(pid, blp));
      PackingStep(ns, it, items, blp, next);
      ItemBytesSnoc(items, Item(pid, blp));
      items := items + [Item(pid, blp)];
      it := next;
      nackItemCount := nackItemCount + 1;
      if nackItemCount == MAX_NACK_ITEM_NUM {
        break;
      }
    }
    PackingEnds(ns, it, items);
  }

  method PackingNack(senderSsrc: seq<Byte>, mediaSsrc: seq<Byte>, ns: seq<Word>)
    returns (buffer: array<Byte>, length: nat)
    requires |senderSsrc| == 4 && |mediaSsrc| == 4
    ensures fresh(buffer) && buffer.Length == UDP_PACKET_MAX_BYTES
    ensures length <= buffer.Length && buffer[..length] == NackBytes(senderSsrc, mediaSsrc, ns)
  {
    hide Items, ItemBytes, HeaderBytes;
    buffer := new Byte[UDP_PACKET_MAX_BYTES](_ => 0);
    PutHeader(buffer, 0, senderSsrc, mediaSsrc);
    var nackItemCount := PackItems(buffer, ns);
    length := ITEMS_START + NACK_ITEM_BYTES * nackItemCount;
    ghost var packed := buffer[..length];
    assert packed[ITEMS_START..] == ItemBytes(Items(ns, MAX_NACK_ITEM_NUM));
    PutHeader(buffer, length / 4 - 1, senderSsrc, mediaSsrc);
    assert buffer[..length] == buffer[..ITEMS_START] + packed[ITEMS_START..];
  }

  // ----- unpacking_nack

  /** The loop over the bits of one mask, shifting it down to nothing. */
  method ReadMask(blp: Word, first: Word, before: seq<Word>) returns (sequences: seq<Word>)
    ensures sequences == before + Unmask(blp, first)
  {
    sequences := before;
    var bitmask, pid := blp, first;
    while bitmask != 0
      invariant sequences + Unmask(bitmask, pid) == before + Unmask(blp, first)
      decreases bitmask
    {
      UnmaskStep(bitmask, pid);
      if bitmask % 2 == 1 {
        sequences := sequences + [pid];
      }
      bitmask, pid := bitmask / 2, Next(pid);
    }
    assert sequences + [] == sequences;
  }

  lemma {:induction false} UnpackedNone()
    ensures Unpacked([]) == []
  {
  }

  method UnpackingNack(data: seq<Byte>) returns (ok: bool, sequences: seq<Word>)
    requires |data| >= RTCP_HEADER_SIZE_BYTES && |data| >= DeclaredLength(data)
    ensures ok <==> UnpackNack(data).Some?
    ensures ok ==> sequences == UnpackNack(data).value
  {
    hide Unmask, DeclaredLength, ItemAt, Next, Unpacked;
    sequences := [];
    var len := DeclaredLength(data);
    if len < ITEMS_START {
      return false, [];
    }
    var nackItem := (len - ITEMS_START) / NACK_ITEM_BYTES;
    ghost var items := ItemsIn(data, nackItem);
    assert items[0..] == items;
    UnpackedNone();
    for i := 0 to nackItem
      invariant sequences + Unpacked(items[i..]) == Unpacked(items)
    {
      var item := ItemAt(data, i);
      assert items[i..] == [item] + items[i + 1..];
      ghost var soFar, more := sequences + [item.pid], Unmask(item.blp, Next(item.pid));
      UnpackedCons(item, items[i + 1..]);
      sequences := ReadMask(item.blp, Next(item.pid), sequences + [item.pid]);
      assert soFar + more + Unpacked(items[i + 1..]) == soFar + (more + Unpacked(items[i + 1..]));
    }
    assert items[nackItem..] == [];
    ok := true;
  }

  // ----- the bitrate of packing_remb

  const MAX_MANTISSA: nat := 0x3_FFFF

  /** The loop that halves a bitrate until it fits 18 bits: the largest value not above the bitrate that the fields can
      carry, with the smallest exponent, and the exponent fits its six bits. */
  method SplitBitrate(bitrate: nat) returns (mantissa: nat, exponent: nat)
    requires bitrate < 0x1_0000_0000_0000_0000
    ensures mantissa <= MAX_MANTISSA && exponent <= 46
    ensures mantissa * Pow2(exponent) <= bitrate < (mantissa + 1) * Pow2(exponent)
    ensures exponent > 0 ==> bitrate >= (MAX_MANTISSA + 1) * Pow2(exponent - 1)
  {
    mantissa, exponent := bitrate, 0;
    while mantissa > MAX_MANTISSA
      invariant mantissa * Pow2(exponent) <= bitrate < (mantissa + 1) * Pow2(exponent)
      invariant exponent > 0 ==> bitrate >= (MAX_MANTISSA + 1) * Pow2(exponent - 1)
      invariant exponent <= 46 && (mantissa > MAX_MANTISSA ==> exponent < 46)
      decreases mantissa
    {
      Halving(bitrate, mantissa, exponent);
      mantissa, exponent := mantissa / 2, exponent + 1;
    }
  }

  lemma {:induction false} HalfStep(b: nat, m: nat, p: nat)
    requires m * p <= b < (m + 1) * p
    ensures (m / 2) * (2 * p) <= b < (m / 2 + 1) * (2 * p)
  {
    var h := m / 2;
    MulAssociates(h, 2, p);
    MulAssociates(h + 1, 2, p);
    MulOrder(m, h * 2, p);
    MulOrder((h + 1) * 2, m + 1, p);
  }

  lemma {:induction false} Pow2FortyFive()
    ensures Pow2(45) == 0x2000_0000_0000
  {
    hide Pow2;
    Pow2Fifteen();
    Pow2Add(15, 15);
    Pow2Add(30, 15);
  }

  lemma {:induction false} Halving(bitrate: nat, mantissa: nat, exponent: nat)
    requires mantissa * Pow2(exponent) <= bitrate < (mantissa + 1) * Pow2(exponent)
    requires mantissa > MAX_MANTISSA && exponent < 46 && bitrate < 0x1_0000_0000_0000_0000
    ensures (mantissa / 2) * Pow2(exponent + 1) <= bitrate < (mantissa / 2 + 1) * Pow2(exponent + 1)
    ensures bitrate >= (MAX_MANTISSA + 1) * Pow2(exponent)
    ensures mantissa / 2 > MAX_MANTISSA ==> exponent + 1 < 46
  {
    assert Pow2(exponent + 1) == 2 * Pow2(exponent);
    hide Pow2;
    HalfStep(bitrate, mantissa, Pow2(exponent));
    MulOrder(mantissa, MAX_MANTISSA + 1, Pow2(exponent));
    Pow2FortyFive();
  }
}
