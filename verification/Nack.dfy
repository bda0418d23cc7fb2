/** Generic NACK feedback (section 6.2.1 of RFC 4585): packing lost sequence numbers into PID/BLP items and back. */
module Nack {
  import opened Bytes

  const RTCP_HEADER_SIZE_BYTES: nat := 4
  const NACK_COMMON_FEEDBACK_BYTES: nat := 8
  const NACK_ITEM_BYTES: nat := 4
  const ITEMS_START: nat := RTCP_HEADER_SIZE_BYTES + NACK_COMMON_FEEDBACK_BYTES
  const MAX_NACK_ITEM_NUM: nat := (UDP_PACKET_MAX_BYTES - ITEMS_START) / NACK_ITEM_BYTES
  const PT_NACK: Byte := 205

  /** A lost packet, and a bit mask of the sixteen that follow it. */
  datatype Item = Item(pid: Word, blp: Word)

  // ----- packing

  /** How far behind the number after `pid` a number lies. */
  function Shift(pid: Word, n: Word): Word {
    Cut16(n - pid - 1)
  }

  /** `blp |= 1 << k`. */
  function SetBit(blp: Word, k: nat): Word
    requires k < 16
  {
    Pow2Below(k);
    if (blp / Pow2(k)) % 2 == 1 then blp else (BitFits(blp, Pow2(k), Pow2(15 - k)); blp + Pow2(k))
  }

  lemma {:induction false} Pow2Add(a: nat, b: nat)
    ensures Pow2(a) * Pow2(b) == Pow2(a + b)
  {
    if a > 0 {
      Pow2Add(a - 1, b);
      MulAssociates(2, Pow2(a - 1), Pow2(b));
    }
  }

  lemma {:induction false} MulAssociates(a: int, b: int, c: int)
    ensures (a * b) * c == a * (b * c)
  {
  }

  lemma {:induction false} Pow2Below(k: nat)
    requires k < 16
    ensures Pow2(k) * Pow2(15 - k) == 0x8000
  {
    hide Pow2;
    Pow2Add(k, 15 - k);
    Pow2Fifteen();
  }

  lemma {:induction false} Pow2Fifteen()
    ensures Pow2(15) == 0x8000
  {
    assert Pow2(5) == 32;
    assert Pow2(10) == 1024;
  }

  lemma {:induction false} BitFits(blp: Word, p: nat, q: nat)
    requires p > 0 && p * q == 0x8000 && (blp / p) % 2 == 0
    ensures blp + p < 0x1_0000
  {
    var d := blp / p;
    assert d * p <= blp < d * p + p;
    MulOrder(d, 2 * q, p);
    MulOrder(2 * q, d + 2, p);
    assert (2 * q) * p == 2 * (p * q);
    assert (d + 2) * p == d * p + p + p;
  }

  /** The inner loop: take numbers while they fit the mask. */
  function Fill(pid: Word, blp: Word, ns: seq<Word>): (r: (Word, nat))
    ensures r.1 <= |ns|
    decreases |ns|
  {
    if ns == [] || Shift(pid, ns[0]) > 15 then (blp, 0)
    else
      var (b, n) := Fill(pid, SetBit(blp, Shift(pid, ns[0])), ns[1..]);
      (b, n + 1)
  }

  /** How many numbers share the item of the first. */
  function GroupSize(ns: seq<Word>): (n: nat)
    requires ns != []
    ensures 0 < n <= |ns|
  {
    1 + Fill(ns[0], 0, ns[1..]).1
  }

  /** The outer loop, with room for a number of items. */
  function Items(ns: seq<Word>, room: nat): (items: seq<Item>)
    ensures |items| <= room
  {
    if ns == [] || room == 0 then []
    else [Item(ns[0], Fill(ns[0], 0, ns[1..]).0)] + Items(ns[GroupSize(ns)..], room - 1)
  }

  /** How many numbers those items take. */
  function Taken(ns: seq<Word>, room: nat): (n: nat)
    ensures n <= |ns|
  {
    if ns == [] || room == 0 then 0 else GroupSize(ns) + Taken(ns[GroupSize(ns)..], room - 1)
  }

  // ----- unpacking

  function Next(pid: Word): Word {
    Cut16(pid + 1)
  }

  /** The loop over the bits of one mask. */
  function Unmask(mask: Word, pid: Word): seq<Word>
    decreases mask
  {
    if mask == 0 then [] else (if mask % 2 == 1 then [pid] else []) + Unmask(mask / 2, Next(pid))
  }

  function Unpacked(items: seq<Item>): seq<Word> {
    if items == [] then []
    else [items[0].pid] + Unmask(items[0].blp, Next(items[0].pid)) + Unpacked(items[1..])
  }

  // ----- round trip

  /** Numbers in ascending order behind `pid`, at least `from` places on. */
  predicate Ascends(pid: Word, vs: seq<Word>, from: nat) {
    vs == [] || (Shift(pid, vs[0]) >= from && Ascends(pid, vs[1..], Shift(pid, vs[0]) + 1))
  }

  /** The numbers that share the item of the first. */
  function Group(ns: seq<Word>): seq<Word>
    requires ns != []
  {
    ns[1..][..GroupSize(ns) - 1]
  }

  /** No number repeats, or steps back behind, another number of its item. */
  predicate Tidy(ns: seq<Word>, room: nat) {
    ns == [] || room == 0 || (Ascends(ns[0], Group(ns), 0) && Tidy(ns[GroupSize(ns)..], room - 1))
  }

  lemma {:induction false} HalfSum(mask: nat, k: nat)
    requires k > 0 && mask < Pow2(k)
    ensures (mask + Pow2(k)) / 2 == mask / 2 + Pow2(k - 1) && (mask + Pow2(k)) % 2 == mask % 2
    ensures mask / 2 < Pow2(k - 1)
  {
    assert Pow2(k) == 2 * Pow2(k - 1);
  }

  lemma {:induction false} UnmaskStep(mask: Word, pid: Word)
    ensures Unmask(mask, pid) == (if mask % 2 == 1 then [pid] else []) + Unmask(mask / 2, Next(pid))
  {
    hide Cut16;
  }

  lemma {:induction false} UnmaskOne(pid: Word)
    ensures Unmask(1, pid) == [pid] && Unmask(0, pid) == [] && Cut16(pid) == pid
  {
    NoWrap(pid);
    assert Unmask(0, Next(pid)) == [];
  }

  lemma {:induction false} UnmaskAdd(mask: Word, k: nat, pid: Word)
    requires k < 16 && mask < Pow2(k) && mask + Pow2(k) < 0x1_0000
    ensures Unmask(mask + Pow2(k), pid) == Unmask(mask, pid) + [Cut16(pid + k)]
  {
    hide Cut16, Unmask;
    if k == 0 {
      UnmaskOne(pid);
    } else {
      HalfSum(mask, k);
      hide Pow2;
      UnmaskAdd(mask / 2, k - 1, Next(pid));
      CutAdd(pid + 1, k - 1);
      UnmaskStep(mask, pid);
      UnmaskStep(mask + Pow2(k), pid);
    }
  }

  lemma {:induction false} Pow2Monotone(a: nat, b: nat)
    requires a <= b
    ensures Pow2(a) <= Pow2(b)
  {
    if a < b { Pow2Monotone(a, b - 1); }
  }

  /** Setting a bit above all set bits. */
  lemma {:induction false} SetHighBit(blp: Word, k: nat)
    requires k < 16 && blp < Pow2(k)
    ensures SetBit(blp, k) == blp + Pow2(k) < Pow2(k + 1)
  {
    assert blp / Pow2(k) == 0 by { SmallQuotient(blp, Pow2(k)); }
  }

  lemma {:induction false} SmallQuotient(a: nat, b: nat)
    requires a < b
    ensures a / b == 0
  {
  }

  lemma {:induction false} WordIsCut(w: Word)
    ensures Cut16(w) == w
  {
  }

  lemma {:induction false} ShiftBack(pid: Word, n: Word)
    ensures Cut16(Next(pid) + Shift(pid, n)) == n
  {
    hide Cut16;
    CutAdd(pid + 1, Shift(pid, n));
    CutAdd(n - pid - 1, pid + 1);
    WordIsCut(n);
  }

  lemma {:induction false} FillFirst(pid: Word, blp: Word, n: Word, from: nat)
    requires Shift(pid, n) <= 15 && from <= Shift(pid, n) && blp < Pow2(from)
    ensures var k := Shift(pid, n);
            && SetBit(blp, k) < Pow2(k + 1)
            && Unmask(SetBit(blp, k), Next(pid)) == Unmask(blp, Next(pid)) + [n]
  {
    var k := Shift(pid, n);
    hide Shift, Next, Unmask, SetBit, Pow2;
    Pow2Monotone(from, k);
    SetHighBit(blp, k);
    UnmaskAdd(blp, k, Next(pid));
    ShiftBack(pid, n);
  }

  /** An ascending group is read back in place. */
  lemma {:induction false} FillUnmask(pid: Word, blp: Word, ns: seq<Word>, from: nat)
    requires from <= 16 && blp < Pow2(from)
    requires Ascends(pid, ns[..Fill(pid, blp, ns).1], from)
    ensures var (b, n) := Fill(pid, blp, ns);
            Unmask(b, Next(pid)) == Unmask(blp, Next(pid)) + ns[..n]
    decreases |ns|
  {
    hide Shift, Next, Unmask, SetBit, Pow2;
    var next := Next(pid);
    if ns == [] || Shift(pid, ns[0]) > 15 {
      assert Unmask(blp, next) + ns[..0] == Unmask(blp, next);
    } else {
      var k := Shift(pid, ns[0]);
      var n := Fill(pid, blp, ns).1;
      assert ns[..n][1..] == ns[1..][..n - 1] && ns[..n][0] == ns[0];
      FillFirst(pid, blp, ns[0], from);
      FillUnmask(pid, SetBit(blp, k), ns[1..], k + 1);
      assert ns[..n] == [ns[0]] + ns[1..][..n - 1];
    }
  }

  /** Distances from `pid`, strictly ascending. */
  predicate Climbs(us: seq<Word>, pid: Word, bound: nat) {
    && (forall i :: 0 <= i < |us| ==> Cut16(us[i] - pid) < bound)
    && (forall i, j :: 0 <= i < j < |us| ==> Cut16(us[i] - pid) < Cut16(us[j] - pid))
  }

  lemma {:induction false} ClimbsCons(us: seq<Word>, pid: Word, w: nat)
    requires Climbs(us, Next(pid), w) && w < 16
    ensures Climbs([pid] + us, pid, w + 1) && Climbs(us, pid, w + 1)
  {
    hide Cut16, Next;
    forall i | 0 <= i < |us| ensures Cut16(us[i] - pid) == Cut16(us[i] - Next(pid)) + 1 {
      OneCloser(us[i], pid);
    }
    NoDistance(pid);
  }

  lemma {:induction false} NoDistance(pid: Word)
    ensures Cut16(pid - pid) == 0
  {
  }

  lemma {:induction false} HalfMask(mask: Word, w: nat)
    requires w <= 16 && 0 < mask < Pow2(w)
    ensures w > 0 && mask / 2 < Pow2(w - 1)
  {
  }

  lemma {:induction false} OneCloser(u: Word, pid: Word)
    requires Cut16(u - Next(pid)) < 16
    ensures Cut16(u - pid) == Cut16(u - Next(pid)) + 1
  {
  }

  lemma {:induction false} NothingClimbs(pid: Word, bound: nat)
    ensures Unmask(0, pid) == [] && Climbs(Unmask(0, pid), pid, bound)
  {
  }

  /** A mask lists its numbers in ascending order, whatever order they were put in. */
  lemma {:induction false} UnmaskClimbs(mask: Word, pid: Word, w: nat)
    requires w <= 16 && mask < Pow2(w)
    ensures Climbs(Unmask(mask, pid), pid, w)
    decreases mask
  {
    hide Cut16, Pow2, Climbs, Unmask;
    if mask == 0 {
      NothingClimbs(pid, w);
    } else {
      HalfMask(mask, w);
      UnmaskClimbs(mask / 2, Next(pid), w - 1);
      UnmaskStep(mask, pid);
      assert [] + Unmask(mask / 2, Next(pid)) == Unmask(mask / 2, Next(pid));
      ClimbsCons(Unmask(mask / 2, Next(pid)), pid, w - 1);
    }
  }

  lemma {:induction false} HalfQuotient(n: nat, p: nat)
    requires p > 0
    ensures n / (2 * p) == n / 2 / p
  {
    var q := n / 2 / p;
    var r := n / 2 % p;
    assert n / 2 == p * q + r;
    var q2 := n / (2 * p);
    assert n == (2 * p) * q2 + n % (2 * p);
    MulAssociates(2, p, q);
    MulAssociates(2, p, q2);
    assert 2 * (p * q) <= n < 2 * (p * q) + 2 * p && 2 * (p * q2) <= n < 2 * (p * q2) + 2 * p;
    assert p * (q2 + 1) == p * q2 + p && p * (q + 1) == p * q + p;
    if q2 > q { MulOrder(q2, q + 1, p); }
    if q > q2 { MulOrder(q, q2 + 1, p); }
  }

  lemma {:induction false} NotBehind(us: seq<Word>, pid: Word, w: nat)
    requires Climbs(us, Next(pid), w) && w <= 16
    ensures pid !in us
  {
    assert Cut16(pid - Next(pid)) == 0xFFFF;
  }

  lemma {:induction false} FarFrom(pid: Word, k: nat)
    requires 0 < k < 16
    ensures Cut16(pid + k) != pid && Cut16(pid + k) == Cut16(Next(pid) + (k - 1))
  {
  }

  lemma {:induction false} UnmaskZero(pid: Word, k: nat)
    ensures Cut16(pid + k) !in Unmask(0, pid) && 0 / Pow2(k) == 0
  {
  }

  /** Bit `k` of a mask, counted from the lowest, stands for the number `k` places on, and for no other. */
  lemma {:induction false} UnmaskBit(mask: Word, pid: Word, w: nat, k: nat)
    requires w <= 16 && mask < Pow2(w) && k < 16
    ensures Cut16(pid + k) in Unmask(mask, pid) <==> (mask / Pow2(k)) % 2 == 1
    decreases mask
  {
    hide Pow2, Unmask, Cut16, Climbs, Next;
    if mask == 0 {
      UnmaskZero(pid, k);
    } else {
      HalfMask(mask, w);
      UnmaskClimbs(mask / 2, Next(pid), w - 1);
      NotBehind(Unmask(mask / 2, Next(pid)), pid, w - 1);
      UnmaskStep(mask, pid);
      FirstPowers(k);
      if k == 0 {
        NoWrap(pid);
      } else {
        FarFrom(pid, k);
        UnmaskBit(mask / 2, Next(pid), w - 1, k - 1);
        HalfQuotient(mask, Pow2(k - 1));
      }
    }
  }

  lemma {:induction false} FirstPowers(k: nat)
    ensures Pow2(0) == 1 && (k > 0 ==> Pow2(k) == 2 * Pow2(k - 1))
  {
  }

  /** Exactly the numbers an item stands for: its own, and those up to sixteen behind it whose bit is set. */
  lemma {:induction false} ItemExactly(item: Item, n: Word)
    ensures n in Unpacked([item]) <==>
            n == item.pid || exists k: nat :: k < 16 && n == Cut16(item.pid + 1 + k) && BitSet(item.blp, k)
  {
    hide Pow2, Unmask, Cut16, Climbs, BitSet;
    UnpackedOne(item);
    forall k: nat | k < 16
      ensures Cut16(item.pid + 1 + k) in Unmask(item.blp, Next(item.pid)) <==> BitSet(item.blp, k)
    {
      BehindItem(item, k);
    }
    if n in Unmask(item.blp, Next(item.pid)) {
      MaskReaches(item, n);
      BehindItem(item, Cut16(n - Next(item.pid)));
    }
  }

  predicate BitSet(mask: Word, k: nat) {
    (mask / Pow2(k)) % 2 == 1
  }

  lemma {:induction false} UnpackedOne(item: Item)
    ensures Unpacked([item]) == [item.pid] + Unmask(item.blp, Next(item.pid))
  {
    assert Unpacked([item]) == [item.pid] + Unmask(item.blp, Next(item.pid)) + Unpacked([]);
  }

  lemma {:induction false} BehindItem(item: Item, k: nat)
    requires k < 16
    ensures Cut16(item.pid + 1 + k) in Unmask(item.blp, Next(item.pid)) <==> BitSet(item.blp, k)
  {
    hide Pow2, Unmask;
    Pow2Sixteen();
    UnmaskBit(item.blp, Next(item.pid), 16, k);
    CutAdd(item.pid + 1, k);
  }

  lemma {:induction false} MaskReaches(item: Item, n: Word)
    requires n in Unmask(item.blp, Next(item.pid))
    ensures Cut16(n - Next(item.pid)) < 16 && n == Cut16(item.pid + 1 + Cut16(n - Next(item.pid)))
  {
    hide Pow2, Unmask;
    Pow2Sixteen();
    UnmaskClimbs(item.blp, Next(item.pid), 16);
    PlaceOf(item.pid, n);
    hide Cut16;
  }

  lemma {:induction false} PlaceOf(pid: Word, n: Word)
    ensures n == Cut16(pid + 1 + Cut16(n - Next(pid)))
  {
  }

  /** Where the inner loop stops: at the first number that does not fit the mask. */
  lemma {:induction false} FillStops(pid: Word, blp: Word, ns: seq<Word>)
    ensures var n := Fill(pid, blp, ns).1;
            && (forall i :: 0 <= i < n ==> Shift(pid, ns[i]) <= 15)
            && (n < |ns| ==> Shift(pid, ns[n]) > 15)
    decreases |ns|
  {
    hide Shift, SetBit;
    if ns != [] && Shift(pid, ns[0]) <= 15 {
      FillStops(pid, SetBit(blp, Shift(pid, ns[0])), ns[1..]);
      var n := Fill(pid, blp, ns).1;
      assert forall i :: 0 < i < n ==> ns[i] == ns[1..][i - 1];
      assert n < |ns| ==> ns[n] == ns[1..][n - 1];
    }
  }

  lemma {:induction false} ShiftIsDistance(pid: Word, n: Word)
    ensures Shift(pid, n) == Cut16(n - Next(pid))
  {
  }

  /** Ascending distances make an ascending group. */
  lemma {:induction false} ClimbsAscends(pid: Word, vs: seq<Word>, from: nat)
    requires vs != [] ==> Shift(pid, vs[0]) >= from
    requires forall i, j :: 0 <= i < j < |vs| ==> Shift(pid, vs[i]) < Shift(pid, vs[j])
    ensures Ascends(pid, vs, from)
    decreases |vs|
  {
    hide Shift;
    if vs != [] {
      var rest := vs[1..];
      assert forall i :: 0 <= i < |rest| ==> rest[i] == vs[i + 1];
      ClimbsAscends(pid, rest, Shift(pid, vs[0]) + 1);
    }
  }

  /** What a mask holds: numbers within sixteen of the PID, in ascending order. */
  lemma {:induction false} MaskAscends(blp: Word, pid: Word)
    ensures var us := Unmask(blp, Next(pid));
            && (forall i :: 0 <= i < |us| ==> Shift(pid, us[i]) <= 15)
            && (forall i, j :: 0 <= i < j < |us| ==> Shift(pid, us[i]) < Shift(pid, us[j]))
  {
    hide Shift, Cut16, Next, Unmask, Pow2;
    var us := Unmask(blp, Next(pid));
    Pow2Sixteen();
    UnmaskClimbs(blp, Next(pid), 16);
    forall i | 0 <= i < |us| ensures Shift(pid, us[i]) == Cut16(us[i] - Next(pid)) {
      ShiftIsDistance(pid, us[i]);
    }
  }

  lemma {:induction false} Pow2Sixteen()
    ensures Pow2(16) == 0x1_0000
  {
    Pow2Fifteen();
  }

  lemma {:induction false} CutPoint(us: seq<Word>, rest: seq<Word>, vs: seq<Word>, tail: seq<Word>)
    requires us + rest == vs + tail
    ensures |us| < |vs| ==> rest != [] && rest[0] == vs[|us|]
  {
    if |us| < |vs| {
      assert (us + rest)[|us|] == rest[0];
      assert (vs + tail)[|us|] == vs[|us|];
    }
  }

  /** Two ways of cutting one list: a part with shifts of at most 15, and a rest that starts with a larger one. */
  lemma {:induction false} SameCut(pid: Word, us: seq<Word>, rest: seq<Word>, vs: seq<Word>, tail: seq<Word>)
    requires us + rest == vs + tail
    requires forall i :: 0 <= i < |us| ==> Shift(pid, us[i]) <= 15
    requires forall i :: 0 <= i < |vs| ==> Shift(pid, vs[i]) <= 15
    requires rest != [] ==> Shift(pid, rest[0]) > 15
    requires tail != [] ==> Shift(pid, tail[0]) > 15
    ensures us == vs && rest == tail
  {
    hide Shift;
    CutPoint(us, rest, vs, tail);
    CutPoint(vs, tail, us, rest);
    assert (us + rest)[..|us|] == us && (vs + tail)[..|vs|] == vs;
    assert (us + rest)[|us|..] == rest && (vs + tail)[|vs|..] == tail;
  }

  /** One item and what follows it. */
  lemma {:induction false} UnpackedCons(item: Item, items: seq<Item>)
    ensures Unpacked([item] + items) == [item.pid] + (Unmask(item.blp, Next(item.pid)) + Unpacked(items))
  {
    assert ([item] + items)[1..] == items;
  }

  lemma {:induction false} FirstUnpacked(ns: seq<Word>, room: nat)
    ensures Unpacked(Items(ns, room)) == [] <==> ns == [] || room == 0
    ensures ns != [] && room > 0 ==> Unpacked(Items(ns, room))[0] == ns[0]
  {
    hide Unmask, Next;
  }

  lemma {:induction false} TakenCons(ns: seq<Word>, room: nat)
    requires ns != [] && room > 0
    ensures var tail := ns[GroupSize(ns)..];
            ns[..Taken(ns, room)] == [ns[0]] + (Group(ns) + tail[..Taken(tail, room - 1)])
  {
  }

  /** The step of the round trip: one item right, and the rest right. */
  lemma {:induction false} OneGroup(pid: Word, us: seq<Word>, rest: seq<Word>, vs: seq<Word>, end: seq<Word>)
    requires forall i :: 0 <= i < |us| ==> Shift(pid, us[i]) <= 15
    requires forall i, j :: 0 <= i < j < |us| ==> Shift(pid, us[i]) < Shift(pid, us[j])
    requires forall i :: 0 <= i < |vs| ==> Shift(pid, vs[i]) <= 15
    requires rest != [] ==> Shift(pid, rest[0]) > 15
    requires end != [] ==> Shift(pid, end[0]) > 15
    requires Ascends(pid, vs, 0) ==> us == vs
    ensures [pid] + (us + rest) == [pid] + (vs + end) <==> Ascends(pid, vs, 0) && rest == end
  {
    hide Shift;
    if [pid] + (us + rest) == [pid] + (vs + end) {
      assert us + rest == ([pid] + (us + rest))[1..];
      assert vs + end == ([pid] + (vs + end))[1..];
      SameCut(pid, us, rest, vs, end);
      ClimbsAscends(pid, vs, 0);
    }
  }

  /** Unpacking gives back exactly the numbers packed, in order, if and only if no number repeats or steps back
      behind another number of its own item. */
  lemma {:induction false} RoundTripIff(ns: seq<Word>, room: nat)
    ensures Unpacked(Items(ns, room)) == ns[..Taken(ns, room)] <==> Tidy(ns, room)
    decreases room
  {
    if ns != [] && room > 0 {
      hide Unmask, Shift, Next, Items, Unpacked, Taken, Ascends, Group;
      var tail := ns[GroupSize(ns)..];
      var us, rest := GroupRead(ns), Unpacked(Items(tail, room - 1));
      var end := tail[..Taken(tail, room - 1)];
      RoundTripIff(tail, room - 1);
      UnpackedItems(ns, room);
      TakenCons(ns, room);
      GroupFacts(ns);
      FirstUnpacked(tail, room - 1);
      hide Fill, GroupSize, GroupRead;
      OneGroup(ns[0], us, rest, Group(ns), end);
    } else {
      assert Unpacked(Items(ns, room)) == [];
    }
  }

  /** What comes back of the group of the first number, besides that number. */
  function GroupRead(ns: seq<Word>): seq<Word>
    requires ns != []
  {
    Unmask(Fill(ns[0], 0, ns[1..]).0, Next(ns[0]))
  }

  lemma {:induction false} UnpackedItems(ns: seq<Word>, room: nat)
    requires ns != [] && room > 0
    ensures Unpacked(Items(ns, room)) == [ns[0]] + (GroupRead(ns) + Unpacked(Items(ns[GroupSize(ns)..], room - 1)))
  {
    hide Fill, Unmask, Next;
    UnpackedCons(Item(ns[0], Fill(ns[0], 0, ns[1..]).0), Items(ns[GroupSize(ns)..], room - 1));
  }

  lemma {:induction false} GroupReadAscends(ns: seq<Word>)
    requires ns != []
    ensures forall i :: 0 <= i < |GroupRead(ns)| ==> Shift(ns[0], GroupRead(ns)[i]) <= 15
    ensures forall i, j :: 0 <= i < j < |GroupRead(ns)| ==>
              Shift(ns[0], GroupRead(ns)[i]) < Shift(ns[0], GroupRead(ns)[j])
  {
    hide Unmask, Next, Shift, Fill;
    MaskAscends(Fill(ns[0], 0, ns[1..]).0, ns[0]);
    assert GroupRead(ns) == Unmask(Fill(ns[0], 0, ns[1..]).0, Next(ns[0]));
  }

  lemma {:induction false} GroupFacts(ns: seq<Word>)
    requires ns != []
    ensures var pid, us, vs := ns[0], GroupRead(ns), Group(ns);
            && (forall i :: 0 <= i < |us| ==> Shift(pid, us[i]) <= 15)
            && (forall i, j :: 0 <= i < j < |us| ==> Shift(pid, us[i]) < Shift(pid, us[j]))
            && (forall i :: 0 <= i < |vs| ==> Shift(pid, vs[i]) <= 15)
            && (GroupSize(ns) < |ns| ==> Shift(pid, ns[GroupSize(ns)]) > 15)
            && (Ascends(pid, vs, 0) ==> us == vs)
  {
    hide Shift, Fill, Unmask, Next, Ascends;
    GroupReadAscends(ns);
    FillStops(ns[0], 0, ns[1..]);
    var vs, g := Group(ns), GroupSize(ns);
    assert forall i :: 0 <= i < |vs| ==> vs[i] == ns[1..][i];
    assert g < |ns| ==> ns[g] == ns[1..][g - 1];
    if Ascends(ns[0], Group(ns), 0) {
      GroupReadBack(ns[0], ns[1..]);
    }
  }

  lemma {:induction false} GroupReadBack(pid: Word, ns: seq<Word>)
    requires Ascends(pid, ns[..Fill(pid, 0, ns).1], 0)
    ensures Unmask(Fill(pid, 0, ns).0, Next(pid)) == ns[..Fill(pid, 0, ns).1]
  {
    hide Fill, Next;
    FillUnmask(pid, 0, ns, 0);
    UnmaskOne(Next(pid));
  }

  // ----- lists that always come back

  /** How far ahead of `a` the number `b` lies on the number circle. */
  function Ahead(a: Word, b: Word): Word {
    Cut16(b - a)
  }

  /** Each number lies 1 to 65520 places ahead of the one before, round the number circle. */
  predicate Advancing(ns: seq<Word>) {
    forall i :: 0 < i < |ns| ==> 1 <= Ahead(ns[i - 1], ns[i]) <= 0xFFF0
  }

  lemma {:induction false} ShiftAdvances(pid: Word, a: Word, b: Word)
    requires 1 <= Ahead(a, b) <= 0xFFF0
    ensures Shift(pid, a) <= 15 ==> Shift(pid, b) > Shift(pid, a)
  {
  }

  lemma {:induction false} AdvancingGroup(pid: Word, blp: Word, ns: seq<Word>, from: nat)
    requires Advancing(ns) && (ns != [] ==> Shift(pid, ns[0]) >= from)
    ensures Ascends(pid, ns[..Fill(pid, blp, ns).1], from)
    decreases |ns|
  {
    hide Shift, SetBit, Ahead;
    if ns != [] && Shift(pid, ns[0]) <= 15 {
      var n, rest := Fill(pid, blp, ns).1, ns[1..];
      assert ns[..n][1..] == rest[..n - 1] && ns[..n][0] == ns[0];
      assert forall i :: 0 <= i < |rest| ==> rest[i] == ns[i + 1];
      if rest != [] { ShiftAdvances(pid, ns[0], ns[1]); }
      AdvancingGroup(pid, SetBit(blp, Shift(pid, ns[0])), rest, Shift(pid, ns[0]) + 1);
    }
  }

  lemma {:induction false} AdvancingFrom(ns: seq<Word>, k: nat)
    requires Advancing(ns) && k <= |ns|
    ensures Advancing(ns[k..])
  {
    hide Ahead;
    assert forall i :: 0 <= i < |ns[k..]| ==> ns[k..][i] == ns[i + k];
  }

  /** Numbers that advance, by 1 to 32767 say, always come back. */
  lemma {:induction false} AdvancingIsTidy(ns: seq<Word>, room: nat)
    requires Advancing(ns)
    ensures Tidy(ns, room)
    decreases room
  {
    if ns != [] && room > 0 {
      hide Ahead, Fill, Ascends, Advancing, Shift;
      AdvancingFrom(ns, 1);
      AdvancingFrom(ns, GroupSize(ns));
      AdvancingGroup(ns[0], 0, ns[1..], 0);
      AdvancingIsTidy(ns[GroupSize(ns)..], room - 1);
    }
  }

  // ----- no other items do with less

  /** Distances from `b` ascend, and stay short of the sixteen numbers before `b`. */
  predicate InWindow(ns: seq<Word>, b: Word) {
    && (forall i :: 0 <= i < |ns| ==> Ahead(b, ns[i]) < 0xFFF0)
    && (forall i, j :: 0 <= i < j < |ns| ==> Ahead(b, ns[i]) < Ahead(b, ns[j]))
  }

  /** The first numbers of two items lie at least 17 apart. */
  predicate Apart(items: seq<Item>, b: Word) {
    && (forall i :: 0 <= i < |items| ==> Ahead(b, items[i].pid) < 0xFFF0)
    && (forall i, j :: 0 <= i < j < |items| ==> Ahead(b, items[i].pid) + 17 <= Ahead(b, items[j].pid))
  }

  lemma {:induction false} ShiftFromBase(a: Word, c: Word, b: Word)
    requires Ahead(b, a) < Ahead(b, c) && Shift(a, c) > 15
    ensures Ahead(b, a) + 17 <= Ahead(b, c)
  {
  }

  /** The number behind a group lies at least 17 past its first. */
  lemma {:induction false} NextGroupApart(ns: seq<Word>, b: Word)
    requires ns != [] && InWindow(ns, b) && GroupSize(ns) < |ns|
    ensures Ahead(b, ns[0]) + 17 <= Ahead(b, ns[GroupSize(ns)])
  {
    hide Ahead, Fill, Shift;
    FillStops(ns[0], 0, ns[1..]);
    assert ns[GroupSize(ns)] == ns[1..][GroupSize(ns) - 1];
    ShiftFromBase(ns[0], ns[GroupSize(ns)], b);
  }

  lemma {:induction false} WindowTail(ns: seq<Word>, b: Word, k: nat)
    requires InWindow(ns, b) && k <= |ns|
    ensures InWindow(ns[k..], b)
  {
    hide Ahead;
    assert forall i :: 0 <= i < |ns| - k ==> ns[k..][i] == ns[i + k];
  }

  lemma {:induction false} ItemsApart(ns: seq<Word>, room: nat, b: Word)
    requires InWindow(ns, b)
    ensures Apart(Items(ns, room), b)
    ensures Items(ns, room) != [] <==> ns != [] && room > 0
    ensures Items(ns, room) != [] ==> Items(ns, room)[0].pid == ns[0]
    decreases room
  {
    hide Ahead, Fill, Apart, GroupSize;
    if ns == [] || room == 0 {
      NothingApart(b);
    } else {
      var g, tail := GroupSize(ns), ns[GroupSize(ns)..];
      WindowTail(ns, b, g);
      ItemsApart(tail, room - 1, b);
      if g < |ns| { NextGroupApart(ns, b); }
      ApartCons(Item(ns[0], Fill(ns[0], 0, ns[1..]).0), Items(tail, room - 1), b);
    }
  }

  lemma {:induction false} NothingApart(b: Word)
    ensures Apart([], b)
  {
  }

  lemma {:induction false} ApartCons(item: Item, items: seq<Item>, b: Word)
    requires Apart(items, b) && Ahead(b, item.pid) < 0xFFF0
    requires items != [] ==> Ahead(b, item.pid) + 17 <= Ahead(b, items[0].pid)
    ensures Apart([item] + items, b)
  {
    hide Ahead;
    var all := [item] + items;
    forall i, j | 0 <= i < j < |all| ensures Ahead(b, all[i].pid) + 17 <= Ahead(b, all[j].pid) {
      assert i == 0 && j > 1 ==> Ahead(b, items[0].pid) + 17 <= Ahead(b, items[j - 1].pid);
    }
  }

  /** A number an item can stand for. */
  predicate InReach(n: Word, item: Item) {
    Ahead(item.pid, n) <= 16
  }

  /** One item cannot stand for two numbers 17 or more apart. */
  lemma {:induction false} ReachIsShort(a: Word, c: Word, item: Item, b: Word)
    requires Ahead(b, a) + 17 <= Ahead(b, c) < 0xFFF0
    ensures !(InReach(a, item) && InReach(c, item))
  {
    AheadDifference(b, a, c);
    AheadDifference(item.pid, a, c);
    hide Ahead;
  }

  lemma {:induction false} AheadDifference(b: Word, a: Word, c: Word)
    ensures var x: int := Ahead(b, a); Ahead(a, c) == Cut16(Ahead(b, c) - x)
  {
  }

  predicate Reached(n: Word, others: seq<Item>) {
    exists j :: 0 <= j < |others| && InReach(n, others[j])
  }

  predicate AllReached(items: seq<Item>, others: seq<Item>) {
    forall i :: 0 <= i < |items| ==> Reached(items[i].pid, others)
  }

  /** What is left for the other numbers when the item used for one of them is taken away. */
  lemma {:induction false} ReachedWithout(n: Word, others: seq<Item>, j: nat)
    requires j < |others| && Reached(n, others) && !InReach(n, others[j])
    ensures Reached(n, others[..j] + others[j + 1..])
  {
    hide InReach;
    var l :| 0 <= l < |others| && InReach(n, others[l]);
    assert (others[..j] + others[j + 1..])[if l < j then l else l - 1] == others[l];
  }

  /** Pigeonhole: far-apart numbers need an item each. */
  lemma {:induction false} OneItemEach(items: seq<Item>, others: seq<Item>, b: Word)
    requires Apart(items, b) && AllReached(items, others)
    ensures |items| <= |others|
  {
    if items != [] {
      hide Ahead, InReach;
      var k := |items| - 1;
      var init := items[..k];
      assert Reached(items[k].pid, others);
      var j :| 0 <= j < |others| && InReach(items[k].pid, others[j]);
      var fewer := others[..j] + others[j + 1..];
      forall i | 0 <= i < |init| ensures Reached(init[i].pid, fewer) {
        assert init[i] == items[i];
        ReachIsShort(items[i].pid, items[k].pid, others[j], b);
        ReachedWithout(items[i].pid, others, j);
      }
      OneItemEach(init, fewer, b);
    }
  }

  /** What an item unpacks to is in its reach. */
  lemma {:induction false} UnpackedInReach(items: seq<Item>, n: Word)
    requires n in Unpacked(items)
    ensures Reached(n, items)
  {
    hide InReach, Next, Unmask;
    var item, rest := items[0], items[1..];
    if n in Unpacked(rest) {
      UnpackedInReach(rest, n);
      var j :| 0 <= j < |rest| && InReach(n, rest[j]);
      assert InReach(n, items[j + 1]);
    } else {
      ItemReaches(item, n);
    }
  }

  lemma {:induction false} ItemReaches(item: Item, n: Word)
    requires n == item.pid || n in Unmask(item.blp, Next(item.pid))
    ensures InReach(n, item)
  {
    hide Unmask, Next, Shift, Ahead;
    MaskAscends(item.blp, item.pid);
    ReachOfShift(item.pid, n);
  }

  lemma {:induction false} ReachOfShift(pid: Word, n: Word)
    ensures n == pid || Shift(pid, n) <= 15 ==> Ahead(pid, n) <= 16
  {
  }

  lemma {:induction false} FirstsAreTaken(ns: seq<Word>, room: nat)
    ensures forall i :: 0 <= i < |Items(ns, room)| ==> Items(ns, room)[i].pid in ns[..Taken(ns, room)]
    decreases room
  {
    if ns != [] && room > 0 {
      hide Fill;
      var g, tail := GroupSize(ns), ns[GroupSize(ns)..];
      FirstsAreTaken(tail, room - 1);
      TakenCons(ns, room);
      var items, rest := Items(ns, room), Items(tail, room - 1);
      forall i | 0 <= i < |items| ensures items[i].pid in ns[..Taken(ns, room)] {
        if i > 0 { assert items[i] == rest[i - 1]; }
      }
    }
  }

  /** Within one window of the number circle, any items that stand for at least the numbers taken are no fewer. */
  lemma {:induction false} FewestItems(ns: seq<Word>, room: nat, b: Word, others: seq<Item>)
    requires InWindow(ns, b)
    requires forall i :: 0 <= i < Taken(ns, room) ==> ns[i] in Unpacked(others)
    ensures |Items(ns, room)| <= |others|
  {
    hide Ahead, Reached, InWindow, Items, Taken, Unpacked, Apart;
    var items := Items(ns, room);
    ItemsApart(ns, room, b);
    FirstsAreTaken(ns, room);
    forall i | 0 <= i < |items| ensures Reached(items[i].pid, others) {
      UnpackedInReach(others, items[i].pid);
    }
    OneItemEach(items, others, b);
  }
}
