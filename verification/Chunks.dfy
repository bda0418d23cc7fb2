/** Packet status symbols and the packet chunks they are compressed into
    (draft-holmer-rmcat-transport-wide-cc-extensions-01, sections 3.1.2 to 3.1.4). */
module Chunks {
  import opened Bytes

  datatype Status = NotReceived | SmallDelta | LargeDelta | Reserved | Unset

  datatype Chunk =
    | RunLength(status: Status, count: Word)
    | OneBitVector(statuses: seq<Status>)
    | TwoBitVector(statuses: seq<Status>)

  const MAX_RUN: int := 0x1FFF

  function StatusCode(s: Status): nat {
    match s
    case NotReceived => 0
    case SmallDelta => 1
    case LargeDelta => 2
    case Reserved => 3
    case Unset => 4
  }

  function StatusFromCode(code: nat): Status
    requires code < 4
  {
    if code == 0 then NotReceived
    else if code == 1 then SmallDelta
    else if code == 2 then LargeDelta
    else Reserved
  }

  predicate IsReceived(s: Status) {
    s == SmallDelta || s == LargeDelta
  }

  /** The statuses an encoder ever puts in a chunk. */
  predicate IsPlain(s: Status) {
    s == NotReceived || IsReceived(s)
  }

  predicate AllPlain(ss: seq<Status>) {
    forall i :: 0 <= i < |ss| ==> IsPlain(ss[i])
  }

  /** The status list a chunk stands for. */
  function Expand(c: Chunk): seq<Status> {
    match c
    case RunLength(s, n) => Repeat(s, n)
    case OneBitVector(ss) => ss
    case TwoBitVector(ss) => ss
  }

  function ExpandAll(cs: seq<Chunk>): seq<Status> {
    if cs == [] then [] else Expand(cs[0]) + ExpandAll(cs[1..])
  }

  lemma {:induction false} ExpandAllAppend(a: seq<Chunk>, b: seq<Chunk>)
    ensures ExpandAll(a + b) == ExpandAll(a) + ExpandAll(b)
  {
    if a == [] {
      assert a + b == b;
    } else {
      assert (a + b)[1..] == a[1..] + b;
      ExpandAllAppend(a[1..], b);
    }
  }

  lemma {:induction false} ExpandAllSnoc(cs: seq<Chunk>, c: Chunk)
    ensures ExpandAll(cs + [c]) == ExpandAll(cs) + Expand(c)
  {
    ExpandAllAppend(cs, [c]);
    assert ExpandAll([c]) == Expand(c) + ExpandAll([]);
  }

  function ReceivedCount(ss: seq<Status>): nat {
    if ss == [] then 0
    else ReceivedCount(ss[..|ss| - 1]) + (if IsReceived(ss[|ss| - 1]) then 1 else 0)
  }

  lemma {:induction false} ReceivedCountAppend(a: seq<Status>, b: seq<Status>)
    ensures ReceivedCount(a + b) == ReceivedCount(a) + ReceivedCount(b)
  {
    if b == [] {
      assert a + b == a;
    } else {
      assert (a + b)[..|a + b| - 1] == a + b[..|b| - 1];
      ReceivedCountAppend(a, b[..|b| - 1]);
    }
  }

  lemma {:induction false} ReceivedCountPrefix(ss: seq<Status>, k: nat)
    requires k <= |ss|
    ensures ReceivedCount(ss[..k]) <= ReceivedCount(ss)
  {
    assert ss == ss[..k] + ss[k..];
    ReceivedCountAppend(ss[..k], ss[k..]);
  }

  lemma {:induction false} NoneReceived(n: nat)
    ensures ReceivedCount(Repeat(NotReceived, n)) == 0
  {
    if n > 0 {
      assert Repeat(NotReceived, n)[..n - 1] == Repeat(NotReceived, n - 1);
      NoneReceived(n - 1);
    }
  }

  lemma {:induction false} AllReceivedCount(ss: seq<Status>)
    requires forall i :: 0 <= i < |ss| ==> IsReceived(ss[i])
    ensures ReceivedCount(ss) == |ss|
  {
    if ss != [] {
      AllReceivedCount(ss[..|ss| - 1]);
    }
  }

  lemma {:induction false} ReceivedAtMost(ss: seq<Status>)
    ensures ReceivedCount(ss) <= |ss|
  {
    if ss != [] {
      ReceivedAtMost(ss[..|ss| - 1]);
    }
  }

  // ----- the 16-bit word of a chunk

  function Symbol(ss: seq<Status>, k: nat): nat {
    if k < |ss| then StatusCode(ss[k]) else 0
  }

  /** A chunk the encoder can produce: a run of a plain status (of length zero when its count has wrapped 16 bits), or
      up to seven plain two-bit symbols. */
  predicate Encodable(c: Chunk) {
    match c
    case RunLength(s, _) => IsPlain(s)
    case OneBitVector(_) => false
    case TwoBitVector(ss) => 0 < |ss| <= 7 && AllPlain(ss)
  }

  /** Chunk::Serialize: the run length is cut to 13 bits. Fields occupy disjoint bits, so OR is a sum. */
  function ChunkWord(c: Chunk): Word
    requires Encodable(c)
  {
    match c
    case RunLength(s, n) => StatusCode(s) * 0x2000 + n % 0x2000
    case TwoBitVector(ss) => TwoBitWord(ss)
  }

  function TwoBitWord(ss: seq<Status>): Word
    requires AllPlain(ss)
  {
    0xC000
    + Symbol(ss, 0) * 0x1000 + Symbol(ss, 1) * 0x400 + Symbol(ss, 2) * 0x100 + Symbol(ss, 3) * 0x40
    + Symbol(ss, 4) * 0x10 + Symbol(ss, 5) * 4 + Symbol(ss, 6)
  }

  /** 4^(6 - i): the weight of the two-bit symbol `i`. */
  function SymbolWeight(i: nat): (p: nat)
    requires i < 7
    ensures p > 0
  {
    if i == 0 then 0x1000 else if i == 1 then 0x400 else if i == 2 then 0x100 else if i == 3 then 0x40
    else if i == 4 then 0x10 else if i == 5 then 4 else 1
  }

  /** `(w >> 2 * (6 - i)) & 3` of the two-bit constructor, or `(w >> (13 - i)) & 1` of the one-bit one. */
  function TwoBitSymbol(w: Word, i: nat): Status
    requires i < 7
  {
    StatusFromCode((w / SymbolWeight(i)) % 4)
  }

  function OneBitSymbol(w: Word, i: nat): Status
    requires i < 14
  {
    StatusFromCode((w / Pow2(13 - i)) % 2)
  }

  /** Chunk::Parse and the three parsing constructors; `remaining` statuses are still expected. */
  function ParseChunk(w: Word, remaining: nat): Option<Chunk> {
    if w < 0x8000 then
      var s := StatusFromCode((w / 0x2000) % 4);
      if s == Reserved then None else Some(RunLength(s, w % 0x2000))
    else if (w / 0x4000) % 2 == 0 then
      Some(OneBitVector(seq(Min(14, remaining), i requires 0 <= i < 14 => OneBitSymbol(w, i))))
    else
      Some(TwoBitVector(seq(Min(7, remaining), i requires 0 <= i < 7 => TwoBitSymbol(w, i))))
  }

  /** A vector chunk must be full unless it closes the packet. */
  predicate FillsSlots(c: Chunk, remaining: nat) {
    c.TwoBitVector? ==> |c.statuses| == Min(7, remaining)
  }

  /** Shifting right by whole symbols drops the symbols to the right. */
  lemma {:induction false} SymbolShifts(w: nat, a: nat, b: nat, c: nat, d: nat, e: nat, f: nat, g: nat)
    requires a < 4 && b < 4 && c < 4 && d < 4 && e < 4 && f < 4 && g < 4
    requires w == 0xC000 + a * 0x1000 + b * 0x400 + c * 0x100 + d * 0x40 + e * 0x10 + f * 4 + g
    ensures (w / 0x1000) % 4 == a && (w / 0x400) % 4 == b && (w / 0x100) % 4 == c && (w / 0x40) % 4 == d
    ensures (w / 0x10) % 4 == e && (w / 4) % 4 == f && w % 4 == g
  {
    assert w / 4 == 12288 + 1024 * a + 256 * b + 64 * c + 16 * d + 4 * e + f;
    assert w / 0x10 == 3072 + 256 * a + 64 * b + 16 * c + 4 * d + e;
    assert w / 0x40 == 768 + 64 * a + 16 * b + 4 * c + d;
    assert w / 0x100 == 192 + 16 * a + 4 * b + c;
    assert w / 0x400 == 48 + 4 * a + b;
    assert w / 0x1000 == 12 + a;
  }

  lemma {:induction false} TwoBitSymbolOfWord(ss: seq<Status>, i: nat)
    requires AllPlain(ss) && |ss| <= 7 && i < 7
    ensures TwoBitSymbol(TwoBitWord(ss), i) == if i < |ss| then ss[i] else NotReceived
  {
    SymbolShifts(TwoBitWord(ss), Symbol(ss, 0), Symbol(ss, 1), Symbol(ss, 2), Symbol(ss, 3), Symbol(ss, 4),
                 Symbol(ss, 5), Symbol(ss, 6));
    hide TwoBitWord;
    assert StatusFromCode(Symbol(ss, i)) == if i < |ss| then ss[i] else NotReceived;
    if i == 0 {} else if i == 1 {} else if i == 2 {} else if i == 3 {} else if i == 4 {} else if i == 5 {} else {}
  }

  /** A vector is read with as many symbols as are still expected, up to seven; those it does not hold read as packets
      not received. */
  lemma {:induction false} VectorRead(ss: seq<Status>, remaining: nat)
    requires |ss| <= 7 && AllPlain(ss)
    ensures ParseChunk(TwoBitWord(ss), remaining) ==
            Some(TwoBitVector((ss + Repeat(NotReceived, 7 - |ss|))[..Min(7, remaining)]))
  {
    var w, k := TwoBitWord(ss), Min(7, remaining);
    assert 0xC000 <= w < 0x1_0000;
    var filled := ss + Repeat(NotReceived, 7 - |ss|);
    forall i | 0 <= i < 7 ensures TwoBitSymbol(w, i) == filled[i] {
      TwoBitSymbolOfWord(ss, i);
    }
    hide TwoBitWord, TwoBitSymbol;
    assert seq(k, i requires 0 <= i < 7 => TwoBitSymbol(w, i)) == filled[..k];
  }

  lemma {:induction false} VectorRoundTrip(ss: seq<Status>, remaining: nat)
    requires 0 < |ss| <= 7 && AllPlain(ss) && |ss| == Min(7, remaining)
    ensures ParseChunk(TwoBitWord(ss), remaining) == Some(TwoBitVector(ss))
  {
    hide TwoBitWord, ParseChunk;
    VectorRead(ss, remaining);
    assert (ss + Repeat(NotReceived, 7 - |ss|))[..|ss|] == ss;
  }

  lemma {:induction false} RunRoundTrip(s: Status, n: Word, remaining: nat)
    requires IsPlain(s)
    ensures ParseChunk(StatusCode(s) * 0x2000 + n % 0x2000, remaining) == Some(RunLength(s, n % 0x2000))
  {
  }

  /** A chunk written by the encoder is read back unchanged exactly when its run fits 13 bits. */
  lemma {:induction false} ChunkRoundTrip(c: Chunk, remaining: nat)
    requires Encodable(c) && FillsSlots(c, remaining)
    ensures ParseChunk(ChunkWord(c), remaining) == Some(c) <==> (c.RunLength? ==> c.count <= MAX_RUN)
  {
    hide ParseChunk, TwoBitWord;
    match c
    case RunLength(s, n) => RunRoundTrip(s, n, remaining);
    case TwoBitVector(ss) => VectorRoundTrip(ss, remaining);
  }

  // ----- what a cut run loses

  /** What is left of a chunk once its run is cut to 13 bits. */
  function CutChunk(c: Chunk): Chunk {
    if c.RunLength? then RunLength(c.status, c.count % 0x2000) else c
  }

  /** Whatever is still expected, the word of a chunk never reads back as more received packets than the cut chunk
      holds: a closing vector is filled up with packets not received. */
  lemma {:induction false} WordReceived(c: Chunk, remaining: nat)
    requires Encodable(c)
    ensures var p := ParseChunk(ChunkWord(c), remaining);
            p.Some? && ReceivedCount(Expand(p.value)) <= ReceivedCount(Expand(CutChunk(c)))
  {
    match c
    case RunLength(s, n) => RunRoundTrip(s, n, remaining);
    case TwoBitVector(ss) =>
      hide TwoBitWord, ParseChunk;
      VectorRead(ss, remaining);
      var filled := ss + Repeat(NotReceived, 7 - |ss|);
      ReceivedCountPrefix(filled, Min(7, remaining));
      ReceivedCountAppend(ss, Repeat(NotReceived, 7 - |ss|));
      NoneReceived(7 - |ss|);
  }

  /** No single word stands for more received packets than the longest run. */
  lemma {:induction false} AnyWordReceived(w: Word, remaining: nat)
    ensures var p := ParseChunk(w, remaining); p.Some? ==> ReceivedCount(Expand(p.value)) <= MAX_RUN
  {
    var p := ParseChunk(w, remaining);
    hide TwoBitSymbol, OneBitSymbol;
    if p.Some? {
      ReceivedAtMost(Expand(p.value));
    }
  }

  // ----- any word, bit by bit

  /** The number some bits make, the first of them being the highest. */
  function Number(bits: seq<bool>): (n: nat)
    ensures n < Pow2(|bits|)
  {
    if bits == [] then 0 else 2 * Number(bits[..|bits| - 1]) + (if bits[|bits| - 1] then 1 else 0)
  }

  function WordOf(bits: seq<bool>): Word
    requires |bits| == 16
  {
    Powers();
    Number(bits)
  }

  lemma {:induction false} Powers()
    ensures Pow2(16) == 0x1_0000 && Pow2(15) == 0x8000 && Pow2(14) == 0x4000 && Pow2(13) == 0x2000
    ensures Pow2(12) == 0x1000 && Pow2(10) == 0x400 && Pow2(8) == 0x100 && Pow2(6) == 0x40 && Pow2(4) == 0x10
    ensures Pow2(2) == 4 && Pow2(0) == 1
  {
    assert Pow2(4) == 0x10;
    assert Pow2(8) == 0x100;
    assert Pow2(12) == 0x1000;
  }

  lemma {:induction false} MulTwo(a: int, p: int)
    ensures 2 * (a * p) == a * (2 * p)
  {
  }

  /** A number cut in two behind its first `k` bits. */
  lemma {:induction false} NumberSplits(bits: seq<bool>, k: nat)
    requires k <= |bits|
    ensures Number(bits) == Number(bits[..k]) * Pow2(|bits| - k) + Number(bits[k..])
  {
    if k == |bits| {
      assert bits[..k] == bits;
    } else {
      var n := |bits| - 1;
      NumberSplits(bits[..n], k);
      assert bits[..n][..k] == bits[..k] && bits[..n][k..] == bits[k..][..n - k];
      MulTwo(Number(bits[..k]), Pow2(n - k));
    }
  }

  lemma {:induction false} Quotient(a: nat, p: nat, r: nat)
    requires r < p
    ensures (a * p + r) / p == a && (a * p + r) % p == r
  {
    var n := a * p + r;
    var q, m := n / p, n % p;
    assert n == q * p + m;
    MulOrder(a, q + 1, p);
    MulOrder(q, a + 1, p);
    assert (q + 1) * p == q * p + p && (a + 1) * p == a * p + p;
  }

  lemma {:induction false} BitsAt(bits: seq<bool>, k: nat)
    requires k <= |bits|
    ensures Number(bits) / Pow2(|bits| - k) == Number(bits[..k]) && Number(bits) % Pow2(|bits| - k) == Number(bits[k..])
  {
    NumberSplits(bits, k);
    Quotient(Number(bits[..k]), Pow2(|bits| - k), Number(bits[k..]));
  }

  /** The last one or two of some bits. */
  lemma {:induction false} LastBits(bits: seq<bool>)
    requires bits != []
    ensures Number(bits) % 2 == if bits[|bits| - 1] then 1 else 0
    ensures |bits| > 1 ==>
              Number(bits) % 4 == (if bits[|bits| - 2] then 2 else 0) + (if bits[|bits| - 1] then 1 else 0)
  {
    if |bits| > 1 {
      var init := bits[..|bits| - 1];
      assert Number(init) == 2 * Number(init[..|init| - 1]) + (if init[|init| - 1] then 1 else 0);
    }
  }

  /** The status two bits stand for. */
  function CodedStatus(high: bool, low: bool): Status {
    if high then if low then Reserved else LargeDelta else if low then SmallDelta else NotReceived
  }

  lemma {:induction false} OneBitRead(b: seq<bool>, i: nat)
    requires |b| == 16 && i < 14
    ensures OneBitSymbol(WordOf(b), i) == if b[2 + i] then SmallDelta else NotReceived
  {
    hide Pow2, Number;
    BitsAt(b, 3 + i);
    LastBits(b[..3 + i]);
  }

  lemma {:induction false} TwoBitsRead(b: seq<bool>, i: nat)
    requires |b| == 16 && i < 7
    ensures TwoBitSymbol(WordOf(b), i) == CodedStatus(b[2 + 2 * i], b[3 + 2 * i])
  {
    hide Pow2, Number;
    Powers();
    assert SymbolWeight(i) == Pow2(12 - 2 * i);
    BitsAt(b, 4 + 2 * i);
    LastBits(b[..4 + 2 * i]);
  }

  lemma {:induction false} FirstBits(b: seq<bool>)
    requires |b| == 16
    ensures var w := WordOf(b);
            && (w < 0x8000 <==> !b[0]) && ((w / 0x4000) % 2 == 0 <==> !b[1])
            && (w / 0x2000) % 4 == (if b[1] then 2 else 0) + (if b[2] then 1 else 0)
            && w % 0x2000 == Number(b[3..])
  {
    Powers();
    assert Number(b[..1]) == (if b[0] then 1 else 0) by { assert b[..1][..0] == []; }
    hide Pow2, Number;
    BitsAt(b, 1);
    BitsAt(b, 2);
    BitsAt(b, 3);
    LastBits(b[..2]);
    LastBits(b[..3]);
  }

  /** What any word is read as: a first bit of 0 announces a run, its status in two bits and its length in thirteen; 1
      and 0 announce a vector of fourteen one-bit symbols, 1 and 1 one of seven two-bit symbols, both from the highest
      bit on and no more of them than are still expected. */
  lemma {:induction false} WordRead(b: seq<bool>, remaining: nat)
    requires |b| == 16
    ensures var p := ParseChunk(WordOf(b), remaining);
            if !b[0] then
              var s := CodedStatus(b[1], b[2]);
              if s == Reserved then p.None?
              else p.Some? && p.value.RunLength? && p.value.status == s && p.value.count == Number(b[3..])
            else if !b[1] then
              && p.Some? && p.value.OneBitVector? && |p.value.statuses| == Min(14, remaining)
              && forall i :: 0 <= i < |p.value.statuses| ==>
                   p.value.statuses[i] == if b[2 + i] then SmallDelta else NotReceived
            else
              && p.Some? && p.value.TwoBitVector? && |p.value.statuses| == Min(7, remaining)
              && forall i :: 0 <= i < |p.value.statuses| ==>
                   p.value.statuses[i] == CodedStatus(b[2 + 2 * i], b[3 + 2 * i])
  {
    FirstBits(b);
    hide WordOf, OneBitSymbol, TwoBitSymbol, Number;
    forall i | 0 <= i < 14 ensures OneBitSymbol(WordOf(b), i) == if b[2 + i] then SmallDelta else NotReceived {
      OneBitRead(b, i);
    }
    forall i | 0 <= i < 7 ensures TwoBitSymbol(WordOf(b), i) == CodedStatus(b[2 + 2 * i], b[3 + 2 * i]) {
      TwoBitsRead(b, i);
    }
  }
}
