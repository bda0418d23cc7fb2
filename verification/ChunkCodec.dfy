/** The loops of the three chunk classes: symbols packed into words and unpacked, deltas read per
    status. Each is proved against the functions of Chunks and FeedbackWire. */
module ChunkCodec {
  import opened Bytes
  import opened Chunks
  import opened FeedbackWire

  // ----- chunks to and from words

  lemma {:induction false} TwoBitWordSnoc(ss: seq<Status>, j: nat)
    requires AllPlain(ss) && j < |ss| <= 7
    ensures AllPlain(ss[..j]) && AllPlain(ss[..j + 1])
    ensures TwoBitWord(ss[..j + 1]) == TwoBitWord(ss[..j]) + StatusCode(ss[j]) * SymbolWeight(j)
  {
    assert forall k: nat :: k != j ==> Symbol(ss[..j + 1], k) == Symbol(ss[..j], k);
    assert Symbol(ss[..j + 1], j) == StatusCode(ss[j]) && Symbol(ss[..j], j) == 0;
  }

  /** RunLengthChunk::Serialize and TwoBitVectorChunk::Serialize, up to the byte order. */
  method SerializeChunk(c: Chunk) returns (bytes: Word)
    requires Encodable(c)
    ensures bytes == ChunkWord(c)
  {
    match c
    case RunLength(status, count) =>
      bytes := StatusCode(status) * 0x2000;
      bytes := bytes + count % 0x2000;
    case TwoBitVector(statuses) =>
      bytes := 0x8000;
      bytes := bytes + 0x4000;
      for k := 0 to |statuses|
        invariant AllPlain(statuses[..k]) && bytes == TwoBitWord(statuses[..k])
      {
        TwoBitWordSnoc(statuses, k);
        bytes := bytes + StatusCode(statuses[k]) * SymbolWeight(k);
      }
      assert statuses[..|statuses|] == statuses;
  }

  /** Chunk::Parse with the parsing constructors of the three chunk classes. */
  method ParseChunkWord(bytes: Word, remaining: nat) returns (chunk: Option<Chunk>)
    ensures chunk == ParseChunk(bytes, remaining)
  {
    if bytes / 0x8000 == 0 {
      var status := StatusFromCode((bytes / 0x2000) % 4);
      match status
      case NotReceived => chunk := Some(RunLength(status, bytes % 0x2000));
      case SmallDelta => chunk := Some(RunLength(status, bytes % 0x2000));
      case LargeDelta => chunk := Some(RunLength(status, bytes % 0x2000));
      case _ => chunk := None;
    } else if (bytes / 0x4000) % 2 == 0 {
      var statuses: seq<Status>, i, count := [], 0, remaining;
      while i < 14 && count > 0
        invariant i <= 14 && i + count == remaining && |statuses| == i
        invariant forall k :: 0 <= k < i ==> statuses[k] == OneBitSymbol(bytes, k)
      {
        statuses, i, count := statuses + [OneBitSymbol(bytes, i)], i + 1, count - 1;
      }
      assert statuses == seq(Min(14, remaining), i requires 0 <= i < 14 => OneBitSymbol(bytes, i));
      chunk := Some(OneBitVector(statuses));
    } else {
      var statuses: seq<Status>, i, count := [], 0, remaining;
      while i < 7 && count > 0
        invariant i <= 7 && i + count == remaining && |statuses| == i
        invariant forall k :: 0 <= k < i ==> statuses[k] == TwoBitSymbol(bytes, k)
      {
        statuses, i, count := statuses + [TwoBitSymbol(bytes, i)], i + 1, count - 1;
      }
      assert statuses == seq(Min(7, remaining), i requires 0 <= i < 7 => TwoBitSymbol(bytes, i));
      chunk := Some(TwoBitVector(statuses));
    }
  }

  /** A chunk the parser can produce. */
  predicate FromWire(c: Chunk) {
    match c
    case RunLength(s, n) => IsPlain(s) && n <= MAX_RUN
    case OneBitVector(ss) => forall i :: 0 <= i < |ss| ==> ss[i] == NotReceived || ss[i] == SmallDelta
    case TwoBitVector(ss) => forall i :: 0 <= i < |ss| ==> ss[i] != Unset
  }

  lemma {:induction false} ParsedFromWire(w: Word, remaining: nat)
    ensures var c := ParseChunk(w, remaining); c.Some? ==> FromWire(c.value)
  {
  }

  // ----- Chunk::AddDeltas

  /** What is still to be read once `k` statuses have used `offset` bytes and given `taken`. */
  predicate Reading(ss: seq<Status>, data: seq<Byte>, k: nat, offset: nat, taken: seq<int>)
    requires k <= |ss| && offset <= |data|
  {
    var rest := ReadDeltas(ss[k..], data[offset..]);
    var whole := ReadDeltas(ss, data);
    && (whole.Some? <==> rest.Some?)
    && (whole.Some? ==> whole.value.0 == taken + rest.value.0 && whole.value.1 == rest.value.1)
  }

  lemma {:induction false} ReadingStep(ss: seq<Status>, data: seq<Byte>, k: nat, offset: nat, taken: seq<int>)
    requires k < |ss| && offset <= |data| && Reading(ss, data, k, offset, taken)
    ensures !IsReceived(ss[k]) ==> Reading(ss, data, k + 1, offset, taken)
    ensures ss[k] == SmallDelta && offset < |data| ==>
              Reading(ss, data, k + 1, offset + 1, taken + [data[offset] as int])
    ensures ss[k] == LargeDelta && offset + 1 < |data| ==>
              Reading(ss, data, k + 1, offset + 2, taken + [SignedWord(WordAt(data, offset))])
    ensures ss[k] == SmallDelta && offset == |data| ==> ReadDeltas(ss, data) == None
    ensures ss[k] == LargeDelta && offset + 1 >= |data| ==> ReadDeltas(ss, data) == None
  {
    var rest := data[offset..];
    assert ss[k..][1..] == ss[k + 1..];
    if ss[k] == SmallDelta && offset < |data| {
      assert rest[1..] == data[offset + 1..] && rest[0] == data[offset];
    } else if ss[k] == LargeDelta && offset + 1 < |data| {
      assert rest[2..] == data[offset + 2..] && WordAt(rest, 0) == WordAt(data, offset);
    }
  }

  /** A run with too few bytes left for its count cannot be read. */
  lemma {:induction false} ShortRun(s: Status, n: nat, data: seq<Byte>)
    requires IsReceived(s) && |data| < n * (if s == SmallDelta then 1 else 2)
    ensures ReadDeltas(Repeat(s, n), data) == None
  {
    assert Repeat(s, n)[1..] == Repeat(s, n - 1);
    if s == SmallDelta {
      if |data| >= 1 { ShortRun(s, n - 1, data[1..]); }
    } else {
      if |data| >= 2 { ShortRun(s, n - 1, data[2..]); }
    }
  }

  /** What AddDeltas promises of the statuses `ss`. */
  predicate AddsDeltas(ss: seq<Status>, data: seq<Byte>, ok: bool, deltas: seq<int>, offset: nat) {
    && (ok <==> ReadDeltas(ss, data).Some?)
    && (ok ==> offset <= |data| && ReadDeltas(ss, data) == Some((deltas, data[offset..])))
  }

  /** RunLengthChunk::AddDeltas: the length is checked once, for the whole run. */
  method AddRunDeltas(status: Status, count: Word, data: seq<Byte>) returns (ok: bool, deltas: seq<int>, offset: nat)
    requires IsPlain(status)
    ensures AddsDeltas(Repeat(status, count), data, ok, deltas, offset)
  {
    deltas, offset := [], 0;
    ghost var ss := Repeat(status, count);
    StartReading(ss, data);
    if status == NotReceived {
      SkipRun(count, data, count);
    } else {
      var width: nat := if status == SmallDelta then 1 else 2;
      if |data| < count * width {
        ShortRun(status, count, data);
        return false, deltas, offset;
      }
      for i := 0 to count
        invariant offset == i * width
        invariant offset <= |data| && Reading(ss, data, i, offset, deltas)
      {
        ReadingStep(ss, data, i, offset, deltas);
        if status == SmallDelta {
          deltas := deltas + [data[offset] as int];
        } else {
          deltas := deltas + [SignedWord(WordAt(data, offset))];
        }
        offset := offset + width;
      }
    }
    ReadingDone(ss, data, offset, deltas);
    ok := true;
  }

  /** OneBitVectorChunk::AddDeltas. */
  method AddOneBitDeltas(statuses: seq<Status>, data: seq<Byte>) returns (ok: bool, deltas: seq<int>, offset: nat)
    requires FromWire(OneBitVector(statuses))
    ensures AddsDeltas(statuses, data, ok, deltas, offset)
  {
    deltas, offset := [], 0;
    StartReading(statuses, data);
    for i := 0 to |statuses|
      invariant offset <= |data| && Reading(statuses, data, i, offset, deltas)
    {
      ReadingStep(statuses, data, i, offset, deltas);
      if statuses[i] == SmallDelta {
        if |data| - offset < 1 {
          return false, deltas, offset;
        }
        deltas := deltas + [data[offset] as int];
        offset := offset + 1;
      } else if statuses[i] != NotReceived {
        return false, deltas, offset;
      }
    }
    ReadingDone(statuses, data, offset, deltas);
    ok := true;
  }

  /** TwoBitVectorChunk::AddDeltas: the reserved symbol is passed over. */
  method AddTwoBitDeltas(statuses: seq<Status>, data: seq<Byte>) returns (ok: bool, deltas: seq<int>, offset: nat)
    ensures AddsDeltas(statuses, data, ok, deltas, offset)
  {
    deltas, offset := [], 0;
    StartReading(statuses, data);
    for i := 0 to |statuses|
      invariant offset <= |data| && Reading(statuses, data, i, offset, deltas)
    {
      ReadingStep(statuses, data, i, offset, deltas);
      if statuses[i] == SmallDelta {
        if |data| - offset < 1 {
          return false, deltas, offset;
        }
        deltas := deltas + [data[offset] as int];
        offset := offset + 1;
      } else if statuses[i] == LargeDelta {
        if |data| - offset < 2 {
          return false, deltas, offset;
        }
        deltas := deltas + [SignedWord(WordAt(data, offset))];
        offset := offset + 2;
      }
    }
    ReadingDone(statuses, data, offset, deltas);
    ok := true;
  }

  method AddDeltas(c: Chunk, data: seq<Byte>) returns (ok: bool, deltas: seq<int>, offset: nat)
    requires FromWire(c)
    ensures AddsDeltas(Expand(c), data, ok, deltas, offset)
  {
    match c
    case RunLength(status, count) => ok, deltas, offset := AddRunDeltas(status, count, data);
    case OneBitVector(statuses) => ok, deltas, offset := AddOneBitDeltas(statuses, data);
    case TwoBitVector(statuses) => ok, deltas, offset := AddTwoBitDeltas(statuses, data);
  }

  lemma {:induction false} StartReading(ss: seq<Status>, data: seq<Byte>)
    ensures Reading(ss, data, 0, 0, [])
  {
    assert ss[0..] == ss && data[0..] == data;
  }

  lemma {:induction false} SkipRun(n: nat, data: seq<Byte>, k: nat)
    requires k <= n
    ensures Reading(Repeat(NotReceived, n), data, k, 0, [])
  {
    var ss := Repeat(NotReceived, n);
    if k == 0 {
      assert ss[0..] == ss && data[0..] == data;
    } else {
      SkipRun(n, data, k - 1);
      ReadingStep(ss, data, k - 1, 0, []);
    }
  }

  lemma {:induction false} ReadingDone(ss: seq<Status>, data: seq<Byte>, offset: nat, deltas: seq<int>)
    requires offset <= |data| && Reading(ss, data, |ss|, offset, deltas)
    ensures ReadDeltas(ss, data) == Some((deltas, data[offset..]))
  {
    assert ss[|ss|..] == [];
    assert deltas + [] == deltas;
  }
}
