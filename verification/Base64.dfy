/** Base64 (section 4 of RFC 4648): the streaming encoder and decoder over three- and four-byte buffers. */
module Base64 {
  import opened Bytes

  const PAD: Byte := 0x3D
  /** What std::string::npos leaves of a symbol that is not in the alphabet. */
  const NOT_FOUND: Byte := 0xFF

  /** base64_chars[v]. */
  function Symbol(v: nat): Byte
    requires v < 64
  {
    if v < 26 then 0x41 + v else if v < 52 then 0x61 + (v - 26) else if v < 62 then 0x30 + (v - 52)
    else if v == 62 then 0x2B else 0x2F
  }

  /** is_base64. */
  predicate IsSymbol(c: Byte) {
    c == 0x2B || 0x2F <= c <= 0x39 || 0x41 <= c <= 0x5A || 0x61 <= c <= 0x7A
  }

  /** base64_chars.find(c), cut to a byte. */
  function Value(c: Byte): Byte {
    if 0x41 <= c <= 0x5A then c - 0x41 else if 0x61 <= c <= 0x7A then c - 0x61 + 26
    else if 0x30 <= c <= 0x39 then c - 0x30 + 52 else if c == 0x2B then 62 else if c == 0x2F then 63 else NOT_FOUND
  }

  /** Three bytes as four six-bit values, and four values as three bytes. */
  function ToSix(a: Byte, b: Byte, c: Byte): (nat, nat, nat, nat) {
    (a / 4, a % 4 * 16 + b / 16, b % 16 * 4 + c / 64, c % 64)
  }

  function FromSix(w: Byte, x: Byte, y: Byte, z: Byte): (Byte, Byte, Byte) {
    ((w * 4 + x / 16 % 4) % 0x100, (x % 16 * 16 + y / 4 % 16) % 0x100, (y % 4 * 64 + z) % 0x100)
  }

  function EncodeGroup(a: Byte, b: Byte, c: Byte): (r: seq<Byte>)
    ensures |r| == 4
  {
    var v := ToSix(a, b, c);
    [Symbol(v.0), Symbol(v.1), Symbol(v.2), Symbol(v.3)]
  }

  /** The last, partial group. */
  function EncodeRest(s: seq<Byte>): seq<Byte>
    requires |s| < 3
  {
    if |s| == 1 then EncodeGroup(s[0], 0, 0)[..2] + [PAD, PAD]
    else if |s| == 2 then EncodeGroup(s[0], s[1], 0)[..3] + [PAD]
    else []
  }

  function Encode(s: seq<Byte>): seq<Byte> {
    if |s| < 3 then EncodeRest(s)
    else EncodeGroup(s[0], s[1], s[2]) + Encode(s[3..])
  }

  /** The bytes of four symbols. */
  function DecodeGroup(w: Byte, x: Byte, y: Byte, z: Byte): (r: seq<Byte>)
    ensures |r| == 3
  {
    var b := FromSix(Value(w), Value(x), Value(y), Value(z));
    [b.0, b.1, b.2]
  }

  /** How many symbols the decoder reads: up to padding, the end, or anything that is not a symbol. */
  function SymbolCount(t: seq<Byte>): (n: nat)
    ensures n <= |t|
  {
    if t == [] || t[0] == PAD || !IsSymbol(t[0]) then 0 else 1 + SymbolCount(t[1..])
  }

  /** Whole groups, and one byte less than the symbols of a partial last one. */
  function DecodeSymbols(t: seq<Byte>): seq<Byte> {
    if t == [] then []
    else if |t| < 4 then
      DecodeGroup(t[0], if |t| > 1 then t[1] else 0, if |t| > 2 then t[2] else 0, 0)[..|t| - 1]
    else DecodeGroup(t[0], t[1], t[2], t[3]) + DecodeSymbols(t[4..])
  }

  function Decode(t: seq<Byte>): seq<Byte> {
    DecodeSymbols(t[..SymbolCount(t)])
  }

  // ----- round trip

  lemma {:induction false} SymbolBack(v: nat)
    requires v < 64
    ensures Value(Symbol(v)) == v && IsSymbol(Symbol(v)) && Symbol(v) != PAD
  {
  }

  lemma {:induction false} PartsOf16(high: nat, low: nat)
    requires low < 16
    ensures (16 * high + low) / 16 == high && (16 * high + low) % 16 == low
  {
  }

  lemma {:induction false} PartsOf4(high: nat, low: nat)
    requires low < 4
    ensures (4 * high + low) / 4 == high && (4 * high + low) % 4 == low
  {
  }

  /** The 24 bits by their parts of 6, 2, 4, 4, 2 and 6. */
  lemma {:induction false} FromSixParts(w: nat, i: nat, j: nat, k: nat, l: nat, m: nat)
    requires w < 64 && i < 4 && j < 16 && k < 16 && l < 4 && m < 64
    ensures 16 * i + j < 0x100 && 4 * k + l < 0x100
    ensures FromSix(w, 16 * i + j, 4 * k + l, m) == (4 * w + i, 16 * j + k, 64 * l + m)
  {
    PartsOf16(i, j);
    PartsOf4(k, l);
  }

  /** Six-bit values and bytes hold the same 24 bits. */
  lemma {:induction false} SixBack(a: Byte, b: Byte, c: Byte)
    ensures var (w, x, y, z) := ToSix(a, b, c);
            && w < 64 && x < 64 && y < 64 && z < 64
            && FromSix(w, x, y, z) == (a, b, c)
  {
    FromSixParts(a / 4, a % 4, b / 16, b % 16, c / 64, c % 64);
    hide FromSix;
  }

  lemma {:induction false} GroupBack(a: Byte, b: Byte, c: Byte)
    ensures var g := EncodeGroup(a, b, c);
            && (forall i :: 0 <= i < 4 ==> IsSymbol(g[i]) && g[i] != PAD)
            && DecodeGroup(g[0], g[1], g[2], g[3]) == [a, b, c]
  {
    SixBack(a, b, c);
    var v := ToSix(a, b, c);
    hide ToSix, FromSix;
    SymbolBack(v.0);
    SymbolBack(v.1);
    SymbolBack(v.2);
    SymbolBack(v.3);
  }

  /** Of a partial group, the symbols written are enough for the bytes there are. */
  lemma {:induction false} PartialBack(a: Byte, b: Byte)
    ensures DecodeSymbols(EncodeGroup(a, 0, 0)[..2]) == [a]
    ensures DecodeSymbols(EncodeGroup(a, b, 0)[..3]) == [a, b]
  {
    GroupBack(a, 0, 0);
    GroupBack(a, b, 0);
    var g, h := EncodeGroup(a, 0, 0), EncodeGroup(a, b, 0);
    hide EncodeGroup, DecodeGroup;
    LastSymbols(g[0], g[1], g[2], g[3]);
    LastSymbols(h[0], h[1], h[2], h[3]);
    PartialSymbols(g[..2]);
    PartialSymbols(h[..3]);
  }

  lemma {:induction false} PartialSymbols(t: seq<Byte>)
    requires 2 <= |t| < 4
    ensures |t| == 2 ==> DecodeSymbols(t) == [DecodeGroup(t[0], t[1], 0, 0)[0]]
    ensures |t| == 3 ==> DecodeSymbols(t) == DecodeGroup(t[0], t[1], t[2], 0)[..2]
  {
    hide DecodeGroup;
  }

  /** Which symbols the first bytes of a group depend on. */
  lemma {:induction false} LastSymbols(w: Byte, x: Byte, y: Byte, z: Byte)
    ensures DecodeGroup(w, x, 0, 0)[0] == DecodeGroup(w, x, y, z)[0]
    ensures DecodeGroup(w, x, y, 0)[..2] == DecodeGroup(w, x, y, z)[..2]
  {
  }

  lemma {:induction false} CountsSymbols(t: seq<Byte>, rest: seq<Byte>)
    requires forall i :: 0 <= i < |t| ==> IsSymbol(t[i]) && t[i] != PAD
    ensures SymbolCount(t + rest) == |t| + SymbolCount(rest)
  {
    if t == [] {
      assert t + rest == rest;
    } else {
      assert (t + rest)[1..] == t[1..] + rest;
      CountsSymbols(t[1..], rest);
    }
  }

  lemma {:induction false} DecodeFirstGroup(g: seq<Byte>, rest: seq<Byte>)
    requires |g| == 4 && forall i :: 0 <= i < 4 ==> IsSymbol(g[i]) && g[i] != PAD
    ensures Decode(g + rest) == DecodeGroup(g[0], g[1], g[2], g[3]) + Decode(rest)
  {
    hide DecodeGroup;
    CountsSymbols(g, rest);
    var n := SymbolCount(rest);
    hide SymbolCount;
    assert (g + rest)[..4 + n] == g + rest[..n];
    assert (g + rest[..n])[4..] == rest[..n];
  }

  lemma {:induction false} DecodeLastGroup(g: seq<Byte>, pads: seq<Byte>)
    requires |g| < 4 && forall i :: 0 <= i < |g| ==> IsSymbol(g[i]) && g[i] != PAD
    requires pads != [] && pads[0] == PAD
    ensures Decode(g + pads) == DecodeSymbols(g)
  {
    CountsSymbols(g, pads);
    assert (g + pads)[..|g|] == g;
  }

  lemma {:induction false} EncodeSize(s: seq<Byte>)
    ensures |Encode(s)| == (|s| + 2) / 3 * 4
  {
    hide EncodeGroup;
    if |s| >= 3 { EncodeSize(s[3..]); }
  }

  /** Every byte string comes back, and its encoding takes four symbols for every three bytes begun. */
  lemma {:induction false} Base64RoundTrip(s: seq<Byte>)
    ensures Decode(Encode(s)) == s && |Encode(s)| == (|s| + 2) / 3 * 4
  {
    hide EncodeGroup, DecodeGroup, Decode, DecodeSymbols;
    EncodeSize(s);
    if s == [] {
      DecodeEmpty();
    } else if |s| == 1 {
      GroupBack(s[0], 0, 0);
      PartialBack(s[0], 0);
      DecodeLastGroup(EncodeGroup(s[0], 0, 0)[..2], [PAD, PAD]);
    } else if |s| == 2 {
      GroupBack(s[0], s[1], 0);
      PartialBack(s[0], s[1]);
      DecodeLastGroup(EncodeGroup(s[0], s[1], 0)[..3], [PAD]);
    } else {
      Base64RoundTrip(s[3..]);
      GroupBack(s[0], s[1], s[2]);
      DecodeFirstGroup(EncodeGroup(s[0], s[1], s[2]), Encode(s[3..]));
      assert s == [s[0], s[1], s[2]] + s[3..];
    }
  }

  lemma {:induction false} DecodeEmpty()
    ensures Decode([]) == []
  {
  }

  // ----- the encoding, in characters

  const UPPER: string := "ABCDEFGHIJKLMNOPQRSTUVWXYZ"
  const LOWER: string := "abcdefghijklmnopqrstuvwxyz"
  const OTHERS: string := "0123456789+/"
  const ALPHABET: string := UPPER + LOWER + OTHERS

  lemma {:induction false} UpperAt(v: nat)
    requires v < 26
    ensures |UPPER| == |LOWER| == 26 && UPPER[v] == (0x41 + v) as char && LOWER[v] == (0x61 + v) as char
  {
  }

  lemma {:induction false} OtherAt(v: nat)
    requires v < 12
    ensures |OTHERS| == 12 && OTHERS[v] as int == Symbol(52 + v)
  {
  }

  lemma {:induction false} SymbolExactly(v: nat)
    requires v < 64
    ensures |ALPHABET| == 64 && Symbol(v) as char == ALPHABET[v] && Symbol(v) != '=' as int
  {
    UpperAt(0);
    OtherAt(0);
    if v < 52 { UpperAt(v % 26); } else { OtherAt(v - 52); }
    hide UPPER, LOWER, OTHERS;
  }

  /** The four symbols of three bytes: places of the alphabet that, as digits to the base 64, make the number the three
      bytes make to the base 256. */
  lemma {:induction false} GroupExactly(a: Byte, b: Byte, c: Byte) returns (w: nat, x: nat, y: nat, z: nat)
    ensures w < 64 && x < 64 && y < 64 && z < 64 && |ALPHABET| == 64
    ensures 0x4_0000 * w + 0x1000 * x + 0x40 * y + z == 0x1_0000 * a + 0x100 * b + c
    ensures EncodeGroup(a, b, c) ==
            [ALPHABET[w] as int, ALPHABET[x] as int, ALPHABET[y] as int, ALPHABET[z] as int]
  {
    w, x, y, z := a / 4, a % 4 * 16 + b / 16, b % 16 * 4 + c / 64, c % 64;
    SymbolExactly(w);
    SymbolExactly(x);
    SymbolExactly(y);
    SymbolExactly(z);
    hide Symbol;
  }

  /** Each whole group of three bytes, in its place. */
  lemma {:induction false} GroupInPlace(s: seq<Byte>, k: nat)
    requires 3 * k + 3 <= |s|
    ensures 4 * k + 4 <= |Encode(s)|
    ensures Encode(s)[4 * k..4 * k + 4] == EncodeGroup(s[3 * k], s[3 * k + 1], s[3 * k + 2])
  {
    hide EncodeGroup;
    if k > 0 { GroupInPlace(s[3..], k - 1); }
  }

  lemma {:induction false} NoPadIn(a: Byte, b: Byte, c: Byte, i: nat)
    requires i < 4
    ensures EncodeGroup(a, b, c)[i] != '=' as int
  {
    hide Symbol;
    var v := ToSix(a, b, c);
    SymbolBack(v.0);
    SymbolBack(v.1);
    SymbolBack(v.2);
    SymbolBack(v.3);
  }

  /** The padding: two signs behind one byte left over, one behind two, none otherwise, and none anywhere else. */
  lemma {:induction false} PaddedExactly(s: seq<Byte>, i: nat)
    requires i < |Encode(s)|
    ensures Encode(s)[i] == '=' as int <==> |s| % 3 != 0 && i >= |Encode(s)| - (3 - |s| % 3)
  {
    hide EncodeGroup, EncodeRest;
    if |s| >= 3 {
      var rest := s[3..];
      assert |rest| % 3 == |s| % 3 && Encode(s) == EncodeGroup(s[0], s[1], s[2]) + Encode(rest);
      if i < 4 {
        EncodeSize(rest);
        NoPadIn(s[0], s[1], s[2], i);
      } else {
        PaddedExactly(rest, i - 4);
      }
    } else {
      PaddedRest(s, i);
    }
  }

  lemma {:induction false} PaddedRest(s: seq<Byte>, i: nat)
    requires |s| < 3 && i < |EncodeRest(s)|
    ensures s != [] && |EncodeRest(s)| == 4 && (EncodeRest(s)[i] == '=' as int <==> i > |s|)
  {
    hide EncodeGroup;
    if i <= |s| {
      NoPadIn(s[0], if |s| > 1 then s[1] else 0, 0, i);
    }
  }

  // ----- the loops

  lemma {:induction false} EncodeFirst(group: seq<Byte>, rest: seq<Byte>, ret: seq<Byte>)
    requires |group| == 3
    ensures ret + Encode(group + rest) == ret + EncodeGroup(group[0], group[1], group[2]) + Encode([] + rest)
  {
    hide EncodeGroup;
    assert (group + rest)[3..] == rest && [] + rest == rest;
    var g := EncodeGroup(group[0], group[1], group[2]);
    assert ret + (g + Encode(rest)) == ret + g + Encode(rest);
  }

  lemma {:induction false} EncodeLast(s: seq<Byte>)
    requires |s| < 3
    ensures Encode(s) == EncodeRest(s)
  {
  }

  /** base64_encode: bytes gather in a three-byte buffer. */
  method Base64Encode(input: seq<Byte>) returns (ret: seq<Byte>)
    ensures ret == Encode(input)
  {
    hide EncodeGroup, Encode;
    ret := [];
    var charArray3: seq<Byte> := [];
    assert charArray3 + input[0..] == input && ret + Encode(input) == Encode(input);
    for k := 0 to |input|
      invariant |charArray3| < 3 && ret + Encode(charArray3 + input[k..]) == Encode(input)
    {
      assert charArray3 + input[k..] == charArray3 + [input[k]] + input[k + 1..];
      charArray3 := charArray3 + [input[k]];
      if |charArray3| == 3 {
        EncodeFirst(charArray3, input[k + 1..], ret);
        ret := ret + EncodeGroup(charArray3[0], charArray3[1], charArray3[2]);
        charArray3 := [];
      }
    }
    assert charArray3 + input[|input|..] == charArray3;
    EncodeLast(charArray3);
    ret := ret + EncodeRest(charArray3);
  }

  /** What is still to come once `ret` has been put out and `pending` symbols wait. */
  predicate Reading(input: seq<Byte>, k: nat, pending: seq<Byte>, ret: seq<Byte>) {
    var n := SymbolCount(input);
    && k <= n && n == k + SymbolCount(input[k..])
    && ret + DecodeSymbols(pending + input[k..n]) == DecodeSymbols(input[..n])
  }

  lemma {:induction false} ReadingStarts(input: seq<Byte>)
    ensures Reading(input, 0, [], [])
  {
    var n := SymbolCount(input);
    assert input[0..] == input && [] + input[0..n] == input[..n];
    assert [] + DecodeSymbols(input[..n]) == DecodeSymbols(input[..n]);
  }

  lemma {:induction false} ReadingSymbol(input: seq<Byte>, k: nat, pending: seq<Byte>, ret: seq<Byte>)
    requires Reading(input, k, pending, ret) && k < |input|
    ensures input[k] != PAD && IsSymbol(input[k]) ==> Reading(input, k + 1, pending + [input[k]], ret)
    ensures input[k] == PAD || !IsSymbol(input[k]) ==> k == SymbolCount(input)
  {
    assert input[k..][1..] == input[k + 1..];
    if input[k] != PAD && IsSymbol(input[k]) {
      var n := SymbolCount(input);
      assert pending + input[k..n] == pending + [input[k]] + input[k + 1..n];
    }
  }

  lemma {:induction false} ReadingGroup(input: seq<Byte>, k: nat, pending: seq<Byte>, ret: seq<Byte>)
    requires Reading(input, k, pending, ret) && |pending| == 4
    ensures Reading(input, k, [], ret + DecodeGroup(pending[0], pending[1], pending[2], pending[3]))
  {
    hide DecodeGroup;
    var n := SymbolCount(input);
    var all, group := pending + input[k..n], DecodeGroup(pending[0], pending[1], pending[2], pending[3]);
    assert all[4..] == [] + input[k..n];
    assert DecodeSymbols(all) == group + DecodeSymbols(all[4..]);
    assert ret + (group + DecodeSymbols(all[4..])) == ret + group + DecodeSymbols(all[4..]);
  }

  lemma {:induction false} ReadingEnds(input: seq<Byte>, k: nat, pending: seq<Byte>, ret: seq<Byte>)
    requires Reading(input, k, pending, ret) && (k == |input| || k == SymbolCount(input)) && |pending| < 4
    ensures Decode(input) == ret + DecodeSymbols(pending)
  {
    assert pending + input[k..k] == pending;
  }

  /** base64_decode: symbols gather in a four-byte buffer. */
  method Base64Decode(input: seq<Byte>) returns (ret: seq<Byte>)
    ensures ret == Decode(input)
  {
    hide DecodeGroup, Reading, Decode, SymbolCount, IsSymbol;
    ret := [];
    var charArray4: seq<Byte> := [];
    var k := 0;
    ReadingStarts(input);
    while k < |input| && input[k] != PAD && IsSymbol(input[k])
      invariant k <= |input| && |charArray4| < 4 && Reading(input, k, charArray4, ret)
    {
      ReadingSymbol(input, k, charArray4, ret);
      charArray4 := charArray4 + [input[k]];
      k := k + 1;
      if |charArray4| == 4 {
        ReadingGroup(input, k, charArray4, ret);
        ret := ret + DecodeGroup(charArray4[0], charArray4[1], charArray4[2], charArray4[3]);
        charArray4 := [];
      }
    }
    if k < |input| { ReadingSymbol(input, k, charArray4, ret); }
    ReadingEnds(input, k, charArray4, ret);
    if |charArray4| > 0 {
      var x := if |charArray4| > 1 then charArray4[1] else 0;
      var y := if |charArray4| > 2 then charArray4[2] else 0;
      ret := ret + DecodeGroup(charArray4[0], x, y, 0)[..|charArray4| - 1];
    }
  }
}
