/** Percent-coding of URLs (section 2.1 of RFC 3986): UrlEncode, the in-place unescape and their round trip. */
module UrlCoding {
  import opened Bytes

  const PERCENT: Byte := 0x25
  const PLUS: Byte := 0x2B
  const SPACE: Byte := 0x20

  /** Letters, digits and `_-.!~*'()`: what is left as it is. */
  predicate Unreserved(c: Byte) {
    || 0x41 <= c <= 0x5A || 0x61 <= c <= 0x7A || 0x30 <= c <= 0x39
    || c in {0x5F, 0x2D, 0x2E, 0x21, 0x7E, 0x2A, 0x27, 0x28, 0x29}
  }

  /** An upper-case hexadecimal digit, as sprintf writes it. */
  function HexDigit(v: nat): Byte
    requires v < 16
  {
    if v < 10 then 0x30 + v else 0x37 + v
  }

  /** isxdigit. */
  predicate IsHex(c: Byte) {
    0x30 <= c <= 0x39 || 0x41 <= c <= 0x46 || 0x61 <= c <= 0x66
  }

  function HexValue(c: Byte): nat
    requires IsHex(c)
  {
    if c < 0x41 then c - 0x30 else if c < 0x61 then c - 0x41 + 10 else c - 0x61 + 10
  }

  function EncodeByte(c: Byte): seq<Byte> {
    if Unreserved(c) then [c] else [PERCENT, HexDigit(c / 16), HexDigit(c % 16)]
  }

  function Encode(s: seq<Byte>): seq<Byte> {
    if s == [] then [] else EncodeByte(s[0]) + Encode(s[1..])
  }

  /** The byte an escape at the front stands for; no escape if the digits are missing or say zero. */
  function EscapeAt(s: seq<Byte>): Option<Byte>
    requires s != []
  {
    if s[0] == PERCENT && |s| >= 3 && IsHex(s[1]) && IsHex(s[2]) && 16 * HexValue(s[1]) + HexValue(s[2]) != 0
    then Some(16 * HexValue(s[1]) + HexValue(s[2]))
    else None
  }

  function Decode(s: seq<Byte>): seq<Byte> {
    if s == [] then []
    else
      match EscapeAt(s)
      case Some(c) => [c] + Decode(s[3..])
      case None => [if s[0] == PLUS then SPACE else s[0]] + Decode(s[1..])
  }

  // ----- round trip

  /** What comes back of a byte: itself, but for a zero byte, which stays escaped. */
  function Returned(c: Byte): seq<Byte> {
    if c == 0 then [PERCENT, 0x30, 0x30] else [c]
  }

  function AllReturned(s: seq<Byte>): seq<Byte> {
    if s == [] then [] else Returned(s[0]) + AllReturned(s[1..])
  }

  lemma {:induction false} HexBack(v: nat)
    requires v < 16
    ensures IsHex(HexDigit(v)) && HexValue(HexDigit(v)) == v
  {
  }

  lemma {:induction false} DecodePlain(c: Byte, rest: seq<Byte>)
    requires c != PERCENT && c != PLUS
    ensures Decode([c] + rest) == [c] + Decode(rest)
  {
    assert ([c] + rest)[1..] == rest;
  }

  lemma {:induction false} DecodeEscape(h: Byte, l: Byte, rest: seq<Byte>)
    requires IsHex(h) && IsHex(l)
    ensures var c := 16 * HexValue(h) + HexValue(l);
            c != 0 ==> Decode([PERCENT, h, l] + rest) == [c] + Decode(rest)
  {
    assert ([PERCENT, h, l] + rest)[3..] == rest;
  }

  /** The escaped zero byte is copied as it stands. */
  lemma {:induction false} DecodeZero(rest: seq<Byte>)
    ensures Decode([PERCENT, 0x30, 0x30] + rest) == [PERCENT, 0x30, 0x30] + Decode(rest)
  {
    var s := [PERCENT, 0x30, 0x30] + rest;
    assert s[1..] == [0x30] + ([0x30] + rest);
    assert EscapeAt(s) == None;
    assert Decode(s) == [PERCENT] + Decode([0x30] + ([0x30] + rest));
    hide Decode, EscapeAt;
    DecodePlain(0x30, [0x30] + rest);
    DecodePlain(0x30, rest);
  }

  lemma {:induction false} DecodeEncoded(c: Byte, rest: seq<Byte>)
    ensures Decode(EncodeByte(c) + rest) == Returned(c) + Decode(rest)
  {
    hide Decode;
    if Unreserved(c) {
      DecodePlain(c, rest);
    } else {
      HexBack(c / 16);
      HexBack(c % 16);
      if c == 0 { DecodeZero(rest); } else { DecodeEscape(HexDigit(c / 16), HexDigit(c % 16), rest); }
    }
  }

  lemma {:induction false} DecodeOfEncode(s: seq<Byte>)
    ensures Decode(Encode(s)) == AllReturned(s)
  {
    hide EncodeByte, Returned;
    if s != [] {
      DecodeOfEncode(s[1..]);
      DecodeEncoded(s[0], Encode(s[1..]));
    }
  }

  lemma {:induction false} ReturnedSame(s: seq<Byte>)
    ensures |AllReturned(s)| >= |s|
    ensures 0 in s ==> |AllReturned(s)| > |s|
    ensures 0 !in s ==> AllReturned(s) == s
  {
    if s != [] {
      assert s == [s[0]] + s[1..];
      ReturnedSame(s[1..]);
    }
  }

  /** Decoding what was encoded gives the string back exactly when it holds no zero byte, and the encoding is at most
      three times as long and free of zero bytes. */
  lemma {:induction false} UrlRoundTripIff(s: seq<Byte>)
    ensures Decode(Encode(s)) == s <==> 0 !in s
    ensures |s| <= |Encode(s)| <= 3 * |s| && 0 !in Encode(s)
  {
    DecodeOfEncode(s);
    ReturnedSame(s);
    EncodedSize(s);
  }

  lemma {:induction false} EncodedSize(s: seq<Byte>)
    ensures |s| <= |Encode(s)| <= 3 * |s| && 0 !in Encode(s)
  {
    if s != [] {
      EncodedSize(s[1..]);
      assert 0 !in EncodeByte(s[0]);
    }
  }

  // ----- byte by byte, in characters

  /** Letters, digits and nine marks are left alone; every other byte becomes a percent sign and two upper-case
      digits. */
  lemma {:induction false} EncodedExactly(c: Byte)
    ensures var x, digits := c as char, "0123456789ABCDEF";
            Encode([c]) ==
              if || 'A' <= x <= 'Z' || 'a' <= x <= 'z' || '0' <= x <= '9'
                 || x in {'_', '-', '.', '!', '~', '*', '\'', '(', ')'}
              then [c] else ['%' as int, digits[c / 16] as int, digits[c % 16] as int]
  {
    assert Encode([c]) == EncodeByte(c) + Encode([]) == EncodeByte(c);
    DigitOf(c / 16);
    DigitOf(c % 16);
    hide HexDigit;
  }

  lemma {:induction false} DigitOf(v: nat)
    requires v < 16
    ensures HexDigit(v) as char == "0123456789ABCDEF"[v]
  {
  }

  /** A hexadecimal digit of either case. */
  predicate Spells(c: Byte, v: nat)
    requires v < 16
  {
    c as char == "0123456789ABCDEF"[v] || c as char == "0123456789abcdef"[v]
  }

  lemma {:induction false} SpelledValue(c: Byte, v: nat)
    requires v < 16 && Spells(c, v)
    ensures IsHex(c) && HexValue(c) == v
  {
  }

  predicate IsDigit(c: Byte) {
    exists v: nat :: v < 16 && Spells(c, v)
  }

  lemma {:induction false} SpelledIff(c: Byte)
    ensures IsHex(c) <==> IsDigit(c)
  {
    if IsHex(c) {
      assert Spells(c, HexValue(c));
    }
    forall v: nat | v < 16 && Spells(c, v) ensures IsHex(c) {
      SpelledValue(c, v);
    }
  }

  /** Two digits of either case behind a percent sign stand for their value, unless it is zero. */
  lemma {:induction false} EscapeDecoded(x: Byte, h: nat, y: Byte, l: nat, rest: seq<Byte>)
    requires h < 16 && l < 16 && Spells(x, h) && Spells(y, l)
    ensures Decode(['%' as int, x, y] + rest) ==
            if h == 0 && l == 0 then ['%' as int] + Decode([x, y] + rest) else [16 * h + l] + Decode(rest)
  {
    var s: seq<Byte> := [PERCENT, x, y] + rest;
    assert s[1..] == [x, y] + rest && s[3..] == rest;
    SpelledValue(x, h);
    SpelledValue(y, l);
    hide IsHex, HexValue, Spells;
  }

  /** Without two digits behind it a percent sign stays; a plus sign becomes a space; everything else stays. */
  lemma {:induction false} OthersDecoded(c: Byte, rest: seq<Byte>)
    requires c == '%' as int ==> |rest| < 2 || !IsDigit(rest[0]) || !IsDigit(rest[1])
    ensures Decode([c] + rest) == [if c == '+' as int then ' ' as int else c] + Decode(rest)
  {
    var s := [c] + rest;
    assert s[1..] == rest;
    if |rest| >= 2 {
      assert s[1] == rest[0] && s[2] == rest[1];
      SpelledIff(rest[0]);
      SpelledIff(rest[1]);
    }
    hide IsHex, HexValue, IsDigit;
  }

  // ----- the loops

  /** UrlEncode: one pass, writing behind a pointer. */
  method UrlEncode(source: seq<Byte>) returns (output: seq<Byte>)
    ensures output == Encode(source)
  {
    hide EncodeByte;
    if source == [] {
      return [];
    }
    var buf := new Byte[3 * |source| + 1](_ => 0);
    var wp: nat := 0;
    assert source[0..] == source;
    for i := 0 to |source|
      invariant wp <= 3 * i && buf[..wp] + Encode(source[i..]) == Encode(source)
    {
      var bytes := EncodeByte(source[i]);
      EncodeStep(source, i, buf[..wp]);
      ghost var front := buf[..wp];
      forall k | 0 <= k < |bytes| {
        buf[wp + k] := bytes[k];
      }
      assert buf[..wp + |bytes|] == front + bytes;
      wp := wp + |bytes|;
    }
    output := buf[..wp];
    assert source[|source|..] == [];
    assert output + [] == output;
  }

  lemma {:induction false} EncodeStep(s: seq<Byte>, i: nat, front: seq<Byte>)
    requires i < |s|
    ensures front + Encode(s[i..]) == front + EncodeByte(s[i]) + Encode(s[i + 1..]) && |EncodeByte(s[i])| <= 3
  {
    assert s[i..][1..] == s[i + 1..];
  }

  /** A C string: the bytes before the first zero. */
  predicate Terminated(s: seq<Byte>, n: nat) {
    n < |s| && s[n] == 0 && forall i :: 0 <= i < n ==> s[i] != 0
  }

  lemma {:induction false} DecodeStep(s: seq<Byte>, h: nat, n: nat)
    requires h < n <= |s|
    ensures var front := s[h..n];
            && (EscapeAt(front).Some? ==> h + 3 <= n && Decode(front) == [EscapeAt(front).value] + Decode(s[h + 3..n]))
            && (EscapeAt(front).None? ==>
                  Decode(front) == [if s[h] == PLUS then SPACE else s[h]] + Decode(s[h + 1..n]))
  {
    var front := s[h..n];
    assert front[1..] == s[h + 1..n];
    if |front| >= 3 { assert front[3..] == s[h + 3..n]; }
  }

  /** unescape: tortoise and hare in one buffer. The tortoise never passes the hare, so every byte is read before it is
      overwritten, and the string ends where the decoded one does. */
  method Unescape(buf: array<Byte>, ghost n: nat) returns (t: nat)
    requires Terminated(buf[..], n)
    modifies buf
    ensures t <= n && buf[..t] == Decode(old(buf[..n])) && buf[t] == 0
  {
    hide EscapeAt, Decode;
    ghost var was := buf[..];
    var h := 0;
    t := 0;
    assert was[..n] == was[0..n];
    while buf[h] != 0
      invariant t <= h <= n && was[h] == buf[h]
      invariant forall i :: h <= i < buf.Length ==> buf[i] == was[i]
      invariant buf[..t] + Decode(was[h..n]) == Decode(was[..n])
      decreases n - h
    {
      DecodeStep(was, h, n);
      var c := ReadAt(buf, h, was, n);
      ghost var front := buf[..t];
      match c {
        case Some(b) =>
          buf[t] := b;
          h := h + 3;
        case None =>
          buf[t] := if buf[h] == PLUS then SPACE else buf[h];
          h := h + 1;
      }
      t := t + 1;
      assert buf[..t] == front + [buf[t - 1]];
    }
    DecodeNothing();
    assert was[h..n] == [];
    buf[t] := 0;
  }

  lemma {:induction false} DecodeNothing()
    ensures Decode([]) == []
  {
  }

  /** The tests of one turn; bytes behind the terminator are never looked at. */
  method ReadAt(buf: array<Byte>, h: nat, ghost was: seq<Byte>, ghost n: nat) returns (c: Option<Byte>)
    requires buf.Length == |was| && Terminated(was, n) && h < n
    requires forall i :: h <= i < buf.Length ==> buf[i] == was[i]
    ensures c == EscapeAt(was[h..n])
  {
    if buf[h] != PERCENT {
      return None;
    }
    // Do nothing if '%' is not followed by two hex digits.
    if buf[h + 1] == 0 || buf[h + 2] == 0 || !IsHex(buf[h + 1]) || !IsHex(buf[h + 2]) {
      return None;
    }
    var value := 16 * HexValue(buf[h + 1]) + HexValue(buf[h + 2]);
    // Don't unescape %00: a C string cannot hold it.
    return if value == 0 then None else Some(value);
  }
}
