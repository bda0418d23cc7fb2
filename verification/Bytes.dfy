/** Fixed-width integers, big-endian fields and the small sequence helpers the other modules share. */
module Bytes {

  type Byte = x: int | 0 <= x < 0x100
  type Word = x: int | 0 <= x < 0x1_0000

  /** What the buffer of an outgoing datagram holds. */
  const UDP_PACKET_MAX_BYTES: nat := 1400

  datatype Option<+T> = None | Some(value: T)

  function Min(a: int, b: int): int {
    if a <= b then a else b
  }

  /** `n` copies of `x`. */
  function Repeat<T>(x: T, n: nat): (r: seq<T>)
    ensures |r| == n
    ensures forall i :: 0 <= i < n ==> r[i] == x
  {
    seq(n, _ => x)
  }

  /** Utils::Byte::Set2Bytes: network byte order. */
  function PutWord(w: Word): (r: seq<Byte>)
    ensures |r| == 2
  {
    [w / 0x100, w % 0x100]
  }

  /** Utils::Byte::Get2Bytes: network byte order. */
  function WordAt(data: seq<Byte>, i: nat): Word
    requires i + 1 < |data|
  {
    var high: int := data[i];
    0x100 * high + data[i + 1]
  }

  /** The number two or three bytes make in network byte order. */
  function Joined(high: int, low: int): int {
    0x100 * high + low
  }

  function Joined3(high: int, middle: int, low: int): int {
    0x1_0000 * high + 0x100 * middle + low
  }

  /** static_cast<int16_t> of a 16-bit value. */
  function SignedWord(w: Word): int {
    if w < 0x8000 then w else w - 0x1_0000
  }

  /** static_cast<int64_t> of an integer held modulo 2^64. */
  function SignedQuad(x: int): int {
    var w := x % 0x1_0000_0000_0000_0000;
    if w < 0x8000_0000_0000_0000 then w else w - 0x1_0000_0000_0000_0000
  }

  /** `(-n) & 3`: how many bytes bring `n` up to a multiple of four. */
  function Padding(n: nat): nat {
    (4 - n % 4) % 4
  }

  function Pow2(n: nat): (p: nat)
    ensures p > 0
  {
    if n == 0 then 1 else 2 * Pow2(n - 1)
  }

  /** static_cast<uint16_t>. */
  function Cut16(x: int): Word {
    x % 0x1_0000
  }

  /** A value that fits 16 bits is not changed by cutting it to 16 bits. */
  lemma {:induction false} NoWrap(x: nat)
    requires x < 0x1_0000
    ensures x % 0x1_0000 == x && Cut16(x) == x
  {
  }

  /** Cutting a sum to 16 bits early or late makes no difference. */
  lemma {:induction false} CutAdd(a: int, b: int)
    ensures Cut16(Cut16(a) + b) == Cut16(a + b)
  {
  }

  lemma {:induction false} MulOrder(a: int, b: int, p: nat)
    ensures a >= b ==> a * p >= b * p
  {
  }
}
