/** Fixed-width integers, bit helpers and the error codes of memoree.h. */
module Types {

  type uint8 = x: int | 0 <= x < 0x100
  type uint16 = x: int | 0 <= x < 0x1_0000
  type uint32 = x: int | 0 <= x < 0x1_0000_0000
  type uint64 = x: int | 0 <= x < 0x1_0000_0000_0000_0000
  type int32 = x: int | -0x8000_0000 <= x < 0x8000_0000

  function Pow2(n: nat): (r: nat)
    ensures r >= 1
  {
    if n == 0 then 1 else 2 * Pow2(n - 1)
  }

  /** Truncating conversions, as C performs them on assignment to an unsigned type. */
  function U8(x: int): uint8 { x % 0x100 }
  function U16(x: int): uint16 { x % 0x1_0000 }
  function U32(x: int): uint32 { x % 0x1_0000_0000 }
  function U64(x: int): uint64 { x % 0x1_0000_0000_0000_0000 }

  /** Two's-complement conversion into `int8_t` (the compilers this code targets wrap). */
  function ToInt8(x: int): (r: int)
    ensures -128 <= r < 128
    ensures -128 <= x < 128 ==> r == x
  {
    var b := x % 0x100;
    if b < 0x80 then b else b - 0x100
  }

  /** Conversion of an unsigned 32-bit count into the `int` a function returns. */
  function ToInt32(x: uint32): (r: int32)
    ensures x < 0x8000_0000 ==> r == x
  {
    if x < 0x8000_0000 then x else x - 0x1_0000_0000
  }

  /** `x >> n` on a non-negative value. */
  lemma DivNonNegative(a: nat, d: nat)
    requires d > 0
    ensures a / d >= 0
  {
  }

  function Shr(x: nat, n: nat): nat
  {
    DivNonNegative(x, Pow2(n));
    x / Pow2(n)
  }

  /** Bitwise AND of the low `n` bits of `a` and `b`, bit by bit from the bottom. */
  function AndBits(a: nat, b: nat, n: nat): nat
  {
    if n == 0 then 0 else (if a % 2 == 1 && b % 2 == 1 then 1 else 0) + 2 * AndBits(a / 2, b / 2, n - 1)
  }

  lemma Pow2ThirtyTwo()
    ensures Pow2(32) == 0x1_0000_0000
  {
    assert Pow2(1) == 0x2;
    assert Pow2(2) == 0x4;
    assert Pow2(3) == 0x8;
    assert Pow2(4) == 0x10;
    assert Pow2(5) == 0x20;
    assert Pow2(6) == 0x40;
    assert Pow2(7) == 0x80;
    assert Pow2(8) == 0x100;
    assert Pow2(9) == 0x200;
    assert Pow2(10) == 0x400;
    assert Pow2(11) == 0x800;
    assert Pow2(12) == 0x1000;
    assert Pow2(13) == 0x2000;
    assert Pow2(14) == 0x4000;
    assert Pow2(15) == 0x8000;
    assert Pow2(16) == 0x10000;
    assert Pow2(17) == 0x20000;
    assert Pow2(18) == 0x40000;
    assert Pow2(19) == 0x80000;
    assert Pow2(20) == 0x100000;
    assert Pow2(21) == 0x200000;
    assert Pow2(22) == 0x400000;
    assert Pow2(23) == 0x800000;
    assert Pow2(24) == 0x1000000;
    assert Pow2(25) == 0x2000000;
    assert Pow2(26) == 0x4000000;
    assert Pow2(27) == 0x8000000;
    assert Pow2(28) == 0x10000000;
    assert Pow2(29) == 0x20000000;
    assert Pow2(30) == 0x40000000;
    assert Pow2(31) == 0x80000000;
    assert Pow2(32) == 0x100000000;
  }


  /** The C `&` on `uint32_t`. */
  function And32(a: uint32, b: uint32): uint32
  {
    Pow2ThirtyTwo();
    AndBitsBound(a, b, 32);
    AndBits(a, b, 32)
  }
  lemma {:induction false} AndBitsBound(a: nat, b: nat, n: nat)
    ensures AndBits(a, b, n) < Pow2(n)
  {
    if n > 0 {
      AndBitsBound(a / 2, b / 2, n - 1);
    }
  }

  /** Bitwise OR of the low `n` bits of `a` and `b`, bit by bit from the bottom. */
  function OrBits(a: nat, b: nat, n: nat): (r: nat)
    ensures r < Pow2(n)
  {
    if n == 0 then 0 else (if a % 2 == 1 || b % 2 == 1 then 1 else 0) + 2 * OrBits(a / 2, b / 2, n - 1)
  }

  /** The C `|` on `uint8_t`. */
  function Or8(a: uint8, b: uint8): uint8
  {
    assert Pow2(8) == 0x100;
    OrBits(a, b, 8)
  }

  /** Bits 3:1 of `c` are clear: the bits of an I2C select byte that carry address bits. */
  predicate SelectBitsClear(c: nat)
  {
    (c / 2) % 8 == 0
  }

  /** The low byte of a value, the truncation done by `*write_p++ = addr >> i`. */
  function Byte(x: nat): uint8 { x % 0x100 }

  /** `memoree_err_t` (memoree.h:39-49). */
  datatype Err = Ok | Fail | Mem | InvalidArg | Timeout | SfdpNotSupported | SfdpInvalidHeader | SfdpInvalidTable

  function Code(e: Err): int
  {
    match e
    case Ok => 0
    case Fail => -1
    case Mem => -2
    case InvalidArg => -3
    case Timeout => -4
    case SfdpNotSupported => -5
    case SfdpInvalidHeader => -6
    case SfdpInvalidTable => -7
  }

  /** OK is zero and every failure is a distinct negative number, so a caller can tell a
      non-negative byte count from an error. */
  lemma ErrorCodesDistinctNegative(e: Err, e': Err)
    ensures Code(e) == Code(e') ==> e == e'
    ensures e == Ok <==> Code(e) == 0
    ensures e != Ok ==> -7 <= Code(e) < 0
  {
  }

  /** The result of an operation that yields a value or fails with an error code. */
  datatype Outcome<T> = Success(value: T) | Failure(err: Err)

  datatype Option<T> = None | Some(value: T)

  /** A sequence of `n` copies of `b` (a `memset` buffer). */
  function Fill(n: nat, b: uint8): (s: seq<uint8>)
    ensures |s| == n && forall i :: 0 <= i < n ==> s[i] == b
  {
    seq(n, _ => b)
  }

  /** The `n` bytes at offset `off` of caller memory whose readable part is `data`.
      Bytes outside `data` are memory the C reads past the caller's buffer; the model
      reads them as 0x00. */
  function Window(data: seq<uint8>, off: int, n: nat): (s: seq<uint8>)
    ensures |s| == n
    ensures forall k :: 0 <= k < n && 0 <= off + k < |data| ==> s[k] == data[off + k]
  {
    seq(n, k => if 0 <= off + k < |data| then data[off + k] else 0)
  }

  /** Caller memory seen from `data + k`, as the C pointer arithmetic `data + k` gives it;
      for negative `k` the bytes before the buffer read as 0x00. */
  function Shift(data: seq<uint8>, k: int): (s: seq<uint8>)
    ensures 0 <= k <= |data| ==> s == data[k..]
  {
    if k >= 0 then (if k <= |data| then data[k..] else [])
    else Fill(-k, 0) + data
  }
}
