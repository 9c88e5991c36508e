/** The I2C addressing helpers of memoree.c: the width of the address space, the device
    select byte that carries the high address bits, and the address prefix sent before the
    data. */
module Codec {
  import opened Types
  import opened Arith

  /** Number of consecutive 1 bits at the bottom of `x`. */
  function TrailingOnes(x: nat): nat
  {
    if x % 2 == 1 then 1 + TrailingOnes(x / 2) else 0
  }

  /** What `_get_address_space` returns (memoree.c:178-188): INVALID_ARG for a zero or odd size,
      otherwise one more than the number of trailing 1 bits of `size - 1`. */
  function AddressSpaceOf(size: uint32): int
  {
    if size == 0 || size % 2 != 0 then Code(InvalidArg) else TrailingOnes(size - 1) + 1
  }

  /** `_get_address_space`, with its `while ((size >> bit_width++) & 1);` loop. */
  method AddressSpace(size: uint32) returns (r: int)
    ensures r == AddressSpaceOf(size)
  {
    if size == 0 || size % 2 != 0 {
      return Code(InvalidArg);
    }
    var s: nat := size - 1;
    var bitWidth: nat := 0;
    var more := true;
    while more
      invariant more ==> TrailingOnes(s) == bitWidth + TrailingOnes(Shr(s, bitWidth))
      invariant !more ==> TrailingOnes(s) + 1 == bitWidth
      decreases if more then TrailingOnes(s) + 1 - bitWidth else 0
    {
      ShrStep(s, bitWidth);
      more := Shr(s, bitWidth) % 2 == 1;
      bitWidth := bitWidth + 1;
    }
    r := bitWidth;
  }

  lemma {:induction false} TrailingOnesOfMask(k: nat)
    ensures TrailingOnes(Pow2(k) - 1) == k
  {
    if k > 0 {
      assert (Pow2(k) - 1) / 2 == Pow2(k - 1) - 1;
      TrailingOnesOfMask(k - 1);
    }
  }

  lemma {:induction false} TrailingOnesBound(x: nat, n: nat)
    requires x < Pow2(n) - 1
    ensures TrailingOnes(x) < n
  {
    if x % 2 == 1 {
      assert n > 0;
      assert x / 2 < Pow2(n - 1) - 1;
      TrailingOnesBound(x / 2, n - 1);
    }
  }

  /** For a memory of 2^k bytes the address space is k + 1 bits: one more than the k bits
      needed to address it. */
  lemma PowerOfTwoSpace(k: nat)
    requires 1 <= k && Pow2(k) < 0x1_0000_0000
    ensures AddressSpaceOf(Pow2(k)) == k + 1
  {
    TrailingOnesOfMask(k);
  }

  /** Every even non-zero size is accepted, and the result lies in 2..32. */
  lemma AddressSpaceRange(size: uint32)
    ensures AddressSpaceOf(size) < 0 <==> size == 0 || size % 2 != 0
    ensures AddressSpaceOf(size) < 0 ==> AddressSpaceOf(size) == Code(InvalidArg)
    ensures AddressSpaceOf(size) >= 0 ==> 2 <= AddressSpaceOf(size) <= 32
  {
    if size != 0 && size % 2 == 0 {
      Pow2ThirtyTwo();
      TrailingOnesBound(size - 1, 32);
    }
  }

  /** The size is never checked to be a power of two: 12 bytes count as 3 bits, like 4. */
  lemma NonPowerOfTwoAccepted()
    ensures AddressSpaceOf(12) == AddressSpaceOf(4) == 3
    ensures AddressSpaceOf(6) == 2
  {
    assert TrailingOnes(11) == 2 by { assert TrailingOnes(2) == 0; }
    assert TrailingOnes(3) == 2 by { assert TrailingOnes(0) == 0; }
    assert TrailingOnes(5) == 1 by { assert TrailingOnes(2) == 0; }
  }

  /** `((addr >> addr_len) << 1) & 0x0F`: the address bits above the address phase, moved into
      bits 3:1 of the device select byte. 16 divides 2^32, so the wrap-around of the left shift
      in `uint32_t` does not reach these bits. */
  function Fold(addr: uint32, addrLen: uint8): uint8
  {
    (Shr(addr, addrLen) * 2) % 0x10
  }

  /** The select byte of `_memoree_write_bytes` (memoree.c:209-213). */
  function WriteSelect(cfg: uint8, space: int, addrLen: uint8, addr: uint32): uint8
  {
    if space <= addrLen then cfg else Or8(cfg, Fold(addr, addrLen))
  }

  /** The select byte of `memoree_read` (memoree.c:451-456): a different test, `==`. */
  function ReadSelect(cfg: uint8, space: int, addrLen: uint8, addr: uint32): uint8
  {
    if space == addrLen then cfg else Or8(cfg, Fold(addr, addrLen))
  }

  /** The address phase for an address field of `bits` bits, most significant byte first:
      byte j is `addr >> (bits - 8 * (j + 1))` truncated to 8 bits. */
  function AddressBytes(addr: nat, bits: nat): (s: seq<uint8>)
    ensures |s| == bits / 8
  {
    if bits < 8 then [] else [Byte(Shr(addr, bits - 8))] + AddressBytes(addr, bits - 8)
  }

  /** The write buffer of `_memoree_write_bytes` (memoree.c:215-223): the address bytes filled
      by the `do { i -= 8; *write_p++ = addr >> i; } while (i);` loop, then the data. The read
      path (memoree.c:458-464) runs the same loop with `while (i > 0)` and no data. */
  method PrependAddress(addr: uint32, addrLen: uint8, data: seq<uint8>) returns (buf: seq<uint8>)
    requires 8 <= addrLen <= 32 && addrLen % 8 == 0
    ensures buf == AddressBytes(addr, addrLen) + data
  {
    var i: int := addrLen;
    buf := [];
    while true
      invariant 8 <= i <= addrLen && i % 8 == 0
      invariant buf + AddressBytes(addr, i) == AddressBytes(addr, addrLen)
      decreases i
    {
      i := i - 8;
      ghost var before := buf;
      buf := buf + [Byte(Shr(addr, i))];
      assert buf + AddressBytes(addr, i) == before + AddressBytes(addr, i + 8) by {
        assert AddressBytes(addr, i + 8) == [Byte(Shr(addr, i))] + AddressBytes(addr, i);
        SeqAssoc(before, [Byte(Shr(addr, i))], AddressBytes(addr, i));
      }
      if i == 0 {
        break;
      }
    }
    buf := buf + data;
  }

  lemma SeqAssoc(a: seq<uint8>, b: seq<uint8>, c: seq<uint8>)
    ensures (a + b) + c == a + (b + c)
  {
  }

  lemma Or8Zero(c: uint8)
    ensures Or8(c, 0) == c
  {
    assert Pow2(8) == 0x100;
    OrZero(c, 8);
  }

  /** Below 2^addrLen there are no high bits to fold. */
  lemma FoldOfSmallAddress(addr: uint32, addrLen: uint8)
    requires addr < Pow2(addrLen)
    ensures Fold(addr, addrLen) == 0
  {
    ShrSmall(addr, addrLen);
  }

  /** For a memory of 2^k bytes, the write and the read path build the same select byte for
      every address in range, although they test the address space differently. */
  lemma SelectPathsAgree(cfg: uint8, k: nat, addrLen: uint8, addr: uint32)
    requires 1 <= k && Pow2(k) < 0x1_0000_0000 && addr < Pow2(k)
    ensures WriteSelect(cfg, AddressSpaceOf(Pow2(k)), addrLen, addr) == ReadSelect(cfg, AddressSpaceOf(Pow2(k)), addrLen, addr)
    ensures WriteSelect(cfg, AddressSpaceOf(Pow2(k)), addrLen, addr) == Or8(cfg, Fold(addr, addrLen))
  {
    PowerOfTwoSpace(k);
    if k + 1 <= addrLen {
      Pow2Monotone(k, addrLen);
      FoldOfSmallAddress(addr, addrLen);
      Or8Zero(cfg);
    }
  }

  /** The address phase of a `bits`-bit field carries `addr` modulo 2^bits. */
  lemma {:induction false} AddressBytesValue(a: nat, b: nat, bits: nat)
    requires bits % 8 == 0
    requires AddressBytes(a, bits) == AddressBytes(b, bits)
    ensures a % Pow2(bits) == b % Pow2(bits)
  {
    if bits >= 8 {
      var p := Pow2(bits - 8);
      assert AddressBytes(a, bits - 8) == AddressBytes(a, bits)[1..];
      assert AddressBytes(b, bits - 8) == AddressBytes(b, bits)[1..];
      AddressBytesValue(a, b, bits - 8);
      assert Byte(Shr(a, bits - 8)) == Byte(Shr(b, bits - 8)) by {
        assert AddressBytes(a, bits)[0] == AddressBytes(b, bits)[0];
      }
      Pow2Add(8, bits - 8);
      assert Pow2(8) == 0x100;
      ModSplit(a, p, 0x100);
      ModSplit(b, p, 0x100);
    }
  }

  /** With bits 3:1 of `cfg` clear, bits 3:1 of `cfg | f` are those of an even `f < 16`. */
  lemma OrSelectBits(cfg: uint8, f: uint8)
    requires SelectBitsClear(cfg) && f % 2 == 0 && f < 0x10
    ensures (Or8(cfg, f) / 2) % 8 == f / 2
  {
    assert Pow2(3) == 8;
    var x, rest := Or8(cfg, f), OrBits(cfg / 2, f / 2, 7);
    assert x == cfg % 2 + 2 * rest;
    DivModUnique(x, 2, rest, cfg % 2);
    OrLowBits(cfg / 2, f / 2, 7, 3);
  }

  /** With bits 3:1 of `cfg` clear, `cfg | f` determines the folded bits `f`. */
  lemma OrDeterminesFold(cfg: uint8, f: uint8, g: uint8)
    requires SelectBitsClear(cfg)
    requires f % 2 == 0 && f < 0x10 && g % 2 == 0 && g < 0x10
    requires Or8(cfg, f) == Or8(cfg, g)
    ensures f == g
  {
    OrSelectBits(cfg, f);
    OrSelectBits(cfg, g);
  }

  /** An address below 2^(addrLen+3) has at most three bits above the address phase, and
      Fold keeps all of them. */
  lemma FoldKeepsHighBits(a: uint32, addrLen: uint8)
    requires a < 8 * Pow2(addrLen)
    ensures Shr(a, addrLen) == Fold(a, addrLen) / 2
  {
    var p, s := Pow2(addrLen), Shr(a, addrLen);
    FoldShape(a, addrLen);
    if s >= 8 {
      ShrSplit(a, addrLen);
      MulMono(8, s, p);
      assert false;
    }
    DivModUnique(Fold(a, addrLen), 2, s, 0);
  }

  lemma Pow2ThreeMore(k: nat, n: nat)
    requires k <= n + 3
    ensures Pow2(k) <= 8 * Pow2(n)
  {
    Pow2Monotone(k, n + 3);
    Pow2Add(n, 3);
    assert Pow2(3) == 8;
  }

  lemma SplitDetermines(a: nat, b: nat, n: nat)
    requires Shr(a, n) == Shr(b, n) && a % Pow2(n) == b % Pow2(n)
    ensures a == b
  {
    ShrSplit(a, n);
    ShrSplit(b, n);
  }

  /** The folded bits are an even number below 16: bits 3:1 of the select byte. */
  lemma FoldShape(addr: uint32, addrLen: uint8)
    ensures Fold(addr, addrLen) == 2 * (Shr(addr, addrLen) % 8)
    ensures Fold(addr, addrLen) % 2 == 0 && Fold(addr, addrLen) < 0x10
  {
    var s := Shr(addr, addrLen);
    assert s == (s / 8) * 8 + s % 8;
    assert s * 2 == (s / 8) * 0x10 + 2 * (s % 8);
    DivModUnique(s * 2, 0x10, s / 8, 2 * (s % 8));
  }

  /** With bits 3:1 of `cfg` clear, equal select bytes carry equal folded bits. */
  lemma SameSelectSameFold(cfg: uint8, k: nat, addrLen: uint8, a: uint32, b: uint32)
    requires 1 <= k && Pow2(k) < 0x1_0000_0000 && a < Pow2(k) && b < Pow2(k)
    requires SelectBitsClear(cfg)
    requires WriteSelect(cfg, AddressSpaceOf(Pow2(k)), addrLen, a) == WriteSelect(cfg, AddressSpaceOf(Pow2(k)), addrLen, b)
    ensures Fold(a, addrLen) == Fold(b, addrLen)
  {
    SelectPathsAgree(cfg, k, addrLen, a);
    SelectPathsAgree(cfg, k, addrLen, b);
    FoldShape(a, addrLen);
    FoldShape(b, addrLen);
    OrDeterminesFold(cfg, Fold(a, addrLen), Fold(b, addrLen));
  }

  /** On a 24XX part (address phase of 8 or 16 bits, at most 3 address bits folded into the
      select byte) whose configured select byte has bits 3:1 clear, the select byte and the
      address phase written to the bus determine the address: distinct addresses in range
      never reach the same memory cell. */
  lemma SelectDeterminesAddress(cfg: uint8, k: nat, addrLen: uint8, a: uint32, b: uint32)
    requires addrLen == 8 || addrLen == 16
    requires 1 <= k <= addrLen + 3 && Pow2(k) < 0x1_0000_0000 && a < Pow2(k) && b < Pow2(k)
    requires SelectBitsClear(cfg)
    requires WriteSelect(cfg, AddressSpaceOf(Pow2(k)), addrLen, a) == WriteSelect(cfg, AddressSpaceOf(Pow2(k)), addrLen, b)
    requires AddressBytes(a, addrLen) == AddressBytes(b, addrLen)
    ensures a == b
  {
    Pow2ThreeMore(k, addrLen);
    AddressBytesValue(a, b, addrLen);
    FoldKeepsHighBits(a, addrLen);
    FoldKeepsHighBits(b, addrLen);
    SameSelectSameFold(cfg, k, addrLen, a, b);
    SplitDetermines(a, b, addrLen);
  }
}
