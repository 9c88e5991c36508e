/** The variant registry: variant ids, the `mem_props` table, the validity macros, the
    family ranges the dispatch tests, and the command opcodes of memoree.h. */
module Registry {
  import opened Types

  /** `memoree_type_t`. */
  datatype MemType = I2C | SPI

  /** Variant ids in `mem_props` table order (memoree.c:28-164). */
  const VariantStubI2C: nat := 0
  const Variant24XX02: nat := 1
  const Variant24XX04: nat := 2
  const Variant24XX08: nat := 3
  const Variant24XX16: nat := 4
  const Variant24XX32: nat := 5
  const Variant24XX64: nat := 6
  const Variant24XX128: nat := 7
  const Variant24XX256: nat := 8
  const Variant24XX512: nat := 9
  const Variant24XX1024: nat := 10
  const VariantI2CMax: nat := 11
  const VariantStubSpi: nat := 12
  const Variant93C46: nat := 13
  const Variant93C56: nat := 14
  const Variant93C66: nat := 15
  const Variant93C76: nat := 16
  const Variant93C86: nat := 17
  const Variant93CXXMax: nat := 18
  const Variant25XXSfdp: nat := 19
  const VariantMax: nat := 20

  /** `memoree_info_t` (memoree.h:140-152). */
  datatype Info = Info(
    kind: MemType,
    variant: nat,
    size: uint32,
    speed: uint32,
    addrLen: uint8,
    addr: uint8,
    pageSize: uint16,
    numPages: uint16,
    pageWriteDelayMs: uint8,
    isProtected: bool)

  /** A table entry: the C initialiser leaves speed, addr, num_pages and protected zero. */
  function Entry(kind: MemType, variant: nat, size: uint32, addrLen: uint8, pageSize: uint16, delay: uint8): Info
  {
    Info(kind, variant, size, 0, addrLen, 0, pageSize, 0, delay, false)
  }

  /** The `{}` filler entries at the two sentinel slots: an all-zero struct. */
  const Filler: Info := Info(I2C, 0, 0, 0, 0, 0, 0, 0, 0, false)

  /** `mem_props`, indexed directly by variant id. */
  const MemProps: seq<Info> := [
    Entry(I2C, VariantStubI2C, 0, 0, 0, 0),
    Entry(I2C, Variant24XX02, 256, 8, 8, 5),
    Entry(I2C, Variant24XX04, 512, 8, 16, 5),
    Entry(I2C, Variant24XX08, 1024, 8, 16, 5),
    Entry(I2C, Variant24XX16, 2048, 8, 16, 5),
    Entry(I2C, Variant24XX32, 4096, 16, 32, 5),
    Entry(I2C, Variant24XX64, 8192, 16, 32, 5),
    Entry(I2C, Variant24XX128, 16384, 16, 64, 5),
    Entry(I2C, Variant24XX256, 32768, 16, 64, 5),
    Entry(I2C, Variant24XX512, 65536, 16, 128, 5),
    Entry(I2C, Variant24XX1024, 131072, 16, 128, 5),
    Filler,
    Entry(SPI, VariantStubSpi, 0, 0, 0, 0),
    Entry(SPI, Variant93C46, 128, 7, 1, 10),
    Entry(SPI, Variant93C56, 256, 9, 1, 5),
    Entry(SPI, Variant93C66, 512, 9, 1, 5),
    Entry(SPI, Variant93C76, 1024, 11, 1, 5),
    Entry(SPI, Variant93C86, 2048, 11, 1, 5),
    Filler,
    Entry(SPI, Variant25XXSfdp, 0, 0, 0, 5)
  ]

  /** `VARIANT_ISSTUB` (memoree.c:9). */
  predicate VariantIsStub(v: nat) { v == VariantStubI2C || v == VariantStubSpi }

  /** `VARIANT_ISVALID` (memoree.c:10). */
  predicate VariantIsValid(v: nat)
  {
    v < VariantMax && v != VariantI2CMax && v != Variant93CXXMax && v != VariantStubSpi && v != VariantStubI2C
  }

  /** The range tests the dispatch uses: `variant < I2C_MAX`, and
      `I2C_MAX < variant < 93CXX_MAX` (memoree.c:199, 261, 510, 590). */
  predicate InI2CRange(v: nat) { v < VariantI2CMax }
  predicate In93CRange(v: nat) { VariantI2CMax < v < Variant93CXXMax }

  /** The real parts of each family. */
  predicate Is24XX(v: nat) { Variant24XX02 <= v <= Variant24XX1024 }
  predicate Is93C(v: nat) { Variant93C46 <= v <= Variant93C86 }

  ghost predicate IsPowerOfTwo(n: nat)
  {
    exists k: nat :: Pow2(k) == n
  }

  lemma Pow2Values()
    ensures Pow2(3) == 8 && Pow2(4) == 16 && Pow2(5) == 32 && Pow2(6) == 64 && Pow2(7) == 128
    ensures Pow2(8) == 256 && Pow2(9) == 512 && Pow2(10) == 1024 && Pow2(11) == 2048
    ensures Pow2(12) == 4096 && Pow2(13) == 8192 && Pow2(14) == 16384 && Pow2(15) == 32768
    ensures Pow2(16) == 65536 && Pow2(17) == 131072
  {
    assert Pow2(1) == 2;
    assert Pow2(2) == 4;
    assert Pow2(3) == 8;
    assert Pow2(4) == 16;
    assert Pow2(5) == 32;
    assert Pow2(6) == 64;
    assert Pow2(7) == 128;
    assert Pow2(8) == 256;
    assert Pow2(9) == 512;
    assert Pow2(10) == 1024;
    assert Pow2(11) == 2048;
    assert Pow2(12) == 4096;
    assert Pow2(13) == 8192;
    assert Pow2(14) == 16384;
    assert Pow2(15) == 32768;
    assert Pow2(16) == 65536;
  }

  /** log2 of the array size of each 24XX and 93C part. */
  function SizeLog2(v: nat): nat
  {
    if Variant24XX02 <= v <= Variant24XX1024 then v + 7
    else if Variant93C46 <= v <= Variant93C86 then v - 6
    else 0
  }

  lemma SizeIsPow2(v: nat)
    requires Is24XX(v) || Is93C(v)
    ensures MemProps[v].size == Pow2(SizeLog2(v))
  {
    Pow2Values();
    if v == 1 { assert MemProps[1].size == 256; }
    else if v == 2 { assert MemProps[2].size == 512; }
    else if v == 3 { assert MemProps[3].size == 1024; }
    else if v == 4 { assert MemProps[4].size == 2048; }
    else if v == 5 { assert MemProps[5].size == 4096; }
    else if v == 6 { assert MemProps[6].size == 8192; }
    else if v == 7 { assert MemProps[7].size == 16384; }
    else if v == 8 { assert MemProps[8].size == 32768; }
    else if v == 9 { assert MemProps[9].size == 65536; }
    else if v == 10 { assert MemProps[10].size == 131072; }
    else if v == 13 { assert MemProps[13].size == 128; }
    else if v == 14 { assert MemProps[14].size == 256; }
    else if v == 15 { assert MemProps[15].size == 512; }
    else if v == 16 { assert MemProps[16].size == 1024; }
    else { assert MemProps[17].size == 2048; }
  }

  /** The valid variants are exactly the hardware parts: both stubs and both sentinels are
      rejected, and so is every id at or past MAX. */
  lemma ValidIsHardware(v: nat)
    ensures VariantIsValid(v) <==> Is24XX(v) || Is93C(v) || v == Variant25XXSfdp
  {
  }

  /** Every 24XX id < I2C_MAX < every 93C id < 93CXX_MAX < 25XX_SFDP < MAX, and the stubs sit
      inside the ranges of their families, which is what the range dispatch relies on. */
  lemma FamilyOrdering(v: nat)
    ensures Is24XX(v) ==> InI2CRange(v) && !In93CRange(v) && v != Variant25XXSfdp
    ensures Is93C(v) ==> In93CRange(v) && !InI2CRange(v) && v != Variant25XXSfdp
    ensures InI2CRange(VariantStubI2C) && In93CRange(VariantStubSpi)
    ensures VariantI2CMax < Variant93CXXMax < Variant25XXSfdp < VariantMax
  {
  }

  /** Each table entry's own `variant` field is its index, except at the two zeroed sentinel
      slots, and the type field matches the family. */
  lemma TableIndexedByVariant(v: nat)
    requires v < VariantMax && v != VariantI2CMax && v != Variant93CXXMax
    ensures MemProps[v].variant == v
    ensures MemProps[v].kind == (if v < VariantI2CMax then I2C else SPI)
  {
  }

  /** Every 24XX and 93C entry has a power-of-two size that its page size divides, so the
      `num_pages = size / page_size` computed by init is exact. */
  lemma RegistryGeometry(v: nat)
    requires Is24XX(v) || Is93C(v)
    ensures IsPowerOfTwo(MemProps[v].size)
    ensures MemProps[v].pageSize > 0 && MemProps[v].size % MemProps[v].pageSize == 0
    ensures MemProps[v].size / MemProps[v].pageSize < 0x1_0000
  {
    SizeIsPow2(v);
    PageDividesSize(v);
  }

  lemma PageDividesSize(v: nat)
    requires Is24XX(v) || Is93C(v)
    ensures MemProps[v].pageSize > 0 && MemProps[v].size % MemProps[v].pageSize == 0
  {
    if v == 1 { assert MemProps[1].size % MemProps[1].pageSize == 0; }
    else if v == 2 { assert MemProps[2].size % MemProps[2].pageSize == 0; }
    else if v == 3 { assert MemProps[3].size % MemProps[3].pageSize == 0; }
    else if v == 4 { assert MemProps[4].size % MemProps[4].pageSize == 0; }
    else if v == 5 { assert MemProps[5].size % MemProps[5].pageSize == 0; }
    else if v == 6 { assert MemProps[6].size % MemProps[6].pageSize == 0; }
    else if v == 7 { assert MemProps[7].size % MemProps[7].pageSize == 0; }
    else if v == 8 { assert MemProps[8].size % MemProps[8].pageSize == 0; }
    else if v == 9 { assert MemProps[9].size % MemProps[9].pageSize == 0; }
    else if v == 10 { assert MemProps[10].size % MemProps[10].pageSize == 0; }
    else if v == 13 { assert MemProps[13].size % MemProps[13].pageSize == 0; }
    else if v == 14 { assert MemProps[14].size % MemProps[14].pageSize == 0; }
    else if v == 15 { assert MemProps[15].size % MemProps[15].pageSize == 0; }
    else if v == 16 { assert MemProps[16].size % MemProps[16].pageSize == 0; }
    else { assert MemProps[17].size % MemProps[17].pageSize == 0; }
  }

  /** Geometry the I2C codec depends on: a whole number of address bytes, and an array of at
      most 2^(addr_len + 3) bytes, so three device-select bits are enough for the overflow. */
  lemma I2CShape(v: nat)
    requires Is24XX(v)
    ensures var e := MemProps[v];
      (e.addrLen == 8 || e.addrLen == 16) && 8 <= e.pageSize <= 128 &&
      8 <= SizeLog2(v) <= 17 && e.size == Pow2(SizeLog2(v)) && SizeLog2(v) <= e.addrLen + 3
  {
    SizeIsPow2(v);
  }

  /** Speed limits (memoree.h:15-17). */
  const I2CMaxSpeed: uint32 := 400000
  const Spi93XMaxSpeed: uint32 := 2000000
  const SpiMaxSpeed: uint32 := 40000000

  /** `MEMOREE_I2C_BASE_ADDRESS` (memoree.h:13). */
  const I2CBaseAddress: uint8 := U8(0xA * 8)

  /** The base address is 0x50 and its bits 3:1 are clear, so bits folded into them cannot
      disturb it. */
  lemma BaseAddressBitsClear()
    ensures I2CBaseAddress == 0x50
    ensures SelectBitsClear(I2CBaseAddress)
  {
  }

  /** 93Cxx commands (memoree.h:21-27). */
  const Cmd93CRead: uint32 := 6     // 0b110
  const Cmd93CWrite: uint32 := 5    // 0b101
  const Cmd93CWen: uint32 := 19     // 0b10011
  const Cmd93CWds: uint32 := 16     // 0b10000
  const Cmd93CErase: uint32 := 7    // 0b111
  const Cmd93CEral: uint32 := 18    // 0b10010
  const Cmd93CWral: uint32 := 17    // 0b10001

  /** 25XX commands (memoree.h:30-37). */
  const Cmd25Wren: uint32 := 0x06
  const Cmd25Wrdi: uint32 := 0x04
  const Cmd25Rdsr: uint32 := 0x05
  const Cmd25Wrsr: uint32 := 0x01
  const Cmd25Read: uint32 := 0x03
  const Cmd25Pp: uint32 := 0x02
  const Cmd25Rdid: uint32 := 0x9F
  const Cmd25Sfdp: uint32 := 0x5A

  /** Each 93C opcode fits the bit count its comment demands (three bits for READ, WRITE,
      ERASE; five for WEN, WDS, ERAL, WRAL) and has its top bit set there, so it is sent
      faithfully only with exactly that command length; every 25XX opcode is one byte. */
  lemma OpcodeWidths()
    ensures 4 <= Cmd93CRead < 8 && 4 <= Cmd93CWrite < 8 && 4 <= Cmd93CErase < 8
    ensures 16 <= Cmd93CWen < 32 && 16 <= Cmd93CWds < 32 && 16 <= Cmd93CEral < 32 && 16 <= Cmd93CWral < 32
    ensures Cmd25Wren < 0x100 && Cmd25Wrdi < 0x100 && Cmd25Rdsr < 0x100 && Cmd25Wrsr < 0x100
    ensures Cmd25Read < 0x100 && Cmd25Pp < 0x100 && Cmd25Rdid < 0x100 && Cmd25Sfdp < 0x100
  {
  }

  /** `MEMOREE_ISVALID` for a handle whose interface is set, and the geometry a handle
      created by `memoree_init` can carry: every variant other than 25XX_SFDP keeps its table
      geometry and `num_pages = size / page_size`; an SFDP handle carries whatever discovery wrote (memoree.c:802-804), which
      is a write size of 1 or 64 and an address width of 0, 24 or 32 bits. */
  predicate InfoConsistent(info: Info)
  {
    VariantIsValid(info.variant) &&
    var e := MemProps[info.variant];
    info.kind == e.kind && info.pageWriteDelayMs == e.pageWriteDelayMs &&
    (info.variant != Variant25XXSfdp ==>
      info.size == e.size && info.addrLen == e.addrLen && info.pageSize == e.pageSize &&
      e.pageSize > 0 && info.numPages == e.size / e.pageSize) &&
    (info.variant == Variant25XXSfdp ==>
      (info.pageSize == 1 || info.pageSize == 64) &&
      (info.addrLen == 0 || info.addrLen == 24 || info.addrLen == 32))
  }

  /** What a consistent I2C-range handle looks like: a 24XX part of 2^k bytes. */
  lemma I2CHandleShape(info: Info)
    requires InfoConsistent(info) && InI2CRange(info.variant)
    ensures Is24XX(info.variant)
    ensures info.addrLen == 8 || info.addrLen == 16
    ensures 8 <= info.pageSize <= 128
    ensures info.size == Pow2(SizeLog2(info.variant)) && 8 <= SizeLog2(info.variant) <= info.addrLen + 3
  {
    I2CShape(info.variant);
  }

  /** Every consistent handle has a non-zero page size. */
  lemma PageSizePositive(info: Info)
    requires InfoConsistent(info)
    ensures info.pageSize > 0
  {
  }

  /** Every consistent handle has a non-zero page size; the table parts also have a
      non-empty array that the page size divides. */
  lemma HandleGeometry(info: Info)
    requires InfoConsistent(info)
    ensures info.pageSize > 0
    ensures info.variant != Variant25XXSfdp ==> info.size > 0 && info.size % info.pageSize == 0
    ensures In93CRange(info.variant) ==> Is93C(info.variant) && info.pageSize == 1 && info.kind == SPI
    ensures InI2CRange(info.variant) ==> info.kind == I2C
  {
    if info.variant != Variant25XXSfdp {
      ValidIsHardware(info.variant);
      RegistryGeometry(info.variant);
    }
  }

  /** `memoree_protect` (memoree.c:728-734): protection is not implemented, so the result is
      INVALID_ARG for anything but a valid SFDP handle and FAIL for that. */
  function Protect(info: Info): (r: int)
    ensures r == Code(InvalidArg) || r == Code(Fail)
    ensures r == Code(Fail) <==> VariantIsValid(info.variant) && info.variant == Variant25XXSfdp
  {
    if !VariantIsValid(info.variant) || info.variant != Variant25XXSfdp then Code(InvalidArg) else Code(Fail)
  }

  /** The speed clamp of `memoree_init` (memoree.c:291-313). */
  function ClampSpeed(v: nat, speed: uint32): (s: uint32)
    ensures s <= speed
    ensures InI2CRange(v) ==> s == (if speed > I2CMaxSpeed then I2CMaxSpeed else speed)
    ensures v == Variant25XXSfdp || v == VariantStubSpi ==> s == (if speed > SpiMaxSpeed then SpiMaxSpeed else speed)
    ensures Is93C(v) ==> s == (if speed > Spi93XMaxSpeed then Spi93XMaxSpeed else speed)
  {
    if v < VariantI2CMax then (if speed > I2CMaxSpeed then I2CMaxSpeed else speed)
    else if v == Variant25XXSfdp || v == VariantStubSpi then (if speed > SpiMaxSpeed then SpiMaxSpeed else speed)
    else if v < Variant93CXXMax then (if speed > Spi93XMaxSpeed then Spi93XMaxSpeed else speed)
    else speed
  }
}
