/** Serial Flash Discoverable Parameters (JEDEC JESD216) as `memoree_get_sfdp` reads them
    (memoree.c:736-807): the SFDP header with the first parameter header (sections 6.2 and
    6.3 of JESD216) and the first two double words of the Basic Flash Parameter Table
    (section 6.4). */
module Sfdp {
  import opened Types
  import opened Arith
  import opened Registry

  /** The ASCII signature "SFDP" that opens the header. */
  const Signature: seq<uint8> := [0x53, 0x46, 0x44, 0x50]

  /** Number of header bytes read: the SFDP header and the first parameter header. */
  const HeaderLen := 15

  /** The header fields of `sfdp_param_t` (memoree.h:82-86). */
  datatype Header = Header(headerVer: uint16, headerCnt: uint8, fparamVer: uint16, fparamSize: uint16, fparamPtr: uint32)

  /** `sfdp_param_t` (memoree.h:80-98). The fields `wen_opcode`, `min_sec_opcode`, `max_sector`
      and `max_sec_opcode` are never assigned by memoree.c and are not part of the record. */
  datatype SfdpParam = SfdpParam(
    header: Header,
    writeSize: uint8,
    erase4kOpcode: uint8,
    addrBytes: uint8,
    dtrSupport: bool,
    minSector: uint8,
    size: uint64)

  /** memoree.c:761-772: the signature, the unused byte 7 and a parameter table of at least
      two double words are checked; then the fields are assembled little-endian. */
  function DecodeHeader(h: seq<uint8>): (r: Outcome<Header>)
    requires |h| == HeaderLen
    ensures r == Failure(SfdpNotSupported) <==> h[..4] != Signature
    ensures r == Failure(SfdpInvalidHeader) <==> h[..4] == Signature && (h[7] != 0xFF || h[11] < 2)
    ensures r.Failure? ==> r.err in {SfdpNotSupported, SfdpInvalidHeader}
    ensures r.Success? ==> r.value.fparamSize >= 8
  {
    if h[..4] != Signature then Failure(SfdpNotSupported)
    else if h[7] != 0xFF || h[11] < 2 then Failure(SfdpInvalidHeader)
    else Success(Header(
      (h[5] as int) * 0x100 + h[4],                     // (read_buff[5] << 8) | read_buff[4]
      U8(h[6] as int + 1),                             // zero-based count, stored in uint8_t
      (h[10] as int) * 0x100 + h[9],
      (h[11] as int) * 4,                             // length in double words, times 4
      (h[14] as int) * 0x1_0000 + (h[13] as int) * 0x100 + h[12]))
  }

  /** `2 << (flash_size - 1)` at memoree.c:799. The left operand is an `int`, so the result is
      2^N for 1 <= N <= 30; for every other N (N = 0 makes the shift count 2^64 - 1) C leaves
      the value undefined and `undefinedShift` supplies it. */
  function ExponentDensity(n: nat, undefinedShift: nat -> uint64): (r: uint64)
    ensures 1 <= n <= 30 ==> r == Pow2(n)
  {
    if 1 <= n <= 30 then Pow2Monotone(n, 30); Pow2Thirty(); Pow2(n) else undefinedShift(n)
  }

  /** The density double word without bit 31 (memoree.c:794-797). */
  function DensityField(t: seq<uint8>): (d: nat)
    requires |t| >= 8
    ensures d < 0x8000_0000
  {
    (t[7] as int % 0x80) * 0x100_0000 + (t[6] as int) * 0x1_0000 + (t[5] as int) * 0x100 + t[4]
  }

  /** The 3-bit address-bytes field (bits 18:17 of the first double word) as memoree.c:789-790
      reads it: 0b00 is 3 bytes, 0b10 is 4 bytes, and 0b01 (3 or 4 bytes) and 0b11 are 0. */
  function AddrBytesOf(field: nat): uint8
  {
    if field == 0 then 3 else if field == 2 then 4 else 0
  }

  /** memoree.c:784-800: the reserved bits are checked, then each field is extracted. Density
      in bits is the literal field, or 2^N when bit 31 is set, and the size in bytes is it
      shifted right by 3. */
  function DecodeTable(hd: Header, t: seq<uint8>, undefinedShift: nat -> uint64): (r: Outcome<SfdpParam>)
    requires |t| >= 8
    ensures r.Failure? <==> t[0] < 0xE0 || t[2] < 0x80 || t[3] != 0xFF
    ensures r.Failure? ==> r.err == SfdpInvalidHeader
    ensures r.Success? ==> r.value.header == hd && r.value.minSector == 0
    ensures r.Success? ==> r.value.writeSize in {1, 64} && r.value.addrBytes in {0, 3, 4}
  {
    if (t[0] / 0x20) % 8 != 7 || (t[2] / 0x80) % 2 != 1 || t[3] != 0xFF then Failure(SfdpInvalidHeader)
    else
      var bits := if (t[7] / 0x80) % 2 == 1 then ExponentDensity(DensityField(t), undefinedShift) else DensityField(t);
      Success(SfdpParam(
        hd,
        if (t[0] / 4) % 2 == 1 then 64 else 1,
        if t[0] % 4 == 3 then 0 else t[1],
        AddrBytesOf((t[2] / 2) % 4),
        (t[2] / 8) % 2 == 1,
        U8(if t[0] % 4 == 1 then 4096 else 0),   // 4096 assigned to a uint8_t field
        bits / 8))
  }

  /** The whole decoder: the header, then the parameter table of `fparam_size` bytes it points
      to. INVALID_TABLE is never produced: a corrupt table also reports INVALID_HEADER. */
  function Decode(header: seq<uint8>, table: seq<uint8>, undefinedShift: nat -> uint64): (r: Outcome<SfdpParam>)
    requires |header| == HeaderLen
    requires DecodeHeader(header).Success? ==> |table| == DecodeHeader(header).value.fparamSize
    ensures r.Failure? ==> r.err in {SfdpNotSupported, SfdpInvalidHeader}
    ensures r.Success? ==> DecodeHeader(header) == Success(r.value.header)
  {
    match DecodeHeader(header)
    case Failure(e) => Failure(e)
    case Success(hd) => DecodeTable(hd, table, undefinedShift)
  }

  /** memoree.c:802-804: the handle takes the address length, page size and size (truncated
      to `uint32_t`) from a decoded table; nothing else changes. */
  function ApplyParam(info: Info, p: SfdpParam): Info
  {
    info.(addrLen := U8(p.addrBytes * 8), pageSize := p.writeSize, size := U32(p.size))
  }

  /** The header fields as JESD216 lays them out (sections 6.2 and 6.3). Byte 8, the parameter
      ID, is not read by the decoder and is written as 0x00. */
  function EncodeHeader(hd: Header): (h: seq<uint8>)
    requires WellFormedHeader(hd)
    ensures |h| == HeaderLen
  {
    Signature + [hd.headerVer % 0x100, hd.headerVer / 0x100, U8(hd.headerCnt - 1), 0xFF, 0x00,
                 hd.fparamVer % 0x100, hd.fparamVer / 0x100, hd.fparamSize / 4,
                 hd.fparamPtr % 0x100, (hd.fparamPtr / 0x100) % 0x100, hd.fparamPtr / 0x1_0000]
  }

  /** A header that 15 bytes can carry: a table of 2 to 255 double words at a 24-bit pointer. */
  predicate WellFormedHeader(hd: Header)
  {
    hd.fparamSize % 4 == 0 && 8 <= hd.fparamSize <= 1020 && hd.fparamPtr < 0x100_0000
  }

  /** Decoding an encoded header gives the header back. */
  lemma HeaderRoundTrip(hd: Header)
    requires WellFormedHeader(hd)
    ensures DecodeHeader(EncodeHeader(hd)) == Success(hd)
  {
    var h := EncodeHeader(hd);
    assert h[..4] == Signature;
  }

  /** Every 15 bytes the decoder accepts are the encoding of what it returns, up to the
      parameter ID it does not read: no two accepted headers that differ elsewhere decode
      to the same fields. */
  lemma HeaderDecodeComplete(h: seq<uint8>)
    requires |h| == HeaderLen && DecodeHeader(h).Success?
    ensures WellFormedHeader(DecodeHeader(h).value)
    ensures EncodeHeader(DecodeHeader(h).value) == h[8 := 0]
  {
    var hd := DecodeHeader(h).value;
    assert h[..4] == Signature;
    LittleEndian16(h[4], h[5]);
    LittleEndian16(h[9], h[10]);
    LittleEndian24(h[12], h[13], h[14]);
    var e := EncodeHeader(hd);
    assert e == h[8 := 0] by {
      forall i | 0 <= i < HeaderLen
        ensures e[i] == h[8 := 0][i]
      {
        if i < 4 {
          assert e[i] == Signature[i] == h[..4][i];
        }
      }
    }
  }

  lemma LittleEndian16(lo: uint8, hi: uint8)
    ensures ((hi as int) * 0x100 + lo) % 0x100 == lo && ((hi as int) * 0x100 + lo) / 0x100 == hi
  {
    DivModUnique((hi as int) * 0x100 + lo, 0x100, hi, lo);
  }

  lemma LittleEndian24(b0: uint8, b1: uint8, b2: uint8)
    ensures var v := (b2 as int) * 0x1_0000 + (b1 as int) * 0x100 + b0;
      v % 0x100 == b0 && (v / 0x100) % 0x100 == b1 && v / 0x1_0000 == b2
  {
    var v := (b2 as int) * 0x1_0000 + (b1 as int) * 0x100 + b0;
    DivModUnique(v, 0x100, (b2 as int) * 0x100 + b1, b0);
    LittleEndian16(b1, b2);
    DivModUnique(v, 0x1_0000, b2, (b1 as int) * 0x100 + b0);
  }

  /** The density double word (bit 31 selects the exponent form). */
  datatype Density = Literal(value: nat) | Exponent(n: nat)

  /** The first two double words of a Basic Flash Parameter Table, in the terms of section 6.4
      of JESD216. Bits the decoder does not read are written as 0. */
  datatype FlashTable = FlashTable(
    eraseSizes: nat,          // bits 1:0: 0b01 when 4 KiB erase is supported, 0b11 when not
    writeGranularity64: bool, // bit 2
    erase4kOpcode: uint8,     // bits 15:8
    addressBytes: nat,        // bits 18:17: 0b00 3-byte, 0b01 3- or 4-byte, 0b10 4-byte
    dtr: bool,                // bit 19
    density: Density)         // second double word

  predicate WellFormedTable(f: FlashTable)
  {
    f.eraseSizes < 4 && f.addressBytes < 4 &&
    match f.density
    case Literal(v) => v < 0x8000_0000
    case Exponent(n) => n < 0x8000_0000
  }

  function DensityWord(d: Density): nat
  {
    match d
    case Literal(v) => v
    case Exponent(n) => 0x8000_0000 + n
  }

  function EncodeTable(f: FlashTable): (t: seq<uint8>)
    requires WellFormedTable(f)
    ensures |t| == 8
  {
    var d := DensityWord(f.density);
    [0xE0 + (if f.writeGranularity64 then 4 else 0) + f.eraseSizes,
     f.erase4kOpcode,
     0x80 + (if f.dtr then 8 else 0) + 2 * f.addressBytes,
     0xFF,
     d % 0x100, (d / 0x100) % 0x100, (d / 0x1_0000) % 0x100, d / 0x100_0000]
  }

  /** The density in bits the decoder computes for a density word. */
  function DecodedBits(d: Density, undefinedShift: nat -> uint64): nat
  {
    match d
    case Literal(v) => v
    case Exponent(n) => ExponentDensity(n, undefinedShift)
  }

  /** Every well-formed table decodes, field by field: the write granularity, the 4 KiB
      opcode (0 when the part declares no 4 KiB erase), the address width, DTR support and
      the density. */
  lemma TableRoundTrip(hd: Header, f: FlashTable, undefinedShift: nat -> uint64)
    requires WellFormedTable(f)
    ensures DecodeTable(hd, EncodeTable(f), undefinedShift).Success?
    ensures var p := DecodeTable(hd, EncodeTable(f), undefinedShift).value;
      && p.writeSize == (if f.writeGranularity64 then 64 else 1)
      && p.erase4kOpcode == (if f.eraseSizes == 3 then 0 else f.erase4kOpcode)
      && p.addrBytes == AddrBytesOf(f.addressBytes)
      && p.dtrSupport == f.dtr
      && p.size == DecodedBits(f.density, undefinedShift) / 8
  {
    var t := EncodeTable(f);
    FirstByteFields(f.writeGranularity64, f.eraseSizes);
    ThirdByteFields(f.dtr, f.addressBytes);
    DensityBytes(DensityWord(f.density));
  }

  lemma FirstByteFields(w: bool, e: nat)
    requires e < 4
    ensures var b := 0xE0 + (if w then 4 else 0) + e;
      b / 0x20 % 8 == 7 && (b / 4) % 2 == (if w then 1 else 0) && b % 4 == e
  {
  }

  lemma ThirdByteFields(dtr: bool, a: nat)
    requires a < 4
    ensures var b := 0x80 + (if dtr then 8 else 0) + 2 * a;
      (b / 0x80) % 2 == 1 && (b / 2) % 4 == a && ((b / 8) % 2 == 1) == dtr
  {
  }

  /** The four bytes of a density word reassemble into its low 31 bits and bit 31. */
  lemma DensityBytes(d: nat)
    requires d < 0x1_0000_0000
    ensures var b7, b6, b5, b4 := d / 0x100_0000, (d / 0x1_0000) % 0x100, (d / 0x100) % 0x100, d % 0x100;
      && (b7 % 0x80) * 0x100_0000 + b6 * 0x1_0000 + b5 * 0x100 + b4 == d % 0x8000_0000
      && (b7 / 0x80) % 2 == d / 0x8000_0000
  {
    var b7, b6, b5, b4 := d / 0x100_0000, (d / 0x1_0000) % 0x100, (d / 0x100) % 0x100, d % 0x100;
    var low := d % 0x100_0000;
    ModSplit(d, 0x100, 0x100);
    ModSplit(d, 0x1_0000, 0x100);
    assert low == b6 * 0x1_0000 + b5 * 0x100 + b4;
    DivModUnique(d, 0x100_0000, b7, low);
    DivModUnique(d, 0x8000_0000, b7 / 0x80, (b7 % 0x80) * 0x100_0000 + low);
  }

  /** The literal form holds the density in bits minus one (section 6.4.5 of JESD216), and the
      decoder does not add the one back: a part of `bytes` bytes decodes one byte short. */
  lemma LiteralDensityOneShort(hd: Header, f: FlashTable, bytes: nat, undefinedShift: nat -> uint64)
    requires WellFormedTable(f) && 1 <= bytes && f.density == Literal(8 * bytes - 1)
    ensures DecodeTable(hd, EncodeTable(f), undefinedShift).value.size == bytes - 1
  {
    TableRoundTrip(hd, f, undefinedShift);
  }

  /** A 1 Mbit part: the JESD216 word 0x000F_FFFF decodes to 131071 bytes, not 131072. */
  lemma OneMegabitExample(hd: Header, undefinedShift: nat -> uint64)
    ensures var f := FlashTable(1, false, 0x20, 0, false, Literal(0xF_FFFF));
      DecodeTable(hd, EncodeTable(f), undefinedShift).value.size == 131071
  {
    LiteralDensityOneShort(hd, FlashTable(1, false, 0x20, 0, false, Literal(0xF_FFFF)), 131072, undefinedShift);
  }

  /** JESD216 uses the exponent form only above 2 Gbit, where N >= 32: exactly where the C
      shift is undefined, so the decoded size is whatever the undefined shift yields. */
  lemma ExponentFormUndefined(hd: Header, f: FlashTable, undefinedShift: nat -> uint64)
    requires WellFormedTable(f) && f.density.Exponent? && f.density.n >= 32
    ensures DecodeTable(hd, EncodeTable(f), undefinedShift).value.size == undefinedShift(f.density.n) / 8
  {
    TableRoundTrip(hd, f, undefinedShift);
  }

  /** Address-bytes field 0b01 ("3 or 4 bytes") and the reserved 0b11 decode to 0 bytes. */
  lemma ThreeOrFourByteDecodesToZero(hd: Header, f: FlashTable, undefinedShift: nat -> uint64)
    requires WellFormedTable(f) && f.addressBytes in {1, 3}
    ensures DecodeTable(hd, EncodeTable(f), undefinedShift).value.addrBytes == 0
  {
    TableRoundTrip(hd, f, undefinedShift);
  }

  /** Whenever the density is defined it is below 2^28 bytes, so the `uint32_t` size of the
      handle (memoree.c:804) holds it without truncation. */
  lemma DefinedSizeFitsInfo(hd: Header, t: seq<uint8>, undefinedShift: nat -> uint64)
    requires |t| >= 8 && DecodeTable(hd, t, undefinedShift).Success?
    requires (t[7] / 0x80) % 2 == 1 ==> 1 <= DensityField(t) <= 30
    ensures DecodeTable(hd, t, undefinedShift).value.size < 0x1000_0000
    ensures U32(DecodeTable(hd, t, undefinedShift).value.size) == DecodeTable(hd, t, undefinedShift).value.size
  {
    if (t[7] / 0x80) % 2 == 1 {
      Pow2Monotone(DensityField(t), 30);
      Pow2Thirty();
    }
  }
}
