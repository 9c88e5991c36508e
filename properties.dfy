/** Properties of memoree.c stated over the specification functions: what a request looks
    like on the bus, how the write and erase engines split their work, and how init, the
    handle operations and their quirks fit together. */
module Properties {
  import opened Types
  import opened Registry
  import opened Transport
  import opened Codec
  import opened Sfdp
  import opened Engine
  import opened WriteEngine
  import opened EraseEngine
  import opened Lifecycle
  import Arith

  // ---------------------------------------------------------------------------------------
  // Addresses and frames

  /** On every variant but SFDP the array size is a power of two, so `addr & (size - 1)` is
      the address modulo the size, and a no-op inside the array. */
  lemma MaskIsModulo(info: Info, addr: uint32)
    requires InfoConsistent(info) && info.variant != Variant25XXSfdp
    ensures Mask(info, addr) == addr % info.size
    ensures addr < info.size ==> Mask(info, addr) == addr
  {
    var v := info.variant;
    ValidIsHardware(v);
    SizeIsPow2(v);
    var k := SizeLog2(v);
    Pow2Values();
    Arith.Pow2Monotone(k, 17);
    assert U32(info.size - 1) == info.size - 1;
    Arith.AndLowMask(addr, info.size - 1, k, 32);
    if addr < info.size {
      Arith.DivModUnique(addr, info.size, 0, addr);
    }
  }

  /** A write inside the array of an I2C handle is one frame: the select byte, `addr_len / 8`
      address bytes, then the data unchanged. When the transport reports the whole frame, the
      call reports `data_len`. The select byte is the configured address itself when the
      array fits the address bytes. */
  lemma I2CWriteFrame(o: Oracle, info: Info, addr: uint32, data: seq<uint8>, timeout: uint32)
    requires InfoConsistent(info) && InI2CRange(info.variant) && addr < info.size && |data| < 0x8000_0000
    ensures var s := WriteBytesSpec(o, info, addr, data, timeout);
      |s.evs| == 1 && s.evs[0].I2CWrite? &&
      s.evs[0].select == Or8(info.addr, Fold(addr, info.addrLen)) &&
      s.evs[0].bytes == AddressBytes(addr, info.addrLen) + data &&
      |AddressBytes(addr, info.addrLen)| == info.addrLen / 8 &&
      (o.reply(s.evs[0]) == info.addrLen / 8 + |data| ==> s.ret == |data|) &&
      (info.size <= Pow2(info.addrLen) ==> s.evs[0].select == info.addr)
  {
    I2CHandleShape(info);
    var k := SizeLog2(info.variant);
    PowerOfTwoSpace(k);
    SelectPathsAgree(info.addr, k, info.addrLen, addr);
    if info.size <= Pow2(info.addrLen) {
      FoldOfSmallAddress(addr, info.addrLen);
      Or8Zero(info.addr);
    }
  }

  /** The read path and the write path address the same cell: the same select byte and the
      same address bytes, which the write follows with its data. */
  lemma ReadWriteSameCell(o: Oracle, info: Info, addr: uint32, data: seq<uint8>, len: uint32, timeout: uint32, timeout': uint32)
    requires InfoConsistent(info) && InI2CRange(info.variant) && addr < info.size && |data| < 0x1_0000_0000
    ensures var w := WriteBytesSpec(o, info, addr, data, timeout).evs;
            var r := ReadSpec(o, info, addr, len, timeout').evs;
            |w| == 1 && |r| == 1 && w[0].I2CWrite? && r[0].I2CWriteRead? &&
            r[0].select == w[0].select && w[0].bytes == r[0].bytes + data && r[0].readLen == len
  {
    I2CHandleShape(info);
    var k := SizeLog2(info.variant);
    PowerOfTwoSpace(k);
    SelectPathsAgree(info.addr, k, info.addrLen, addr);
  }

  /** With bits 3:1 of the configured address clear, writes of the same data to two different
      cells of an I2C handle send different frames: select byte and address bytes together
      determine the cell. */
  lemma DistinctAddressesDistinctFrames(o: Oracle, info: Info, a: uint32, b: uint32, data: seq<uint8>, timeout: uint32)
    requires InfoConsistent(info) && InI2CRange(info.variant) && SelectBitsClear(info.addr)
    requires a < info.size && b < info.size && a != b && |data| < 0x1_0000_0000
    ensures WriteBytesSpec(o, info, a, data, timeout).evs != WriteBytesSpec(o, info, b, data, timeout).evs
  {
    I2CHandleShape(info);
    var k := SizeLog2(info.variant);
    PowerOfTwoSpace(k);
    var ea, eb := WriteBytesSpec(o, info, a, data, timeout).evs, WriteBytesSpec(o, info, b, data, timeout).evs;
    if ea == eb {
      var pa, pb := AddressBytes(a, info.addrLen), AddressBytes(b, info.addrLen);
      assert pa + data == pb + data;
      assert pa == (pa + data)[..|pa|];
      assert pb == (pb + data)[..|pb|];
      SelectDeterminesAddress(info.addr, k, info.addrLen, a, b);
    }
  }

  /** On a 93C handle a read is one READ (0b110 in 3 bits) at the address modulo the array
      size: a valid handle's reads are not range-checked, they wrap. A non-negative result is
      the byte count. */
  lemma Read93Wraps(o: Oracle, info: Info, addr: uint32, len: uint32, timeout: uint32)
    requires InfoConsistent(info) && In93CRange(info.variant)
    ensures var s := ReadSpec(o, info, addr, len, timeout);
      |s.evs| == 1 && s.evs[0].Spi? && s.evs[0].t.cmdLen == 3 && s.evs[0].t.cmd == Cmd93CRead &&
      s.evs[0].t.addrLen == info.addrLen && s.evs[0].t.addr == addr % info.size &&
      s.evs[0].t.readLen == len && s.evs[0].t.write == [] &&
      s.ret == (if o.reply(s.evs[0]) < 0 then o.reply(s.evs[0]) else ToInt32(len))
  {
    MaskIsModulo(info, addr);
  }

  /** Reads on a valid handle are sent whatever the address, while writes past the end of the
      array are refused with INVALID_ARG before anything is sent. */
  lemma OnlyWritesRangeChecked(o: Oracle, info: Info, addr: uint32, data: seq<uint8>, b: uint8, len: uint32, timeout: uint32)
    requires InfoConsistent(info) && !(addr < info.size) && |data| < 0x1_0000_0000
    ensures |ReadSpec(o, info, addr, len, timeout).evs| == 1
    ensures WriteBytesSpec(o, info, addr, data, timeout) == Step(Code(InvalidArg), [])
    ensures WriteByteSpec(o, info, addr, b, timeout) == Step(Code(InvalidArg), [])
  {
    if InI2CRange(info.variant) {
      I2CHandleShape(info);
      PowerOfTwoSpace(SizeLog2(info.variant));
    }
  }

  /** A non-negative result of a read is the byte count; every other result is an error. */
  lemma ReadCount(o: Oracle, info: Info, addr: uint32, len: uint32, timeout: uint32)
    requires InfoConsistent(info)
    ensures var s := ReadSpec(o, info, addr, len, timeout);
      s.ret >= 0 ==> s.ret == ToInt32(len) && |s.evs| == 1 && s.answer.Some? && |s.answer.value| == len
  {
  }

  /** On an SPI handle a byte write is the family's write enable (0b10011 in 5 bits with 5
      address bits, or WREN 0x06 in 8 bits) and, only when that succeeded, one WRITE (0b101 in
      3 bits) or PP (0x02 in 8 bits) of the byte at `addr & (size - 1)`, whose reply is the
      result; a failed enable is FAIL. */
  lemma WriteByteEnablesFirst(o: Oracle, info: Info, addr: uint32, b: uint8, timeout: uint32)
    requires InfoConsistent(info) && !InI2CRange(info.variant) && addr < info.size
    ensures var s := WriteByteSpec(o, info, addr, b, timeout);
      var is93 := In93CRange(info.variant);
      var wen := if is93 then Transaction(5, Cmd93CWen, 5, 0, [], 0) else Transaction(8, Cmd25Wren, 0, 0, [], 0);
      1 <= |s.evs| <= 2 && s.evs[0] == wen &&
      (|s.evs| == 2 <==> WriteEnableSpec(o, info).ret == Code(Ok)) &&
      (|s.evs| == 1 ==> s.ret == Code(Fail)) &&
      (|s.evs| == 2 ==>
        s.evs[1] == Transaction(if is93 then 3 else 8, if is93 then Cmd93CWrite else Cmd25Pp, info.addrLen, Mask(info, addr), [b], timeout) &&
        s.ret == o.reply(s.evs[1]))
  {
  }

  // ---------------------------------------------------------------------------------------
  // Page chunking

  /** The first chunk is 1 to `page_size` bytes, a whole page exactly when `addr` is aligned,
      and it ends on a page boundary. */
  lemma FirstChunkEndsOnPageBoundary(info: Info, addr: uint32)
    requires info.pageSize > 0
    ensures 1 <= Alignment(info, addr) <= info.pageSize
    ensures (addr + Alignment(info, addr)) % info.pageSize == 0
    ensures Alignment(info, addr) == info.pageSize <==> addr % info.pageSize == 0
  {
    var ps := info.pageSize;
    var q := addr / ps;
    var a := ps - addr % ps;
    assert Alignment(info, addr) == a;
    Arith.MulDistrib(q, 1, ps);
    Arith.DivModUnique(addr + a, ps, q + 1, 0);
  }

  /** The first chunk and the whole pages cover `alignment + page_size * iterations` bytes of
      the request. That is all of it only when what follows the first chunk is a whole number
      of pages: a tail shorter than a page is never written, although a successful call
      reports `data_len`. */
  lemma TailUnwritten(info: Info, addr: uint32, len: uint32)
    requires info.pageSize > 0 && Alignment(info, addr) <= len
    ensures Alignment(info, addr) + info.pageSize * Iterations(info, addr, len) <= len
    ensures (len - Alignment(info, addr)) / info.pageSize < 0x1_0000 ==>
              (Alignment(info, addr) + info.pageSize * Iterations(info, addr, len) == len <==>
               (len - Alignment(info, addr)) % info.pageSize == 0)
  {
    var rest := len - Alignment(info, addr);
    assert U32(rest) == rest;
    WholePages(rest, info.pageSize);
  }

  /** `uint16_t` count of whole pages in `rest` bytes never overstates them, and is exact
      below 2^16 pages. */
  lemma WholePages(rest: nat, ps: nat)
    requires ps > 0
    ensures ps * U16(rest / ps) <= rest
    ensures rest / ps < 0x1_0000 ==> (ps * U16(rest / ps) == rest <==> rest % ps == 0)
  {
    var q := rest / ps;
    if q < 0x1_0000 {
      Arith.DivModUnique(q, 0x1_0000, 0, q);
    } else {
      assert U16(q) < 0x1_0000;
    }
    Arith.MulMono(U16(q), q, ps);
  }

  /** A write shorter than its first chunk: 3 bytes at address 0 of a 24XX02 give a first
      chunk of 8 bytes, 5 of them past the caller's data, and through the `uint32_t`
      subtraction and the `uint16_t` quotient a page loop bound of 65535
      (ShortWriteFailsAtEnd: the loop stops at the end of the array). */
  lemma ShortWriteRunsOn(info: Info)
    requires InfoConsistent(info) && info.variant == Variant24XX02
    ensures Alignment(info, 0) == 8 && Iterations(info, 0, 3) == 0xFFFF
  {
    assert info.pageSize == 8;
    assert U32(3 - 8) == 0xFFFF_FFFB;
    assert 0xFFFF_FFFB / 8 == 0x1FFF_FFFF;
  }

  /** `page_size * j`, the offset of page j, one page at a time (OffsetIsProduct). */
  function Offset(ps: nat, j: nat): nat
  {
    if j == 0 then 0 else Offset(ps, j - 1) + ps
  }

  lemma {:induction false} OffsetIsProduct(ps: nat, j: nat)
    ensures Offset(ps, j) == ps * j
  {
    if j > 0 {
      OffsetIsProduct(ps, j - 1);
      Arith.MulDistrib(j - 1, 1, ps);
    }
  }

  /** Page j of the page loop, as the loop's `page_size * i` offsets put it: `page_size`
      bytes from offset `off + page_size * j` of the data, written at `base + page_size * j`. */
  function PageAt(o: Oracle, info: Info, base: uint32, data: seq<uint8>, off: nat, j: nat): Step
    requires InfoConsistent(info) && info.speed >= 8000
  {
    var p := Offset(info.pageSize, j);
    WriteBytesSpec(o, info, U32(base + p), Window(data, off + p, info.pageSize), DefaultTimeout(info, info.pageSize))
  }

  /** What pages i .. n-1 send when every one succeeds: each page, then twice the page
      write delay. */
  function PagesLog(o: Oracle, info: Info, base: uint32, data: seq<uint8>, off: nat, i: nat, n: nat): seq<Event>
    requires InfoConsistent(info) && info.speed >= 8000
    decreases n - i
  {
    if i >= n then []
    else PageAt(o, info, base, data, off, i).evs + [Delay(2 * info.pageWriteDelayMs)] + PagesLog(o, info, base, data, off, i + 1, n)
  }

  /** The page loop writes page j at `base + page_size * j`, each followed by twice the page
      write delay, and reports OK when every page succeeds. */
  lemma {:induction false} PageOffsets(o: Oracle, info: Info, base: uint32, data: seq<uint8>, off: nat, pos: nat, i: nat, n: nat)
    requires InfoConsistent(info) && info.speed >= 8000 && pos == Offset(info.pageSize, i)
    requires forall j :: i <= j < n ==> PageAt(o, info, base, data, off, j).ret >= 0
    ensures PagesSpec(o, info, base, data, off, pos, i, n) == Step(Code(Ok), PagesLog(o, info, base, data, off, i, n))
    decreases n - i
  {
    if i < n {
      var rest := PagesSpec(o, info, base, data, off, pos + info.pageSize, i + 1, n);
      var later := PagesLog(o, info, base, data, off, i + 1, n);
      PageOffsets(o, info, base, data, off, pos + info.pageSize, i + 1, n);
      assert rest == Step(Code(Ok), later);
      PageStep(o, info, base, data, off, pos, i, n);
      var head := PageAt(o, info, base, data, off, i).evs + [Delay(2 * info.pageWriteDelayMs)];
      assert PagesLog(o, info, base, data, off, i, n) == head + later;
      GoOnAfter(PagesSpec(o, info, base, data, off, pos, i, n), rest, head, later);
    }
  }

  /** A successful head of the log followed by a successful rest is a successful whole. */
  lemma GoOnAfter(whole: Step, rest: Step, head: seq<Event>, later: seq<Event>)
    requires rest == Step(Code(Ok), later) && whole == Step(rest.ret, head + rest.evs)
    ensures whole == Step(Code(Ok), head + later)
  {
  }

  /** A successful page i at offset `page_size * i` is followed by the remaining pages. */
  lemma PageStep(o: Oracle, info: Info, base: uint32, data: seq<uint8>, off: nat, pos: nat, i: nat, n: nat)
    requires InfoConsistent(info) && info.speed >= 8000 && pos == Offset(info.pageSize, i) && i < n
    requires PageAt(o, info, base, data, off, i).ret >= 0
    ensures var rest := PagesSpec(o, info, base, data, off, pos + info.pageSize, i + 1, n);
      PagesSpec(o, info, base, data, off, pos, i, n) ==
        Step(rest.ret, PageAt(o, info, base, data, off, i).evs + [Delay(2 * info.pageWriteDelayMs)] + rest.evs)
  {
  }

  /** The page loop reports OK or FAIL, nothing else. */
  lemma {:induction false} PagesResult(o: Oracle, info: Info, base: uint32, data: seq<uint8>, off: nat, pos: nat, i: nat, n: nat)
    requires InfoConsistent(info) && info.speed >= 8000
    ensures PagesSpec(o, info, base, data, off, pos, i, n).ret in {Code(Ok), Code(Fail)}
    decreases n - i
  {
    if i < n {
      PagesResult(o, info, base, data, off, pos + info.pageSize, i + 1, n);
    }
  }

  /** The chunked write reports `data_len` when the first chunk and every page succeed, and
      FAIL as soon as one chunk fails. */
  lemma PagedWriteResult(o: Oracle, info: Info, addr: uint32, data: seq<uint8>, len: uint32)
    requires InfoConsistent(info) && info.speed >= 8000
    ensures info.pageSize > 0
    ensures var a := Alignment(info, addr);
      var first := WriteBytesSpec(o, info, addr, Window(data, 0, a), DefaultTimeout(info, a));
      var pages := PagesSpec(o, info, U32(addr + a), data, a, 0, 0, Iterations(info, addr, len));
      PagedWrite(o, info, addr, data, len).ret == if first.ret < 0 || pages.ret != Code(Ok) then Code(Fail) else ToInt32(len)
  {
    var align, iterations, first, pages := PagedWriteParts(o, info, addr, data, len);
    PagesResult(o, info, U32(addr + align), data, align, 0, 0, iterations);
  }

  /** The page loop ends at its first refused page j, after pages i .. j-1, with FAIL: the
      pages before it, what page j sent, and its delay. */
  lemma {:induction false} PagesStopAt(o: Oracle, info: Info, base: uint32, data: seq<uint8>, off: nat, pos: nat, i: nat, j: nat, n: nat)
    requires InfoConsistent(info) && info.speed >= 8000 && pos == Offset(info.pageSize, i) && i <= j < n
    requires forall k :: i <= k < j ==> PageAt(o, info, base, data, off, k).ret >= 0
    requires PageAt(o, info, base, data, off, j).ret < 0
    ensures PagesSpec(o, info, base, data, off, pos, i, n) ==
      Step(Code(Fail), PagesLog(o, info, base, data, off, i, j) + (PageAt(o, info, base, data, off, j).evs + [Delay(2 * info.pageWriteDelayMs)]))
    decreases j - i
  {
    var tail := PageAt(o, info, base, data, off, j).evs + [Delay(2 * info.pageWriteDelayMs)];
    if i == j {
      PageFails(o, info, base, data, off, pos, j, n);
    } else {
      assert pos + info.pageSize == Offset(info.pageSize, i + 1);
      PagesStopAt(o, info, base, data, off, pos + info.pageSize, i + 1, j, n);
      PageStopsLater(o, info, base, data, off, pos, i, j, n, tail);
    }
  }

  /** A successful page i before a loop that fails at page j. */
  lemma PageStopsLater(o: Oracle, info: Info, base: uint32, data: seq<uint8>, off: nat, pos: nat, i: nat, j: nat, n: nat, tail: seq<Event>)
    requires InfoConsistent(info) && info.speed >= 8000 && pos == Offset(info.pageSize, i) && i < j < n
    requires PageAt(o, info, base, data, off, i).ret >= 0
    requires PagesSpec(o, info, base, data, off, pos + info.pageSize, i + 1, n) ==
      Step(Code(Fail), PagesLog(o, info, base, data, off, i + 1, j) + tail)
    ensures PagesSpec(o, info, base, data, off, pos, i, n) == Step(Code(Fail), PagesLog(o, info, base, data, off, i, j) + tail)
  {
    PageStep(o, info, base, data, off, pos, i, n);
    var head := PageAt(o, info, base, data, off, i).evs + [Delay(2 * info.pageWriteDelayMs)];
    var later := PagesLog(o, info, base, data, off, i + 1, j);
    assert PagesLog(o, info, base, data, off, i, j) == head + later;
    StopAfter(PagesSpec(o, info, base, data, off, pos, i, n), PagesSpec(o, info, base, data, off, pos + info.pageSize, i + 1, n), head, later, tail);
  }

  /** A step that prefixes `head` to a failed rest fails with the pieces in order. */
  lemma StopAfter(whole: Step, rest: Step, head: seq<Event>, later: seq<Event>, tail: seq<Event>)
    requires rest == Step(Code(Fail), later + tail) && whole == Step(rest.ret, head + rest.evs)
    ensures whole == Step(Code(Fail), (head + later) + tail)
  {
    assert head + (later + tail) == (head + later) + tail;
  }

  /** A refused page i ends the loop with FAIL after its own delay. */
  lemma PageFails(o: Oracle, info: Info, base: uint32, data: seq<uint8>, off: nat, pos: nat, i: nat, n: nat)
    requires InfoConsistent(info) && info.speed >= 8000 && pos == Offset(info.pageSize, i) && i < n
    requires PageAt(o, info, base, data, off, i).ret < 0
    ensures PagesSpec(o, info, base, data, off, pos, i, n) ==
      Step(Code(Fail), PageAt(o, info, base, data, off, i).evs + [Delay(2 * info.pageWriteDelayMs)])
    ensures PagesSpec(o, info, base, data, off, pos, i, n) ==
      Step(Code(Fail), PagesLog(o, info, base, data, off, i, i) + (PageAt(o, info, base, data, off, i).evs + [Delay(2 * info.pageWriteDelayMs)]))
  {
    assert PagesLog(o, info, base, data, off, i, i) == [];
  }

  /** The 3-byte write at address 0 of a 24XX02 with every chunk acknowledged: pages 0 .. 30
      of the loop write [8, 256), with bytes past the caller's data, and page 31 lands at
      address 256, which `_memoree_write_bytes` refuses with nothing sent; the write reports
      FAIL after 32 of its 65535 passes. */
  lemma ShortWriteFailsAtEnd(o: Oracle, info: Info, data: seq<uint8>)
    requires InfoConsistent(info) && info.variant == Variant24XX02 && info.speed >= 8000
    requires WriteBytesSpec(o, info, 0, Window(data, 0, 8), DefaultTimeout(info, 8)).ret >= 0
    requires forall j :: 0 <= j < 31 ==> PageAt(o, info, 8, data, 8, j).ret >= 0
    ensures PageAt(o, info, 8, data, 8, 31) == Step(Code(InvalidArg), [])
    ensures var first := WriteBytesSpec(o, info, 0, Window(data, 0, 8), DefaultTimeout(info, 8));
      PagedWrite(o, info, 0, data, 3) ==
        Step(Code(Fail), (first.evs + [Delay(info.pageWriteDelayMs)]) + PagesLog(o, info, 8, data, 8, 0, 31) +
                         (PageAt(o, info, 8, data, 8, 31).evs + [Delay(2 * info.pageWriteDelayMs)]))
  {
    ShortWriteRunsOn(info);
    PageSizePositive(info);
    LastPageRefused(o, info, data);
    PagedWriteStopsAt(o, info, 0, data, 3, 8, 8, 31);
  }

  /** A chunked write whose first chunk succeeds and whose page j is the first refused one
      reports FAIL after the first chunk, its delay, pages 0 .. j-1 and page j. */
  lemma PagedWriteStopsAt(o: Oracle, info: Info, addr: uint32, data: seq<uint8>, len: uint32, a: uint16, base: uint32, j: nat)
    requires InfoConsistent(info) && info.speed >= 8000
    requires info.pageSize > 0 && a == Alignment(info, addr) && base == U32(addr + a) && j < Iterations(info, addr, len)
    requires WriteBytesSpec(o, info, addr, Window(data, 0, a), DefaultTimeout(info, a)).ret >= 0
    requires forall k :: 0 <= k < j ==> PageAt(o, info, base, data, a, k).ret >= 0
    requires PageAt(o, info, base, data, a, j).ret < 0
    ensures var first := WriteBytesSpec(o, info, addr, Window(data, 0, a), DefaultTimeout(info, a));
      PagedWrite(o, info, addr, data, len) ==
        Step(Code(Fail), (first.evs + [Delay(info.pageWriteDelayMs)]) + PagesLog(o, info, base, data, a, 0, j) +
                         (PageAt(o, info, base, data, a, j).evs + [Delay(2 * info.pageWriteDelayMs)]))
  {
    var align, iterations, first, pages := PagedWriteParts(o, info, addr, data, len);
    var pages' := PagedAfterFirstParts(o, info, addr, data, len, first);
    assert pages == PagesSpec(o, info, base, data, a, 0, 0, iterations);
    PagesStopAt(o, info, base, data, a, 0, 0, j, iterations);
    var lead := first.evs + [Delay(info.pageWriteDelayMs)];
    var tail := PageAt(o, info, base, data, a, j).evs + [Delay(2 * info.pageWriteDelayMs)];
    StopAfter(PagedAfterFirst(o, info, addr, data, len, first), pages, lead, PagesLog(o, info, base, data, a, 0, j), tail);
  }

  /** Page 31 after the first chunk of a write at 0 of a 24XX02 is at address 256, past the
      end of the array. */
  lemma LastPageRefused(o: Oracle, info: Info, data: seq<uint8>)
    requires InfoConsistent(info) && info.variant == Variant24XX02 && info.speed >= 8000
    ensures PageAt(o, info, 8, data, 8, 31) == Step(Code(InvalidArg), [])
  {
    assert info.pageSize == 8 && info.size == 256;
    OffsetIsProduct(8, 31);
  }

  /** The same 3-byte write at address 0 on SFDP flash larger than 4 MiB with 64-byte
      pages: the page loop bound is again 65535, but every one of its pages lies inside the
      array, so when each is acknowledged all 65535 go out and the write reports `len`. */
  lemma ShortWriteRunsThroughLargeFlash(o: Oracle, info: Info, data: seq<uint8>)
    requires InfoConsistent(info) && info.variant == Variant25XXSfdp && info.speed >= 8000
    requires info.pageSize == 64 && info.size > 0x40_0000
    requires WriteBytesSpec(o, info, 0, Window(data, 0, 64), DefaultTimeout(info, 64)).ret >= 0
    requires forall j :: 0 <= j < 0xFFFF ==> PageAt(o, info, 64, data, 64, j).ret >= 0
    ensures Alignment(info, 0) == 64 && Iterations(info, 0, 3) == 0xFFFF
    ensures forall j :: 0 <= j < 0xFFFF ==> 64 + Offset(64, j) + 64 <= info.size
    ensures PagedWrite(o, info, 0, data, 3).ret == 3
  {
    assert U32(3 - 64) == 0xFFFF_FFC3;
    assert 0xFFFF_FFC3 / 64 == 0x3FF_FFFF;
    var n := Iterations(info, 0, 3);
    forall j | 0 <= j < n
      ensures 64 + Offset(64, j) + 64 <= info.size
    {
      PageInLargeFlash(j, n, info.size);
    }
    PagedWriteAllOk(o, info, 0, data, 3, 64, 64, n);
  }

  /** A chunked write whose first chunk and every page are acknowledged reports `data_len`. */
  lemma PagedWriteAllOk(o: Oracle, info: Info, addr: uint32, data: seq<uint8>, len: uint32, a: uint16, base: uint32, n: nat)
    requires InfoConsistent(info) && info.speed >= 8000
    requires info.pageSize > 0 && a == Alignment(info, addr) && base == U32(addr + a) && n == Iterations(info, addr, len)
    requires WriteBytesSpec(o, info, addr, Window(data, 0, a), DefaultTimeout(info, a)).ret >= 0
    requires forall k :: 0 <= k < n ==> PageAt(o, info, base, data, a, k).ret >= 0
    ensures PagedWrite(o, info, addr, data, len).ret == ToInt32(len)
  {
    PagedWriteResult(o, info, addr, data, len);
    PageOffsets(o, info, base, data, a, 0, 0, n);
  }

  /** Page j < 65535 of 64 bytes, after a first 64-byte chunk, ends at most at 4 MiB. */
  lemma PageInLargeFlash(j: nat, n: nat, size: nat)
    requires j < n == 0xFFFF && size > 0x40_0000
    ensures 64 + Offset(64, j) + 64 <= size
  {
    OffsetIsProduct(64, j);
    Arith.MulMono(j, n - 1, 64);
  }

  // ---------------------------------------------------------------------------------------
  // Write enables

  /** The write-enable requests of the two SPI families. */
  predicate IsWriteEnable(e: Event)
  {
    e == Transaction(5, Cmd93CWen, 5, 0, [], 0) || e == Transaction(8, Cmd25Wren, 0, 0, [], 0)
  }

  predicate NoWriteEnable(evs: seq<Event>)
  {
    forall i :: 0 <= i < |evs| ==> !IsWriteEnable(evs[i])
  }

  lemma NoWriteEnableConcat(a: seq<Event>, b: seq<Event>)
    requires NoWriteEnable(a) && NoWriteEnable(b)
    ensures NoWriteEnable(a + b)
  {
    forall i | 0 <= i < |a + b| ensures !IsWriteEnable((a + b)[i]) {
      if i < |a| { assert (a + b)[i] == a[i]; } else { assert (a + b)[i] == b[i - |a|]; }
    }
  }

  /** `_memoree_write_bytes` never sends a write enable: the SFDP page program goes out on
      its own. */
  lemma WriteBytesNoWriteEnable(o: Oracle, info: Info, addr: uint32, data: seq<uint8>, timeout: uint32)
    requires InfoConsistent(info) && |data| < 0x1_0000_0000
    ensures NoWriteEnable(WriteBytesSpec(o, info, addr, data, timeout).evs)
  {
  }

  lemma {:induction false} PagesNoWriteEnable(o: Oracle, info: Info, base: uint32, data: seq<uint8>, off: nat, pos: nat, i: nat, n: nat)
    requires InfoConsistent(info) && info.speed >= 8000
    ensures NoWriteEnable(PagesSpec(o, info, base, data, off, pos, i, n).evs)
    decreases n - i
  {
    if i < n {
      var s := WriteBytesSpec(o, info, U32(base + pos), Window(data, off + pos, info.pageSize), DefaultTimeout(info, info.pageSize));
      WriteBytesNoWriteEnable(o, info, U32(base + pos), Window(data, off + pos, info.pageSize), DefaultTimeout(info, info.pageSize));
      NoWriteEnableConcat(s.evs, [Delay(2 * info.pageWriteDelayMs)]);
      PagesNoWriteEnable(o, info, base, data, off, pos + info.pageSize, i + 1, n);
      NoWriteEnableConcat(s.evs + [Delay(2 * info.pageWriteDelayMs)], PagesSpec(o, info, base, data, off, pos + info.pageSize, i + 1, n).evs);
    }
  }

  lemma PagedWriteNoWriteEnable(o: Oracle, info: Info, addr: uint32, data: seq<uint8>, len: uint32)
    requires InfoConsistent(info) && info.speed >= 8000
    ensures NoWriteEnable(PagedWrite(o, info, addr, data, len).evs)
  {
    var align, iterations, first, pages := PagedWriteParts(o, info, addr, data, len);
    WriteBytesNoWriteEnable(o, info, addr, Window(data, 0, align), DefaultTimeout(info, align));
    NoWriteEnableConcat(first.evs, [Delay(info.pageWriteDelayMs)]);
    PagesNoWriteEnable(o, info, U32(addr + align), data, align, 0, 0, iterations);
    NoWriteEnableConcat(first.evs + [Delay(info.pageWriteDelayMs)], pages.evs);
  }

  /** `memoree_write` on an I2C or SFDP handle sends no write enable at all, wrapped or not,
      whereas on a 93C handle its first request is one. */
  lemma {:induction false} WriteEnableOnlyOn93C(o: Oracle, info: Info, addr: uint32, data: seq<uint8>, len: uint32, timeout: uint32, wrap: bool)
    requires InfoConsistent(info)
    requires In93CRange(info.variant) && len == 0 ==> timeout == 0
    requires !In93CRange(info.variant) ==> info.speed >= 8000 && info.size > 0
    ensures var evs := WriteSpec(o, info, addr, data, len, timeout, wrap).evs;
      if In93CRange(info.variant) then |evs| >= 1 && IsWriteEnable(evs[0]) else NoWriteEnable(evs)
    decreases if wrap then 1 else 0
  {
    if !In93CRange(info.variant) {
      var overflow := Overflow(info, addr, len);
      if overflow > 0 && wrap {
        var s1 := WriteSpec(o, info, addr, data, U32(len - overflow), timeout, false);
        var s2 := WriteSpec(o, info, 0, Shift(data, s1.ret), U32(overflow), timeout, false);
        WrapParts(o, info, addr, data, len, timeout, s1, s2);
        WriteEnableOnlyOn93C(o, info, addr, data, U32(len - overflow), timeout, false);
        WriteEnableOnlyOn93C(o, info, 0, Shift(data, s1.ret), U32(overflow), timeout, false);
        NoWriteEnableConcat(s1.evs, s2.evs);
      } else {
        PagedWriteNoWriteEnable(o, info, addr, data, if overflow > 0 then Truncated(info, addr, len) else len);
      }
    }
  }

  // ---------------------------------------------------------------------------------------
  // The 93C byte loops

  /** When every pass succeeds, the 93C write loop sends pass j (the byte `data[j]` at the
      j-th address) and a delay for each j, and ends with 0. */
  lemma {:induction false} Write93BytesAllOk(o: Oracle, info: Info, start: uint32, data: seq<uint8>, timeout: uint32, k: nat, n: nat)
    requires k < n
    requires forall j :: k <= j < n ==> ToInt8(o.reply(Write93Event(info, start, data, j, timeout))) == 0
    ensures var s := Write93Bytes(o, info, start, data, timeout, k, n);
      s.ret == 0 && |s.evs| == 2 * (n - k) &&
      forall j :: k <= j < n ==>
        s.evs[2 * (j - k)] == Write93Event(info, start, data, j, timeout) && s.evs[2 * (j - k) + 1] == Delay(info.pageWriteDelayMs)
    decreases n - k
  {
    Write93BytesStep(o, info, start, data, timeout, k, n);
    assert ToInt8(o.reply(Write93Event(info, start, data, k, timeout))) == 0;
    if k + 1 < n {
      Write93BytesAllOk(o, info, start, data, timeout, k + 1, n);
      var s, rest := Write93Bytes(o, info, start, data, timeout, k, n), Write93Bytes(o, info, start, data, timeout, k + 1, n);
      forall j | k < j < n
        ensures s.evs[2 * (j - k)] == Write93Event(info, start, data, j, timeout) && s.evs[2 * (j - k) + 1] == Delay(info.pageWriteDelayMs)
      {
        assert s.evs[2 * (j - k)] == rest.evs[2 * (j - (k + 1))];
        assert s.evs[2 * (j - k) + 1] == rest.evs[2 * (j - (k + 1)) + 1];
      }
    }
  }

  /** The 93C write loop stops at the first pass whose reply is not 0, and returns that reply. */
  lemma {:induction false} Write93BytesStops(o: Oracle, info: Info, start: uint32, data: seq<uint8>, timeout: uint32, k: nat, j: nat, n: nat)
    requires k <= j < n
    requires forall m :: k <= m < j ==> ToInt8(o.reply(Write93Event(info, start, data, m, timeout))) == 0
    requires ToInt8(o.reply(Write93Event(info, start, data, j, timeout))) != 0
    ensures var s := Write93Bytes(o, info, start, data, timeout, k, n);
      s.ret == ToInt8(o.reply(Write93Event(info, start, data, j, timeout))) && |s.evs| == 2 * (j - k + 1)
    decreases j - k
  {
    Write93BytesStep(o, info, start, data, timeout, k, n);
    if k < j {
      assert ToInt8(o.reply(Write93Event(info, start, data, k, timeout))) == 0;
      Write93BytesStops(o, info, start, data, timeout, k + 1, j, n);
    }
  }

  /** A 93C write of `data_len > 0` bytes whose write enable and passes all succeed sends the
      enable, then byte pass j followed by a delay for each j, and reports `data_len`. */
  lemma Write93Succeeds(o: Oracle, info: Info, addr: uint32, data: seq<uint8>, len: uint32, timeout: uint32)
    requires 0 < len && WriteEnableSpec(o, info).ret == Code(Ok)
    requires forall j :: 0 <= j < len ==>
      ToInt8(o.reply(Write93Event(info, Mask(info, addr), data, j, PerByteTimeout(timeout, len)))) == 0
    ensures var s := Write93(o, info, addr, data, len, timeout);
      s.ret == ToInt32(len) && |s.evs| == 1 + 2 * len &&
      forall j :: 0 <= j < len ==>
        s.evs[1 + 2 * j] == Write93Event(info, Mask(info, addr), data, j, PerByteTimeout(timeout, len)) &&
        s.evs[2 + 2 * j] == Delay(info.pageWriteDelayMs)
  {
    var enable, bytes := Write93Parts(o, info, addr, data, len, timeout);
    var start, pt := Mask(info, addr), PerByteTimeout(timeout, len);
    assert |enable.evs| == 1;
    Write93BytesAllOk(o, info, start, data, pt, 0, len);
    var s := Write93(o, info, addr, data, len, timeout);
    forall j | 0 <= j < len
      ensures s.evs[1 + 2 * j] == Write93Event(info, start, data, j, pt) && s.evs[2 + 2 * j] == Delay(info.pageWriteDelayMs)
    {
      assert s.evs[1 + 2 * j] == bytes.evs[2 * j];
      assert s.evs[2 + 2 * j] == bytes.evs[2 * j + 1];
    }
  }

  /** A 93C write whose pass j is the first to fail ends after that pass, with FAIL. */
  lemma Write93FailsAt(o: Oracle, info: Info, addr: uint32, data: seq<uint8>, len: uint32, timeout: uint32, j: nat)
    requires j < len && WriteEnableSpec(o, info).ret == Code(Ok)
    requires forall m :: 0 <= m < j ==>
      ToInt8(o.reply(Write93Event(info, Mask(info, addr), data, m, PerByteTimeout(timeout, len)))) == 0
    requires ToInt8(o.reply(Write93Event(info, Mask(info, addr), data, j, PerByteTimeout(timeout, len)))) != 0
    ensures var s := Write93(o, info, addr, data, len, timeout);
      s.ret == Code(Fail) && |s.evs| == 2 * j + 3
  {
    var enable, bytes := Write93Parts(o, info, addr, data, len, timeout);
    assert |enable.evs| == 1;
    Write93BytesStops(o, info, Mask(info, addr), data, PerByteTimeout(timeout, len), 0, j, len);
  }

  /** Pass j of a 93C write carries the byte `data[j]`, at the j-th address after the start,
      with the `uint32_t` wrap. */
  lemma Write93EventCarries(info: Info, start: uint32, data: seq<uint8>, j: nat, timeout: uint32)
    requires j < |data|
    ensures var e := Write93Event(info, start, data, j, timeout);
      e.Spi? && e.t.cmdLen == 3 && e.t.cmd == Cmd93CWrite && e.t.addr == U32(start + j) && e.t.write == [data[j]]
  {
  }

  /** When every pass succeeds, the 93C erase loop writes the erase value once at each
      address k .. n-1, each followed by the page delay, and ends with 0. */
  lemma Erase93BytesAllOk(o: Oracle, info: Info, value: uint8, k: nat, n: nat)
    requires k < n
    requires forall j :: k <= j < n ==> o.reply(Erase93Event(info, value, j)) == 0
    ensures var s := Erase93Bytes(o, info, value, k, n);
      s.ret == 0 && |s.evs| == 2 * (n - k) &&
      forall j :: k <= j < n ==>
        s.evs[2 * (j - k)] == Erase93Event(info, value, j) && s.evs[2 * (j - k) + 1] == Delay(info.pageWriteDelayMs)
  {
    Erase93BytesLog(o, info, value, k, n);
    Erase93LogShape(info, value, k, n);
  }

  /** What passes k .. n-1 of the 93C erase loop send when every one succeeds. */
  function Erase93Log(info: Info, value: uint8, k: nat, n: nat): seq<Event>
    decreases n - k
  {
    if k >= n then [] else [Erase93Event(info, value, k), Delay(info.pageWriteDelayMs)] + Erase93Log(info, value, k + 1, n)
  }

  lemma {:induction false} Erase93BytesLog(o: Oracle, info: Info, value: uint8, k: nat, n: nat)
    requires k < n
    requires forall j :: k <= j < n ==> o.reply(Erase93Event(info, value, j)) == 0
    ensures Erase93Bytes(o, info, value, k, n) == Step(0, Erase93Log(info, value, k, n))
    decreases n - k
  {
    assert o.reply(Erase93Event(info, value, k)) == 0;
    if k + 1 < n {
      Erase93BytesLog(o, info, value, k + 1, n);
    } else {
      assert Erase93Log(info, value, k + 1, n) == [];
    }
  }

  /** Pass j's write is at index 2 (j - k) of the log, its delay right after. */
  lemma {:induction false} Erase93LogShape(info: Info, value: uint8, k: nat, n: nat)
    requires k <= n
    ensures var l := Erase93Log(info, value, k, n);
      |l| == 2 * (n - k) &&
      forall j :: k <= j < n ==> l[2 * (j - k)] == Erase93Event(info, value, j) && l[2 * (j - k) + 1] == Delay(info.pageWriteDelayMs)
    decreases n - k
  {
    if k < n {
      Erase93LogShape(info, value, k + 1, n);
      var l, rest := Erase93Log(info, value, k, n), Erase93Log(info, value, k + 1, n);
      assert l == [Erase93Event(info, value, k), Delay(info.pageWriteDelayMs)] + rest;
      forall j | k <= j < n
        ensures l[2 * (j - k)] == Erase93Event(info, value, j) && l[2 * (j - k) + 1] == Delay(info.pageWriteDelayMs)
      {
        if j > k {
          assert l[2 * (j - k)] == rest[2 * (j - (k + 1))];
          assert l[2 * (j - k) + 1] == rest[2 * (j - (k + 1)) + 1];
        }
      }
    }
  }

  /** On a 93C handle `memoree_erase` is its 93C branch, and leaves `info` alone. */
  lemma EraseOn93C(o: Oracle, info: Info, value: uint8)
    requires InfoConsistent(info) && In93CRange(info.variant)
    ensures EraseSpec(o, info, value) == InfoStep(Erase93Spec(o, info, value).ret, Erase93Spec(o, info, value).evs, info)
  {
  }

  /** The 93C erase: after its write enable, 0xFF is a single ERAL; any other value is one
      1-byte WRITE per cell from address 0 to `size - 1`, reporting OK when all succeed. */
  lemma Erase93Dispatch(o: Oracle, info: Info, value: uint8)
    requires InfoConsistent(info) && In93CRange(info.variant) && WriteEnableSpec(o, info).ret == Code(Ok)
    ensures value == 0xFF ==>
      Erase93Spec(o, info, value).evs ==
        [Transaction(5, Cmd93CWen, 5, 0, [], 0), Transaction(5, Cmd93CEral, 5, 0, [], 0), Delay(info.pageWriteDelayMs)]
    ensures value != 0xFF && (forall j :: 0 <= j < info.size ==> o.reply(Erase93Event(info, value, j)) == 0) ==>
      var s := Erase93Spec(o, info, value);
      s.ret == Code(Ok) && |s.evs| == 1 + 2 * info.size &&
      forall j :: 0 <= j < info.size ==> s.evs[1 + 2 * j] == Erase93Event(info, value, j) && Erase93Event(info, value, j).t.addr == j
  {
    var we, eral, bytes := Erase93Parts(o, info, value);
    if value != 0xFF && (forall j :: 0 <= j < info.size ==> o.reply(Erase93Event(info, value, j)) == 0) {
      Erase93BytesAllOk(o, info, value, 0, info.size);
      assert |we.evs| == 1 && info.size < 0x1_0000_0000;
      Erase93Cells(info, value, we.evs, bytes.evs, info.size);
    }
  }

  /** The write enable followed by the cell loop puts cell j's WRITE at index 1 + 2 j, and
      cell j's address is j itself. */
  lemma Erase93Cells(info: Info, value: uint8, enable: seq<Event>, cells: seq<Event>, n: nat)
    requires |enable| == 1 && |cells| == 2 * n && n < 0x1_0000_0000
    requires forall j :: 0 <= j < n ==> cells[2 * j] == Erase93Event(info, value, j)
    ensures |enable + cells| == 1 + 2 * n
    ensures forall j :: 0 <= j < n ==>
      (enable + cells)[1 + 2 * j] == Erase93Event(info, value, j) && Erase93Event(info, value, j).t.addr == j
  {
    forall j | 0 <= j < n
      ensures (enable + cells)[1 + 2 * j] == Erase93Event(info, value, j) && Erase93Event(info, value, j).t.addr == j
    {
      assert (enable + cells)[1 + 2 * j] == cells[2 * j];
      Arith.DivModUnique(j, 0x1_0000_0000, 0, j);
    }
  }

  // ---------------------------------------------------------------------------------------
  // Wrap and truncation

  /** A wrapping write past the end of the array (ending at most one array past it) is a write of
      `[addr, size)` from the start of the data, then, only if that one reported all of its
      bytes, a write of the rest at address 0 from `data[size - addr..]`; `data_len` is
      reported when both are complete, otherwise the first short result. */
  lemma WrapWritesToEndThenFromZero(o: Oracle, info: Info, addr: uint32, data: seq<uint8>, len: uint32, timeout: uint32)
    requires InfoConsistent(info) && !In93CRange(info.variant) && info.speed >= 8000 && info.size > 0
    requires addr < info.size < addr + len < 0x1_0000_0000 && addr + len <= 2 * info.size
    ensures var head := PagedWrite(o, info, addr, data, info.size - addr);
      var tail := PagedWrite(o, info, 0, Shift(data, info.size - addr), addr + len - info.size);
      WriteSpec(o, info, addr, data, len, timeout, true) ==
        if head.ret != info.size - addr then head
        else Step(if tail.ret != addr + len - info.size then tail.ret else ToInt32(len), head.evs + tail.evs)
  {
    WrapLengths(info, addr, len);
    var overflow := Overflow(info, addr, len);
    var h, t := info.size - addr, addr + len - info.size;
    var s1 := WriteSpec(o, info, addr, data, U32(len - overflow), timeout, false);
    var s2 := WriteSpec(o, info, 0, Shift(data, s1.ret), U32(overflow), timeout, false);
    WrapParts(o, info, addr, data, len, timeout, s1, s2);
    WrapIsChunked(o, info, addr, data, len, timeout);
    WithinArrayIsPaged(o, info, addr, data, h, timeout);
    assert s1 == PagedWrite(o, info, addr, data, h);
    if s1.ret == h {
      WithinArrayIsPaged(o, info, 0, Shift(data, h), t, timeout);
      assert s2 == PagedWrite(o, info, 0, Shift(data, h), t);
    }
  }

  lemma WrapLengths(info: Info, addr: uint32, len: uint32)
    requires addr < info.size < addr + len < 0x1_0000_0000 && addr + len <= 2 * info.size
    ensures Overflow(info, addr, len) == addr + len - info.size
    ensures U32(len - Overflow(info, addr, len)) == info.size - addr
    ensures U32(Overflow(info, addr, len)) == addr + len - info.size <= info.size
  {
  }

  /** A write that does not run past the end of the array is the chunked write of all of it,
      with or without wrap. */
  lemma WithinArrayIsPaged(o: Oracle, info: Info, addr: uint32, data: seq<uint8>, len: uint32, timeout: uint32)
    requires InfoConsistent(info) && !In93CRange(info.variant) && info.speed >= 8000 && info.size > 0
    requires addr + len <= info.size
    ensures WriteSpec(o, info, addr, data, len, timeout, false) == PagedWrite(o, info, addr, data, len)
  {
    assert Overflow(info, addr, len) <= 0;
  }

  /** A wrapping write that runs past the end is the wrap recursion. */
  lemma WrapIsChunked(o: Oracle, info: Info, addr: uint32, data: seq<uint8>, len: uint32, timeout: uint32)
    requires InfoConsistent(info) && !In93CRange(info.variant) && info.speed >= 8000 && info.size > 0
    requires Overflow(info, addr, len) > 0
    ensures WriteSpec(o, info, addr, data, len, timeout, true) == WrapSpec(o, info, addr, data, len, timeout)
  {
  }

  /** Without wrap, a write running past the end by less than one array is cut at the end:
      exactly `[addr, size)` is written. */
  lemma TruncateToEnd(o: Oracle, info: Info, addr: uint32, data: seq<uint8>, len: uint32, timeout: uint32)
    requires InfoConsistent(info) && !In93CRange(info.variant) && info.speed >= 8000 && info.size > 0
    requires addr < info.size < addr + len < 0x1_0000_0000 && addr + len < 2 * info.size
    ensures WriteSpec(o, info, addr, data, len, timeout, false) == PagedWrite(o, info, addr, data, info.size - addr)
  {
    TruncatedLength(info, addr, len);
    TruncatedIsPaged(o, info, addr, data, len, timeout);
  }

  lemma TruncatedLength(info: Info, addr: uint32, len: uint32)
    requires addr < info.size < addr + len < 0x1_0000_0000 && addr + len < 2 * info.size
    ensures Overflow(info, addr, len) > 0 && Truncated(info, addr, len) == info.size - addr
  {
    Arith.DivModUnique(addr + len, info.size, 1, addr + len - info.size);
  }

  /** Without wrap, a write that runs past the end is the chunked write of the truncated
      length. */
  lemma TruncatedIsPaged(o: Oracle, info: Info, addr: uint32, data: seq<uint8>, len: uint32, timeout: uint32)
    requires InfoConsistent(info) && !In93CRange(info.variant) && info.speed >= 8000 && info.size > 0
    requires Overflow(info, addr, len) > 0
    ensures WriteSpec(o, info, addr, data, len, timeout, false) == PagedWrite(o, info, addr, data, Truncated(info, addr, len))
  {
  }

  /** The truncation subtracts `(addr + data_len) % size`, which is the overrun itself only
      below one array: `2 * size + 1` bytes at address 0 are cut to `2 * size`, still past
      the end. */
  lemma TruncationCanOverrun(info: Info)
    requires 1 < info.size && 2 * info.size + 1 < 0x1_0000_0000
    ensures Truncated(info, 0, 2 * info.size + 1) == 2 * info.size
  {
    Arith.DivModUnique(2 * info.size + 1, info.size, 2, 1);
  }

  // ---------------------------------------------------------------------------------------
  // Erase

  /** On a 93C handle every page number below `num_pages` erases the same way: one command at
      address 0, with a 5-bit command length, that is ERASE exactly when the value is 0xFF. */
  lemma ErasePage93IgnoresPage(o: Oracle, info: Info, page: uint32, value: uint8)
    requires InfoConsistent(info) && In93CRange(info.variant) && page < info.numPages
    ensures ErasePageSpec(o, info, page, value) == ErasePageSpec(o, info, 0, value)
    ensures var evs := ErasePageSpec(o, info, page, value).evs;
      |evs| == 2 && evs[0].Spi? && evs[0].t.addr == 0 && evs[0].t.cmdLen == 5 &&
      (evs[0].t.cmd == Cmd93CErase <==> value == 0xFF) && evs[1] == Delay(info.pageWriteDelayMs)
  {
  }

  /** `num_pages` is `uint16_t`: an SFDP flash of 4 MiB with 64-byte pages gets 65536 mod
      2^16 = 0 pages from init, so an erase with any value but 0xFF then sends nothing and
      reports OK. */
  lemma LargeFlashEraseSendsNothing(p: Platform, conf: InterfaceConf, o: Oracle, value: uint8)
    requires var h := InitSpec(p, Variant25XXSfdp, conf).handle;
      h.Some? && h.value.size == 0x40_0000 && h.value.pageSize == 64
    requires value != 0xFF
    ensures var info := InitSpec(p, Variant25XXSfdp, conf).handle.value;
      info.numPages == 0 && EraseSpec(o, info, value) == InfoStep(Code(Ok), [], info)
  {
    var info := InitSpec(p, Variant25XXSfdp, conf).handle.value;
    assert info.size / info.pageSize == 0x1_0000;
  }

  /** Page j of the erase fill: `page_size` bytes of the erase value, written at
      `page_size * j`. */
  function FillAt(o: Oracle, info: Info, value: uint8, j: nat): Step
    requires InfoConsistent(info) && info.speed >= 8000
  {
    PageSizePositive(info);
    WriteBytesSpec(o, info, U32(j * info.pageSize), Fill(info.pageSize, value), DefaultTimeout(info, info.pageSize))
  }

  /** What fill pages i .. n-1 send when each reports `page_size`: each page, then the page
      delay. */
  function FillLog(o: Oracle, info: Info, value: uint8, i: nat, n: nat): seq<Event>
    requires InfoConsistent(info) && info.speed >= 8000
    decreases n - i
  {
    if i >= n then [] else FillAt(o, info, value, i).evs + [Delay(info.pageWriteDelayMs)] + FillLog(o, info, value, i + 1, n)
  }

  /** When every page from k on reports `page_size`, the fill writes each of them, each
      followed by the page delay, and reports OK. */
  lemma {:induction false} FillPagesAllOk(o: Oracle, info: Info, value: uint8, k: nat)
    requires InfoConsistent(info) && info.speed >= 8000
    requires forall j :: k <= j < info.numPages ==> FillAt(o, info, value, j).ret == info.pageSize
    ensures FillPages(o, info, value, k) == Step(Code(Ok), FillLog(o, info, value, k, info.numPages))
    decreases info.numPages - k
  {
    if k < info.numPages {
      FillPagesAllOk(o, info, value, k + 1);
    }
  }

  /** The first page j whose count is not `page_size` ends the fill with that count (0
      included, which reads as OK), after pages k .. j-1, page j and its delay. */
  lemma {:induction false} FillPagesStopAt(o: Oracle, info: Info, value: uint8, k: nat, j: nat)
    requires InfoConsistent(info) && info.speed >= 8000 && k <= j < info.numPages
    requires forall m :: k <= m < j ==> FillAt(o, info, value, m).ret == info.pageSize
    requires FillAt(o, info, value, j).ret != info.pageSize
    ensures FillPages(o, info, value, k) ==
      Step(FillAt(o, info, value, j).ret, FillLog(o, info, value, k, j) + FillAt(o, info, value, j).evs + [Delay(info.pageWriteDelayMs)])
    decreases j - k
  {
    if k < j {
      FillPagesStopAt(o, info, value, k + 1, j);
    }
  }

  /** An erase of any memory outside the 93C range other than the SFDP 0xFF case is the page
      fill of the handle's own `info`: OK with every page written when each reports
      `page_size`. */
  lemma EraseFillsEveryPage(o: Oracle, info: Info, value: uint8)
    requires InfoConsistent(info) && !In93CRange(info.variant) && info.speed >= 8000
    requires !(info.variant == Variant25XXSfdp && value == 0xFF)
    requires forall j :: 0 <= j < info.numPages ==> FillAt(o, info, value, j).ret == info.pageSize
    ensures EraseSpec(o, info, value) == InfoStep(Code(Ok), FillLog(o, info, value, 0, info.numPages), info)
  {
    FillPagesAllOk(o, info, value, 0);
  }

  /** Outside the 93C range `memoree_erase_page` is one page of the erase value at
      `page * page_size`, a single request whenever that address lies in the array (always
      on I2C); the count `page_size` becomes OK, any other count is returned, so a count of
      0 also reads as OK. */
  lemma ErasePageIsOneWrite(o: Oracle, info: Info, page: uint32, value: uint8)
    requires InfoConsistent(info) && !In93CRange(info.variant) && page < info.numPages && info.speed >= 8000
    ensures var w := FillAt(o, info, value, page);
      ErasePageSpec(o, info, page, value) == Step(if w.ret == info.pageSize then Code(Ok) else w.ret, w.evs) &&
      (ErasePageSpec(o, info, page, value).ret == Code(Ok) <==> w.ret == info.pageSize || w.ret == 0)
    ensures U32(page * info.pageSize) == page * info.pageSize
    ensures InI2CRange(info.variant) ==> page * info.pageSize < info.size
    ensures |FillAt(o, info, value, page).evs| == if page * info.pageSize < info.size then 1 else 0
  {
    PageBelowLimit(info, page);
    var a := page * info.pageSize;
    var fill, timeout := Fill(info.pageSize, value), DefaultTimeout(info, info.pageSize);
    if InI2CRange(info.variant) {
      I2CWriteFrame(o, info, a, fill, timeout);
    } else if !(a < info.size) {
      OnlyWritesRangeChecked(o, info, a, fill, value, 0, timeout);
    }
  }

  /** A page below `num_pages` starts below 2^32, and inside the array on I2C. */
  lemma PageBelowLimit(info: Info, page: nat)
    requires InfoConsistent(info) && !In93CRange(info.variant) && page < info.numPages
    ensures page * info.pageSize < 0x1_0000_0000 && U32(page * info.pageSize) == page * info.pageSize
    ensures InI2CRange(info.variant) ==> page * info.pageSize < info.size && info.pageSize <= 128
  {
    var ps := info.pageSize;
    if InI2CRange(info.variant) {
      I2CHandleShape(info);
      assert info.numPages == info.size / ps;
      PageInside(page, info.size, ps);
    }
    Arith.MulMono(page, 0xFFFF, ps);
  }

  lemma PageInside(page: nat, size: nat, ps: nat)
    requires ps > 0 && page < size / ps
    ensures page * ps < size
  {
    Arith.MulMono(page + 1, size / ps, ps);
    Arith.DivMulAtMost(size, ps);
  }

  /** The SFDP 0xFF erase whose rediscovery yields a 4 KiB erase opcode and a non-empty array
      is one sector-erase transaction (8-bit opcode, the discovered address length, address
      0, nothing to write) and the page delay, at any bus speed; the transport's 0 is OK. */
  lemma SfdpSectorErase(o: Oracle, info: Info)
    requires InfoConsistent(info) && info.variant == Variant25XXSfdp
    requires var g := GetSfdpSpec(o, info, 100);
      g.ret == Code(Ok) && g.param.Some? && g.param.value.erase4kOpcode != 0 && g.info.size > 0
    ensures var g := GetSfdpSpec(o, info, 100);
      var e := Transaction(8, g.param.value.erase4kOpcode, g.info.addrLen, 0, [], 0);
      EraseSpec(o, info, 0xFF) ==
        InfoStep(if o.reply(e) == 0 then Code(Ok) else o.reply(e), g.evs + [e, Delay(g.info.pageWriteDelayMs)], g.info)
  {
    var g, fill := SfdpEraseParts(o, info);
  }

  /** An SFDP read is one READ (0x03, 8-bit opcode) at `addr & (size - 1)` with the handle's
      address length and no dummy bits, for `data_len` bytes; a non-negative result is the
      byte count. */
  lemma ReadSfdpFrame(o: Oracle, info: Info, addr: uint32, len: uint32, timeout: uint32)
    requires InfoConsistent(info) && info.variant == Variant25XXSfdp
    ensures var s := ReadSpec(o, info, addr, len, timeout);
      |s.evs| == 1 && s.evs[0] == Spi(SpiTransaction(8, 0x03, info.addrLen, Mask(info, addr), 0, len, [], timeout)) &&
      s.answer == Some(Answer(o, s.evs[0])) &&
      s.ret == (if o.reply(s.evs[0]) < 0 then o.reply(s.evs[0]) else ToInt32(len))
  {
  }

  // ---------------------------------------------------------------------------------------
  // Handle lifecycle

  /** Init refuses the stub variants, so no handle it returns can use `memoree_stub_read`. */
  lemma InitHandlesCannotStubRead(p: Platform, variant: nat, conf: InterfaceConf, o: Oracle, t: SpiTransaction)
    requires InitSpec(p, variant, conf).handle.Some?
    ensures StubReadSpec(o, InitSpec(p, variant, conf).handle.value, t) == ReadStep(Code(InvalidArg), [], None)
  {
  }

  /** A handle from init is accepted by deinit, which frees it unless the transport's deinit
      reports an error. */
  lemma InitHandlesDeinit(p: Platform, variant: nat, conf: InterfaceConf, ifDeinit: bool, releaseReply: int32)
    requires InitSpec(p, variant, conf).handle.Some?
    ensures var d := DeinitSpec(InitSpec(p, variant, conf).handle.value, ifDeinit, releaseReply);
      d.releases == ifDeinit && (d.frees <==> !ifDeinit || releaseReply == 0)
  {
  }

  /** Init leaves the transport open without returning a handle when the allocation fails,
      and when SFDP discovery fails on a fresh SFDP handle. */
  lemma InitLeaksTransport(p: Platform, variant: nat, conf: InterfaceConf)
    requires VariantIsValid(variant) && (if InI2CRange(variant) then p.i2cInitOk else p.spiInitOk)
    requires !p.allocOk ||
             (variant == Variant25XXSfdp && GetSfdpSpec(p.oracle, TableInfo(variant, conf.addr), 100).ret != Code(Ok))
    ensures InitSpec(p, variant, conf).handle.None? && InitSpec(p, variant, conf).transportOpen
  {
  }

  /** A ping on an I2C handle reports OK exactly when the transport's ping result is
      non-zero. */
  lemma PingInvertsI2C(o: Oracle, info: Info, timeout: uint32)
    requires InfoConsistent(info) && InI2CRange(info.variant)
    ensures var s := PingSpec(o, info, timeout);
      s.evs == [I2CPing(info.addr, timeout)] && s.info == info &&
      (s.ret == Code(Ok) <==> o.reply(I2CPing(info.addr, timeout)) != 0) &&
      (s.ret != Code(Ok) ==> s.ret == Code(Fail))
  {
  }

  /** SFDP discovery on any handle but a valid SFDP one reports OK without a request and
      without touching `info` or the caller's parameter record. */
  lemma DiscoveryRefusalIsOk(o: Oracle, info: Info, timeout: uint32)
    requires !VariantIsValid(info.variant) || info.variant != Variant25XXSfdp
    ensures GetSfdpSpec(o, info, timeout) == SfdpStep(Code(Ok), [], info, None, None)
  {
  }
}
