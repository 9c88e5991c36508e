/** The handle `struct memoree` (memoree.c:167-171): the transport it was opened on and the
    `memoree_info_t` record, which SFDP discovery rewrites in place. Each public function of
    memoree.c is a method that issues exactly the requests of its specification in Engine,
    WriteEngine or EraseEngine, and returns the same result. */
module Handle {
  import opened Types
  import opened Registry
  import opened Transport
  import opened Codec
  import opened Sfdp
  import opened Engine
  import opened WriteEngine
  import opened EraseEngine
  import opened Lifecycle
  import Arith

  class Memoree {
    const bus: Bus
    var info: Info
    /** Set once `memoree_deinit` has freed the handle; nothing may use it after that. */
    ghost var freed: bool

    /** Every handle `memoree_init` returns describes a real part of the table, until it is
        freed. */
    ghost predicate Valid()
      reads this
    {
      !freed && InfoConsistent(info)
    }

    /** The `malloc` and `memcpy` of `memoree_init`. */
    constructor (bus: Bus, info: Info)
      ensures this.bus == bus && this.info == info && !freed
    {
      this.bus := bus;
      this.info := info;
      freed := false;
    }

    /** `memoree_init` (memoree.c:285-341). Returns NULL, or a handle whose `info` and
        requests are those of InitSpec; `transport` is the transport init opened, which stays
        open when init fails after opening it. */
    static method Init(p: Platform, variant: nat, conf: InterfaceConf) returns (m: Memoree?, confOut: InterfaceConf, ghost transport: Bus?)
      ensures var s := InitSpec(p, variant, conf);
              confOut == s.conf && (m != null) == s.handle.Some? && (transport != null) == s.transportOpen &&
              (m != null ==> fresh(m) && m.bus == transport && m.info == s.handle.value && m.Valid()) &&
              (transport != null ==> fresh(transport) && transport.open && transport.oracle == p.oracle &&
                                     transport.conf == confOut && transport.log == s.evs)
    {
      m, transport := null, null;
      if !VariantIsValid(variant) {
        return null, conf, null;
      }
      var speed := ClampSpeed(variant, conf.speed);
      confOut := conf.(speed := speed);
      var bus := OpenTransport(p, variant < VariantI2CMax, confOut);
      transport := bus;
      if bus == null || !p.allocOk {
        return;
      }
      TableIndexedByVariant(variant);
      var mem := new Memoree(bus, MemProps[variant]);
      if mem.info.kind == I2C {
        mem.info := mem.info.(addr := confOut.addr);
      }
      if mem.info.variant == Variant25XXSfdp {
        var ret, _, param := mem.GetSfdp(100);
        if ret != Code(Ok) {
          var _ := mem.Deinit(false);
          return;
        }
      } else {
        RegistryGeometry(variant);
      }
      mem.info := mem.info.(speed := speed, numPages := U16(mem.info.size / mem.info.pageSize), isProtected := false);
      m := mem;
    }

    /** `memoree_deinit` (memoree.c:343-372). The I2C and SPI deinit calls of the `switch` are
        both the transport's Release. */
    method Deinit(ifDeinit: bool) returns (r: int)
      requires !freed
      modifies bus`open, this`freed
      ensures var s := DeinitSpec(info, ifDeinit, bus.releaseReply);
              r == s.ret && freed == s.frees &&
              bus.open == (old(bus.open) && !(s.releases && bus.releaseReply == 0))
    {
      if !VariantIsStub(info.variant) && !VariantIsValid(info.variant) {
        return Code(InvalidArg);
      }
      if ifDeinit {
        var ret := bus.Release();
        if ret != 0 {
          return Code(Fail);
        }
      }
      freed := true;
      r := Code(Ok);
    }

    /** `_memoree_write_bytes` (memoree.c:194-248). */
    method WriteBytes(addr: uint32, data: seq<uint8>, timeout: uint32) returns (r: int)
      requires Valid() && |data| < 0x1_0000_0000
      modifies bus`log
      ensures var s := WriteBytesSpec(bus.oracle, info, addr, data, timeout);
              r == s.ret && bus.log == old(bus.log) + s.evs
    {
      if !(addr < info.size) {
        return Code(InvalidArg);
      }
      if info.variant < VariantI2CMax {
        var space := AddressSpace(info.size);
        if space <= 0 {
          return Code(InvalidArg);
        }
        I2CHandleShape(info);
        var select := WriteSelect(info.addr, space, info.addrLen, addr);
        var buf := PrependAddress(addr, info.addrLen, data);
        var ret, _ := bus.Transfer(I2CWrite(select, buf, timeout));
        r := if ret > 0 then ret - info.addrLen / 8 else ret;
      } else if info.variant == Variant25XXSfdp {
        var ret, _ := bus.Transfer(Transaction(8, Cmd25Pp, info.addrLen, Mask(info, addr), data, timeout));
        r := if ret == 0 then ToInt32(|data|) else Code(Fail);
      } else {
        r := Code(InvalidArg);
      }
    }

    /** `_memoree_spi_write_enable` (memoree.c:251-281). */
    method WriteEnable() returns (r: int)
      modifies bus`log
      ensures var s := WriteEnableSpec(bus.oracle, info);
              r == s.ret && bus.log == old(bus.log) + s.evs
    {
      if !VariantIsValid(info.variant) || info.variant < VariantI2CMax {
        return Code(InvalidArg);
      }
      r := Code(Fail);
      if info.variant < Variant93CXXMax {
        var ret, _ := bus.Transfer(Transaction(5, Cmd93CWen, 5, 0, [], 0));
        if ToInt8(ret) == 0 {
          r := Code(Ok);
        }
      } else if info.variant == Variant25XXSfdp {
        var ret, _ := bus.Transfer(Transaction(8, Cmd25Wren, 0, 0, [], 0));
        if ret == 0 {
          r := Code(Ok);
        }
      }
    }

    /** `memoree_ping` (memoree.c:374-388). */
    method Ping(timeout: uint32) returns (r: int)
      requires Valid()
      modifies bus`log, this`info
      ensures var s := PingSpec(bus.oracle, old(info), timeout);
              r == s.ret && bus.log == old(bus.log) + s.evs && info == s.info
      ensures Valid()
    {
      if !VariantIsValid(info.variant) {
        return Code(InvalidArg);
      }
      if info.variant < VariantI2CMax {
        var ret, _ := bus.Transfer(I2CPing(info.addr, timeout));
        r := if ret != 0 then Code(Ok) else Code(Fail);
      } else if info.variant == Variant25XXSfdp {
        var header, param;
        r, header, param := GetSfdp(timeout);
      } else {
        r := Code(InvalidArg);
      }
    }

    /** `memoree_read` (memoree.c:436-500): the bytes read land at the start of `data`. */
    method Read(addr: uint32, data: array<uint8>, len: uint32, timeout: uint32) returns (r: int)
      requires Valid() && len <= data.Length
      modifies bus`log, data
      ensures var s := ReadSpec(bus.oracle, info, addr, len, timeout);
              r == s.ret && bus.log == old(bus.log) + s.evs &&
              data[..] == (if s.answer.Some? then s.answer.value + old(data[len..]) else old(data[..]))
    {
      if !VariantIsValid(info.variant) && !(addr < info.size) {
        return Code(InvalidArg);
      }
      var ret := Code(Fail);
      if info.variant < VariantI2CMax {
        var space := AddressSpace(info.size);
        if space <= 0 {
          return Code(InvalidArg);
        }
        I2CHandleShape(info);
        var select := ReadSelect(info.addr, space, info.addrLen, addr);
        var prefix := PrependAddress(addr, info.addrLen, []);
        assert prefix == AddressBytes(addr, info.addrLen);
        ret := bus.TransferInto(I2CWriteRead(select, prefix, len, timeout), data);
      } else if info.variant < Variant93CXXMax {
        ret := bus.TransferInto(Spi(SpiTransaction(3, Cmd93CRead, info.addrLen, Mask(info, addr), 0, len, [], timeout)), data);
      } else if info.variant == Variant25XXSfdp {
        ret := bus.TransferInto(Spi(SpiTransaction(8, Cmd25Read, info.addrLen, Mask(info, addr), 0, len, [], timeout)), data);
      }
      r := ReadResult(ret, len);
    }

    /** `memoree_read_byte` (memoree.c:390-394). */
    method ReadByte(addr: uint32, data: array<uint8>, timeout: uint32) returns (r: int)
      requires Valid() && 1 <= data.Length
      modifies bus`log, data
      ensures var s := ReadByteSpec(bus.oracle, info, addr, timeout);
              r == s.ret && bus.log == old(bus.log) + s.evs &&
              data[..] == (if s.answer.Some? then s.answer.value + old(data[1..]) else old(data[..]))
    {
      var ret := Read(addr, data, 1, timeout);
      r := if ret == 1 then Code(Ok) else ret;
    }

    /** `memoree_write_byte` (memoree.c:396-434). */
    method WriteByte(addr: uint32, b: uint8, timeout: uint32) returns (r: int)
      requires Valid()
      modifies bus`log
      ensures var s := WriteByteSpec(bus.oracle, info, addr, b, timeout);
              r == s.ret && bus.log == old(bus.log) + s.evs
    {
      if !VariantIsValid(info.variant) || !(addr < info.size) {
        return Code(InvalidArg);
      }
      if info.variant < VariantI2CMax {
        r := WriteBytes(addr, [b], timeout);
      } else {
        var we := WriteEnable();
        if we != Code(Ok) {
          return Code(Fail);
        }
        var t := SpiTransaction(0, 0, info.addrLen, Mask(info, addr), 0, 0, [b], timeout);
        if info.variant < Variant93CXXMax {
          t := t.(cmdLen := 3, cmd := Cmd93CWrite);
        } else if info.variant == Variant25XXSfdp {
          t := t.(cmdLen := 8, cmd := Cmd25Pp);
        }
        var ret, _ := bus.Transfer(Spi(t));
        r := ret;
      }
    }

    /** `memoree_get_sfdp` (memoree.c:736-807): `header` is what reaches the caller's record
        once the header checks pass, `param` the whole record on success; on success the
        decoded address length, page size and size replace those of `info`. */
    method GetSfdp(timeout: uint32) returns (r: int, header: Option<Header>, param: Option<SfdpParam>)
      requires !freed
      modifies bus`log, this`info
      ensures var s := GetSfdpSpec(bus.oracle, old(info), timeout);
              r == s.ret && bus.log == old(bus.log) + s.evs && info == s.info &&
              header == s.header && param == s.param
      ensures old(Valid()) ==> Valid()
    {
      if !VariantIsValid(info.variant) || info.variant != Variant25XXSfdp {
        return Code(Ok), None, None;
      }
      var ret, bytes := bus.Transfer(SfdpHeaderRead(timeout));
      if ret != 0 {
        return Code(Fail), None, None;
      }
      var hd := DecodeHeader(bytes);
      if hd.Failure? {
        return Code(hd.err), None, None;
      }
      header := Some(hd.value);
      var table;
      ret, table := bus.Transfer(SfdpTableRead(hd.value, timeout));
      if ret != 0 {
        return Code(Fail), header, None;
      }
      var p := Decode(bytes, table, bus.oracle.undefinedShift);
      if p.Failure? {
        return Code(p.err), header, None;
      }
      info := ApplyParam(info, p.value);
      r, param := Code(Ok), Some(p.value);
    }

    /** The 93C branch of `memoree_write` (memoree.c:510-537): a write enable, then the
        byte loop. */
    method WriteEach93(addr: uint32, data: seq<uint8>, len: uint32, timeout: uint32) returns (r: int)
      requires len == 0 ==> timeout == 0
      modifies bus`log
      ensures var s := Write93(bus.oracle, info, addr, data, len, timeout);
              r == s.ret && bus.log == old(bus.log) + s.evs
    {
      ghost var enable, bytes := Write93Parts(bus.oracle, info, addr, data, len, timeout);
      var we := WriteEnable();
      if we != Code(Ok) {
        return Code(Fail);
      }
      var ret := WriteLoop93(Mask(info, addr), data, len, PerByteTimeout(timeout, len));
      LogAppend(old(bus.log), enable.evs, bytes.evs);
      r := if ret == 0 then ToInt32(len) else Code(Fail);
    }

    /** The do-while of memoree.c:525-534: one byte per pass, advancing the transaction's
        address and write pointer, until a reply is non-zero or the `uint32_t` count runs
        out. The result is the `int8_t` reply of the last pass. */
    method WriteLoop93(start: uint32, data: seq<uint8>, len: uint32, perByte: uint32) returns (ret: int)
      modifies bus`log
      ensures var s := Write93Bytes(bus.oracle, info, start, data, perByte, 0, Passes(len));
              ret == s.ret && bus.log == old(bus.log) + s.evs
    {
      ghost var n, o, inf := Passes(len), bus.oracle, info;
      ghost var all := Write93Bytes(o, inf, start, data, perByte, 0, n);
      var t := SpiTransaction(3, Cmd93CWrite, info.addrLen, start, 0, 0, Window(data, 0, 1), perByte);
      var bytesToWrite: uint32 := len;
      var k: nat := 0;   // how far `t.write_buff` has advanced into `data`
      while true
        invariant k < n
        invariant t == SpiTransaction(3, Cmd93CWrite, inf.addrLen, U32(start + k), 0, 0, Window(data, k, 1), perByte)
        invariant bytesToWrite == (if k == 0 then len else n - k)
        invariant Write93Bytes(o, inf, start, data, perByte, k, n).ret == all.ret
        invariant bus.log + Write93Bytes(o, inf, start, data, perByte, k, n).evs == old(bus.log) + all.evs
        decreases n - k
      {
        Write93BytesStep(o, inf, start, data, perByte, k, n);
        CountDown(len, k, bytesToWrite);
        ghost var logBefore := bus.log;
        var reply, _ := bus.Transfer(Spi(t));
        ret := ToInt8(reply);
        Arith.U32Succ(start + k);
        t := t.(addr := U32(t.addr + 1), write := Window(data, k + 1, 1));
        bus.Sleep(info.pageWriteDelayMs);
        ghost var passEvs := [Write93Event(inf, start, data, k, perByte), Delay(inf.pageWriteDelayMs)];
        LogAppend(logBefore, [passEvs[0]], [passEvs[1]]);
        assert bus.log == logBefore + passEvs;
        bytesToWrite := U32(bytesToWrite - 1);
        if !(ret == 0 && bytesToWrite != 0) {
          return;
        }
        LogAppend(logBefore, passEvs, Write93Bytes(o, inf, start, data, perByte, k + 1, n).evs);
        k := k + 1;
      }
    }

    /** The chunked part of `memoree_write` (memoree.c:559-580): the bytes up to the first
        page boundary, then `iterations` whole pages. */
    method WritePaged(addr: uint32, data: seq<uint8>, len: uint32) returns (r: int)
      requires Valid() && info.speed >= 8000
      modifies bus`log
      ensures var s := PagedWrite(bus.oracle, info, addr, data, len);
              r == s.ret && bus.log == old(bus.log) + s.evs
    {
      ghost var align, iters, first, pages := PagedWriteParts(bus.oracle, info, addr, data, len);
      var alignmentBytes := Alignment(info, addr);
      var written := WriteFirst(addr, Window(data, 0, alignmentBytes), DefaultTimeout(info, alignmentBytes), first);
      r := WriteAfterFirst(addr, data, len, written, first, old(bus.log));
    }

    /** The rest of the chunked write once the first chunk returned `written`. */
    method WriteAfterFirst(addr: uint32, data: seq<uint8>, len: uint32, written: int, ghost first: Step, ghost start: seq<Event>)
      returns (r: int)
      requires Valid() && info.speed >= 8000
      requires written == first.ret && bus.log == start + (first.evs + [Delay(info.pageWriteDelayMs)])
      modifies bus`log
      ensures var s := PagedAfterFirst(bus.oracle, info, addr, data, len, first);
              r == s.ret && bus.log == start + s.evs
    {
      ghost var o, inf := bus.oracle, info;
      ghost var pages := PagedAfterFirstParts(o, inf, addr, data, len, first);
      if written < 0 {
        return Code(Fail);
      }
      var alignmentBytes := Alignment(info, addr);
      var iterations := Iterations(info, addr, len);
      var ret := WritePages(U32(addr + alignmentBytes), data, alignmentBytes, iterations);
      LogAppend(start, first.evs + [Delay(inf.pageWriteDelayMs)], pages.evs);
      r := if ret < 0 then Code(Fail) else ToInt32(len);
    }

    method WriteFirst(addr: uint32, chunk: seq<uint8>, timeout: uint32, ghost first: Step) returns (written: int)
      requires Valid() && |chunk| < 0x1_0000_0000
      requires first == WriteBytesSpec(bus.oracle, info, addr, chunk, timeout)
      modifies bus`log
      ensures written == first.ret && bus.log == old(bus.log) + (first.evs + [Delay(info.pageWriteDelayMs)])
    {
      written := WriteBytes(addr, chunk, timeout);
      bus.Sleep(info.pageWriteDelayMs);
      LogAppend(old(bus.log), first.evs, [Delay(info.pageWriteDelayMs)]);
    }

    /** The `for` loop of memoree.c:569-577: page i of the data after the first chunk is
        written at `addr + page_size * i`; the first failure ends the loop with FAIL. The
        offset `page_size * i` is kept in `pos`. */
    method WritePages(base: uint32, data: seq<uint8>, off: nat, iterations: uint16) returns (ret: int)
      requires Valid() && info.speed >= 8000
      modifies bus`log
      ensures var s := PagesSpec(bus.oracle, info, base, data, off, 0, 0, iterations);
              ret == s.ret && bus.log == old(bus.log) + s.evs
    {
      PageSizePositive(info);
      ghost var o, inf := bus.oracle, info;
      ghost var all := PagesSpec(o, inf, base, data, off, 0, 0, iterations);
      var pageSize := info.pageSize;
      var pos: nat := 0;
      for i := 0 to iterations
        invariant PagesSpec(o, inf, base, data, off, pos, i, iterations).ret == all.ret
        invariant bus.log + PagesSpec(o, inf, base, data, off, pos, i, iterations).evs == old(bus.log) + all.evs
      {
        var written := WritePage(base, data, off, pos, i, iterations);
        if written < 0 {
          return Code(Fail);
        }
        pos := pos + pageSize;
      }
      ret := Code(Ok);
    }

    /** One pass of that loop: the page at `base + pos` and twice the page delay. A failure
        leaves the loop's result FAIL; otherwise the later pages remain. */
    method WritePage(base: uint32, data: seq<uint8>, off: nat, pos: nat, ghost i: nat, ghost n: nat) returns (written: int)
      requires Valid() && info.speed >= 8000 && i < n
      modifies bus`log
      ensures var here := PageSpec(bus.oracle, info, base, data, off, pos, i, n);
              if written < 0 then here.ret == Code(Fail) && bus.log == old(bus.log) + here.evs
              else
                var rest := PagesSpec(bus.oracle, info, base, data, off, pos + info.pageSize, i + 1, n);
                here.ret == rest.ret && bus.log + rest.evs == old(bus.log) + here.evs
    {
      ghost var o, inf := bus.oracle, info;
      ghost var page := WriteBytesSpec(o, inf, U32(base + pos), Window(data, off + pos, inf.pageSize), DefaultTimeout(inf, inf.pageSize));
      ghost var rest := PagesSpec(o, inf, base, data, off, pos + inf.pageSize, i + 1, n);
      written := WriteBytes(U32(base + pos), Window(data, off + pos, info.pageSize), DefaultTimeout(info, info.pageSize));
      bus.Sleep(2 * info.pageWriteDelayMs);
      LogAppend(old(bus.log), page.evs, [Delay(2 * inf.pageWriteDelayMs)]);
      LogAppend(old(bus.log), page.evs + [Delay(2 * inf.pageWriteDelayMs)], rest.evs);
    }

    /** `memoree_write` (memoree.c:502-581). */
    method Write(addr: uint32, data: seq<uint8>, len: uint32, timeout: uint32, wrap: bool) returns (r: int)
      requires Valid()
      requires In93CRange(info.variant) && len == 0 ==> timeout == 0
      requires !In93CRange(info.variant) ==> info.speed >= 8000 && info.size > 0
      modifies bus`log
      ensures var s := WriteSpec(bus.oracle, info, addr, data, len, timeout, wrap);
              r == s.ret && bus.log == old(bus.log) + s.evs
      decreases if wrap then 2 else 0, 1
    {
      if !VariantIsValid(info.variant) && !(addr < info.size) {
        return Code(InvalidArg);
      }
      if In93CRange(info.variant) {
        r := WriteEach93(addr, data, len, timeout);
      } else if info.variant < VariantI2CMax || info.variant == Variant25XXSfdp {
        r := WriteChunked(addr, data, len, timeout, wrap);
      } else {
        r := ToInt32(len);
      }
    }

    /** The I2C and SFDP branch of `memoree_write` (memoree.c:539-580). */
    method WriteChunked(addr: uint32, data: seq<uint8>, len: uint32, timeout: uint32, wrap: bool) returns (r: int)
      requires Valid() && !In93CRange(info.variant) && info.speed >= 8000 && info.size > 0
      modifies bus`log
      ensures var s := ChunkedSpec(bus.oracle, info, addr, data, len, timeout, wrap);
              r == s.ret && bus.log == old(bus.log) + s.evs
      decreases if wrap then 2 else 0, 0
    {
      var overflow := U32(addr + len) - info.size;
      var dataLen := len;
      if overflow > 0 {
        if wrap {
          r := WriteWrapped(addr, data, len, timeout);
          return;
        }
        dataLen := U32(dataLen - U32(addr + dataLen) % info.size);
      }
      r := WritePaged(addr, data, dataLen);
    }

    /** The wrap recursion of memoree.c:543-553. */
    method WriteWrapped(addr: uint32, data: seq<uint8>, len: uint32, timeout: uint32) returns (r: int)
      requires Valid() && !In93CRange(info.variant) && info.speed >= 8000 && info.size > 0
      modifies bus`log
      ensures var s := WrapSpec(bus.oracle, info, addr, data, len, timeout);
              r == s.ret && bus.log == old(bus.log) + s.evs
      decreases 1, 0
    {
      ghost var o, inf := bus.oracle, info;
      var overflow := U32(addr + len) - info.size;
      ghost var s1 := WriteSpec(o, inf, addr, data, U32(len - overflow), timeout, false);
      ghost var s2 := WriteSpec(o, inf, 0, Shift(data, s1.ret), U32(overflow), timeout, false);
      WrapParts(o, inf, addr, data, len, timeout, s1, s2);
      var written := Write(addr, data, U32(len - overflow), timeout, false);
      if written != len - overflow {
        return written;
      }
      written := Write(0, Shift(data, written), U32(overflow), timeout, false);
      LogAppend(old(bus.log), s1.evs, s2.evs);
      if written != overflow {
        return written;
      }
      r := ToInt32(len);
    }

    /** `memoree_erase_page` (memoree.c:583-624). */
    method ErasePage(page: uint32, value: uint8) returns (r: int)
      requires Valid()
      requires !In93CRange(info.variant) && page < info.numPages ==> info.speed >= 8000
      modifies bus`log
      ensures var s := ErasePageSpec(bus.oracle, info, page, value);
              r == s.ret && bus.log == old(bus.log) + s.evs
    {
      if !(page < info.numPages) {
        return Code(InvalidArg);
      }
      if In93CRange(info.variant) {
        var t := SpiTransaction(5, 0, 5, 0, 0, 0, [], 0);
        if value == 0xFF {
          t := t.(cmd := Cmd93CErase);
        } else {
          t := t.(cmd := Cmd93CWrite, write := [value]);
        }
        var ret, _ := bus.Transfer(Spi(t));
        bus.Sleep(info.pageWriteDelayMs);
        return ret;
      }
      PageSizePositive(info);
      var eraseBuff := Fill(info.pageSize, value);
      var ret := WriteBytes(U32(page * info.pageSize), eraseBuff, DefaultTimeout(info, info.pageSize));
      r := if ret == info.pageSize then Code(Ok) else ret;
    }

    /** `memoree_erase` (memoree.c:626-707). */
    method Erase(value: uint8) returns (r: int)
      requires Valid() && (ReachesFill(bus.oracle, info, value) && info.numPages > 0 ==> info.speed >= 8000)
      modifies bus`log, this`info
      ensures var s := EraseSpec(bus.oracle, old(info), value);
              r == s.ret && bus.log == old(bus.log) + s.evs && info == s.info
      ensures Valid()
    {
      if !VariantIsValid(info.variant) {
        return Code(InvalidArg);
      }
      if In93CRange(info.variant) {
        r := Erase93(value);
      } else if info.variant == Variant25XXSfdp && value == 0xFF {
        r := EraseSfdp();
      } else {
        r := FillAll(value);
      }
    }

    /** The 93C branch of `memoree_erase` (memoree.c:631-668). */
    method Erase93(value: uint8) returns (r: int)
      requires Valid() && In93CRange(info.variant)
      modifies bus`log
      ensures var s := Erase93Spec(bus.oracle, info, value);
              r == s.ret && bus.log == old(bus.log) + s.evs
    {
      ghost var o, inf := bus.oracle, info;
      ghost var enable, eral, bytes := Erase93Parts(o, inf, value);
      var we := WriteEnable();
      if we != Code(Ok) {
        return Code(Fail);
      }
      ghost var afterEnable := bus.log;
      if value == 0xFF {
        var ret, _ := bus.Transfer(Transaction(5, Cmd93CEral, 5, 0, [], 0));
        bus.Sleep(info.pageWriteDelayMs);
        LogAppend(afterEnable, [eral], [Delay(inf.pageWriteDelayMs)]);
        LogAppend(old(bus.log), enable.evs, [eral, Delay(inf.pageWriteDelayMs)]);
        return if ret == 0 then Code(Ok) else ret;
      }
      r := EraseLoop93(value);
      LogAppend(old(bus.log), enable.evs, bytes.evs);
    }

    /** The do-while of memoree.c:657-667: one WRITE of the erase value per address from 0,
        until a reply is non-zero or all `size` bytes are done; the last reply is returned. */
    method EraseLoop93(value: uint8) returns (ret: int)
      requires Valid() && In93CRange(info.variant)
      modifies bus`log
      ensures info.size > 0
      ensures var s := Erase93Bytes(bus.oracle, info, value, 0, info.size);
              ret == s.ret && bus.log == old(bus.log) + s.evs
    {
      HandleGeometry(info);
      ghost var o, inf := bus.oracle, info;
      ghost var all := Erase93Bytes(o, inf, value, 0, inf.size);
      var t := SpiTransaction(3, Cmd93CWrite, info.addrLen, 0, 0, 0, [value], 0);
      var bytesToWrite: uint32 := info.size;
      ghost var k: nat := 0;
      while true
        invariant k < inf.size
        invariant t == SpiTransaction(3, Cmd93CWrite, inf.addrLen, U32(k), 0, 0, [value], 0)
        invariant bytesToWrite == (if k == 0 then inf.size else Passes(inf.size) - k)
        invariant Erase93Bytes(o, inf, value, k, inf.size).ret == all.ret
        invariant bus.log + Erase93Bytes(o, inf, value, k, inf.size).evs == old(bus.log) + all.evs
        decreases inf.size - k
      {
        CountDown(inf.size, k, bytesToWrite);
        ghost var logBefore := bus.log;
        var reply, _ := bus.Transfer(Spi(t));
        ret := reply;
        Arith.U32Succ(k);
        t := t.(addr := U32(t.addr + 1));
        bus.Sleep(info.pageWriteDelayMs);
        ghost var passEvs := [Spi(SpiTransaction(3, Cmd93CWrite, inf.addrLen, U32(k), 0, 0, [value], 0)), Delay(inf.pageWriteDelayMs)];
        LogAppend(logBefore, [passEvs[0]], [passEvs[1]]);
        assert bus.log == logBefore + passEvs;
        bytesToWrite := U32(bytesToWrite - 1);
        if !(ret == 0 && bytesToWrite != 0) {
          return;
        }
        LogAppend(logBefore, passEvs, Erase93Bytes(o, inf, value, k + 1, inf.size).evs);
        k := k + 1;
      }
    }

    /** The SFDP branch of `memoree_erase` for 0xFF (memoree.c:669-692). */
    method EraseSfdp() returns (r: int)
      requires Valid() && (SfdpFills(bus.oracle, info) && info.numPages > 0 ==> info.speed >= 8000)
      modifies bus`log, this`info
      ensures var s := SfdpEraseSpec(bus.oracle, old(info));
              r == s.ret && bus.log == old(bus.log) + s.evs && info == s.info
      ensures Valid()
    {
      ghost var o, inf := bus.oracle, info;
      ghost var g, fill := SfdpEraseParts(o, inf);
      var ret, _, param := GetSfdp(100);
      if ret != Code(Ok) {
        return ret;
      }
      var opcode := if param.Some? then param.value.erase4kOpcode else 0;
      ghost var afterSfdp := bus.log;
      if opcode != 0 && 0 < info.size {
        var e := Transaction(8, opcode, info.addrLen, 0, [], 0);
        var reply, _ := bus.Transfer(e);
        bus.Sleep(info.pageWriteDelayMs);
        LogAppend(afterSfdp, [e], [Delay(info.pageWriteDelayMs)]);
        LogAppend(old(bus.log), g.evs, [e, Delay(info.pageWriteDelayMs)]);
        return if reply == 0 then Code(Ok) else reply;
      }
      r := FillAll(0xFF);
      LogAppend(old(bus.log), g.evs, fill.evs);
    }

    /** The page loop of memoree.c:694-707. The `uint16_t` counter cannot pass `num_pages`,
        so a loop that runs out returns OK. */
    method FillAll(value: uint8) returns (r: int)
      requires Valid() && (info.numPages > 0 ==> info.speed >= 8000)
      modifies bus`log
      ensures var s := FillPages(bus.oracle, info, value, 0);
              r == s.ret && bus.log == old(bus.log) + s.evs
    {
      PageSizePositive(info);
      ghost var o, inf := bus.oracle, info;
      ghost var all := FillPages(o, inf, value, 0);
      var eraseBuff := Fill(info.pageSize, value);
      var page: uint16 := 0;
      while page < info.numPages
        invariant page <= inf.numPages
        invariant FillPages(o, inf, value, page).ret == all.ret
        invariant bus.log + FillPages(o, inf, value, page).evs == old(bus.log) + all.evs
      {
        var ret := FillOne(eraseBuff, value, page);
        if ret != info.pageSize {
          return ret;
        }
        page := page + 1;
      }
      r := if page == info.numPages then Code(Ok) else Code(Fail);
    }

    /** One pass of that loop: the page at `page * page_size`, then the page delay. */
    method FillOne(eraseBuff: seq<uint8>, ghost value: uint8, page: uint16) returns (ret: int)
      requires Valid() && info.speed >= 8000 && page < info.numPages
      requires eraseBuff == Fill(info.pageSize, value)
      modifies bus`log
      ensures var here := FillPage(bus.oracle, info, value, page);
              if ret != info.pageSize then here.ret == ret && bus.log == old(bus.log) + here.evs
              else
                var rest := FillPages(bus.oracle, info, value, page + 1);
                here.ret == rest.ret && bus.log + rest.evs == old(bus.log) + here.evs
    {
      PageSizePositive(info);
      ghost var o, inf := bus.oracle, info;
      ghost var s := WriteBytesSpec(o, inf, U32(page * inf.pageSize), eraseBuff, DefaultTimeout(inf, inf.pageSize));
      ghost var rest := FillPages(o, inf, value, page + 1);
      ret := WriteBytes(U32(page * info.pageSize), eraseBuff, DefaultTimeout(info, info.pageSize));
      bus.Sleep(info.pageWriteDelayMs);
      LogAppend(old(bus.log), s.evs, [Delay(inf.pageWriteDelayMs)]);
      LogAppend(old(bus.log), s.evs + [Delay(inf.pageWriteDelayMs)], rest.evs);
    }

    /** `memoree_get_info` (memoree.c:709-726): a copy of every field of `info`, or
        INVALID_ARG (and no copy) when the variant is not valid. */
    method GetInfo() returns (r: int, copy: Option<Info>)
      requires !freed
      ensures VariantIsValid(info.variant) ==> r == Code(Ok) && copy == Some(info)
      ensures !VariantIsValid(info.variant) ==> r == Code(InvalidArg) && copy == None
    {
      if !VariantIsValid(info.variant) {
        return Code(InvalidArg), None;
      }
      r, copy := Code(Ok), Some(info);
    }

    /** `memoree_stub_read` (memoree.c:809-823): the caller's transaction passed to the
        transport unchanged, on stub handles only. */
    method StubRead(t: SpiTransaction, buf: array<uint8>) returns (r: int)
      requires !freed && t.readLen <= buf.Length
      modifies bus`log, buf
      ensures var s := StubReadSpec(bus.oracle, info, t);
              r == s.ret && bus.log == old(bus.log) + s.evs &&
              buf[..] == (if s.answer.Some? then s.answer.value + old(buf[t.readLen..]) else old(buf[..]))
    {
      if !VariantIsStub(info.variant) {
        return Code(InvalidArg);
      }
      if info.variant == VariantStubI2C {
        r := bus.TransferInto(I2CWriteRead(U8(t.addr), t.write, t.readLen, t.timeoutMs), buf);
      } else {
        r := bus.TransferInto(Spi(t), buf);
      }
    }
  }
}
