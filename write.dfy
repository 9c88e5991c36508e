/** The paged write engine of `memoree_write` (memoree.c:502-581): the wrap recursion or the
    truncation at the end of the array, the 93C byte-at-a-time loop, and the split into a
    first chunk up to a page boundary followed by whole pages. */
module WriteEngine {
  import opened Types
  import opened Registry
  import opened Transport
  import opened Engine
  import Arith

  /** The number of passes of `do { ... } while (ret == 0 && --bytes_to_write);` when every
      transfer succeeds: `data_len`, or 2^32 for `data_len == 0`, since the `uint32_t` counter
      wraps. */
  function Passes(len: uint32): nat
  {
    if len == 0 then 0x1_0000_0000 else len
  }

  /** One pass of the 93C loop: a 1-byte WRITE of `data[k]` at the k-th address after `start`
      (memoree.c:514-522). */
  function Write93Event(info: Info, start: uint32, data: seq<uint8>, k: nat, timeout: uint32): Event
  {
    Transaction(3, Cmd93CWrite, info.addrLen, U32(start + k), Window(data, k, 1), timeout)
  }

  /** Passes k .. n-1 of the 93C loop; the result is the `int8_t` reply of the last pass made. */
  function Write93Bytes(o: Oracle, info: Info, start: uint32, data: seq<uint8>, timeout: uint32, k: nat, n: nat): Step
    requires k < n
    decreases n - k
  {
    var e := Write93Event(info, start, data, k, timeout);
    var r := ToInt8(o.reply(e));
    var evs := [e, Delay(info.pageWriteDelayMs)];
    if r != 0 || k + 1 == n then Step(r, evs)
    else
      var rest := Write93Bytes(o, info, start, data, timeout, k + 1, n);
      Step(rest.ret, evs + rest.evs)
  }

  /** One pass of the 93C loop: it either ends the loop with its own reply or is followed by
      the remaining passes. */
  lemma Write93BytesStep(o: Oracle, info: Info, start: uint32, data: seq<uint8>, timeout: uint32, k: nat, n: nat)
    requires k < n
    ensures var e := Write93Event(info, start, data, k, timeout);
            var r := ToInt8(o.reply(e));
            var here := Write93Bytes(o, info, start, data, timeout, k, n);
            if r != 0 || k + 1 == n then here == Step(r, [e, Delay(info.pageWriteDelayMs)])
            else
              var rest := Write93Bytes(o, info, start, data, timeout, k + 1, n);
              here.ret == rest.ret && here.evs == [e, Delay(info.pageWriteDelayMs)] + rest.evs
  {
  }

  /** The `uint32_t` counter of the 93C do-while: after k passes it holds the passes left, so
      `--bytes_to_write` reaches 0 exactly at the last pass. */
  lemma CountDown(len: uint32, k: nat, count: uint32)
    requires k < Passes(len) && count == (if k == 0 then len else Passes(len) - k)
    ensures U32(count - 1) == Passes(len) - (k + 1)
  {
  }

  /** `timeout_ms ? timeout_ms / data_len : 0`: the timeout of each 1-byte transaction. */
  function PerByteTimeout(timeout: uint32, len: uint32): (t: uint32)
    requires len == 0 ==> timeout == 0
    ensures t <= timeout
  {
    if timeout != 0 then Arith.DivAtMost(timeout, len); timeout / len else 0
  }

  /** The 93C branch of `memoree_write` (memoree.c:510-537). The per-byte timeout is
      `timeout_ms / data_len`. */
  function Write93(o: Oracle, info: Info, addr: uint32, data: seq<uint8>, len: uint32, timeout: uint32): Step
    requires len == 0 ==> timeout == 0
  {
    var we := WriteEnableSpec(o, info);
    if we.ret != Code(Ok) then Step(Code(Fail), we.evs)
    else
      var s := Write93Bytes(o, info, Mask(info, addr), data, PerByteTimeout(timeout, len), 0, Passes(len));
      Step(if s.ret == 0 then ToInt32(len) else Code(Fail), we.evs + s.evs)
  }

  /** The bytes before the first page boundary: `page_size - addr % page_size`. */
  function Alignment(info: Info, addr: uint32): uint16
    requires info.pageSize > 0
  {
    U16(info.pageSize - addr % info.pageSize)
  }

  /** The count of whole pages after the first chunk, in `uint16_t`:
      `(data_len - alignment_bytes) / page_size`, with `uint32_t` subtraction. */
  function Iterations(info: Info, addr: uint32, len: uint32): uint16
    requires info.pageSize > 0
  {
    U16(U32(len - Alignment(info, addr)) / info.pageSize)
  }

  /** Pages i .. n-1 of the for loop (memoree.c:569-577); none is left once i reaches n. */
  function PagesSpec(o: Oracle, info: Info, base: uint32, data: seq<uint8>, off: nat, pos: nat, i: nat, n: nat): Step
    requires InfoConsistent(info) && info.speed >= 8000
    decreases n - i, 1
  {
    if i >= n then Step(Code(Ok), []) else PageSpec(o, info, base, data, off, pos, i, n)
  }

  /** Page i and the ones after it. Page i lies `pos` bytes past the first chunk, where `pos`
      is `page_size * i` (PageOffsets): it is `page_size` bytes at offset `off + pos` of the
      data, written at `base + pos`, and followed by a delay of twice the page write time;
      the first failure stops the loop with FAIL. */
  function PageSpec(o: Oracle, info: Info, base: uint32, data: seq<uint8>, off: nat, pos: nat, i: nat, n: nat): Step
    requires InfoConsistent(info) && info.speed >= 8000 && i < n
    decreases n - i, 0
  {
    var s := WriteBytesSpec(o, info, U32(base + pos), Window(data, off + pos, info.pageSize), DefaultTimeout(info, info.pageSize));
    var evs := s.evs + [Delay(2 * info.pageWriteDelayMs)];
    if s.ret < 0 then Step(Code(Fail), evs)
    else
      var rest := PagesSpec(o, info, base, data, off, pos + info.pageSize, i + 1, n);
      Step(rest.ret, evs + rest.evs)
  }

  /** The chunked write of memoree.c:559-580: a first chunk of `alignment` bytes, then
      `iterations` whole pages; `data_len` is returned whenever no chunk failed. */
  function PagedWrite(o: Oracle, info: Info, addr: uint32, data: seq<uint8>, len: uint32): Step
    requires InfoConsistent(info) && info.speed >= 8000
  {
    PageSizePositive(info);
    var align := Alignment(info, addr);
    PagedAfterFirst(o, info, addr, data, len, WriteBytesSpec(o, info, addr, Window(data, 0, align), DefaultTimeout(info, align)))
  }

  /** The chunked write once the first chunk has produced `first`: its delay, then the pages. */
  function PagedAfterFirst(o: Oracle, info: Info, addr: uint32, data: seq<uint8>, len: uint32, first: Step): Step
    requires InfoConsistent(info) && info.speed >= 8000
  {
    PageSizePositive(info);
    var align := Alignment(info, addr);
    var evs := first.evs + [Delay(info.pageWriteDelayMs)];
    if first.ret < 0 then Step(Code(Fail), evs)
    else
      var pages := PagesSpec(o, info, U32(addr + align), data, align, 0, 0, Iterations(info, addr, len));
      Step(if pages.ret < 0 then Code(Fail) else ToInt32(len), evs + pages.evs)
  }

  /** The chunked write after its first chunk: FAIL at once when that chunk failed, otherwise
      the page loop. */
  lemma PagedAfterFirstParts(o: Oracle, info: Info, addr: uint32, data: seq<uint8>, len: uint32, first: Step)
    returns (pages: Step)
    requires InfoConsistent(info) && info.speed >= 8000
    ensures info.pageSize > 0
    ensures pages == PagesSpec(o, info, U32(addr + Alignment(info, addr)), data, Alignment(info, addr), 0, 0, Iterations(info, addr, len))
    ensures PagedAfterFirst(o, info, addr, data, len, first) ==
              if first.ret < 0 then Step(Code(Fail), first.evs + [Delay(info.pageWriteDelayMs)])
              else Step(if pages.ret < 0 then Code(Fail) else ToInt32(len), (first.evs + [Delay(info.pageWriteDelayMs)]) + pages.evs)
  {
    PageSizePositive(info);
    pages := PagesSpec(o, info, U32(addr + Alignment(info, addr)), data, Alignment(info, addr), 0, 0, Iterations(info, addr, len));
  }

  /** The 93C branch is the write enable followed by the byte loop. */
  lemma Write93Parts(o: Oracle, info: Info, addr: uint32, data: seq<uint8>, len: uint32, timeout: uint32)
    returns (enable: Step, bytes: Step)
    requires len == 0 ==> timeout == 0
    ensures enable == WriteEnableSpec(o, info)
    ensures bytes == Write93Bytes(o, info, Mask(info, addr), data, PerByteTimeout(timeout, len), 0, Passes(len))
    ensures Write93(o, info, addr, data, len, timeout) ==
              if enable.ret != Code(Ok) then Step(Code(Fail), enable.evs)
              else Step(if bytes.ret == 0 then ToInt32(len) else Code(Fail), enable.evs + bytes.evs)
  {
    enable := WriteEnableSpec(o, info);
    bytes := Write93Bytes(o, info, Mask(info, addr), data, PerByteTimeout(timeout, len), 0, Passes(len));
  }

  /** The chunked write is the first chunk, its delay, then the page loop. */
  lemma PagedWriteParts(o: Oracle, info: Info, addr: uint32, data: seq<uint8>, len: uint32)
    returns (align: uint16, iterations: uint16, first: Step, pages: Step)
    requires InfoConsistent(info) && info.speed >= 8000
    ensures info.pageSize > 0 && align == Alignment(info, addr) && iterations == Iterations(info, addr, len)
    ensures first == WriteBytesSpec(o, info, addr, Window(data, 0, align), DefaultTimeout(info, align))
    ensures pages == PagesSpec(o, info, U32(addr + align), data, align, 0, 0, iterations)
    ensures PagedWrite(o, info, addr, data, len) == PagedAfterFirst(o, info, addr, data, len, first)
  {
    PageSizePositive(info);
    align := Alignment(info, addr);
    iterations := Iterations(info, addr, len);
    first := WriteBytesSpec(o, info, addr, Window(data, 0, align), DefaultTimeout(info, align));
    pages := PagesSpec(o, info, U32(addr + align), data, align, 0, 0, iterations);
  }


  /** `addr + data_len - size`, with the `uint32_t` sum converted to `int64_t`. */
  function Overflow(info: Info, addr: uint32, len: uint32): int
  {
    U32(addr + len) - info.size
  }

  /** The length left after `data_len -= (addr + data_len) % size` (memoree.c:556). */
  function Truncated(info: Info, addr: uint32, len: uint32): uint32
    requires info.size > 0
  {
    U32(len - U32(addr + len) % info.size)
  }

  /** `memoree_write` (memoree.c:502-581). An overflowing write with `wrap` is WrapSpec;
      without `wrap` the length is truncated first. The caller's readable memory is `data`:
      bytes past it read as 0. */
  function WriteSpec(o: Oracle, info: Info, addr: uint32, data: seq<uint8>, len: uint32, timeout: uint32, wrap: bool): Step
    requires InfoConsistent(info)
    requires In93CRange(info.variant) && len == 0 ==> timeout == 0
    requires !In93CRange(info.variant) ==> info.speed >= 8000 && info.size > 0
    decreases if wrap then 2 else 0, 1
  {
    if !VariantIsValid(info.variant) && !(addr < info.size) then Step(Code(InvalidArg), [])
    else if In93CRange(info.variant) then Write93(o, info, addr, data, len, timeout)
    else if info.variant < VariantI2CMax || info.variant == Variant25XXSfdp then ChunkedSpec(o, info, addr, data, len, timeout, wrap)
    else Step(ToInt32(len), [])
  }

  /** The I2C and SFDP branch of `memoree_write` (memoree.c:539-580): past the end of the
      array the write either wraps to address 0 or is truncated, then it is split into
      pages. */
  function ChunkedSpec(o: Oracle, info: Info, addr: uint32, data: seq<uint8>, len: uint32, timeout: uint32, wrap: bool): Step
    requires InfoConsistent(info) && !In93CRange(info.variant) && info.speed >= 8000 && info.size > 0
    decreases if wrap then 2 else 0, 0
  {
    var overflow := Overflow(info, addr, len);
    if overflow > 0 && wrap then WrapSpec(o, info, addr, data, len, timeout)
    else PagedWrite(o, info, addr, data, if overflow > 0 then Truncated(info, addr, len) else len)
  }

  /** The wrap recursion of memoree.c:543-553: a write of `data_len - overflow` bytes at
      `addr` and, if that reports exactly that count, a write of `overflow` bytes at 0 from
      where the first stopped; `data_len` is returned when both are complete, otherwise the
      first short result. */
  function WrapSpec(o: Oracle, info: Info, addr: uint32, data: seq<uint8>, len: uint32, timeout: uint32): Step
    requires InfoConsistent(info) && !In93CRange(info.variant) && info.speed >= 8000 && info.size > 0
    decreases 1, 0
  {
    var overflow := Overflow(info, addr, len);
    var s1 := WriteSpec(o, info, addr, data, U32(len - overflow), timeout, false);
    if s1.ret != len - overflow then s1
    else
      var s2 := WriteSpec(o, info, 0, Shift(data, s1.ret), U32(overflow), timeout, false);
      Step(if s2.ret != overflow then s2.ret else ToInt32(len), s1.evs + s2.evs)
  }

  /** The wrap recursion is the first write and, when that one is complete, the second. */
  lemma WrapParts(o: Oracle, info: Info, addr: uint32, data: seq<uint8>, len: uint32, timeout: uint32, s1: Step, s2: Step)
    requires InfoConsistent(info) && !In93CRange(info.variant) && info.speed >= 8000 && info.size > 0
    requires s1 == WriteSpec(o, info, addr, data, U32(len - Overflow(info, addr, len)), timeout, false)
    requires s2 == WriteSpec(o, info, 0, Shift(data, s1.ret), U32(Overflow(info, addr, len)), timeout, false)
    ensures WrapSpec(o, info, addr, data, len, timeout) ==
              if s1.ret != len - Overflow(info, addr, len) then s1
              else Step(if s2.ret != Overflow(info, addr, len) then s2.ret else ToInt32(len), s1.evs + s2.evs)
  {
  }
}
