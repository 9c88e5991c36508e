/** What each operation of memoree.c sends to the transport and returns, as functions of the
    handle's `info`, the arguments and the transport's replies. The methods of the handle
    class are proved to issue exactly these requests. */
module Engine {
  import opened Types
  import opened Registry
  import opened Transport
  import opened Codec
  import opened Sfdp

  /** The return value of an operation and the requests it issued, in order. */
  datatype Step = Step(ret: int, evs: seq<Event>)

  /** A read also leaves the bytes of its transfer in the caller's buffer (None: the buffer is
      not touched). */
  datatype ReadStep = ReadStep(ret: int, evs: seq<Event>, answer: Option<seq<uint8>>)

  /** An operation that may rewrite the handle's `info` (SFDP discovery). */
  datatype InfoStep = InfoStep(ret: int, evs: seq<Event>, info: Info)

  /** SFDP discovery additionally writes the caller's parameter record: `header` holds the
      five header fields, stored as soon as the header passes its checks (even when the table
      read or the table check fails afterwards), and `param` the whole record, filled only on
      success. */
  datatype SfdpStep = SfdpStep(ret: int, evs: seq<Event>, info: Info, header: Option<Header>, param: Option<SfdpParam>)

  /** `addr & (mem->info.size - 1)`, with the `uint32_t` wrap of `size - 1`. */
  function Mask(info: Info, addr: uint32): uint32
  {
    And32(addr, U32(info.size - 1))
  }

  /** `MEMOREE_DEFAULT_TIMEOUT(m, s)` (memoree.c:15): integer `s / (speed / 8000)`. */
  function DefaultTimeout(info: Info, s: nat): uint32
    requires info.speed >= 8000 && s < 0x1_0000_0000
  {
    s / (info.speed / 8000)
  }

  /** A transaction record with every field the caller does not set left at zero. */
  function Transaction(cmdLen: uint8, cmd: uint32, addrLen: uint8, addr: uint32, write: seq<uint8>, timeoutMs: uint32): Event
  {
    Spi(SpiTransaction(cmdLen, cmd, addrLen, addr, 0, 0, write, timeoutMs))
  }

  /** `_memoree_write_bytes` (memoree.c:194-248): one bus request carrying `data`, with no page
      splitting. On I2C it is the select byte and the address bytes followed by the data, and
      the count the transport reports is reduced by the address bytes; on SFDP flash it is a
      page-program transaction, not preceded by a write enable. */
  function WriteBytesSpec(o: Oracle, info: Info, addr: uint32, data: seq<uint8>, timeout: uint32): Step
    requires InfoConsistent(info) && |data| < 0x1_0000_0000
  {
    if !(addr < info.size) then Step(Code(InvalidArg), [])
    else if info.variant < VariantI2CMax then
      var space := AddressSpaceOf(info.size);
      if space <= 0 then Step(Code(InvalidArg), [])
      else
        var e := I2CWrite(WriteSelect(info.addr, space, info.addrLen, addr), AddressBytes(addr, info.addrLen) + data, timeout);
        var r := o.reply(e);
        Step(if r > 0 then r - info.addrLen / 8 else r, [e])
    else if info.variant == Variant25XXSfdp then
      var e := Transaction(8, Cmd25Pp, info.addrLen, Mask(info, addr), data, timeout);
      Step(if o.reply(e) == 0 then ToInt32(|data|) else Code(Fail), [e])
    else Step(Code(InvalidArg), [])
  }

  /** `_memoree_spi_write_enable` (memoree.c:251-281). The 93C reply is narrowed to `int8_t`. */
  function WriteEnableSpec(o: Oracle, info: Info): Step
  {
    if !VariantIsValid(info.variant) then Step(Code(InvalidArg), [])
    else if info.variant < VariantI2CMax then Step(Code(InvalidArg), [])
    else if info.variant < Variant93CXXMax then
      var e := Transaction(5, Cmd93CWen, 5, 0, [], 0);
      Step(if ToInt8(o.reply(e)) == 0 then Code(Ok) else Code(Fail), [e])
    else if info.variant == Variant25XXSfdp then
      var e := Transaction(8, Cmd25Wren, 0, 0, [], 0);
      Step(if o.reply(e) == 0 then Code(Ok) else Code(Fail), [e])
    else Step(Code(Fail), [])
  }

  /** The result of `memoree_read`: a negative transport result, or `data_len` as an `int`. */
  function ReadResult(r: int, len: uint32): int
  {
    if r < 0 then r else ToInt32(len)
  }

  /** `memoree_read` (memoree.c:436-500). The entry test `!VALID && !ADDRESS_VALID || !data`
      rejects only handles that are invalid AND out of range. */
  function ReadSpec(o: Oracle, info: Info, addr: uint32, len: uint32, timeout: uint32): ReadStep
    requires InfoConsistent(info)
  {
    if !VariantIsValid(info.variant) && !(addr < info.size) then ReadStep(Code(InvalidArg), [], None)
    else if info.variant < VariantI2CMax then
      var space := AddressSpaceOf(info.size);
      if space <= 0 then ReadStep(Code(InvalidArg), [], None)
      else
        var e := I2CWriteRead(ReadSelect(info.addr, space, info.addrLen, addr), AddressBytes(addr, info.addrLen), len, timeout);
        ReadStep(ReadResult(o.reply(e), len), [e], Some(Answer(o, e)))
    else if info.variant < Variant93CXXMax then
      var e := Spi(SpiTransaction(3, Cmd93CRead, info.addrLen, Mask(info, addr), 0, len, [], timeout));
      ReadStep(ReadResult(o.reply(e), len), [e], Some(Answer(o, e)))
    else if info.variant == Variant25XXSfdp then
      var e := Spi(SpiTransaction(8, Cmd25Read, info.addrLen, Mask(info, addr), 0, len, [], timeout));
      ReadStep(ReadResult(o.reply(e), len), [e], Some(Answer(o, e)))
    else ReadStep(Code(Fail), [], None)
  }

  /** `memoree_read_byte` (memoree.c:390-394): a one-byte read whose count 1 becomes OK. */
  function ReadByteSpec(o: Oracle, info: Info, addr: uint32, timeout: uint32): ReadStep
    requires InfoConsistent(info)
  {
    var s := ReadSpec(o, info, addr, 1, timeout);
    ReadStep(if s.ret == 1 then Code(Ok) else s.ret, s.evs, s.answer)
  }

  /** `memoree_write_byte` (memoree.c:396-434). On I2C it is `_memoree_write_bytes` of one byte,
      whose count (1) is returned as it is; on SPI a write enable is followed by one write
      transaction, and the transport's reply is returned. */
  function WriteByteSpec(o: Oracle, info: Info, addr: uint32, b: uint8, timeout: uint32): Step
    requires InfoConsistent(info)
  {
    if !VariantIsValid(info.variant) || !(addr < info.size) then Step(Code(InvalidArg), [])
    else if info.variant < VariantI2CMax then WriteBytesSpec(o, info, addr, [b], timeout)
    else
      var we := WriteEnableSpec(o, info);
      if we.ret != Code(Ok) then Step(Code(Fail), we.evs)
      else
        var cmdLen: uint8 := if info.variant < Variant93CXXMax then 3 else if info.variant == Variant25XXSfdp then 8 else 0;
        var cmd: uint32 := if info.variant < Variant93CXXMax then Cmd93CWrite else if info.variant == Variant25XXSfdp then Cmd25Pp else 0;
        var e := Transaction(cmdLen, cmd, info.addrLen, Mask(info, addr), [b], timeout);
        Step(o.reply(e), we.evs + [e])
  }

  /** The header read of SFDP discovery (memoree.c:745-757): opcode 0x5A, 24-bit address 0,
      8 dummy bits, 15 bytes out of a buffer preset to 0xFF. */
  function SfdpHeaderRead(timeout: uint32): Event
  {
    Spi(SpiTransaction(8, Cmd25Sfdp, 24, 0, 8, HeaderLen, Fill(HeaderLen, 0xFF), timeout))
  }

  /** The parameter table read (memoree.c:774-781): the same transaction at the table pointer,
      for `fparam_size` bytes. */
  function SfdpTableRead(hd: Header, timeout: uint32): Event
  {
    Spi(SpiTransaction(8, Cmd25Sfdp, 24, hd.fparamPtr, 8, hd.fparamSize, Fill(hd.fparamSize, 0xFF), timeout))
  }

  /** `memoree_get_sfdp` (memoree.c:736-807). A bad handle returns `false`, which is 0 = OK. */
  function GetSfdpSpec(o: Oracle, info: Info, timeout: uint32): (r: SfdpStep)
    ensures r.ret == Code(Ok) && VariantIsValid(info.variant) && info.variant == Variant25XXSfdp ==> r.param.Some?
    ensures r.param.None? ==> r.info == info
    ensures r.param.Some? ==> r.ret == Code(Ok) && r.info == ApplyParam(info, r.param.value)
    ensures r.info.variant == info.variant && r.info.speed == info.speed && r.info.numPages == info.numPages
    ensures r.param.Some? ==> (r.info.pageSize == 1 || r.info.pageSize == 64) &&
                              (r.info.addrLen == 0 || r.info.addrLen == 24 || r.info.addrLen == 32)
    ensures InfoConsistent(info) ==> InfoConsistent(r.info)
    ensures var header := Answer(o, SfdpHeaderRead(timeout));
      (r.header.Some? <==> VariantIsValid(info.variant) && info.variant == Variant25XXSfdp &&
                           o.reply(SfdpHeaderRead(timeout)) == 0 && DecodeHeader(header).Success?) &&
      (r.header.Some? ==> DecodeHeader(header) == Success(r.header.value))
    ensures r.param.Some? ==> r.header == Some(r.param.value.header)
    ensures r.param.Some? ==>
      Decode(Answer(o, SfdpHeaderRead(timeout)), Answer(o, SfdpTableRead(r.param.value.header, timeout)), o.undefinedShift)
        == Success(r.param.value)
  {
    if !VariantIsValid(info.variant) || info.variant != Variant25XXSfdp then SfdpStep(Code(Ok), [], info, None, None)
    else
      var he := SfdpHeaderRead(timeout);
      if o.reply(he) != 0 then SfdpStep(Code(Fail), [he], info, None, None)
      else
        var header := Answer(o, he);
        match DecodeHeader(header)
        case Failure(err) => SfdpStep(Code(err), [he], info, None, None)
        case Success(hd) =>
          var te := SfdpTableRead(hd, timeout);
          if o.reply(te) != 0 then SfdpStep(Code(Fail), [he, te], info, Some(hd), None)
          else
            match Decode(header, Answer(o, te), o.undefinedShift)
            case Failure(err) => SfdpStep(Code(err), [he, te], info, Some(hd), None)
            case Success(p) => SfdpStep(Code(Ok), [he, te], ApplyParam(info, p), Some(hd), Some(p))
  }

  /** `memoree_ping` (memoree.c:374-388). On I2C a non-zero transport result counts as
      present; on SFDP flash it is discovery, which rewrites `info`. */
  function PingSpec(o: Oracle, info: Info, timeout: uint32): InfoStep
  {
    if !VariantIsValid(info.variant) then InfoStep(Code(InvalidArg), [], info)
    else if info.variant < VariantI2CMax then
      var e := I2CPing(info.addr, timeout);
      InfoStep(if o.reply(e) != 0 then Code(Ok) else Code(Fail), [e], info)
    else if info.variant == Variant25XXSfdp then
      var s := GetSfdpSpec(o, info, timeout);
      InfoStep(s.ret, s.evs, s.info)
    else InfoStep(Code(InvalidArg), [], info)
  }

  /** `memoree_stub_read` (memoree.c:809-823): a raw transaction, allowed on stub handles only. */
  function StubReadSpec(o: Oracle, info: Info, t: SpiTransaction): ReadStep
  {
    if !VariantIsStub(info.variant) then ReadStep(Code(InvalidArg), [], None)
    else if info.variant == VariantStubI2C then
      var e := I2CWriteRead(U8(t.addr), t.write, t.readLen, t.timeoutMs);
      ReadStep(o.reply(e), [e], Some(Answer(o, e)))
    else
      var e := Spi(t);
      ReadStep(o.reply(e), [e], Some(Answer(o, e)))
  }
}
