/** The erase operations of memoree.c: `memoree_erase_page` (memoree.c:583-624) and
    `memoree_erase` (memoree.c:626-707). */
module EraseEngine {
  import opened Types
  import opened Registry
  import opened Transport
  import opened Engine

  /** `memoree_erase_page`. A 93C page is one 5-bit command at address 0 (ERASE for 0xFF,
      otherwise WRITE of the erase value), with no write enable; any other memory gets one
      page of the erase value through `_memoree_write_bytes` at `page * page_size`. */
  function ErasePageSpec(o: Oracle, info: Info, page: uint32, value: uint8): Step
    requires InfoConsistent(info)
    requires !In93CRange(info.variant) && page < info.numPages ==> info.speed >= 8000
  {
    if !(page < info.numPages) then Step(Code(InvalidArg), [])
    else if In93CRange(info.variant) then
      var e := if value == 0xFF then Transaction(5, Cmd93CErase, 5, 0, [], 0)
               else Transaction(5, Cmd93CWrite, 5, 0, [value], 0);
      Step(o.reply(e), [e, Delay(info.pageWriteDelayMs)])
    else
      PageSizePositive(info);
      var s := WriteBytesSpec(o, info, U32(page * info.pageSize), Fill(info.pageSize, value), DefaultTimeout(info, info.pageSize));
      Step(if s.ret == info.pageSize then Code(Ok) else s.ret, s.evs)
  }

  /** Pass k of the 93C byte loop of `memoree_erase`: a 1-byte WRITE of the erase value at
      address k (the `uint32_t` counter from 0, unmasked). */
  function Erase93Event(info: Info, value: uint8, k: nat): Event
  {
    Transaction(3, Cmd93CWrite, info.addrLen, U32(k), [value], 0)
  }

  /** Passes k .. n-1 of the 93C byte loop of `memoree_erase` (memoree.c:660-667): a 1-byte
      WRITE of the erase value at address k (the `uint32_t` counter from 0, unmasked), then
      the page delay; the first non-zero reply ends the loop and is returned. */
  function Erase93Bytes(o: Oracle, info: Info, value: uint8, k: nat, n: nat): Step
    requires k < n
    decreases n - k
  {
    var e := Erase93Event(info, value, k);
    var r := o.reply(e);
    var evs := [e, Delay(info.pageWriteDelayMs)];
    if r != 0 || k + 1 == n then Step(r, evs)
    else
      var rest := Erase93Bytes(o, info, value, k + 1, n);
      Step(rest.ret, evs + rest.evs)
  }

  /** Pages `page` .. num_pages-1 of the page loop of `memoree_erase` (memoree.c:694-707);
      OK once every page is done. */
  function FillPages(o: Oracle, info: Info, value: uint8, page: nat): Step
    requires InfoConsistent(info) && (info.numPages > 0 ==> info.speed >= 8000)
    decreases info.numPages - page, 1
  {
    if page >= info.numPages then Step(Code(Ok), []) else FillPage(o, info, value, page)
  }

  /** Page `page` and the ones after it: the page is filled through `_memoree_write_bytes`
      at `page * page_size`, followed by the page delay; a result other than `page_size` is
      returned as it is and ends the loop. */
  function FillPage(o: Oracle, info: Info, value: uint8, page: nat): Step
    requires InfoConsistent(info) && info.speed >= 8000 && page < info.numPages
    decreases info.numPages - page, 0
  {
    PageSizePositive(info);
    var s := WriteBytesSpec(o, info, U32(page * info.pageSize), Fill(info.pageSize, value), DefaultTimeout(info, info.pageSize));
    var evs := s.evs + [Delay(info.pageWriteDelayMs)];
    if s.ret != info.pageSize then Step(s.ret, evs)
    else
      var rest := FillPages(o, info, value, page + 1);
      Step(rest.ret, evs + rest.evs)
  }

  /** The 93C branch of `memoree_erase` (memoree.c:631-668): a write enable, then ERAL for
      0xFF or one WRITE per byte of the array. */
  function Erase93Spec(o: Oracle, info: Info, value: uint8): Step
    requires InfoConsistent(info) && In93CRange(info.variant)
  {
    var we := WriteEnableSpec(o, info);
    if we.ret != Code(Ok) then Step(Code(Fail), we.evs)
    else if value == 0xFF then
      var e := Transaction(5, Cmd93CEral, 5, 0, [], 0);
      var r := o.reply(e);
      Step(if r == 0 then Code(Ok) else r, we.evs + [e, Delay(info.pageWriteDelayMs)])
    else
      HandleGeometry(info);
      var s := Erase93Bytes(o, info, value, 0, info.size);
      Step(s.ret, we.evs + s.evs)
  }

  /** The 93C erase is the write enable followed by ERAL or by the byte loop. */
  lemma Erase93Parts(o: Oracle, info: Info, value: uint8) returns (we: Step, eral: Event, bytes: Step)
    requires InfoConsistent(info) && In93CRange(info.variant)
    ensures info.size > 0
    ensures we == WriteEnableSpec(o, info) && eral == Transaction(5, Cmd93CEral, 5, 0, [], 0)
    ensures bytes == Erase93Bytes(o, info, value, 0, info.size)
    ensures Erase93Spec(o, info, value) ==
              if we.ret != Code(Ok) then Step(Code(Fail), we.evs)
              else if value == 0xFF then
                Step(if o.reply(eral) == 0 then Code(Ok) else o.reply(eral), we.evs + [eral, Delay(info.pageWriteDelayMs)])
              else Step(bytes.ret, we.evs + bytes.evs)
  {
    HandleGeometry(info);
    we, eral := WriteEnableSpec(o, info), Transaction(5, Cmd93CEral, 5, 0, [], 0);
    bytes := Erase93Bytes(o, info, value, 0, info.size);
  }

  /** The SFDP erase is discovery, then the sector erase or the page loop on the
      rewritten `info`. */
  lemma SfdpEraseParts(o: Oracle, info: Info) returns (g: SfdpStep, fill: Step)
    requires InfoConsistent(info) && (SfdpFills(o, info) && info.numPages > 0 ==> info.speed >= 8000)
    ensures g == GetSfdpSpec(o, info, 100) && InfoConsistent(g.info)
    ensures g.info.speed == info.speed && g.info.numPages == info.numPages
    ensures SfdpFills(o, info) ==> fill == FillPages(o, g.info, 0xFF, 0)
    ensures SfdpEraseSpec(o, info) ==
              if g.ret != Code(Ok) then InfoStep(g.ret, g.evs, g.info)
              else
                var opcode := if g.param.Some? then g.param.value.erase4kOpcode else 0;
                if opcode != 0 && 0 < g.info.size then
                  var e := Transaction(8, opcode, g.info.addrLen, 0, [], 0);
                  InfoStep(if o.reply(e) == 0 then Code(Ok) else o.reply(e), g.evs + [e, Delay(g.info.pageWriteDelayMs)], g.info)
                else InfoStep(fill.ret, g.evs + fill.evs, g.info)
  {
    g := GetSfdpSpec(o, info, 100);
    fill := if SfdpFills(o, info) then FillPages(o, g.info, 0xFF, 0) else Step(Code(Ok), []);
  }

  /** Whether the SFDP 0xFF erase falls through to the page fill (memoree.c:694-707):
      discovery succeeds and yields no 4 KiB erase opcode, or an empty array. */
  predicate SfdpFills(o: Oracle, info: Info)
  {
    var g := GetSfdpSpec(o, info, 100);
    g.ret == Code(Ok) && !((if g.param.Some? then g.param.value.erase4kOpcode else 0) != 0 && 0 < g.info.size)
  }

  /** Whether `memoree_erase` reaches the page fill of memoree.c:694-707, the only part of
      it outside the 93C branch that evaluates `MEMOREE_DEFAULT_TIMEOUT`. */
  predicate ReachesFill(o: Oracle, info: Info, value: uint8)
  {
    VariantIsValid(info.variant) && !In93CRange(info.variant) &&
    (info.variant == Variant25XXSfdp && value == 0xFF ==> SfdpFills(o, info))
  }

  /** The SFDP branch of `memoree_erase` for 0xFF (memoree.c:669-692): discovery runs first
      and rewrites `info`; a 4 KiB erase opcode then gives a single sector-erase transaction
      at address 0, since the `for` loop returns from its first pass; without one (or with
      an empty array) every page is filled. */
  function SfdpEraseSpec(o: Oracle, info: Info): InfoStep
    requires InfoConsistent(info) && (SfdpFills(o, info) && info.numPages > 0 ==> info.speed >= 8000)
  {
    var g := GetSfdpSpec(o, info, 100);
    if g.ret != Code(Ok) then InfoStep(g.ret, g.evs, g.info)
    else
      var opcode := if g.param.Some? then g.param.value.erase4kOpcode else 0;
      if opcode != 0 && 0 < g.info.size then
        var e := Transaction(8, opcode, g.info.addrLen, 0, [], 0);
        var r := o.reply(e);
        InfoStep(if r == 0 then Code(Ok) else r, g.evs + [e, Delay(g.info.pageWriteDelayMs)], g.info)
      else
        var s := FillPages(o, g.info, 0xFF, 0);
        InfoStep(s.ret, g.evs + s.evs, g.info)
  }

  /** `memoree_erase` (memoree.c:626-707). */
  function EraseSpec(o: Oracle, info: Info, value: uint8): InfoStep
    requires InfoConsistent(info)
    requires ReachesFill(o, info, value) && info.numPages > 0 ==> info.speed >= 8000
  {
    if !VariantIsValid(info.variant) then InfoStep(Code(InvalidArg), [], info)
    else if In93CRange(info.variant) then
      var s := Erase93Spec(o, info, value);
      InfoStep(s.ret, s.evs, info)
    else if info.variant == Variant25XXSfdp && value == 0xFF then SfdpEraseSpec(o, info)
    else
      var s := FillPages(o, info, value, 0);
      InfoStep(s.ret, s.evs, info)
  }
}
