/** What `memoree_init` and `memoree_deinit` (memoree.c:285-372) do, as functions of the
    variant, the caller's configuration and what the platform does. The class Memoree in
    module Handle is proved to follow them. */
module Lifecycle {
  import opened Types
  import opened Registry
  import opened Transport
  import opened Sfdp
  import opened Engine

  /** The outcome of `memoree_init`: whether a transport was opened (and is still open), the handle's `info`
      when a handle is returned (None: NULL), the requests issued, and the configuration as
      init leaves it (its speed field is overwritten with the clamped speed). */
  datatype InitStep = InitStep(transportOpen: bool, handle: Option<Info>, evs: seq<Event>, conf: InterfaceConf)

  /** The outcome of `memoree_deinit`: its result, whether the transport's deinit was called,
      and whether the handle was freed. */
  datatype DeinitStep = DeinitStep(ret: int, releases: bool, frees: bool)

  /** The `memcpy` of `mem_props[variant]`, then the I2C address from the configuration
      (memoree.c:320-324). */
  function TableInfo(variant: nat, confAddr: uint8): Info
    requires variant < VariantMax
  {
    var e := MemProps[variant];
    if e.kind == I2C then e.(addr := confAddr) else e
  }

  /** The last three assignments of `memoree_init` (memoree.c:337-339). `num_pages` is
      `uint16_t`, so the quotient is truncated. */
  function FinishInit(info: Info, speed: uint32): Info
    requires info.pageSize > 0
  {
    info.(speed := speed, numPages := U16(info.size / info.pageSize), isProtected := false)
  }

  /** `memoree_deinit` (memoree.c:343-372). A handle of a valid variant or a stub is accepted;
      with `if_deinit` the transport's deinit is called, and a non-zero result from it is FAIL
      and leaves the handle allocated. */
  function DeinitSpec(info: Info, ifDeinit: bool, releaseReply: int32): (r: DeinitStep)
    ensures r.frees <==> r.ret == Code(Ok)
    ensures r.releases <==> ifDeinit && (VariantIsStub(info.variant) || VariantIsValid(info.variant))
    ensures r.ret == Code(Ok) <==> (VariantIsStub(info.variant) || VariantIsValid(info.variant)) && (ifDeinit ==> releaseReply == 0)
    ensures r.ret == Code(Ok) || r.ret == Code(Fail) || r.ret == Code(InvalidArg)
  {
    if !VariantIsStub(info.variant) && !VariantIsValid(info.variant) then DeinitStep(Code(InvalidArg), false, false)
    else if ifDeinit && releaseReply != 0 then DeinitStep(Code(Fail), true, false)
    else DeinitStep(Code(Ok), ifDeinit, true)
  }

  /** `memoree_init` (memoree.c:285-341). An invalid variant (a stub, a sentinel, or an id at
      or past MAX) is refused before anything happens. A failed allocation, or failed SFDP
      discovery (followed by `memoree_deinit(mem, false)`), returns NULL with the transport
      still open. */
  function InitSpec(p: Platform, variant: nat, conf: InterfaceConf): (r: InitStep)
    ensures !VariantIsValid(variant) ==> !r.transportOpen && r.handle.None? && r.evs == [] && r.conf == conf
    ensures VariantIsValid(variant) ==> r.conf == conf.(speed := ClampSpeed(variant, conf.speed))
    ensures r.handle.Some? ==> r.transportOpen && p.allocOk
    ensures r.handle.Some? ==>
      var info := r.handle.value;
      InfoConsistent(info) && info.variant == variant && info.speed == r.conf.speed && !info.isProtected &&
      (info.kind == I2C ==> info.addr == conf.addr) && (info.kind == SPI ==> info.addr == 0)
    ensures r.handle.Some? ==> r.handle.value.pageSize > 0 &&
                                r.handle.value.numPages == U16(r.handle.value.size / r.handle.value.pageSize)
    ensures r.handle.Some? && variant != Variant25XXSfdp ==> r.handle.value.size == MemProps[variant].size
    ensures r.evs != [] ==> variant == Variant25XXSfdp
  {
    if !VariantIsValid(variant) then InitStep(false, None, [], conf)
    else
      var speed := ClampSpeed(variant, conf.speed);
      var conf' := conf.(speed := speed);
      var isOpen := if InI2CRange(variant) then p.i2cInitOk else p.spiInitOk;
      if !isOpen then InitStep(false, None, [], conf')
      else if !p.allocOk then InitStep(true, None, [], conf')
      else
        var info := TableInfo(variant, conf'.addr);
        if info.variant == Variant25XXSfdp then
          var g := GetSfdpSpec(p.oracle, info, 100);
          if g.ret != Code(Ok) then InitStep(true, None, g.evs, conf')
          else
            assert g.param.Some?;
            InitStep(true, Some(FinishInit(g.info, speed)), g.evs, conf')
        else
          RegistryGeometry(variant);
          InitStep(true, Some(FinishInit(info, speed)), [], conf')
  }
}
