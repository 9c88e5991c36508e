/** The transport the core drives (platform/memoree_platform.h), as an abstract bus: every
    request is appended to a log, and the replies come from an oracle fixed when the bus
    is opened. */
module Transport {
  import opened Types

  /** `memoree_spi_transaction_t` (platform/memoree_platform.h:15-27). The write buffer and
      its length are one sequence; the read buffer is represented by its length, and the
      bytes the transport puts there are the oracle's answer. */
  datatype SpiTransaction = SpiTransaction(
    cmdLen: uint8,
    cmd: uint32,
    addrLen: uint8,
    addr: uint32,
    dummyLen: uint8,
    readLen: uint32,
    write: seq<uint8>,
    timeoutMs: uint32)

  /** One request to the transport. */
  datatype Event =
    | I2CWrite(select: uint8, bytes: seq<uint8>, timeoutMs: uint32)                      // platform_i2c_write
    | I2CWriteRead(select: uint8, bytes: seq<uint8>, readLen: nat, timeoutMs: uint32)     // platform_i2c_write_read
    | I2CPing(select: uint8, timeoutMs: uint32)                                         // platform_i2c_ping
    | Spi(t: SpiTransaction)                                                            // platform_spi_write_read
    | Delay(ms: nat)                                                                    // platform_ms_delay

  function ReadLen(e: Event): nat
  {
    match e
    case I2CWriteRead(_, _, n, _) => n
    case Spi(t) => t.readLen
    case _ => 0
  }

  /** How the device and the platform answer: the return value of each request, the bytes it
      reads back, and the value the C expression `2 << (N - 1)` takes where C leaves it
      undefined (memoree.c:799, N outside 1..30). */
  datatype Oracle = Oracle(reply: Event -> int32, readBack: (Event, nat) -> uint8, undefinedShift: nat -> uint64)

  /** The bytes a request leaves in its read buffer. */
  function Answer(o: Oracle, e: Event): (s: seq<uint8>)
    ensures |s| == ReadLen(e)
  {
    seq<uint8>(ReadLen(e), (i: int) requires 0 <= i => o.readBack(e, i))
  }

  /** The configuration handed to `platform_*_init`: the fields of `memoree_i2c_conf_t` and
      `memoree_spi_conf_t` the core reads or writes (port, speed and, for I2C, the 7-bit
      address). */
  datatype InterfaceConf = InterfaceConf(port: int, speed: uint32, addr: uint8)

  /** An opened transport. */
  class Bus {
    const oracle: Oracle
    const conf: InterfaceConf
    const releaseReply: int32
    ghost var log: seq<Event>
    var open: bool

    constructor (oracle: Oracle, conf: InterfaceConf, releaseReply: int32)
      ensures this.oracle == oracle && this.conf == conf && this.releaseReply == releaseReply
      ensures log == [] && open
    {
      this.oracle := oracle;
      this.conf := conf;
      this.releaseReply := releaseReply;
      log := [];
      open := true;
    }

    /** Issues one request and returns the transport's result and the bytes read. */
    method Transfer(e: Event) returns (r: int32, answer: seq<uint8>)
      requires !e.Delay?
      modifies this`log
      ensures log == old(log) + [e]
      ensures r == oracle.reply(e) && answer == Answer(oracle, e)
    {
      log := log + [e];
      r := oracle.reply(e);
      answer := Answer(oracle, e);
    }

    /** Issues one request whose read buffer is `buf`: the bytes read land at its start and
        the rest of it is left as it was. */
    method TransferInto(e: Event, buf: array<uint8>) returns (r: int32)
      requires !e.Delay? && ReadLen(e) <= buf.Length
      modifies this`log, buf
      ensures log == old(log) + [e] && r == oracle.reply(e)
      ensures buf[..] == Answer(oracle, e) + old(buf[ReadLen(e)..])
    {
      log := log + [e];
      r := oracle.reply(e);
      var a := Answer(oracle, e);
      forall i | 0 <= i < |a| {
        buf[i] := a[i];
      }
    }

    /** `platform_ms_delay`. */
    method Sleep(ms: nat)
      modifies this`log
      ensures log == old(log) + [Delay(ms)]
    {
      log := log + [Delay(ms)];
    }

    /** `platform_i2c_deinit` / `platform_spi_deinit`: 0 releases the transport. */
    method Release() returns (r: int32)
      modifies this`open
      ensures r == releaseReply
      ensures open == (old(open) && r != 0)
    {
      r := releaseReply;
      if r == 0 {
        open := false;
      }
    }
  }

  /** Appending to a log in two steps is appending the two parts at once. */
  lemma LogAppend(a: seq<Event>, b: seq<Event>, c: seq<Event>)
    ensures (a + b) + c == a + (b + c)
  {
  }

  /** What `platform_i2c_init`, `platform_spi_init` and `malloc` do on this platform. */
  datatype Platform = Platform(i2cInitOk: bool, spiInitOk: bool, allocOk: bool, oracle: Oracle, releaseReply: int32)

  /** `platform_i2c_init` (`i2c` true) or `platform_spi_init`: NULL on failure. */
  method OpenTransport(p: Platform, i2c: bool, conf: InterfaceConf) returns (b: Bus?)
    ensures (b != null) == (if i2c then p.i2cInitOk else p.spiInitOk)
    ensures b != null ==>
      fresh(b) && b.oracle == p.oracle && b.conf == conf && b.releaseReply == p.releaseReply &&
      b.log == [] && b.open
  {
    if (if i2c then p.i2cInitOk else p.spiInitOk) {
      b := new Bus(p.oracle, conf, p.releaseReply);
    } else {
      b := null;
    }
  }
}
