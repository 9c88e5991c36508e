# MemorEE in Dafny

MemorEE is a small C driver library for serial memories. It covers three families:
- 24XX I2C EEPROMs;
- 93Cxx Microwire EEPROMs, driven over SPI;
- SPI NOR flash that describes itself with the JEDEC Serial Flash Discoverable
  Parameters (SFDP, JESD216).

A caller creates a handle for a part number and a bus configuration. It then reads, writes, erases
and pings through that handle. The library turns each logical request (variant, address, length)
into framed bus transactions: I2C write frames, I2C write-then-read frames and SPI transaction
records with command, address, dummy and data phases. This project models memoree.c and the
constants and types of memoree.h.

How the model is organised:

- **Transport.** The bus is the class `Transport.Bus`. It keeps a ghost log of every request
  issued: I2C frames, SPI transaction records and delays. Its results come from an `Oracle`
  value. The oracle gives the reply code of each request, the bytes each read returns, and the
  value of the one undefined shift in the SFDP decoder. Every property is a statement about the
  log and the return value.
- **Specification.** Each operation is first a function of the handle's `info`, the arguments
  and the oracle. These live in `Engine`, `WriteEngine`, `EraseEngine` and `Lifecycle`. Each
  returns the result code and the exact requests, in order.
- **Handle.** The handle `struct memoree` is the class `Handle.Memoree`. Its `info` record is
  rewritten in place by SFDP discovery and by init. Each public function of memoree.c that
  uses the handle's transport or state is a method of that class; `memoree_protect`, which
  reads only the variant, is the function `Registry.Protect`. Each method is proved to return what its specification function
  returns and to append exactly that function's requests to the bus log. The loops of the C source (the 93C byte loop, the page
  loop, the erase fill loop, the address-byte loop, the address-space loop) are loops with
  invariants: the page loop a `for` loop, the others `while` loops.
- **SFDP decoding.** The header and parameter-table decoding is a pure function `Sfdp.Decode`.
  It has encoders as partners and round-trip lemmas.
- **Properties.** The lemmas in `Properties` state what the operations promise. They cover frame
  layout, select-byte folding, wrap and truncation, page chunking, where write enables are sent,
  93C loop behaviour, and the lifecycle.

Variant ids follow the order of the `mem_props` table (memoree.c:28-164), which the code indexes
directly:
- `STUB_I2C` = 0, `24XX02`..`24XX1024` = 1..10, `I2C_MAX` = 11;
- `STUB_SPI` = 12, `93C46`..`93C86` = 13..17, `93CXX_MAX` = 18;
- `25XX_SFDP` = 19, `MAX` = 20.

The enum in memoree.h:56-77 has no stub members, so its numbering disagrees with the table. The
model follows the code.

The model keeps these behaviours of the C source as written:
- **Entry checks.** The entry test of read and write, `!VALID && !ADDRESS_VALID || !data`,
  rejects only handles that are both invalid and out of range.
- **Bad SFDP arguments.** `memoree_get_sfdp` returns `false`, which is OK, for a handle that is
  not an SFDP handle.
- **Ping.** On I2C, ping reports OK when the transport returns non-zero.
- **Init leaks the transport.** It stays open when allocation or SFDP discovery fails.
- **Density.** The SFDP density literal is used without the +1 that JESD216 intends.
- **Address bytes.** The address-bytes encoding 0b01 decodes to 0.
- **`min_sector`.** It is always 0, because 4096 does not fit in `uint8_t`.
- **Integer widths.**
  - `num_pages` is truncated to 16 bits and the SFDP size to 32 bits.
  - The alignment and iteration counts of the page loop are 16-bit.
  - The 93C transport replies are narrowed to `int8_t`.
- **93C erase.** 93C page erase always addresses cell 0 with a 5-bit command: ERASE for 0xFF,
  and WRITE carrying the value for any other value.
- **SFDP flash writes.** `memoree_write`, the page erase and the erase fill send no write enable
  to SFDP flash before their page programs. Only `memoree_write_byte` sends WREN first.
- **SFDP 4 KiB erase.** An SFDP chip erase with a 4 KiB opcode issues one sector erase at
  address 0, because the `return` sits inside the loop.
- **Wrap and truncation.** A non-wrapping write that runs past the end is truncated by
  `(addr + len) % size`. That is the distance to the end only when the overflow is smaller than
  the memory.
- **Page loop.** The page loop writes no sub-page tail. When `len` is smaller than the first
  chunk, the `uint32_t` subtraction makes the loop bound 65535, and the loop writes pages past
  the caller's data. What happens next depends on the array.
  - On a 24XX part the pages reach the end of the array. The first page there is refused and
    the write reports FAIL (a 24XX02 after 32 passes).
  - On SFDP flash larger than 4 MiB with 64-byte pages, every page stays inside the array. All
    65535 pages go out and, when each is acknowledged, the write reports `len`.

Each file holds one module:
- `types.dfy`: integer widths, bit operations and error codes;
- `registry.dfy`: the variant table, the validity macros, the constants of memoree.h, the speed
  clamp and protect;
- `codec.dfy`: address space, select byte and address prefix;
- `transport.dfy`: the bus and the oracle;
- `sfdp.dfy`: SFDP decoding;
- `engine.dfy`: the per-operation specifications;
- `write.dfy`: the specifications of `memoree_write`;
- `erase.dfy`: the specifications of erase and page erase;
- `lifecycle.dfy`: init and deinit;
- `handle.dfy`: the handle class;
- `properties.dfy`: the lemmas;
- `arith.dfy`: arithmetic helpers.

## Model

| member | source | states |
|---|---|---|
| Types.ToInt8 | memoree.c:267 | the `int8_t` narrowing of a transport reply lies in -128..127 and keeps values already in range |
| Types.ToInt32 | memoree.c:536 | converting the `uint32_t` length to the `int` result keeps every length below 2^31 |
| Types.ErrorCodesDistinctNegative | memoree.h:39-49 | OK is the only code equal to 0; the seven failures are distinct values in -7..-1 |
| Types.Fill | memoree.c:696 | a `memset` buffer has the requested length and holds the fill byte at every index |
| Registry.ValidIsHardware | memoree.c:10 | `VARIANT_ISVALID` holds exactly for the ten 24XX parts, the five 93C parts and SFDP flash; it rejects both stubs, both sentinels and every id at or past MAX |
| Registry.FamilyOrdering | memoree.h:56-77 | every 24XX id < I2C_MAX < every 93C id < 93CXX_MAX < 25XX_SFDP < MAX; the stubs fall inside the I2C and 93C range tests |
| Registry.TableIndexedByVariant | memoree.c:28-164 | entry v of `mem_props` records variant v, with type I2C below I2C_MAX and SPI above it |
| Registry.SizeIsPow2 | memoree.c:28-164 | every 24XX and 93C entry has a power-of-two size |
| Registry.RegistryGeometry | memoree.c:28-164 | every 24XX and 93C entry has a power-of-two size that its nonzero page size divides, with fewer than 2^16 pages |
| Registry.PageDividesSize | memoree.c:28-164 | the page size of every 24XX and 93C entry is positive and divides the size |
| Registry.I2CShape | memoree.c:28-164 | each 24XX entry uses 8 or 16 address bits, 8..128-byte pages, and a size 2^k with 8 <= k <= 17 and k <= address bits + 3, so at most three block bits are folded into the select byte |
| Registry.I2CHandleShape | memoree.c:28-164 | a consistent I2C handle is a 24XX part with the table's address width, page size and power-of-two size |
| Registry.HandleGeometry | memoree.c:337-339 | a consistent handle has a positive page size; non-SFDP handles have a nonzero size that the page size divides; 93C handles use 1-byte pages over SPI; I2C handles are I2C |
| Registry.PageSizePositive | memoree.c:337-339 | the division `size / page_size` in init is defined for every consistent handle |
| Registry.BaseAddressBitsClear | memoree.h:13 | `MEMOREE_I2C_BASE_ADDRESS` is 0x50, and its bits 3:1, where block bits are folded, are clear |
| Registry.OpcodeWidths | memoree.h:21-37 | READ, WRITE and ERASE fit in 3 bits; WEN, WDS, ERAL and WRAL need exactly 5; every 25XX opcode is one byte |
| Registry.Protect | memoree.c:728-734 | protect is never OK: FAIL for a valid SFDP handle, INVALID_ARG for every other handle |
| Registry.ClampSpeed | memoree.c:291-313 | init never raises the speed; it clamps to 400 kHz on I2C, 2 MHz on 93C and 40 MHz on SFDP and on the SPI stub |
| Codec.AddressSpace | memoree.c:178-188 | the bit-counting loop of `_get_address_space` returns AddressSpaceOf(size) |
| Codec.TrailingOnesOfMask | memoree.c:178-188 | the loop counts k trailing ones in 2^k - 1 |
| Codec.PowerOfTwoSpace | memoree.c:178-188 | for a size 2^k with k >= 1 the address space is k + 1 |
| Codec.AddressSpaceRange | memoree.c:178-188 | the result is INVALID_ARG exactly for size 0 and odd sizes, and otherwise lies in 2..32 |
| Codec.NonPowerOfTwoAccepted | memoree.c:178-188 | a size that is not a power of two is not rejected: 12 and 4 both give 3, and 6 gives 2 |
| Codec.AddressBytes | memoree.c:215-223 | the address prefix has `addr_len / 8` bytes |
| Codec.PrependAddress | memoree.c:215-223 | the do-while that fills the write buffer produces the MSB-first address bytes followed by the data, unchanged |
| Codec.AddressBytesValue | memoree.c:215-223 | equal address prefixes mean addresses equal modulo 2^addr_len |
| Codec.FoldOfSmallAddress | memoree.c:209-213 | an address below 2^addr_len folds no block bits |
| Codec.SelectPathsAgree | memoree.c:209-213 | for every address below a power-of-two size, the write test (`<=`) and the read test (`==`, memoree.c:453) give the same select byte: the configured address ORed with the folded block bits |
| Codec.FoldShape | memoree.c:209-213 | the folded part is `((addr >> addr_len) & 7) << 1`: even and below 16 |
| Codec.FoldKeepsHighBits | memoree.c:209-213 | for an address within three block bits of the address width, the fold keeps every bit above the address width |
| Codec.OrSelectBits | memoree.c:209-213 | when the configured address has bits 3:1 clear, bits 3:1 of the select byte are the folded block bits |
| Codec.OrDeterminesFold | memoree.c:209-213 | under that condition the select byte determines the folded bits |
| Codec.SameSelectSameFold | memoree.c:209-213 | two in-range addresses with the same select byte fold the same block bits |
| Codec.SelectDeterminesAddress | memoree.c:209-223 | with bits 3:1 of the configured address clear, the select byte and the address bytes together determine the address |
| Transport.Answer | platform/memoree_platform.h:60-64 | a transfer returns exactly as many bytes as the request reads |
| Transport.Bus.constructor | platform/memoree_platform.h:29-33 | a freshly opened transport is open, has an empty log and keeps its oracle and configuration |
| Transport.Bus.Transfer | platform/memoree_platform.h:75-77 | a transfer appends its request to the log and returns the oracle's reply and answer |
| Transport.Bus.TransferInto | platform/memoree_platform.h:75-77 | a transfer into a buffer appends the request and overwrites only the first read-length bytes of the buffer, with the answer |
| Transport.Bus.Sleep | platform/memoree_platform.h:79-80 | a delay is logged as a delay event and nothing else |
| Transport.Bus.Release | platform/memoree_platform.h:72-73 | deinit of the transport returns its reply and closes it only when the reply is 0 |
| Transport.OpenTransport | memoree.c:293-314 | the I2C or SPI init yields a fresh open transport exactly when the platform init succeeds |
| Sfdp.DecodeHeader | memoree.c:758-772 | SFDP_NOT_SUPPORTED exactly when bytes 0-3 differ from "SFDP"; SFDP_INVALID_HEADER exactly when the signature matches but byte 7 is not 0xFF or byte 11 < 2; success guarantees a table of at least 8 bytes |
| Sfdp.EncodeHeader | memoree.c:768-772 | a header record is laid out in the 15 bytes the discovery read returns |
| Sfdp.HeaderRoundTrip | memoree.c:761-772 | decoding an encoded well-formed header returns it unchanged |
| Sfdp.HeaderDecodeComplete | memoree.c:761-772 | every header that decodes is well formed, and encoding it rebuilds the 15 bytes read except byte 8, which is ignored |
| Sfdp.DensityField | memoree.c:794-797 | the density double word without bit 31 is below 2^31 |
| Sfdp.ExponentDensity | memoree.c:799 | `2 << (N-1)` is 2^N for 1 <= N <= 30 |
| Sfdp.DecodeTable | memoree.c:784-800 | the table is refused, with SFDP_INVALID_HEADER, exactly when bits 7:5 of byte 0 are not all set, bit 7 of byte 2 is clear or byte 3 is not 0xFF; otherwise the write size is 1 or 64, the address bytes are 0, 3 or 4, and min_sector is 0 |
| Sfdp.Decode | memoree.c:757-800 | discovery fails only with SFDP_NOT_SUPPORTED or SFDP_INVALID_HEADER; a decoded record carries the header it came from |
| Sfdp.EncodeTable | memoree.c:784-797 | a well-formed flash table is laid out in the first 8 bytes of the parameter table |
| Sfdp.TableRoundTrip | memoree.c:784-800 | decoding an encoded table succeeds and returns its write granularity, 4 KiB erase opcode (0 when the erase field is 3), address bytes, DTR flag and density / 8 |
| Sfdp.LiteralDensityOneShort | memoree.c:799-800 | with the literal density form that JESD216 defines as bits - 1, the decoded size is one byte short |
| Sfdp.OneMegabitExample | memoree.c:799-800 | a 1 Mbit part (density 0xFFFFF) decodes to 131071 bytes, not 131072 |
| Sfdp.ExponentFormUndefined | memoree.c:799 | for the exponent form with N >= 32, where the C shift is undefined, the size is whatever that shift yields, / 8 |
| Sfdp.ThreeOrFourByteDecodesToZero | memoree.c:789-790 | address-byte encodings 0b01 and 0b11 both decode to 0 bytes |
| Sfdp.DefinedSizeFitsInfo | memoree.c:799-804 | wherever the shift is defined, the decoded size is below 2^28 and survives the truncation to `uint32_t` |
| Engine.GetSfdpSpec | memoree.c:736-807 | discovery on an SFDP handle that succeeds always yields a record, and that record is the decoding of the header and table bytes read; the five header fields of the caller's record are written exactly when the header read succeeds and the header passes its checks, even if the table read or the table check fails later; `info` changes only on success, then taking the decoded address length (0, 24 or 32), page size (1 or 64) and size; variant, speed and page count are untouched |
| WriteEngine.PerByteTimeout | memoree.c:522 | the 93C per-byte timeout never exceeds the caller's timeout |
| WriteEngine.Write93BytesStep | memoree.c:525-534 | each 93C pass sends its WRITE, then a delay, and continues only when the narrowed reply is 0 and bytes remain |
| Lifecycle.InitSpec | memoree.c:285-341 | init refuses invalid variants before doing anything; a returned handle has an open transport, is consistent, has the variant, the clamped speed, page count `size / page_size` truncated to 16 bits, the configured I2C address or 0 on SPI, no protection, and the table size unless it is SFDP; only SFDP init issues requests |
| Lifecycle.DeinitSpec | memoree.c:343-372 | deinit is OK exactly for valid and stub handles whose optional transport release returns 0; it frees the handle exactly when OK, and releases the transport exactly when asked on an accepted handle |
| Handle.Memoree.constructor | memoree.c:316-320 | the allocated handle holds the transport and the copied table entry |
| Handle.Memoree.Init | memoree.c:285-341 | init returns a fresh handle and opens a transport exactly as InitSpec says, with the requests InitSpec lists and the overwritten configuration |
| Handle.Memoree.Deinit | memoree.c:343-372 | the result, the freeing and the transport's closing follow DeinitSpec |
| Handle.Memoree.WriteBytes | memoree.c:194-248 | one request, exactly the one of WriteBytesSpec, and its result |
| Handle.Memoree.WriteEnable | memoree.c:251-281 | sends the family's write enable (93C WEN 0b10011/5 with 5 address bits, or WREN 0x06/8) and returns OK exactly when it is accepted |
| Handle.Memoree.Ping | memoree.c:374-388 | the requests, result and new `info` of PingSpec; the handle stays valid |
| Handle.Memoree.Read | memoree.c:436-500 | the request and result of ReadSpec; the bytes read land at the start of `data` and the rest of `data` is unchanged |
| Handle.Memoree.ReadByte | memoree.c:390-394 | a one-byte read whose count 1 becomes OK |
| Handle.Memoree.WriteByte | memoree.c:396-434 | the requests and result of WriteByteSpec |
| Handle.Memoree.GetSfdp | memoree.c:736-807 | the requests, result, header fields, parameter record and rewritten `info` of GetSfdpSpec; a valid handle stays valid |
| Handle.Memoree.WriteEach93 | memoree.c:510-537 | the 93C write: a write enable, then the byte loop of Write93 |
| Handle.Memoree.WriteLoop93 | memoree.c:525-534 | the do-while sends WRITE, then a delay, per byte at consecutive addresses, stopping after the first failing reply |
| Handle.Memoree.Write | memoree.c:502-581 | every request and the result of WriteSpec: the 93C branch, wrap, truncation and chunking |
| Handle.Memoree.WriteChunked | memoree.c:539-580 | the I2C and SFDP branch: the wrap recursion when wrapping past the end, otherwise truncation and the paged write |
| Handle.Memoree.WriteWrapped | memoree.c:543-553 | the two non-wrapping sub-writes and the result of WrapSpec |
| Handle.Memoree.WritePaged | memoree.c:559-580 | the first chunk, its delay, then the page loop, as PagedWrite |
| Handle.Memoree.WriteFirst | memoree.c:563-566 | the first chunk's request and the delay after it |
| Handle.Memoree.WriteAfterFirst | memoree.c:565-580 | after the first chunk: FAIL if it failed, otherwise the page loop and `data_len` |
| Handle.Memoree.WritePages | memoree.c:571-577 | the for loop over full pages, each followed by a double delay, stopping at the first failure |
| Handle.Memoree.WritePage | memoree.c:573-576 | one page of the loop at page-aligned offset `pos` |
| Handle.Memoree.ErasePage | memoree.c:583-624 | the requests and result of ErasePageSpec |
| Handle.Memoree.Erase | memoree.c:626-707 | the requests, result and new `info` of EraseSpec; the handle stays valid |
| Handle.Memoree.Erase93 | memoree.c:631-668 | the 93C erase: a write enable, then ERAL for 0xFF or the byte loop |
| Handle.Memoree.EraseLoop93 | memoree.c:657-667 | the do-while writes the erase value to each cell from 0 upward, with a delay after each, stopping at the first failure |
| Handle.Memoree.EraseSfdp | memoree.c:669-692 | the SFDP 0xFF erase: discovery, then one 4 KiB erase at 0 when an opcode exists, otherwise the page fill with the rewritten `info` |
| Handle.Memoree.FillAll | memoree.c:694-707 | the page fill loop, stopping at the first short page, OK only when every page is full |
| Handle.Memoree.FillOne | memoree.c:700-703 | one page of the fill at page x page size |
| Handle.Memoree.GetInfo | memoree.c:709-726 | a valid handle yields OK and an exact copy of `info`; any other yields INVALID_ARG and no copy |
| Handle.Memoree.StubRead | memoree.c:809-823 | only stub handles pass a raw transaction through, as an I2C write-read on the I2C stub or unchanged on the SPI stub |
| Properties.MaskIsModulo | memoree.c:478 | on a non-SFDP handle, `addr & (size - 1)` is `addr % size`, and `addr` itself when in range |
| Properties.I2CWriteFrame | memoree.c:209-226 | an in-range I2C write is one frame: select byte = configured address ORed with the fold (just the configured address when size <= 2^addr_len), then `addr_len/8` address bytes and the data; a full acknowledgement reports `data_len` |
| Properties.ReadWriteSameCell | memoree.c:451-466 | an I2C read of an in-range address uses the write's select byte and the write's address bytes, without the data, and reads `len` bytes |
| Properties.DistinctAddressesDistinctFrames | memoree.c:209-223 | with bits 3:1 of the configured address clear, writes to two different in-range addresses send different frames |
| Properties.Read93Wraps | memoree.c:468-482 | a 93C read is one READ (0b110, 3-bit command) at `addr % size`, returning the transport error or `len` |
| Properties.OnlyWritesRangeChecked | memoree.c:436-440 | an out-of-range address is still read on a valid handle, while the byte write and `_memoree_write_bytes` refuse it with no request |
| Properties.ReadCount | memoree.h:178-181 | a non-negative read result is `len`, from one request whose answer has `len` bytes |
| Properties.WriteByteEnablesFirst | memoree.c:396-434 | an in-range SPI byte write starts with the family's write enable; a second request, WRITE/3 or PP/8 at `addr & (size-1)`, follows exactly when the enable succeeds and its reply is the result; otherwise the result is FAIL |
| Properties.FirstChunkEndsOnPageBoundary | memoree.c:559 | the first chunk has 1..page_size bytes, ends on a page boundary, and is a whole page exactly when `addr` is page-aligned |
| Properties.TailUnwritten | memoree.c:559-560 | the first chunk and the full pages never exceed `len`, and cover it exactly only when the rest is a whole number of pages |
| Properties.ShortWriteRunsOn | memoree.c:559-560 | on a 24XX02, a 3-byte write at 0 has an 8-byte first chunk and a page loop bound of 65535 |
| Properties.LastPageRefused | memoree.c:194-197 | in that write, page 31 lands at address 256, past the end of the array, and is refused with INVALID_ARG and no request |
| Properties.ShortWriteFailsAtEnd | memoree.c:559-580 | in that write, with the first chunk and pages 0..30 acknowledged, the write sends the first chunk, its delay, pages 0..30 covering [8, 256) and page 31's double delay, and reports FAIL after 32 passes |
| Properties.ShortWriteRunsThroughLargeFlash | memoree.c:559-580 | on SFDP flash larger than 4 MiB with 64-byte pages, the 3-byte write at 0 has a 64-byte first chunk and a loop bound of 65535, every page ends inside the array, and with every chunk acknowledged the write reports 3 |
| Properties.PagedWriteAllOk | memoree.c:563-580 | a paged write whose first chunk and every page are acknowledged reports `data_len` |
| Properties.PageInLargeFlash | memoree.c:573 | each of 65535 64-byte pages after a 64-byte first chunk ends at most at 4 MiB |
| Properties.PagedWriteStopsAt | memoree.c:563-577 | a paged write whose first chunk succeeds and whose first refused page is j reports FAIL after the first chunk, its delay, pages 0..j-1 and page j with its double delay |
| Properties.PagesStopAt | memoree.c:571-577 | the page loop stops at its first refused page j with FAIL, after the requests of pages i..j-1 and those of page j and its double delay |
| Properties.PageFails | memoree.c:573-576 | a refused page ends the loop with FAIL right after its requests and its double delay |
| Properties.PageStep | memoree.c:573-576 | an accepted page is followed by its double delay and the rest of the loop, whose result is the loop's |
| Properties.OffsetIsProduct | memoree.c:573 | the running offset of page j is `page_size * j` |
| Properties.PageOffsets | memoree.c:571-577 | when every page succeeds, the loop is OK and its requests are page j at address base + page_size x j with data offset off + page_size x j, in order |
| Properties.PagesResult | memoree.c:571-577 | the page loop yields only OK or FAIL |
| Properties.PagedWriteResult | memoree.c:563-580 | the paged write is FAIL when the first chunk or any page fails, and otherwise `len` |
| Properties.WriteBytesNoWriteEnable | memoree.c:228-242 | `_memoree_write_bytes` sends no write enable, not even before an SFDP page program |
| Properties.PagesNoWriteEnable | memoree.c:571-577 | the page loop sends no write enable |
| Properties.PagedWriteNoWriteEnable | memoree.c:559-580 | a paged write sends no write enable |
| Properties.WriteEnableOnlyOn93C | memoree.c:510-581 | on a 93C handle the first request of a write is its write enable; on I2C and SFDP handles no write enable is sent at all |
| Properties.Write93BytesAllOk | memoree.c:525-534 | if every pass is accepted, the loop returns 0 after 2 x passes requests, WRITE then delay for each byte |
| Properties.Write93BytesStops | memoree.c:525-534 | the loop stops right after the first failing pass, returning its narrowed reply |
| Properties.Write93Succeeds | memoree.c:510-537 | with every byte accepted, the 93C write returns `len` after the write enable and a WRITE and a delay per byte |
| Properties.Write93FailsAt | memoree.c:510-537 | when byte j is the first refused, the write returns FAIL after 2j + 3 requests |
| Properties.Write93EventCarries | memoree.c:514-522 | pass j sends WRITE with a 3-bit command at address start + j, carrying data byte j |
| Properties.Erase93BytesAllOk | memoree.c:657-667 | if every cell write is accepted, the fill returns 0 having written each cell from k upward, each followed by a delay |
| Properties.Erase93BytesLog | memoree.c:657-667 | with every cell write accepted, the loop returns 0 and sends, for each cell from k upward, its WRITE and then a delay |
| Properties.Erase93LogShape | memoree.c:660-665 | in that log, cell j's WRITE is at index 2 (j - k) and its delay right after, 2 requests per cell |
| Properties.Erase93Cells | memoree.c:651-665 | after the write enable, cell j's WRITE is request 1 + 2 j, at address j |
| Properties.EraseOn93C | memoree.c:631-668 | erase on a 93C handle is its 93C branch and leaves `info` unchanged |
| Properties.Erase93Dispatch | memoree.c:631-668 | after the write enable, 0xFF sends one ERAL and a delay; any other value writes all `size` cells from 0, each followed by a delay, OK when all are accepted |
| Properties.WrapWritesToEndThenFromZero | memoree.c:541-553 | a wrapping write that ends past the end, at most one array beyond it, writes [addr, size) from data[0..] and then [0, overflow) from data[size-addr..]; it returns the first short result, or `len` |
| Properties.WrapLengths | memoree.c:508-548 | for an overflow of at most one array, the two sub-writes have lengths size - addr and addr + len - size |
| Properties.WithinArrayIsPaged | memoree.c:538-580 | a write that stays within the memory is just the paged write |
| Properties.WrapIsChunked | memoree.c:541-554 | an overflowing write with wrap is the wrap recursion |
| Properties.TruncateToEnd | memoree.c:555-556 | without wrap, an overflow smaller than the memory truncates the write to end exactly at `size` |
| Properties.TruncatedLength | memoree.c:556 | in that case the truncated length is size - addr |
| Properties.TruncatedIsPaged | memoree.c:555-580 | an overflowing write without wrap is the paged write of the truncated length |
| Properties.TruncationCanOverrun | memoree.c:556 | a write of 2 x size + 1 bytes at 0 is truncated to 2 x size, still past the end |
| Properties.ErasePage93IgnoresPage | memoree.c:590-616 | 93C page erase gives the same result for every page: one request at address 0 with a 5-bit command, ERASE exactly when the value is 0xFF, then a delay |
| Properties.FillPagesAllOk | memoree.c:694-706 | when every page from k on reports `page_size`, the fill writes `page_size` bytes of the erase value at `page * page_size` for each page below `num_pages`, each followed by the page delay, and reports OK |
| Properties.FillPagesStopAt | memoree.c:698-704 | the first page whose count is not `page_size` ends the fill with that count, after the earlier pages, its own request and its delay |
| Properties.EraseFillsEveryPage | memoree.c:626-707 | outside the 93C range and the SFDP 0xFF case, erase is the page fill of the handle's own `info`: OK with every page written when each reports `page_size` |
| Properties.ErasePageIsOneWrite | memoree.c:618-623 | outside the 93C range, page erase is one `page_size` write of the erase value at `page * page_size` (no `uint32_t` wrap, inside the array on I2C, a single request whenever inside the array); it is OK exactly when the count is `page_size` or 0, and otherwise returns the count |
| Properties.PageBelowLimit | memoree.c:618-621 | a page below `num_pages` starts below 2^32, and inside the array on I2C |
| Properties.SfdpSectorErase | memoree.c:669-690 | an SFDP 0xFF erase whose rediscovery succeeds with a 4 KiB opcode on a non-empty array sends the discovery requests, one sector erase (8-bit opcode, discovered address length, address 0) and the page delay, at any bus speed; the reply 0 is OK, any other reply is returned |
| Properties.ReadSfdpFrame | memoree.c:484-499 | an SFDP read is one READ (0x03, 8-bit opcode) at `addr & (size - 1)` with the handle's address length and no dummy bits for `len` bytes, storing the answer; a non-negative result is `len` |
| Properties.LargeFlashEraseSendsNothing | memoree.c:694-706 | an SFDP handle of 4 MiB with 64-byte pages has 0 pages after the 16-bit truncation, so an erase to a value other than 0xFF sends nothing and reports OK |
| Properties.InitHandlesCannotStubRead | memoree.c:809-823 | no handle init returns can use the raw stub transaction |
| Properties.InitHandlesDeinit | memoree.c:343-372 | every handle from init is accepted by deinit: it releases the transport exactly when asked and is freed unless that release fails |
| Properties.InitLeaksTransport | memoree.c:316-335 | when allocation or SFDP discovery fails after the transport opened, init returns NULL with the transport still open |
| Properties.PingInvertsI2C | memoree.c:379-380 | I2C ping sends one ping and is OK exactly when the transport returns non-zero, FAIL otherwise |
| Properties.DiscoveryRefusalIsOk | memoree.c:738-739 | discovery on any handle but a valid SFDP one is OK with no request and no change |

## Left out

- NULL handles, NULL data buffers, NULL configurations and NULL parameter records are not modelled.
  Dafny references are never null, so the `!data`, `!param`, `!mem_info` and `!interface_conf`
  tests are absent.
- The `default:` case of the `switch` in `memoree_deinit` is not modelled. A handle's type has
  only two values, so that case cannot be reached.
- `free` is the ghost flag `freed` on the handle. It is set exactly where the C frees, and no
  method accepts a freed handle.
- Allocation of the handle can fail (`Platform.allocOk`). Variable-length arrays and the
  parameter buffer are always allocated.
- Real time is not modelled. Delays are logged events. Timeouts are values handed to the
  transport.
- The `size_t` timeouts of the public functions and of the I2C read and write are modelled as
  `uint32_t`, the width of the SPI transaction's field and of the ping's parameter
  (platform/memoree_platform.h:26, 42). Where `size_t` is wider, a timeout of 2^32 or more
  would be truncated on the SPI and ping paths but passed whole to the I2C read and write.
  The model leaves such timeouts out.
- The ESP-IDF platform code, the examples and the STM32 wrapper are not part of this model. The
  transport functions declared in platform/memoree_platform.h are the abstract `Bus`, and their
  replies come from the oracle.
- The SFDP erase `for` loop is modelled as a single pass. Its body returns on the first pass, so
  no second pass is ever reached.
- Handle.Memoree.Write: requires a speed of at least 8000 Hz and a nonzero size on I2C and SFDP
  handles. Without them `MEMOREE_DEFAULT_TIMEOUT` or `% size` divides by zero on most paths,
  which is undefined in C. A few size-0 SFDP writes never divide and return FAIL: a wrapping
  write whose first sub-write has no overflow (memoree.c:545), and a write whose `uint32_t`
  sum `addr + len` wraps to 0. They are left out with the rest.
- Handle.Memoree.ErasePage: requires a speed of at least 8000 Hz when the page write goes
  through `MEMOREE_DEFAULT_TIMEOUT`, for the same reason.
- Handle.Memoree.Erase: requires a speed of at least 8000 Hz only when the erase reaches the
  page fill with at least one page, the one place outside the 93C branch that evaluates
  `MEMOREE_DEFAULT_TIMEOUT`. The SFDP 4 KiB sector erase and a fill of zero pages run at any
  speed.
- Handle.Memoree.EraseSfdp: requires a speed of at least 8000 Hz only when rediscovery leads to
  the page fill with at least one page, for the same reason.
- Handle.Memoree.FillAll: requires a speed of at least 8000 Hz only when there is at least one
  page, for the same reason.
- Handle.Memoree.WriteEach93: requires a zero timeout when `len` is 0, because `timeout_ms /
  data_len` then divides by zero.
- Bytes that the C source would read past the end of the caller's buffer are modelled as 0.
  This happens in a first chunk longer than the data, a 93C write of length 0, and the second
  half of a wrap. The memory contents are not modelled.
- The undefined `2 << (N-1)` for an exponent outside 1..30 is not given a value. The oracle's
  `undefinedShift` supplies it.
- Registry.Protect: the `protection` argument is not a parameter, because no branch of
  `memoree_protect` reads it.
- The `int8_t` and `int16_t` variables holding `_get_address_space` (memoree.c:203, 447) are
  not narrowed. The value is at most 32, so the narrowing changes nothing.
- Transport.Bus.Transfer: the oracle's reply to a request depends only on the request, not on
  the requests before it. So the rediscovery inside `memoree_erase` (memoree.c:672-673) cannot
  fail on a handle that init discovered, although the C passes on a bus error there, and
  repeated pings, repeated reads and a retried deinit get the same reply.
- Engine.GetSfdpSpec: the `sfdp_param_t` fields that memoree.c never assigns (`wen_opcode`,
  `min_sec_opcode`, `max_sector`, `max_sec_opcode`) are not part of the record. The C leaves
  them as the caller had them.
- The bus transactions are recorded, not executed. What a memory chip does with them is not
  modelled.
