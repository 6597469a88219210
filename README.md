# AD9250 driver: shadow registers, byte framing and bounded polling

This project is a Dafny model of the register engine of the no-OS AD9250 ADC
driver (`drivers/adc/ad9250/ad9250.c`), with proofs about it. The parts it models:

- **The device handle.** It holds a 15-slot shadow table, seeded from
  `shadow_regs` when the handle is set up.
- **`ad9250_write`.** It stores the value in the register's shadow slot and only
  then sends the value over the bus, most significant byte first, one
  three-byte frame per byte, at decreasing addresses.
- **`ad9250_read`.** It assembles a big-endian value from the same kind of
  frames.
- **`ad9250_set_bits_to_reg`.** It merges bits into the register's old value. The
  old value comes from the shadow slot when the register is shadowed, and from
  the chip otherwise.
- **The two bounded polling loops.** `ad9250_transfer` and `ad9250_soft_reset`
  each poll at most 0xFFFF times.
- **The frames-per-multiframe rounding** of `ad9250_jesd204b_set_frames`.
- **`ad9250_set_user_pattern`.**
- **The range-gated feature accessors.** In range, each one sets a field or
  writes the register. Out of range, it reads the register and decodes it.

## How the project is laid out

Each file is one module:

- `arith.dfy` holds the integer and bit-vector facts.
- `bus.dfy` models the SPI transport as a byte store with a failure schedule.
  - It is the class `Transport`, whose fields are the chip's registers, the set
    of exchange indices that fail, and the log of frames sent.
  - `Exchange` is what one `no_os_spi_write_and_read` does to them.
- `regmap.dfy` holds the address encoding and the register map.
- `spec.dfy` gives every driver function as a function on values: the shadow
  table and the bus state go in, and the new ones come out with the return value.
- `device.dfy` is the driver as the C code runs it.
  - It is the class `Device`: an `array<int>` shadow table and a `Transport`.
  - Each method loops over three-byte exchanges through a buffer that the
    transport overwrites.
  - Each method is proved to compute what the matching function in
    `spec.dfy` describes.
- `framing.dfy` relates the frame loops to the frames they send and the bytes
  they store or collect.
- `features.dfy` describes each feature accessor as one `Accessor` row: register,
  range, setter, getter, and whether the status is reported.
- The remaining files hold the properties:
  - `engine_props.dfy`: read, write and set_bits;
  - `sync_props.dfy`: transfer and soft reset;
  - `jesd_props.dfy`: set_frames;
  - `feature_props.dfy`: the accessors.

The header `ad9250.h` is not part of this model. Address encoding assumed here:

- `AD9250_ADDR(a)` is bits 0..7 of the encoded address.
- `AD9250_TRANSF_LEN(a)` is bits 8..15.
- The shadow index is bits 16..23. This agrees with the `>> 16` in
  `ad9250_is_shadow_register`.
- `AD9250_READ` is 0x8000 and `AD9250_WRITE` is 0.

The register addresses and field masks follow the AD9250 datasheet under that
layout. Every property is proved for any encoding that respects the layout,
with two exceptions:

- the concrete "chip never clears the bit" lemmas use `REG_DEVICE_UPDATE` = 0x1FF,
  `DEVICE_UPDATE_SW` = 1 and `SPI_CFG_SOFT_RST` = 0x24;
- the accessor-table lemmas use the table's own registers and masks.

Behaviour of the code that is kept as written:

- `ad9250_transfer` masks the polled value with the register macro
  `AD9250_REG_DEVICE_UPDATE` and compares the `int8_t` result with 1.
  - With the encoding above the mask's low byte is 0xFF. The loop therefore
    goes on only while the whole byte is exactly 1.
  - It returns 0 when the budget runs out.
- `ad9250_soft_reset` returns the last value it read, not a status.
- `ad9250_jesd204b_test_mode` drops the result of its `set_bits` call.
- `ad9250_offset_adj` writes the 6-bit two's-complement pattern of its argument
  and reads the register back raw, so an offset of -1 reads back as 63.
- `ad9250_jesd204b_set_frames` with k = 0 or 1 rounds to 0 and writes -1. The
  byte on the wire is 0xFF.
- `ad9250_write` on a register of length 0 sends nothing and returns the shadow
  index.
- The doc comment of `ad9250_set_user_pattern` says it returns the selected
  pattern. The code returns the status of `ad9250_write`, and the model follows
  the code.

## Model

| member | source | states |
|---|---|---|
| Ad9250.Device.constructor | drivers/adc/ad9250/ad9250.c:84-85 | after the init loop, shadow slot i holds the default shadow_regs[i] for every i in 0..14; the transport is untouched |
| RegMap.DecodeEncode | drivers/adc/ad9250/ad9250.c:383-386 | the shadow index extracted by ad9250_is_shadow_register, the address and the transfer length of an encoded register are the fields it was built from |
| RegMap.EncodeInjective | drivers/adc/ad9250/ad9250.c:383-386 | two registers with the same encoded address have the same address, length and shadow index |
| Bus.FrameAt | drivers/adc/ad9250/ad9250.c:205-206 | the frame's instruction word is the address counter modulo 2^16, and its data byte is the given byte |
| Bus.FrameAtBytes | drivers/adc/ad9250/ad9250.c:205-207 | buffer bytes 0 and 1 are bits 8..15 and 0..7 of the counter, and byte 2 is the data |
| Bus.CounterDecrement | drivers/adc/ad9250/ad9250.c:260 | decrementing the 16-bit uint16_t counter tracks the unbounded counter modulo 2^16 |
| Bus.Transport.WriteAndRead | drivers/adc/ad9250/ad9250.c:208-210 | one exchange: the frame is logged, and on success a write stores its byte and a read returns the chip's byte in buffer[2]; it fails exactly when its index is scheduled to fail |
| Ad9250.Device.SendFrame | drivers/adc/ad9250/ad9250.c:205-210 | fills the buffer from the counter and data byte and performs exactly the exchange of that frame, returning 0 or -1 |
| Ad9250.Device.Read | drivers/adc/ad9250/ad9250.c:194-220 | ad9250_read computes exactly Ad9250Spec.Read: the chip is read, the shadow table is not touched |
| Ad9250.Device.ReadFrames | drivers/adc/ad9250/ad9250.c:202-219 | the read loop computes exactly ReadBus: one frame per byte at ADDR, ADDR-1, ..., each byte shifted in below the earlier ones, stopping with -1 at the first failure |
| Ad9250.Device.WriteFrames | drivers/adc/ad9250/ad9250.c:247-263 | the write loop computes exactly WriteBus: byte len-1-i of the value to the 16-bit counter ADDR-i, stopping with -1 at the first failure |
| Ad9250.Device.Write | drivers/adc/ad9250/ad9250.c:231-264 | ad9250_write computes exactly Ad9250Spec.Write: the shadow slot first, then the frames; with length 0 it returns the shadow index |
| Ad9250.Device.SetBitsToReg | drivers/adc/ad9250/ad9250.c:342-373 | set_bits computes exactly Ad9250Spec.SetBits: old byte from the shadow slot or the chip, merge, write, 0 or -1 |
| Ad9250.Device.Transfer | drivers/adc/ad9250/ad9250.c:275-298 | the do-while loop computes exactly Ad9250Spec.Transfer, with at most 0xFFFF polls |
| Ad9250.Device.SoftReset | drivers/adc/ad9250/ad9250.c:307-329 | the do-while loop computes exactly Ad9250Spec.SoftReset, with at most 0xFFFF polls, returning the last value read |
| Ad9250.Device.Jesd204bSetFrames | drivers/adc/ad9250/ad9250.c:782-810 | the method computes exactly Ad9250Spec.SetFrames: rounding, a write of K-1, then the rounded K, -1 or, out of range, the read |
| Ad9250.Device.SetUserPattern | drivers/adc/ad9250/ad9250.c:697-710 | one write to USER_TEST1 + 2*pattern_no, whose status is returned |
| Ad9250.Device.Feature | drivers/adc/ad9250/ad9250.c:399-419 | every range-gated accessor computes exactly Features.Access on its table row: set in range, else read and decode |
| Ad9250.Device.Gated | drivers/adc/ad9250/ad9250.c:404-418 | the shared shape of the accessors, for any valid table row: in range, the setter and its status (or 0); out of range, -1 or the decoded read-back |
| Ad9250Spec.Read | drivers/adc/ad9250/ad9250.c:194-220 | ad9250_read never changes the shadow table |
| Ad9250Spec.Write | drivers/adc/ad9250/ad9250.c:231-264 | ad9250_write keeps the shadow table at 15 slots |
| Framing.FirstFailure | drivers/adc/ad9250/ad9250.c:211-213 | the index of the first failing exchange among the next n: the ones before it succeed, and it fails unless it is n |
| Framing.WriteFramesAt | drivers/adc/ad9250/ad9250.c:247-257 | ad9250_write's frame j addresses (ADDR-j) mod 2^16 and carries byte len-1-j of the value, so the MSB goes first |
| Framing.ReadFramesAt | drivers/adc/ad9250/ad9250.c:203-210 | ad9250_read's frame j addresses READ+ADDR-j and carries 0 |
| Framing.WriteSendsFrames | drivers/adc/ad9250/ad9250.c:247-263 | ad9250_write sends its frames up to and including the first failing one, returns -1 exactly when one fails and 0 otherwise |
| Framing.ReadSendsFrames | drivers/adc/ad9250/ad9250.c:203-217 | ad9250_read sends its frames up to and including the first failing one and returns -1 exactly when one fails |
| Framing.RunSends | drivers/adc/ad9250/ad9250.c:208-213 | a run of exchanges that stops at the first failure logs exactly the attempted prefix and returns -1 iff a failure occurs within it |
| Framing.ReadValue | drivers/adc/ad9250/ad9250.c:203-219 | for a register whose bytes do not run below address 0 (length at most ADDR+1), with no failing exchange, ad9250_read returns the big-endian value of the chip bytes ADDR, ADDR-1, ... and changes no chip register |
| Framing.ReadLoopValue | drivers/adc/ad9250/ad9250.c:214-216 | the shift-and-or accumulation of the read loop is the big-endian value of the bytes still to read, on top of what was accumulated |
| Framing.BigEndianBytesOf | drivers/adc/ad9250/ad9250.c:249-250 | the bytes the write loop extracts, read back big-endian, give the value modulo 256^len |
| Framing.ReadKeepsRegs | drivers/adc/ad9250/ad9250.c:203-217 | for a register whose bytes do not run below address 0 (length at most ADDR+1), ad9250_read sends only read frames and changes no chip register |
| Framing.WriteStores | drivers/adc/ad9250/ad9250.c:247-263 | for a register whose bytes do not run below address 0 (length at most ADDR+1), with no failing exchange, ad9250_write puts the value's bytes MSB first in ADDR, ADDR-1, ... and leaves every other chip register as it was |
| Framing.WriteThenRead | drivers/adc/ad9250/ad9250.c:194-263 | for a register whose bytes do not run below address 0 (length at most ADDR+1), reading it back after writing v to it, with no failing exchange, gives v modulo 256^len |
| EngineProps.ReadByte | drivers/adc/ad9250/ad9250.c:194-220 | over a working bus, reading a one-byte register returns the chip's byte, not the shadow slot, and changes neither table nor chip |
| EngineProps.WriteThrough | drivers/adc/ad9250/ad9250.c:241-263 | the written value lands in the shadow slot whatever the bus does, no other slot changes, an unshadowed write leaves the whole table as it was, and the status is -1 exactly when a frame fails; with length 0 it is the shadow index |
| EngineProps.WriteByte | drivers/adc/ad9250/ad9250.c:241-263 | a one-byte write over a working bus returns 0, leaves v mod 256 in the chip and touches no other chip register |
| EngineProps.MergeFields | drivers/adc/ad9250/ad9250.c:363-364 | after the mask-and-or, the bits inside the mask are the new bits and those outside keep their old value |
| EngineProps.MergeIdempotent | drivers/adc/ad9250/ad9250.c:363-364 | merging the same bits twice is merging them once |
| EngineProps.SetBitsShadowed | drivers/adc/ad9250/ad9250.c:350-353 | for a shadowed register whose bytes do not run below address 0, set_bits merges into the shadow slot and sends only write frames, never reading the chip |
| EngineProps.SetBitsStores | drivers/adc/ad9250/ad9250.c:342-373 | on a one-byte register over a working bus, set_bits returns 0 and leaves the merge of the old byte (slot or chip) in the chip and the slot |
| EngineProps.SetBitsIdempotent | drivers/adc/ad9250/ad9250.c:342-373 | on a one-byte register over a working bus, a second identical set_bits returns 0 and leaves the chip register and the shadow table as the first did |
| EngineProps.SetBitsSlotIdempotent | drivers/adc/ad9250/ad9250.c:342-373 | on a shadowed register of any length and over any bus, set_bits merges into the slot, and a second identical call leaves the shadow table as the first did |
| EngineProps.WriteThenSetBits | drivers/adc/ad9250/ad9250.c:241-246 | after a write to a shadowed register, set_bits merges into the value written, whether or not the write reached the chip |
| EngineProps.ReadBelowZero | drivers/adc/ad9250/ad9250.c:203-214 | for the two-byte register at address 0 (encoding 0x200), ad9250_read's second frame goes to 0x7FFF without the read bit: it stores 0 there and the value read has 0 as its low byte |
| EngineProps.WriteBelowZero | drivers/adc/ad9250/ad9250.c:247-262 | for the same register, ad9250_write's 16-bit counter wraps to 0xFFFF, a read frame: the high byte lands in address 0 and the low byte is stored nowhere |
| EngineProps.UserPatternRoundTrip | drivers/adc/ad9250/ad9250.c:697-710 | for pattern_no 1..4 over a working bus, set_user_pattern returns 0, keeps the shadow table, and the register reads back as the pattern's low 16 bits |
| SyncProps.Chain | drivers/adc/ad9250/ad9250.c:283-295 | bus extensions compose, and a composed run is failure-free iff both parts are |
| SyncProps.OneRead | drivers/adc/ad9250/ad9250.c:194-220 | a one-byte read is one read exchange that returns the chip's byte or -1 exactly when it fails |
| SyncProps.OneWrite | drivers/adc/ad9250/ad9250.c:231-264 | a one-byte unshadowed write is one exchange returning 0 or -1, -1 exactly when it fails |
| SyncProps.ReadFacts | drivers/adc/ad9250/ad9250.c:194-220 | a read of any length keeps the shadow table, only appends to the log, and returns -1 exactly when one of its exchanges failed |
| SyncProps.WriteFacts | drivers/adc/ad9250/ad9250.c:231-264 | a write of any length only appends to the log and returns -1 exactly when one of its exchanges failed |
| SyncProps.SetBitsFacts | drivers/adc/ad9250/ad9250.c:342-373 | set_bits returns 0 or -1, -1 exactly when its read or one of its write frames failed, and only appends to the log |
| SyncProps.SwBitIsWholeByte | drivers/adc/ad9250/ad9250.c:293-295 | sw_bit is 1 exactly when the register byte is exactly 1, because the mask is the register macro |
| SyncProps.PollFacts | drivers/adc/ad9250/ad9250.c:287-297 | the poll loop sends between 1 and timeout reads, never changes the shadow table, and returns 0 iff no exchange failed |
| SyncProps.TransferFacts | drivers/adc/ad9250/ad9250.c:275-298 | ad9250_transfer returns 0 or -1, -1 exactly when an exchange fails, touches no shadow slot, and sends at most 1 + 0xFFFF frames |
| SyncProps.PollExits | drivers/adc/ad9250/ad9250.c:287-297 | when the first read succeeds with a byte other than 1, the poll stops after that one frame and returns 0, changing neither table nor chip |
| SyncProps.PollStuck | drivers/adc/ad9250/ad9250.c:287-295 | over a working bus, against a chip whose update byte stays 1, the poll makes all timeout reads and still returns 0 |
| SyncProps.TransferTimesOutSilently | drivers/adc/ad9250/ad9250.c:275-298 | over a bus that does not fail, ad9250_transfer sends 1 + 0xFFFF frames and returns 0, not an error: the modelled byte store keeps the update bit once written, so the poll always runs out |
| SyncProps.ResetPollFacts | drivers/adc/ad9250/ad9250.c:319-326 | the reset poll sends between 1 and timeout reads, never touches the shadow table, returns a byte or -1, -1 exactly on a failure, and uses all polls when the reset bits stay set; it changes no chip register, and a result other than -1 is the chip's SPI_CFG byte |
| SyncProps.SoftResetFacts | drivers/adc/ad9250/ad9250.c:307-329 | ad9250_soft_reset touches no shadow slot, sends at most 1 + 0xFFFF frames and returns -1 exactly when an exchange fails |
| SyncProps.SoftResetResult | drivers/adc/ad9250/ad9250.c:319-328 | a result of ad9250_soft_reset other than -1 is a byte, equal to the SPI_CFG byte the chip holds when it returns (the last byte read), and it still has the reset bits only when all polls were used |
| SyncProps.ResetPollExits | drivers/adc/ad9250/ad9250.c:316-328 | when the first read succeeds with the reset bits clear, the poll stops after that one frame and returns the byte read, changing neither table nor chip |
| SyncProps.ResetPollStuck | drivers/adc/ad9250/ad9250.c:319-326 | over a working bus, against a chip whose SPI_CFG byte stays 0x24, the poll makes all timeout reads and returns 0x24 |
| SyncProps.SoftResetTimesOut | drivers/adc/ad9250/ad9250.c:307-329 | over a bus that does not fail, ad9250_soft_reset sends 1 + 0xFFFF frames and returns 0x24, the value with the reset bits set: the modelled byte store keeps the reset bits once written |
| JesdProps.RoundKNearestUp | drivers/adc/ad9250/ad9250.c:790-797 | the rounding is k + 2 rounded down to a multiple of 4 |
| JesdProps.RoundKFacts | drivers/adc/ad9250/ad9250.c:790-797 | for 0 <= k <= 32 the result is a multiple of 4 in 0..32, at most 2 from k, nearest among multiples of 4, and rounds halfway values up |
| JesdProps.SetFramesStatus | drivers/adc/ad9250/ad9250.c:789-804 | in range, set_frames returns the rounded K or -1, -1 exactly when its write fails, and changes no shadow slot |
| JesdProps.SetFramesStores | drivers/adc/ad9250/ad9250.c:798-804 | over a working bus, set_frames returns the rounded K and leaves K-1 in the K register, 0xFF for k of 0 or 1, changing no other chip register |
| JesdProps.SetFramesOutOfRange | drivers/adc/ad9250/ad9250.c:805-808 | out of range, set_frames makes one read exchange and returns the register's byte or -1 |
| FeatureProps.PackUnpack | drivers/adc/ad9250/ad9250.c:404-407 | a value within a field survives packing into the field and unpacking, and never spills out of the mask |
| FeatureProps.PlaceBits | drivers/adc/ad9250/ad9250.c:404-407 | an in-range accessor argument placed into its field stays inside the mask and unpacks back to itself |
| FeatureProps.FieldRoundTrip | drivers/adc/ad9250/ad9250.c:399-419 | decoding a register into which a field value was merged gives back that value, whatever the other bits |
| FeatureProps.FlagRoundTrip | drivers/adc/ad9250/ad9250.c:532-552 | a one-bit flag merged into a register reads back as the flag through the non-zero test |
| FeatureProps.TableCoherent | drivers/adc/ad9250/ad9250.c:399-1276 | every accessor's range fits its field and its getter reads the field its setter writes |
| FeatureProps.OffsetEcho | drivers/adc/ad9250/ad9250.c:502-517 | an offset adjustment reads back as its 6-bit two's-complement pattern, so -1 reads back as 63 |
| FeatureProps.RoundTrip | drivers/adc/ad9250/ad9250.c:399-419 | for a coherent accessor and an in-range x, the byte stored by the set branch decodes in the read branch to Echo(acc, x): the value set, or for offset_adj (the one accessor that writes a field and reads the register raw) its 6-bit pattern x % 64 |
| FeatureProps.FeatureRoundTrip | drivers/adc/ad9250/ad9250.c:399-1276 | the same round trip, to Echo, for every accessor of the table: x itself except offset_adj, which gives back x % 64 |
| FeatureProps.SetStores | drivers/adc/ad9250/ad9250.c:404-407 | over a working bus an in-range call returns 0 and stores the field into the register and no other |
| FeatureProps.SetThenGet | drivers/adc/ad9250/ad9250.c:399-419 | over a bus that does not fail for three exchanges, an out-of-range call after an in-range call with x returns Echo(acc, x): the value set, or for offset_adj (the one accessor that writes a field and reads the register raw) its 6-bit pattern x % 64 |
| FeatureProps.FeatureSetThenGet | drivers/adc/ad9250/ad9250.c:1224-1244 | over a bus that does not fail for three exchanges, the same for every accessor of the table: the get returns x, or x % 64 for offset_adj |
| FeatureProps.SetStatus | drivers/adc/ad9250/ad9250.c:1084-1104 | an in-range call returns 0 or -1, always 0 when the accessor drops the status, and changes no shadow slot but the register's; on an unshadowed register the table is unchanged |
| FeatureProps.SetReportsFailure | drivers/adc/ad9250/ad9250.c:399-419 | an accessor that reports the status returns -1 when its first exchange fails |
| FeatureProps.SetFailsExactly | drivers/adc/ad9250/ad9250.c:399-419 | in range, the log only grows, and an accessor that reports its status returns -1 exactly when one of the exchanges of its set_bits or write failed |
| FeatureProps.TestModeHidesFailure | drivers/adc/ad9250/ad9250.c:1089-1093 | with a failing first exchange every accessor returns -1 except jesd204b_test_mode, which returns 0 |
| FeatureProps.DecodeBound | drivers/adc/ad9250/ad9250.c:415 | a decoded field lies between 0 and the field's maximum, and a flag is 0 or 1 |
| FeatureProps.GetFacts | drivers/adc/ad9250/ad9250.c:409-415 | an out-of-range call makes one read exchange, changes nothing, and returns the decoded field, bounded by the field, or -1 exactly when the read fails |

## Left out

- The SPI platform layer (`no_os_spi_init`, `no_os_spi_write_and_read`, `no_os_spi_remove`) is foreign code. It is modelled as a byte store indexed by the 15-bit target. A frame with bit 15 set reads; any other frame stores its byte at once. A set of exchange indices decides which exchanges return -1.
- Chip-side double buffering of registers behind the transfer bit is not modelled: a write is visible to the next read.
- `ad9250_setup` is modelled only by its shadow-table loop. Left out: the allocation, SPI initialisation, the leak of the handle when SPI initialisation fails (ad9250.c:88-91), and the calls after it.
- `ad9250_remove` frees memory only and is left out.
- `ad9250_jesd204b_setup` and `ad9250_fast_detect_setup` are left out as whole sequences: long scripts of writes driven by board parameters whose bit-field macros live in the missing header. They are made of the writes, set_bits and transfer calls modelled here.
- `ad9250.h` is not part of this model. The register encoding, the register addresses and the field masks are assumptions stated in `regmap.dfy`.
- Ad9250.Device.WriteFrames: the model moves the frame loops of `ad9250_write` and `ad9250_read` into methods of their own (`WriteFrames`, `ReadFrames`), and the shared body of the range-gated accessors into `Gated`. `SendFrame` holds one pass of either frame loop. The frames and buffers are the same as in the C code.
- Ad9250.Device.ReadFrames: the `uint32_t` accumulator of `ad9250_read` is unbounded in the model. With at most three bytes it never exceeds 2^24.
- Ad9250.Device.Write: `register_value` and the shadow slots are unbounded integers, not `int32_t`. The bytes sent are the same for any value that fits in 32 bits, because `ByteOf` reads the two's-complement bytes.
- The `uint32_t ret` of `ad9250_chip_pwr_mode`, and the int8/uint8 truncations of the accessors' read branch, are modelled by the byte arithmetic of `Decode`, which gives the same values for register bytes.
- Ad9250Spec.Transfer and Ad9250Spec.SoftReset (and Ad9250.Device.Transfer, Ad9250.Device.SoftReset): the modelled chip is a byte store that never clears a bit by itself, so after a successful DEVICE_UPDATE_SW or 0x24 write every later read returns that byte. Over these two calls the early exits of the polls (ad9250.c:293-295, 322-326) are therefore reached only when an exchange fails; `Poll` and `ResetPoll` reach them from any state, and their lemmas cover that. `TransferTimesOutSilently` and `SoftResetTimesOut` describe this byte store, not a chip that clears the bit.
- Bus.Transport.WriteAndRead returns only 0 or -1. The C code tests only `== -1`, so a platform layer that returned another negative code would be treated as success; that case is not modelled.
- Framing.ReadValue, Framing.ReadKeepsRegs, Framing.WriteStores, Framing.WriteThenRead and EngineProps.SetBitsShadowed hold only for registers whose bytes do not run below address 0 (length at most ADDR+1). For the other registers the C counters wrap, and the model keeps that as written: the read counter loses its read bit and writes, and the 16-bit write counter wraps to 0xFFFF and reads. EngineProps.ReadBelowZero and EngineProps.WriteBelowZero show this on register 0x200, which `ad9250_set_user_pattern` reaches with pattern_no -13, because it has no range check. No register of the driver's own map is of that kind under the encoding assumed here.
- Ad9250.Device.SetUserPattern (and Ad9250Spec.SetUserPattern) require the register USER_TEST1 + 2*pattern_no to be valid, while `ad9250_set_user_pattern` (ad9250.c:697-710) checks no range. The excluded pattern numbers are far outside the documented 1..4. Nearly all of them are undefined behaviour in C: a shadow index of 15 or more writes past `shadow_regs`, and a length of 5 or more shifts by 32 or more. The one defined case, length 4, does not fit the three-byte frames of this model.
- Timeouts in real time do not exist in the code: the polling loops are bounded by their 0xFFFF counter only, as in the model.
