// What the AD9250 register engine does, as functions of the driver state:
// the host-side shadow table and the transport. The Device class in
// device.dfy implements each of these with the loops of the C driver and is
// proved equal to it; the lemma modules prove what the functions promise.

module Ad9250Spec {
  import opened Bus
  import opened Arith
  import opened RegMap

  /** The state an operation sees: the handle's shadow table and the bus. */
  datatype DevState = DevState(shadow: seq<int>, bus: BusState)

  /** A state together with the int32 the C function returns. */
  datatype Outcome = Outcome(st: DevState, ret: int)

  /** The bus part of an operation. */
  datatype Xfer = Xfer(bus: BusState, ret: int)

  predicate Wf(st: DevState)
  {
    |st.shadow| == SHADOW_REGISTER_COUNT
  }

  /** (v >> (8 * k)) & 0xFF on a two's-complement int32. */
  function ByteOf(v: int, k: nat): Byte
    decreases k
  {
    if k == 0 then v % 256 else ByteOf(v / 256, k - 1)
  }

  // ---------------------------------------------------------------- read

  /** Frames i..n-1 of ad9250_read: frame i goes to counter base - i;
      the value is assembled most significant byte first. */
  function ReadLoop(b: BusState, base: int, n: nat, i: nat, acc: int): Xfer
    requires i <= n
    decreases n - i
  {
    if i == n then Xfer(b, acc)
    else
      var rep := Exchange(b, FrameAt(base - i, 0));
      if !rep.ok then Xfer(rep.bus, -1)
      else ReadLoop(rep.bus, base, n, i + 1, acc * 256 + rep.data)
  }

  function ReadBus(b: BusState, a: int): Xfer
    requires FitsFrames(a)
  {
    ReadLoop(b, READ + Addr(a), TransfLen(a), 0, 0)
  }

  /** ad9250_read: always goes to the bus, never to the shadow table. */
  function Read(st: DevState, a: int): (r: Outcome)
    requires FitsFrames(a)
    ensures r.st.shadow == st.shadow
  {
    var r := ReadBus(st.bus, a);
    Outcome(st.(bus := r.bus), r.ret)
  }

  // --------------------------------------------------------------- write

  /** Frames i..len-1 of ad9250_write: frame i carries byte len-1-i of v. */
  function WriteLoop(b: BusState, base: int, v: int, len: nat, i: nat): Xfer
    requires i <= len
    decreases len - i
  {
    if i == len then Xfer(b, 0)
    else
      var rep := Exchange(b, FrameAt(base - i, ByteOf(v, len - 1 - i)));
      if !rep.ok then Xfer(rep.bus, -1)
      else WriteLoop(rep.bus, base, v, len, i + 1)
  }

  /** The bus part of ad9250_write. With no frame to send, the C function
      returns what is left in `ret`: the shadow index. */
  function WriteBus(b: BusState, a: int, v: int): Xfer
    requires FitsFrames(a)
  {
    if TransfLen(a) == 0 then Xfer(b, ShadowIndex(a))
    else WriteLoop(b, WRITE + Addr(a), v, TransfLen(a), 0)
  }

  /** The shadow table after ad9250_write has stored its value. */
  function ShadowAfterWrite(shadow: seq<int>, a: int, v: int): seq<int>
    requires ShadowIndex(a) < |shadow|
  {
    var k := ShadowIndex(a);
    if k > 0 then shadow[k := v] else shadow
  }

  /** ad9250_write: the shadow slot is written first, whatever the bus does. */
  function Write(st: DevState, a: int, v: int): (r: Outcome)
    requires Wf(st) && ValidReg(a)
    ensures Wf(r.st)
  {
    var r := WriteBus(st.bus, a, v);
    Outcome(DevState(ShadowAfterWrite(st.shadow, a, v), r.bus), r.ret)
  }

  // ------------------------------------------------------------ set bits

  /** reg_value &= ~mask; reg_value |= bits_value; on a uint8_t. */
  function Merge(prev: Byte, mask: Byte, bits: Byte): Byte
  {
    ((prev as bv8 & !(mask as bv8)) | bits as bv8) as int
  }

  /** ad9250_set_bits_to_reg: the old value comes from the shadow slot when
      the register is shadowed and from the chip otherwise. */
  function SetBits(st: DevState, a: int, bits: Byte, mask: Byte): (r: Outcome)
    requires Wf(st) && ValidReg(a)
    ensures Wf(r.st)
  {
    var k := ShadowIndex(a);
    if k > 0 then
      var w := Write(st, a, Merge(st.shadow[k] % 256, mask, bits));
      Outcome(w.st, if w.ret == -1 then -1 else 0)
    else
      var rd := Read(st, a);
      if rd.ret == -1 then rd
      else
        var w := Write(rd.st, a, Merge(rd.ret % 256, mask, bits));
        Outcome(w.st, if w.ret == -1 then -1 else 0)
  }

  // ------------------------------------------------------------ transfer

  /** The low byte of a value seen as an int8_t. */
  function Signed8(x: Byte): int
  {
    if x < 128 then x else x - 256
  }

  /** sw_bit = ret & AD9250_REG_DEVICE_UPDATE, stored in an int8_t: the mask
      is the register's encoded address, not the update bit. */
  function SwBit(ret: int): int
  {
    Signed8(((ret % 256) as bv8 & (REG_DEVICE_UPDATE % 256) as bv8) as int)
  }

  /** The do-while loop of ad9250_transfer with `timeout` passes left. */
  function Poll(st: DevState, timeout: nat): Outcome
    requires timeout >= 1
    decreases timeout
  {
    DeviceUpdateReg();
    var rd := Read(st, REG_DEVICE_UPDATE);
    if rd.ret == -1 then rd
    else if SwBit(rd.ret) == 1 && timeout - 1 != 0 then Poll(rd.st, timeout - 1)
    else Outcome(rd.st, 0)
  }

  /** ad9250_transfer: request the update, then poll at most 0xFFFF times. */
  function Transfer(st: DevState): Outcome
    requires Wf(st)
  {
    DeviceUpdateReg();
    var w := Write(st, REG_DEVICE_UPDATE, DEVICE_UPDATE_SW);
    if w.ret == -1 then w else Poll(w.st, 0xFFFF)
  }

  /** ad9250_transfer after its write, given what the write returned. */
  lemma TransferStep(st: DevState, w: Outcome)
    requires Wf(st) && (DeviceUpdateReg(); w == Write(st, REG_DEVICE_UPDATE, DEVICE_UPDATE_SW))
    ensures Transfer(st) == if w.ret == -1 then w else Poll(w.st, 0xFFFF)
  {
  }

  /** One poll of ad9250_transfer, given what its read returned. */
  lemma PollStep(st: DevState, timeout: nat, rd: Outcome)
    requires timeout >= 1 && (DeviceUpdateReg(); rd == Read(st, REG_DEVICE_UPDATE))
    ensures Poll(st, timeout)
            == if rd.ret == -1 then rd
               else if SwBit(rd.ret) == 1 && timeout - 1 != 0 then Poll(rd.st, timeout - 1)
               else Outcome(rd.st, 0)
  {
  }

  // ---------------------------------------------------------- soft reset

  predicate ResetPending(ret: int)
  {
    (ret % 256) as bv8 & SPI_CFG_SOFT_RST as bv8 != 0
  }

  /** The do-while loop of ad9250_soft_reset with `timeout` passes left;
      its value is the last register value read. */
  function ResetPoll(st: DevState, timeout: nat): Outcome
    requires timeout >= 1
    decreases timeout
  {
    SpiCfgReg();
    var rd := Read(st, REG_SPI_CFG);
    if rd.ret == -1 then rd
    else if ResetPending(rd.ret) && timeout - 1 != 0 then ResetPoll(rd.st, timeout - 1)
    else rd
  }

  /** ad9250_soft_reset. */
  function SoftReset(st: DevState): Outcome
    requires Wf(st)
  {
    SpiCfgReg();
    var w := Write(st, REG_SPI_CFG, SPI_CFG_SOFT_RST);
    if w.ret == -1 then w else ResetPoll(w.st, 0xFFFF)
  }

  /** ad9250_soft_reset after its write, given what the write returned. */
  lemma SoftResetStep(st: DevState, w: Outcome)
    requires Wf(st) && (SpiCfgReg(); w == Write(st, REG_SPI_CFG, SPI_CFG_SOFT_RST))
    ensures SoftReset(st) == if w.ret == -1 then w else ResetPoll(w.st, 0xFFFF)
  {
  }

  /** One poll of ad9250_soft_reset, given what its read returned. */
  lemma ResetPollStep(st: DevState, timeout: nat, rd: Outcome)
    requires timeout >= 1 && (SpiCfgReg(); rd == Read(st, REG_SPI_CFG))
    ensures ResetPoll(st, timeout)
            == if rd.ret == -1 then rd
               else if ResetPending(rd.ret) && timeout - 1 != 0 then ResetPoll(rd.st, timeout - 1)
               else rd
  {
  }

  // ----------------------------------------------------- frames per multiframe

  /** The k_reg_val ad9250_jesd204b_set_frames computes for 0 <= k <= 32. */
  function RoundK(k: int): int
  {
    var mod4 := k % 4;
    if mod4 == 0 then k
    else if mod4 < 2 then k - mod4
    else k + (4 - mod4)
  }

  /** ad9250_jesd204b_set_frames: in range, write K - 1 and return K;
      otherwise return what reading the K register gives. */
  function SetFrames(st: DevState, k: int): Outcome
    requires Wf(st)
  {
    ParamKReg();
    if 0 <= k <= 32 then
      var w := Write(st, REG_204B_PARAM_K, RoundK(k) - 1);
      if w.ret == -1 then w else Outcome(w.st, RoundK(k))
    else Read(st, REG_204B_PARAM_K)
  }

  // -------------------------------------------------------- user pattern

  /** The register ad9250_set_user_pattern writes: the encoded address of
      user pattern 1 plus twice the pattern number. */
  function UserPatternReg(patternNo: int): int
  {
    REG_USER_TEST1 + 2 * patternNo
  }

  /** ad9250_set_user_pattern: one write, no range check. */
  function SetUserPattern(st: DevState, patternNo: int, pattern: int): Outcome
    requires Wf(st) && ValidReg(UserPatternReg(patternNo))
  {
    Write(st, UserPatternReg(patternNo), pattern)
  }
}
