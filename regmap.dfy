// Register address encoding and the register map of the AD9250 driver.
//
// The driver passes registers around as one integer that packs the
// physical address, the transfer length in bytes and the shadow index.
// ad9250.h, which defines the packing and the register map, is not part of
// this model: the layout below (address in bits 0..7, length in bits 8..15,
// shadow index in bits 16..23) agrees with the `>> 16` that
// ad9250_is_shadow_register applies, and the register constants are the
// AD9250 datasheet's addresses under that layout. The shadow indices of the
// shadowed registers are the slots of the shadow_regs table.

module RegMap {
  import opened Bus
  import opened Arith

  /** Number of slots in the shadow table; slot 0 is unused. */
  const SHADOW_REGISTER_COUNT := 15

  /** Power-on values of the shadow table, slot by slot. */
  const ShadowDefaults: seq<int> :=
    [0,
     0x01,  // clock
     0x00,  // clock divider
     0x00,  // test
     0x00,  // BIST
     0x00,  // offset
     0x01,  // output mode
     0x00,  // VREF
     0x00,  // system control
     0x00,  // DCC control
     0x00,  // DCC value
     0x00,  // fast detect
     0x00,  // fast detect upper threshold
     0x00,  // fast detect lower threshold
     0x00]  // fast detect dwell time

  /** Direction flags added to the physical address of every frame. */
  const READ := 0x8000
  const WRITE := 0x0000

  /** The fields packed into an encoded register address. */
  datatype RegAddr = RegAddr(addr: Byte, len: nat, shadow: nat)

  predicate ValidRegAddr(r: RegAddr)
  {
    r.len <= 3 && r.shadow < SHADOW_REGISTER_COUNT
  }

  function Encode(r: RegAddr): int
  {
    r.shadow * 0x10000 + r.len * 0x100 + r.addr
  }

  /** AD9250_ADDR: the physical address. */
  function Addr(a: int): Byte
  {
    a % 0x100
  }

  /** AD9250_TRANSF_LEN: how many one-byte frames a register takes. */
  function TransfLen(a: int): nat
  {
    a / 0x100 % 0x100
  }

  /** ad9250_is_shadow_register: (SHADOW(0xFF) & a) >> 16, i.e. bits
      16..23 of the two's-complement address; 0 means not shadowed. */
  function ShadowIndex(a: int): nat
  {
    a / 0x10000 % 0x100
  }

  /** Every register of the map can be moved in at most three frames. */
  predicate FitsFrames(a: int)
  {
    TransfLen(a) <= 3
  }

  /** A register the driver can write: it fits the frames and its shadow
      index names a slot of the table. */
  predicate ValidReg(a: int)
  {
    FitsFrames(a) && ShadowIndex(a) < SHADOW_REGISTER_COUNT
  }

  /** Decoding an encoded address gives back its fields. */
  lemma DecodeEncode(r: RegAddr)
    requires ValidRegAddr(r)
    ensures Addr(Encode(r)) == r.addr
    ensures TransfLen(Encode(r)) == r.len
    ensures ShadowIndex(Encode(r)) == r.shadow
    ensures ValidReg(Encode(r))
  {
    var e := Encode(r);
    DivModUnique(e, 0x100, r.shadow * 0x100 + r.len, r.addr);
    DivModUnique(r.shadow * 0x100 + r.len, 0x100, r.shadow, r.len);
    DivModUnique(e, 0x10000, r.shadow, r.len * 0x100 + r.addr);
  }

  /** Two valid register descriptions that encode alike are the same register. */
  lemma EncodeInjective(r1: RegAddr, r2: RegAddr)
    requires ValidRegAddr(r1) && ValidRegAddr(r2)
    requires Encode(r1) == Encode(r2)
    ensures r1 == r2
  {
    DecodeEncode(r1);
    DecodeEncode(r2);
  }

  // The registers the modelled operations use.
  const REG_SPI_CFG       := 0x00_01_00   // SPI configuration
  const REG_CH_INDEX      := 0x00_01_05   // channel index
  const REG_PDWN          := 0x00_01_08   // power modes
  const REG_TEST          := 0x03_01_0D   // test control (shadow slot 3)
  const REG_BIST          := 0x04_01_0E   // BIST enable (shadow slot 4)
  const REG_OFFSET        := 0x05_01_10   // offset adjust (shadow slot 5)
  const REG_OUT_MODE      := 0x06_01_14   // output mode (shadow slot 6)
  const REG_USER_TEST1    := 0x00_02_1A   // user test pattern 1, two bytes
  const REG_DCC_CTRL      := 0x09_01_40   // DC correction control (shadow slot 9)
  const REG_204B_CTRL2    := 0x00_01_60   // JESD204B link control 2
  const REG_204B_CTRL3    := 0x00_01_61   // JESD204B link control 3
  const REG_204B_PARAM_K  := 0x00_01_70   // JESD204B frames per multiframe
  const REG_DEVICE_UPDATE := 0x00_01_FF   // transfer (device update)

  /** Command bits written by the synchronisation and reset operations. */
  const DEVICE_UPDATE_SW := 0x01
  const SPI_CFG_SOFT_RST := 0x24

  /** The update-request register is a one-byte register outside the shadow table. */
  lemma DeviceUpdateReg()
    ensures ValidReg(REG_DEVICE_UPDATE) && TransfLen(REG_DEVICE_UPDATE) == 1
    ensures ShadowIndex(REG_DEVICE_UPDATE) == 0 && Addr(REG_DEVICE_UPDATE) == 0xFF
  {
  }

  /** The SPI configuration register is a one-byte register outside the shadow table. */
  lemma SpiCfgReg()
    ensures ValidReg(REG_SPI_CFG) && TransfLen(REG_SPI_CFG) == 1
    ensures ShadowIndex(REG_SPI_CFG) == 0 && Addr(REG_SPI_CFG) == 0
  {
  }

  /** The frames-per-multiframe register is a one-byte register outside the
      shadow table. */
  lemma ParamKReg()
    ensures ValidReg(REG_204B_PARAM_K) && TransfLen(REG_204B_PARAM_K) == 1
    ensures ShadowIndex(REG_204B_PARAM_K) == 0 && Addr(REG_204B_PARAM_K) == 0x70
  {
  }
}
