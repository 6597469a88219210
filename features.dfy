// The range-gated feature accessors of the AD9250 driver. Each C function
// follows one pattern: an argument inside the documented range is encoded
// into one register write (usually a set_bits on a field), an argument
// outside it turns the call into a read that decodes the field. The pattern
// is written once, as Access, and each accessor is a row of the table
// Feature. Field masks come from ad9250.h, which is not part of this model:
// where the C code shows the shift (`>> 2`) or the width (`(0xF)`) the table
// agrees with it, and the positions of single-bit flags follow the AD9250
// datasheet.

module Features {
  import opened Bus
  import opened RegMap
  import opened Ad9250Spec

  /** A bit field of a one-byte register: its mask in place, and its shift. */
  datatype Field = Field(mask: bv8, shift: bv8)

  predicate ValidField(f: Field)
  {
    f.shift < 8 && f.mask != 0
  }

  /** The two's-complement low byte of an int32, as bits. */
  function Low8(x: int): bv8
  {
    (x % 256) as bv8
  }

  /** The field macro on bits: ((y) << shift) & mask. */
  function Pack(f: Field, y: bv8): bv8
    requires ValidField(f)
  {
    (y << f.shift) & f.mask
  }

  /** Reading a field back out of a register byte: (b & mask) >> shift. */
  function Unpack(f: Field, b: bv8): bv8
    requires ValidField(f)
  {
    (b & f.mask) >> f.shift
  }

  /** The field macro applied to an argument, taken on the low byte of x. */
  function Place(f: Field, x: int): Byte
    requires ValidField(f)
  {
    Pack(f, Low8(x)) as int
  }

  /** How the in-range branch changes the register. */
  datatype Setter =
    | SetField(field: Field)    // set_bits(reg, FIELD(x), FIELD mask)
    | WriteWhole                // write(reg, x)
    | WriteField(field: Field)  // write(reg, FIELD(x))

  /** How the out-of-range branch turns the register value into a result. */
  datatype Getter =
    | Shifted(field: Field)     // (ret & mask) >> shift
    | NonZero(field: Field)     // (ret & mask) != 0
    | Raw                       // ret itself

  /** One accessor: its register, its range lo..hi, its two branches, and
      whether the set branch returns the status of the write (one accessor
      drops it and returns 0). */
  datatype Accessor = Accessor(reg: int, lo: int, hi: int, setter: Setter, getter: Getter,
                               reportsStatus: bool)

  predicate ValidAccessor(acc: Accessor)
  {
    && ValidReg(acc.reg)
    && (acc.setter.SetField? || acc.setter.WriteField? ==> ValidField(acc.setter.field))
    && (acc.getter.Shifted? || acc.getter.NonZero? ==> ValidField(acc.getter.field))
  }

  function Decode(g: Getter, raw: int): int
    requires g.Shifted? || g.NonZero? ==> ValidField(g.field)
  {
    match g
    case Shifted(f) => Unpack(f, Low8(raw)) as int
    case NonZero(f) => if Low8(raw) & f.mask != 0 then 1 else 0
    case Raw => raw
  }

  /** The shared shape of the feature accessors. */
  function Access(st: DevState, acc: Accessor, x: int): (r: Outcome)
    requires Wf(st) && ValidAccessor(acc)
    ensures Wf(r.st)
  {
    if acc.lo <= x <= acc.hi then
      var r :=
        match acc.setter
        case SetField(f) => SetBits(st, acc.reg, Place(f, x), f.mask as int)
        case WriteWhole => Write(st, acc.reg, x)
        case WriteField(f) => Write(st, acc.reg, Place(f, x));
      if acc.reportsStatus then r else Outcome(r.st, 0)
    else
      var rd := Read(st, acc.reg);
      if rd.ret == -1 then rd else Outcome(rd.st, Decode(acc.getter, rd.ret))
  }

  /** The C functions that follow the pattern. */
  datatype FeatureName =
    | ChipPwrMode | SelectChannel | TestMode | OffsetAdj
    | OutputDisable | OutputInvert | OutputFormat | ResetPn9 | ResetPn23
    | BistEnable | BistReset | Jesd204bPwrMode | Jesd204bInjectionPoint
    | Jesd204bTestMode | Jesd204bInvertLogic | DccEnable | DccBandwidth | DccFreeze

  function Feature(name: FeatureName): (acc: Accessor)
    ensures ValidAccessor(acc)
  {
    match name
    // ad9250_chip_pwr_mode: 0..2 into PDWN bits 0..1
    case ChipPwrMode => Accessor(REG_PDWN, 0, 2, SetField(Field(0x03, 0)), Shifted(Field(0x03, 0)), true)
    // ad9250_select_channel_for_config: 1..3 written whole; read back & (ADC_A | ADC_B)
    case SelectChannel => Accessor(REG_CH_INDEX, 1, 3, WriteWhole, Shifted(Field(0x03, 0)), true)
    // ad9250_test_mode: 0..15 into TEST bits 0..3
    case TestMode => Accessor(REG_TEST, 0, 15, SetField(Field(0x0F, 0)), Shifted(Field(0x0F, 0)), true)
    // ad9250_offset_adj: -32..31 written as a 6-bit field; read back raw
    case OffsetAdj => Accessor(REG_OFFSET, -32, 31, WriteField(Field(0x3F, 0)), Raw, true)
    // ad9250_output_disable: flag, bit 4 of OUT_MODE
    case OutputDisable => Accessor(REG_OUT_MODE, 0, 1, SetField(Field(0x10, 4)), NonZero(Field(0x10, 4)), true)
    // ad9250_output_invert: flag, bit 2 of OUT_MODE
    case OutputInvert => Accessor(REG_OUT_MODE, 0, 1, SetField(Field(0x04, 2)), NonZero(Field(0x04, 2)), true)
    // ad9250_output_format: 0..1 into OUT_MODE bit 0
    case OutputFormat => Accessor(REG_OUT_MODE, 0, 1, SetField(Field(0x01, 0)), Shifted(Field(0x01, 0)), true)
    // ad9250_reset_pn9: flag, bit 4 of TEST
    case ResetPn9 => Accessor(REG_TEST, 0, 1, SetField(Field(0x10, 4)), NonZero(Field(0x10, 4)), true)
    // ad9250_reset_pn23: flag, bit 5 of TEST
    case ResetPn23 => Accessor(REG_TEST, 0, 1, SetField(Field(0x20, 5)), NonZero(Field(0x20, 5)), true)
    // ad9250_bist_enable: BIST bit 0
    case BistEnable => Accessor(REG_BIST, 0, 1, SetField(Field(0x01, 0)), Shifted(Field(0x01, 0)), true)
    // ad9250_bist_reset: BIST bit 2
    case BistReset => Accessor(REG_BIST, 0, 1, SetField(Field(0x04, 2)), Shifted(Field(0x04, 2)), true)
    // ad9250_jesd204b_pwr_mode: 0..2 into PDWN bits 2..3
    case Jesd204bPwrMode => Accessor(REG_PDWN, 0, 2, SetField(Field(0x0C, 2)), Shifted(Field(0x0C, 2)), true)
    // ad9250_jesd204b_select_test_injection_point: 1..2 into CTRL3 bits 4..5
    case Jesd204bInjectionPoint =>
      Accessor(REG_204B_CTRL3, 1, 2, SetField(Field(0x30, 4)), Shifted(Field(0x30, 4)), true)
    // ad9250_jesd204b_test_mode: 0..13 into CTRL3 bits 0..3; the set branch returns 0
    case Jesd204bTestMode =>
      Accessor(REG_204B_CTRL3, 0, 13, SetField(Field(0x0F, 0)), Shifted(Field(0x0F, 0)), false)
    // ad9250_jesd204b_invert_logic: flag, bit 1 of CTRL2
    case Jesd204bInvertLogic =>
      Accessor(REG_204B_CTRL2, 0, 1, SetField(Field(0x02, 1)), NonZero(Field(0x02, 1)), true)
    // ad9250_dcc_enable: DCC_CTRL bit 0
    case DccEnable => Accessor(REG_DCC_CTRL, 0, 1, SetField(Field(0x01, 0)), Shifted(Field(0x01, 0)), true)
    // ad9250_dcc_bandwidth: 0..13 into DCC_CTRL bits 2..5
    case DccBandwidth => Accessor(REG_DCC_CTRL, 0, 13, SetField(Field(0x3C, 2)), Shifted(Field(0x3C, 2)), true)
    // ad9250_dcc_freeze: DCC_CTRL bit 6
    case DccFreeze => Accessor(REG_DCC_CTRL, 0, 1, SetField(Field(0x40, 6)), Shifted(Field(0x40, 6)), true)
  }
}
