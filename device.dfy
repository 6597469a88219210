// The AD9250 device handle and the driver's register engine, written as the
// C driver runs it: the shadow table is an array the methods update in
// place, and every bus operation is a loop of three-byte exchanges through
// a buffer the transport overwrites. Each method is proved to do what the
// matching function of Ad9250Spec describes.

module Ad9250 {
  import opened Bus
  import opened Arith
  import opened RegMap
  import opened Ad9250Spec
  import opened Features
  import opened Framing

  class Device {
    /** dev->shadow_regs */
    const shadow: array<int>
    /** dev->spi_desc */
    const spi: Transport

    ghost predicate Valid()
      reads this
    {
      shadow.Length == SHADOW_REGISTER_COUNT
    }

    /** The state the functions of Ad9250Spec speak about. */
    function State(): DevState
      reads this, shadow, spi
    {
      DevState(shadow[..], spi.State())
    }

    /** The shadow-table part of ad9250_setup: every slot starts at its
        power-on default. */
    constructor (spi: Transport)
      ensures Valid() && fresh(shadow) && this.spi == spi
      ensures shadow[..] == ShadowDefaults
      ensures spi.State() == old(spi.State())
    {
      this.spi := spi;
      shadow := new int[SHADOW_REGISTER_COUNT];
      new;
      var i := 0;
      while i < SHADOW_REGISTER_COUNT
        invariant 0 <= i <= SHADOW_REGISTER_COUNT
        invariant forall j :: 0 <= j < i ==> shadow[j] == ShadowDefaults[j]
      {
        shadow[i] := ShadowDefaults[i];
        i := i + 1;
      }
    }

    /** One pass of the loops of ad9250_read and ad9250_write: bits 8..15 and
        0..7 of the address counter and the data byte go into the buffer,
        which is exchanged over the bus. */
    method SendFrame(buffer: array<Byte>, regAddress: int, data: Byte) returns (ret: int)
      requires buffer.Length == 3
      modifies spi, buffer
      ensures ret == 0 || ret == -1
      ensures Exchange(old(spi.State()), FrameAt(regAddress, data)) == Reply(spi.State(), ret == 0, buffer[2])
    {
      buffer[0] := regAddress % 0x10000 / 256;
      buffer[1] := regAddress % 256;
      buffer[2] := data;
      FrameAtBytes(regAddress, data);
      ret := spi.WriteAndRead(buffer);
    }

    /** ad9250_read */
    method Read(a: int) returns (ret: int)
      requires FitsFrames(a)
      modifies spi
      ensures Outcome(State(), ret) == Ad9250Spec.Read(old(State()), a)
    {
      ret := ReadFrames(a);
    }

    /** The frame loop of ad9250_read: frame i reads the 16-bit address
        counter ADDR - i and shifts its byte in below the ones already read;
        the first exchange that fails ends it with -1. */
    method ReadFrames(a: int) returns (ret: int)
      requires FitsFrames(a)
      modifies spi
      ensures Xfer(spi.State(), ret) == ReadBus(old(spi.State()), a)
    {
      var len := TransfLen(a);
      ghost var base := READ + Addr(a);
      var regAddress: int := READ + Addr(a);
      var buffer := new Byte[] [0, 0, 0];
      var regValue: int := 0;
      var i := 0;
      while i < len
        invariant 0 <= i <= len
        invariant regAddress == base - i
        invariant ReadLoop(spi.State(), base, len, i, regValue) == ReadBus(old(spi.State()), a)
        invariant buffer.Length == 3
      {
        ghost var prev := spi.State();
        ret := SendFrame(buffer, regAddress, 0);
        ReadLoopStep(prev, base, len, i, regValue, spi.State(), ret == 0, buffer[2]);
        if ret == -1 {
          return;
        }
        regAddress := regAddress - 1;
        regValue := regValue * 256 + buffer[2];
        i := i + 1;
      }
      ret := regValue;
    }

    /** The frame loop of ad9250_write: byte len-1-i of v goes to the 16-bit
        address counter ADDR - i, most significant byte first; the first
        exchange that fails ends it with -1. */
    method WriteFrames(a: int, v: int) returns (ret: int)
      requires FitsFrames(a) && TransfLen(a) > 0
      modifies spi
      ensures Xfer(spi.State(), ret) == WriteBus(old(spi.State()), a, v)
    {
      var len := TransfLen(a);
      ghost var counter := WRITE + Addr(a);
      var regAddress: int := (WRITE + Addr(a)) % 0x10000;
      var txBuffer := new Byte[] [0, 0, 0];
      ret := 0;
      var i := 0;
      while i < len
        invariant 0 <= i <= len
        invariant counter == WRITE + Addr(a) - i && regAddress == counter % 0x10000
        invariant WriteLoop(spi.State(), WRITE + Addr(a), v, len, i) == WriteBus(old(spi.State()), a, v)
        invariant ret == 0
        invariant txBuffer.Length == 3
      {
        var regValue := ByteOf(v, len - i - 1);
        ghost var prev := spi.State();
        FrameAtWord(regAddress, counter, regValue);
        ret := SendFrame(txBuffer, regAddress, regValue);
        WriteLoopStep(prev, WRITE + Addr(a), v, len, i, spi.State(), ret == 0, txBuffer[2]);
        if ret == -1 {
          return;
        }
        CounterDecrement(regAddress, counter, counter - 1);
        regAddress := (regAddress - 1) % 0x10000;
        counter := counter - 1;
        i := i + 1;
      }
    }

    /** ad9250_write: the shadow slot first, then the frames. With no frame
        to send, the result is what ad9250_is_shadow_register returned. */
    method Write(a: int, v: int) returns (ret: int)
      requires Valid() && ValidReg(a)
      modifies shadow, spi
      ensures Outcome(State(), ret) == Ad9250Spec.Write(old(State()), a, v)
    {
      ret := ShadowIndex(a);
      if ret > 0 {
        shadow[ret] := v;
      }
      if TransfLen(a) > 0 {
        ret := WriteFrames(a, v);
      }
    }

    /** ad9250_set_bits_to_reg */
    method SetBitsToReg(a: int, bits: Byte, mask: Byte) returns (ret: int)
      requires Valid() && ValidReg(a)
      modifies shadow, spi
      ensures Outcome(State(), ret) == SetBits(old(State()), a, bits, mask)
    {
      var regValue: Byte;
      ret := ShadowIndex(a);
      if ret > 0 {
        regValue := shadow[ret] % 256;
      } else {
        ret := Read(a);
        if ret == -1 {
          return;
        }
        regValue := ret % 256;
      }
      regValue := Merge(regValue, mask, bits);
      ret := Write(a, regValue);
      if ret == -1 {
        return;
      }
      ret := 0;
    }

    /** ad9250_transfer */
    method Transfer() returns (ret: int)
      requires Valid()
      modifies shadow, spi
      ensures Outcome(State(), ret) == Ad9250Spec.Transfer(old(State()))
    {
      var timeout := 0xFFFF;
      ghost var start := State();
      ret := Write(REG_DEVICE_UPDATE, DEVICE_UPDATE_SW);
      TransferStep(start, Outcome(State(), ret));
      if ret == -1 {
        return;
      }
      while true
        invariant Valid()
        invariant 1 <= timeout <= 0xFFFF
        invariant Poll(State(), timeout) == Ad9250Spec.Transfer(old(State()))
        decreases timeout
      {
        ghost var before := State();
        ret := Read(REG_DEVICE_UPDATE);
        PollStep(before, timeout, Outcome(State(), ret));
        if ret == -1 {
          return;
        }
        var swBit := SwBit(ret);
        timeout := timeout - 1;
        if !(swBit == 1 && timeout != 0) {
          break;
        }
      }
      ret := 0;
    }

    /** ad9250_soft_reset */
    method SoftReset() returns (ret: int)
      requires Valid()
      modifies shadow, spi
      ensures Outcome(State(), ret) == Ad9250Spec.SoftReset(old(State()))
    {
      var timeout := 0xFFFF;
      ghost var start := State();
      ret := Write(REG_SPI_CFG, SPI_CFG_SOFT_RST);
      SoftResetStep(start, Outcome(State(), ret));
      if ret == -1 {
        return;
      }
      while true
        invariant Valid()
        invariant 1 <= timeout <= 0xFFFF
        invariant ResetPoll(State(), timeout) == Ad9250Spec.SoftReset(old(State()))
        decreases timeout
      {
        ghost var before := State();
        ret := Read(REG_SPI_CFG);
        ResetPollStep(before, timeout, Outcome(State(), ret));
        if ret == -1 {
          return;
        }
        timeout := timeout - 1;
        if !(ResetPending(ret) && timeout != 0) {
          break;
        }
      }
    }

    /** ad9250_jesd204b_set_frames */
    method Jesd204bSetFrames(kFrames: int) returns (ret: int)
      requires Valid()
      modifies shadow, spi
      ensures Outcome(State(), ret) == SetFrames(old(State()), kFrames)
    {
      ghost var before := State();
      ParamKReg();
      var kRegVal := kFrames;
      if 0 <= kFrames <= 32 {
        var mod4 := kFrames % 4;
        if mod4 != 0 {
          if mod4 < 2 {
            kRegVal := kRegVal - mod4;
          } else {
            kRegVal := kRegVal + (4 - mod4);
          }
        }
        assert kRegVal == RoundK(kFrames);
        ret := Write(REG_204B_PARAM_K, kRegVal - 1);
        ghost var w := Ad9250Spec.Write(before, REG_204B_PARAM_K, RoundK(kFrames) - 1);
        assert Outcome(State(), ret) == w;
        if ret == -1 {
          return;
        }
        ret := kRegVal;
      } else {
        ret := Read(REG_204B_PARAM_K);
      }
    }

    /** ad9250_set_user_pattern */
    method SetUserPattern(patternNo: int, userPattern: int) returns (ret: int)
      requires Valid() && ValidReg(UserPatternReg(patternNo))
      modifies shadow, spi
      ensures Outcome(State(), ret) == Ad9250Spec.SetUserPattern(old(State()), patternNo, userPattern)
    {
      var patternAddress := REG_USER_TEST1 + 2 * patternNo;
      ret := Write(patternAddress, userPattern);
    }

    /** The range-gated feature accessors (ad9250_chip_pwr_mode, ad9250_test_mode,
        ad9250_dcc_bandwidth, ...): the one selected by `name`. */
    method Feature(name: FeatureName, x: int) returns (ret: int)
      requires Valid()
      modifies shadow, spi
      ensures Outcome(State(), ret) == Access(old(State()), Features.Feature(name), x)
    {
      ret := Gated(Features.Feature(name), x);
    }

    /** The shared shape of those accessors: an argument inside the accepted
        range goes to the register, any other reads the setting back. */
    method Gated(acc: Accessor, x: int) returns (ret: int)
      requires Valid() && ValidAccessor(acc)
      modifies shadow, spi
      ensures Outcome(State(), ret) == Access(old(State()), acc, x)
    {
      if acc.lo <= x <= acc.hi {
        match acc.setter {
          case SetField(f) =>
            ret := SetBitsToReg(acc.reg, Place(f, x), f.mask as int);
          case WriteWhole =>
            ret := Write(acc.reg, x);
          case WriteField(f) =>
            ret := Write(acc.reg, Place(f, x));
        }
        if !acc.reportsStatus {
          ret := 0;
        }
      } else {
        ret := Read(acc.reg);
        if ret == -1 {
          return;
        }
        ret := Decode(acc.getter, ret);
      }
    }
  }
}
