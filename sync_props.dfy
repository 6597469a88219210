// Properties of the two polling loops of the driver: ad9250_transfer, which
// asks the chip to apply its shadowed registers and waits for the request
// bit, and ad9250_soft_reset, which waits for the reset bits to clear. Both
// give up after 0xFFFF polls without reporting it.

module SyncProps {
  import opened Bus
  import opened Arith
  import opened RegMap
  import opened Ad9250Spec
  import opened Framing
  import opened EngineProps

  /** b1 continues b0: the same failure oracle, and b0's frames as a prefix. */
  predicate Extends(b0: BusState, b1: BusState)
  {
    && b1.fails == b0.fails
    && |b0.sent| <= |b1.sent|
    && b1.sent[..|b0.sent|] == b0.sent
  }

  /** Every exchange after b0 up to b1 succeeded. */
  predicate Clean(b0: BusState, b1: BusState)
  {
    forall j :: |b0.sent| <= j < |b1.sent| ==> j !in b0.fails
  }

  /** Extends and Clean compose along a run. */
  lemma Chain(b0: BusState, b1: BusState, b2: BusState)
    requires Extends(b0, b1) && Extends(b1, b2)
    ensures Extends(b0, b2)
    ensures Clean(b0, b2) <==> Clean(b0, b1) && Clean(b1, b2)
  {
    assert b2.sent[..|b0.sent|] == b2.sent[..|b1.sent|][..|b0.sent|];
  }

  /** A frame loop that stops after its first failing exchange has made a
      clean run exactly when none of its n exchanges failed. */
  lemma AttemptedClean(b0: BusState, b1: BusState, n: nat)
    requires b1.fails == b0.fails
    requires |b1.sent| == |b0.sent| + Attempted(FirstFailure(b0.fails, |b0.sent|, n), n)
    ensures Clean(b0, b1) <==> FirstFailure(b0.fails, |b0.sent|, n) == n
  {
    var k := FirstFailure(b0.fails, |b0.sent|, n);
    if k < n {
      assert |b0.sent| + k in b0.fails;
    }
  }

  /** ad9250_read, any length: the log only grows, the shadow table stays,
      and the result is -1 exactly when one of its exchanges failed. */
  lemma ReadFacts(st: DevState, a: int)
    requires FitsFrames(a)
    ensures Read(st, a).st.shadow == st.shadow
    ensures Extends(st.bus, Read(st, a).st.bus)
    ensures Read(st, a).ret == -1 <==> !Clean(st.bus, Read(st, a).st.bus)
  {
    ReadSendsFrames(st.bus, a);
    AttemptedClean(st.bus, Read(st, a).st.bus, TransfLen(a));
  }

  /** ad9250_write, any length: the log only grows, and the result is -1
      exactly when one of its exchanges failed. */
  lemma WriteFacts(st: DevState, a: int, v: int)
    requires Wf(st) && ValidReg(a)
    ensures Extends(st.bus, Write(st, a, v).st.bus)
    ensures Write(st, a, v).ret == -1 <==> !Clean(st.bus, Write(st, a, v).st.bus)
  {
    if TransfLen(a) > 0 {
      WriteSendsFrames(st.bus, a, v);
      AttemptedClean(st.bus, Write(st, a, v).st.bus, TransfLen(a));
    }
  }

  /** ad9250_set_bits_to_reg returns 0 or -1, and -1 exactly when its read
      or one of its write frames failed; the log only grows. */
  lemma SetBitsFacts(st: DevState, a: int, bits: Byte, mask: Byte)
    requires Wf(st) && ValidReg(a)
    ensures SetBits(st, a, bits, mask).ret in {0, -1}
    ensures Extends(st.bus, SetBits(st, a, bits, mask).st.bus)
    ensures SetBits(st, a, bits, mask).ret == -1 <==> !Clean(st.bus, SetBits(st, a, bits, mask).st.bus)
  {
    var k := ShadowIndex(a);
    if k > 0 {
      WriteFacts(st, a, Merge(st.shadow[k] % 256, mask, bits));
    } else {
      ReadFacts(st, a);
      var rd := Read(st, a);
      if rd.ret != -1 {
        var w := Write(rd.st, a, Merge(rd.ret % 256, mask, bits));
        WriteFacts(rd.st, a, Merge(rd.ret % 256, mask, bits));
        Chain(st.bus, rd.st.bus, w.st.bus);
      }
    }
  }

  /** How many polls the loops allow. */
  const POLL_BUDGET := 0xFFFF

  /** One read of a one-byte register: one exchange, which fails exactly when
      the read returns -1; otherwise the result is the chip's byte. */
  lemma OneRead(st: DevState, a: int)
    requires TransfLen(a) == 1
    ensures Read(st, a).st.shadow == st.shadow
    ensures Extends(st.bus, Read(st, a).st.bus)
    ensures |Read(st, a).st.bus.sent| == |st.bus.sent| + 1
    ensures Read(st, a).ret == -1 <==> |st.bus.sent| in st.bus.fails
    ensures Read(st, a).ret != -1 ==> Read(st, a).ret == Peek(st.bus.regs, Addr(a))
    ensures Read(st, a).st.bus.regs == st.bus.regs
    ensures IsRead(Read(st, a).st.bus.sent[|st.bus.sent|])
  {
    ReadSendsFrames(st.bus, a);
    ReadKeepsRegs(st.bus, a);
    if |st.bus.sent| !in st.bus.fails {
      ReadByte(st, a);
    }
  }

  /** One write of a one-byte register that is not shadowed: one exchange,
      which fails exactly when the write returns -1; no shadow slot changes. */
  lemma OneWrite(st: DevState, a: int, v: int)
    requires Wf(st) && ValidReg(a) && TransfLen(a) == 1 && ShadowIndex(a) == 0
    ensures Write(st, a, v).st.shadow == st.shadow
    ensures Extends(st.bus, Write(st, a, v).st.bus)
    ensures |Write(st, a, v).st.bus.sent| == |st.bus.sent| + 1
    ensures Write(st, a, v).ret in {0, -1}
    ensures Write(st, a, v).ret == -1 <==> |st.bus.sent| in st.bus.fails
    ensures Write(st, a, v).ret != -1 ==> Clean(st.bus, Write(st, a, v).st.bus)
  {
    WriteSendsFrames(st.bus, a, v);
  }

  /** sw_bit is 1 exactly when the register's low byte is exactly 0x01: the
      mask is the register's encoded address, whose low byte is 0xFF, so any
      other bit set beside the update bit ends the wait. */
  lemma SwBitIsWholeByte(ret: int)
    ensures SwBit(ret) == 1 <==> ret % 256 == 1
  {
    var x := ret % 256;
    DeviceUpdateReg();
    assert (REG_DEVICE_UPDATE % 256) as bv8 == 0xFF;
    MaskFF(x as bv8);
    BvOfInt(x);
    assert SwBit(ret) == Signed8(x);
  }

  lemma MaskFF(b: bv8)
    ensures b & 0xFF == b
  {
  }

  lemma {:induction false} PollFacts(st: DevState, timeout: nat)
    requires timeout >= 1
    ensures Poll(st, timeout).ret in {0, -1}
    ensures Poll(st, timeout).st.shadow == st.shadow
    ensures Extends(st.bus, Poll(st, timeout).st.bus)
    ensures |st.bus.sent| < |Poll(st, timeout).st.bus.sent| <= |st.bus.sent| + timeout
    ensures Poll(st, timeout).ret == 0 <==> Clean(st.bus, Poll(st, timeout).st.bus)
    decreases timeout
  {
    DeviceUpdateReg();
    OneRead(st, REG_DEVICE_UPDATE);
    var rd := Read(st, REG_DEVICE_UPDATE);
    PollStep(st, timeout, rd);
    if rd.ret != -1 && SwBit(rd.ret) == 1 && timeout - 1 != 0 {
      PollFacts(rd.st, timeout - 1);
      Chain(st.bus, rd.st.bus, Poll(rd.st, timeout - 1).st.bus);
    }
  }

  /** ad9250_transfer returns 0 or -1 and leaves the shadow table alone. It
      returns -1 exactly when one of its exchanges failed, and 0 when the
      request bit cleared or the poll budget ran out: the two are not told
      apart. It sends the request and at most 0xFFFF polls. */
  lemma TransferFacts(st: DevState)
    requires Wf(st)
    ensures Transfer(st).ret in {0, -1}
    ensures Transfer(st).st.shadow == st.shadow
    ensures Extends(st.bus, Transfer(st).st.bus)
    ensures |st.bus.sent| < |Transfer(st).st.bus.sent| <= |st.bus.sent| + 1 + POLL_BUDGET
    ensures Transfer(st).ret == 0 <==> Clean(st.bus, Transfer(st).st.bus)
  {
    DeviceUpdateReg();
    OneWrite(st, REG_DEVICE_UPDATE, DEVICE_UPDATE_SW);
    var w := Write(st, REG_DEVICE_UPDATE, DEVICE_UPDATE_SW);
    if w.ret != -1 {
      PollFacts(w.st, POLL_BUDGET);
      Chain(st.bus, w.st.bus, Poll(w.st, POLL_BUDGET).st.bus);
    }
  }

  lemma {:induction false} PollStuck(st: DevState, timeout: nat)
    requires timeout >= 1 && Reliable(st.bus, timeout)
    requires Peek(st.bus.regs, Addr(REG_DEVICE_UPDATE)) == DEVICE_UPDATE_SW
    ensures Poll(st, timeout).ret == 0
    ensures |Poll(st, timeout).st.bus.sent| == |st.bus.sent| + timeout
    ensures Poll(st, timeout).st.bus.regs == st.bus.regs
    decreases timeout
  {
    DeviceUpdateReg();
    ReadByte(st, REG_DEVICE_UPDATE);
    var rd := Read(st, REG_DEVICE_UPDATE);
    assert rd.ret == 1;
    SwBitIsWholeByte(rd.ret);
    if timeout > 1 {
      assert Reliable(rd.st.bus, timeout - 1);
      PollStuck(rd.st, timeout - 1);
    }
  }

  /** The early exit of the transfer poll: when the first read succeeds with
      a byte other than 1, the loop stops after that one frame and returns 0,
      with nothing changed but the log. */
  lemma PollExits(st: DevState, timeout: nat)
    requires timeout >= 1 && Reliable(st.bus, 1)
    requires Peek(st.bus.regs, Addr(REG_DEVICE_UPDATE)) != DEVICE_UPDATE_SW
    ensures Poll(st, timeout).ret == 0
    ensures |Poll(st, timeout).st.bus.sent| == |st.bus.sent| + 1
    ensures Poll(st, timeout).st.bus.regs == st.bus.regs
    ensures Poll(st, timeout).st.shadow == st.shadow
  {
    DeviceUpdateReg();
    ReadByte(st, REG_DEVICE_UPDATE);
    var rd := Read(st, REG_DEVICE_UPDATE);
    SwBitIsWholeByte(rd.ret);
    DivModUnique(rd.ret, 256, 0, rd.ret);
    PollStep(st, timeout, rd);
  }

  /** Against a chip that never clears the request bit (the storing transport
      keeps the 1 written to it), ad9250_transfer polls all 0xFFFF times and
      still returns 0. */
  lemma TransferTimesOutSilently(st: DevState)
    requires Wf(st) && Reliable(st.bus, 1 + POLL_BUDGET)
    ensures Transfer(st).ret == 0
    ensures |Transfer(st).st.bus.sent| == |st.bus.sent| + 1 + POLL_BUDGET
    ensures Peek(Transfer(st).st.bus.regs, Addr(REG_DEVICE_UPDATE)) == DEVICE_UPDATE_SW
  {
    DeviceUpdateReg();
    var w := Write(st, REG_DEVICE_UPDATE, DEVICE_UPDATE_SW);
    UpdateCommand(st);
    ReliableLater(st.bus, w.st.bus, POLL_BUDGET, 1);
    PollStuck(w.st, POLL_BUDGET);
    TransferPolls(st);
  }

  /** The update command itself, over a bus that does not fail: it reaches
      the chip in one exchange. */
  lemma UpdateCommand(st: DevState)
    requires Wf(st) && Reliable(st.bus, 1)
    ensures (DeviceUpdateReg(); Write(st, REG_DEVICE_UPDATE, DEVICE_UPDATE_SW).ret == 0)
    ensures Peek(Write(st, REG_DEVICE_UPDATE, DEVICE_UPDATE_SW).st.bus.regs, Addr(REG_DEVICE_UPDATE)) == DEVICE_UPDATE_SW
    ensures Write(st, REG_DEVICE_UPDATE, DEVICE_UPDATE_SW).st.bus.fails == st.bus.fails
    ensures |Write(st, REG_DEVICE_UPDATE, DEVICE_UPDATE_SW).st.bus.sent| == |st.bus.sent| + 1
  {
    DeviceUpdateReg();
    WriteByte(st, REG_DEVICE_UPDATE, DEVICE_UPDATE_SW);
  }

  /** Once its update command is through, ad9250_transfer is the poll. */
  lemma TransferPolls(st: DevState)
    requires Wf(st) && (DeviceUpdateReg(); Write(st, REG_DEVICE_UPDATE, DEVICE_UPDATE_SW).ret == 0)
    ensures Transfer(st) == Poll(Write(st, REG_DEVICE_UPDATE, DEVICE_UPDATE_SW).st, POLL_BUDGET)
  {
  }

  lemma {:induction false} ResetPollFacts(st: DevState, timeout: nat)
    requires timeout >= 1
    ensures ResetPoll(st, timeout).st.shadow == st.shadow
    ensures Extends(st.bus, ResetPoll(st, timeout).st.bus)
    ensures |st.bus.sent| < |ResetPoll(st, timeout).st.bus.sent| <= |st.bus.sent| + timeout
    ensures ResetPoll(st, timeout).ret == -1 <==> !Clean(st.bus, ResetPoll(st, timeout).st.bus)
    ensures ResetPoll(st, timeout).ret != -1 ==> 0 <= ResetPoll(st, timeout).ret < 256
    ensures ResetPoll(st, timeout).ret != -1 && ResetPending(ResetPoll(st, timeout).ret) ==>
              |ResetPoll(st, timeout).st.bus.sent| == |st.bus.sent| + timeout
    ensures ResetPoll(st, timeout).st.bus.regs == st.bus.regs
    ensures ResetPoll(st, timeout).ret != -1 ==>
              ResetPoll(st, timeout).ret == Peek(st.bus.regs, Addr(REG_SPI_CFG))
    decreases timeout
  {
    SpiCfgReg();
    OneRead(st, REG_SPI_CFG);
    var rd := Read(st, REG_SPI_CFG);
    ResetPollStep(st, timeout, rd);
    if rd.ret != -1 && ResetPending(rd.ret) && timeout - 1 != 0 {
      ResetPollFacts(rd.st, timeout - 1);
      Chain(st.bus, rd.st.bus, ResetPoll(rd.st, timeout - 1).st.bus);
    }
  }

  /** ad9250_soft_reset returns -1 exactly when one of its exchanges failed,
      and changes no shadow slot. */
  lemma SoftResetFacts(st: DevState)
    requires Wf(st)
    ensures SoftReset(st).st.shadow == st.shadow
    ensures Extends(st.bus, SoftReset(st).st.bus)
    ensures |st.bus.sent| < |SoftReset(st).st.bus.sent| <= |st.bus.sent| + 1 + POLL_BUDGET
    ensures SoftReset(st).ret == -1 <==> !Clean(st.bus, SoftReset(st).st.bus)
  {
    SpiCfgReg();
    OneWrite(st, REG_SPI_CFG, SPI_CFG_SOFT_RST);
    var w := Write(st, REG_SPI_CFG, SPI_CFG_SOFT_RST);
    var j := |st.bus.sent|;
    if w.ret != -1 {
      var r := ResetPoll(w.st, POLL_BUDGET);
      assert SoftReset(st) == r;
      ResetPollFacts(w.st, POLL_BUDGET);
      Chain(st.bus, w.st.bus, r.st.bus);
    } else {
      assert SoftReset(st) == w;
      assert j in st.bus.fails && j < |w.st.bus.sent|;
    }
  }

  /** Otherwise ad9250_soft_reset returns the last value read from the
      configuration register, which still has a reset bit set only when the
      poll budget ran out. */
  lemma SoftResetResult(st: DevState)
    requires Wf(st)
    ensures SoftReset(st).ret != -1 ==> 0 <= SoftReset(st).ret < 256
    ensures SoftReset(st).ret != -1 ==>
              SoftReset(st).ret == Peek(SoftReset(st).st.bus.regs, Addr(REG_SPI_CFG))
    ensures SoftReset(st).ret != -1 && ResetPending(SoftReset(st).ret) ==>
              |SoftReset(st).st.bus.sent| == |st.bus.sent| + 1 + POLL_BUDGET
  {
    SpiCfgReg();
    OneWrite(st, REG_SPI_CFG, SPI_CFG_SOFT_RST);
    var w := Write(st, REG_SPI_CFG, SPI_CFG_SOFT_RST);
    if w.ret != -1 {
      ResetPollFacts(w.st, POLL_BUDGET);
    }
  }

  /** The reset command byte has the reset bits set. */
  lemma SoftRstPending(ret: int)
    requires ret == SPI_CFG_SOFT_RST
    ensures ResetPending(ret)
  {
  }

  lemma {:induction false} ResetPollStuck(st: DevState, timeout: nat)
    requires timeout >= 1 && Reliable(st.bus, timeout)
    requires Peek(st.bus.regs, Addr(REG_SPI_CFG)) == SPI_CFG_SOFT_RST
    ensures ResetPoll(st, timeout).ret == SPI_CFG_SOFT_RST
    ensures |ResetPoll(st, timeout).st.bus.sent| == |st.bus.sent| + timeout
    ensures ResetPoll(st, timeout).st.bus.regs == st.bus.regs
    decreases timeout
  {
    SpiCfgReg();
    ReadByte(st, REG_SPI_CFG);
    var rd := Read(st, REG_SPI_CFG);
    assert rd.ret == SPI_CFG_SOFT_RST;
    assert ResetPending(rd.ret);
    if timeout > 1 {
      assert Reliable(rd.st.bus, timeout - 1);
      ResetPollStuck(rd.st, timeout - 1);
    }
  }

  /** The early exit of the reset poll: when the first read succeeds with
      the reset bits clear, the loop stops after that one frame and returns
      the byte read, with nothing changed but the log. */
  lemma ResetPollExits(st: DevState, timeout: nat)
    requires timeout >= 1 && Reliable(st.bus, 1)
    requires !ResetPending(Peek(st.bus.regs, Addr(REG_SPI_CFG)))
    ensures ResetPoll(st, timeout).ret == Peek(st.bus.regs, Addr(REG_SPI_CFG))
    ensures |ResetPoll(st, timeout).st.bus.sent| == |st.bus.sent| + 1
    ensures ResetPoll(st, timeout).st.bus.regs == st.bus.regs
    ensures ResetPoll(st, timeout).st.shadow == st.shadow
  {
    SpiCfgReg();
    ReadByte(st, REG_SPI_CFG);
    var rd := Read(st, REG_SPI_CFG);
    ResetPollStep(st, timeout, rd);
  }

  /** Against a chip that never clears the reset bits, ad9250_soft_reset polls
      all 0xFFFF times and returns the value it last read, reset bits set,
      instead of an error. */
  lemma SoftResetTimesOut(st: DevState)
    requires Wf(st) && Reliable(st.bus, 1 + POLL_BUDGET)
    ensures SoftReset(st).ret == SPI_CFG_SOFT_RST
    ensures ResetPending(SoftReset(st).ret)
    ensures |SoftReset(st).st.bus.sent| == |st.bus.sent| + 1 + POLL_BUDGET
  {
    SpiCfgReg();
    var w := Write(st, REG_SPI_CFG, SPI_CFG_SOFT_RST);
    ResetCommand(st);
    ReliableLater(st.bus, w.st.bus, POLL_BUDGET, 1);
    ResetPollStuck(w.st, POLL_BUDGET);
    SoftResetPolls(st);
    SoftRstPending(ResetPoll(w.st, POLL_BUDGET).ret);
  }

  /** Once its reset command is through, ad9250_soft_reset is the poll. */
  lemma SoftResetPolls(st: DevState)
    requires Wf(st) && (SpiCfgReg(); Write(st, REG_SPI_CFG, SPI_CFG_SOFT_RST).ret == 0)
    ensures SoftReset(st) == ResetPoll(Write(st, REG_SPI_CFG, SPI_CFG_SOFT_RST).st, POLL_BUDGET)
  {
    SpiCfgReg();
  }

  /** The reset command itself, over a bus that does not fail: it reaches the
      chip in one exchange. */
  lemma ResetCommand(st: DevState)
    requires Wf(st) && Reliable(st.bus, 1)
    ensures (SpiCfgReg(); Write(st, REG_SPI_CFG, SPI_CFG_SOFT_RST).ret == 0)
    ensures Peek(Write(st, REG_SPI_CFG, SPI_CFG_SOFT_RST).st.bus.regs, Addr(REG_SPI_CFG)) == SPI_CFG_SOFT_RST
    ensures Write(st, REG_SPI_CFG, SPI_CFG_SOFT_RST).st.bus.fails == st.bus.fails
    ensures |Write(st, REG_SPI_CFG, SPI_CFG_SOFT_RST).st.bus.sent| == |st.bus.sent| + 1
  {
    SpiCfgReg();
    WriteByte(st, REG_SPI_CFG, SPI_CFG_SOFT_RST);
  }
}
