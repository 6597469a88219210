// Properties of the register engine: how ad9250_read, ad9250_write and
// ad9250_set_bits_to_reg treat the shadow table and the chip's registers.

module EngineProps {
  import opened Bus
  import opened Arith
  import opened RegMap
  import opened Ad9250Spec
  import opened Framing

  /** The old value set_bits merges into: the shadow slot for a shadowed
      register, the chip's byte otherwise. */
  function PrevByte(st: DevState, a: int): Byte
    requires Wf(st) && ValidReg(a)
  {
    var k := ShadowIndex(a);
    if k > 0 then st.shadow[k] % 256 else Peek(st.bus.regs, Addr(a))
  }

  /** Reading a one-byte register returns the chip's byte, never the shadow
      slot, and changes neither the shadow table nor any chip register. */
  lemma ReadByte(st: DevState, a: int)
    requires TransfLen(a) == 1 && Reliable(st.bus, 1)
    ensures Read(st, a).ret == Peek(st.bus.regs, Addr(a))
    ensures Read(st, a).st.shadow == st.shadow
    ensures Read(st, a).st.bus.regs == st.bus.regs
    ensures Read(st, a).st.bus.fails == st.bus.fails
    ensures |Read(st, a).st.bus.sent| == |st.bus.sent| + 1
  {
    ReadValue(st.bus, a);
    ReadSendsFrames(st.bus, a);
    var s := Peeks(st.bus.regs, Addr(a), 0, 1);
    assert s[1..] == [];
  }

  /** ad9250_write stores v in the register's shadow slot before any frame is
      sent, so the slot holds v whatever the bus does; no other slot changes.
      With frames to send it returns 0, or -1 exactly when one of them fails;
      with none it returns the shadow index and leaves the bus alone. */
  lemma WriteThrough(st: DevState, a: int, v: int)
    requires Wf(st) && ValidReg(a)
    ensures var w := Write(st, a, v);
            && Wf(w.st)
            && (ShadowIndex(a) > 0 ==> w.st.shadow[ShadowIndex(a)] == v)
            && (forall i :: 0 <= i < |st.shadow| && i != ShadowIndex(a) ==> w.st.shadow[i] == st.shadow[i])
            && (ShadowIndex(a) == 0 ==> w.st.shadow == st.shadow)
    ensures TransfLen(a) > 0 ==>
              && Write(st, a, v).ret in {0, -1}
              && (Write(st, a, v).ret == -1
                  <==> FirstFailure(st.bus.fails, |st.bus.sent|, TransfLen(a)) < TransfLen(a))
    ensures TransfLen(a) == 0 ==> Write(st, a, v) == Outcome(st.(shadow := ShadowAfterWrite(st.shadow, a, v)), ShadowIndex(a))
  {
    if TransfLen(a) > 0 {
      WriteSendsFrames(st.bus, a, v);
    }
  }

  /** Writing a one-byte register over a bus that does not fail puts the low
      byte of v in the chip and touches no other chip register. */
  lemma WriteByte(st: DevState, a: int, v: int)
    requires Wf(st) && ValidReg(a) && TransfLen(a) == 1 && Reliable(st.bus, 1)
    ensures Write(st, a, v).ret == 0
    ensures Peek(Write(st, a, v).st.bus.regs, Addr(a)) == v % 256
    ensures 0 <= v < 256 ==> Peek(Write(st, a, v).st.bus.regs, Addr(a)) == v
    ensures forall t :: t != Addr(a) ==> Peek(Write(st, a, v).st.bus.regs, t) == Peek(st.bus.regs, t)
    ensures Write(st, a, v).st.bus.fails == st.bus.fails
    ensures |Write(st, a, v).st.bus.sent| == |st.bus.sent| + 1
  {
    WriteStores(st.bus, a, v);
    WriteSendsFrames(st.bus, a, v);
    var regs := Write(st, a, v).st.bus.regs;
    assert Peeks(regs, Addr(a), 0, 1)[0] == Peek(regs, Addr(a));
    assert BytesOf(v, 1)[0] == ByteOf(v, 0);
    if 0 <= v < 256 {
      DivModUnique(v, 256, 0, v);
    }
  }

  /** Merge on bit vectors. */
  function MergeBv(prev: bv8, mask: bv8, bits: bv8): bv8
  {
    (prev & !mask) | bits
  }

  lemma MergeUnfold(prev: Byte, mask: Byte, bits: Byte)
    ensures Merge(prev, mask, bits) == MergeBv(prev as bv8, mask as bv8, bits as bv8) as int
  {
  }

  lemma MergeBvIdempotent(x: bv8, mask: bv8, bits: bv8)
    ensures MergeBv(MergeBv(x, mask, bits), mask, bits) == MergeBv(x, mask, bits)
  {
  }

  lemma MergeBvFields(prev: bv8, mask: bv8, bits: bv8)
    requires bits & !mask == 0
    ensures MergeBv(prev, mask, bits) & mask == bits
    ensures MergeBv(prev, mask, bits) & !mask == prev & !mask
  {
  }

  /** The mask-and-merge of set_bits: bits inside the mask come from `bits`,
      bits outside it keep their old value. */
  lemma MergeFields(prev: Byte, mask: Byte, bits: Byte)
    requires bits as bv8 & !(mask as bv8) == 0
    ensures (Merge(prev, mask, bits) as bv8) & mask as bv8 == bits as bv8
    ensures (Merge(prev, mask, bits) as bv8) & !(mask as bv8) == (prev as bv8) & !(mask as bv8)
  {
    var x := MergeBv(prev as bv8, mask as bv8, bits as bv8);
    MergeUnfold(prev, mask, bits);
    IntOfBv(x);
    MergeBvFields(prev as bv8, mask as bv8, bits as bv8);
  }

  /** Merging the same bits twice is merging them once. */
  lemma MergeIdempotent(prev: Byte, mask: Byte, bits: Byte)
    ensures Merge(Merge(prev, mask, bits), mask, bits) == Merge(prev, mask, bits)
  {
    var once := Merge(prev, mask, bits);
    MergeUnfold(prev, mask, bits);
    MergeUnfold(once, mask, bits);
    IntOfBv(MergeBv(prev as bv8, mask as bv8, bits as bv8));
    MergeBvIdempotent(prev as bv8, mask as bv8, bits as bv8);
  }

  /** set_bits on a shadowed register merges into the shadow slot and sends
      only write frames: it never reads the chip. */
  lemma SetBitsShadowed(st: DevState, a: int, bits: Byte, mask: Byte)
    requires Wf(st) && ValidReg(a) && ShadowIndex(a) > 0 && TransfLen(a) <= Addr(a) + 1
    ensures var r := SetBits(st, a, bits, mask);
            && r.ret in {0, -1}
            && r.st.shadow == st.shadow[ShadowIndex(a) := Merge(st.shadow[ShadowIndex(a)] % 256, mask, bits)]
            && |st.bus.sent| <= |r.st.bus.sent| <= |st.bus.sent| + TransfLen(a)
            && r.st.bus.sent[..|st.bus.sent|] == st.bus.sent
            && (forall j :: |st.bus.sent| <= j < |r.st.bus.sent| ==> !IsRead(r.st.bus.sent[j]))
  {
    var k := ShadowIndex(a);
    var nv := Merge(st.shadow[k] % 256, mask, bits);
    if TransfLen(a) > 0 {
      WriteSendsFrames(st.bus, a, nv);
      var r := SetBits(st, a, bits, mask);
      var m := Attempted(FirstFailure(st.bus.fails, |st.bus.sent|, TransfLen(a)), TransfLen(a));
      WriteFramesAt(a, nv);
      assert r.st.bus.sent == st.bus.sent + WriteFrames(a, nv)[..m];
      forall j | |st.bus.sent| <= j < |r.st.bus.sent|
        ensures !IsRead(r.st.bus.sent[j])
      {
        assert r.st.bus.sent[j] == WriteFrames(a, nv)[j - |st.bus.sent|];
        WriteFrameTargets(a, nv, j - |st.bus.sent|);
      }
    }
  }

  /** set_bits on a one-byte register over a bus that does not fail leaves the
      merge of the old value with `bits` in the chip, and in the shadow slot
      when the register is shadowed. */
  lemma SetBitsStores(st: DevState, a: int, bits: Byte, mask: Byte)
    requires Wf(st) && ValidReg(a) && TransfLen(a) == 1 && Reliable(st.bus, 2)
    ensures SetBits(st, a, bits, mask).ret == 0
    ensures Peek(SetBits(st, a, bits, mask).st.bus.regs, Addr(a)) == Merge(PrevByte(st, a), mask, bits)
    ensures forall t :: t != Addr(a) ==> Peek(SetBits(st, a, bits, mask).st.bus.regs, t) == Peek(st.bus.regs, t)
    ensures SetBits(st, a, bits, mask).st.shadow
            == ShadowAfterWrite(st.shadow, a, Merge(PrevByte(st, a), mask, bits))
    ensures SetBits(st, a, bits, mask).st.bus.fails == st.bus.fails
    ensures |st.bus.sent| < |SetBits(st, a, bits, mask).st.bus.sent| <= |st.bus.sent| + 2
  {
    if ShadowIndex(a) > 0 {
      WriteByte(st, a, Merge(st.shadow[ShadowIndex(a)] % 256, mask, bits));
    } else {
      ReadByte(st, a);
      var rd := Read(st, a);
      assert Reliable(rd.st.bus, 1);
      assert rd.ret % 256 == PrevByte(st, a) by {
        DivModUnique(rd.ret, 256, 0, rd.ret);
      }
      WriteByte(rd.st, a, Merge(rd.ret % 256, mask, bits));
    }
  }

  /** set_bits is idempotent: a second identical call leaves the chip register
      and the shadow table as the first left them. */
  lemma SetBitsIdempotent(st: DevState, a: int, bits: Byte, mask: Byte)
    requires Wf(st) && ValidReg(a) && TransfLen(a) == 1 && Reliable(st.bus, 4)
    ensures var once := SetBits(st, a, bits, mask);
            var twice := SetBits(once.st, a, bits, mask);
            && once.ret == 0 && twice.ret == 0
            && twice.st.shadow == once.st.shadow
            && Peek(twice.st.bus.regs, Addr(a)) == Peek(once.st.bus.regs, Addr(a))
  {
    var once := SetBits(st, a, bits, mask);
    var nv := Merge(PrevByte(st, a), mask, bits);
    SetBitsStores(st, a, bits, mask);
    assert Wf(once.st);
    assert Reliable(once.st.bus, 2);
    SetBitsStores(once.st, a, bits, mask);
    assert PrevByte(once.st, a) == nv by {
      DivModUnique(nv, 256, 0, nv);
    }
    MergeIdempotent(PrevByte(st, a), mask, bits);
  }

  /** On a shadowed register set_bits merges into the shadow slot whatever
      the bus does, so a second identical call leaves the table as the first
      left it, over any bus and for any register length. */
  lemma SetBitsSlotIdempotent(st: DevState, a: int, bits: Byte, mask: Byte)
    requires Wf(st) && ValidReg(a) && ShadowIndex(a) > 0
    ensures var once := SetBits(st, a, bits, mask).st;
            && once.shadow == st.shadow[ShadowIndex(a) := Merge(st.shadow[ShadowIndex(a)] % 256, mask, bits)]
            && SetBits(once, a, bits, mask).st.shadow == once.shadow
  {
    var k := ShadowIndex(a);
    var nv := Merge(st.shadow[k] % 256, mask, bits);
    SetBitsSlot(st, a, bits, mask);
    var once := SetBits(st, a, bits, mask).st;
    SetBitsSlot(once, a, bits, mask);
    DivModUnique(nv, 256, 0, nv);
    MergeIdempotent(st.shadow[k] % 256, mask, bits);
  }

  /** The slot part of set_bits on a shadowed register. */
  lemma SetBitsSlot(st: DevState, a: int, bits: Byte, mask: Byte)
    requires Wf(st) && ValidReg(a) && ShadowIndex(a) > 0
    ensures SetBits(st, a, bits, mask).st.shadow
            == st.shadow[ShadowIndex(a) := Merge(st.shadow[ShadowIndex(a)] % 256, mask, bits)]
  {
    WriteThrough(st, a, Merge(st.shadow[ShadowIndex(a)] % 256, mask, bits));
  }

  /** A set_bits after a write to a shadowed register merges into the value
      written, whether or not the write reached the chip. */
  lemma WriteThenSetBits(st: DevState, a: int, v: int, bits: Byte, mask: Byte)
    requires Wf(st) && ValidReg(a) && ShadowIndex(a) > 0
    ensures var w := Write(st, a, v);
            var r := SetBits(w.st, a, bits, mask);
            r.st.shadow[ShadowIndex(a)] == Merge(v % 256, mask, bits)
  {
    var w := Write(st, a, v);
    WriteThrough(st, a, v);
    SetBitsSlot(w.st, a, bits, mask);
  }

  /** The encoded register 0x200: two bytes at address 0, no shadow slot.
      ad9250_set_user_pattern reaches it with pattern_no == -13. */
  lemma LowRegister()
    ensures Addr(0x200) == 0 && TransfLen(0x200) == 2 && ShadowIndex(0x200) == 0
    ensures ValidReg(0x200) && UserPatternReg(-13) == 0x200
  {
    DivModUnique(0x200, 0x100, 2, 0);
    DivModUnique(2, 0x100, 0, 2);
    DivModUnique(0x200, 0x10000, 0, 0x200);
    DivModUnique(0, 0x100, 0, 0);
  }

  /** A register whose bytes run below address 0 is not read as written.
      ad9250_read's counter starts at READ + ADDR = 0x8000 for address 0, and
      the second frame goes to 0x7FFF: the read bit is gone, so that frame
      stores 0 into chip register 0x7FFF instead of reading. */
  lemma ReadBelowZero(b: BusState)
    requires Reliable(b, 2)
    ensures var r := ReadBus(b, 0x200);
            && !IsRead(r.bus.sent[|b.sent| + 1])
            && r.bus.regs == b.regs[0x7FFF := 0]
            && r.ret == Peek(b.regs, 0) * 256
  {
    LowRegister();
    var rep0 := Exchange(b, FrameAt(0x8000, 0));
    assert FrameAt(0x8000, 0) == Frame(0x80, 0, 0) by { FrameAtBytes(0x8000, 0); }
    assert rep0.ok && rep0.data == Peek(b.regs, 0);
    var rep1 := Exchange(rep0.bus, FrameAt(0x7FFF, 0));
    assert FrameAt(0x7FFF, 0) == Frame(0x7F, 0xFF, 0) by { FrameAtBytes(0x7FFF, 0); }
    assert rep1.ok && rep1.bus.regs == b.regs[0x7FFF := 0];
  }

  /** Likewise ad9250_write's 16-bit counter wraps from 0 to 0xFFFF, a read
      frame: the high byte of v lands in address 0 and the low byte is never
      stored. */
  lemma WriteBelowZero(b: BusState, v: int)
    requires Reliable(b, 2)
    ensures var r := WriteBus(b, 0x200, v);
            && IsRead(r.bus.sent[|b.sent| + 1])
            && r.bus.regs == b.regs[0 := ByteOf(v, 1)]
            && r.ret == 0
  {
    LowRegister();
    var rep0 := Exchange(b, FrameAt(0, ByteOf(v, 1)));
    assert FrameAt(0, ByteOf(v, 1)) == Frame(0, 0, ByteOf(v, 1)) by { FrameAtBytes(0, ByteOf(v, 1)); }
    assert rep0.ok && rep0.bus.regs == b.regs[0 := ByteOf(v, 1)];
    var rep1 := Exchange(rep0.bus, FrameAt(-1, ByteOf(v, 0)));
    assert FrameAt(-1, ByteOf(v, 0)) == Frame(0xFF, 0xFF, ByteOf(v, 0)) by {
      FrameAtBytes(-1, ByteOf(v, 0));
      DivModUnique(-1, 0x10000, -1, 0xFFFF);
      DivModUnique(-1, 256, -1, 0xFF);
    }
    assert rep1.ok && rep1.bus.regs == rep0.bus.regs;
  }

  /** The user-pattern registers for patterns 1..4 are two-byte registers
      outside the shadow table. */
  lemma UserPatternRegs(p: int)
    requires 1 <= p <= 4
    ensures ValidReg(UserPatternReg(p)) && TransfLen(UserPatternReg(p)) == 2
    ensures ShadowIndex(UserPatternReg(p)) == 0 && Addr(UserPatternReg(p)) == 0x1A + 2 * p
  {
    DivModUnique(UserPatternReg(p), 0x100, 2, 0x1A + 2 * p);
    DivModUnique(UserPatternReg(p), 0x10000, 0, UserPatternReg(p));
    DivModUnique(UserPatternReg(p) / 0x100, 0x100, 0, 2);
    DivModUnique(0, 0x100, 0, 0);
  }

  /** ad9250_set_user_pattern over a bus that does not fail returns 0, not
      the pattern, leaves the shadow table alone, and reading the register
      back gives the pattern's low 16 bits. */
  lemma UserPatternRoundTrip(st: DevState, p: int, v: int)
    requires Wf(st) && 1 <= p <= 4 && Reliable(st.bus, 4)
    ensures ValidReg(UserPatternReg(p))
    ensures SetUserPattern(st, p, v).ret == 0
    ensures SetUserPattern(st, p, v).st.shadow == st.shadow
    ensures Read(SetUserPattern(st, p, v).st, UserPatternReg(p)).ret == v % 0x10000
  {
    var a := UserPatternReg(p);
    UserPatternRegs(p);
    WriteStores(st.bus, a, v);
    WriteThenRead(st.bus, a, v);
    assert Pow256(2) == 0x10000;
  }
}
