// Properties of the range-gated feature accessors: what the set branch
// leaves in the register, that the get branch reads back what the set
// branch stored, and what each branch returns.

module FeatureProps {
  import opened Bus
  import opened Arith
  import opened RegMap
  import opened Ad9250Spec
  import opened Features
  import opened Framing
  import opened EngineProps
  import opened SyncProps

  /** The largest value a field holds: its mask shifted down. */
  function FieldMax(f: Field): int
    requires ValidField(f)
  {
    (f.mask >> f.shift) as int
  }

  /** The mask is one run of set bits starting at the shift. */
  predicate Aligned(f: Field)
    requires ValidField(f)
  {
    var w := f.mask >> f.shift;
    && f.mask == w << f.shift
    && w & (w + 1) == 0
  }

  /** Packing a value into an aligned field and unpacking it gives it
      back, and sets nothing outside the mask. */
  lemma PackUnpack(f: Field, y: bv8)
    requires ValidField(f) && Aligned(f) && y <= f.mask >> f.shift
    ensures Unpack(f, Pack(f, y)) == y
    ensures Pack(f, y) & !f.mask == 0
    ensures Pack(f, y) == 0 <==> y == 0
  {
  }

  /** Unpacking sees only the bits inside the mask. */
  lemma UnpackMerged(f: Field, prev: bv8, pb: bv8)
    requires ValidField(f) && pb & !f.mask == 0
    ensures Unpack(f, MergeBv(prev, f.mask, pb)) == Unpack(f, pb)
    ensures MergeBv(prev, f.mask, pb) & f.mask == pb
  {
  }

  /** A field at bit 0 unpacks a value that fits in it as itself. */
  lemma UnpackWhole(f: Field, y: bv8)
    requires ValidField(f) && Aligned(f) && f.shift == 0 && y <= f.mask
    ensures Unpack(f, y) == y
  {
  }

  /** An unpacked field fits under the field's largest value. */
  lemma UnpackBound(f: Field, b: bv8)
    requires ValidField(f)
    ensures Unpack(f, b) <= f.mask >> f.shift
  {
  }

  /** The low byte of a value that is already a byte is the value. */
  lemma Low8OfByte(x: int)
    requires 0 <= x < 256
    ensures Low8(x) as int == x
  {
    DivModUnique(x, 256, 0, x);
    BvOfInt(x);
  }

  /** The same for a value given as a byte. */
  lemma Low8Byte(x: Byte)
    ensures Low8(x) == x as bv8
  {
    DivModUnique(x, 256, 0, x);
  }

  /** The field macro in bit-vector terms. */
  lemma PlaceUnfold(f: Field, x: int)
    requires ValidField(f)
    ensures Place(f, x) as bv8 == Pack(f, Low8(x))
  {
    IntOfBv(Pack(f, Low8(x)));
  }

  /** The field macro puts an in-range x inside the mask and nothing outside
      it; unpacking gives x back, and it is zero only for x = 0. */
  lemma PlaceBits(f: Field, x: int)
    requires ValidField(f) && Aligned(f) && 0 <= x <= FieldMax(f)
    ensures (Place(f, x) as bv8) & !f.mask == 0
    ensures Unpack(f, Place(f, x) as bv8) as int == x
    ensures Place(f, x) == 0 <==> x == 0
  {
    var y := Low8(x);
    Low8OfByte(x);
    assert y <= f.mask >> f.shift by {
      BvLe(y, f.mask >> f.shift);
    }
    PlaceUnfold(f, x);
    PackUnpack(f, y);
    var p := Pack(f, y);
    assert Place(f, x) == p as int;
    ZeroOfBv(p);
    ZeroOfBv(y);
  }

  /** The register byte set_bits leaves, in bit-vector terms. */
  lemma MergeOfField(f: Field, prev: Byte, x: int, pb: bv8)
    requires ValidField(f) && Place(f, x) as bv8 == pb
    ensures Merge(prev, f.mask as int, Place(f, x)) as bv8 == MergeBv(prev as bv8, f.mask, pb)
  {
    IntOfBv(f.mask);
    MergeUnfold(prev, f.mask as int, Place(f, x));
    IntOfBv(MergeBv(prev as bv8, f.mask, pb));
  }

  /** The low byte of the merged register value, in bit-vector terms. */
  lemma MergedLow8(f: Field, prev: Byte, x: int)
    requires ValidField(f)
    ensures Low8(Merge(prev, f.mask as int, Place(f, x)))
            == MergeBv(prev as bv8, f.mask, Place(f, x) as bv8)
  {
    MergeOfField(f, prev, x, Place(f, x) as bv8);
    Low8Byte(Merge(prev, f.mask as int, Place(f, x)));
  }

  /** Decoding a byte whose field holds the packed pattern pb of x. */
  lemma DecodeMerged(f: Field, raw: int, prev: bv8, pb: bv8, x: int)
    requires ValidField(f) && pb & !f.mask == 0 && Unpack(f, pb) as int == x
    requires Low8(raw) == MergeBv(prev, f.mask, pb)
    requires pb == 0 <==> x == 0
    ensures Decode(Shifted(f), raw) == x
    ensures Decode(NonZero(f), raw) == if x == 0 then 0 else 1
  {
    UnpackMerged(f, prev, pb);
  }

  /** The packed pattern of an in-range x, as the decoders see it. */
  lemma PlacePattern(f: Field, x: int)
    requires ValidField(f) && Aligned(f) && 0 <= x <= FieldMax(f)
    ensures var pb := Place(f, x) as bv8;
            pb & !f.mask == 0 && Unpack(f, pb) as int == x && (pb == 0 <==> x == 0)
  {
    PlaceBits(f, x);
    IntOfBv(Place(f, x) as bv8);
  }

  /** The read branch decodes a field that the set branch merged into any
      old register value: the value set is the value read. */
  lemma FieldRoundTrip(f: Field, prev: Byte, x: int)
    requires ValidField(f) && Aligned(f) && 0 <= x <= FieldMax(f)
    ensures Decode(Shifted(f), Merge(prev, f.mask as int, Place(f, x))) == x
  {
    MergedLow8(f, prev, x);
    PlacePattern(f, x);
    DecodeMerged(f, Merge(prev, f.mask as int, Place(f, x)), prev as bv8, Place(f, x) as bv8, x);
  }

  /** A flag reads back as the 0 or 1 that was set. */
  lemma FlagRoundTrip(f: Field, prev: Byte, x: int)
    requires ValidField(f) && Aligned(f) && 0 <= x <= 1 && x <= FieldMax(f)
    ensures Decode(NonZero(f), Merge(prev, f.mask as int, Place(f, x))) == x
  {
    MergedLow8(f, prev, x);
    PlacePattern(f, x);
    DecodeMerged(f, Merge(prev, f.mask as int, Place(f, x)), prev as bv8, Place(f, x) as bv8, x);
  }

  // ------------------------------------------------------- the accessor table

  /** What makes an accessor's read branch the inverse of its set branch:
      a one-byte register; a set_bits accessor reads back the field it sets,
      the field is one run of bits and the range fits in it (a flag's in
      0..1); an accessor that writes the whole register reads it back
      through a field at bit 0 that holds the range; one that writes a field
      reads the register back raw. */
  predicate Coherent(acc: Accessor)
  {
    && ValidAccessor(acc)
    && TransfLen(acc.reg) == 1
    && match acc.setter
       case SetField(f) =>
         && !acc.getter.Raw? && acc.getter.field == f
         && Aligned(f) && 0 <= acc.lo && acc.hi <= FieldMax(f)
         && (acc.getter.NonZero? ==> acc.hi <= 1)
       case WriteWhole =>
         && acc.getter.Shifted? && acc.getter.field.shift == 0
         && Aligned(acc.getter.field) && 0 <= acc.lo && acc.hi <= FieldMax(acc.getter.field)
       case WriteField(f) =>
         acc.getter.Raw?
  }

  /** Every accessor of the table is coherent. */
  lemma TableCoherent(name: FeatureName)
    ensures Coherent(Feature(name))
  {
    match name {
      case ChipPwrMode => PowerCoherent(name);
      case SelectChannel => PowerCoherent(name);
      case Jesd204bPwrMode => PowerCoherent(name);
      case TestMode => TestCoherent(name);
      case ResetPn9 => TestCoherent(name);
      case ResetPn23 => TestCoherent(name);
      case OffsetAdj => OutputCoherent(name);
      case OutputDisable => OutputCoherent(name);
      case OutputInvert => OutputCoherent(name);
      case OutputFormat => OutputCoherent(name);
      case BistEnable => LinkCoherent(name);
      case BistReset => LinkCoherent(name);
      case Jesd204bInjectionPoint => LinkCoherent(name);
      case Jesd204bTestMode => LinkCoherent(name);
      case Jesd204bInvertLogic => LinkCoherent(name);
      case DccEnable => DccCoherent(name);
      case DccBandwidth => DccCoherent(name);
      case DccFreeze => DccCoherent(name);
    }
  }

  /** The power-down and channel accessors are coherent. */
  lemma PowerCoherent(name: FeatureName)
    requires name.ChipPwrMode? || name.SelectChannel? || name.Jesd204bPwrMode?
    ensures Coherent(Feature(name))
  {
  }

  /** The test-register accessors are coherent. */
  lemma TestCoherent(name: FeatureName)
    requires name.TestMode? || name.ResetPn9? || name.ResetPn23?
    ensures Coherent(Feature(name))
  {
  }

  /** The offset and output-mode accessors are coherent. */
  lemma OutputCoherent(name: FeatureName)
    requires name.OffsetAdj? || name.OutputDisable? || name.OutputInvert? || name.OutputFormat?
    ensures Coherent(Feature(name))
  {
  }

  /** The BIST and JESD204B control accessors are coherent. */
  lemma LinkCoherent(name: FeatureName)
    requires name.BistEnable? || name.BistReset? || name.Jesd204bInjectionPoint? || name.Jesd204bTestMode? || name.Jesd204bInvertLogic?
    ensures Coherent(Feature(name))
  {
  }

  /** The DC-correction accessors are coherent. */
  lemma DccCoherent(name: FeatureName)
    requires name.DccEnable? || name.DccBandwidth? || name.DccFreeze?
    ensures Coherent(Feature(name))
  {
  }

  /** What the read branch reports for a register the set branch left
      holding x: x itself, except for an accessor that writes a field and
      reads the register raw, which reports the field pattern of x. */
  function Echo(acc: Accessor, x: int): int
    requires ValidAccessor(acc)
  {
    if acc.setter.WriteField? then Place(acc.setter.field, x) else x
  }

  /** The offset adjustment is such an accessor: it reports an offset as its
      6-bit two's-complement pattern, so -1 reads back as 63. */
  lemma OffsetEcho(x: int)
    ensures Echo(Feature(OffsetAdj), x) == x % 64
  {
    var z := x % 256;
    var y := z as bv8;
    assert y as int == z by {
      BvOfInt(z);
    }
    assert Place(Field(0x3F, 0), x) == (y & 0x3F) as int;
    LowSixBits(y);
    DivModUnique(x, 64, 4 * (x / 256) + z / 64, z % 64);
  }

  /** The byte the set branch leaves in the register, given its old byte. */
  function StoredByte(acc: Accessor, prev: Byte, x: int): Byte
    requires ValidAccessor(acc)
  {
    match acc.setter
    case SetField(f) => Merge(prev, f.mask as int, Place(f, x))
    case WriteWhole => x % 256
    case WriteField(f) => Place(f, x)
  }

  /** For a coherent accessor and an in-range argument, the read branch
      decodes from the stored byte the value the set branch was given,
      whatever the register held before. */
  lemma RoundTrip(acc: Accessor, prev: Byte, x: int)
    requires Coherent(acc) && acc.lo <= x <= acc.hi
    ensures Decode(acc.getter, StoredByte(acc, prev, x)) == Echo(acc, x)
  {
    match acc.setter
    case SetField(f) =>
      if acc.getter.Shifted? {
        FieldRoundTrip(f, prev, x);
      } else {
        FlagRoundTrip(f, prev, x);
      }
    case WriteWhole =>
      var f := acc.getter.field;
      var y := Low8(x);
      assert x % 256 == x by {
        DivModUnique(x, 256, 0, x);
      }
      Low8OfByte(x);
      assert y <= f.mask by {
        BvLe(y, f.mask >> f.shift);
      }
      UnpackWhole(f, y);
    case WriteField(f) =>
  }

  /** Every accessor of the driver reads back what it set, except
      offset_adj, which reads back the 6-bit pattern of the offset (Echo). */
  lemma FeatureRoundTrip(name: FeatureName, prev: Byte, x: int)
    requires Feature(name).lo <= x <= Feature(name).hi
    ensures Decode(Feature(name).getter, StoredByte(Feature(name), prev, x)) == Echo(Feature(name), x)
  {
    TableCoherent(name);
    RoundTrip(Feature(name), prev, x);
  }

  // ----------------------------------------------------- through the driver

  /** Over a bus that does not fail, an in-range argument returns 0 and
      leaves the stored byte in the accessor's register; no other chip
      register changes, and at most two exchanges are made. */
  lemma SetStores(st: DevState, acc: Accessor, x: int)
    requires Wf(st) && Reliable(st.bus, 2) && Coherent(acc) && acc.lo <= x <= acc.hi
    ensures Access(st, acc, x).ret == 0
    ensures Peek(Access(st, acc, x).st.bus.regs, Addr(acc.reg)) == StoredByte(acc, PrevByte(st, acc.reg), x)
    ensures forall t :: t != Addr(acc.reg) ==> Peek(Access(st, acc, x).st.bus.regs, t) == Peek(st.bus.regs, t)
    ensures Access(st, acc, x).st.bus.fails == st.bus.fails
    ensures |st.bus.sent| < |Access(st, acc, x).st.bus.sent| <= |st.bus.sent| + 2
    ensures Wf(Access(st, acc, x).st)
  {
    match acc.setter
    case SetField(f) =>
      SetBitsStores(st, acc.reg, Place(f, x), f.mask as int);
    case WriteWhole =>
      WriteByte(st, acc.reg, x);
      WriteThrough(st, acc.reg, x);
    case WriteField(f) =>
      WriteByte(st, acc.reg, Place(f, x));
      WriteThrough(st, acc.reg, Place(f, x));
  }

  /** Calling an accessor out of range on a register that holds the stored
      byte of x reports x back, when the read does not fail. */
  lemma GetAfterSet(s1: DevState, acc: Accessor, prev: Byte, x: int, y: int)
    requires Wf(s1) && Coherent(acc) && acc.lo <= x <= acc.hi && !(acc.lo <= y <= acc.hi)
    requires Peek(s1.bus.regs, Addr(acc.reg)) == StoredByte(acc, prev, x)
    requires |s1.bus.sent| !in s1.bus.fails
    ensures Access(s1, acc, y).ret == Echo(acc, x)
  {
    GetFacts(s1, acc, y);
    RoundTrip(acc, prev, x);
  }

  /** Setting an in-range value and then calling the same accessor with an
      out-of-range argument reads back Echo of the value set, over a bus
      that does not fail for three exchanges. */
  lemma SetThenGet(st: DevState, acc: Accessor, x: int, y: int)
    requires Wf(st) && Reliable(st.bus, 3) && Coherent(acc)
    requires acc.lo <= x <= acc.hi && !(acc.lo <= y <= acc.hi)
    ensures Access(Access(st, acc, x).st, acc, y).ret == Echo(acc, x)
  {
    var s1 := Access(st, acc, x).st;
    SetStores(st, acc, x);
    assert |s1.bus.sent| !in s1.bus.fails;
    GetAfterSet(s1, acc, PrevByte(st, acc.reg), x, y);
  }

  /** The same for every accessor of the driver by name. */
  lemma FeatureSetThenGet(st: DevState, name: FeatureName, x: int, y: int)
    requires Wf(st) && Reliable(st.bus, 3)
    requires Feature(name).lo <= x <= Feature(name).hi
    requires !(Feature(name).lo <= y <= Feature(name).hi)
    ensures Access(Access(st, Feature(name), x).st, Feature(name), y).ret == Echo(Feature(name), x)
  {
    TableCoherent(name);
    SetThenGet(st, Feature(name), x, y);
  }

  /** In range, an accessor returns 0 or -1 and changes no shadow slot but
      its register's; one that drops the status returns 0 whatever the bus
      does. */
  lemma SetStatus(st: DevState, acc: Accessor, x: int)
    requires Wf(st) && Coherent(acc) && acc.lo <= x <= acc.hi
    ensures Access(st, acc, x).ret in {0, -1}
    ensures !acc.reportsStatus ==> Access(st, acc, x).ret == 0
    ensures Wf(Access(st, acc, x).st)
    ensures forall i :: 0 <= i < SHADOW_REGISTER_COUNT && i != ShadowIndex(acc.reg) ==>
              Access(st, acc, x).st.shadow[i] == st.shadow[i]
    ensures ShadowIndex(acc.reg) == 0 ==> Access(st, acc, x).st.shadow == st.shadow
  {
    match acc.setter
    case SetField(f) =>
      var bits, mask := Place(f, x), f.mask as int;
      var k := ShadowIndex(acc.reg);
      if k > 0 {
        WriteThrough(st, acc.reg, Merge(st.shadow[k] % 256, mask, bits));
      } else {
        var rd := Read(st, acc.reg);
        if rd.ret != -1 {
          WriteThrough(rd.st, acc.reg, Merge(rd.ret % 256, mask, bits));
        }
      }
    case WriteWhole =>
      WriteThrough(st, acc.reg, x);
    case WriteField(f) =>
      WriteThrough(st, acc.reg, Place(f, x));
  }

  /** An accessor that reports the status returns -1 when its first
      exchange fails. */
  lemma SetReportsFailure(st: DevState, acc: Accessor, x: int)
    requires Wf(st) && Coherent(acc) && acc.lo <= x <= acc.hi
    requires acc.reportsStatus && |st.bus.sent| in st.bus.fails
    ensures Access(st, acc, x).ret == -1
  {
    var a := acc.reg;
    assert FirstFailure(st.bus.fails, |st.bus.sent|, 1) == 0;
    match acc.setter
    case SetField(f) =>
      var bits, mask := Place(f, x), f.mask as int;
      var k := ShadowIndex(a);
      if k > 0 {
        WriteThrough(st, a, Merge(st.shadow[k] % 256, mask, bits));
      } else {
        OneRead(st, a);
      }
    case WriteWhole =>
      WriteThrough(st, a, x);
    case WriteField(f) =>
      WriteThrough(st, a, Place(f, x));
  }

  /** In range, an accessor that reports its status returns -1 exactly when
      one of the exchanges of its set_bits or write failed; the log only grows. */
  lemma SetFailsExactly(st: DevState, acc: Accessor, x: int)
    requires Wf(st) && ValidAccessor(acc) && acc.lo <= x <= acc.hi
    ensures Extends(st.bus, Access(st, acc, x).st.bus)
    ensures acc.reportsStatus ==>
              (Access(st, acc, x).ret == -1 <==> !Clean(st.bus, Access(st, acc, x).st.bus))
  {
    match acc.setter
    case SetField(f) =>
      SetBitsFacts(st, acc.reg, Place(f, x), f.mask as int);
    case WriteWhole =>
      WriteFacts(st, acc.reg, x);
    case WriteField(f) =>
      WriteFacts(st, acc.reg, Place(f, x));
  }

  /** ad9250_jesd204b_test_mode drops the status of its set_bits: in range
      it returns 0 even when the bus fails, while every other accessor
      returns -1 then. */
  lemma TestModeHidesFailure(st: DevState, name: FeatureName, x: int)
    requires Wf(st) && Feature(name).lo <= x <= Feature(name).hi
    requires |st.bus.sent| in st.bus.fails
    ensures Access(st, Feature(name), x).ret == if name == Jesd204bTestMode then 0 else -1
  {
    TableCoherent(name);
    if name == Jesd204bTestMode {
      SetStatus(st, Feature(name), x);
    } else {
      SetReportsFailure(st, Feature(name), x);
    }
  }

  /** The decoders of the read branch stay inside the field. */
  lemma DecodeBound(f: Field, raw: Byte)
    requires ValidField(f)
    ensures 0 <= Decode(Shifted(f), raw) <= FieldMax(f)
    ensures Decode(NonZero(f), raw) in {0, 1}
  {
    assert Decode(Shifted(f), raw) <= FieldMax(f) by {
      UnpackBound(f, Low8(raw));
      IntLe(Unpack(f, Low8(raw)), f.mask >> f.shift);
    }
  }

  /** Out of range, an accessor only reads its register: one read exchange,
      no chip register or shadow slot changes, and the result is -1 exactly
      when the exchange fails, otherwise the decoded field, which lies in
      the field's range (a flag gives 0 or 1, a raw read a byte). */
  lemma GetFacts(st: DevState, acc: Accessor, y: int)
    requires Wf(st) && Coherent(acc) && !(acc.lo <= y <= acc.hi)
    ensures Access(st, acc, y).st.shadow == st.shadow
    ensures Access(st, acc, y).st.bus.regs == st.bus.regs
    ensures Extends(st.bus, Access(st, acc, y).st.bus)
    ensures |Access(st, acc, y).st.bus.sent| == |st.bus.sent| + 1
    ensures IsRead(Access(st, acc, y).st.bus.sent[|st.bus.sent|])
    ensures Access(st, acc, y).ret == -1 <==> |st.bus.sent| in st.bus.fails
    ensures Access(st, acc, y).ret != -1 ==>
              Access(st, acc, y).ret == Decode(acc.getter, Peek(st.bus.regs, Addr(acc.reg)))
    ensures acc.getter.Shifted? && Access(st, acc, y).ret != -1 ==>
              0 <= Access(st, acc, y).ret <= FieldMax(acc.getter.field)
    ensures acc.getter.NonZero? ==> Access(st, acc, y).ret in {-1, 0, 1}
    ensures acc.getter.Raw? ==> -1 <= Access(st, acc, y).ret < 256
  {
    OneRead(st, acc.reg);
    var raw := Peek(st.bus.regs, Addr(acc.reg));
    if !acc.getter.Raw? {
      DecodeBound(acc.getter.field, raw);
    }
  }
}
