// Properties of ad9250_jesd204b_set_frames: the rounding of the number of
// frames per multiframe (K) to a multiple of 4, and what the call leaves in
// the K register.

module JesdProps {
  import opened Bus
  import opened Arith
  import opened RegMap
  import opened Ad9250Spec
  import opened Framing
  import opened EngineProps
  import opened SyncProps

  predicate MultipleOf4(m: int)
  {
    m % 4 == 0
  }

  function Dist(x: int, y: int): nat
  {
    if x <= y then y - x else x - y
  }

  /** The rounding is "nearest multiple of 4, ties upward": k + 2 rounded
      down to a multiple of 4. This holds for every integer k. */
  lemma RoundKNearestUp(k: int)
    ensures RoundK(k) == 4 * ((k + 2) / 4)
  {
    var q, r := k / 4, k % 4;
    if r == 0 {
      DivModUnique(k + 2, 4, q, 2);
    } else if r == 1 {
      DivModUnique(k + 2, 4, q, 3);
    } else if r == 2 {
      DivModUnique(k + 2, 4, q + 1, 0);
    } else {
      DivModUnique(k + 2, 4, q + 1, 1);
    }
  }

  /** For 0 <= k <= 32 the result is a multiple of 4 in 0..32, at most 2
      away from k, no farther from k than any other multiple of 4, and
      above k when k lies halfway between two of them. */
  lemma RoundKFacts(k: int)
    requires 0 <= k <= 32
    ensures MultipleOf4(RoundK(k))
    ensures 0 <= RoundK(k) <= 32
    ensures Dist(RoundK(k), k) <= 2
    ensures forall m :: MultipleOf4(m) ==> Dist(RoundK(k), k) <= Dist(m, k)
    ensures k % 4 == 2 ==> RoundK(k) == k + 2
  {
    RoundKNearestUp(k);
    var q := (k + 2) / 4;
    var r := (k + 2) % 4;
    assert MultipleOf4(RoundK(k)) by {
      DivModUnique(4 * q, 4, q, 0);
    }
    forall m | MultipleOf4(m)
      ensures Dist(RoundK(k), k) <= Dist(m, k)
    {
      var p := m / 4;
      assert m == 4 * p;
      if p <= q - 1 {
        assert m <= 4 * q - 4;
      } else if p >= q + 1 {
        assert m >= 4 * q + 4;
      }
    }
  }

  /** In range, ad9250_jesd204b_set_frames returns the rounded K or -1, the
      latter exactly when its one write fails; no shadow slot changes. */
  lemma SetFramesStatus(st: DevState, k: int)
    requires Wf(st) && 0 <= k <= 32
    ensures SetFrames(st, k).ret == -1 || SetFrames(st, k).ret == RoundK(k)
    ensures SetFrames(st, k).ret == -1 <==> |st.bus.sent| in st.bus.fails
    ensures SetFrames(st, k).st.shadow == st.shadow
    ensures |SetFrames(st, k).st.bus.sent| == |st.bus.sent| + 1
  {
    ParamKReg();
    RoundKFacts(k);
    OneWrite(st, REG_204B_PARAM_K, RoundK(k) - 1);
  }

  /** Over a bus that does not fail, it returns the rounded K and leaves
      K - 1 in the register, as a byte: k = 0 and k = 1 round to 0 and
      leave 0xFF. No other chip register changes. */
  lemma SetFramesStores(st: DevState, k: int)
    requires Wf(st) && 0 <= k <= 32 && Reliable(st.bus, 1)
    ensures SetFrames(st, k).ret == RoundK(k)
    ensures Peek(SetFrames(st, k).st.bus.regs, Addr(REG_204B_PARAM_K)) == (RoundK(k) - 1) % 256
    ensures 2 <= k ==> Peek(SetFrames(st, k).st.bus.regs, Addr(REG_204B_PARAM_K)) == RoundK(k) - 1
    ensures k <= 1 ==> Peek(SetFrames(st, k).st.bus.regs, Addr(REG_204B_PARAM_K)) == 0xFF
    ensures forall t :: t != Addr(REG_204B_PARAM_K) ==>
              Peek(SetFrames(st, k).st.bus.regs, t) == Peek(st.bus.regs, t)
  {
    ParamKReg();
    RoundKBounds(k);
    WriteByte(st, REG_204B_PARAM_K, RoundK(k) - 1);
    var w := Write(st, REG_204B_PARAM_K, RoundK(k) - 1);
    assert SetFrames(st, k) == Outcome(w.st, RoundK(k));
    if k <= 1 {
      DivModUnique(-1, 256, -1, 0xFF);
    }
  }

  lemma RoundKBounds(k: int)
    requires 0 <= k <= 32
    ensures k <= 1 ==> RoundK(k) == 0
    ensures 2 <= k ==> 4 <= RoundK(k) <= 32
  {
  }

  /** Out of range, it only reads the K register: one exchange, no chip
      register or shadow slot changes, and the result is the register's
      byte, or -1 when the exchange fails. */
  lemma SetFramesOutOfRange(st: DevState, k: int)
    requires Wf(st) && !(0 <= k <= 32)
    ensures SetFrames(st, k).st.shadow == st.shadow
    ensures SetFrames(st, k).st.bus.regs == st.bus.regs
    ensures Extends(st.bus, SetFrames(st, k).st.bus)
    ensures |SetFrames(st, k).st.bus.sent| == |st.bus.sent| + 1
    ensures IsRead(SetFrames(st, k).st.bus.sent[|st.bus.sent|])
    ensures SetFrames(st, k).ret == -1 <==> |st.bus.sent| in st.bus.fails
    ensures SetFrames(st, k).ret != -1 ==> SetFrames(st, k).ret == Peek(st.bus.regs, Addr(REG_204B_PARAM_K))
  {
    ParamKReg();
    OneRead(st, REG_204B_PARAM_K);
  }
}
