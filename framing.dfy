// Properties of the byte framing of ad9250_read and ad9250_write: which
// frames go on the bus and in what order, where a failing exchange stops
// them, and the round trip of a value through the chip's register bytes.

module Framing {
  import opened Bus
  import opened Arith
  import opened RegMap
  import opened Ad9250Spec

  /** How many of the n exchanges starting at index `start` succeed before
      the first one that fails (n when none fails). */
  function FirstFailure(fails: set<nat>, start: nat, n: nat): (k: nat)
    ensures k <= n
    ensures forall j :: start <= j < start + k ==> j !in fails
    ensures k < n ==> start + k in fails
    decreases n
  {
    if n == 0 || start in fails then 0
    else 1 + FirstFailure(fails, start + 1, n - 1)
  }

  /** None of the next n exchanges fails. */
  predicate Reliable(b: BusState, n: nat)
  {
    forall j :: |b.sent| <= j < |b.sent| + n ==> j !in b.fails
  }

  /** After k more exchanges over the same failure schedule, a bus that was
      reliable for n + k exchanges is reliable for the next n. */
  lemma ReliableLater(b: BusState, c: BusState, n: nat, k: nat)
    requires Reliable(b, n + k) && c.fails == b.fails && |c.sent| == |b.sent| + k
    ensures Reliable(c, n)
  {
  }

  /** How many frames an operation of n frames sends when k of them succeed
      before the first failure: the failing one is sent too. */
  function Attempted(k: nat, n: nat): nat
  {
    if k < n then k + 1 else n
  }

  /** The frames ad9250_write sends from frame i on, when none fails:
      frame i goes to counter base - i and carries byte len-1-i of v. */
  function WriteLoopSent(base: int, v: int, len: nat, i: nat): (s: seq<Frame>)
    requires i <= len
    ensures |s| == len - i
    decreases len - i
  {
    if i == len then []
    else [WriteLoopFrame(base, v, len, i)] + WriteLoopSent(base, v, len, i + 1)
  }

  /** The frames ad9250_read sends from frame i on, when none fails. */
  function ReadLoopSent(base: int, n: nat, i: nat): (s: seq<Frame>)
    requires i <= n
    ensures |s| == n - i
    decreases n - i
  {
    if i == n then [] else [FrameAt(base - i, 0)] + ReadLoopSent(base, n, i + 1)
  }

  function WriteFrames(a: int, v: int): seq<Frame>
  {
    WriteLoopSent(WRITE + Addr(a), v, TransfLen(a), 0)
  }

  function ReadFrames(a: int): seq<Frame>
  {
    ReadLoopSent(READ + Addr(a), TransfLen(a), 0)
  }

  /** Frame i of the write loop. */
  function WriteLoopFrame(base: int, v: int, len: nat, i: nat): Frame
    requires i < len
  {
    FrameAt(base - i, ByteOf(v, len - 1 - i))
  }

  lemma {:induction false} WriteLoopSentAt(base: int, v: int, len: nat, i: nat, j: nat)
    requires i + j < len
    ensures WriteLoopSent(base, v, len, i)[j] == WriteLoopFrame(base, v, len, i + j)
    decreases j
  {
    if j > 0 {
      WriteLoopSentAt(base, v, len, i + 1, j - 1);
    }
  }

  lemma {:induction false} ReadLoopSentAt(base: int, n: nat, i: nat, j: nat)
    requires i + j < n
    ensures ReadLoopSent(base, n, i)[j] == FrameAt(base - (i + j), 0)
    decreases j
  {
    if j > 0 {
      ReadLoopSentAt(base, n, i + 1, j - 1);
      assert (i + 1) + (j - 1) == i + j;
    }
  }

  /** Frame j of a write to register a addresses ADDR - j (as a 16-bit word,
      read bit clear) and carries byte len-1-j of v: most significant first. */
  lemma WriteFramesAt(a: int, v: int)
    ensures |WriteFrames(a, v)| == TransfLen(a)
    ensures forall j :: 0 <= j < TransfLen(a) ==>
              && Word(WriteFrames(a, v)[j]) == (Addr(a) - j) % 0x10000
              && WriteFrames(a, v)[j].data == ByteOf(v, TransfLen(a) - 1 - j)
  {
    forall j | 0 <= j < TransfLen(a)
      ensures WriteFrames(a, v)[j] == WriteLoopFrame(WRITE + Addr(a), v, TransfLen(a), j)
    {
      WriteLoopSentAt(WRITE + Addr(a), v, TransfLen(a), 0, j);
    }
  }

  /** Frame j of a read of register a addresses READ + ADDR - j and carries 0. */
  lemma ReadFramesAt(a: int)
    ensures |ReadFrames(a)| == TransfLen(a)
    ensures forall j :: 0 <= j < TransfLen(a) ==>
              && Word(ReadFrames(a)[j]) == (READ + Addr(a) - j) % 0x10000
              && ReadFrames(a)[j].data == 0
  {
    forall j | 0 <= j < TransfLen(a)
      ensures ReadFrames(a)[j] == FrameAt(READ + Addr(a) - j, 0)
    {
      ReadLoopSentAt(READ + Addr(a), TransfLen(a), 0, j);
    }
  }

  /** Exchanging a list of frames in order, stopping at the first that fails:
      the common shape of the loops of ad9250_read and ad9250_write. */
  function Run(b: BusState, fs: seq<Frame>): Xfer
    decreases |fs|
  {
    if fs == [] then Xfer(b, 0)
    else
      var rep := Exchange(b, fs[0]);
      if !rep.ok then Xfer(rep.bus, -1) else Run(rep.bus, fs[1..])
  }

  /** One exchange logs its frame and keeps the failure oracle; it fails
      exactly when its index is one of the failing ones. */
  lemma ExchangeLogs(b: BusState, f: Frame)
    ensures Exchange(b, f).bus.fails == b.fails
    ensures Exchange(b, f).bus.sent == b.sent + [f]
    ensures Exchange(b, f).ok <==> |b.sent| !in b.fails
  {
  }

  lemma {:induction false} RunFails(b: BusState, fs: seq<Frame>)
    ensures Run(b, fs).bus.fails == b.fails
    ensures Run(b, fs).ret == -1 <==> FirstFailure(b.fails, |b.sent|, |fs|) < |fs|
    ensures Run(b, fs).ret in {0, -1}
    decreases |fs|
  {
    if fs != [] {
      var rep := Exchange(b, fs[0]);
      ExchangeLogs(b, fs[0]);
      if rep.ok {
        RunFails(rep.bus, fs[1..]);
      }
    }
  }

  /** An exchange that succeeds adds one to the frames attempted. */
  lemma AttemptedStep(fails: set<nat>, start: nat, n: nat)
    requires n > 0 && start !in fails
    ensures Attempted(FirstFailure(fails, start, n), n)
            == 1 + Attempted(FirstFailure(fails, start + 1, n - 1), n - 1)
  {
  }

  lemma PrefixCons(fs: seq<Frame>, m: nat)
    requires m < |fs|
    ensures fs[..1 + m] == [fs[0]] + fs[1..][..m]
  {
  }

  /** The frames a run sends when its first exchange has index `start`:
      every frame up to and including the first that fails. */
  function RunLog(fails: set<nat>, start: nat, fs: seq<Frame>): seq<Frame>
    decreases |fs|
  {
    if fs == [] then []
    else if start in fails then [fs[0]]
    else [fs[0]] + RunLog(fails, start + 1, fs[1..])
  }

  lemma {:induction false} RunLogged(b: BusState, fs: seq<Frame>)
    ensures Run(b, fs).bus.sent == b.sent + RunLog(b.fails, |b.sent|, fs)
    decreases |fs|
  {
    if fs != [] {
      var rep := Exchange(b, fs[0]);
      ExchangeLogs(b, fs[0]);
      if rep.ok {
        RunLogged(rep.bus, fs[1..]);
        var rest := RunLog(b.fails, |b.sent| + 1, fs[1..]);
        assert (b.sent + [fs[0]]) + rest == b.sent + ([fs[0]] + rest);
      }
    }
  }

  lemma {:induction false} RunLogPrefix(fails: set<nat>, start: nat, fs: seq<Frame>)
    ensures RunLog(fails, start, fs) == fs[..Attempted(FirstFailure(fails, start, |fs|), |fs|)]
    decreases |fs|
  {
    if fs != [] {
      if start in fails {
        assert fs[..1] == [fs[0]];
      } else {
        RunLogPrefix(fails, start + 1, fs[1..]);
        AttemptedStep(fails, start, |fs|);
        PrefixCons(fs, Attempted(FirstFailure(fails, start + 1, |fs| - 1), |fs| - 1));
      }
    }
  }

  lemma RunSent(b: BusState, fs: seq<Frame>)
    ensures Run(b, fs).bus.sent
            == b.sent + fs[..Attempted(FirstFailure(b.fails, |b.sent|, |fs|), |fs|)]
  {
    RunLogged(b, fs);
    RunLogPrefix(b.fails, |b.sent|, fs);
  }

  lemma RunSends(b: BusState, fs: seq<Frame>)
    ensures Run(b, fs).bus.fails == b.fails
    ensures Run(b, fs).bus.sent
            == b.sent + fs[..Attempted(FirstFailure(b.fails, |b.sent|, |fs|), |fs|)]
    ensures Run(b, fs).ret == -1 <==> FirstFailure(b.fails, |b.sent|, |fs|) < |fs|
    ensures Run(b, fs).ret in {0, -1}
  {
    RunFails(b, fs);
    RunSent(b, fs);
  }

  /** One pass of the write loop, given what its exchange returned. */
  lemma WriteLoopStep(b: BusState, base: int, v: int, len: nat, i: nat, next: BusState, ok: bool, d: Byte)
    requires i < len
    requires Exchange(b, FrameAt(base - i, ByteOf(v, len - 1 - i))) == Reply(next, ok, d)
    ensures WriteLoop(b, base, v, len, i)
            == if ok then WriteLoop(next, base, v, len, i + 1) else Xfer(next, -1)
  {
  }

  /** One pass of the read loop, given what its exchange returned. */
  lemma ReadLoopStep(b: BusState, base: int, n: nat, i: nat, acc: int, next: BusState, ok: bool, d: Byte)
    requires i < n
    requires Exchange(b, FrameAt(base - i, 0)) == Reply(next, ok, d)
    ensures ReadLoop(b, base, n, i, acc)
            == if ok then ReadLoop(next, base, n, i + 1, acc * 256 + d) else Xfer(next, -1)
  {
  }

  lemma {:induction false} WriteLoopRuns(b: BusState, base: int, v: int, len: nat, i: nat)
    requires i <= len
    ensures WriteLoop(b, base, v, len, i) == Run(b, WriteLoopSent(base, v, len, i))
    decreases len - i
  {
    if i < len {
      var rep := Exchange(b, FrameAt(base - i, ByteOf(v, len - 1 - i)));
      if rep.ok {
        WriteLoopRuns(rep.bus, base, v, len, i + 1);
      }
    }
  }

  lemma {:induction false} ReadLoopRuns(b: BusState, base: int, n: nat, i: nat, acc: int)
    requires i <= n && 0 <= acc
    ensures ReadLoop(b, base, n, i, acc).bus == Run(b, ReadLoopSent(base, n, i)).bus
    ensures ReadLoop(b, base, n, i, acc).ret == -1 <==> Run(b, ReadLoopSent(base, n, i)).ret == -1
    decreases n - i
  {
    if i < n {
      var rep := Exchange(b, FrameAt(base - i, 0));
      if rep.ok {
        ReadLoopRuns(rep.bus, base, n, i + 1, acc * 256 + rep.data);
      }
    }
  }

  /** ad9250_write sends the frames of WriteFrames in order and stops after
      the first exchange that fails, returning -1; otherwise it returns 0. */
  lemma WriteSendsFrames(b: BusState, a: int, v: int)
    requires FitsFrames(a) && TransfLen(a) > 0
    ensures var r := WriteBus(b, a, v);
            var k := FirstFailure(b.fails, |b.sent|, TransfLen(a));
            && r.bus.fails == b.fails
            && r.bus.sent == b.sent + WriteFrames(a, v)[..Attempted(k, TransfLen(a))]
            && (r.ret == -1 <==> k < TransfLen(a))
            && (r.ret != -1 ==> r.ret == 0)
  {
    WriteLoopRuns(b, WRITE + Addr(a), v, TransfLen(a), 0);
    RunSends(b, WriteFrames(a, v));
  }

  /** ad9250_read sends the frames of ReadFrames in order and stops after
      the first exchange that fails, returning -1. */
  lemma ReadSendsFrames(b: BusState, a: int)
    requires FitsFrames(a)
    ensures var r := ReadBus(b, a);
            var k := FirstFailure(b.fails, |b.sent|, TransfLen(a));
            && r.bus.fails == b.fails
            && r.bus.sent == b.sent + ReadFrames(a)[..Attempted(k, TransfLen(a))]
            && (r.ret == -1 <==> k < TransfLen(a))
  {
    ReadLoopRuns(b, READ + Addr(a), TransfLen(a), 0, 0);
    RunSends(b, ReadFrames(a));
  }

  // ------------------------------------------------------- the round trip

  /** The reference meaning of a big-endian byte string:
      the sum of s[i] * 256^(|s|-1-i). */
  function BigEndian(s: seq<Byte>): nat
  {
    if s == [] then 0 else s[0] * Pow256(|s| - 1) + BigEndian(s[1..])
  }

  /** The n bytes of v, most significant first, as ad9250_write sends them. */
  function BytesOf(v: int, n: nat): seq<Byte>
  {
    seq(n, i requires 0 <= i < n => ByteOf(v, n - 1 - i))
  }

  /** The chip bytes ad9250_read collects for frames i..n-1 of address a. */
  function Peeks(regs: map<int, Byte>, addr: int, i: nat, n: nat): seq<Byte>
    requires i <= n
  {
    seq(n - i, j requires 0 <= j < n - i => Peek(regs, addr - i - j))
  }

  /** The instruction word of a read frame for register t decodes back. */
  lemma ReadFrameDecodes(t: int)
    requires 0 <= t < 0x8000
    ensures IsRead(FrameAt(READ + t, 0)) && Target(FrameAt(READ + t, 0)) == t
  {
    DivModUnique(READ + t, 0x10000, 0, READ + t);
    DivModUnique(READ + t, 0x8000, 1, t);
  }

  /** Splitting off the byte above the lowest `p` positions. */
  lemma ModSplit(v: int, p: int)
    requires p > 0
    ensures (v / p % 256) * p + v % p == v % (256 * p)
  {
    var q, r := v / p, v % p;
    var q2, r2 := q / 256, q % 256;
    assert v == p * q + r;
    assert q == 256 * q2 + r2;
    assert p * q == (256 * p) * q2 + p * r2;
    MulNonneg(p, 255 - r2);
    MulNonneg(p, r2);
    DivModUnique(v, 256 * p, q2, p * r2 + r);
  }

  /** The arithmetic of one read step: the value read so far shifted by the
      rest of the register, in either grouping. */
  lemma ReadValueStep(r: int, acc: int, d: int, p: int, q: int, rest: int, big: int)
    requires r == (acc * 256 + d) * p + rest && big == d * p + rest && q == 256 * p
    ensures r == acc * q + big
  {
    Horner(acc, d, p, q, rest);
  }

  /** One step of Horner's rule: acc shifted by a byte, plus d, then
      weighted by p, is acc weighted by 256 * p plus d weighted by p. */
  lemma Horner(acc: int, d: int, p: int, q: int, rest: int)
    requires q == 256 * p
    ensures (acc * 256 + d) * p + rest == acc * q + (d * p + rest)
  {
  }

  /** Dividing by 256 and then by p is dividing by 256 * p. */
  lemma DivDiv(v: int, p: int)
    requires p > 0
    ensures v / 256 / p == v / (256 * p)
  {
    var q1, r1 := v / 256, v % 256;
    var q2, r2 := q1 / p, q1 % p;
    assert v == (256 * p) * q2 + (256 * r2 + r1);
    MulNonneg(256, p - 1 - r2);
    DivModUnique(v, 256 * p, q2, 256 * r2 + r1);
  }

  /** Byte k of v is v divided by 256^k, reduced to a byte. */
  lemma {:induction false} ByteOfPow(v: int, k: nat)
    ensures ByteOf(v, k) == v / Pow256(k) % 256
    decreases k
  {
    if k > 0 {
      ByteOfPow(v / 256, k - 1);
      DivDiv(v, Pow256(k - 1));
    }
  }

  /** Reassembling the bytes of v gives v reduced to n bytes. */
  lemma {:induction false} BigEndianBytesOf(v: int, n: nat)
    ensures BigEndian(BytesOf(v, n)) == v % Pow256(n)
  {
    if n == 0 {
      assert BytesOf(v, 0) == [];
    } else {
      var s := BytesOf(v, n);
      var p := Pow256(n - 1);
      ByteOfPow(v, n - 1);
      assert s[0] == ByteOf(v, n - 1) == v / p % 256;
      assert s[1..] == BytesOf(v, n - 1);
      assert BigEndian(s) == s[0] * p + BigEndian(s[1..]);
      BigEndianBytesOf(v, n - 1);
      ModSplit(v, p);
      assert Pow256(n) == 256 * p;
    }
  }

  /** A read frame for register t that does not fail returns the chip's
      byte and changes no chip register. */
  lemma ReadStep(b: BusState, t: int, rep: Reply)
    requires 0 <= t < 0x8000 && |b.sent| !in b.fails
    requires rep == Exchange(b, FrameAt(READ + t, 0))
    ensures rep.ok && rep.data == Peek(b.regs, t) && rep.bus.regs == b.regs
    ensures rep.bus.fails == b.fails && |rep.bus.sent| == |b.sent| + 1
  {
    ReadFrameDecodes(t);
  }

  lemma PeeksCons(regs: map<int, Byte>, addr: int, i: nat, n: nat)
    requires i < n
    ensures BigEndian(Peeks(regs, addr, i, n))
            == Peek(regs, addr - i) * Pow256(n - i - 1) + BigEndian(Peeks(regs, addr, i + 1, n))
  {
    var s := Peeks(regs, addr, i, n);
    assert s[1..] == Peeks(regs, addr, i + 1, n);
  }

  lemma {:induction false} ReadLoopValue(b: BusState, addr: Byte, n: nat, i: nat, acc: int)
    requires i <= n <= addr + 1
    requires Reliable(b, n - i)
    ensures ReadLoop(b, READ + addr, n, i, acc).ret
            == acc * Pow256(n - i) + BigEndian(Peeks(b.regs, addr, i, n))
    decreases n - i
  {
    if i == n {
      assert Peeks(b.regs, addr, i, n) == [];
    } else {
      var t := addr - i;
      var rep := Exchange(b, FrameAt(READ + t, 0));
      var d := Peek(b.regs, t);
      ReadStep(b, t, rep);
      ReadLoopStep(b, READ + addr, n, i, acc, rep.bus, rep.ok, rep.data);
      ReliableLater(b, rep.bus, n - i - 1, 1);
      ReadLoopValue(rep.bus, addr, n, i + 1, acc * 256 + d);
      PeeksCons(b.regs, addr, i, n);
      var p := Pow256(n - (i + 1));
      var rest := BigEndian(Peeks(rep.bus.regs, addr, i + 1, n));
      ReadValueStep(ReadLoop(b, READ + addr, n, i, acc).ret, acc, d, p, Pow256(n - i), rest,
                    BigEndian(Peeks(b.regs, addr, i, n)));
    }
  }

  /** With no failing exchange, ad9250_read returns the big-endian value of
      the chip bytes at ADDR, ADDR-1, ..., and changes no chip register. */
  lemma ReadValue(b: BusState, a: int)
    requires FitsFrames(a) && TransfLen(a) <= Addr(a) + 1
    requires Reliable(b, TransfLen(a))
    ensures ReadBus(b, a).bus.regs == b.regs
    ensures ReadBus(b, a).ret == BigEndian(Peeks(b.regs, Addr(a), 0, TransfLen(a)))
  {
    ReadLoopValue(b, Addr(a), TransfLen(a), 0, 0);
    ReadKeepsRegs(b, a);
  }

  /** Read frames change no chip register, whether they succeed or not. */
  lemma {:induction false} RunReadsKeep(b: BusState, fs: seq<Frame>)
    requires forall j :: 0 <= j < |fs| ==> IsRead(fs[j])
    ensures Run(b, fs).bus.regs == b.regs
    decreases |fs|
  {
    if fs != [] {
      assert IsRead(fs[0]);
      var rep := Exchange(b, fs[0]);
      assert forall j :: 0 <= j < |fs[1..]| ==> fs[1..][j] == fs[j + 1];
      RunReadsKeep(rep.bus, fs[1..]);
    }
  }

  /** ad9250_read sends only read frames and changes no chip register, when
      the register's bytes do not run below address 0. */
  lemma ReadKeepsRegs(b: BusState, a: int)
    requires FitsFrames(a) && TransfLen(a) <= Addr(a) + 1
    ensures ReadBus(b, a).bus.regs == b.regs
    ensures forall j :: |b.sent| <= j < |ReadBus(b, a).bus.sent| ==> IsRead(ReadBus(b, a).bus.sent[j])
  {
    var fs := ReadFrames(a);
    ReadFramesAreReads(a);
    ReadLoopRuns(b, READ + Addr(a), TransfLen(a), 0, 0);
    RunReadsKeep(b, fs);
    ReadSendsFrames(b, a);
    var r := ReadBus(b, a).bus.sent;
    forall j | |b.sent| <= j < |r|
      ensures IsRead(r[j])
    {
      assert r[j] == fs[j - |b.sent|];
    }
  }

  /** Every frame of ad9250_read is a read frame, when the register's bytes
      do not run below address 0. */
  lemma ReadFramesAreReads(a: int)
    requires TransfLen(a) <= Addr(a) + 1
    ensures forall j :: 0 <= j < |ReadFrames(a)| ==> IsRead(ReadFrames(a)[j])
  {
    forall j | 0 <= j < |ReadFrames(a)|
      ensures IsRead(ReadFrames(a)[j])
    {
      ReadFrameIsRead(a, j);
    }
  }

  /** Frame j of ad9250_read carries the read bit. */
  lemma ReadFrameIsRead(a: int, j: nat)
    requires j < TransfLen(a) <= Addr(a) + 1
    ensures IsRead(ReadFrames(a)[j])
  {
    ReadLoopSentAt(READ + Addr(a), TransfLen(a), 0, j);
    DivModUnique(READ + Addr(a) - j, 0x10000, 0, READ + Addr(a) - j);
  }

  /** The chip registers after the frames fs have all been written, in order. */
  function Stored(regs: map<int, Byte>, fs: seq<Frame>): map<int, Byte>
    decreases |fs|
  {
    if fs == [] then regs else Stored(regs[Target(fs[0]) := fs[0].data], fs[1..])
  }

  /** Write frames that all succeed store their data byte and return 0. */
  lemma {:induction false} RunStores(b: BusState, fs: seq<Frame>)
    requires Reliable(b, |fs|)
    requires forall j :: 0 <= j < |fs| ==> !IsRead(fs[j])
    ensures Run(b, fs) == Xfer(BusState(Stored(b.regs, fs), b.fails, b.sent + fs), 0)
    decreases |fs|
  {
    if fs != [] {
      assert |b.sent| !in b.fails;
      ExchangeStores(b, fs[0]);
      var rep := Exchange(b, fs[0]);
      assert Run(b, fs) == Run(rep.bus, fs[1..]);
      ReliableLater(b, rep.bus, |fs[1..]|, 1);
      assert forall j :: 0 <= j < |fs[1..]| ==> fs[1..][j] == fs[j + 1];
      RunStores(rep.bus, fs[1..]);
      assert b.sent + [fs[0]] + fs[1..] == b.sent + fs;
    }
  }

  /** A write frame that goes through stores its byte. */
  lemma ExchangeStores(b: BusState, f: Frame)
    requires |b.sent| !in b.fails && !IsRead(f)
    ensures Exchange(b, f) == Reply(BusState(b.regs[Target(f) := f.data], b.fails, b.sent + [f]), true, f.data)
  {
  }

  /** A register no frame addresses keeps its byte. */
  lemma {:induction false} StoredKeeps(regs: map<int, Byte>, fs: seq<Frame>, t: int)
    requires forall j :: 0 <= j < |fs| ==> Target(fs[j]) != t
    ensures Peek(Stored(regs, fs), t) == Peek(regs, t)
    decreases |fs|
  {
    if fs != [] {
      assert Target(fs[0]) != t;
      assert forall j :: 0 <= j < |fs[1..]| ==> fs[1..][j] == fs[j + 1];
      StoredKeeps(regs[Target(fs[0]) := fs[0].data], fs[1..], t);
    }
  }

  /** A register holds the byte of the last frame that addresses it. */
  lemma {:induction false} StoredLast(regs: map<int, Byte>, fs: seq<Frame>, j: nat)
    requires j < |fs|
    requires forall i :: j < i < |fs| ==> Target(fs[i]) != Target(fs[j])
    ensures Peek(Stored(regs, fs), Target(fs[j])) == fs[j].data
    decreases |fs|
  {
    var rest := fs[1..];
    assert forall i :: 0 <= i < |rest| ==> rest[i] == fs[i + 1];
    if j == 0 {
      StoredKeeps(regs[Target(fs[0]) := fs[0].data], rest, Target(fs[0]));
    } else {
      StoredLast(regs[Target(fs[0]) := fs[0].data], rest, j - 1);
    }
  }

  /** Frame j of a write addresses register ADDR - j when the register's
      bytes do not run below address 0. */
  lemma WriteFrameTargets(a: int, v: int, j: nat)
    requires j < TransfLen(a) <= Addr(a) + 1
    ensures !IsRead(WriteFrames(a, v)[j]) && Target(WriteFrames(a, v)[j]) == Addr(a) - j
    ensures WriteFrames(a, v)[j].data == ByteOf(v, TransfLen(a) - 1 - j)
  {
    WriteFramesAt(a, v);
    DivModUnique(Addr(a) - j, 0x10000, 0, Addr(a) - j);
    DivModUnique(Addr(a) - j, 0x8000, 0, Addr(a) - j);
  }

  /** With no failing exchange, ad9250_write leaves the bytes of v, most
      significant first, in the chip registers ADDR, ADDR-1, ..., and every
      other chip register as it was. */
  lemma WriteStores(b: BusState, a: int, v: int)
    requires FitsFrames(a) && TransfLen(a) <= Addr(a) + 1
    requires Reliable(b, TransfLen(a))
    ensures |WriteBus(b, a, v).bus.sent| == |b.sent| + TransfLen(a)
    ensures WriteBus(b, a, v).bus.fails == b.fails
    ensures Peeks(WriteBus(b, a, v).bus.regs, Addr(a), 0, TransfLen(a)) == BytesOf(v, TransfLen(a))
    ensures forall t :: !(Addr(a) - TransfLen(a) < t <= Addr(a)) ==>
              Peek(WriteBus(b, a, v).bus.regs, t) == Peek(b.regs, t)
  {
    if TransfLen(a) > 0 {
      WriteRunsAll(b, a, v);
      StoredBytes(b.regs, a, v);
      forall t | !(Addr(a) - TransfLen(a) < t <= Addr(a))
        ensures Peek(Stored(b.regs, WriteFrames(a, v)), t) == Peek(b.regs, t)
      {
        StoredOutside(b.regs, a, v, t);
      }
    } else {
      assert BytesOf(v, 0) == [];
    }
  }

  /** With no failing exchange, ad9250_write sends all its frames and the
      chip ends up with their bytes stored. */
  lemma WriteRunsAll(b: BusState, a: int, v: int)
    requires FitsFrames(a) && 0 < TransfLen(a) <= Addr(a) + 1
    requires Reliable(b, TransfLen(a))
    ensures WriteBus(b, a, v) == Xfer(BusState(Stored(b.regs, WriteFrames(a, v)), b.fails, b.sent + WriteFrames(a, v)), 0)
    ensures |WriteFrames(a, v)| == TransfLen(a)
  {
    var n, fs := TransfLen(a), WriteFrames(a, v);
    WriteLoopRuns(b, WRITE + Addr(a), v, n, 0);
    WriteFramesAt(a, v);
    forall j | 0 <= j < n
      ensures !IsRead(fs[j])
    {
      WriteFrameTargets(a, v, j);
    }
    RunStores(b, fs);
  }

  /** The stored write frames put the bytes of v, most significant first, in
      ADDR, ADDR-1, ... */
  lemma StoredBytes(regs: map<int, Byte>, a: int, v: int)
    requires 0 < TransfLen(a) <= Addr(a) + 1
    ensures Peeks(Stored(regs, WriteFrames(a, v)), Addr(a), 0, TransfLen(a)) == BytesOf(v, TransfLen(a))
  {
    var n, r := TransfLen(a), Stored(regs, WriteFrames(a, v));
    var got, want := Peeks(r, Addr(a), 0, n), BytesOf(v, n);
    forall j | 0 <= j < n
      ensures got[j] == want[j]
    {
      StoredByteAt(regs, a, v, j);
      PeeksAt(r, Addr(a), n, j);
    }
  }

  /** Element j of the bytes collected from addr downward. */
  lemma PeeksAt(regs: map<int, Byte>, addr: int, n: nat, j: nat)
    requires j < n
    ensures |Peeks(regs, addr, 0, n)| == n && Peeks(regs, addr, 0, n)[j] == Peek(regs, addr - j)
  {
  }

  /** Byte j of the register, counted from ADDR downward, is byte
      n - 1 - j of v. */
  lemma StoredByteAt(regs: map<int, Byte>, a: int, v: int, j: nat)
    requires j < TransfLen(a) <= Addr(a) + 1
    ensures Peek(Stored(regs, WriteFrames(a, v)), Addr(a) - j) == ByteOf(v, TransfLen(a) - 1 - j)
  {
    var n, fs := TransfLen(a), WriteFrames(a, v);
    WriteFrameTargets(a, v, j);
    forall i | j < i < n
      ensures Target(fs[i]) != Target(fs[j])
    {
      WriteFrameTargets(a, v, i);
    }
    StoredLast(regs, fs, j);
  }

  /** The stored write frames leave every chip register outside the
      register's bytes as it was. */
  lemma StoredOutside(regs: map<int, Byte>, a: int, v: int, t: int)
    requires 0 < TransfLen(a) <= Addr(a) + 1
    requires !(Addr(a) - TransfLen(a) < t <= Addr(a))
    ensures Peek(Stored(regs, WriteFrames(a, v)), t) == Peek(regs, t)
  {
    var n, fs := TransfLen(a), WriteFrames(a, v);
    WriteFramesAt(a, v);
    forall j | 0 <= j < n
      ensures Target(fs[j]) != t
    {
      WriteFrameTargets(a, v, j);
    }
    StoredKeeps(regs, fs, t);
  }

  /** Reading a register back after writing v to it, with no failing exchange,
      gives v reduced to the register's width. */
  lemma WriteThenRead(b: BusState, a: int, v: int)
    requires FitsFrames(a) && TransfLen(a) <= Addr(a) + 1
    requires Reliable(b, 2 * TransfLen(a))
    ensures ReadBus(WriteBus(b, a, v).bus, a).ret == v % Pow256(TransfLen(a))
  {
    WriteStores(b, a, v);
    ReadBackBytes(WriteBus(b, a, v).bus, a, v);
  }

  /** Reading a register whose chip bytes are those of v gives v reduced to
      the register's width. */
  lemma ReadBackBytes(w: BusState, a: int, v: int)
    requires FitsFrames(a) && TransfLen(a) <= Addr(a) + 1
    requires Reliable(w, TransfLen(a))
    requires Peeks(w.regs, Addr(a), 0, TransfLen(a)) == BytesOf(v, TransfLen(a))
    ensures ReadBus(w, a).ret == v % Pow256(TransfLen(a))
  {
    ReadValue(w, a);
    BigEndianBytesOf(v, TransfLen(a));
  }
}
