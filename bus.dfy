// The SPI transport the AD9250 driver talks through, as a stub: a byte store
// addressed by the instruction word of each three-byte frame, plus a failure
// oracle naming the exchanges that fail. The real transport
// (no_os_spi_write_and_read) is platform code and is not part of this model.

module Bus {
  import opened Arith

  /** One byte on the wire. */
  type Byte = b: int | 0 <= b < 256

  /** The three bytes of one exchange: the two instruction bytes and the data byte. */
  datatype Frame = Frame(hi: Byte, lo: Byte, data: Byte)

  /** The 16-bit instruction word of a frame. */
  function Word(f: Frame): int
  {
    f.hi * 256 + f.lo
  }

  /** The frame the driver builds from its address counter:
      byte 0 is bits 8..15 of the counter, byte 1 bits 0..7. */
  function FrameAt(counter: int, data: Byte): (f: Frame)
    ensures Word(f) == counter % 0x10000 && f.data == data
  {
    var w := counter % 0x10000;
    Frame(w / 256, w % 256, data)
  }

  /** The two instruction bytes are bits 8..15 and bits 0..7 of the counter. */
  lemma FrameAtBytes(counter: int, data: Byte)
    ensures FrameAt(counter, data) == Frame(counter % 0x10000 / 256, counter % 256, data)
  {
    var w := counter % 0x10000;
    DivModUnique(counter, 256, (counter / 0x10000) * 256 + w / 256, w % 256);
  }

  /** Only the low 16 bits of the counter reach the frame. */
  lemma FrameAtWord(word: int, counter: int, data: Byte)
    requires word == counter % 0x10000
    ensures FrameAt(word, data) == FrameAt(counter, data)
  {
    DivModUnique(word, 0x10000, 0, word);
  }

  /** Decrementing a 16-bit counter wraps around. */
  lemma CounterDecrement(word: int, counter: int, next: int)
    requires word == counter % 0x10000 && next == counter - 1
    ensures (word - 1) % 0x10000 == next % 0x10000
  {
    var w := counter % 0x10000;
    if w == 0 {
      DivModUnique(counter - 1, 0x10000, counter / 0x10000 - 1, 0xFFFF);
    } else {
      DivModUnique(counter - 1, 0x10000, counter / 0x10000, w - 1);
    }
  }

  /** Bit 15 of the instruction word selects a read. */
  predicate IsRead(f: Frame)
  {
    Word(f) >= 0x8000
  }

  /** The register a frame addresses: the instruction word without its read bit. */
  function Target(f: Frame): int
  {
    Word(f) % 0x8000
  }

  /** Abstract state of the transport and the chip behind it:
      the chip's register bytes, the indices of exchanges that fail,
      and every frame sent so far (its length is the exchange count). */
  datatype BusState = BusState(regs: map<int, Byte>, fails: set<nat>, sent: seq<Frame>)

  /** A register the chip has never been written reads as 0. */
  function Peek(regs: map<int, Byte>, t: int): Byte
  {
    if t in regs then regs[t] else 0
  }

  /** What one exchange does: the new state, whether it succeeded,
      and the byte found in the data position of the buffer afterwards. */
  datatype Reply = Reply(bus: BusState, ok: bool, data: Byte)

  function Exchange(b: BusState, f: Frame): Reply
  {
    var logged := b.(sent := b.sent + [f]);
    if |b.sent| in b.fails then Reply(logged, false, f.data)
    else if IsRead(f) then Reply(logged, true, Peek(b.regs, Target(f)))
    else Reply(logged.(regs := b.regs[Target(f) := f.data]), true, f.data)
  }

  /** The transport handle. The buffer passed to WriteAndRead is read and
      overwritten in place, as the platform call does. */
  class Transport {
    var regs: map<int, Byte>
    var fails: set<nat>
    var sent: seq<Frame>

    function State(): BusState
      reads this
    {
      BusState(regs, fails, sent)
    }

    constructor (regs: map<int, Byte>, fails: set<nat>)
      ensures State() == BusState(regs, fails, [])
    {
      this.regs := regs;
      this.fails := fails;
      this.sent := [];
    }

    /** Exchanges one frame; returns 0 on success and -1 on failure.
        On success the data byte of a read frame is replaced by the
        register's value; on failure the buffer is left as it was. */
    method WriteAndRead(buffer: array<Byte>) returns (ret: int)
      requires buffer.Length == 3
      modifies this, buffer
      ensures var r := Exchange(old(State()), Frame(old(buffer[0]), old(buffer[1]), old(buffer[2])));
              && State() == r.bus
              && ret == (if r.ok then 0 else -1)
              && buffer[0] == old(buffer[0]) && buffer[1] == old(buffer[1])
              && buffer[2] == r.data
    {
      var f := Frame(buffer[0], buffer[1], buffer[2]);
      var r := Exchange(State(), f);
      regs, fails, sent := r.bus.regs, r.bus.fails, r.bus.sent;
      buffer[2] := r.data;
      ret := if r.ok then 0 else -1;
    }
  }
}
