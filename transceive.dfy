/** Specification of one transceive cycle of the MFRC522 (`mfrc522_transceive`):
    the SPI transfers it issues, the chip replies it consumes, its result,
    the bit length it reports and the bytes it reads back.

    The chip is an oracle `chip: seq<bv8>`: `Reply(chip, n)` is the byte the
    chip returns to the driver's n-th register read, whatever register that
    read addresses. A cycle whose first read is read number `base` is a pure
    function of `chip` and `base`. */
module Transceive {
  import opened Frames

  // Chip commands written to CommandReg.
  const PcdIdle: bv8 := 0x00
  const PcdTransceive: bv8 := 0x0C

  const IrqEn: bv8 := 0x77
  /** RxIRq | IdleIRq in ComIrqReg: the reply is complete. */
  const WaitIrq: bv8 := 0x30
  /** BufferOvfl | CollErr | ParityErr | ProtocolErr in ErrorReg. */
  const ErrorMask: bv8 := 0x1B
  /** StartSend bit of BitFramingReg. */
  const StartSend: bv8 := 0x80
  /** FlushBuffer bit of FifoLevelReg. */
  const FlushBuffer: bv8 := 0x80
  /** ValidBits of the last received byte, in ControlReg. */
  const RxLastBits: bv8 := 0x07
  const MaxPolls: nat := 1000
  /** The driver's bound on FIFO_DATA reads after a reply (the chip's FIFO
      itself holds 64 bytes). */
  const ReadOutClamp: nat := 16

  /** One FIFO_DATA write per payload byte, in payload order. */
  function FifoWrites(send: seq<bv8>): (fs: seq<Frame>)
    ensures |fs| == |send|
  {
    if send == [] then [] else FifoWrites(send[..|send| - 1]) + [WriteFrame(FifoDataReg, send[|send| - 1])]
  }

  /** The j-th payload write carries the j-th payload byte. */
  lemma {:induction false} FifoWritesAt(send: seq<bv8>)
    ensures forall j :: 0 <= j < |send| ==> FifoWrites(send)[j] == WriteFrame(FifoDataReg, send[j])
  {
    if send != [] {
      var init := send[..|send| - 1];
      FifoWritesAt(init);
      assert forall j :: 0 <= j < |init| ==> FifoWrites(send)[j] == FifoWrites(init)[j] && init[j] == send[j];
    }
  }

  /** Everything up to the wait loop: interrupts enabled, the stale IRQ bit
      cleared, the FIFO flushed, the payload pushed, TRANSCEIVE issued and
      StartSend set. `irq`, `level` and `framing` are the values the three
      read-modify-writes read. */
  function StartFrames(send: seq<bv8>, irq: bv8, level: bv8, framing: bv8): seq<Frame>
  {
    [WriteFrame(ComIEnReg, IrqEn | 0x80)]
    + ClearBitFrames(ComIrqReg, irq, 0x80)
    + SetBitFrames(FifoLevelReg, level, FlushBuffer)
    + FifoWrites(send)
    + [WriteFrame(CommandReg, PcdTransceive)]
    + SetBitFrames(BitFramingReg, framing, StartSend)
  }

  lemma StartFramesOrder(send: seq<bv8>, irq: bv8, level: bv8, framing: bv8)
    ensures var st := StartFrames(send, irq, level, framing);
            var s := |send|;
            && |st| == 8 + s
            && st[0] == WriteFrame(ComIEnReg, 0xF7)
            && st[1] == ReadFrame(ComIrqReg) && st[2] == WriteFrame(ComIrqReg, ClearBits(irq, 0x80))
            && st[3] == ReadFrame(FifoLevelReg) && st[4] == WriteFrame(FifoLevelReg, SetBits(level, 0x80))
            && (forall j :: 0 <= j < s ==> st[5 + j] == WriteFrame(FifoDataReg, send[j]))
            && st[5 + s] == WriteFrame(CommandReg, PcdTransceive)
            && st[6 + s] == ReadFrame(BitFramingReg)
            && st[7 + s] == WriteFrame(BitFramingReg, SetBits(framing, StartSend))
  {
    var st := StartFrames(send, irq, level, framing);
    var head := [WriteFrame(ComIEnReg, IrqEn | 0x80)] + ClearBitFrames(ComIrqReg, irq, 0x80)
                + SetBitFrames(FifoLevelReg, level, FlushBuffer);
    assert st == head + FifoWrites(send) + ([WriteFrame(CommandReg, PcdTransceive)] + SetBitFrames(BitFramingReg, framing, StartSend));
    assert |head| == 5;
    FifoWritesAt(send);
  }

  /** A frame no payload write can be: every FIFO write goes to FifoDataReg. */
  lemma NotAFifoWrite(send: seq<bv8>, f: Frame)
    requires !(f.WriteFrame? && f.reg == FifoDataReg)
    ensures f !in FifoWrites(send)
  {
    FifoWritesAt(send);
  }

  /** A ComIrqReg value that ends the wait loop. */
  predicate Flagged(irq: bv8)
  {
    irq & WaitIrq != 0
  }

  /** Number of ComIrqReg reads the wait loop makes, counting from loop
      iteration `i`, when iteration j's read is read number `at + j`: it
      stops at the first reply with a WaitIrq bit, or after MaxPolls reads. */
  function PollReads(chip: seq<bv8>, at: nat, i: nat): (k: nat)
    requires i < MaxPolls
    decreases MaxPolls - i
    ensures i < k <= MaxPolls
  {
    if Flagged(Reply(chip, at + i)) || i + 1 == MaxPolls then i + 1
    else PollReads(chip, at, i + 1)
  }

  /** The loop stops at the first flagged reply from iteration `i` on, or
      when the budget runs out. */
  lemma {:induction false} PollReadsStops(chip: seq<bv8>, at: nat, i: nat)
    requires i < MaxPolls
    decreases MaxPolls - i
    ensures var k := PollReads(chip, at, i);
            && (forall n :: at + i <= n < at + k - 1 ==> !Flagged(Reply(chip, n)))
            && (k < MaxPolls ==> Flagged(Reply(chip, at + k - 1)))
  {
    if !(Flagged(Reply(chip, at + i)) || i + 1 == MaxPolls) {
      PollReadsStops(chip, at, i + 1);
    }
  }

  /** The wait loop saw the completion flag (on its last read). */
  predicate Completed(chip: seq<bv8>, at: nat)
  {
    Flagged(Reply(chip, at + PollReads(chip, at, 0) - 1))
  }

  /** Counting from iteration `i`, the loop makes exactly `k` reads when
      the first flagged reply from there on is the k-th one. */
  lemma {:induction false} PollReadsFrom(chip: seq<bv8>, at: nat, i: nat, k: nat)
    requires i < k <= MaxPolls
    requires forall n :: at + i <= n < at + k - 1 ==> !Flagged(Reply(chip, n))
    requires k < MaxPolls ==> Flagged(Reply(chip, at + k - 1))
    decreases MaxPolls - i
    ensures PollReads(chip, at, i) == k
  {
    if i + 1 < k {
      assert !Flagged(Reply(chip, at + i));
      PollReadsFrom(chip, at, i + 1, k);
    }
  }

  /** The wait loop ends exactly at the first flagged reply: any reply count
      with the shape of PollReads' contract is PollReads' value. */
  lemma PollReadsUnique(chip: seq<bv8>, at: nat, k: nat)
    requires 0 < k <= MaxPolls
    requires forall n :: at <= n < at + k - 1 ==> !Flagged(Reply(chip, n))
    requires k < MaxPolls ==> Flagged(Reply(chip, at + k - 1))
    ensures PollReads(chip, at, 0) == k
  {
    PollReadsFrom(chip, at, 0, k);
  }

  /** The wait loop left with counter `i`, having seen no flag before read
      `at + i` and, unless the budget ran out, one at `at + i`: it made
      i + 1 reads (MaxPolls on timeout), and `i` is MaxPolls exactly when
      the cycle did not complete. */
  lemma LoopExit(chip: seq<bv8>, at: nat, i: nat)
    requires i <= MaxPolls
    requires forall n :: at <= n < at + i ==> !Flagged(Reply(chip, n))
    requires i < MaxPolls ==> Flagged(Reply(chip, at + i))
    ensures PollReads(chip, at, 0) == if i < MaxPolls then i + 1 else MaxPolls
    ensures i == MaxPolls <==> !Completed(chip, at)
  {
    PollReadsUnique(chip, at, if i < MaxPolls then i + 1 else MaxPolls);
  }

  /** A flagged reply among the first MaxPolls ends the loop with completion:
      the loop cannot have stopped earlier without a flag. */
  lemma FlagCompletes(chip: seq<bv8>, at: nat, n: nat)
    requires at <= n < at + MaxPolls && Flagged(Reply(chip, n))
    ensures Completed(chip, at)
  {
    var k := PollReads(chip, at, 0);
    PollReadsStops(chip, at, 0);
    if k < MaxPolls {
    } else {
      assert n >= at + k - 1;
    }
  }

  /** Completion happens iff one of the MaxPolls replies carries a WaitIrq
      bit; otherwise the loop runs out its budget. */
  lemma CompletedIff(chip: seq<bv8>, at: nat)
    ensures Completed(chip, at) <==> exists n :: at <= n < at + MaxPolls && Flagged(Reply(chip, n))
    ensures !Completed(chip, at) ==> PollReads(chip, at, 0) == MaxPolls
  {
    var k := PollReads(chip, at, 0);
    PollReadsStops(chip, at, 0);
    if Completed(chip, at) {
      assert at <= at + k - 1 < at + MaxPolls && Flagged(Reply(chip, at + k - 1));
    }
    if exists n :: at <= n < at + MaxPolls && Flagged(Reply(chip, n)) {
      var n :| at <= n < at + MaxPolls && Flagged(Reply(chip, n));
      FlagCompletes(chip, at, n);
    }
  }

  /** The two transfers after the wait loop: StartSend cleared again, on
      timeout and on completion alike. */
  function StopFrames(framing: bv8): seq<Frame>
  {
    ClearBitFrames(BitFramingReg, framing, StartSend)
  }

  /** `*back_len`: the reply length in bits, computed from the unclamped FIFO
      level and the valid bits of the last byte, stored in a uint8_t. */
  function BitLength(level: bv8, lastBits: bv8): (len: nat)
    ensures len < 256
  {
    (if lastBits != 0 then (level as int - 1) * 8 + lastBits as int else level as int * 8) % 256
  }

  /** The reply length in bits, without the uint8_t truncation. */
  function ExactBits(level: bv8, lastBits: bv8): int
  {
    if lastBits != 0 then (level as int - 1) * 8 + lastBits as int else level as int * 8
  }

  /** For every FIFO level up to 31 (32 when the last byte is partial) the
      reported length is the exact bit count. */
  lemma BitLengthExact(level: bv8, lastBits: bv8)
    requires lastBits <= RxLastBits
    requires if lastBits == 0 then level <= 31 else 1 <= level <= 32
    ensures BitLength(level, lastBits) == ExactBits(level, lastBits)
  {
  }

  /** An empty FIFO with valid-bit count b reports 248 + b bits: the
      subtraction `fifoLevel - 1` wraps. */
  lemma BitLengthUnderflow(lastBits: bv8)
    requires 1 <= lastBits <= RxLastBits
    ensures BitLength(0, lastBits) == 248 + lastBits as int
  {
  }

  /** 32 full bytes report 0 bits: the product wraps past 255. */
  lemma BitLengthOverflow()
    ensures BitLength(32, 0) == 0
  {
  }

  /** How many FIFO_DATA reads follow the level read: the level, clamped by
      the driver to 16. */
  function ReadOutCount(level: bv8): (n: nat)
    ensures n <= ReadOutClamp
    ensures n == level as int || (level as int > ReadOutClamp && n == ReadOutClamp)
  {
    if level as int > ReadOutClamp then ReadOutClamp else level as int
  }

  /** The ten-byte reply buffer of the anticollision step. */
  const AnticollBufferSize: nat := 10
  /** `sizeof(back_data)` in `mfrc522_request`. */
  const RequestBufferSize: nat := 16

  /** As written, the read-out may hand more bytes than the anticollision
      buffer holds: a FIFO level of 11 to 16 makes the read loop index
      `back_data` past its end. */
  lemma ReadOutOverrunsAnticollBuffer()
    ensures exists level: bv8 :: ReadOutCount(level) > AnticollBufferSize
    ensures forall level: bv8 :: level > 10 ==> ReadOutCount(level) > AnticollBufferSize
  {
    assert ReadOutCount(16) == 16;
  }

  /** The caller's buffer after the read-out, stored with a bound check: the
      i-th byte read lands at index i when it fits, and nothing is written
      past the end. */
  function Store(buf: seq<bv8>, data: seq<bv8>): (r: seq<bv8>)
    ensures |r| == |buf|
    ensures forall i :: 0 <= i < |buf| ==> r[i] == (if i < |data| then data[i] else buf[i])
  {
    if |data| <= |buf| then data + buf[|data|..] else data[..|buf|]
  }

  /** Storing one more byte: it lands at the next index when that is inside
      the buffer, and is dropped otherwise. */
  lemma StoreNext(buf: seq<bv8>, data: seq<bv8>, b: bv8)
    ensures Store(buf, data + [b])
            == if |data| < |buf| then Store(buf, data)[|data| := b] else Store(buf, data)
  {
    var r := Store(buf, data + [b]);
    if |data| < |buf| {
      assert r == Store(buf, data)[|data| := b] by {
        forall j | 0 <= j < |buf|
          ensures r[j] == Store(buf, data)[|data| := b][j]
        {
          if j < |data| {
            assert r[..|data| + 1][j] == (data + [b])[j];
            assert Store(buf, data)[..|data|][j] == data[j];
          } else if j == |data| {
            assert r[..|data| + 1][j] == b;
          } else {
            assert r[|data| + 1..][j - |data| - 1] == buf[|data| + 1..][j - |data| - 1];
            assert Store(buf, data)[|data|..][j - |data|] == buf[|data|..][j - |data|];
          }
        }
      }
    } else {
      assert r == (data + [b])[..|buf|];
      assert (data + [b])[..|buf|] == data[..|buf|];
    }
  }

  /** The bytes read from FIFO_DATA, the j-th one being read number at + j. */
  function FifoBytes(chip: seq<bv8>, at: nat, n: nat): (data: seq<bv8>)
    ensures |data| == n
  {
    if n == 0 then [] else FifoBytes(chip, at, n - 1) + [Reply(chip, at + n - 1)]
  }

  /** The bytes read out depend only on the read number of the first one. */
  lemma FifoBytesFrom(chip: seq<bv8>, at: nat, at': nat, n: nat)
    requires at == at'
    ensures FifoBytes(chip, at, n) == FifoBytes(chip, at', n)
  {
  }

  /** The j-th byte read out is the reply to read number `at + j`. */
  lemma {:induction false} FifoBytesAt(chip: seq<bv8>, at: nat, n: nat)
    ensures forall j :: 0 <= j < n ==> FifoBytes(chip, at, n)[j] == Reply(chip, at + j)
  {
    if n > 0 {
      FifoBytesAt(chip, at, n - 1);
      assert forall j :: 0 <= j < n - 1 ==> FifoBytes(chip, at, n)[j] == FifoBytes(chip, at, n - 1)[j];
    }
  }

  /** The read-out after a clean completion: FIFO level, valid bits, then
      `n` FIFO_DATA reads. */
  function ReadBackFrames(n: nat): seq<Frame>
  {
    [ReadFrame(FifoLevelReg), ReadFrame(ControlReg)] + Repeat(ReadFrame(FifoDataReg), n)
  }

  /** What one transceive cycle does: its boolean result, the transfers it
      issues, how many chip replies it consumes, the value left in
      `*back_len` and the bytes it reads out of the FIFO. */
  datatype Exchange = Exchange(ok: bool, frames: seq<Frame>, used: nat, backLen: nat, data: seq<bv8>)

  /** Read number of the BitFramingReg read that follows the wait loop of
      the cycle starting at read `base`; the ErrorReg read is the next one,
      then FifoLevelReg, ControlReg and the FIFO bytes. */
  function PollEnd(chip: seq<bv8>, base: nat): nat
  {
    base + 3 + PollReads(chip, base + 3, 0)
  }

  /** The wait loop of the cycle starting at read `base` starts at read
      `base + 3`, and its StartSend clear reads read number PollEnd. */
  lemma WaitAt(chip: seq<bv8>, base: nat, at: nat)
    requires at == base + 3
    ensures PollReads(chip, at, 0) == PollReads(chip, base + 3, 0)
    ensures Completed(chip, at) == Completed(chip, base + 3)
    ensures Reply(chip, at + PollReads(chip, at, 0)) == Reply(chip, PollEnd(chip, base))
  {
  }

  /** The error register read after completion has a collision, parity,
      protocol or buffer-overflow bit set. */
  predicate ErrorFlagged(chip: seq<bv8>, base: nat)
  {
    Reply(chip, PollEnd(chip, base) + 1) & ErrorMask != 0
  }

  /** The transfers every cycle issues, whatever its outcome: the start-up,
      the k polls and the StartSend clear. */
  function WaitedFrames(chip: seq<bv8>, base: nat, send: seq<bv8>): seq<Frame>
  {
    StartFrames(send, Reply(chip, base), Reply(chip, base + 1), Reply(chip, base + 2))
    + Repeat(ReadFrame(ComIrqReg), PollReads(chip, base + 3, 0))
    + StopFrames(Reply(chip, PollEnd(chip, base)))
  }

  /** What a completed cycle does after the wait loop, when the ErrorReg
      read is read number `at`: fail on an error bit; otherwise, with reply
      buffers, read the FIFO level, the valid bits and min(level, 16) FIFO
      bytes; then write IDLE. */
  function Outcome(chip: seq<bv8>, at: nat, wantsReply: bool, backLenIn: nat): Exchange
  {
    if Reply(chip, at) & ErrorMask != 0 then
      Exchange(false, [ReadFrame(ErrorReg)], 1, backLenIn, [])
    else if !wantsReply then
      Exchange(true, [ReadFrame(ErrorReg)] + [WriteFrame(CommandReg, PcdIdle)], 1, backLenIn, [])
    else
      var level := Reply(chip, at + 1);
      var n := ReadOutCount(level);
      Exchange(true, [ReadFrame(ErrorReg)] + ReadBackFrames(n) + [WriteFrame(CommandReg, PcdIdle)],
               3 + n, BitLength(level, Reply(chip, at + 2) & RxLastBits), FifoBytes(chip, at + 3, n))
  }

  /** The cycle `mfrc522_transceive(send, ..)` whose first chip read is read
      number `base`. `wantsReply` says whether the caller passed reply
      buffers; `backLenIn` is the caller's `*back_len`, left alone on failure. */
  function TransceiveRun(chip: seq<bv8>, base: nat, send: seq<bv8>, wantsReply: bool, backLenIn: nat): Exchange
  {
    var e := PollEnd(chip, base);
    var waited := WaitedFrames(chip, base, send);
    if !Completed(chip, base + 3) then
      Exchange(false, waited, e + 1 - base, backLenIn, [])
    else
      var out := Outcome(chip, e + 1, wantsReply, backLenIn);
      Exchange(out.ok, waited + out.frames, e + 1 - base + out.used, out.backLen, out.data)
  }

  /** Every outcome begins with the same transfers. */
  lemma WaitedPrefix(chip: seq<bv8>, base: nat, send: seq<bv8>, wantsReply: bool, backLenIn: nat)
    ensures WaitedFrames(chip, base, send) <= TransceiveRun(chip, base, send, wantsReply, backLenIn).frames
  {
  }

  /** Shape of start-up, k polls and StartSend clear, for any k. */
  lemma WaitedShape(start: seq<Frame>, k: nat, framing: bv8)
    ensures var w := start + Repeat(ReadFrame(ComIrqReg), k) + StopFrames(framing);
            var m := |start|;
            && |w| == m + k + 2
            && w[..m] == start
            && (forall j :: m <= j < m + k ==> w[j] == ReadFrame(ComIrqReg))
            && w[m + k] == ReadFrame(BitFramingReg)
            && w[m + k + 1] == WriteFrame(BitFramingReg, ClearBits(framing, StartSend))
  {
    var polls := Repeat(ReadFrame(ComIrqReg), k);
    var w := start + polls + StopFrames(framing);
    RepeatAll(ReadFrame(ComIrqReg), k);
    assert forall j :: |start| <= j < |start| + k ==> w[j] == polls[j - |start|];
  }

  /** The transfers every cycle begins with, in order. */
  lemma WaitedOrder(chip: seq<bv8>, base: nat, send: seq<bv8>)
    ensures var w := WaitedFrames(chip, base, send);
            var s := |send|;
            var k := PollReads(chip, base + 3, 0);
            && |w| == 10 + s + k
            && w[..8 + s] == StartFrames(send, Reply(chip, base), Reply(chip, base + 1), Reply(chip, base + 2))
            && (forall j :: 8 + s <= j < 8 + s + k ==> w[j] == ReadFrame(ComIrqReg))
            && w[8 + s + k] == ReadFrame(BitFramingReg)
            && w[9 + s + k] == WriteFrame(BitFramingReg, ClearBits(Reply(chip, base + 3 + k), StartSend))
  {
    var k := PollReads(chip, base + 3, 0);
    var start := StartFrames(send, Reply(chip, base), Reply(chip, base + 1), Reply(chip, base + 2));
    StartFramesOrder(send, Reply(chip, base), Reply(chip, base + 1), Reply(chip, base + 2));
    WaitedShape(start, k, Reply(chip, base + 3 + k));
  }

  /** The order of the transfers: COMIEN write, IRQ bit 7 cleared, FIFO
      flushed, the payload bytes in index order, TRANSCEIVE, StartSend set,
      k ComIrqReg polls, then StartSend cleared, on every outcome. */
  lemma TransceiveOrder(chip: seq<bv8>, base: nat, send: seq<bv8>, wantsReply: bool, backLenIn: nat)
    ensures var fs := TransceiveRun(chip, base, send, wantsReply, backLenIn).frames;
            var s := |send|;
            var k := PollReads(chip, base + 3, 0);
            && |fs| >= 10 + s + k
            && fs[0] == WriteFrame(ComIEnReg, 0xF7)
            && fs[1] == ReadFrame(ComIrqReg) && fs[2] == WriteFrame(ComIrqReg, ClearBits(Reply(chip, base), 0x80))
            && fs[3] == ReadFrame(FifoLevelReg) && fs[4] == WriteFrame(FifoLevelReg, SetBits(Reply(chip, base + 1), 0x80))
            && (forall j :: 0 <= j < s ==> fs[5 + j] == WriteFrame(FifoDataReg, send[j]))
            && fs[5 + s] == WriteFrame(CommandReg, PcdTransceive)
            && fs[6 + s] == ReadFrame(BitFramingReg)
            && fs[7 + s] == WriteFrame(BitFramingReg, SetBits(Reply(chip, base + 2), StartSend))
            && (forall j :: 8 + s <= j < 8 + s + k ==> fs[j] == ReadFrame(ComIrqReg))
            && fs[8 + s + k] == ReadFrame(BitFramingReg)
            && fs[9 + s + k] == WriteFrame(BitFramingReg, ClearBits(Reply(chip, base + 3 + k), StartSend))
  {
    var fs := TransceiveRun(chip, base, send, wantsReply, backLenIn).frames;
    var w := WaitedFrames(chip, base, send);
    var s := |send|;
    var start := StartFrames(send, Reply(chip, base), Reply(chip, base + 1), Reply(chip, base + 2));
    WaitedPrefix(chip, base, send, wantsReply, backLenIn);
    WaitedOrder(chip, base, send);
    StartFramesOrder(send, Reply(chip, base), Reply(chip, base + 1), Reply(chip, base + 2));
    assert forall j :: 0 <= j < |w| ==> fs[j] == w[j];
    assert forall j :: 0 <= j < 8 + s ==> w[j] == start[j];
  }

  /** The cycle succeeds iff the wait loop saw completion and the error
      register has none of the bits of 0x1B. */
  lemma TransceiveOkIff(chip: seq<bv8>, base: nat, send: seq<bv8>, wantsReply: bool, backLenIn: nat)
    ensures TransceiveRun(chip, base, send, wantsReply, backLenIn).ok
            <==> Completed(chip, base + 3) && !ErrorFlagged(chip, base)
  {
  }

  /** What a cycle issues up to the StartSend clear: nothing touches
      ErrorReg, the only CommandReg write is TRANSCEIVE, and every
      FifoDataReg access is a payload write. */
  lemma WaitedRegisters(chip: seq<bv8>, base: nat, send: seq<bv8>)
    ensures forall f :: f in WaitedFrames(chip, base, send) ==>
              && f.reg != ErrorReg
              && (f.reg == CommandReg ==> f == WriteFrame(CommandReg, PcdTransceive))
              && (f.reg == FifoDataReg ==> f.WriteFrame?)
  {
    var start := StartFrames(send, Reply(chip, base), Reply(chip, base + 1), Reply(chip, base + 2));
    var polls := Repeat(ReadFrame(ComIrqReg), PollReads(chip, base + 3, 0));
    assert WaitedFrames(chip, base, send) == start + polls + StopFrames(Reply(chip, PollEnd(chip, base)));
    StartRegisters(send, Reply(chip, base), Reply(chip, base + 1), Reply(chip, base + 2));
    RepeatAll(ReadFrame(ComIrqReg), |polls|);
  }

  lemma StartRegisters(send: seq<bv8>, irq: bv8, level: bv8, framing: bv8)
    ensures forall f :: f in StartFrames(send, irq, level, framing) ==>
              && f.reg != ErrorReg
              && (f.reg == CommandReg ==> f == WriteFrame(CommandReg, PcdTransceive))
              && (f.reg == FifoDataReg ==> f.WriteFrame?)
  {
    FifoWritesAt(send);
  }

  /** No ComIrqReg reply among the MaxPolls carries a completion bit: the
      cycle fails after exactly MaxPolls polls and the StartSend clear,
      without reading the error register, and leaves `*back_len` alone. */
  lemma TimeoutAborts(chip: seq<bv8>, base: nat, send: seq<bv8>, wantsReply: bool, backLenIn: nat)
    requires forall n :: base + 3 <= n < base + 3 + MaxPolls ==> !Flagged(Reply(chip, n))
    ensures var ex := TransceiveRun(chip, base, send, wantsReply, backLenIn);
            && !ex.ok && ex.backLen == backLenIn && ex.data == []
            && |ex.frames| == 10 + |send| + MaxPolls && ex.used == 4 + MaxPolls
            && ReadFrame(ErrorReg) !in ex.frames
  {
    CompletedIff(chip, base + 3);
    WaitedRegisters(chip, base, send);
  }

  /** A completed cycle whose error register has a bit of 0x1B set fails on
      that read: no FIFO read-out and no IDLE command follow. */
  lemma ErrorAborts(chip: seq<bv8>, base: nat, send: seq<bv8>, wantsReply: bool, backLenIn: nat)
    requires Completed(chip, base + 3) && ErrorFlagged(chip, base)
    ensures var ex := TransceiveRun(chip, base, send, wantsReply, backLenIn);
            && !ex.ok && ex.backLen == backLenIn && ex.data == []
            && ex.frames[|ex.frames| - 1] == ReadFrame(ErrorReg)
            && WriteFrame(CommandReg, PcdIdle) !in ex.frames
            && ReadFrame(FifoDataReg) !in ex.frames
  {
    WaitedRegisters(chip, base, send);
  }

  /** A clean completion with reply buffers: `*back_len` is the bit length
      of the unclamped FIFO level and valid-bit count, and the bytes read
      back are the min(level, 16) replies following the ControlReg read
      (FifoBytesAt gives them one by one). */
  lemma ReadBack(chip: seq<bv8>, base: nat, send: seq<bv8>, backLenIn: nat)
    requires Completed(chip, base + 3) && !ErrorFlagged(chip, base)
    ensures var ex := TransceiveRun(chip, base, send, true, backLenIn);
            var e := PollEnd(chip, base);
            var level := Reply(chip, e + 2);
            var n := ReadOutCount(level);
            && ex.ok && ex.used == e + 4 + n - base
            && ex.backLen == BitLength(level, Reply(chip, e + 3) & RxLastBits)
            && ex.data == FifoBytes(chip, e + 4, n)
  {
  }

  /** A cycle whose first ComIrqReg poll is flagged and whose ErrorReg read
      is clean: the reply is read out right after the StartSend clear. */
  lemma FirstPollCompletes(chip: seq<bv8>, base: nat, send: seq<bv8>, backLenIn: nat)
    requires Flagged(Reply(chip, base + 3)) && Reply(chip, base + 5) & ErrorMask == 0
    ensures PollEnd(chip, base) == base + 4
    ensures var ex := TransceiveRun(chip, base, send, true, backLenIn);
            var level := Reply(chip, base + 6);
            var n := ReadOutCount(level);
            && ex.ok && ex.used == 8 + n
            && ex.backLen == BitLength(level, Reply(chip, base + 7) & RxLastBits)
            && ex.data == FifoBytes(chip, base + 8, n)
  {
    assert PollReads(chip, base + 3, 0) == 1;
    ReadBack(chip, base, send, backLenIn);
  }

  /** The transfers of a clean completion with reply buffers end with
      min(level, 16) FIFO_DATA reads and the IDLE command. */
  lemma ReadBackOrder(chip: seq<bv8>, base: nat, send: seq<bv8>, backLenIn: nat)
    requires Completed(chip, base + 3) && !ErrorFlagged(chip, base)
    ensures var fs := TransceiveRun(chip, base, send, true, backLenIn).frames;
            var n := ReadOutCount(Reply(chip, PollEnd(chip, base) + 2));
            && |fs| > n
            && fs[|fs| - 1] == WriteFrame(CommandReg, PcdIdle)
            && (forall j :: |fs| - 1 - n <= j < |fs| - 1 ==> fs[j] == ReadFrame(FifoDataReg))
  {
    CleanRunFrames(chip, base, send, backLenIn);
    ReadOutTail(WaitedFrames(chip, base, send), ReadOutCount(Reply(chip, PollEnd(chip, base) + 2)));
  }

  /** The transfers of the clean-completion branch with reply buffers. */
  lemma CleanRunFrames(chip: seq<bv8>, base: nat, send: seq<bv8>, backLenIn: nat)
    requires Completed(chip, base + 3) && !ErrorFlagged(chip, base)
    ensures var n := ReadOutCount(Reply(chip, PollEnd(chip, base) + 2));
            TransceiveRun(chip, base, send, true, backLenIn).frames
            == WaitedFrames(chip, base, send) + [ReadFrame(ErrorReg)] + ReadBackFrames(n) + [WriteFrame(CommandReg, PcdIdle)]
  {
  }

  /** The last n + 1 transfers of a read-out: n FIFO_DATA reads, then IDLE. */
  lemma ReadOutTail(waited: seq<Frame>, n: nat)
    ensures var fs := waited + [ReadFrame(ErrorReg)] + ReadBackFrames(n) + [WriteFrame(CommandReg, PcdIdle)];
            && |fs| == |waited| + 4 + n
            && fs[|fs| - 1] == WriteFrame(CommandReg, PcdIdle)
            && (forall j :: |fs| - 1 - n <= j < |fs| - 1 ==> fs[j] == ReadFrame(FifoDataReg))
  {
    var fifoReads := Repeat(ReadFrame(FifoDataReg), n);
    RepeatAll(ReadFrame(FifoDataReg), n);
    var pre := waited + [ReadFrame(ErrorReg)] + [ReadFrame(FifoLevelReg), ReadFrame(ControlReg)];
    var fs := waited + [ReadFrame(ErrorReg)] + ReadBackFrames(n) + [WriteFrame(CommandReg, PcdIdle)];
    assert fs == pre + fifoReads + [WriteFrame(CommandReg, PcdIdle)];
    assert forall j :: |pre| <= j < |pre| + n ==> fs[j] == fifoReads[j - |pre|];
  }

  /** Without reply buffers a clean completion reads nothing back. */
  lemma NoReplyBuffers(chip: seq<bv8>, base: nat, send: seq<bv8>, backLenIn: nat)
    requires Completed(chip, base + 3) && !ErrorFlagged(chip, base)
    ensures var ex := TransceiveRun(chip, base, send, false, backLenIn);
            && ex.ok && ex.backLen == backLenIn && ex.data == []
            && ex.frames == WaitedFrames(chip, base, send) + [ReadFrame(ErrorReg)] + [WriteFrame(CommandReg, PcdIdle)]
  {
  }
}
