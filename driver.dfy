/** The MFRC522 driver as the firmware runs it: one object owning the SPI
    device, whose every register access is one SPI transfer. The object
    keeps the log of transfers issued so far; what the chip answers comes
    from the oracle `chip`, one byte per register read, in read order.
    Each operation is proved equal to its specification function. */
module Driver {
  import opened Frames
  import opened Transceive
  import opened Card
  import opened Startup

  class Mfrc522 {
    /** `Reply(chip, n)` is the byte the chip returns to the n-th register read. */
    const chip: seq<bv8>
    /** Number of register reads issued so far. */
    var cursor: nat
    /** Every SPI transfer issued so far, oldest first. */
    var log: seq<Frame>

    constructor (chip: seq<bv8>)
      ensures this.chip == chip && cursor == 0 && log == []
    {
      this.chip := chip;
      cursor := 0;
      log := [];
    }

    /** `mfrc522_write_register`: one two-byte transfer, nothing received. */
    method WriteRegister(reg: bv8, val: bv8)
      modifies this
      ensures log == old(log) + [WriteFrame(reg, val)] && cursor == old(cursor)
    {
      log := log + [WriteFrame(reg, val)];
    }

    /** `mfrc522_read_register`: one two-byte transfer; the value is the
        second byte received, the chip's next reply. */
    method ReadRegister(reg: bv8) returns (v: bv8)
      modifies this
      ensures v == Reply(chip, old(cursor)) && cursor == old(cursor) + 1
      ensures log == old(log) + [ReadFrame(reg)]
    {
      log := log + [ReadFrame(reg)];
      v := Reply(chip, cursor);
      cursor := cursor + 1;
    }

    /** `mfrc522_set_bit_mask`: read, then write back with `mask` set. */
    method SetBitMask(reg: bv8, mask: bv8)
      modifies this
      ensures log == old(log) + SetBitFrames(reg, Reply(chip, old(cursor)), mask)
      ensures cursor == old(cursor) + 1
    {
      var tmp := ReadRegister(reg);
      WriteRegister(reg, tmp | mask);
    }

    /** `mfrc522_clear_bit_mask`: read, then write back with `mask` clear. */
    method ClearBitMask(reg: bv8, mask: bv8)
      modifies this
      ensures log == old(log) + ClearBitFrames(reg, Reply(chip, old(cursor)), mask)
      ensures cursor == old(cursor) + 1
    {
      var tmp := ReadRegister(reg);
      WriteRegister(reg, tmp & !mask);
    }

    /** `mfrc522_antenna_on`. */
    method AntennaOn()
      modifies this
      ensures var a := AntennaRun(chip, old(cursor));
              log == old(log) + a.frames && cursor == old(cursor) + a.used
    {
      var val := ReadRegister(TxControlReg);
      if val & AntennaBits == 0 {
        SetBitMask(TxControlReg, AntennaBits);
      }
    }

    /** First part of `mfrc522_transceive`: interrupts enabled, the IRQ bit
        cleared, the FIFO flushed, the payload pushed byte by byte,
        TRANSCEIVE issued and StartSend set. */
    method StartCycle(send: seq<bv8>)
      modifies this
      ensures log == old(log) + StartFrames(send, Reply(chip, old(cursor)), Reply(chip, old(cursor) + 1), Reply(chip, old(cursor) + 2))
      ensures cursor == old(cursor) + 3
    {
      ghost var base := cursor;
      WriteRegister(ComIEnReg, IrqEn | 0x80);
      ClearBitMask(ComIrqReg, 0x80);
      SetBitMask(FifoLevelReg, FlushBuffer);
      ghost var flushed := log;
      var i := 0;
      while i < |send|
        invariant 0 <= i <= |send|
        invariant log == flushed + FifoWrites(send[..i]) && cursor == base + 2
      {
        WriteRegister(FifoDataReg, send[i]);
        assert send[..i + 1][..i] == send[..i];
        i := i + 1;
      }
      assert send[..i] == send;
      WriteRegister(CommandReg, PcdTransceive);
      SetBitMask(BitFramingReg, StartSend);
    }

    /** The wait loop of `mfrc522_transceive` and the StartSend clear after
        it. `i` is the loop counter the source tests afterwards: MaxPolls
        exactly when no ComIrqReg reply carried a WaitIrq bit. */
    method WaitForReply() returns (i: nat)
      modifies this
      ensures var k := PollReads(chip, old(cursor), 0);
              && i <= MaxPolls && (i == MaxPolls <==> !Completed(chip, old(cursor)))
              && log == old(log) + Repeat(ReadFrame(ComIrqReg), k) + StopFrames(Reply(chip, old(cursor) + k))
              && cursor == old(cursor) + k + 1
    {
      ghost var at := cursor;
      ghost var started := log;
      i := 0;
      while i < MaxPolls
        invariant 0 <= i <= MaxPolls
        invariant cursor == at + i
        invariant log == started + Repeat(ReadFrame(ComIrqReg), i)
        invariant forall n :: at <= n < at + i ==> !Flagged(Reply(chip, n))
      {
        var n := ReadRegister(ComIrqReg);
        if n & WaitIrq != 0 {
          break;
        }
        i := i + 1;
      }
      ghost var k := if i < MaxPolls then i + 1 else MaxPolls;
      LoopExit(chip, at, i);
      assert cursor == at + k && log == started + Repeat(ReadFrame(ComIrqReg), k);
      ClearBitMask(BitFramingReg, StartSend);
      assert log == started + Repeat(ReadFrame(ComIrqReg), k) + StopFrames(Reply(chip, at + k));
    }

    /** The read-out of `mfrc522_transceive`: FIFO level, valid bits of the
        last byte, then min(level, 16) FIFO_DATA reads. */
    method ReadOut(back: array<bv8>) returns (backLen: nat)
      modifies this, back
      ensures var level := Reply(chip, old(cursor));
              var n := ReadOutCount(level);
              && backLen == BitLength(level, Reply(chip, old(cursor) + 1) & RxLastBits)
              && log == old(log) + ReadBackFrames(n)
              && cursor == old(cursor) + 2 + n
              && back[..] == Store(old(back[..]), FifoBytes(chip, old(cursor) + 2, n))
    {
      var level, lastBits := ReadLevels();
      backLen := BitLength(level, lastBits);
      FifoBytesFrom(chip, cursor, old(cursor) + 2, ReadOutCount(level));
      ReadFifo(back, ReadOutCount(level));
      Regroup(old(log), [ReadFrame(FifoLevelReg), ReadFrame(ControlReg)], Repeat(ReadFrame(FifoDataReg), ReadOutCount(level)));
    }

    /** The two status reads of the read-out: the FIFO level and the valid
        bits of the last received byte. */
    method ReadLevels() returns (level: bv8, lastBits: bv8)
      modifies this
      ensures level == Reply(chip, old(cursor)) && lastBits == Reply(chip, old(cursor) + 1) & RxLastBits
      ensures log == old(log) + [ReadFrame(FifoLevelReg), ReadFrame(ControlReg)] && cursor == old(cursor) + 2
    {
      level := ReadRegister(FifoLevelReg);
      lastBits := ReadRegister(ControlReg);
      lastBits := lastBits & RxLastBits;
    }

    /** The FIFO_DATA loop of the read-out: `count` reads, byte i stored at
        `back[i]` when it fits. */
    method ReadFifo(back: array<bv8>, count: nat)
      modifies this, back
      ensures log == old(log) + Repeat(ReadFrame(FifoDataReg), count)
      ensures cursor == old(cursor) + count
      ensures back[..] == Store(old(back[..]), FifoBytes(chip, old(cursor), count))
    {
      ghost var at := cursor;
      ghost var before := log;
      var j := 0;
      while j < count
        invariant 0 <= j <= count
        invariant cursor == at + j
        invariant log == before + Repeat(ReadFrame(FifoDataReg), j)
        invariant back[..] == Store(old(back[..]), FifoBytes(chip, at, j))
      {
        var b := ReadRegister(FifoDataReg);
        StoreNext(old(back[..]), FifoBytes(chip, at, j), b);
        if j < back.Length {
          back[j] := b;
        }
        j := j + 1;
      }
    }

    /** The start-up and the wait loop of `mfrc522_transceive`, up to the
        StartSend clear. `i` is the loop counter the source tests next. */
    method StartAndWait(send: seq<bv8>) returns (i: nat)
      modifies this
      ensures log == old(log) + WaitedFrames(chip, old(cursor), send)
      ensures cursor == PollEnd(chip, old(cursor)) + 1
      ensures i <= MaxPolls && (i == MaxPolls <==> !Completed(chip, old(cursor) + 3))
    {
      StartCycle(send);
      WaitAt(chip, old(cursor), cursor);
      i := WaitForReply();
      ghost var k := PollReads(chip, old(cursor) + 3, 0);
      ghost var st := StartFrames(send, Reply(chip, old(cursor)), Reply(chip, old(cursor) + 1), Reply(chip, old(cursor) + 2));
      Regroup(old(log), st, Repeat(ReadFrame(ComIrqReg), k));
      Regroup(old(log), st + Repeat(ReadFrame(ComIrqReg), k), StopFrames(Reply(chip, PollEnd(chip, old(cursor)))));
    }

    /** The rest of a completed `mfrc522_transceive`: the ErrorReg check,
        the read-out when reply buffers were passed, and IDLE. */
    method Finish(back: array?<bv8>, backLenIn: nat) returns (ok: bool, backLen: nat)
      modifies this, back
      ensures var out := Outcome(chip, old(cursor), back != null, backLenIn);
              && ok == out.ok && backLen == out.backLen
              && log == old(log) + out.frames && cursor == old(cursor) + out.used
              && (back != null ==> back[..] == Store(old(back[..]), out.data))
    {
      var error := ReadRegister(ErrorReg);
      if error & ErrorMask != 0 {
        return false, backLenIn;
      }
      backLen := backLenIn;
      if back != null {
        ghost var n := ReadOutCount(Reply(chip, old(cursor) + 1));
        backLen := ReadOut(back);
        Regroup(old(log), [ReadFrame(ErrorReg)], ReadBackFrames(n));
        WriteRegister(CommandReg, PcdIdle);
        Regroup(old(log), [ReadFrame(ErrorReg)] + ReadBackFrames(n), [WriteFrame(CommandReg, PcdIdle)]);
      } else {
        WriteRegister(CommandReg, PcdIdle);
        Regroup(old(log), [ReadFrame(ErrorReg)], [WriteFrame(CommandReg, PcdIdle)]);
      }
      ok := true;
    }

    /** `mfrc522_transceive(send, .., back, &backLen)`. `back == null`
        stands for a call without reply buffers; `backLenIn` is the caller's
        `*back_len`. The read-out stores byte i at `back[i]` only when it
        fits: the transfers are those of the source either way. */
    method Transceive(send: seq<bv8>, back: array?<bv8>, backLenIn: nat) returns (ok: bool, backLen: nat)
      modifies this, back
      ensures var ex := TransceiveRun(chip, old(cursor), send, back != null, backLenIn);
              && ok == ex.ok && backLen == ex.backLen
              && log == old(log) + ex.frames && cursor == old(cursor) + ex.used
              && (back != null ==> back[..] == Store(old(back[..]), ex.data))
    {
      ghost var base := cursor;
      var i := StartAndWait(send);
      if i == MaxPolls {
        return false, backLenIn;
      }
      ok, backLen := Finish(back, backLenIn);
      Regroup(old(log), WaitedFrames(chip, base, send), Outcome(chip, PollEnd(chip, base) + 1, back != null, backLenIn).frames);
    }

    /** `mfrc522_request(mode)`. */
    method Request(mode: bv8) returns (ok: bool)
      modifies this
      ensures var r := RequestRun(chip, old(cursor), mode);
              ok == r.ok && log == old(log) + r.frames && cursor == old(cursor) + r.used
    {
      ghost var base := cursor;
      var back := new bv8[RequestBufferSize];
      var backLen := RequestBufferSize;
      WriteRegister(BitFramingReg, ShortFrame);
      var sent;
      sent, backLen := Transceive([mode], back, backLen);
      WriteRegister(BitFramingReg, FullFrame);
      ok := sent && backLen >= AtqaBits;
      ghost var ex := TransceiveRun(chip, base, [mode], true, RequestBufferSize);
      Regroup(old(log), [WriteFrame(BitFramingReg, ShortFrame)], ex.frames);
      Regroup(old(log), [WriteFrame(BitFramingReg, ShortFrame)] + ex.frames, [WriteFrame(BitFramingReg, FullFrame)]);
    }

    /** `mfrc522_anticoll(uid)`: `uid` is the caller's 4-byte UID struct. */
    method Anticoll(uid: array<bv8>) returns (ok: bool)
      requires uid.Length == UidSize
      modifies this, uid
      ensures var r := AnticollRun(chip, old(cursor));
              && ok == r.ok && uid[..] == UidAfter(r, old(uid[..]))
              && log == old(log) + r.frames && cursor == old(cursor) + r.used
    {
      ghost var base := cursor;
      var back := new bv8[AnticollBufferSize](_ => 0);
      assert back[..] == seq(AnticollBufferSize, _ => 0);
      var backLen := AnticollBufferSize;
      WriteRegister(BitFramingReg, FullFrame);
      var sent;
      sent, backLen := Transceive([PiccAnticoll, AnticollNvb], back, backLen);
      ghost var ex := TransceiveRun(chip, base, [PiccAnticoll, AnticollNvb], true, AnticollBufferSize);
      Regroup(old(log), [WriteFrame(BitFramingReg, FullFrame)], ex.frames);
      if !sent {
        return false;
      }
      if backLen < UidBits {
        return false;
      }
      ghost var buf := AnticollBuffer(ex);
      assert back[..] == buf;
      CopyUid(uid, back);
      var bcc := back[4];
      var check := uid[0] ^ uid[1] ^ uid[2] ^ uid[3];
      ok := bcc == check;
    }

    /** The UID copy loop of `mfrc522_anticoll`: the first four reply bytes. */
    method CopyUid(uid: array<bv8>, back: array<bv8>)
      requires uid.Length == UidSize && back.Length >= UidSize && uid != back
      modifies uid
      ensures uid[..] == back[..UidSize]
    {
      var i := 0;
      while i < UidSize
        invariant 0 <= i <= UidSize
        invariant uid[..i] == back[..i]
      {
        uid[i] := back[i];
        i := i + 1;
      }
    }

    /** `mfrc522_read_card(uid)`. */
    method ReadCard(uid: array<bv8>) returns (ok: bool)
      requires uid.Length == UidSize
      modifies this, uid
      ensures var r := ReadCardRun(chip, old(cursor));
              && ok == r.ok && uid[..] == UidAfter(r, old(uid[..]))
              && log == old(log) + r.frames && cursor == old(cursor) + r.used
    {
      var present := Request(PiccReqIdl);
      if !present {
        return false;
      }
      ReadCardThen(chip, old(cursor), cursor);
      ReadCardAnswered(chip, RequestRun(chip, old(cursor), PiccReqIdl), cursor);
      Regroup(old(log), RequestRun(chip, old(cursor), PiccReqIdl).frames, AnticollRun(chip, cursor).frames);
      ok := Anticoll(uid);
    }

    /** The register part of `mfrc522_init`; `busStatus` is what the SPI
        bus set-up returned. */
    method Init(busStatus: int) returns (ret: int)
      modifies this
      ensures var r := InitRun(chip, old(cursor), busStatus);
              && ret == (if r.ok then EspOk else busStatus)
              && log == old(log) + r.frames && cursor == old(cursor) + r.used
    {
      if busStatus != EspOk {
        return busStatus;
      }
      WriteRegister(CommandReg, PcdSoftReset);
      WriteRegister(TModeReg, 0x8D);
      WriteRegister(TPrescalerReg, 0x3E);
      WriteRegister(TReloadRegL, 30);
      WriteRegister(TReloadRegH, 0);
      WriteRegister(ModeReg, 0x3D);
      WriteRegister(RFCfgReg, 0x70);
      AntennaOn();
      var version := ReadRegister(VersionReg);
      ret := EspOk;
    }
  }
}
