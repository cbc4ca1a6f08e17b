/** Specification of the card protocol steps of the MFRC522 driver
    (clause 6 of ISO/IEC 14443-3, Type A): the 7-bit short-frame REQA,
    the cascade-level-1 anticollision with its block check character, and
    `mfrc522_read_card`, which composes the two. */
module Card {
  import opened Frames
  import opened Transceive

  /** REQA, sent as a 7-bit short frame. */
  const PiccReqIdl: bv8 := 0x26
  /** SEL of cascade level 1, followed by NVB 0x20 (no UID bits known yet). */
  const PiccAnticoll: bv8 := 0x93
  const AnticollNvb: bv8 := 0x20
  /** BitFramingReg value for a 7-bit last byte (TxLastBits = 7). */
  const ShortFrame: bv8 := 0x07
  const FullFrame: bv8 := 0x00
  /** Reply lengths in bits: ATQA is 16 bits, UID plus BCC 40 bits. */
  const AtqaBits: nat := 16
  const UidBits: nat := 40
  const UidSize: nat := 4

  /** The block check character of a 4-byte UID. */
  function Bcc(uid: seq<bv8>): (bcc: bv8)
    requires |uid| == UidSize
    ensures bcc ^ uid[0] ^ uid[1] ^ uid[2] ^ uid[3] == 0
  {
    uid[0] ^ uid[1] ^ uid[2] ^ uid[3]
  }

  /** The BCC catches every error confined to one byte of the UID. */
  lemma BccDetectsOneByteError(uid: seq<bv8>, uid': seq<bv8>, j: nat)
    requires |uid| == |uid'| == UidSize && j < UidSize
    requires uid[j] != uid'[j]
    requires forall i :: 0 <= i < UidSize && i != j ==> uid[i] == uid'[i]
    ensures Bcc(uid) != Bcc(uid')
  {
    assert uid[0] == uid'[0] || j == 0;
    assert uid[1] == uid'[1] || j == 1;
    assert uid[2] == uid'[2] || j == 2;
    assert uid[3] == uid'[3] || j == 3;
  }

  /** `mfrc522_request(mode)` whose first chip read is read number `base`:
      7-bit framing, a one-byte transceive into a 16-byte buffer, full-byte
      framing restored; presence when the transceive succeeds with at least
      16 reply bits. */
  function RequestRun(chip: seq<bv8>, base: nat, mode: bv8): Step
  {
    var ex := TransceiveRun(chip, base, [mode], true, RequestBufferSize);
    Step(ex.ok && ex.backLen >= AtqaBits,
         [WriteFrame(BitFramingReg, ShortFrame)] + ex.frames + [WriteFrame(BitFramingReg, FullFrame)],
         ex.used)
  }

  /** The request brackets the transceive between 7-bit and full-byte
      framing, whatever its outcome, and sends just the mode byte. */
  lemma RequestFraming(chip: seq<bv8>, base: nat, mode: bv8)
    ensures var fs := RequestRun(chip, base, mode).frames;
            && |fs| >= 12
            && fs[0] == WriteFrame(BitFramingReg, ShortFrame)
            && fs[6] == WriteFrame(FifoDataReg, mode)
            && fs[7] == WriteFrame(CommandReg, PcdTransceive)
            && fs[|fs| - 1] == WriteFrame(BitFramingReg, FullFrame)
  {
    TransceiveOrder(chip, base, [mode], true, RequestBufferSize);
  }

  /** Presence is reported iff the transceive completed with a clean error
      register and the reply holds at least 16 bits; any shorter reply, a
      timeout or an error is "no card". */
  lemma RequestOkIff(chip: seq<bv8>, base: nat, mode: bv8)
    ensures var e := PollEnd(chip, base);
            RequestRun(chip, base, mode).ok
            <==> Completed(chip, base + 3) && !ErrorFlagged(chip, base)
                 && BitLength(Reply(chip, e + 2), Reply(chip, e + 3) & RxLastBits) >= AtqaBits
  {
    TransceiveOkIff(chip, base, [mode], true, RequestBufferSize);
    if Completed(chip, base + 3) && !ErrorFlagged(chip, base) {
      ReadBack(chip, base, [mode], RequestBufferSize);
    }
  }

  /** What the anticollision step (and a whole read cycle) does: the result,
      the four bytes copied into the caller's UID (None when the copy is not
      reached), the transfers, the replies used. */
  datatype UidRead = UidRead(ok: bool, copied: Option<seq<bv8>>, frames: seq<Frame>, used: nat)

  /** The caller's UID bytes after a step that started from `before`. */
  function UidAfter(r: UidRead, before: seq<bv8>): (after: seq<bv8>)
  {
    if r.copied.Some? then r.copied.value else before
  }

  /** The zero-initialised ten-byte reply buffer after the read-out. */
  function AnticollBuffer(ex: Exchange): (buf: seq<bv8>)
    ensures |buf| == AnticollBufferSize
  {
    Store(seq(AnticollBufferSize, _ => 0), ex.data)
  }

  /** `mfrc522_anticoll(uid)` whose first chip read is read number `base`.
      The UID bytes are copied out before the BCC check, so a BCC mismatch
      still overwrites them. */
  function AnticollRun(chip: seq<bv8>, base: nat): UidRead
  {
    var ex := TransceiveRun(chip, base, [PiccAnticoll, AnticollNvb], true, AnticollBufferSize);
    var frames := [WriteFrame(BitFramingReg, FullFrame)] + ex.frames;
    if !ex.ok || ex.backLen < UidBits then UidRead(false, None, frames, ex.used)
    else
      var buf := AnticollBuffer(ex);
      UidRead(buf[4] == Bcc(buf[..UidSize]), Some(buf[..UidSize]), frames, ex.used)
  }

  /** A failed transceive or a reply shorter than 40 bits yields no UID and
      leaves the caller's bytes alone: the BCC is never looked at. */
  lemma AnticollRejectsShort(chip: seq<bv8>, base: nat)
    requires var ex := TransceiveRun(chip, base, [PiccAnticoll, AnticollNvb], true, AnticollBufferSize);
             !ex.ok || ex.backLen < UidBits
    ensures !AnticollRun(chip, base).ok && AnticollRun(chip, base).copied == None
  {
  }

  /** A reply of at least 40 bits: the UID is the first four bytes of the
      buffer, and it is accepted iff the fifth byte is their BCC. */
  lemma AnticollChecksBcc(chip: seq<bv8>, base: nat)
    requires var ex := TransceiveRun(chip, base, [PiccAnticoll, AnticollNvb], true, AnticollBufferSize);
             ex.ok && ex.backLen >= UidBits
    ensures var ex := TransceiveRun(chip, base, [PiccAnticoll, AnticollNvb], true, AnticollBufferSize);
            var buf := AnticollBuffer(ex);
            var r := AnticollRun(chip, base);
            && r.copied == Some(buf[..UidSize])
            && (r.ok <==> buf[4] == Bcc(buf[..UidSize]))
  {
  }

  /** With a reply of at least 40 bits that fits the buffer and starts
      with `uid` and `bcc`, the UID copied out is `uid`, and it is accepted
      iff `bcc` is its BCC. */
  lemma AnticollReplyBytes(chip: seq<bv8>, base: nat, uid: seq<bv8>, bcc: bv8, rest: seq<bv8>)
    requires |uid| == UidSize && UidSize + 1 + |rest| <= AnticollBufferSize
    requires var ex := TransceiveRun(chip, base, [PiccAnticoll, AnticollNvb], true, AnticollBufferSize);
             ex.ok && ex.backLen >= UidBits && ex.data == uid + [bcc] + rest
    ensures AnticollRun(chip, base).copied == Some(uid)
    ensures AnticollRun(chip, base).ok <==> bcc == Bcc(uid)
  {
    AnticollChecksBcc(chip, base);
    var data := uid + [bcc] + rest;
    var buf := Store(seq(AnticollBufferSize, _ => 0), data);
    assert buf[..|data|] == data;
    assert buf[..UidSize] == uid && buf[UidSize] == bcc by {
      assert buf[..UidSize] == buf[..|data|][..UidSize] == data[..UidSize];
      assert data[..UidSize] == uid;
      assert buf[UidSize] == buf[..|data|][UidSize] == data[UidSize];
    }
  }

  /** A reply that claims at least 40 bits but leaves nothing in the FIFO
      is read from the zero-filled buffer: UID 00 00 00 00, whose BCC 0 is
      the fifth zero, so it is accepted. */
  lemma AnticollEmptyReply(chip: seq<bv8>, base: nat)
    requires var ex := TransceiveRun(chip, base, [PiccAnticoll, AnticollNvb], true, AnticollBufferSize);
             ex.ok && ex.backLen >= UidBits && ex.data == []
    ensures AnticollRun(chip, base).ok && AnticollRun(chip, base).copied == Some([0, 0, 0, 0])
  {
    AnticollChecksBcc(chip, base);
    var buf := Store(seq(AnticollBufferSize, _ => 0), []);
    assert buf[..UidSize] == [0, 0, 0, 0] && buf[UidSize] == 0;
  }

  /** The caller's UID after the anticollision step: untouched when the
      transceive fails or the reply is shorter than 40 bits, otherwise the
      first four bytes of the reply buffer, whatever the BCC says. */
  lemma AnticollLeavesUid(chip: seq<bv8>, base: nat, before: seq<bv8>)
    ensures var ex := TransceiveRun(chip, base, [PiccAnticoll, AnticollNvb], true, AnticollBufferSize);
            UidAfter(AnticollRun(chip, base), before)
            == if !ex.ok || ex.backLen < UidBits then before else AnticollBuffer(ex)[..UidSize]
  {
    var ex := TransceiveRun(chip, base, [PiccAnticoll, AnticollNvb], true, AnticollBufferSize);
    if !ex.ok || ex.backLen < UidBits {
      AnticollRejectsShort(chip, base);
    } else {
      AnticollChecksBcc(chip, base);
    }
  }

  /** As written, the anticollision read-out overruns its ten-byte buffer:
      a clean reply whose FIFO level is above 10 hands back more bytes than
      `back_data` holds. */
  lemma AnticollReadOutOverruns(chip: seq<bv8>, base: nat)
    requires Flagged(Reply(chip, base + 3)) && Reply(chip, base + 5) & ErrorMask == 0
    requires Reply(chip, base + 6) > 10
    ensures |TransceiveRun(chip, base, [PiccAnticoll, AnticollNvb], true, AnticollBufferSize).data| > AnticollBufferSize
  {
    FirstPollCompletes(chip, base, [PiccAnticoll, AnticollNvb], AnticollBufferSize);
  }

  /** The anticollision step sends exactly SEL and NVB after full-byte
      framing. */
  lemma AnticollSends(chip: seq<bv8>, base: nat)
    ensures var fs := AnticollRun(chip, base).frames;
            && |fs| >= 13
            && fs[0] == WriteFrame(BitFramingReg, FullFrame)
            && fs[6] == WriteFrame(FifoDataReg, PiccAnticoll)
            && fs[7] == WriteFrame(FifoDataReg, AnticollNvb)
            && fs[8] == WriteFrame(CommandReg, PcdTransceive)
  {
    var send := [PiccAnticoll, AnticollNvb];
    var t := TransceiveRun(chip, base, send, true, AnticollBufferSize).frames;
    TransceiveOrder(chip, base, send, true, AnticollBufferSize);
    assert send[0] == PiccAnticoll && send[1] == AnticollNvb;
    assert t[5] == WriteFrame(FifoDataReg, PiccAnticoll) && t[6] == WriteFrame(FifoDataReg, AnticollNvb);
    assert AnticollRun(chip, base).frames == [WriteFrame(BitFramingReg, FullFrame)] + t;
  }

  /** `mfrc522_read_card(uid)`: REQA, then, only if a card answered, the
      anticollision step on the following chip reads. */
  function ReadCardRun(chip: seq<bv8>, base: nat): UidRead
  {
    var req := RequestRun(chip, base, PiccReqIdl);
    ReadCardAfter(chip, req, base + req.used)
  }

  /** The rest of the read cycle once REQA has ended with `req`, the
      anticollision step starting at read `mid`. */
  function ReadCardAfter(chip: seq<bv8>, req: Step, mid: nat): UidRead
  {
    if !req.ok then UidRead(false, None, req.frames, req.used)
    else
      var ac := AnticollRun(chip, mid);
      UidRead(ac.ok, ac.copied, req.frames + ac.frames, req.used + ac.used)
  }

  /** After REQA, whose last reply was read number `mid - 1`, the read
      cycle goes on with the anticollision step starting at read `mid`. */
  lemma ReadCardThen(chip: seq<bv8>, base: nat, mid: nat)
    requires mid == base + RequestRun(chip, base, PiccReqIdl).used
    ensures ReadCardRun(chip, base) == ReadCardAfter(chip, RequestRun(chip, base, PiccReqIdl), mid)
  {
    ReadCardAt(chip, RequestRun(chip, base, PiccReqIdl), mid, base + RequestRun(chip, base, PiccReqIdl).used);
  }

  /** After an answered REQA the cycle is the anticollision step. */
  lemma ReadCardAnswered(chip: seq<bv8>, req: Step, mid: nat)
    requires req.ok
    ensures var ac := AnticollRun(chip, mid);
            ReadCardAfter(chip, req, mid) == UidRead(ac.ok, ac.copied, req.frames + ac.frames, req.used + ac.used)
  {
  }

  /** The rest of the cycle is a function of the read number it starts at. */
  lemma ReadCardAt(chip: seq<bv8>, req: Step, mid: nat, mid': nat)
    requires mid == mid'
    ensures ReadCardAfter(chip, req, mid) == ReadCardAfter(chip, req, mid')
  {
  }

  /** A read cycle succeeds iff REQA and then the anticollision step both
      succeed; after a failed REQA nothing of the anticollision is sent and
      the caller's UID is untouched; a successful cycle hands back the UID
      of the anticollision step (whose BCC AnticollOkHasBcc checks). */
  lemma ReadCardComposes(chip: seq<bv8>, base: nat)
    ensures var req := RequestRun(chip, base, PiccReqIdl);
            var r := ReadCardRun(chip, base);
            && (r.ok <==> req.ok && AnticollRun(chip, base + req.used).ok)
            && (!req.ok ==> r.frames == req.frames && r.copied == None)
            && (req.ok ==> r.frames[..|req.frames|] == req.frames)
            && (r.ok ==> r.copied == AnticollRun(chip, base + req.used).copied)
  {
  }

  /** An accepted anticollision reply always carries a UID whose BCC is
      the byte the card sent after it. */
  lemma AnticollOkHasBcc(chip: seq<bv8>, base: nat)
    requires AnticollRun(chip, base).ok
    ensures var ex := TransceiveRun(chip, base, [PiccAnticoll, AnticollNvb], true, AnticollBufferSize);
            var r := AnticollRun(chip, base);
            && ex.ok && ex.backLen >= UidBits
            && r.copied.Some? && |r.copied.value| == UidSize
            && r.copied.value == AnticollBuffer(ex)[..UidSize]
            && AnticollBuffer(ex)[4] == Bcc(r.copied.value)
  {
    var ex := TransceiveRun(chip, base, [PiccAnticoll, AnticollNvb], true, AnticollBufferSize);
    if !ex.ok || ex.backLen < UidBits {
      AnticollRejectsShort(chip, base);
    } else {
      AnticollChecksBcc(chip, base);
    }
  }
}
