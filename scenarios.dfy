/** Whole read cycles on concrete chip replies, from the REQA to the access
    decision. A chip sequence lists the driver's register reads in order:
    three reads of the transceive start-up, one ComIrqReg poll (flagged),
    the BitFramingReg read of the StartSend clear, ErrorReg (clean), then
    FIFO level, ControlReg and the FIFO bytes. */
module Scenarios {
  import opened Frames
  import opened Transceive
  import opened Card
  import opened Access

  /** The replies to a transceive whose reply is `level` bytes `data` with
      `lastBits` valid bits in the last one. */
  function CycleReplies(level: bv8, lastBits: bv8, data: seq<bv8>): seq<bv8>
  {
    [0, 0, 0, WaitIrq, 0, 0, level, lastBits] + data
  }

  /** The replies to an answered REQA: a 16-bit ATQA 0x04 0x00. */
  function AtqaReplies(): seq<bv8>
  {
    CycleReplies(2, 0, [0x04, 0x00])
  }

  /** The bytes the read-out takes from a FIFO holding exactly `data`. */
  lemma ReadOutBytes(chip: seq<bv8>, at: nat, data: seq<bv8>)
    requires at + |data| <= |chip| && chip[at..at + |data|] == data
    ensures FifoBytes(chip, at, |data|) == data
  {
    FifoBytesAt(chip, at, |data|);
    forall j | 0 <= j < |data|
      ensures FifoBytes(chip, at, |data|)[j] == data[j]
    {
      assert chip[at..at + |data|][j] == chip[at + j];
    }
  }

  /** A transceive starting at read `base` whose replies are those of
      CycleReplies hands back `data`, with the bit length of `level` and
      `lastBits`, after 8 + |data| reads. */
  lemma AnsweredCycle(chip: seq<bv8>, base: nat, send: seq<bv8>, backLenIn: nat,
                      level: bv8, lastBits: bv8, data: seq<bv8>)
    requires |data| == ReadOutCount(level)
    requires base + 8 + |data| <= |chip| && chip[base..base + 8 + |data|] == CycleReplies(level, lastBits, data)
    ensures var ex := TransceiveRun(chip, base, send, true, backLenIn);
            && ex.ok && ex.used == 8 + |data|
            && ex.backLen == BitLength(level, lastBits & RxLastBits) && ex.data == data
  {
    var c := chip[base..base + 8 + |data|];
    assert c[3] == WaitIrq && c[5] == 0 && c[6] == level && c[7] == lastBits;
    assert chip[base + 3] == c[3] && chip[base + 5] == c[5] && chip[base + 6] == c[6] && chip[base + 7] == c[7];
    FirstPollCompletes(chip, base, send, backLenIn);
    assert chip[base + 8..base + 8 + |data|] == c[8..] == data;
    ReadOutBytes(chip, base + 8, data);
  }

  /** Replies that begin with those of AtqaReplies answer REQA, which
      takes the first 10 reads. */
  lemma AnsweredRequest(chip: seq<bv8>)
    requires 10 <= |chip| && chip[..10] == AtqaReplies()
    ensures RequestRun(chip, 0, PiccReqIdl).ok && RequestRun(chip, 0, PiccReqIdl).used == 10
  {
    assert chip[0..10] == chip[..10];
    AnsweredCycle(chip, 0, [PiccReqIdl], RequestBufferSize, 2, 0, [0x04, 0x00]);
  }

  /** An answered REQA followed by an anticollision whose reply is `data`:
      the anticollision transceive starts at read 10 and hands back
      `data`. */
  lemma AnsweredReadCard(chip: seq<bv8>, level: bv8, lastBits: bv8, data: seq<bv8>)
    requires |data| == ReadOutCount(level)
    requires chip == AtqaReplies() + CycleReplies(level, lastBits, data)
    ensures RequestRun(chip, 0, PiccReqIdl).ok && RequestRun(chip, 0, PiccReqIdl).used == 10
    ensures var ex := TransceiveRun(chip, 10, [PiccAnticoll, AnticollNvb], true, AnticollBufferSize);
            && ex.ok && ex.backLen == BitLength(level, lastBits & RxLastBits) && ex.data == data
  {
    assert chip[..10] == AtqaReplies();
    AnsweredRequest(chip);
    assert chip[10..10 + 8 + |data|] == CycleReplies(level, lastBits, data);
    AnsweredCycle(chip, 10, [PiccAnticoll, AnticollNvb], AnticollBufferSize, level, lastBits, data);
  }

  /** Once REQA is answered in 10 reads, the read cycle ends as the
      anticollision step at read 10 does. */
  lemma ReadCardAtTen(chip: seq<bv8>)
    requires RequestRun(chip, 0, PiccReqIdl).ok && RequestRun(chip, 0, PiccReqIdl).used == 10
    ensures ReadCardRun(chip, 0).ok == AnticollRun(chip, 10).ok
    ensures ReadCardRun(chip, 0).copied == AnticollRun(chip, 10).copied
  {
    ReadCardThen(chip, 0, 10);
    ReadCardAnswered(chip, RequestRun(chip, 0, PiccReqIdl), 10);
  }

  /** Five full bytes are the 40 bits an anticollision reply needs. */
  lemma FiveBytesBits()
    ensures BitLength(5, 0 & RxLastBits) == UidBits
  {
  }

  /** Four full bytes are too few. */
  lemma FourBytesBits()
    ensures BitLength(4, 0 & RxLastBits) < UidBits
  {
  }

  /** An empty FIFO with seven valid bits wraps to 255 bits. */
  lemma EmptySevenBits()
    ensures BitLength(0, 7 & RxLastBits) == 255
  {
  }

  /** UID 00 00 00 00 is not on the whitelist. */
  lemma ZeroUidDenied()
    ensures Decision([0, 0, 0, 0]) == AccessDenied
  {
    var zero: seq<bv8> := [0, 0, 0, 0];
    DecisionOfUid(zero);
    assert zero[0] != 0xDE && zero[0] != 0x12;
  }

  /** An answered REQA followed by a 5-byte anticollision reply `uid`,
      `bcc`: the UID is copied, and the read succeeds iff `bcc` is the
      XOR of the UID bytes. */

  lemma ReadsUid(chip: seq<bv8>, uid: seq<bv8>, bcc: bv8)
    requires |uid| == UidSize
    requires chip == AtqaReplies() + CycleReplies(5, 0, uid + [bcc])
    ensures var r := ReadCardRun(chip, 0);
            && r.copied == Some(uid) && (r.ok <==> bcc == Bcc(uid))
  {
    AnsweredReadCard(chip, 5, 0, uid + [bcc]);
    FiveBytesBits();
    assert uid + [bcc] + [] == uid + [bcc];
    AnticollReplyBytes(chip, 10, uid, bcc, []);
    ReadCardAtTen(chip);
  }

  /** A card with UID DE AD BE EF and its BCC 0x22 is read and let in. */
  lemma ListedCardGranted(chip: seq<bv8>)
    requires chip == AtqaReplies() + CycleReplies(5, 0, [0xDE, 0xAD, 0xBE, 0xEF, 0x22])
    ensures var r := ReadCardRun(chip, 0);
            && r.ok && r.copied == Some([0xDE, 0xAD, 0xBE, 0xEF])
            && Decision(r.copied.value) == AccessGranted
  {
    assert [0xDE, 0xAD, 0xBE, 0xEF] + [0x22] == [0xDE, 0xAD, 0xBE, 0xEF, 0x22];
    ReadsUid(chip, [0xDE, 0xAD, 0xBE, 0xEF], 0x22);
    assert Matches([0xDE, 0xAD, 0xBE, 0xEF], Whitelist[0]);
  }

  /** The other listed UID, 12 34 56 78 with BCC 0x08. */
  lemma SecondListedCardGranted(chip: seq<bv8>)
    requires chip == AtqaReplies() + CycleReplies(5, 0, [0x12, 0x34, 0x56, 0x78, 0x08])
    ensures var r := ReadCardRun(chip, 0);
            && r.ok && r.copied == Some([0x12, 0x34, 0x56, 0x78])
            && Decision(r.copied.value) == AccessGranted
  {
    assert [0x12, 0x34, 0x56, 0x78] + [0x08] == [0x12, 0x34, 0x56, 0x78, 0x08];
    ReadsUid(chip, [0x12, 0x34, 0x56, 0x78], 0x08);
    assert Matches([0x12, 0x34, 0x56, 0x78], Whitelist[1]);
  }

  /** An unlisted UID with a correct BCC is read and turned away. */
  lemma UnlistedCardDenied(chip: seq<bv8>)
    requires chip == AtqaReplies() + CycleReplies(5, 0, [0x01, 0x02, 0x03, 0x04, 0x04])
    ensures var r := ReadCardRun(chip, 0);
            && r.ok && r.copied == Some([0x01, 0x02, 0x03, 0x04])
            && Decision(r.copied.value) == AccessDenied
  {
    assert [0x01, 0x02, 0x03, 0x04] + [0x04] == [0x01, 0x02, 0x03, 0x04, 0x04];
    ReadsUid(chip, [0x01, 0x02, 0x03, 0x04], 0x04);
    DecisionOfUid([0x01, 0x02, 0x03, 0x04]);
    assert [0x01, 0x02, 0x03, 0x04][0] != [0xDE, 0xAD, 0xBE, 0xEF][0];
    assert [0x01, 0x02, 0x03, 0x04][0] != [0x12, 0x34, 0x56, 0x78][0];
  }

  /** A wrong BCC fails the read, but the UID bytes have already been
      copied to the caller. */
  lemma BadBccOverwritesUid(chip: seq<bv8>)
    requires chip == AtqaReplies() + CycleReplies(5, 0, [0xDE, 0xAD, 0xBE, 0xEF, 0x23])
    ensures var r := ReadCardRun(chip, 0);
            !r.ok && r.copied == Some([0xDE, 0xAD, 0xBE, 0xEF])
  {
    assert [0xDE, 0xAD, 0xBE, 0xEF] + [0x23] == [0xDE, 0xAD, 0xBE, 0xEF, 0x23];
    ReadsUid(chip, [0xDE, 0xAD, 0xBE, 0xEF], 0x23);
  }

  /** A 32-bit anticollision reply is too short: nothing is copied. */
  lemma ShortAnticollReplyRejected(chip: seq<bv8>)
    requires chip == AtqaReplies() + CycleReplies(4, 0, [0xDE, 0xAD, 0xBE, 0xEF])
    ensures var r := ReadCardRun(chip, 0);
            !r.ok && r.copied == None
  {
    AnsweredReadCard(chip, 4, 0, [0xDE, 0xAD, 0xBE, 0xEF]);
    FourBytesBits();
    AnticollRejectsShort(chip, 10);
    ReadCardAtTen(chip);
  }

  /** The same wrap-around that lets an empty REQA reply through
      (EmptyFifoPassesRequest) lets an empty anticollision reply through:
      the zero-filled buffer reads as UID 00 00 00 00, whose BCC is 0. */
  lemma EmptyAnticollReplyAccepted(chip: seq<bv8>)
    requires chip == AtqaReplies() + CycleReplies(0, 7, [])
    ensures TransceiveRun(chip, 10, [PiccAnticoll, AnticollNvb], true, AnticollBufferSize).backLen == 255
    ensures var r := ReadCardRun(chip, 0);
            && r.ok && r.copied == Some([0, 0, 0, 0])
            && Decision(r.copied.value) == AccessDenied
  {
    AnsweredReadCard(chip, 0, 7, []);
    EmptySevenBits();
    AnticollEmptyReply(chip, 10);
    ReadCardAtTen(chip);
    ZeroUidDenied();
  }

  /** REQA takes any reply of at least 16 bits: a 24-bit one is a card. */
  lemma LongAtqaAccepted(chip: seq<bv8>)
    requires chip == CycleReplies(3, 0, [0x04, 0x00, 0x00])
    ensures RequestRun(chip, 0, PiccReqIdl).ok
  {
    assert chip[3] == WaitIrq && chip[5] == 0 && chip[6] == 3 && chip[7] == 0;
    FirstPollCompletes(chip, 0, [PiccReqIdl], RequestBufferSize);
  }

  /** A 15-bit reply is no card. */
  lemma ShortAtqaRejected(chip: seq<bv8>)
    requires chip == CycleReplies(2, 7, [0x04, 0x00])
    ensures !RequestRun(chip, 0, PiccReqIdl).ok
  {
    assert chip[3] == WaitIrq && chip[5] == 0 && chip[6] == 2 && chip[7] == 7;
    FirstPollCompletes(chip, 0, [PiccReqIdl], RequestBufferSize);
  }

  /** With an empty FIFO and a nonzero valid-bits field the uint8_t length
      wraps to 249 bits: REQA reports a card although nothing was received
      and no FIFO byte is read. */
  lemma EmptyFifoPassesRequest(chip: seq<bv8>)
    requires chip == CycleReplies(0, 1, [])
    ensures var ex := TransceiveRun(chip, 0, [PiccReqIdl], true, RequestBufferSize);
            && ex.ok && ex.backLen == 249 && ex.data == []
            && RequestRun(chip, 0, PiccReqIdl).ok
  {
    assert chip[3] == WaitIrq && chip[5] == 0 && chip[6] == 0 && chip[7] == 1;
    FirstPollCompletes(chip, 0, [PiccReqIdl], RequestBufferSize);
  }
}
