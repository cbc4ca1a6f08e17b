# MFRC522 card-reader driver and access decision, in Dafny

This project models the MFRC522 RFID reader driver of the `rfid-hmi`
firmware (`mfrc522.c`) and the whitelist check that follows a card read
(`app_access.c`). It proves the driver's register traffic, its results and
the access decision against specification functions.

The driver talks to the chip only through one-register SPI transfers, so
the model describes everything the driver does as two things:

- the **log** of transfers it issues (`Frames.Frame`: a register write with
  its value, or a register read);
- the **chip replies** it consumes. The chip is an oracle
  `chip: seq<bv8>`: `Reply(chip, n)` is the byte returned by the driver's
  n-th register read, whatever register it addresses, and reads past the
  end of the sequence return 0x00. The driver is deterministic, so every
  behaviour of the hardware is one such sequence, and no register file has
  to be modelled.

Each driver function is a method of the class `Driver.Mfrc522`, whose fields
are the log, the read counter `cursor` and the oracle. Each method is
proved equal to a pure specification function of `(chip, first read
number, inputs)`:

| C function | Dafny method | specification function |
|---|---|---|
| `mfrc522_antenna_on` | `Mfrc522.AntennaOn` | `Startup.AntennaRun` |
| `mfrc522_transceive` | `Mfrc522.Transceive` | `Transceive.TransceiveRun` |
| `mfrc522_request` | `Mfrc522.Request` | `Card.RequestRun` |
| `mfrc522_anticoll` | `Mfrc522.Anticoll` | `Card.AnticollRun` |
| `mfrc522_read_card` | `Mfrc522.ReadCard` | `Card.ReadCardRun` |
| `mfrc522_init` | `Mfrc522.Init` | `Startup.InitRun` |

The method contracts say that the log grows by exactly the function's
transfers and that the read counter grows by its reply count. They also
say that the results, `*back_len`, the reply buffer and the caller's UID
bytes are the function's values. The lemmas state the driver's promises
about the functions.

Modules, in dependency order:

- `Frames`: register addresses, the two bytes of a transfer, bit masks,
  and the oracle.
- `Transceive`: one command/response cycle. This covers the start-up, the
  bounded ComIrqReg wait loop, the ErrorReg check, the uint8_t bit length
  and the FIFO read-out.
- `Card`: REQA (the 7-bit short frame of ISO/IEC 14443-3, clause 6) and
  cascade-level-1 anticollision with its BCC (block check character: the
  XOR of the four UID bytes). `ReadCardRun` composes the two.
- `Startup`: the register part of `mfrc522_init`.
- `Driver`: the class.
- `Access`: the whitelist search of `app_access_verify_uid`.
- `Scenarios`: whole read cycles on concrete reply sequences, each ending
  in an access decision.

Arithmetic is modelled as C does it:

- Register bytes are `bv8`.
- `*back_len` is computed in `int` and reduced mod 256. This is the
  uint8_t store, and it includes the wrap of `fifoLevel - 1` when the
  FIFO is empty and the last-bits field is nonzero.
- The FIFO read-out count is the unclamped level clamped to 16
  (`Transceive.ReadOutClamp`; the chip's FIFO itself holds 64 bytes).
- The ErrorReg mask 0x1B selects BufferOvfl, CollErr, ParityErr and
  ProtocolErr; CRCErr, TempErr and WrErr are not checked, as in the source.

Points where the code departs from the protocol or the chip, modelled
as written:

- An ATQA (the card's answer to REQA, ISO/IEC 14443-3, clause 6) is
  exactly 16 bits; the code reports a card for any reply of at least 16
  bits (`Card.RequestOkIff`, `Scenarios.LongAtqaAccepted`).
- A wrong BCC still leaves the UID bytes copied into the caller's
  structure (`Scenarios.BadBccOverwritesUid`).

## Model

| member | source | states |
|---|---|---|
| Frames.BytesLayout | _projects/rfid-hmi/src/main/mfrc522.c:55-67 | a transfer is two bytes: the first has bit 0 clear, bit 7 set exactly for a read, and the 6-bit address in bits 1..6; the second is the value, or 0x00 for a read |
| Frames.DecodeBytes | _projects/rfid-hmi/src/main/mfrc522.c:55-67 | the chip decodes every transfer the driver sends as the access to the 6-bit address (inverse of the encoding) |
| Frames.BytesInjective | _projects/rfid-hmi/src/main/mfrc522.c:57-63 | for addresses below 0x40, two transfers that clock out the same two bytes are the same transfer, and the reverse |
| Frames.MaskBits | _projects/rfid-hmi/src/main/mfrc522.c:69-79 | set_bit_mask writes the value read with the mask bits set and all other bits as read; clear_bit_mask writes it with the mask bits cleared and all other bits as read |
| Frames.RepeatAll | _projects/rfid-hmi/src/main/mfrc522.c:110-116 | every frame issued by a repeated read loop is the same read |
| Driver.Mfrc522.WriteRegister | _projects/rfid-hmi/src/main/mfrc522.c:55-59 | appends one write transfer and consumes no reply |
| Driver.Mfrc522.ReadRegister | _projects/rfid-hmi/src/main/mfrc522.c:61-67 | appends one read transfer; the value returned is the chip's next reply |
| Driver.Mfrc522.SetBitMask | _projects/rfid-hmi/src/main/mfrc522.c:69-73 | a read followed by a write of the value read with `mask` set |
| Driver.Mfrc522.ClearBitMask | _projects/rfid-hmi/src/main/mfrc522.c:75-79 | a read followed by a write of the value read with `mask` cleared |
| Driver.Mfrc522.AntennaOn | _projects/rfid-hmi/src/main/mfrc522.c:82-87 | the transfers and reply count are those of AntennaRun |
| Startup.AntennaAlreadyOn | _projects/rfid-hmi/src/main/mfrc522.c:84-86 | when either driver bit is set, switching on makes one TxControlReg read and no write |
| Startup.AntennaSwitchesOn | _projects/rfid-hmi/src/main/mfrc522.c:84-86 | when both bits are clear, it makes two reads and then one write of the second value read with bits 0 and 1 set and the other bits unchanged |
| Startup.AntennaNeverSwitchesOff | _projects/rfid-hmi/src/main/mfrc522.c:82-87 | every TxControlReg value it writes has both antenna bits set |
| Transceive.FifoWritesAt | _projects/rfid-hmi/src/main/mfrc522.c:101-102 | the j-th FIFO write carries payload byte j |
| Transceive.StartFramesOrder | _projects/rfid-hmi/src/main/mfrc522.c:96-106 | the start-up order: ComIEn 0xF7, ComIrq bit 7 cleared, FIFO flushed, the payload in index order, TRANSCEIVE, StartSend set |
| Transceive.StartRegisters | _projects/rfid-hmi/src/main/mfrc522.c:96-106 | the start-up never touches ErrorReg; its only CommandReg write is TRANSCEIVE; its FifoDataReg accesses are all writes |
| Transceive.NotAFifoWrite | _projects/rfid-hmi/src/main/mfrc522.c:101-102 | the payload loop issues nothing but FifoDataReg writes |
| Transceive.PollReads | _projects/rfid-hmi/src/main/mfrc522.c:109-116 | the wait loop makes between 1 and 1000 ComIrqReg reads |
| Transceive.PollReadsStops | _projects/rfid-hmi/src/main/mfrc522.c:109-116 | the polls before the last carry no 0x30 bit; when fewer than 1000 polls are made, the last one carries a 0x30 bit |
| Transceive.PollReadsUnique | _projects/rfid-hmi/src/main/mfrc522.c:109-116 | any poll count with that shape is the loop's poll count, so the loop stops at the first flagged reply |
| Transceive.LoopExit | _projects/rfid-hmi/src/main/mfrc522.c:109-120 | the counter `i` left by the loop gives i + 1 polls (1000 on timeout), and `i == 1000` holds exactly when no flag was seen |
| Transceive.FlagCompletes | _projects/rfid-hmi/src/main/mfrc522.c:109-116 | a flagged reply among the first 1000 polls means the cycle completes |
| Transceive.CompletedIff | _projects/rfid-hmi/src/main/mfrc522.c:109-124 | the cycle completes iff one of the 1000 polled replies has a 0x30 bit; otherwise exactly 1000 polls are made |
| Transceive.BitLengthExact | _projects/rfid-hmi/src/main/mfrc522.c:137-140 | `*back_len` is `(level-1)*8 + lastBits` (lastBits nonzero) or `level*8`, exactly, while that fits in a byte |
| Transceive.BitLengthUnderflow | _projects/rfid-hmi/src/main/mfrc522.c:137-138 | for an empty FIFO with b valid bits, `*back_len` wraps to 248 + b |
| Transceive.BitLengthOverflow | _projects/rfid-hmi/src/main/mfrc522.c:139-140 | 32 full bytes report 0 bits, because the product wraps modulo 256 |
| Transceive.ReadOutCount | _projects/rfid-hmi/src/main/mfrc522.c:142-143 | the read-out count is the FIFO level, or 16 when the level exceeds 16 |
| Transceive.ReadOutOverrunsAnticollBuffer | _projects/rfid-hmi/src/main/mfrc522.c:142-146 | as written, every level above 10 makes the read loop index past the 10-byte anticollision buffer |
| Transceive.Store | _projects/rfid-hmi/src/main/mfrc522.c:145-146 | the caller's buffer keeps its size, and each index i holds read-out byte i when one was read for it and its old byte otherwise, so nothing is written past the end |
| Transceive.StoreNext | _projects/rfid-hmi/src/main/mfrc522.c:145-146 | storing one more byte writes the next index when it is inside the buffer and changes nothing otherwise |
| Transceive.FifoBytesAt | _projects/rfid-hmi/src/main/mfrc522.c:145-146 | the j-th byte read back is the reply to the j-th FIFO_DATA read |
| Transceive.WaitedPrefix | _projects/rfid-hmi/src/main/mfrc522.c:96-118 | every outcome starts with the start-up, the polls and the StartSend clear |
| Transceive.WaitedOrder | _projects/rfid-hmi/src/main/mfrc522.c:96-118 | the transfers up to the StartSend clear, position by position |
| Transceive.WaitedRegisters | _projects/rfid-hmi/src/main/mfrc522.c:96-118 | up to the StartSend clear nothing reads ErrorReg, the only command is TRANSCEIVE, and no FIFO byte is read |
| Transceive.TransceiveOrder | _projects/rfid-hmi/src/main/mfrc522.c:96-118 | on every outcome, the transfers begin with ComIEn, the IRQ clear, the flush, the payload in order, TRANSCEIVE, StartSend set, k ComIrq polls and StartSend cleared |
| Transceive.TransceiveOkIff | _projects/rfid-hmi/src/main/mfrc522.c:109-150 | a transceive succeeds iff the loop saw completion and ErrorReg has no bit of 0x1B |
| Transceive.TimeoutAborts | _projects/rfid-hmi/src/main/mfrc522.c:118-124 | on timeout: failure after 1000 polls and the StartSend clear, ErrorReg never read, `*back_len` untouched, nothing read back |
| Transceive.ErrorAborts | _projects/rfid-hmi/src/main/mfrc522.c:126-131 | on an error bit: failure on the ErrorReg read, with no FIFO read, no IDLE and `*back_len` untouched |
| Transceive.ReadBack | _projects/rfid-hmi/src/main/mfrc522.c:133-150 | on a clean completion: success, `*back_len` from the unclamped level and valid bits, and the bytes are the min(level, 16) replies after the ControlReg read |
| Transceive.FirstPollCompletes | _projects/rfid-hmi/src/main/mfrc522.c:109-147 | when the first poll is flagged and ErrorReg is clean, the reply is read out right after the StartSend clear |
| Transceive.CleanRunFrames | _projects/rfid-hmi/src/main/mfrc522.c:126-150 | the transfers of a clean completion with buffers: the common prefix, ErrorReg, FifoLevel, Control, the FIFO reads, then IDLE |
| Transceive.ReadBackOrder | _projects/rfid-hmi/src/main/mfrc522.c:145-150 | a clean completion ends with min(level, 16) FIFO_DATA reads and then IDLE |
| Transceive.ReadOutTail | _projects/rfid-hmi/src/main/mfrc522.c:145-150 | the read-out tail: n FIFO_DATA reads, then the IDLE write, last |
| Transceive.NoReplyBuffers | _projects/rfid-hmi/src/main/mfrc522.c:133-150 | without reply buffers, a clean completion reads nothing back and only writes IDLE |
| Driver.Mfrc522.StartCycle | _projects/rfid-hmi/src/main/mfrc522.c:96-106 | the start-up transfers (StartFrames) and three replies consumed |
| Driver.Mfrc522.WaitForReply | _projects/rfid-hmi/src/main/mfrc522.c:109-118 | PollReads polls and then the StartSend clear; the counter is 1000 exactly when the cycle did not complete |
| Driver.Mfrc522.StartAndWait | _projects/rfid-hmi/src/main/mfrc522.c:96-118 | the common prefix of a cycle, ending at the StartSend clear |
| Driver.Mfrc522.ReadLevels | _projects/rfid-hmi/src/main/mfrc522.c:135-136 | the FIFO level and `ControlReg & 0x07` are read, in that order |
| Driver.Mfrc522.ReadFifo | _projects/rfid-hmi/src/main/mfrc522.c:145-146 | `count` FIFO_DATA reads, byte i stored at index i of the caller's buffer when it fits (Store) |
| Driver.Mfrc522.ReadOut | _projects/rfid-hmi/src/main/mfrc522.c:133-146 | `*back_len` is BitLength of the level and valid bits; min(level, 16) bytes are read, each stored at its index when it fits (Store) |
| Driver.Mfrc522.Finish | _projects/rfid-hmi/src/main/mfrc522.c:126-150 | the error check, the read-out and IDLE, as Outcome |
| Driver.Mfrc522.Transceive | _projects/rfid-hmi/src/main/mfrc522.c:90-151 | result, `*back_len`, the buffer, the transfers and the replies consumed are those of TransceiveRun |
| Card.RequestFraming | _projects/rfid-hmi/src/main/mfrc522.c:160-162 | REQA writes BitFraming 0x07 first and 0x00 last, whatever the outcome, and sends only the mode byte |
| Card.RequestOkIff | _projects/rfid-hmi/src/main/mfrc522.c:161-163 | REQA reports a card iff the transceive completed without an error bit and the reply has at least 16 bits |
| Driver.Mfrc522.Request | _projects/rfid-hmi/src/main/mfrc522.c:154-164 | the result, transfers and replies of RequestRun |
| Card.Bcc | _projects/rfid-hmi/src/main/mfrc522.c:188 | the BCC XORed with the four UID bytes gives 0 |
| Card.BccDetectsOneByteError | _projects/rfid-hmi/src/main/mfrc522.c:187-189 | two UIDs that differ in exactly one byte have different BCCs, so the check rejects any single-byte error |
| Card.AnticollLeavesUid | _projects/rfid-hmi/src/main/mfrc522.c:174-185 | the caller's UID is left as it was when the transceive fails or the reply is under 40 bits, and is otherwise reply buffer bytes 0..3, whatever the BCC |
| Card.AnticollSends | _projects/rfid-hmi/src/main/mfrc522.c:169-174 | anticollision writes BitFraming 0x00, then sends exactly 0x93 0x20 before TRANSCEIVE |
| Card.AnticollRejectsShort | _projects/rfid-hmi/src/main/mfrc522.c:174-181 | a failed transceive or a reply under 40 bits fails with no UID copied, so the BCC is never checked |
| Card.AnticollChecksBcc | _projects/rfid-hmi/src/main/mfrc522.c:183-193 | with at least 40 bits, the UID is buffer bytes 0..3 and the step succeeds iff byte 4 is their BCC |
| Card.AnticollReplyBytes | _projects/rfid-hmi/src/main/mfrc522.c:183-193 | a reply starting with `uid` and `bcc` copies `uid`, and is accepted iff `bcc` is its BCC |
| Card.AnticollEmptyReply | _projects/rfid-hmi/src/main/mfrc522.c:170-193 | a reply of at least 40 bits that leaves the FIFO empty is accepted as UID 00 00 00 00 from the zeroed buffer |
| Card.AnticollOkHasBcc | _projects/rfid-hmi/src/main/mfrc522.c:177-195 | an accepted anticollision had a clean reply of at least 40 bits, and copied a 4-byte UID whose BCC is buffer byte 4 |
| Card.AnticollReadOutOverruns | _projects/rfid-hmi/src/main/mfrc522.c:142-146 | as written, a clean anticollision reply with a FIFO level above 10 hands back more bytes than the 10-byte `back_data` of line 170 holds |
| Driver.Mfrc522.CopyUid | _projects/rfid-hmi/src/main/mfrc522.c:184-185 | the UID becomes the first four reply bytes |
| Driver.Mfrc522.Anticoll | _projects/rfid-hmi/src/main/mfrc522.c:167-196 | the result, the caller's UID bytes, the transfers and the replies of AnticollRun |
| Card.ReadCardComposes | _projects/rfid-hmi/src/main/mfrc522.c:245-255 | a read succeeds iff REQA and then anticollision succeed; after a failed REQA nothing of anticollision is sent and the UID is untouched; a success hands back anticollision's UID |
| Driver.Mfrc522.ReadCard | _projects/rfid-hmi/src/main/mfrc522.c:245-255 | the result, the UID bytes, the transfers and the replies of ReadCardRun |
| Startup.SetupFrames | _projects/rfid-hmi/src/main/mfrc522.c:223-232 | the soft reset and the six fixed writes, seven transfers |
| Startup.InitSequence | _projects/rfid-hmi/src/main/mfrc522.c:216-242 | a failed bus set-up returns before any transfer; otherwise the fixed writes come first and the version read last, and init succeeds whatever the version is |
| Startup.NoTxControlWriteInSetup | _projects/rfid-hmi/src/main/mfrc522.c:223-232 | the fixed writes never touch TxControlReg |
| Startup.InitNeverSwitchesOff | _projects/rfid-hmi/src/main/mfrc522.c:223-234 | no TxControlReg write during init clears an antenna bit |
| Startup.InitTwice | _projects/rfid-hmi/src/main/mfrc522.c:199-243 | over two inits in a row, every TxControlReg value either run writes keeps both antenna bits set, and the second run skips the write whenever its own TxControlReg read reports a driver bit set |
| Driver.Mfrc522.Init | _projects/rfid-hmi/src/main/mfrc522.c:199-243 | returns the bus status on failure and ESP_OK otherwise, with the transfers of InitRun |
| Access.Decision | _projects/rfid-hmi/src/main/app_access.c:34-44 | the decision is "Access Granted"/1 or "Access Denied"/0, with status 1 iff some whitelist entry matches |
| Access.VerifyUid | _projects/rfid-hmi/src/main/app_access.c:29-45 | exactly one message is shown, and it is the grant iff the UID is whitelisted |
| Access.ListedIff | _projects/rfid-hmi/src/main/app_access.c:17-22 | the whitelist holds exactly DE AD BE EF and 12 34 56 78: a UID is listed iff its first four bytes are one of them |
| Access.DecisionOfUid | _projects/rfid-hmi/src/main/app_access.c:34-44 | a 4-byte UID is granted iff it equals one of the two entries |
| Access.OnlyFirstFourBytesMatter | _projects/rfid-hmi/src/main/app_access.c:36 | UIDs that agree on their first four bytes get the same decision |
| Scenarios.AnsweredCycle | _projects/rfid-hmi/src/main/mfrc522.c:90-151 | a cycle whose first poll is flagged, with a clean ErrorReg, returns the FIFO bytes and the bit length after 8 + n reads |
| Scenarios.AnsweredRequest | _projects/rfid-hmi/src/main/mfrc522.c:154-164 | a 16-bit ATQA is a card, and REQA uses 10 reads |
| Scenarios.AnsweredReadCard | _projects/rfid-hmi/src/main/mfrc522.c:245-250 | after that ATQA, the anticollision transceive starts at read 10 and returns the card's bytes |
| Scenarios.ReadsUid | _projects/rfid-hmi/src/main/mfrc522.c:245-255 | a card answering with UID and BCC: the UID is copied, and the read succeeds iff the BCC matches |
| Scenarios.ListedCardGranted | _projects/rfid-hmi/src/main/app_access.c:34-41 | card DE AD BE EF with BCC 0x22 is read and granted |
| Scenarios.SecondListedCardGranted | _projects/rfid-hmi/src/main/app_access.c:34-41 | card 12 34 56 78 with BCC 0x08 is read and granted |
| Scenarios.UnlistedCardDenied | _projects/rfid-hmi/src/main/app_access.c:43-44 | card 01 02 03 04 with a correct BCC is read and denied |
| Scenarios.BadBccOverwritesUid | _projects/rfid-hmi/src/main/mfrc522.c:184-193 | a wrong BCC fails the read, but the UID bytes are already overwritten |
| Scenarios.ShortAnticollReplyRejected | _projects/rfid-hmi/src/main/mfrc522.c:177-181 | a 32-bit anticollision reply fails and copies nothing |
| Scenarios.EmptyAnticollReplyAccepted | _projects/rfid-hmi/src/main/mfrc522.c:137-193 | an empty FIFO with 7 valid bits reports 255 bits, and the zeroed buffer is accepted as UID 00 00 00 00, then denied |
| Scenarios.LongAtqaAccepted | _projects/rfid-hmi/src/main/mfrc522.c:163 | a 24-bit REQA reply counts as a card |
| Scenarios.ShortAtqaRejected | _projects/rfid-hmi/src/main/mfrc522.c:163 | a 15-bit REQA reply does not count as a card |
| Scenarios.EmptyFifoPassesRequest | _projects/rfid-hmi/src/main/mfrc522.c:137-163 | an empty FIFO with one valid bit reports 249 bits, and REQA reports a card without reading a FIFO byte |

## Left out

- SPI transport: `spi_utils_transfer` is a log entry plus, for a read, the next oracle reply. Transport errors are not modelled, because the driver ignores them.
- The SPI bus set-up in `mfrc522_init`: it is reduced to the status code passed to `Init`; `spi_utils.c` is not part of this model.
- GPIO reset-pin handling, `vTaskDelay` (the 1 ms poll pacing and the 50 ms and 20 ms settle delays) and every `ESP_LOG*` call, including the version warning and the UID log line of `mfrc522_read_card`: none of them changes register traffic or results.
- The `snprintf` into `uid_str` in `app_access_verify_uid`: it is only formatted, never used in the decision.
- `app_hmi_show_message` (Nextion display over UART): it is kept only as the message and status it is given (`Access.Message`).
- `app_rfid.c` and `main.c`, the FreeRTOS tasks and polling loops: they are scheduling and wiring.
- Null `back_data` / `back_len` arguments: both are folded into one `back == null` case, because the driver's callers always pass both or neither.
- Driver.Mfrc522.ReadFifo: a byte whose index is past the caller's buffer is read but not stored (Transceive.Store), where line 146 writes it past the array (see Findings).
- Driver.Mfrc522.ReadOut: the same bounded store, through ReadFifo: bytes past the buffer are read but not stored.
- Driver.Mfrc522.Finish: the same bounded store, through ReadOut: bytes past the buffer are read but not stored.
- Driver.Mfrc522.Transceive: stores a FIFO byte only when its index is inside the caller's buffer (Transceive.Store). As written, the C loop writes past a short buffer (see Findings), which Dafny's arrays cannot express. The transfers and reply count are those of the C loop either way.
- Transceive.BitLength: its own contract only bounds the result below 256; the wrap-around is stated by BitLengthExact, BitLengthUnderflow and BitLengthOverflow.
- The chip's internal register file: the reply to a read is the oracle's next byte, not a function of earlier writes, so no property depends on how the chip reacts to a write.
- Startup.InitTwice — the soft reset's effect on TxControlReg (the chip puts it back to 0x80, antenna off) is not modelled, so the lemma's second case, a set driver bit read right after a reset, does not arise on a real chip; what it proves is only that no TxControlReg value either run writes clears a driver bit.

## Findings

| source | as written | input that shows it | evidently intended | confidence | as-written member | corrected member |
|---|---|---|---|---|---|---|
| _projects/rfid-hmi/src/main/mfrc522.c:142-146 | the read-out index is clamped to 16, but `mfrc522_anticoll` passes a 10-byte `back_data` (line 170) | an anticollision reply with FIFO level 11 to 16 makes `back_data[10]` to `back_data[15]` be written past the array | no byte is stored beyond the caller's buffer | not executed | Card.AnticollReadOutOverruns | Transceive.Store |
