/** Register access layer of the MFRC522 driver: the chip's register
    addresses, the SPI transactions that write or read one register and the
    two bytes each puts on the wire, the read-modify-write bit-mask
    arithmetic, and the chip's replies. */
module Frames {

  datatype Option<T> = None | Some(value: T)

  // Registers of the MFRC522 that the driver touches (6-bit addresses).
  const CommandReg: bv8 := 0x01
  const ComIEnReg: bv8 := 0x02
  const ComIrqReg: bv8 := 0x04
  const ErrorReg: bv8 := 0x06
  const FifoDataReg: bv8 := 0x09
  const FifoLevelReg: bv8 := 0x0A
  const ControlReg: bv8 := 0x0C
  const BitFramingReg: bv8 := 0x0D
  const ModeReg: bv8 := 0x11
  const TxControlReg: bv8 := 0x14
  const RFCfgReg: bv8 := 0x26
  const TModeReg: bv8 := 0x2A
  const TPrescalerReg: bv8 := 0x2B
  const TReloadRegH: bv8 := 0x2C
  const TReloadRegL: bv8 := 0x2D
  const VersionReg: bv8 := 0x37

  /** One SPI transaction of the driver: `write_register(reg, val)` or
      `read_register(reg)`, as the driver issues it (`reg` unmasked). */
  datatype Frame = WriteFrame(reg: bv8, val: bv8) | ReadFrame(reg: bv8)

  /** The two bytes the transaction clocks out: the register address in
      bits 1..6 of the first byte, bit 7 set for a read, bit 0 always clear;
      then the value, or a zero filler byte for a read. */
  function Bytes(f: Frame): seq<bv8>
  {
    match f
    case WriteFrame(reg, val) => [(reg << 1) & 0x7E, val]
    case ReadFrame(reg) => [(reg << 1) | 0x80, 0x00]
  }

  /** How many bytes the transaction receives: none for a write; two for a
      read, the second being the register's value. */
  function RxLength(f: Frame): nat
  {
    if f.WriteFrame? then 0 else 2
  }

  /** How the chip reads a transaction: bit 7 of the first byte selects
      read or write, bits 1..6 the register; anything else is not a
      transaction the chip understands. */
  function Decode(tx: seq<bv8>, rxLen: nat): Option<Frame>
  {
    if |tx| != 2 || tx[0] & 0x01 != 0 then None
    else if tx[0] & 0x80 == 0 && rxLen == 0 then Some(WriteFrame(tx[0] >> 1, tx[1]))
    else if tx[0] & 0x80 != 0 && tx[1] == 0 && rxLen == 2 then Some(ReadFrame((tx[0] >> 1) & 0x3F))
    else None
  }

  /** The register a transaction really addresses: the top two bits of the
      driver's `reg` are shifted out of the address byte. */
  function OnWire(f: Frame): Frame
  {
    match f
    case WriteFrame(reg, val) => WriteFrame(reg & 0x3F, val)
    case ReadFrame(reg) => ReadFrame(reg & 0x3F)
  }

  /** Layout of the address byte: bit 0 clear, bit 7 set exactly for reads,
      the 6-bit address in bits 1..6; a read sends a zero second byte. */
  lemma BytesLayout(f: Frame)
    ensures |Bytes(f)| == 2
    ensures Bytes(f)[0] & 0x01 == 0
    ensures (Bytes(f)[0] & 0x80 != 0) == f.ReadFrame?
    ensures (Bytes(f)[0] >> 1) & 0x3F == f.reg & 0x3F
    ensures Bytes(f)[1] == if f.WriteFrame? then f.val else 0
  {
  }

  /** The chip understands every transaction the driver sends, as the
      access to the 6-bit address. */
  lemma DecodeBytes(f: Frame)
    ensures Decode(Bytes(f), RxLength(f)) == Some(OnWire(f))
  {
  }

  /** On 6-bit addresses the encoding loses nothing: two transactions that
      clock out the same bytes are the same transaction. */
  lemma BytesInjective(f: Frame, g: Frame)
    requires f.reg < 0x40 && g.reg < 0x40
    ensures Bytes(f) == Bytes(g) <==> f == g
  {
    if Bytes(f) == Bytes(g) {
      BytesLayout(f);
      BytesLayout(g);
      DecodeBytes(f);
      DecodeBytes(g);
    }
  }

  /** The value `set_bit_mask` writes back. */
  function SetBits(v: bv8, mask: bv8): bv8
  {
    v | mask
  }

  /** The value `clear_bit_mask` writes back. */
  function ClearBits(v: bv8, mask: bv8): bv8
  {
    v & !mask
  }

  /** Setting bits: every bit of `mask` set, every other bit as read; and
      clearing: every bit of `mask` clear, every other bit as read. */
  lemma MaskBits(v: bv8, mask: bv8)
    ensures SetBits(v, mask) & mask == mask && SetBits(v, mask) & !mask == v & !mask
    ensures ClearBits(v, mask) & mask == 0 && ClearBits(v, mask) & !mask == v & !mask
  {
  }

  /** The transfers of `set_bit_mask(reg, mask)` when the read returns `v`. */
  function SetBitFrames(reg: bv8, v: bv8, mask: bv8): seq<Frame>
  {
    [ReadFrame(reg), WriteFrame(reg, SetBits(v, mask))]
  }

  /** The transfers of `clear_bit_mask(reg, mask)` when the read returns `v`. */
  function ClearBitFrames(reg: bv8, v: bv8, mask: bv8): seq<Frame>
  {
    [ReadFrame(reg), WriteFrame(reg, ClearBits(v, mask))]
  }

  /** The chip as the driver sees it: `chip[n]` is the byte returned to the
      driver's n-th register read, whatever register it addresses. Reads
      past the end of the sequence return 0x00. */
  function Reply(chip: seq<bv8>, n: nat): bv8
  {
    if n < |chip| then chip[n] else 0x00
  }

  /** What one driver operation does on the bus: its result, the SPI
      transfers it issues, and how many chip replies it consumes. */
  datatype Step = Step(ok: bool, frames: seq<Frame>, used: nat)

  /** Regrouping a log: appending in two steps is appending the joined parts. */
  lemma Regroup(a: seq<Frame>, b: seq<Frame>, c: seq<Frame>)
    ensures a + b + c == a + (b + c)
  {
  }

  /** `n` copies of one frame, in the order a loop issues them. */
  function Repeat(f: Frame, n: nat): (fs: seq<Frame>)
    ensures |fs| == n
  {
    if n == 0 then [] else Repeat(f, n - 1) + [f]
  }

  /** Every element of `Repeat(f, n)` is `f`. */
  lemma {:induction false} RepeatAll(f: Frame, n: nat)
    ensures forall j :: 0 <= j < n ==> Repeat(f, n)[j] == f
  {
    if n > 0 {
      RepeatAll(f, n - 1);
      assert forall j :: 0 <= j < n - 1 ==> Repeat(f, n)[j] == Repeat(f, n - 1)[j];
    }
  }
}
