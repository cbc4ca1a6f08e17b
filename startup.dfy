/** Specification of the register side of `mfrc522_init`: soft reset, the
    timer, mode and RF-gain constants, the antenna switch-on and the version
    read. The GPIO reset pin, the SPI bus set-up and the settle delays are
    not register traffic; the bus set-up is reduced to its status code. */
module Startup {
  import opened Frames

  const PcdSoftReset: bv8 := 0x0F
  /** Tx1RFEn | Tx2RFEn in TxControlReg. */
  const AntennaBits: bv8 := 0x03
  /** `ESP_OK`, the success value of `esp_err_t`. */
  const EspOk: int := 0

  /** What switching the antenna on did: whether it wrote TxControlReg, the
      transfers, and the replies used. */
  datatype AntennaSwitch = AntennaSwitch(wrote: bool, frames: seq<Frame>, used: nat)

  /** `mfrc522_antenna_on` whose first chip read is read number `base`: read
      TxControlReg and, only when both driver bits are clear, set them with a
      second read-modify-write. */
  function AntennaRun(chip: seq<bv8>, base: nat): AntennaSwitch
  {
    if Reply(chip, base) & AntennaBits == 0 then
      AntennaSwitch(true, [ReadFrame(TxControlReg)] + SetBitFrames(TxControlReg, Reply(chip, base + 1), AntennaBits), 2)
    else
      AntennaSwitch(false, [ReadFrame(TxControlReg)], 1)
  }

  /** With either antenna driver already on, switching on only reads. */
  lemma AntennaAlreadyOn(chip: seq<bv8>, base: nat)
    requires Reply(chip, base) & AntennaBits != 0
    ensures AntennaRun(chip, base) == AntennaSwitch(false, [ReadFrame(TxControlReg)], 1)
  {
  }

  /** With both off, it writes back the second reading with both bits set
      and every other bit unchanged. */
  lemma AntennaSwitchesOn(chip: seq<bv8>, base: nat)
    requires Reply(chip, base) & AntennaBits == 0
    ensures var a := AntennaRun(chip, base);
            && |a.frames| == 3 && a.used == 2
            && a.frames[..2] == [ReadFrame(TxControlReg), ReadFrame(TxControlReg)]
            && exists v: bv8 :: a.frames[2] == WriteFrame(TxControlReg, v)
                                && v & AntennaBits == AntennaBits
                                && v & !AntennaBits == Reply(chip, base + 1) & !AntennaBits
  {
    var v := SetBits(Reply(chip, base + 1), AntennaBits);
    MaskBits(Reply(chip, base + 1), AntennaBits);
    assert AntennaRun(chip, base).frames[2] == WriteFrame(TxControlReg, v);
  }

  /** Switching the antenna on never writes a TxControlReg value with a
      driver bit clear. */
  lemma AntennaNeverSwitchesOff(chip: seq<bv8>, base: nat, v: bv8)
    requires WriteFrame(TxControlReg, v) in AntennaRun(chip, base).frames
    ensures v & AntennaBits == AntennaBits
  {
    MaskBits(Reply(chip, base + 1), AntennaBits);
  }

  /** The fixed writes: soft reset, TMode 0x8D and TPrescaler 0x3E (timer
      auto-start, prescaler 0xD3E), reload value 30, Mode 0x3D, RFCfg 0x70
      (48 dB receiver gain). */
  function SetupFrames(): (fs: seq<Frame>)
    ensures |fs| == 7
  {
    [ WriteFrame(CommandReg, PcdSoftReset),
      WriteFrame(TModeReg, 0x8D),
      WriteFrame(TPrescalerReg, 0x3E),
      WriteFrame(TReloadRegL, 30),
      WriteFrame(TReloadRegH, 0),
      WriteFrame(ModeReg, 0x3D),
      WriteFrame(RFCfgReg, 0x70) ]
  }

  /** `mfrc522_init` whose first chip read is read number `base`, when the
      SPI bus set-up returned `busStatus`. */
  function InitRun(chip: seq<bv8>, base: nat, busStatus: int): Step
  {
    if busStatus != EspOk then Step(false, [], 0)
    else
      var antenna := AntennaRun(chip, base);
      Step(true, SetupFrames() + antenna.frames + [ReadFrame(VersionReg)], antenna.used + 1)
  }

  /** A failed bus set-up aborts before any register transfer; otherwise the
      fixed writes come first, the version read last, and initialisation
      succeeds whatever the version register holds. */
  lemma InitSequence(chip: seq<bv8>, base: nat, busStatus: int)
    ensures var r := InitRun(chip, base, busStatus);
            && (busStatus != EspOk ==> !r.ok && r.frames == [] && r.used == 0)
            && (busStatus == EspOk ==>
                  && r.ok
                  && r.frames[..7] == SetupFrames()
                  && r.frames[7] == ReadFrame(TxControlReg)
                  && r.frames[|r.frames| - 1] == ReadFrame(VersionReg))
  {
  }

  lemma {:induction false} NoTxControlWriteInSetup(v: bv8)
    ensures WriteFrame(TxControlReg, v) !in SetupFrames()
  {
  }

  /** No TxControlReg write of an initialisation clears a driver bit. */
  lemma InitNeverSwitchesOff(chip: seq<bv8>, base: nat, busStatus: int, v: bv8)
    requires WriteFrame(TxControlReg, v) in InitRun(chip, base, busStatus).frames
    ensures v & AntennaBits == AntennaBits
  {
    NoTxControlWriteInSetup(v);
    var antenna := AntennaRun(chip, base);
    assert InitRun(chip, base, busStatus).frames == SetupFrames() + antenna.frames + [ReadFrame(VersionReg)];
    AntennaNeverSwitchesOff(chip, base, v);
  }

  /** Over two initialisations in a row, every TxControlReg value either run
      writes keeps both antenna bits set, and the second run skips the write
      whenever its own TxControlReg read reports a driver bit set. The soft
      reset's effect on TxControlReg is not modelled. */
  lemma InitTwice(chip: seq<bv8>, base: nat)
    ensures var first := InitRun(chip, base, EspOk);
            var second := InitRun(chip, base + first.used, EspOk);
            && (forall v :: WriteFrame(TxControlReg, v) in first.frames + second.frames ==> v & AntennaBits == AntennaBits)
            && (Reply(chip, base + first.used) & AntennaBits != 0 ==>
                  forall v :: WriteFrame(TxControlReg, v) !in second.frames)
  {
    var first := InitRun(chip, base, EspOk);
    var second := InitRun(chip, base + first.used, EspOk);
    forall v | WriteFrame(TxControlReg, v) in first.frames + second.frames
      ensures v & AntennaBits == AntennaBits
    {
      if WriteFrame(TxControlReg, v) in first.frames {
        InitNeverSwitchesOff(chip, base, EspOk, v);
      } else {
        InitNeverSwitchesOff(chip, base + first.used, EspOk, v);
      }
    }
    if Reply(chip, base + first.used) & AntennaBits != 0 {
      forall v
        ensures WriteFrame(TxControlReg, v) !in second.frames
      {
        NoTxControlWriteInSetup(v);
        assert second.frames == SetupFrames() + [ReadFrame(TxControlReg)] + [ReadFrame(VersionReg)];
      }
    }
  }
}
