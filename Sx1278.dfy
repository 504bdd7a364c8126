/** The SX1278 register map as the LoRa component uses it, and the pure
    bit-field encoders behind its read-modify-write configuration of the
    chip (Semtech SX1276/77/78/79 datasheet register layout). */
module Sx1278 {
  import opened Bytes

  // Register addresses
  const RegFifo := 0x00
  const RegOpMode := 0x01
  const RegFrfMsb := 0x06
  const RegFrfMid := 0x07
  const RegFrfLsb := 0x08
  const RegPaConfig := 0x09
  const RegFifoAddrPtr := 0x0D
  const RegFifoTxBaseAddr := 0x0E
  const RegFifoRxBaseAddr := 0x0F
  const RegFifoRxCurrentAddr := 0x10
  const RegIrqFlags := 0x12
  const RegRxNbBytes := 0x13
  const RegModemConfig1 := 0x1D
  const RegModemConfig2 := 0x1E
  const RegPreambleMsb := 0x20
  const RegPreambleLsb := 0x21
  const RegPayloadLength := 0x22
  const RegDetectOptimize := 0x31
  const RegDetectionThreshold := 0x37
  const RegSyncWord := 0x39
  const RegDioMapping1 := 0x40
  const RegVersion := 0x42

  /** The chip version that `init_lora` accepts. */
  const ExpectedVersion: bv8 := 0x12

  // Operating modes
  const ModeLongRangeMode: bv8 := 0x80
  const ModeSleep: bv8 := 0x00
  const ModeStdby: bv8 := 0x01
  const ModeTx: bv8 := 0x03
  const ModeRxContinuous: bv8 := 0x05
  const ModeRxSingle: bv8 := 0x06

  // IRQ flags
  const IrqTxDoneMask: bv8 := 0x08
  const IrqPayloadCrcErrorMask: bv8 := 0x20
  const IrqRxDoneMask: bv8 := 0x40

  /** The value written to RegOpMode: LoRa mode bit plus a 3-bit mode. */
  function OpMode(m: bv8): (r: bv8)
    requires m < 8
    ensures r & 0x80 == 0x80
    ensures r & 0x07 == m
    ensures r & 0x78 == 0
  {
    ModeLongRangeMode | m
  }

  /** Every mode the component selects is a 3-bit value, so `OpMode` applies. */
  lemma ModesAreThreeBit()
    ensures ModeSleep < 8 && ModeStdby < 8 && ModeTx < 8
    ensures ModeRxContinuous < 8 && ModeRxSingle < 8
    ensures |{ModeSleep, ModeStdby, ModeTx, ModeRxContinuous, ModeRxSingle}| == 5
  {
  }

  predicate SingleBit(m: bv8)
  {
    m != 0 && m & (m - 1) == 0
  }

  /** The three IRQ masks are distinct single bits, so testing one flag is
      unaffected by the state of the others. */
  lemma IrqMasksIndependent(flags: bv8)
    ensures SingleBit(IrqTxDoneMask) && SingleBit(IrqPayloadCrcErrorMask) && SingleBit(IrqRxDoneMask)
    ensures IrqTxDoneMask & IrqPayloadCrcErrorMask == 0
    ensures IrqTxDoneMask & IrqRxDoneMask == 0
    ensures IrqPayloadCrcErrorMask & IrqRxDoneMask == 0
    ensures (flags | IrqTxDoneMask | IrqPayloadCrcErrorMask) & IrqRxDoneMask == flags & IrqRxDoneMask
    ensures (flags | IrqTxDoneMask | IrqRxDoneMask) & IrqPayloadCrcErrorMask == flags & IrqPayloadCrcErrorMask
    ensures (flags | IrqPayloadCrcErrorMask | IrqRxDoneMask) & IrqTxDoneMask == flags & IrqTxDoneMask
  {
  }

  /** The decision of `receive_packet`: a packet is taken iff RxDone is
      set, no CRC error is flagged and the reported length is non-zero. */
  predicate PacketReady(irqFlags: bv8, length: nat)
  {
    irqFlags & IrqRxDoneMask != 0 && irqFlags & IrqPayloadCrcErrorMask == 0 && length > 0
  }

  /** RegIrqFlags after `v` is written to it. The register is
      write-1-to-clear: every flag whose bit is 1 in `v` is cleared and the
      others are kept. */
  function ClearIrq(flags: bv8, v: bv8): (r: bv8)
    ensures r & v == 0
    ensures r | (flags & v) == flags
  {
    flags & !v
  }

  /** The value register `reg` holds after `v` is written to it when it
      held `current`: RegIrqFlags clears, every other register stores. */
  function WrittenValue(reg: int, current: bv8, v: bv8): bv8
  {
    if reg == RegIrqFlags then ClearIrq(current, v) else v
  }

  /** The decision of `receive_packet` depends on the RxDone and CRC-error
      flags only: a pending TxDone flag does not change it. */
  lemma PacketReadyIgnoresTxDone(irqFlags: bv8, length: nat)
    ensures PacketReady(irqFlags | IrqTxDoneMask, length) == PacketReady(irqFlags, length)
    ensures PacketReady(irqFlags, length) ==> length > 0 && irqFlags & IrqRxDoneMask == IrqRxDoneMask
  {
  }

  /** The high nibble of a register byte. */
  function HighNibble(r: bv8): bv8 { r >> 4 }

  /** RegModemConfig2 after `set_spreading_factor_internal`: SpreadingFactor
      in bits 7-4, bits 3-0 kept. */
  function SpreadingFactorBits(cfg2: bv8, sf: uint8): (r: bv8)
    ensures r & 0x0F == cfg2 & 0x0F
    ensures HighNibble(r) == (sf as bv8) & 0x0F
  {
    (cfg2 & 0x0F) | (((sf as bv8) << 4) & 0xF0)
  }

  /** RegDetectOptimize value: the SF6 setting iff sf == 6. */
  function DetectOptimize(sf: uint8): bv8
  {
    if sf == 6 then 0xC5 else 0xC3
  }

  /** RegDetectionThreshold value: the SF6 setting iff sf == 6. */
  function DetectionThreshold(sf: uint8): bv8
  {
    if sf == 6 then 0x0C else 0x0A
  }

  /** The bandwidths the chip supports, in the order of their register code. */
  const Bandwidths: seq<int> := [7800, 10400, 15600, 20800, 31250, 41700, 62500, 125000, 250000, 500000]

  /** The 4-bit Bw code of `set_bandwidth_internal`; an unlisted bandwidth
      falls back to 125 kHz (code 7). */
  function BandwidthCode(bw: uint32): (c: nat)
    ensures c < |Bandwidths|
    ensures bw in Bandwidths ==> Bandwidths[c] == bw
    ensures bw !in Bandwidths ==> c == 7
  {
    match bw
    case 7800 => 0
    case 10400 => 1
    case 15600 => 2
    case 20800 => 3
    case 31250 => 4
    case 41700 => 5
    case 62500 => 6
    case 125000 => 7
    case 250000 => 8
    case 500000 => 9
    case _ => 7
  }

  /** RegModemConfig1 after `set_bandwidth_internal`: Bw in bits 7-4,
      bits 3-0 kept. */
  function BandwidthBits(cfg1: bv8, code: nat): (r: bv8)
    requires code < 16
    ensures r & 0x0F == cfg1 & 0x0F
    ensures HighNibble(r) == code as bv8
  {
    (cfg1 & 0x0F) | ((code as bv8) << 4)
  }

  /** The CodingRate field (bits 3-1) of a RegModemConfig1 byte. */
  function CodingRateField(r: bv8): bv8 { (r >> 1) & 0x07 }

  /** RegModemConfig1 after `set_coding_rate_internal`: `cr - 4`, taken as
      a uint8, shifted into bits 3-1; bits 7-4 and 0 kept. */
  function CodingRateBits(cfg1: bv8, cr: uint8): (r: bv8)
    ensures r & 0x01 == cfg1 & 0x01
    ensures 5 <= cr <= 8 ==> r & 0xF1 == cfg1 & 0xF1
    ensures 5 <= cr <= 8 ==> CodingRateField(r) == (cr - 4) as bv8
  {
    var crValue := ((cr - 4) % 0x100) as bv8;
    (cfg1 & 0xF1) | (crValue << 1)
  }

  /** RegModemConfig2 after the CRC step of `init_lora`: bit 2 is
      RxPayloadCrcOn, every other bit kept. */
  function CrcBits(cfg2: bv8, enable: bool): (r: bv8)
    ensures r & 0xFB == cfg2 & 0xFB
    ensures (r & 0x04 != 0) == enable
  {
    if enable then cfg2 | 0x04 else cfg2 & 0xFB
  }

  /** The 24-bit carrier value `(f << 19) / 32000000`: the largest step of
      the 32 MHz / 2^19 synthesiser resolution not above `freq`. */
  function Frf(freq: uint32): (frf: nat)
    ensures frf * 32000000 <= freq * 0x8_0000 < (frf + 1) * 32000000
  {
    (freq * 0x8_0000) / 32000000
  }

  /** `(uint8)(frf >> 16)`, `(uint8)(frf >> 8)` and `(uint8)frf`. */
  function FrfMsb(frf: nat): byte { (frf / 0x1_0000) % 0x100 }
  function FrfMid(frf: nat): byte { (frf / 0x100) % 0x100 }
  function FrfLsb(frf: nat): byte { frf % 0x100 }

  /** Over the validated range 137-1020 MHz the carrier value is a
      non-zero 24-bit number. */
  lemma FrfIs24Bit(freq: uint32)
    requires 137000000 <= freq <= 1020000000
    ensures 0 < Frf(freq) < 0x100_0000
  {
    var frf := Frf(freq);
    assert frf * 32000000 <= 1020000000 * 0x8_0000;
  }

  /** A 24-bit carrier value is exactly what RegFrfMsb/Mid/Lsb hold. */
  lemma FrfBytesReassemble(frf: nat)
    requires frf < 0x100_0000
    ensures FrfMsb(frf) * 0x1_0000 + FrfMid(frf) * 0x100 + FrfLsb(frf) == frf
  {
    var q := frf / 0x100;
    assert frf == q * 0x100 + FrfLsb(frf);
    assert q / 0x100 == frf / 0x1_0000;
    assert q == (q / 0x100) * 0x100 + FrfMid(frf);
  }

  /** Over the validated range 137-1020 MHz the three bytes written
      reassemble to the carrier value. */
  lemma FrfFitsRegisters(freq: uint32)
    requires 137000000 <= freq <= 1020000000
    ensures FrfMsb(Frf(freq)) * 0x1_0000 + FrfMid(Frf(freq)) * 0x100 + FrfLsb(Frf(freq)) == Frf(freq)
  {
    FrfIs24Bit(freq);
    FrfBytesReassemble(Frf(freq));
  }

  /** RegPaConfig as `set_tx_power_internal` writes it: PaSelect (bit 7)
      is set iff the requested power exceeds 17 dBm, and the RFO setting
      always has bits 6-4 set. */
  function PaConfig(txPower: uint8): (r: bv8)
    ensures (r & 0x80 != 0) == (txPower > 17)
    ensures txPower <= 17 ==> r & 0x70 == 0x70
  {
    if txPower > 17 then 0x80 | ((txPower - 2) as bv8) else 0x70 | (txPower as bv8)
  }

  /** For 2..15 dBm the RFO setting has MaxPower 7 (bits 6-4) and
      OutputPower (bits 3-0) equal to the requested power. */
  lemma PaConfigRfo(txPower: uint8)
    requires 2 <= txPower <= 15
    ensures PaConfig(txPower) >> 4 == 0x07
    ensures PaConfig(txPower) & 0x0F == txPower as bv8
  {
  }

  /** As written, the RFO branch ORs 16 and 17 into the MaxPower field, so
      OutputPower is 0 or 1; and the PA_BOOST branch (18..20 dBm) writes
      `tx - 2` = 16..18, which does not fit the 4-bit OutputPower field and
      sets bit 4. */
  lemma PaConfigOutputPowerOverflow(txPower: uint8)
    requires 16 <= txPower <= 20
    ensures txPower <= 17 ==> PaConfig(txPower) & 0x0F == (txPower - 16) as bv8
    ensures txPower > 17 ==> PaConfig(txPower) & 0x0F == (txPower - 18) as bv8
    ensures txPower > 17 ==> PaConfig(txPower) & 0x10 == 0x10
  {
  }
}
