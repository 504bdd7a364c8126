/** The LoRa component: its configuration, the pending-message queue with
    timed retransmission, ACK matching, the receive-side duplicate history
    and the read-modify-write configuration of the SX1278 register file. */
module BasicLoRa {
  import opened Bytes
  import opened Sx1278
  import opened LoRaFrames

  /** The configuration fields of the component. */
  datatype LoRaConfig = LoRaConfig(
    frequency: uint32,
    spreadingFactor: uint8,
    bandwidth: uint32,
    codingRate: uint8,
    txPower: uint8,
    syncWord: uint8,
    preambleLength: uint16,
    enableCrc: bool,
    implicitHeader: bool,
    peerMac: Mac,
    maxRetries: uint8,
    timeoutUs: int)

  /** Only the registers in `written` may differ between `r` and `r'`. */
  predicate OnlyWrites(r: seq<bv8>, r': seq<bv8>, written: set<int>)
    requires |r| == 256 && |r'| == 256
  {
    forall k | 0 <= k < 256 && k !in written :: r'[k] == r[k]
  }

  /** Register file after `transmit_packet` has accepted a frame of this
      length: standby, every IRQ flag cleared by writing 0xFF, FIFO pointer
      at 0, the payload length, then TX mode. */
  function AfterTransmit(r: seq<bv8>, length: nat): (r': seq<bv8>)
    requires |r| == 256
    ensures |r'| == 256
    ensures OnlyWrites(r, r', {RegOpMode, RegIrqFlags, RegFifoAddrPtr, RegPayloadLength})
    ensures r'[RegOpMode] == OpMode(ModeTx) && r'[RegFifoAddrPtr] == 0 && r'[RegIrqFlags] == 0
    ensures r'[RegPayloadLength] == (length % 0x100) as bv8
  {
    r[RegOpMode := OpMode(ModeTx)][RegIrqFlags := ClearIrq(r[RegIrqFlags], 0xFF)][RegFifoAddrPtr := 0][RegPayloadLength := (length % 0x100) as bv8]
  }

  /** Each transmission rewrites the same four registers, so only the
      last one shows. */
  lemma AfterTransmitOverwrites(r: seq<bv8>, a: nat, b: nat)
    requires |r| == 256
    ensures AfterTransmit(AfterTransmit(r, a), b) == AfterTransmit(r, b)
  {
  }

  /** Register file after a run of accepted transmissions: that of the
      last one. */
  function TxRegisters(r: seq<bv8>, frames: seq<seq<byte>>): (r': seq<bv8>)
    requires |r| == 256
    ensures |r'| == 256
    ensures frames == [] ==> r' == r
    ensures frames != [] ==> r'[RegOpMode] == OpMode(ModeTx)
                             && r'[RegPayloadLength] == (|frames[|frames| - 1]| % 0x100) as bv8
  {
    if frames == [] then r else AfterTransmit(r, |frames[|frames| - 1]|)
  }

  /** Register file after `send_ack`: the ACK frame (if the radio is
      initialised), then back to continuous receive. */
  function AckRegisters(r: seq<bv8>, initialized: bool): (r': seq<bv8>)
    requires |r| == 256
    ensures |r'| == 256 && r'[RegOpMode] == OpMode(ModeRxContinuous)
  {
    (if initialized then AfterTransmit(r, HeaderLength) else r)[RegOpMode := OpMode(ModeRxContinuous)]
  }

  /** Register file after `receive_packet`: the handled IRQ flag is
      cleared and, for a packet, the FIFO pointer moved to it. A CRC error
      clears only the CRC-error flag, so RxDone stays set. */
  function ReceiveRegisters(r: seq<bv8>): (r': seq<bv8>)
    requires |r| == 256
    ensures |r'| == 256
    ensures OnlyWrites(r, r', {RegFifoAddrPtr, RegIrqFlags})
    ensures r[RegIrqFlags] & IrqRxDoneMask == 0 ==> r' == r
    ensures r[RegIrqFlags] & IrqRxDoneMask != 0 ==>
              r'[RegIrqFlags] == ClearIrq(r[RegIrqFlags], if r[RegIrqFlags] & IrqPayloadCrcErrorMask != 0 then IrqPayloadCrcErrorMask else IrqRxDoneMask)
    ensures r[RegIrqFlags] & IrqRxDoneMask != 0 && r[RegIrqFlags] & IrqPayloadCrcErrorMask == 0 ==>
              r'[RegIrqFlags] & IrqRxDoneMask == 0
    ensures r[RegIrqFlags] & IrqRxDoneMask != 0 && r[RegIrqFlags] & IrqPayloadCrcErrorMask != 0 ==>
              r'[RegIrqFlags] & IrqRxDoneMask != 0 && r'[RegIrqFlags] & IrqPayloadCrcErrorMask == 0
    ensures PacketReady(r[RegIrqFlags], r[RegRxNbBytes] as nat) ==> r'[RegFifoAddrPtr] == r[RegFifoRxCurrentAddr]
  {
    var flags := r[RegIrqFlags];
    if flags & IrqRxDoneMask == 0 then r
    else if flags & IrqPayloadCrcErrorMask != 0 then r[RegIrqFlags := ClearIrq(flags, IrqPayloadCrcErrorMask)]
    else if r[RegRxNbBytes] == 0 then r[RegIrqFlags := ClearIrq(flags, IrqRxDoneMask)]
    else r[RegFifoAddrPtr := r[RegFifoRxCurrentAddr]][RegIrqFlags := ClearIrq(flags, IrqRxDoneMask)]
  }

  /** A second `receive_packet` on an unchanged chip takes a packet iff the
      first one met a CRC error on a non-empty packet: every other branch
      clears RxDone or leaves the flags without it, but the CRC branch
      clears only the CRC-error flag. */
  lemma SecondReceiveTakesOnlyAfterCrcError(r: seq<bv8>)
    requires |r| == 256
    ensures var r' := ReceiveRegisters(r);
            PacketReady(r'[RegIrqFlags], r'[RegRxNbBytes] as nat)
            <==> r[RegIrqFlags] & IrqRxDoneMask != 0 && r[RegIrqFlags] & IrqPayloadCrcErrorMask != 0 && r[RegRxNbBytes] != 0
  {
  }

  /** The registers `init_lora` writes. */
  const InitRegisters: set<int> := {
    RegOpMode, RegFrfMsb, RegFrfMid, RegFrfLsb, RegPaConfig, RegFifoTxBaseAddr, RegFifoRxBaseAddr,
    RegModemConfig1, RegModemConfig2, RegPreambleMsb, RegPreambleLsb, RegDetectOptimize,
    RegDetectionThreshold, RegSyncWord, RegDioMapping1 }

  /** RegFrfMsb/Mid/Lsb after `set_frequency_internal`. */
  function FrequencyImage(r: seq<bv8>, freq: uint32): (r': seq<bv8>)
    requires |r| == 256
    ensures |r'| == 256
    ensures r'[RegFrfMsb] == FrfMsb(Frf(freq)) as bv8 && r'[RegFrfMid] == FrfMid(Frf(freq)) as bv8
            && r'[RegFrfLsb] == FrfLsb(Frf(freq)) as bv8
  {
    var frf := Frf(freq);
    r[RegFrfMsb := FrfMsb(frf) as bv8][RegFrfMid := FrfMid(frf) as bv8][RegFrfLsb := FrfLsb(frf) as bv8]
  }

  /** RegModemConfig2, RegDetectOptimize and RegDetectionThreshold after
      `set_spreading_factor_internal`. */
  function SpreadingFactorImage(r: seq<bv8>, sf: uint8): (r': seq<bv8>)
    requires |r| == 256
    ensures |r'| == 256
    ensures r'[RegModemConfig2] & 0x0F == r[RegModemConfig2] & 0x0F
    ensures HighNibble(r'[RegModemConfig2]) == (sf as bv8) & 0x0F
    ensures (r'[RegDetectOptimize] == 0xC5) == (sf == 6) && (r'[RegDetectionThreshold] == 0x0C) == (sf == 6)
  {
    r[RegModemConfig2 := SpreadingFactorBits(r[RegModemConfig2], sf)]
     [RegDetectOptimize := DetectOptimize(sf)][RegDetectionThreshold := DetectionThreshold(sf)]
  }

  /** RegModemConfig1 after `set_bandwidth_internal`. */
  function BandwidthImage(r: seq<bv8>, bw: uint32): (r': seq<bv8>)
    requires |r| == 256
    ensures |r'| == 256
    ensures r'[RegModemConfig1] & 0x0F == r[RegModemConfig1] & 0x0F
    ensures HighNibble(r'[RegModemConfig1]) as int == BandwidthCode(bw)
  {
    r[RegModemConfig1 := BandwidthBits(r[RegModemConfig1], BandwidthCode(bw))]
  }

  /** RegModemConfig1 after `set_coding_rate_internal`. */
  function CodingRateImage(r: seq<bv8>, cr: uint8): (r': seq<bv8>)
    requires |r| == 256
    ensures |r'| == 256
    ensures 5 <= cr <= 8 ==> r'[RegModemConfig1] & 0xF1 == r[RegModemConfig1] & 0xF1
                             && CodingRateField(r'[RegModemConfig1]) == (cr - 4) as bv8
  {
    r[RegModemConfig1 := CodingRateBits(r[RegModemConfig1], cr)]
  }

  /** RegPaConfig after `set_tx_power_internal`. */
  function TxPowerImage(r: seq<bv8>, power: uint8): (r': seq<bv8>)
    requires |r| == 256
    ensures |r'| == 256
    ensures (r'[RegPaConfig] & 0x80 != 0) == (power > 17)
  {
    r[RegPaConfig := PaConfig(power)]
  }

  /** Each `set_*_internal` function writes only its own registers. */
  lemma ConfigImagesOnlyWrite(r: seq<bv8>, c: LoRaConfig)
    requires |r| == 256
    ensures OnlyWrites(r, FrequencyImage(r, c.frequency), {RegFrfMsb, RegFrfMid, RegFrfLsb})
    ensures OnlyWrites(r, SpreadingFactorImage(r, c.spreadingFactor),
                       {RegModemConfig2, RegDetectOptimize, RegDetectionThreshold})
    ensures OnlyWrites(r, BandwidthImage(r, c.bandwidth), {RegModemConfig1})
    ensures OnlyWrites(r, CodingRateImage(r, c.codingRate), {RegModemConfig1})
    ensures OnlyWrites(r, TxPowerImage(r, c.txPower), {RegPaConfig})
  {
  }

  /** The modem configuration step of `init_lora`: carrier, spreading
      factor, bandwidth, coding rate and power, in that order. */
  function ModemImage(r: seq<bv8>, c: LoRaConfig): (r': seq<bv8>)
    requires |r| == 256
    ensures |r'| == 256
  {
    TxPowerImage(CodingRateImage(BandwidthImage(SpreadingFactorImage(
      FrequencyImage(r, c.frequency), c.spreadingFactor), c.bandwidth), c.codingRate), c.txPower)
  }

  /** Preamble, sync word, FIFO base addresses and DIO mapping. */
  function FrameImage(r: seq<bv8>, c: LoRaConfig): (r': seq<bv8>)
    requires |r| == 256
    ensures |r'| == 256
  {
    r[RegPreambleMsb := (c.preambleLength / 0x100) as bv8]
     [RegPreambleLsb := (c.preambleLength % 0x100) as bv8]
     [RegSyncWord := c.syncWord as bv8]
     [RegFifoTxBaseAddr := 0][RegFifoRxBaseAddr := 0][RegDioMapping1 := 0]
  }

  /** The register file after a successful `init_lora`, written in the
      order the firmware writes it. */
  function InitImage(r: seq<bv8>, c: LoRaConfig): (r': seq<bv8>)
    requires |r| == 256
    ensures |r'| == 256
  {
    var configured := FrameImage(ModemImage(r[RegOpMode := OpMode(ModeSleep)][RegOpMode := OpMode(ModeStdby)], c), c);
    configured[RegModemConfig2 := CrcBits(configured[RegModemConfig2], c.enableCrc)]
  }

  /** `init_lora` leaves the chip in standby LoRa mode with the carrier
      bytes and the PA setting of the configuration. */
  lemma InitImageCarrier(r: seq<bv8>, c: LoRaConfig)
    requires |r| == 256
    ensures var r' := InitImage(r, c);
      && r'[RegOpMode] == OpMode(ModeStdby)
      && r'[RegFrfMsb] == FrfMsb(Frf(c.frequency)) as bv8
      && r'[RegFrfMid] == FrfMid(Frf(c.frequency)) as bv8
      && r'[RegFrfLsb] == FrfLsb(Frf(c.frequency)) as bv8
      && r'[RegPaConfig] == PaConfig(c.txPower)
  {
    var modes := r[RegOpMode := OpMode(ModeSleep)][RegOpMode := OpMode(ModeStdby)];
    var fr := FrequencyImage(modes, c.frequency);
    var sf := SpreadingFactorImage(fr, c.spreadingFactor);
    var bw := BandwidthImage(sf, c.bandwidth);
    var cr := CodingRateImage(bw, c.codingRate);
    var modem := TxPowerImage(cr, c.txPower);
    assert modem == ModemImage(modes, c);
    var framed := FrameImage(modem, c);
    var r' := InitImage(r, c);
    assert r' == framed[RegModemConfig2 := CrcBits(framed[RegModemConfig2], c.enableCrc)];
    assert r'[RegOpMode] == framed[RegOpMode] == modem[RegOpMode] == cr[RegOpMode] == bw[RegOpMode]
        == sf[RegOpMode] == fr[RegOpMode] == modes[RegOpMode];
    assert r'[RegFrfMsb] == framed[RegFrfMsb] == modem[RegFrfMsb] == cr[RegFrfMsb] == bw[RegFrfMsb] == sf[RegFrfMsb] == fr[RegFrfMsb];
    assert r'[RegFrfMid] == framed[RegFrfMid] == modem[RegFrfMid] == cr[RegFrfMid] == bw[RegFrfMid] == sf[RegFrfMid] == fr[RegFrfMid];
    assert r'[RegFrfLsb] == framed[RegFrfLsb] == modem[RegFrfLsb] == cr[RegFrfLsb] == bw[RegFrfLsb] == sf[RegFrfLsb] == fr[RegFrfLsb];
    assert r'[RegPaConfig] == framed[RegPaConfig] == modem[RegPaConfig];
  }

  /** `init_lora` writes the preamble length high byte first, the sync
      word, and zero for both FIFO base addresses and the DIO mapping. */
  lemma InitImageFraming(r: seq<bv8>, c: LoRaConfig)
    requires |r| == 256
    ensures var r' := InitImage(r, c);
      && r'[RegPreambleMsb] == (c.preambleLength / 0x100) as bv8
      && r'[RegPreambleLsb] == (c.preambleLength % 0x100) as bv8
      && r'[RegSyncWord] == c.syncWord as bv8
      && r'[RegFifoTxBaseAddr] == 0 && r'[RegFifoRxBaseAddr] == 0 && r'[RegDioMapping1] == 0
  {
    var modes := r[RegOpMode := OpMode(ModeSleep)][RegOpMode := OpMode(ModeStdby)];
    var framed := FrameImage(ModemImage(modes, c), c);
    var r' := InitImage(r, c);
    assert r' == framed[RegModemConfig2 := CrcBits(framed[RegModemConfig2], c.enableCrc)];
    assert r'[RegPreambleMsb] == framed[RegPreambleMsb] && r'[RegPreambleLsb] == framed[RegPreambleLsb];
    assert r'[RegSyncWord] == framed[RegSyncWord] && r'[RegDioMapping1] == framed[RegDioMapping1];
    assert r'[RegFifoTxBaseAddr] == framed[RegFifoTxBaseAddr] && r'[RegFifoRxBaseAddr] == framed[RegFifoRxBaseAddr];
  }

  /** The read-modify-write fields of `init_lora`: RegModemConfig2 gets the
      spreading factor and the CRC bit over its old value, RegModemConfig1
      the bandwidth code and then the coding rate over its old value, and
      the two SF6 detection registers follow the spreading factor. */
  lemma InitImageModemFields(r: seq<bv8>, c: LoRaConfig)
    requires |r| == 256
    ensures var r' := InitImage(r, c);
      && r'[RegModemConfig2] == CrcBits(SpreadingFactorBits(r[RegModemConfig2], c.spreadingFactor), c.enableCrc)
      && r'[RegDetectOptimize] == DetectOptimize(c.spreadingFactor)
      && r'[RegDetectionThreshold] == DetectionThreshold(c.spreadingFactor)
      && r'[RegModemConfig1] == CodingRateBits(BandwidthBits(r[RegModemConfig1], BandwidthCode(c.bandwidth)), c.codingRate)
  {
    var modes := r[RegOpMode := OpMode(ModeSleep)][RegOpMode := OpMode(ModeStdby)];
    var fr := FrequencyImage(modes, c.frequency);
    var sf := SpreadingFactorImage(fr, c.spreadingFactor);
    var bw := BandwidthImage(sf, c.bandwidth);
    var cr := CodingRateImage(bw, c.codingRate);
    var modem := TxPowerImage(cr, c.txPower);
    assert modem == ModemImage(modes, c);
    var framed := FrameImage(modem, c);
    var r' := InitImage(r, c);
    assert r' == framed[RegModemConfig2 := CrcBits(framed[RegModemConfig2], c.enableCrc)];
    assert framed[RegModemConfig2] == modem[RegModemConfig2] == cr[RegModemConfig2] == bw[RegModemConfig2]
        == sf[RegModemConfig2] == SpreadingFactorBits(fr[RegModemConfig2], c.spreadingFactor);
    assert fr[RegModemConfig2] == modes[RegModemConfig2] == r[RegModemConfig2];
    assert r'[RegDetectOptimize] == framed[RegDetectOptimize] == modem[RegDetectOptimize] == cr[RegDetectOptimize]
        == bw[RegDetectOptimize] == sf[RegDetectOptimize];
    assert r'[RegDetectionThreshold] == framed[RegDetectionThreshold] == modem[RegDetectionThreshold]
        == cr[RegDetectionThreshold] == bw[RegDetectionThreshold] == sf[RegDetectionThreshold];
    assert r'[RegModemConfig1] == framed[RegModemConfig1] == modem[RegModemConfig1]
        == CodingRateBits(bw[RegModemConfig1], c.codingRate);
    assert bw[RegModemConfig1] == BandwidthBits(sf[RegModemConfig1], BandwidthCode(c.bandwidth));
    assert sf[RegModemConfig1] == fr[RegModemConfig1] == modes[RegModemConfig1] == r[RegModemConfig1];
  }

  /** `init_lora` touches no register outside the ones it configures; in
      particular the version register is kept. */
  lemma InitImageKeepsOthers(r: seq<bv8>, c: LoRaConfig)
    requires |r| == 256
    ensures OnlyWrites(r, InitImage(r, c), InitRegisters)
    ensures InitImage(r, c)[RegVersion] == r[RegVersion]
  {
    var modes := r[RegOpMode := OpMode(ModeSleep)][RegOpMode := OpMode(ModeStdby)];
    var modem := ModemImage(modes, c);
    assert forall k | 0 <= k < 256 && k !in InitRegisters :: modem[k] == r[k];
  }

  /** Appending one more frame updates the register file once more. */
  lemma TxRegistersSnoc(r: seq<bv8>, frames: seq<seq<byte>>, more: seq<seq<byte>>)
    requires |r| == 256 && |more| <= 1
    ensures TxRegisters(r, frames + more) == TxRegisters(TxRegisters(r, frames), more)
  {
    if more == [] {
      assert frames + more == frames;
    } else if frames != [] {
      AfterTransmitOverwrites(r, |frames[|frames| - 1]|, |more[0]|);
    }
  }

  class BasicLoRaEx {
    // LoRa parameters
    var frequency: uint32
    var spreadingFactor: uint8
    var bandwidth: uint32
    var codingRate: uint8
    var txPower: uint8
    var syncWord: uint8
    var preambleLength: uint16
    var enableCrc: bool
    var implicitHeader: bool

    // Communication parameters
    var peerMac: Mac
    var maxRetries: uint8
    var timeoutUs: int

    // Message management
    var pending: seq<PendingMessage>
    var history: seq<ReceivedMessageInfo>

    // Radio state
    var loraInitialized: bool
    var receiving: bool

    /** The SX1278 register file, reached over SPI. */
    var regs: array<bv8>

    /** Frames put on air and callback calls, in the order they happen. */
    var trace: seq<Output>

    ghost predicate Valid()
      reads this
    {
      regs.Length == 256 && |history| <= MaxHistorySize
    }

    function Settings(): LoRaConfig
      reads this
    {
      LoRaConfig(frequency, spreadingFactor, bandwidth, codingRate, txPower, syncWord,
                 preambleLength, enableCrc, implicitHeader, peerMac, maxRetries, timeoutUs)
    }

    /** The default member initialisers; `chip` is the radio's register file. */
    constructor (chip: array<bv8>)
      requires chip.Length == 256
      ensures Valid() && regs == chip
      ensures Settings() == LoRaConfig(433000000, 9, 125000, 7, 14, 0x12, 8, true, false,
                                       BroadcastMac, 5, 200000000)
      ensures pending == [] && history == [] && trace == []
      ensures !loraInitialized && !receiving
    {
      frequency, spreadingFactor, bandwidth, codingRate := 433000000, 9, 125000, 7;
      txPower, syncWord, preambleLength := 14, 0x12, 8;
      enableCrc, implicitHeader := true, false;
      peerMac, maxRetries, timeoutUs := BroadcastMac, 5, 200000000;
      pending, history := [], [];
      loraInitialized, receiving := false, false;
      regs := chip;
      trace := [];
    }

    // -------------------------------------------------------------------
    // Configuration setters

    method SetFrequency(f: uint32)
      modifies this
      ensures Settings() == old(Settings()).(frequency := f)
      ensures pending == old(pending) && history == old(history) && trace == old(trace)
      ensures loraInitialized == old(loraInitialized) && receiving == old(receiving) && regs == old(regs)
    {
      frequency := f;
    }

    method SetSpreadingFactor(sf: uint8)
      modifies this
      ensures Settings() == old(Settings()).(spreadingFactor := sf)
      ensures pending == old(pending) && history == old(history) && trace == old(trace)
      ensures loraInitialized == old(loraInitialized) && receiving == old(receiving) && regs == old(regs)
    {
      spreadingFactor := sf;
    }

    method SetBandwidth(bw: uint32)
      modifies this
      ensures Settings() == old(Settings()).(bandwidth := bw)
      ensures pending == old(pending) && history == old(history) && trace == old(trace)
      ensures loraInitialized == old(loraInitialized) && receiving == old(receiving) && regs == old(regs)
    {
      bandwidth := bw;
    }

    method SetCodingRate(cr: uint8)
      modifies this
      ensures Settings() == old(Settings()).(codingRate := cr)
      ensures pending == old(pending) && history == old(history) && trace == old(trace)
      ensures loraInitialized == old(loraInitialized) && receiving == old(receiving) && regs == old(regs)
    {
      codingRate := cr;
    }

    method SetTxPower(power: uint8)
      modifies this
      ensures Settings() == old(Settings()).(txPower := power)
      ensures pending == old(pending) && history == old(history) && trace == old(trace)
      ensures loraInitialized == old(loraInitialized) && receiving == old(receiving) && regs == old(regs)
    {
      txPower := power;
    }

    method SetSyncWord(sw: uint8)
      modifies this
      ensures Settings() == old(Settings()).(syncWord := sw)
      ensures pending == old(pending) && history == old(history) && trace == old(trace)
      ensures loraInitialized == old(loraInitialized) && receiving == old(receiving) && regs == old(regs)
    {
      syncWord := sw;
    }

    method SetPreambleLength(length: uint16)
      modifies this
      ensures Settings() == old(Settings()).(preambleLength := length)
      ensures pending == old(pending) && history == old(history) && trace == old(trace)
      ensures loraInitialized == old(loraInitialized) && receiving == old(receiving) && regs == old(regs)
    {
      preambleLength := length;
    }

    method SetEnableCrc(enable: bool)
      modifies this
      ensures Settings() == old(Settings()).(enableCrc := enable)
      ensures pending == old(pending) && history == old(history) && trace == old(trace)
      ensures loraInitialized == old(loraInitialized) && receiving == old(receiving) && regs == old(regs)
    {
      enableCrc := enable;
    }

    method SetImplicitHeader(implicit: bool)
      modifies this
      ensures Settings() == old(Settings()).(implicitHeader := implicit)
      ensures pending == old(pending) && history == old(history) && trace == old(trace)
      ensures loraInitialized == old(loraInitialized) && receiving == old(receiving) && regs == old(regs)
    {
      implicitHeader := implicit;
    }

    method SetPeerMac(mac: Mac)
      modifies this
      ensures Settings() == old(Settings()).(peerMac := mac)
      ensures pending == old(pending) && history == old(history) && trace == old(trace)
      ensures loraInitialized == old(loraInitialized) && receiving == old(receiving) && regs == old(regs)
    {
      peerMac := mac;
    }

    method SetMaxRetries(n: uint8)
      modifies this
      ensures Settings() == old(Settings()).(maxRetries := n)
      ensures pending == old(pending) && history == old(history) && trace == old(trace)
      ensures loraInitialized == old(loraInitialized) && receiving == old(receiving) && regs == old(regs)
    {
      maxRetries := n;
    }

    /** The configured value is scaled by 1000 before it is stored. */
    method SetTimeoutUs(t: int)
      modifies this
      ensures Settings() == old(Settings()).(timeoutUs := t * 1000)
      ensures pending == old(pending) && history == old(history) && trace == old(trace)
      ensures loraInitialized == old(loraInitialized) && receiving == old(receiving) && regs == old(regs)
    {
      timeoutUs := t * 1000;
    }

    // -------------------------------------------------------------------
    // Register access

    method ReadRegister(reg: int) returns (v: bv8)
      requires Valid() && 0 <= reg < 256
      ensures v == regs[reg]
    {
      v := regs[reg];
    }

    method WriteRegister(reg: int, v: bv8)
      requires Valid() && 0 <= reg < 256
      modifies regs
      ensures regs[..] == old(regs[..])[reg := WrittenValue(reg, old(regs[reg]), v)]
      ensures reg != RegIrqFlags ==> regs[..] == old(regs[..])[reg := v]
    {
      regs[reg] := WrittenValue(reg, regs[reg], v);
    }

    method SetMode(mode: bv8)
      requires Valid()
      modifies regs
      ensures regs[..] == old(regs[..])[RegOpMode := mode]
    {
      WriteRegister(RegOpMode, mode);
    }

    method SetFrequencyInternal()
      requires Valid()
      modifies regs
      ensures regs[..] == FrequencyImage(old(regs[..]), frequency)
    {
      var frf := Frf(frequency);
      WriteRegister(RegFrfMsb, FrfMsb(frf) as bv8);
      WriteRegister(RegFrfMid, FrfMid(frf) as bv8);
      WriteRegister(RegFrfLsb, FrfLsb(frf) as bv8);
    }

    method SetSpreadingFactorInternal()
      requires Valid()
      modifies regs
      ensures regs[..] == SpreadingFactorImage(old(regs[..]), spreadingFactor)
    {
      var cfg2 := ReadRegister(RegModemConfig2);
      WriteRegister(RegModemConfig2, SpreadingFactorBits(cfg2, spreadingFactor));
      if spreadingFactor == 6 {
        WriteRegister(RegDetectOptimize, 0xC5);
        WriteRegister(RegDetectionThreshold, 0x0C);
      } else {
        WriteRegister(RegDetectOptimize, 0xC3);
        WriteRegister(RegDetectionThreshold, 0x0A);
      }
    }

    method SetBandwidthInternal()
      requires Valid()
      modifies regs
      ensures regs[..] == BandwidthImage(old(regs[..]), bandwidth)
    {
      var code := BandwidthCode(bandwidth);
      var cfg1 := ReadRegister(RegModemConfig1);
      WriteRegister(RegModemConfig1, BandwidthBits(cfg1, code));
    }

    method SetCodingRateInternal()
      requires Valid()
      modifies regs
      ensures regs[..] == CodingRateImage(old(regs[..]), codingRate)
    {
      var cfg1 := ReadRegister(RegModemConfig1);
      WriteRegister(RegModemConfig1, CodingRateBits(cfg1, codingRate));
    }

    method SetTxPowerInternal()
      requires Valid()
      modifies regs
      ensures regs[..] == TxPowerImage(old(regs[..]), txPower)
    {
      WriteRegister(RegPaConfig, PaConfig(txPower));
    }

    /** `init_lora`: refuses a chip whose version is not 0x12 and changes
        nothing; otherwise configures the chip (see `InitImage` and the lemmas about it)
        and marks the radio initialised. */
    method InitLora() returns (ok: bool)
      requires Valid()
      modifies this, regs
      ensures Valid() && regs == old(regs) && Settings() == old(Settings())
      ensures pending == old(pending) && history == old(history) && trace == old(trace) && receiving == old(receiving)
      ensures ok == (old(regs[RegVersion]) == ExpectedVersion)
      ensures !ok ==> regs[..] == old(regs[..]) && loraInitialized == old(loraInitialized)
      ensures ok ==> loraInitialized && regs[..] == InitImage(old(regs[..]), Settings())
    {
      var version := ReadRegister(RegVersion);
      if version != ExpectedVersion {
        return false;
      }
      ghost var r0 := regs[..];
      SetMode(OpMode(ModeSleep));
      SetMode(OpMode(ModeStdby));
      ghost var r1 := regs[..];
      assert r1 == r0[RegOpMode := OpMode(ModeSleep)][RegOpMode := OpMode(ModeStdby)];
      SetFrequencyInternal();
      SetSpreadingFactorInternal();
      SetBandwidthInternal();
      SetCodingRateInternal();
      SetTxPowerInternal();
      ghost var r2 := regs[..];
      assert r2 == ModemImage(r1, Settings());
      WriteRegister(RegPreambleMsb, (preambleLength / 0x100) as bv8);
      WriteRegister(RegPreambleLsb, (preambleLength % 0x100) as bv8);
      WriteRegister(RegSyncWord, syncWord as bv8);
      WriteRegister(RegFifoTxBaseAddr, 0x00);
      WriteRegister(RegFifoRxBaseAddr, 0x00);
      WriteRegister(RegDioMapping1, 0x00);
      ghost var r3 := regs[..];
      assert r3 == FrameImage(r2, Settings());
      var cfg2 := ReadRegister(RegModemConfig2);
      WriteRegister(RegModemConfig2, CrcBits(cfg2, enableCrc));
      loraInitialized := true;
      return true;
    }

    /** The radio part of `setup`: initialise the chip and, if that
        succeeds, enter continuous receive. */
    method Setup()
      requires Valid()
      modifies this, regs
      ensures Valid() && regs == old(regs) && Settings() == old(Settings())
      ensures pending == old(pending) && history == old(history) && trace == old(trace)
      ensures old(regs[RegVersion]) != ExpectedVersion ==>
                regs[..] == old(regs[..]) && loraInitialized == old(loraInitialized) && receiving == old(receiving)
      ensures old(regs[RegVersion]) == ExpectedVersion ==>
                loraInitialized && receiving
                && regs[..] == InitImage(old(regs[..]), Settings())[RegOpMode := OpMode(ModeRxContinuous)]
    {
      var ok := InitLora();
      if !ok {
        return;
      }
      SetMode(OpMode(ModeRxContinuous));
      receiving := true;
    }

    // -------------------------------------------------------------------
    // Transmission

    /** `transmit_packet`: silently refuses an uninitialised radio and
        frames outside 1..255 bytes; otherwise puts the frame on air. */
    method TransmitPacket(data: seq<byte>)
      requires Valid()
      modifies this, regs
      ensures Valid() && regs == old(regs) && Settings() == old(Settings())
      ensures pending == old(pending) && history == old(history) && loraInitialized == old(loraInitialized)
      ensures TxAccepts(old(loraInitialized), data) ==>
                trace == old(trace) + [Transmitted(data)] && !receiving
                && regs[..] == AfterTransmit(old(regs[..]), |data|)
      ensures !TxAccepts(old(loraInitialized), data) ==>
                trace == old(trace) && receiving == old(receiving) && regs[..] == old(regs[..])
    {
      if !loraInitialized || |data| == 0 || |data| > MaxFrameLength {
        return;
      }
      SetMode(OpMode(ModeStdby));
      receiving := false;
      WriteRegister(RegIrqFlags, 0xFF);
      WriteRegister(RegFifoAddrPtr, 0);
      WriteRegister(RegPayloadLength, (|data| % 0x100) as bv8);
      SetMode(OpMode(ModeTx));
      trace := trace + [Transmitted(data)];
      assert regs[..] == AfterTransmit(old(regs[..]), |data|);
    }

    /** `send_ack`: the 10-byte ACK frame, then back to continuous receive. */
    method SendAck(mac: Mac, id: MsgId)
      requires Valid()
      modifies this, regs
      ensures Valid() && regs == old(regs) && Settings() == old(Settings())
      ensures pending == old(pending) && history == old(history) && loraInitialized == old(loraInitialized)
      ensures trace == old(trace) + (if old(loraInitialized) then [Transmitted(AckFrame(mac, id))] else [])
      ensures regs[..] == AckRegisters(old(regs[..]), old(loraInitialized))
      ensures receiving
    {
      TransmitPacket(AckFrame(mac, id));
      SetMode(OpMode(ModeRxContinuous));
      receiving := true;
    }

    /** The locked block of `send_lora`: append one new entry. */
    method EnqueueLora(msg: seq<byte>, mac: Mac, id: MsgId, now: int)
      modifies this
      ensures pending == old(pending) + [NewPending(mac, id, now, msg)]
      ensures Settings() == old(Settings()) && history == old(history) && trace == old(trace)
      ensures loraInitialized == old(loraInitialized) && receiving == old(receiving) && regs == old(regs)
      ensures old(QueueWellFormed(pending)) ==> QueueWellFormed(pending)
      ensures old(RetriesBounded(pending, maxRetries)) ==> RetriesBounded(pending, maxRetries)
    {
      NewPendingShape(mac, id, now, msg);
      pending := pending + [NewPending(mac, id, now, msg)];
    }

    /** One iteration of the retransmission loop of `process_send_queue`:
        a due entry is handed to `transmit_packet` and gets its retry count
        raised and its timestamp set to `now`. */
    method RetryEntry(i: nat, now: int)
      requires Valid() && i < |pending|
      modifies this, regs
      ensures Valid() && regs == old(regs) && Settings() == old(Settings())
      ensures history == old(history) && loraInitialized == old(loraInitialized)
      ensures pending == old(pending)[i := Advance(old(pending)[i], now, timeoutUs, maxRetries)]
      ensures var sent := EntryFrames(old(pending)[i], now, timeoutUs, maxRetries, loraInitialized);
              && trace == old(trace) + TxOutputs(sent)
              && regs[..] == TxRegisters(old(regs[..]), sent)
              && receiving == (old(receiving) && sent == [])
    {
      var msg := pending[i];
      if !msg.acked && now - msg.timestamp > timeoutUs && msg.retryCount < maxRetries {
        TransmitPacket(msg.payload);
        pending := pending[i := msg.(retryCount := msg.retryCount + 1, timestamp := now)];
      }
      ghost var sent := EntryFrames(old(pending)[i], now, timeoutUs, maxRetries, loraInitialized);
      assert sent != [] ==> TxRegisters(old(regs[..]), sent) == AfterTransmit(old(regs[..]), |sent[0]|) by {
        if sent != [] {
          assert sent[..0] == [];
        }
      }
    }

    /** The state of the retransmission loop after its first `i` entries:
        those are advanced, and their frames are on air. */
    ghost predicate RetransmitProgress(now: int, i: nat, kept: seq<PendingMessage>, sent: seq<seq<byte>>,
                                       trace0: seq<Output>, regs0: seq<bv8>, receiving0: bool)
      reads this, regs
    {
      && Valid() && i <= |kept| && |regs0| == 256
      && pending == Step(kept[..i], now, timeoutUs, maxRetries) + kept[i..]
      && sent == RetransmittedFrames(kept[..i], now, timeoutUs, maxRetries, loraInitialized)
      && trace == trace0 + TxOutputs(sent)
      && regs[..] == TxRegisters(regs0, sent)
      && receiving == (receiving0 && sent == [])
    }

    /** One iteration of the retransmission loop keeps its invariant. */
    method RetransmitNext(now: int, i: nat, ghost kept: seq<PendingMessage>, ghost sent: seq<seq<byte>>,
                          ghost trace0: seq<Output>, ghost regs0: seq<bv8>, ghost receiving0: bool)
        returns (ghost sent': seq<seq<byte>>)
      requires RetransmitProgress(now, i, kept, sent, trace0, regs0, receiving0) && i < |kept|
      modifies this, regs
      ensures regs == old(regs) && Settings() == old(Settings())
      ensures history == old(history) && loraInitialized == old(loraInitialized)
      ensures RetransmitProgress(now, i + 1, kept, sent', trace0, regs0, receiving0)
    {
      ghost var more := EntryFrames(kept[i], now, timeoutUs, maxRetries, loraInitialized);
      RetransmittedFramesPrefix(kept, i, now, timeoutUs, maxRetries, loraInitialized);
      StepPrefix(kept, i, now, timeoutUs, maxRetries);
      TxOutputsConcat(sent, more);
      TxRegistersSnoc(regs0, sent, more);
      ghost var pending0 := pending;
      assert pending0[i] == kept[i];
      RetryEntry(i, now);
      assert pending == pending0[i := Advance(kept[i], now, timeoutUs, maxRetries)];
      assert trace == trace0 + TxOutputs(sent) + TxOutputs(more);
      assert regs[..] == TxRegisters(TxRegisters(regs0, sent), more);
      sent' := sent + more;
    }

    /** The retransmission loop of `process_send_queue`, over the entries
        that survived pruning. */
    method RetransmitDue(now: int)
      requires Valid()
      modifies this, regs
      ensures Valid() && regs == old(regs) && Settings() == old(Settings())
      ensures history == old(history) && loraInitialized == old(loraInitialized)
      ensures var frames := RetransmittedFrames(old(pending), now, timeoutUs, maxRetries, loraInitialized);
              && pending == Step(old(pending), now, timeoutUs, maxRetries)
              && trace == old(trace) + TxOutputs(frames)
              && regs[..] == TxRegisters(old(regs[..]), frames)
              && receiving == (old(receiving) && frames == [])
    {
      ghost var kept := pending;
      ghost var sent: seq<seq<byte>> := [];
      var i := 0;
      assert kept[..0] == [] && kept[0..] == kept;
      while i < |pending|
        invariant Settings() == old(Settings()) && regs == old(regs)
        invariant history == old(history) && loraInitialized == old(loraInitialized)
        invariant |pending| == |kept|
        invariant RetransmitProgress(now, i, kept, sent, old(trace), old(regs[..]), old(receiving))
      {
        sent := RetransmitNext(now, i, kept, sent, old(trace), old(regs[..]), old(receiving));
        i := i + 1;
      }
      assert RetransmitProgress(now, i, kept, sent, old(trace), old(regs[..]), old(receiving));
      assert i == |kept| && kept[..i] == kept && kept[i..] == [];
      assert sent == RetransmittedFrames(kept, now, timeoutUs, maxRetries, loraInitialized);
      assert pending == Step(kept, now, timeoutUs, maxRetries) + [];
    }

    /** `process_send_queue` at time `now`. `lockAcquired` is the outcome
        of the non-blocking try-lock: when it fails the pass does nothing. */
    method ProcessSendQueue(now: int, lockAcquired: bool)
      requires Valid()
      modifies this, regs
      ensures Valid() && regs == old(regs) && Settings() == old(Settings())
      ensures history == old(history) && loraInitialized == old(loraInitialized)
      ensures !lockAcquired ==>
                pending == old(pending) && trace == old(trace)
                && regs[..] == old(regs[..]) && receiving == old(receiving)
      ensures lockAcquired ==>
                var frames := QueueFrames(old(pending), now, timeoutUs, maxRetries, loraInitialized);
                && pending == ProcessQueue(old(pending), now, timeoutUs, maxRetries)
                && trace == old(trace) + TxOutputs(frames)
                && regs[..] == TxRegisters(old(regs[..]), frames)
                && receiving == (old(receiving) && frames == [])
      ensures old(QueueWellFormed(pending)) ==> QueueWellFormed(pending)
      ensures old(RetriesBounded(pending, maxRetries)) ==> RetriesBounded(pending, maxRetries)
    {
      if !lockAcquired {
        return;
      }
      pending := Prune(pending, now, timeoutUs, maxRetries);
      RetransmitDue(now);
      if old(QueueWellFormed(pending)) {
        ProcessQueueKeepsWellFormed(old(pending), now, timeoutUs, maxRetries);
      }
      if old(RetriesBounded(pending, maxRetries)) {
        ProcessQueueKeepsRetriesBounded(old(pending), now, timeoutUs, maxRetries);
      }
    }

    /** `send_lora`: enqueue with the send time `now`, then run one pass of
        `process_send_queue` at `queueNow` (it never transmits by itself). */
    method SendLora(msg: seq<byte>, mac: Mac, id: MsgId, now: int, queueNow: int, lockAcquired: bool)
      requires Valid()
      modifies this, regs
      ensures Valid() && regs == old(regs) && Settings() == old(Settings())
      ensures history == old(history) && loraInitialized == old(loraInitialized)
      ensures var queued := old(pending) + [NewPending(mac, id, now, msg)];
              var frames := if lockAcquired then QueueFrames(queued, queueNow, timeoutUs, maxRetries, loraInitialized) else [];
              && pending == (if lockAcquired then ProcessQueue(queued, queueNow, timeoutUs, maxRetries) else queued)
              && trace == old(trace) + TxOutputs(frames)
              && regs[..] == TxRegisters(old(regs[..]), frames)
              && receiving == (old(receiving) && frames == [])
      ensures old(QueueWellFormed(pending)) ==> QueueWellFormed(pending)
      ensures old(RetriesBounded(pending, maxRetries)) ==> RetriesBounded(pending, maxRetries)
    {
      EnqueueLora(msg, mac, id, now);
      ProcessSendQueue(queueNow, lockAcquired);
    }

    /** `send_broadcast`: `send_lora` to FF:FF:FF:FF:FF:FF. */
    method SendBroadcast(msg: seq<byte>, id: MsgId, now: int, queueNow: int, lockAcquired: bool)
      requires Valid()
      modifies this, regs
      ensures Valid() && regs == old(regs) && Settings() == old(Settings())
      ensures history == old(history) && loraInitialized == old(loraInitialized)
      ensures var queued := old(pending) + [NewPending(BroadcastMac, id, now, msg)];
              var frames := if lockAcquired then QueueFrames(queued, queueNow, timeoutUs, maxRetries, loraInitialized) else [];
              && pending == (if lockAcquired then ProcessQueue(queued, queueNow, timeoutUs, maxRetries) else queued)
              && trace == old(trace) + TxOutputs(frames)
              && regs[..] == TxRegisters(old(regs[..]), frames)
              && receiving == (old(receiving) && frames == [])
      ensures old(QueueWellFormed(pending)) ==> QueueWellFormed(pending)
      ensures old(RetriesBounded(pending, maxRetries)) ==> RetriesBounded(pending, maxRetries)
    {
      SendLora(msg, BroadcastMac, id, now, queueNow, lockAcquired);
    }

    /** `send_to_peer`: `send_lora` to the configured peer. */
    method SendToPeer(msg: seq<byte>, id: MsgId, now: int, queueNow: int, lockAcquired: bool)
      requires Valid()
      modifies this, regs
      ensures Valid() && regs == old(regs) && Settings() == old(Settings())
      ensures history == old(history) && loraInitialized == old(loraInitialized)
      ensures var queued := old(pending) + [NewPending(peerMac, id, now, msg)];
              var frames := if lockAcquired then QueueFrames(queued, queueNow, timeoutUs, maxRetries, loraInitialized) else [];
              && pending == (if lockAcquired then ProcessQueue(queued, queueNow, timeoutUs, maxRetries) else queued)
              && trace == old(trace) + TxOutputs(frames)
              && regs[..] == TxRegisters(old(regs[..]), frames)
              && receiving == (old(receiving) && frames == [])
      ensures old(QueueWellFormed(pending)) ==> QueueWellFormed(pending)
      ensures old(RetriesBounded(pending, maxRetries)) ==> RetriesBounded(pending, maxRetries)
    {
      SendLora(msg, peerMac, id, now, queueNow, lockAcquired);
    }

    /** `send_lora_cmd`: encode as [hi, lo, hi, lo]; an equal command still
        queued as an 8-byte payload would only have its retry state reset,
        otherwise the command is sent with `send_lora`. */
    method SendLoraCmd(cmd: int16, mac: Mac, id: MsgId, now: int, queueNow: int, lockAcquired: bool)
      requires Valid()
      modifies this, regs
      ensures Valid() && regs == old(regs) && Settings() == old(Settings())
      ensures history == old(history) && loraInitialized == old(loraInitialized)
      ensures FindQueuedCmd(old(pending), mac, EncodeCmd(cmd)).Some? ==>
                var k := FindQueuedCmd(old(pending), mac, EncodeCmd(cmd)).value;
                && pending == old(pending)[k := old(pending)[k].(retryCount := 0, timestamp := now)]
                && trace == old(trace) && regs[..] == old(regs[..]) && receiving == old(receiving)
      ensures FindQueuedCmd(old(pending), mac, EncodeCmd(cmd)).None? ==>
                var queued := old(pending) + [NewPending(mac, id, now, EncodeCmd(cmd))];
                var frames := if lockAcquired then QueueFrames(queued, queueNow, timeoutUs, maxRetries, loraInitialized) else [];
                && pending == (if lockAcquired then ProcessQueue(queued, queueNow, timeoutUs, maxRetries) else queued)
                && trace == old(trace) + TxOutputs(frames)
                && regs[..] == TxRegisters(old(regs[..]), frames)
                && receiving == (old(receiving) && frames == [])
      ensures old(QueueWellFormed(pending)) ==> QueueWellFormed(pending)
      ensures old(RetriesBounded(pending, maxRetries)) ==> RetriesBounded(pending, maxRetries)
    {
      var msg := EncodeCmd(cmd);
      if QueueWellFormed(pending) {
        QueuedCmdNeverFound(pending, mac, msg);
      }
      var found := FindQueuedCmd(pending, mac, msg);
      if found.Some? {
        var k := found.value;
        ghost var ps := pending;
        pending := pending[k := pending[k].(retryCount := 0, timestamp := now)];
        forall m | m in pending
          ensures m in ps || m == ps[k].(retryCount := 0, timestamp := now)
        {
          var j :| 0 <= j < |pending| && pending[j] == m;
          if j != k { assert m == ps[j]; }
        }
      } else {
        SendLora(msg, mac, id, now, queueNow, lockAcquired);
      }
    }

    method ClearPendingMessages()
      modifies this
      ensures pending == []
      ensures Settings() == old(Settings()) && history == old(history) && trace == old(trace)
      ensures loraInitialized == old(loraInitialized) && receiving == old(receiving) && regs == old(regs)
    {
      pending := [];
    }

    method GetPendingCount() returns (count: nat)
      ensures count == |pending|
    {
      count := |pending|;
    }

    // -------------------------------------------------------------------
    // Reception

    /** The ACK branch of `handle_received_data`: the first entry for
        `mac` and `id` not yet acked is marked acked, and only then is the
        ack callback called. */
    method HandleAckPacket(mac: Mac, id: MsgId)
      modifies this
      ensures Settings() == old(Settings()) && history == old(history) && regs == old(regs)
      ensures loraInitialized == old(loraInitialized) && receiving == old(receiving)
      ensures var target := FindAckTarget(old(pending), mac, id);
              && (target.None? ==> pending == old(pending) && trace == old(trace))
              && (target.Some? ==>
                    pending == old(pending)[target.value := old(pending)[target.value].(acked := true)]
                    && trace == old(trace) + [AckReceived(mac, id)])
      ensures old(QueueWellFormed(pending)) ==> QueueWellFormed(pending)
      ensures old(RetriesBounded(pending, maxRetries)) ==> RetriesBounded(pending, maxRetries)
    {
      var target := FindAckTarget(pending, mac, id);
      if target.Some? {
        var k := target.value;
        assert pending[k] in pending;
        pending := pending[k := pending[k].(acked := true)];
        trace := trace + [AckReceived(mac, id)];
      }
    }

    /** The data branch of `handle_received_data`: prune the history, drop
        a duplicate silently, otherwise record the packet, acknowledge it
        and dispatch the payload. */
    method HandleDataPacket(data: seq<byte>, mac: Mac, id: MsgId, payload: seq<byte>, now: int)
      requires Valid() && Classify(data) == DataPacket(mac, id, payload)
      modifies this, regs
      ensures Valid() && regs == old(regs) && Settings() == old(Settings())
      ensures loraInitialized == old(loraInitialized) && pending == old(pending)
      ensures var recent := PruneHistory(old(history), now);
              && (Seen(recent, mac, data) ==>
                    history == recent && trace == old(trace)
                    && regs[..] == old(regs[..]) && receiving == old(receiving))
              && (!Seen(recent, mac, data) ==>
                    history == Remember(recent, mac, now, data)
                    && trace == old(trace)
                                + (if loraInitialized then [Transmitted(AckFrame(mac, id))] else [])
                                + Dispatch(mac, payload)
                    && regs[..] == AckRegisters(old(regs[..]), loraInitialized)
                    && receiving)
    {
      history := PruneHistory(history, now);
      var isDuplicate := Seen(history, mac, data);
      if !isDuplicate {
        history := Remember(history, mac, now, data);
      }
      if isDuplicate {
        return;
      }
      SendAck(mac, id);
      trace := trace + Dispatch(mac, payload);
    }

    /** `handle_received_data`. Short packets, ACK-typed packets of another
        length and unknown types are dropped with no change; an ACK goes to
        `HandleAckPacket`, a data packet to `HandleDataPacket`. */
    method HandleReceivedData(data: seq<byte>, now: int)
      requires Valid()
      modifies this, regs
      ensures Valid() && regs == old(regs) && Settings() == old(Settings())
      ensures loraInitialized == old(loraInitialized)
      ensures Classify(data).TooShort? || Classify(data).Ignored? ==>
                pending == old(pending) && history == old(history) && trace == old(trace)
                && regs[..] == old(regs[..]) && receiving == old(receiving)
      ensures Classify(data).AckPacket? ==>
                var mac, id := Classify(data).mac, Classify(data).id;
                var target := FindAckTarget(old(pending), mac, id);
                && history == old(history) && regs[..] == old(regs[..]) && receiving == old(receiving)
                && (target.None? ==> pending == old(pending) && trace == old(trace))
                && (target.Some? ==>
                      pending == old(pending)[target.value := old(pending)[target.value].(acked := true)]
                      && trace == old(trace) + [AckReceived(mac, id)])
      ensures Classify(data).DataPacket? ==>
                var mac, id, payload := Classify(data).mac, Classify(data).id, Classify(data).payload;
                var recent := PruneHistory(old(history), now);
                && pending == old(pending)
                && (Seen(recent, mac, data) ==>
                      history == recent && trace == old(trace)
                      && regs[..] == old(regs[..]) && receiving == old(receiving))
                && (!Seen(recent, mac, data) ==>
                      history == Remember(recent, mac, now, data)
                      && trace == old(trace)
                                  + (if loraInitialized then [Transmitted(AckFrame(mac, id))] else [])
                                  + Dispatch(mac, payload)
                      && regs[..] == AckRegisters(old(regs[..]), loraInitialized)
                      && receiving)
      ensures old(QueueWellFormed(pending)) ==> QueueWellFormed(pending)
      ensures old(RetriesBounded(pending, maxRetries)) ==> RetriesBounded(pending, maxRetries)
    {
      match Classify(data)
      case TooShort =>
      case Ignored(_) =>
      case AckPacket(mac, id) =>
        HandleAckPacket(mac, id);
      case DataPacket(mac, id, payload) =>
        HandleDataPacket(data, mac, id, payload, now);
    }

    /** `receive_packet`: take a packet iff RxDone is set, no CRC error is
        flagged and RegRxNbBytes is non-zero, acknowledging the flag it
        handled. `burst` stands for the bytes the FIFO burst read returns. */
    method ReceivePacket(burst: seq<byte>) returns (ok: bool, data: seq<byte>)
      requires Valid() && |burst| >= MaxFrameLength
      modifies regs
      ensures ok == PacketReady(old(regs[RegIrqFlags]), old(regs[RegRxNbBytes]) as nat)
      ensures ok ==> data == burst[..old(regs[RegRxNbBytes]) as nat] && |data| > 0
      ensures regs[..] == ReceiveRegisters(old(regs[..]))
    {
      var irqFlags := ReadRegister(RegIrqFlags);
      if irqFlags & IrqRxDoneMask == 0 {
        return false, [];
      }
      if irqFlags & IrqPayloadCrcErrorMask != 0 {
        WriteRegister(RegIrqFlags, IrqPayloadCrcErrorMask);
        return false, [];
      }
      var packetLength := ReadRegister(RegRxNbBytes);
      if packetLength == 0 {
        WriteRegister(RegIrqFlags, IrqRxDoneMask);
        return false, [];
      }
      var fifoAddr := ReadRegister(RegFifoRxCurrentAddr);
      WriteRegister(RegFifoAddrPtr, fifoAddr);
      data := burst[..packetLength as nat];
      WriteRegister(RegIrqFlags, IrqRxDoneMask);
      return true, data;
    }

    /** `loop`: while receiving, a packet that `receive_packet` takes is
        handed to `handle_received_data`; `received` is that packet. */
    method Loop(burst: seq<byte>, now: int) returns (received: Option<seq<byte>>)
      requires Valid() && |burst| >= MaxFrameLength
      modifies this, regs
      ensures Valid() && regs == old(regs) && Settings() == old(Settings())
      ensures received.Some? <==> old(receiving) && PacketReady(old(regs[RegIrqFlags]), old(regs[RegRxNbBytes]) as nat)
      ensures received.Some? ==> received.value == burst[..old(regs[RegRxNbBytes]) as nat]
      ensures received.None? ==>
                pending == old(pending) && history == old(history) && trace == old(trace)
                && receiving == old(receiving)
                && regs[..] == (if old(receiving) then ReceiveRegisters(old(regs[..])) else old(regs[..]))
      ensures old(QueueWellFormed(pending)) ==> QueueWellFormed(pending)
      ensures old(RetriesBounded(pending, maxRetries)) ==> RetriesBounded(pending, maxRetries)
    {
      received := None;
      if receiving {
        var ok, data := ReceivePacket(burst);
        if ok {
          HandleReceivedData(data, now);
          received := Some(data);
        }
      }
    }

    /** `handle_dio0_interrupt`: on TxDone, clear that flag and return to
        continuous receive; any other interrupt changes nothing. A pending
        RxDone is kept for `receive_packet`. */
    method HandleDio0Interrupt()
      requires Valid()
      modifies this, regs
      ensures Valid() && regs == old(regs) && Settings() == old(Settings())
      ensures pending == old(pending) && history == old(history) && trace == old(trace)
      ensures loraInitialized == old(loraInitialized)
      ensures old(regs[RegIrqFlags]) & IrqTxDoneMask != 0 ==>
                receiving
                && regs[..] == old(regs[..])[RegIrqFlags := ClearIrq(old(regs[RegIrqFlags]), IrqTxDoneMask)]
                                            [RegOpMode := OpMode(ModeRxContinuous)]
      ensures old(regs[RegIrqFlags]) & IrqTxDoneMask == 0 ==>
                receiving == old(receiving) && regs[..] == old(regs[..])
      ensures regs[RegIrqFlags] & IrqTxDoneMask == 0
      ensures regs[RegIrqFlags] & IrqRxDoneMask == old(regs[RegIrqFlags]) & IrqRxDoneMask
      ensures regs[RegIrqFlags] & IrqPayloadCrcErrorMask == old(regs[RegIrqFlags]) & IrqPayloadCrcErrorMask
    {
      var irqFlags := ReadRegister(RegIrqFlags);
      if irqFlags & IrqTxDoneMask != 0 {
        WriteRegister(RegIrqFlags, IrqTxDoneMask);
        SetMode(OpMode(ModeRxContinuous));
        receiving := true;
      }
    }
  }
}
