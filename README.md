# Reliable messaging over LoRa and ESP-NOW, modelled in Dafny

This project models two ESPHome components that carry short messages between
ESP32 nodes, and proves properties of the model.

- **`BasicLoRaEx`** (LoRa, Semtech SX1278 radio) adds a reliability layer to a
  lossy radio link:
  - every outgoing message becomes a *pending message* that is retransmitted
    after a timeout, up to `max_retries_` times;
  - a receiver answers each new data frame with a 10-byte acknowledgement;
  - an ACK marks the matching pending message as acknowledged;
  - a history of recently received packets (300 s window, at most 1000
    entries) suppresses duplicates;
  - 16-bit commands travel as `[hi, lo, hi, lo]`.

  The radio is configured by read-modify-write of its register file: carrier,
  spreading factor, bandwidth, coding rate, PA, preamble, sync word and CRC.
- **`BasicESPNowEx`** (ESP-NOW) has no retry engine. Its receive callback
  classifies every frame:
  - the ACK pattern `00 01 00 01` fires the ack triggers;
  - any other 4-byte frame is answered with that pattern and, when its two
    halves agree, decoded as a little-endian command;
  - every non-ACK frame goes to the message triggers in registration order.

  Commands are sent as `[lo, hi, lo, hi]`, after the peer has been
  registered with the driver.

## Files

- `Bytes.dfy`: fixed-width integer types, MAC addresses (6 bytes), message
  ids (3 bytes), two's-complement `int16` conversion.
- `Sx1278.dfy`: register addresses, mode and IRQ constants, and the pure
  bit-field encoders of the SX1278 configuration registers.
- `LoRaFrames.dfy`: wire format of data and ACK frames and their
  classification, the LoRa command codec, the pending-queue rules (prune,
  retransmit, ACK lookup), the duplicate history, and the callback order.
- `BasicLoRa.dfy`: class `BasicLoRaEx`, holding:
  - the configuration fields;
  - `pending` and `history` as sequences the methods reassign;
  - the register file as a 256-entry `array<bv8>`;
  - `trace`, the ordered log of frames put on air and callback calls.
- `EspNowFrames.dfy`: the ESP-NOW command frame, the ACK pattern, and the
  per-frame reaction of the receive callback.
- `BasicEspNow.dfy`: class `BasicESPNowEx`, holding:
  - the three trigger lists;
  - the driver's peer table as a set;
  - a trace of sends, trigger firings and callback calls.

Inputs from outside the program are parameters:

- time (`esp_timer_get_time`);
- the random message id;
- the outcome of the non-blocking try-lock of `process_send_queue`;
- the outcome of `esp_now_add_peer`;
- the bytes a FIFO burst read returns (`ReceivePacket`'s `burst`).

Every state-changing operation is a method whose `ensures` gives its whole
new state. That state is written in terms of specification functions
(`ProcessQueue`, `QueueFrames`, `PruneHistory`, `Remember`, `Dispatch`,
`InitImage`, `RecvOutputs`, ...). The lemmas about those functions state what
the code promises.

## The code as written

Behaviour of the code worth knowing, which the model follows:

- **No busy rejection.** `send_lora` always appends a new pending message,
  even when one is already outstanding for the peer.
- **No direct first transmission.** `send_lora` does not transmit. The first
  airing comes from a `process_send_queue` pass more than `timeout_us_` after
  enqueueing. So with `max_retries_` = R a message goes on air at most R
  times in all. It goes on air exactly R times when all of the following
  hold:
  - no ACK arrives;
  - the radio is initialised;
  - the frame has at most 255 bytes;
  - each pass comes more than `timeout_us_` after the previous one.
- **Counter advances without a send.** The retry counter and time stamp
  advance even when `transmit_packet` silently refuses the frame (radio
  uninitialised, or not 1..255 bytes).
- **Whole-packet dedup.** Duplicates are detected by byte-equality of the
  whole packet from the same sender, not by id.
- **Duplicates are not re-acknowledged.**
- **Destination read as sender.** The first six bytes of a frame are the
  destination address the sender wrote, but they are read back as the
  sender's address. An ACK therefore echoes them, and it matches the
  originating pending entry.
- **Timeout scaled.** `set_timeout_us(t)` stores `t * 1000`.
- **Dead command lookup.** The duplicate-command lookup of `send_lora_cmd`
  looks for an 8-byte payload. Every queued payload has at least 10 bytes,
  so the lookup never matches and a command is always enqueued anew.
- **ESP-NOW command 256.** Its frame `00 01 00 01` equals the ACK pattern,
  so the receiver takes it for an acknowledgement.
- **CRC error leaves RxDone set.** On a CRC error `receive_packet` clears
  only the CRC-error flag. RxDone stays set, so the next call takes the
  corrupted packet unless a new reception has changed the flags.
- **Odd-length ACKs.** A LoRa packet of type 0x01 whose length is not 10 is
  dropped like an unknown type.
- **PA overflow.** For 16 and 17 dBm the RFO branch writes OutputPower 0
  and 1. For 18..20 dBm the PA_BOOST branch writes `tx - 2`, which overflows
  the 4-bit OutputPower field.

## Model

Paths are relative to the repository root.

| member | source | states |
|---|---|---|
| Bytes.ToInt16 | components/basic_loraex/basic_loraex.cpp:523 | the `int16_t` conversion of a 16-bit pattern is congruent to it modulo 2^16 |
| Bytes.BytesOfInt16 | components/basic_loraex/basic_loraex.cpp:254-255 | splitting an int16 into high and low byte and reassembling gives it back |
| Bytes.BytesDetermineInt16 | components/basic_espnowex/basic_espnowex.cpp:91-92 | two int16 values with the same two bytes are equal |
| Sx1278.OpMode | components/basic_loraex/basic_loraex.h:53-58 | `0x80 \| m` has the LoRa bit set, bits 6-3 clear and the 3-bit mode in bits 2-0 |
| Sx1278.ModesAreThreeBit | components/basic_loraex/basic_loraex.h:53-58 | every mode constant is below 8 and the five are distinct |
| Sx1278.IrqMasksIndependent | components/basic_loraex/basic_loraex.h:61-63 | the TxDone, CRC-error and RxDone masks are distinct single bits, so each flag test ignores the others |
| Sx1278.ClearIrq | components/basic_loraex/basic_loraex.cpp:426-427 | writing `v` to the write-1-to-clear RegIrqFlags clears exactly the flags set in `v` and keeps all others |
| Sx1278.PacketReadyIgnoresTxDone | components/basic_loraex/basic_loraex.cpp:386-404 | the take-a-packet decision of `receive_packet` needs RxDone and a non-zero length, and a pending TxDone flag does not change it |
| Sx1278.SpreadingFactorBits | components/basic_loraex/basic_loraex.cpp:142-144 | RegModemConfig2 keeps its low nibble and gets the spreading factor in its high nibble |
| Sx1278.BandwidthCode | components/basic_loraex/basic_loraex.cpp:157-170 | a listed bandwidth maps to its index in the table, anything else to code 7 (125 kHz) |
| Sx1278.BandwidthBits | components/basic_loraex/basic_loraex.cpp:172-174 | RegModemConfig1 keeps its low nibble and gets the bandwidth code in its high nibble |
| Sx1278.CodingRateBits | components/basic_loraex/basic_loraex.cpp:178-181 | bit 0 is always kept; for cr 5..8 bits 7-4 are kept and bits 3-1 hold cr - 4 |
| Sx1278.CrcBits | components/basic_loraex/basic_loraex.cpp:122-128 | only bit 2 of RegModemConfig2 changes, and it is set iff CRC is enabled |
| Sx1278.Frf | components/basic_loraex/basic_loraex.cpp:135 | the carrier value is the largest multiple of the 32 MHz / 2^19 step not above the frequency |
| Sx1278.FrfIs24Bit | components/basic_loraex/__init__.py:71 | over the validated 137-1020 MHz range the carrier value is non-zero and below 2^24 |
| Sx1278.FrfBytesReassemble | components/basic_loraex/basic_loraex.cpp:136-138 | for a 24-bit value, MSB * 65536 + MID * 256 + LSB of the three written bytes is the value |
| Sx1278.FrfFitsRegisters | components/basic_loraex/basic_loraex.cpp:134-139 | over the validated range the three carrier registers reassemble exactly to the computed carrier value |
| Sx1278.PaConfig | components/basic_loraex/basic_loraex.cpp:184-194 | PaSelect (bit 7) of RegPaConfig is set iff tx power exceeds 17 dBm; at or below 17 dBm bits 6-4 (MaxPower) are all set |
| Sx1278.PaConfigRfo | components/basic_loraex/basic_loraex.cpp:189-192 | for 2..15 dBm, MaxPower is 7 and OutputPower equals the requested power |
| Sx1278.PaConfigOutputPowerOverflow | components/basic_loraex/basic_loraex.cpp:186-192 | for 16..20 dBm the OutputPower nibble is tx - 16 or tx - 18, and bit 4 is set on PA_BOOST |
| LoRaFrames.DataFrame | components/basic_loraex/basic_loraex.cpp:296-301 | the data frame is mac, type 0x00, id, message, of length 10 + \|msg\| |
| LoRaFrames.AckFrame | components/basic_loraex/basic_loraex.cpp:541-544 | the ACK frame is mac, type 0x01, id, exactly 10 bytes |
| LoRaFrames.Classify | components/basic_loraex/basic_loraex.cpp:436-476 | under 10 bytes is too short; ACK iff exactly 10 bytes typed 0x01; data iff typed 0x00; each classified packet is rebuilt exactly from its fields |
| LoRaFrames.DataFrameRoundTrip | components/basic_loraex/basic_loraex.cpp:441-446 | a frame built by `send_lora` is read back as the same mac, id and message |
| LoRaFrames.AckFrameRoundTrip | components/basic_loraex/basic_loraex.cpp:449 | a frame built by `send_ack` is read back as an ACK with the same mac and id |
| LoRaFrames.EncodeCmd | components/basic_loraex/basic_loraex.cpp:253-257 | a command payload has four bytes |
| LoRaFrames.DecodeCmd | components/basic_loraex/basic_loraex.cpp:522-523 | the decoded `int16_t` is the big-endian value of the first two payload bytes, modulo 2^16 |
| LoRaFrames.CmdRoundTrip | components/basic_loraex/basic_loraex.cpp:522-523 | the encoding of every int16 is a command payload and decodes back to it |
| LoRaFrames.CmdPayloadIsEncoding | components/basic_loraex/basic_loraex.cpp:522-523 | every 4-byte payload with equal halves is the encoding of what it decodes to |
| LoRaFrames.NewPendingShape | components/basic_loraex/basic_loraex.cpp:289-301 | a new entry is well-formed, 10 + \|msg\| bytes long, untried, un-acked and stamped with the send time |
| LoRaFrames.DueOrDropped | components/basic_loraex/basic_loraex.cpp:327-336 | no entry is both dropped and retransmitted; once expired an un-acked entry is exactly one of the two; before expiry only an acked entry is dropped |
| LoRaFrames.Prune | components/basic_loraex/basic_loraex.cpp:325-332 | an entry survives iff it is neither acked nor both expired (strict `>`) and out of retries |
| LoRaFrames.PruneConcat | components/basic_loraex/basic_loraex.cpp:325-332 | pruning works segment by segment, so survivors keep their relative order |
| LoRaFrames.Advance | components/basic_loraex/basic_loraex.cpp:335-346 | a due entry gets one more retry and the new time stamp; mac, id, payload and acked never change; any other entry is untouched |
| LoRaFrames.Step | components/basic_loraex/basic_loraex.cpp:334-347 | the loop keeps every entry in place with its mac, id, payload and acked flag, and raises its retry count by at most one |
| LoRaFrames.ProcessQueue | components/basic_loraex/basic_loraex.cpp:320-350 | a pass never lengthens the queue and leaves no acked entry |
| LoRaFrames.EntryFrames | components/basic_loraex/basic_loraex.cpp:335-343 | an entry puts its own payload on air iff it is due and `transmit_packet` accepts it |
| LoRaFrames.RetransmittedFrames | components/basic_loraex/basic_loraex.cpp:334-347 | a pass sends at most one frame per entry, each accepted by `transmit_packet` and the payload of a due entry |
| LoRaFrames.QueueFrames | components/basic_loraex/basic_loraex.cpp:320-350 | a pass sends at most one frame per entry, nothing on an uninitialised radio, only 1..255-byte frames, each the payload of a due entry |
| LoRaFrames.SingleEntryPass | components/basic_loraex/basic_loraex.cpp:325-347 | on a one-entry queue a pass keeps the entry (advanced) iff it is not dropped, and sends its frame iff it is due and accepted: what `Airings` counts |
| LoRaFrames.StepConcat | components/basic_loraex/basic_loraex.cpp:334-346 | the retransmission loop advances each entry on its own |
| LoRaFrames.RetransmittedFramesConcat | components/basic_loraex/basic_loraex.cpp:334-347 | the frames sent for two segments of the queue are those of the first followed by those of the second |
| LoRaFrames.PassIsPerEntry | components/basic_loraex/basic_loraex.cpp:320-350 | in any queue, a pass treats each entry as if it were alone: the rest of the queue passes unchanged around what `SingleEntryPass` gives for it, so `Airings` counts that entry's transmissions in every queue |
| LoRaFrames.FreshEntryNotSent | components/basic_loraex/basic_loraex.cpp:303-307 | a pass within one timeout of enqueueing neither sends nor changes the new entry |
| LoRaFrames.ProcessQueueDropsExactly | components/basic_loraex/basic_loraex.cpp:325-347 | no acked entry remains; every entry not dropped survives advanced; every survivor comes from an entry not dropped |
| LoRaFrames.ProcessQueueKeepsRetriesBounded | components/basic_loraex/basic_loraex.cpp:334-346 | retry counts stay within `max_retries_` |
| LoRaFrames.ProcessQueueKeepsWellFormed | components/basic_loraex/basic_loraex.cpp:334-346 | every entry stays its own mac/id data frame |
| LoRaFrames.AiringsBound | components/basic_loraex/basic_loraex.cpp:334-346 | over any run of passes an entry with r retries is sent at most max - r more times, counting only frames `transmit_packet` accepts |
| LoRaFrames.NewMessageAiredAtMostMaxRetries | components/basic_loraex/basic_loraex.cpp:287-307 | a message sent with `send_lora` goes on air at most `max_retries_` times in all |
| LoRaFrames.AiringsExact | components/basic_loraex/basic_loraex.cpp:334-346 | with no ACK, an initialised radio, a frame of at most 255 bytes and each pass more than a timeout after the previous one, an entry goes on air exactly max - r times |
| LoRaFrames.FindAckTarget | components/basic_loraex/basic_loraex.cpp:453-456 | the result is the first un-acked entry with that mac and id, or none exists |
| LoRaFrames.AckOfQueuedFrameMatches | components/basic_loraex/basic_loraex.cpp:442-455 | the ACK a receiver returns for a queued frame is classified as an ACK with that entry's mac and id, and finds that entry or an earlier match |
| LoRaFrames.FindQueuedCmd | components/basic_loraex/basic_loraex.cpp:261-269 | the result is the first un-acked 8-byte entry for the peer whose bytes 4..8 are the command, or none exists |
| LoRaFrames.QueuedCmdNeverFound | components/basic_loraex/basic_loraex.cpp:264-267 | in a queue built by `send_lora` the 8-byte command lookup never matches |
| LoRaFrames.PruneHistory | components/basic_loraex/basic_loraex.cpp:486-491 | an entry is kept iff it is at most 300 s old |
| LoRaFrames.PruneHistoryConcat | components/basic_loraex/basic_loraex.cpp:486-491 | pruning the history works segment by segment, so survivors keep their order and the oldest stays first |
| LoRaFrames.Remember | components/basic_loraex/basic_loraex.cpp:499-505 | the packet is appended last; the oldest entry is evicted only when the history holds 1000; the size never passes 1000 |
| LoRaFrames.RepeatWithinWindowIsDuplicate | components/basic_loraex/basic_loraex.cpp:485-497 | a recorded packet repeated within 300 s is found by the duplicate test after pruning |
| LoRaFrames.RememberMakesSeen | components/basic_loraex/basic_loraex.cpp:494-504 | after recording, the same bytes from the same sender count as seen |
| LoRaFrames.PruneHistoryKeepsRecent | components/basic_loraex/basic_loraex.cpp:486-497 | the `any_of` duplicate test after pruning finds a packet only if it was recorded, and always finds one recorded within 300 s |
| LoRaFrames.Dispatch | components/basic_loraex/basic_loraex.cpp:519-534 | cmd callback only for a command payload, then always the data callback, then the message callback iff the payload is non-empty; nothing is sent |
| LoRaFrames.CmdFrameDispatchesCmd | components/basic_loraex/basic_loraex.cpp:252-257 | a frame from `send_lora_cmd` reaches the receiver as the same command, then as data and message |
| BasicLoRa.AckRegisters | components/basic_loraex/basic_loraex.cpp:546-551 | after `send_ack` the radio is in continuous receive |
| BasicLoRa.AfterTransmit | components/basic_loraex/basic_loraex.cpp:356-379 | a transmission writes only OpMode, IrqFlags, FifoAddrPtr and PayloadLength, ending in TX mode at FIFO position 0 with the frame length and every IRQ flag cleared |
| BasicLoRa.TxRegisters | components/basic_loraex/basic_loraex.cpp:334-347 | no transmission leaves the registers as they were; otherwise TX mode and the length of the last frame show |
| BasicLoRa.ReceiveRegisters | components/basic_loraex/basic_loraex.cpp:384-433 | `receive_packet` writes only IrqFlags and FifoAddrPtr: nothing without RxDone; a taken or empty packet clears RxDone; a CRC error clears only the CRC-error flag and leaves RxDone set; the FIFO pointer moves to a taken packet |
| BasicLoRa.SecondReceiveTakesOnlyAfterCrcError | components/basic_loraex/basic_loraex.cpp:386-427 | a second `receive_packet` on an unchanged chip takes a packet iff the first met a CRC error on a non-empty packet |
| BasicLoRa.FrequencyImage | components/basic_loraex/basic_loraex.cpp:134-139 | the three carrier registers get the high, middle and low byte of the carrier value |
| BasicLoRa.SpreadingFactorImage | components/basic_loraex/basic_loraex.cpp:141-154 | RegModemConfig2 keeps its low nibble and gets the spreading factor; the SF6 detection values are written iff sf is 6 |
| BasicLoRa.BandwidthImage | components/basic_loraex/basic_loraex.cpp:156-175 | RegModemConfig1 keeps its low nibble and gets the bandwidth code |
| BasicLoRa.CodingRateImage | components/basic_loraex/basic_loraex.cpp:177-182 | for cr 5..8, RegModemConfig1 keeps bits 7-4 and 0 and gets cr - 4 in bits 3-1 |
| BasicLoRa.TxPowerImage | components/basic_loraex/basic_loraex.cpp:184-194 | PaSelect of RegPaConfig is set iff tx power exceeds 17 dBm |
| BasicLoRa.ConfigImagesOnlyWrite | components/basic_loraex/basic_loraex.cpp:134-194 | each `set_*_internal` writes only its own registers |
| BasicLoRa.AfterTransmitOverwrites | components/basic_loraex/basic_loraex.cpp:358-379 | a second transmission rewrites the same registers, so only the last shows |
| BasicLoRa.InitImageCarrier | components/basic_loraex/basic_loraex.cpp:93-105 | after `init_lora` the chip is in LoRa standby, with the carrier bytes and the PA setting of the configuration |
| BasicLoRa.InitImageFraming | components/basic_loraex/basic_loraex.cpp:108-119 | preamble high and low byte, sync word, and zero FIFO bases and DIO mapping |
| BasicLoRa.InitImageModemFields | components/basic_loraex/basic_loraex.cpp:102-128 | ModemConfig2 gets spreading factor then CRC over its old value; ModemConfig1 gets bandwidth then coding rate; the SF6 registers follow the spreading factor |
| BasicLoRa.InitImageKeepsOthers | components/basic_loraex/basic_loraex.cpp:82-132 | `InitImage`, the register file after `init_lora`, changes no register outside the configured ones, the version register in particular |
| BasicLoRa.BasicLoRaEx.constructor | components/basic_loraex/basic_loraex.h:175-188 | the default configuration: 433 MHz, SF 9, 125 kHz, CR 7, 14 dBm, sync 0x12, preamble 8, CRC on, broadcast peer, 5 retries, 200000000 µs |
| BasicLoRa.BasicLoRaEx.SetFrequency | components/basic_loraex/basic_loraex.h:117 | only the frequency field changes, to the argument |
| BasicLoRa.BasicLoRaEx.SetSpreadingFactor | components/basic_loraex/basic_loraex.h:118 | only the spreading factor changes |
| BasicLoRa.BasicLoRaEx.SetBandwidth | components/basic_loraex/basic_loraex.h:119 | only the bandwidth changes |
| BasicLoRa.BasicLoRaEx.SetCodingRate | components/basic_loraex/basic_loraex.h:120 | only the coding rate changes |
| BasicLoRa.BasicLoRaEx.SetTxPower | components/basic_loraex/basic_loraex.h:121 | only the tx power changes |
| BasicLoRa.BasicLoRaEx.SetSyncWord | components/basic_loraex/basic_loraex.h:122 | only the sync word changes |
| BasicLoRa.BasicLoRaEx.SetPreambleLength | components/basic_loraex/basic_loraex.h:123 | only the preamble length changes |
| BasicLoRa.BasicLoRaEx.SetEnableCrc | components/basic_loraex/basic_loraex.h:124 | only the CRC flag changes |
| BasicLoRa.BasicLoRaEx.SetImplicitHeader | components/basic_loraex/basic_loraex.h:125 | only the implicit-header flag changes |
| BasicLoRa.BasicLoRaEx.SetPeerMac | components/basic_loraex/basic_loraex.h:128 | only the peer address changes |
| BasicLoRa.BasicLoRaEx.SetMaxRetries | components/basic_loraex/basic_loraex.h:129 | only the retry bound changes |
| BasicLoRa.BasicLoRaEx.SetTimeoutUs | components/basic_loraex/basic_loraex.h:130 | only the timeout changes, to 1000 times the argument |
| BasicLoRa.BasicLoRaEx.ReadRegister | components/basic_loraex/basic_loraex.cpp:196-202 | returns the register's value |
| BasicLoRa.BasicLoRaEx.WriteRegister | components/basic_loraex/basic_loraex.cpp:204-209 | exactly that register changes: RegIrqFlags clears the written bits, any other register takes the value |
| BasicLoRa.BasicLoRaEx.SetMode | components/basic_loraex/basic_loraex.cpp:211-214 | exactly RegOpMode takes the mode |
| BasicLoRa.BasicLoRaEx.SetFrequencyInternal | components/basic_loraex/basic_loraex.cpp:134-139 | the register file becomes the frequency image: three carrier bytes, nothing else |
| BasicLoRa.BasicLoRaEx.SetSpreadingFactorInternal | components/basic_loraex/basic_loraex.cpp:141-154 | the register file becomes the spreading-factor image: ModemConfig2 high nibble and the two SF6 registers |
| BasicLoRa.BasicLoRaEx.SetBandwidthInternal | components/basic_loraex/basic_loraex.cpp:156-175 | the register file becomes the bandwidth image: ModemConfig1 high nibble |
| BasicLoRa.BasicLoRaEx.SetCodingRateInternal | components/basic_loraex/basic_loraex.cpp:177-182 | the register file becomes the coding-rate image: ModemConfig1 bits 3-1 |
| BasicLoRa.BasicLoRaEx.SetTxPowerInternal | components/basic_loraex/basic_loraex.cpp:184-194 | the register file becomes the PA image: RegPaConfig |
| BasicLoRa.BasicLoRaEx.InitLora | components/basic_loraex/basic_loraex.cpp:82-132 | succeeds iff the version register reads 0x12; on failure nothing changes; on success the radio is initialised and the registers are the init image |
| BasicLoRa.BasicLoRaEx.Setup | components/basic_loraex/basic_loraex.cpp:46-63 | a wrong chip version changes nothing; otherwise the init image in continuous receive, with `receiving` set |
| BasicLoRa.BasicLoRaEx.TransmitPacket | components/basic_loraex/basic_loraex.cpp:352-382 | puts the frame on air iff initialised and 1..255 bytes, leaving TX mode, flags, FIFO pointer and length; otherwise nothing changes |
| BasicLoRa.BasicLoRaEx.SendAck | components/basic_loraex/basic_loraex.cpp:537-552 | the ACK frame goes on air when initialised; the radio ends in continuous receive |
| BasicLoRa.BasicLoRaEx.EnqueueLora | components/basic_loraex/basic_loraex.cpp:288-305 | exactly one new entry is appended at the end; earlier entries are unchanged; well-formedness and the retry bound are kept |
| BasicLoRa.BasicLoRaEx.RetryEntry | components/basic_loraex/basic_loraex.cpp:335-346 | only entry i changes, to its advanced form, even when `transmit_packet` refuses it; its frame goes on air iff due and accepted |
| BasicLoRa.BasicLoRaEx.RetransmitDue | components/basic_loraex/basic_loraex.cpp:334-347 | the loop advances every entry in place and puts the retransmitted frames on air in queue order |
| BasicLoRa.BasicLoRaEx.ProcessSendQueue | components/basic_loraex/basic_loraex.cpp:320-350 | without the lock nothing changes; with it the queue becomes ProcessQueue and QueueFrames go on air; well-formedness and the retry bound are kept |
| BasicLoRa.BasicLoRaEx.SendLora | components/basic_loraex/basic_loraex.cpp:287-308 | enqueue, then one queue pass from the extended queue |
| BasicLoRa.BasicLoRaEx.SendBroadcast | components/basic_loraex/basic_loraex.cpp:228-231 | `send_lora` to FF:FF:FF:FF:FF:FF: the whole new state, with well-formedness and the retry bound kept |
| BasicLoRa.BasicLoRaEx.SendToPeer | components/basic_loraex/basic_loraex.cpp:238-240 | `send_lora` to the configured peer: the whole new state, with well-formedness and the retry bound kept |
| BasicLoRa.BasicLoRaEx.SendLoraCmd | components/basic_loraex/basic_loraex.cpp:252-285 | the first matching 8-byte entry only has its retry count and time reset; otherwise the encoded command is sent with `send_lora`; well-formedness and the retry bound are kept |
| BasicLoRa.BasicLoRaEx.ClearPendingMessages | components/basic_loraex/basic_loraex.cpp:582-587 | the queue becomes empty and nothing else changes |
| BasicLoRa.BasicLoRaEx.GetPendingCount | components/basic_loraex/basic_loraex.cpp:589-596 | returns the number of pending entries |
| BasicLoRa.BasicLoRaEx.HandleAckPacket | components/basic_loraex/basic_loraex.cpp:449-470 | the first matching un-acked entry is marked acked and the ack callback fires once; with no match nothing changes |
| BasicLoRa.BasicLoRaEx.HandleDataPacket | components/basic_loraex/basic_loraex.cpp:478-534 | history pruned; a duplicate changes nothing else; a new packet is recorded, acknowledged, then dispatched |
| BasicLoRa.BasicLoRaEx.HandleReceivedData | components/basic_loraex/basic_loraex.cpp:435-535 | short, unknown-type and odd-length ACK packets change nothing; ACK and data packets as above, case by case |
| BasicLoRa.BasicLoRaEx.ReceivePacket | components/basic_loraex/basic_loraex.cpp:384-433 | a packet is returned iff RxDone is set, no CRC error is flagged and the length is non-zero; the handled flag is cleared |
| BasicLoRa.BasicLoRaEx.Loop | components/basic_loraex/basic_loraex.cpp:217-225 | a packet is handled iff receiving and `receive_packet` takes one; otherwise only the receive registers change; well-formedness and the retry bound are kept |
| BasicLoRa.BasicLoRaEx.HandleDio0Interrupt | components/basic_loraex/basic_loraex.cpp:560-574 | on TxDone that flag is cleared, RxDone and CRC-error are kept, and the radio returns to continuous receive; otherwise nothing changes |
| EspNowFrames.EncodeEspCmd | components/basic_espnowex/basic_espnowex.cpp:89-94 | the frame is low byte, high byte, then both again |
| EspNowFrames.DecodeEspCmd | components/basic_espnowex/basic_espnowex.cpp:141-143 | the decoded command has the first frame byte as its low byte and the second as its high byte |
| EspNowFrames.React | components/basic_espnowex/basic_espnowex.cpp:132-148 | ACK pattern: ack triggers only; reply iff 4 bytes and not ACK; command iff equal halves and not ACK; delivery iff not ACK |
| EspNowFrames.EspCmdRoundTrip | components/basic_espnowex/basic_espnowex.cpp:132-145 | every command except 256 is received as that command, with a reply and delivery |
| EspNowFrames.EspCmdIsAckIff | components/basic_espnowex/basic_espnowex.cpp:132 | the command frame equals the ACK pattern iff the command is 256 |
| EspNowFrames.EspCmdFrameIsEncoding | components/basic_espnowex/basic_espnowex.cpp:141-143 | every equal-halves 4-byte frame is the encoding of the command it decodes to |
| EspNowFrames.ReplyIsNotAnswered | components/basic_espnowex/basic_espnowex.cpp:137-139 | the reply is itself an ACK and is never answered |
| BasicEspNow.PeersAfter | components/basic_espnowex/basic_espnowex.cpp:102-113 | the peer table only grows, by at most the destination |
| BasicEspNow.SendOutputs | components/basic_espnowex/basic_espnowex.cpp:100-120 | exactly one frame is sent, to the destination, iff it ends up in the peer table; otherwise none |
| BasicEspNow.FiringsAppend | components/basic_espnowex/basic_espnowex.cpp:164-166 | a trigger registered later fires after every earlier one |
| BasicEspNow.RecvOutputs | components/basic_espnowex/basic_espnowex.cpp:126-150 | the callback does exactly what `React` decides: ack triggers, then the reply, then cmd triggers and callback, then message triggers, each iff its flag is set |
| BasicEspNow.AckFiresOnlyAckTriggers | components/basic_espnowex/basic_espnowex.cpp:132-135 | the ACK pattern fires each ack trigger once, in order, with the sender, and nothing else |
| BasicEspNow.FourByteFrameAnsweredOnce | components/basic_espnowex/basic_espnowex.cpp:137-140 | any other 4-byte frame is answered with exactly one ACK to the sender, first |
| BasicEspNow.NonAckDelivered | components/basic_espnowex/basic_espnowex.cpp:147-156 | every non-ACK frame reaches every message trigger last, with its full bytes |
| BasicEspNow.CmdDelivered | components/basic_espnowex/basic_espnowex.cpp:141-145 | a command frame reaches the cmd triggers and then the command callback with the same command, unless it is 256 |
| BasicEspNow.RecvSendsOnlyToPeers | components/basic_espnowex/basic_espnowex.cpp:126-150 | the receive callback sends only to the peer table it leaves behind |
| BasicEspNow.BasicESPNowEx.constructor | components/basic_espnowex/basic_espnowex.h:108 | broadcast peer address, empty trigger lists, empty trace |
| BasicEspNow.BasicESPNowEx.SetPeerMac | components/basic_espnowex/basic_espnowex.cpp:122-124 | only the peer address changes |
| BasicEspNow.BasicESPNowEx.AddOnMessageTrigger | components/basic_espnowex/basic_espnowex.cpp:164-166 | the trigger is appended to the message list only |
| BasicEspNow.BasicESPNowEx.AddOnRecvAckTrigger | components/basic_espnowex/basic_espnowex.cpp:192-194 | the trigger is appended to the ack list only |
| BasicEspNow.BasicESPNowEx.AddOnRecvCmdTrigger | components/basic_espnowex/basic_espnowex.cpp:202-204 | the trigger is appended to the cmd list only |
| BasicEspNow.BasicESPNowEx.SendEspnowEx | components/basic_espnowex/basic_espnowex.cpp:100-120 | an unknown peer is added first; if that fails nothing is sent; frames go only to registered peers |
| BasicEspNow.BasicESPNowEx.SendEspnowCmd | components/basic_espnowex/basic_espnowex.cpp:89-98 | sends exactly the `[lo, hi, lo, hi]` frame through `send_espnow_ex` |
| BasicEspNow.BasicESPNowEx.HandleReceived | components/basic_espnowex/basic_espnowex.cpp:152-156 | each message trigger fires once, in registration order |
| BasicEspNow.BasicESPNowEx.HandleAck | components/basic_espnowex/basic_espnowex.cpp:186-190 | each ack trigger fires once, in registration order |
| BasicEspNow.BasicESPNowEx.HandleCmd | components/basic_espnowex/basic_espnowex.cpp:195-200 | each cmd trigger fires in order, then the command callback |
| BasicEspNow.BasicESPNowEx.RecvCb | components/basic_espnowex/basic_espnowex.cpp:126-150 | the trace grows by RecvOutputs, the peer table changes only for a reply, and frames still go only to registered peers |
| BasicEspNow.BasicESPNowEx.RecvFrame | components/basic_espnowex/basic_espnowex.cpp:137-148 | a non-ACK frame: reply, command, then message triggers, in that order |

## Left out

- SPI framing is not modelled: chip select, `write_byte`/`read_byte` and the
  FIFO transfer loops. Registers are a 256-entry array. A write stores its
  value, except on RegIrqFlags, where the chip clears the bits written as 1.
  The radio setting flags by itself (a reception, the end of a
  transmission) is not modelled, and neither are the FIFO contents. A received packet is a prefix of the `burst` parameter.
- `reset_module`, `delay` and pin set-up are hardware timing with no state
  the model keeps.
- RSSI and SNR are floating-point diagnostics.
- FreeRTOS mutexes, the `esp_timer` retry task (`retry_timer_callback`) and
  the ISR trampoline `dio0_isr` are concurrency. Each model method is one
  sequential step. The try-lock of `process_send_queue` is a `lockAcquired`
  parameter. Blocking takes are assumed to succeed.
- `generate_message_id` mixes `esp_random` with the clock. The id is a
  parameter, with no uniqueness assumed.
- String variants (`send_broadcast_str`, `send_to_peer_str`,
  `send_lora_str`) only convert a string to bytes.
- CallbackManager listener lists, the `add_on_*_callback` methods and the
  trigger constructors are not modelled. One callback call is one trace
  entry. An ESP-NOW trigger is represented by a caller-chosen identifier.
- ESP-NOW Wi-Fi and channel setup, `on_wifi_event`, `send_cb`, and the raw
  `send_broadcast`/`send_to_peer`/`send_espnow` calls are foreign driver
  calls. So is the result of `esp_now_send`, which is only logged. The peer
  table is an abstract set.
- The `instance_` null test of `recv_cb` is not modelled. The model is the
  registered instance.
- Members the ESP-NOW header declares but the source never defines are left
  out: `handle_data`, `process_send_queue`, `set_max_retries`,
  `set_timeout_us`, `add_on_recv_data_trigger`. The cpp name `triggers_`
  and the header name `msg_triggers_` are one list, `msgTriggers`.
- Integers are unbounded. `int64_t` time stamps, `timeout_us * 1000` and
  time differences are not wrapped, and the model assumes they do not
  overflow.
- The configuration ranges of `__init__.py` (frequency, SF 6-12, the
  bandwidth list, CR 5-8, power 2-20) are not preconditions of the setters.
  They appear only as `requires` of the lemmas that need them
  (`FrfIs24Bit`, `FrfFitsRegisters`, `PaConfigRfo`, `PaConfigOutputPowerOverflow`).
- LoRaFrames.AiringsExact: assumes every pass comes more than `timeout_us_`
  after the previous one. Runs with more frequent passes of the 400 ms retry
  timer are covered only by the upper bound `AiringsBound`.
- BasicLoRa.BasicLoRaEx.Loop: for a received packet the contract states only
  which packet was handed on. The full effect of handling it is the contract
  of `HandleReceivedData`, which it calls on the registers after
  `ReceivePacket`.
- BasicLoRa.BasicLoRaEx.ReceivePacket: requires the `burst` parameter to hold
  at least 255 bytes, so that any 8-bit RegRxNbBytes length fits. Which bytes
  the FIFO holds is not modelled.
