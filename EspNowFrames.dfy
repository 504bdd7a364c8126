/** The ESP-NOW component's frame formats: the 4-byte command frame of
    `send_espnow_cmd`, the 4-byte ACK pattern, and the classification
    `recv_cb` applies to every received frame. */
module EspNowFrames {
  import opened Bytes

  /** The acknowledgement frame, `00 01 00 01`. */
  const AckPattern: seq<byte> := [0x00, 0x01, 0x00, 0x01]

  /** The command frame, `[lo, hi, lo, hi]`: the low byte first, as the
      little-endian ESP32 lays out an `int16_t`, then both bytes again. */
  function EncodeEspCmd(cmd: int16): (f: seq<byte>)
    ensures |f| == 4
    ensures f[0] == LowByte(cmd) && f[1] == HighByte(cmd)
    ensures f[2..] == f[..2]
  {
    [LowByte(cmd), HighByte(cmd), LowByte(cmd), HighByte(cmd)]
  }

  predicate IsAck(data: seq<byte>)
  {
    data == AckPattern
  }

  /** A frame `recv_cb` hands to `handle_cmd`: four bytes whose two halves
      are equal. */
  predicate IsCmdFrame(data: seq<byte>)
  {
    |data| == 4 && data[..2] == data[2..]
  }

  /** `memcpy(&cmd, data, 2)` on a little-endian machine: `b0 | b1 << 8`
      read as a two's-complement `int16_t`. */
  function DecodeEspCmd(data: seq<byte>): (cmd: int16)
    requires |data| >= 2
    ensures LowByte(cmd) == data[0] && HighByte(cmd) == data[1]
  {
    var v := data[0] + (data[1] as int) * 0x100;
    var c := ToInt16(v);
    assert LowByte(c) == data[0] && HighByte(c) == data[1] by {
      assert c % 0x1_0000 == v;
      assert c % 0x100 == v % 0x100;
      assert (c / 0x100) % 0x100 == (v / 0x100) % 0x100;
    }
    c
  }

  /** What `recv_cb` does with one frame. */
  datatype Reaction = Reaction(
    ackOnly: bool,          // fire the ack triggers and nothing else
    reply: bool,            // answer the sender with the ACK pattern
    cmd: Option<int16>,     // hand a command to `handle_cmd`
    deliver: bool)          // hand the frame to `handle_received`

  function React(data: seq<byte>): (r: Reaction)
    ensures r.ackOnly <==> IsAck(data)
    ensures r.ackOnly ==> !r.reply && r.cmd.None? && !r.deliver
    ensures r.reply <==> |data| == 4 && !IsAck(data)
    ensures r.cmd.Some? <==> IsCmdFrame(data) && !IsAck(data)
    ensures r.cmd.Some? ==> r.cmd.value == DecodeEspCmd(data)
    ensures r.deliver <==> !IsAck(data)
  {
    if IsAck(data) then Reaction(true, false, None, false)
    else Reaction(false, |data| == 4, if IsCmdFrame(data) then Some(DecodeEspCmd(data)) else None, true)
  }

  /** The frame of every command except 256 is a command frame and decodes
      back to the command. */
  lemma EspCmdRoundTrip(cmd: int16)
    requires cmd != 0x100
    ensures IsCmdFrame(EncodeEspCmd(cmd)) && !IsAck(EncodeEspCmd(cmd))
    ensures DecodeEspCmd(EncodeEspCmd(cmd)) == cmd
    ensures React(EncodeEspCmd(cmd)) == Reaction(false, true, Some(cmd), true)
  {
    var f := EncodeEspCmd(cmd);
    if IsAck(f) {
      EspCmdIsAckIff(cmd);
    }
    BytesDetermineInt16(DecodeEspCmd(f), cmd);
  }

  /** The command frame equals the ACK pattern exactly for command 256, so
      that command is taken for an acknowledgement and never delivered. */
  lemma EspCmdIsAckIff(cmd: int16)
    ensures IsAck(EncodeEspCmd(cmd)) <==> cmd == 0x100
  {
    if IsAck(EncodeEspCmd(cmd)) {
      assert LowByte(cmd) == 0 && HighByte(cmd) == 1;
      assert LowByte(0x100) == 0 && HighByte(0x100) == 1;
      BytesDetermineInt16(cmd, 0x100);
    }
  }

  /** A command frame that is not the ACK pattern is the encoding of the
      command it decodes to. */
  lemma EspCmdFrameIsEncoding(data: seq<byte>)
    requires IsCmdFrame(data)
    ensures EncodeEspCmd(DecodeEspCmd(data)) == data
  {
    assert data[2] == data[..2][0] && data[3] == data[..2][1];
  }

  /** The reply `recv_cb` sends is itself an ACK, so a receiver never
      answers it: two nodes cannot acknowledge each other forever. */
  lemma ReplyIsNotAnswered()
    ensures React(AckPattern).ackOnly && !React(AckPattern).reply
  {
  }
}
