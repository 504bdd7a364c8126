/** The LoRa component's wire format and the pure rules behind its
    reliability layer: frame layout and classification, the 16-bit command
    codec, the pending-message queue (prune, retransmit) and the
    receive-side duplicate history. */
module LoRaFrames {
  import opened Bytes

  const TypeData: byte := 0x00
  const TypeAck: byte := 0x01

  /** dest_mac(6) + type(1) + msg_id(3). */
  const HeaderLength := 10

  /** `transmit_packet` refuses frames longer than this. */
  const MaxFrameLength := 255

  /** History entries older than this many microseconds are pruned. */
  const HistoryWindowUs := 300000000

  /** `MAX_HISTORY_SIZE` in `handle_received_data`. */
  const MaxHistorySize := 1000

  // ---------------------------------------------------------------------
  // Frames

  /** The frame `send_lora` builds: mac ‖ 0x00 ‖ id ‖ msg. */
  function DataFrame(mac: Mac, id: MsgId, msg: seq<byte>): (f: seq<byte>)
    ensures |f| == HeaderLength + |msg|
    ensures f[..6] == mac && f[6] == TypeData && f[7..10] == id && f[10..] == msg
  {
    mac + [TypeData] + id + msg
  }

  /** The frame `send_ack` transmits: mac ‖ 0x01 ‖ id. */
  function AckFrame(mac: Mac, id: MsgId): (f: seq<byte>)
    ensures |f| == HeaderLength
    ensures f[..6] == mac && f[6] == TypeAck && f[7..10] == id
  {
    mac + [TypeAck] + id
  }

  /** How `handle_received_data` reads an incoming packet. The leading six
      bytes (the destination address the sender wrote) are read back as the
      sender's address. */
  datatype Packet =
    | TooShort
    | AckPacket(mac: Mac, id: MsgId)
    | DataPacket(mac: Mac, id: MsgId, payload: seq<byte>)
    | Ignored(kind: byte)

  function Classify(data: seq<byte>): (p: Packet)
    ensures p.TooShort? <==> |data| < HeaderLength
    ensures p.AckPacket? <==> |data| == HeaderLength && data[6] == TypeAck
    ensures p.DataPacket? <==> |data| >= HeaderLength && data[6] == TypeData
    ensures p.AckPacket? ==> data == AckFrame(p.mac, p.id)
    ensures p.DataPacket? ==> data == DataFrame(p.mac, p.id, p.payload)
  {
    if |data| < HeaderLength then TooShort
    else
      var mac: Mac := data[..6];
      var id: MsgId := data[7..10];
      if data[6] == TypeAck && |data| == HeaderLength then AckPacket(mac, id)
      else if data[6] != TypeData then Ignored(data[6])
      else
        assert data == mac + [data[6]] + id + data[10..];
        DataPacket(mac, id, data[10..])
  }

  /** A frame built by `send_lora` is read back as the same data message. */
  lemma DataFrameRoundTrip(mac: Mac, id: MsgId, msg: seq<byte>)
    ensures Classify(DataFrame(mac, id, msg)) == DataPacket(mac, id, msg)
  {
  }

  /** A frame built by `send_ack` is read back as an acknowledgement. */
  lemma AckFrameRoundTrip(mac: Mac, id: MsgId)
    ensures Classify(AckFrame(mac, id)) == AckPacket(mac, id)
  {
  }

  // ---------------------------------------------------------------------
  // Command codec: [hi, lo, hi, lo]

  function EncodeCmd(cmd: int16): (p: seq<byte>)
    ensures |p| == 4
  {
    [HighByte(cmd), LowByte(cmd), HighByte(cmd), LowByte(cmd)]
  }

  /** A 4-byte payload whose halves agree. */
  predicate IsCmdPayload(p: seq<byte>)
  {
    |p| == 4 && p[0] == p[2] && p[1] == p[3]
  }

  /** `(int16_t)((p[0] << 8) | p[1])`. */
  function DecodeCmd(p: seq<byte>): (cmd: int16)
    requires |p| >= 2
    ensures cmd % 0x1_0000 == (p[0] as int) * 0x100 + p[1]
  {
    ToInt16((p[0] as int) * 0x100 + p[1])
  }

  /** Every command survives encoding and decoding. */
  lemma CmdRoundTrip(cmd: int16)
    ensures IsCmdPayload(EncodeCmd(cmd))
    ensures DecodeCmd(EncodeCmd(cmd)) == cmd
  {
    BytesOfInt16(cmd);
  }

  /** Every command-shaped payload is the encoding of the command it
      decodes to, so the codec is a bijection on command payloads. */
  lemma CmdPayloadIsEncoding(p: seq<byte>)
    requires IsCmdPayload(p)
    ensures EncodeCmd(DecodeCmd(p)) == p
  {
    var c: int := DecodeCmd(p);
    var u := (p[0] as int) * 0x100 + p[1];
    assert c % 0x1_0000 == u;
    assert c % 0x100 == u % 0x100 == p[1];
    assert (c / 0x100) % 0x100 == p[0];
  }

  // ---------------------------------------------------------------------
  // Pending queue

  datatype PendingMessage = PendingMessage(
    mac: Mac,
    messageId: MsgId,
    retryCount: uint8,
    timestamp: int,
    acked: bool,
    payload: seq<byte>)

  /** The entry `send_lora` appends. */
  function NewPending(mac: Mac, id: MsgId, now: int, msg: seq<byte>): PendingMessage
  {
    PendingMessage(mac, id, 0, now, false, DataFrame(mac, id, msg))
  }

  /** The payload of an entry is the data frame of its own mac and id. */
  predicate WellFormed(m: PendingMessage)
  {
    |m.payload| >= HeaderLength && m.payload == DataFrame(m.mac, m.messageId, m.payload[HeaderLength..])
  }

  predicate QueueWellFormed(ps: seq<PendingMessage>)
  {
    forall m | m in ps :: WellFormed(m)
  }

  /** `send_lora` appends a well-formed, un-acked, untried entry of length
      10 + |msg| stamped with the send time. */
  lemma NewPendingShape(mac: Mac, id: MsgId, now: int, msg: seq<byte>)
    ensures WellFormed(NewPending(mac, id, now, msg))
    ensures |NewPending(mac, id, now, msg).payload| == HeaderLength + |msg|
    ensures NewPending(mac, id, now, msg).retryCount == 0
    ensures !NewPending(mac, id, now, msg).acked
    ensures NewPending(mac, id, now, msg).timestamp == now
  {
    var m := NewPending(mac, id, now, msg);
    assert m.payload[HeaderLength..] == msg;
  }

  /** The time since the last (re)transmission strictly exceeds the timeout. */
  predicate Expired(m: PendingMessage, now: int, timeoutUs: int)
  {
    now - m.timestamp > timeoutUs
  }

  /** The `remove_if` condition of `process_send_queue`. */
  predicate Dropped(m: PendingMessage, now: int, timeoutUs: int, maxRetries: uint8)
  {
    m.acked || (Expired(m, now, timeoutUs) && m.retryCount >= maxRetries)
  }

  /** The retransmission condition of `process_send_queue`. */
  predicate Due(m: PendingMessage, now: int, timeoutUs: int, maxRetries: uint8)
  {
    !m.acked && Expired(m, now, timeoutUs) && m.retryCount < maxRetries
  }

  /** A pass never both drops and retransmits an entry, and once the
      timeout has passed an un-acked entry is always one or the other. */
  lemma DueOrDropped(m: PendingMessage, now: int, timeoutUs: int, maxRetries: uint8)
    ensures Due(m, now, timeoutUs, maxRetries) ==> !Dropped(m, now, timeoutUs, maxRetries)
    ensures !m.acked && Expired(m, now, timeoutUs) ==>
              Due(m, now, timeoutUs, maxRetries) != Dropped(m, now, timeoutUs, maxRetries)
    ensures !Expired(m, now, timeoutUs) ==>
              !Due(m, now, timeoutUs, maxRetries) && (Dropped(m, now, timeoutUs, maxRetries) <==> m.acked)
  {
  }

  /** `erase(remove_if(...))`: the entries that are kept, in order. */
  function Prune(ps: seq<PendingMessage>, now: int, timeoutUs: int, maxRetries: uint8): (kept: seq<PendingMessage>)
    ensures |kept| <= |ps|
    ensures forall m :: m in kept <==> m in ps && !Dropped(m, now, timeoutUs, maxRetries)
  {
    if ps == [] then []
    else
      (if Dropped(ps[0], now, timeoutUs, maxRetries) then [] else [ps[0]])
      + Prune(ps[1..], now, timeoutUs, maxRetries)
  }

  /** Pruning is stable: it works segment by segment, so the survivors
      keep their relative order. */
  lemma {:induction false} PruneConcat(a: seq<PendingMessage>, b: seq<PendingMessage>, now: int, timeoutUs: int, maxRetries: uint8)
    ensures Prune(a + b, now, timeoutUs, maxRetries) == Prune(a, now, timeoutUs, maxRetries) + Prune(b, now, timeoutUs, maxRetries)
  {
    if a == [] {
      assert a + b == b;
    } else {
      assert (a + b)[1..] == a[1..] + b;
      PruneConcat(a[1..], b, now, timeoutUs, maxRetries);
    }
  }

  /** One entry after the retransmission loop: a due entry has been sent
      again and carries one more retry and the new time stamp; every other
      entry is untouched. */
  function Advance(m: PendingMessage, now: int, timeoutUs: int, maxRetries: uint8): (m': PendingMessage)
    ensures m'.mac == m.mac && m'.messageId == m.messageId && m'.payload == m.payload && m'.acked == m.acked
    ensures Due(m, now, timeoutUs, maxRetries) ==> m'.retryCount == m.retryCount + 1 && m'.timestamp == now
    ensures !Due(m, now, timeoutUs, maxRetries) ==> m' == m
  {
    if Due(m, now, timeoutUs, maxRetries) then m.(retryCount := m.retryCount + 1, timestamp := now) else m
  }

  /** The retransmission loop over the kept entries. */
  function Step(ps: seq<PendingMessage>, now: int, timeoutUs: int, maxRetries: uint8): (qs: seq<PendingMessage>)
    ensures |qs| == |ps|
    ensures forall i | 0 <= i < |ps| ::
              qs[i].mac == ps[i].mac && qs[i].messageId == ps[i].messageId
              && qs[i].payload == ps[i].payload && qs[i].acked == ps[i].acked
              && ps[i].retryCount <= qs[i].retryCount <= ps[i].retryCount + 1
  {
    seq(|ps|, i requires 0 <= i < |ps| => Advance(ps[i], now, timeoutUs, maxRetries))
  }

  /** The whole of `process_send_queue` on the queue. */
  function ProcessQueue(ps: seq<PendingMessage>, now: int, timeoutUs: int, maxRetries: uint8): (qs: seq<PendingMessage>)
    ensures |qs| <= |ps|
    ensures forall i | 0 <= i < |qs| :: !qs[i].acked
  {
    var kept := Prune(ps, now, timeoutUs, maxRetries);
    assert forall i | 0 <= i < |kept| :: kept[i] in kept;
    Step(kept, now, timeoutUs, maxRetries)
  }

  /** `transmit_packet` puts a frame on air only when the radio is
      initialised and the frame has 1..255 bytes. */
  predicate TxAccepts(initialized: bool, frame: seq<byte>)
  {
    initialized && 1 <= |frame| <= MaxFrameLength
  }

  /** The frame one queue entry contributes to a retransmission pass: its
      payload if it is due and `transmit_packet` accepts it. */
  function EntryFrames(m: PendingMessage, now: int, timeoutUs: int, maxRetries: uint8, initialized: bool): (fs: seq<seq<byte>>)
    ensures |fs| <= 1
    ensures fs != [] <==> Due(m, now, timeoutUs, maxRetries) && TxAccepts(initialized, m.payload)
    ensures fs != [] ==> fs[0] == m.payload
  {
    if Due(m, now, timeoutUs, maxRetries) && TxAccepts(initialized, m.payload) then [m.payload] else []
  }

  /** The frames the retransmission loop puts on air, in queue order. */
  function RetransmittedFrames(ps: seq<PendingMessage>, now: int, timeoutUs: int, maxRetries: uint8, initialized: bool): (fs: seq<seq<byte>>)
    ensures |fs| <= |ps|
    ensures forall f | f in fs :: TxAccepts(initialized, f)
    ensures forall f | f in fs :: exists m :: m in ps && Due(m, now, timeoutUs, maxRetries) && m.payload == f
  {
    if ps == [] then []
    else
      RetransmittedFrames(ps[..|ps| - 1], now, timeoutUs, maxRetries, initialized)
      + EntryFrames(ps[|ps| - 1], now, timeoutUs, maxRetries, initialized)
  }

  /** The frames one `process_send_queue` pass puts on air. */
  function QueueFrames(ps: seq<PendingMessage>, now: int, timeoutUs: int, maxRetries: uint8, initialized: bool): (fs: seq<seq<byte>>)
    ensures |fs| <= |ps|
    ensures !initialized ==> fs == []
    ensures forall f | f in fs :: 1 <= |f| <= MaxFrameLength
    ensures forall f | f in fs :: exists m :: m in ps && Due(m, now, timeoutUs, maxRetries) && m.payload == f
  {
    var fs := RetransmittedFrames(Prune(ps, now, timeoutUs, maxRetries), now, timeoutUs, maxRetries, initialized);
    assert fs != [] ==> fs[0] in fs;
    fs
  }

  /** One more entry of the retransmission loop. */
  lemma RetransmittedFramesPrefix(ps: seq<PendingMessage>, i: nat, now: int, timeoutUs: int, maxRetries: uint8, initialized: bool)
    requires i < |ps|
    ensures RetransmittedFrames(ps[..i + 1], now, timeoutUs, maxRetries, initialized)
         == RetransmittedFrames(ps[..i], now, timeoutUs, maxRetries, initialized) + EntryFrames(ps[i], now, timeoutUs, maxRetries, initialized)
  {
    assert ps[..i + 1][..i] == ps[..i];
  }

  /** One more entry of the retransmission loop advanced in place. */
  lemma StepPrefix(ps: seq<PendingMessage>, i: nat, now: int, timeoutUs: int, maxRetries: uint8)
    requires i < |ps|
    ensures (Step(ps[..i], now, timeoutUs, maxRetries) + ps[i..])[i := Advance(ps[i], now, timeoutUs, maxRetries)]
         == Step(ps[..i + 1], now, timeoutUs, maxRetries) + ps[i + 1..]
  {
  }

  lemma StepSnoc(ps: seq<PendingMessage>, m: PendingMessage, now: int, timeoutUs: int, maxRetries: uint8)
    ensures Step(ps + [m], now, timeoutUs, maxRetries) == Step(ps, now, timeoutUs, maxRetries) + [Advance(m, now, timeoutUs, maxRetries)]
  {
  }

  /** An entry enqueued at `now` is neither sent nor changed by a pass that
      comes no more than a timeout later: `send_lora` leaves the first
      transmission to a later `process_send_queue`. */
  lemma FreshEntryNotSent(ps: seq<PendingMessage>, mac: Mac, id: MsgId, now: int, msg: seq<byte>,
                          queueNow: int, timeoutUs: int, maxRetries: uint8, initialized: bool)
    requires queueNow - now <= timeoutUs
    ensures ProcessQueue(ps + [NewPending(mac, id, now, msg)], queueNow, timeoutUs, maxRetries)
            == ProcessQueue(ps, queueNow, timeoutUs, maxRetries) + [NewPending(mac, id, now, msg)]
    ensures QueueFrames(ps + [NewPending(mac, id, now, msg)], queueNow, timeoutUs, maxRetries, initialized)
            == QueueFrames(ps, queueNow, timeoutUs, maxRetries, initialized)
  {
    var m := NewPending(mac, id, now, msg);
    assert !Expired(m, queueNow, timeoutUs) && !Due(m, queueNow, timeoutUs, maxRetries);
    assert Prune([m], queueNow, timeoutUs, maxRetries) == [m] by {
      assert [m][1..] == [];
    }
    PruneConcat(ps, [m], queueNow, timeoutUs, maxRetries);
    var kept := Prune(ps, queueNow, timeoutUs, maxRetries);
    StepSnoc(kept, m, queueNow, timeoutUs, maxRetries);
    var all := kept + [m];
    assert all[..|all| - 1] == kept && all[|all| - 1] == m;
    assert EntryFrames(m, queueNow, timeoutUs, maxRetries, initialized) == [];
    assert RetransmittedFrames(all, queueNow, timeoutUs, maxRetries, initialized)
        == RetransmittedFrames(kept, queueNow, timeoutUs, maxRetries, initialized) + [];
  }

  predicate RetriesBounded(ps: seq<PendingMessage>, maxRetries: uint8)
  {
    forall m | m in ps :: m.retryCount <= maxRetries
  }

  /** After `process_send_queue`, no acknowledged entry remains, and an
      entry (identified by its payload) survives iff it is not dropped. */
  lemma ProcessQueueDropsExactly(ps: seq<PendingMessage>, now: int, timeoutUs: int, maxRetries: uint8)
    ensures forall m | m in ProcessQueue(ps, now, timeoutUs, maxRetries) :: !m.acked
    ensures forall m | m in ps && !Dropped(m, now, timeoutUs, maxRetries) ::
      Advance(m, now, timeoutUs, maxRetries) in ProcessQueue(ps, now, timeoutUs, maxRetries)
    ensures forall q | q in ProcessQueue(ps, now, timeoutUs, maxRetries) ::
      exists m :: m in ps && !Dropped(m, now, timeoutUs, maxRetries) && q == Advance(m, now, timeoutUs, maxRetries)
  {
    var kept := Prune(ps, now, timeoutUs, maxRetries);
    var qs := ProcessQueue(ps, now, timeoutUs, maxRetries);
    forall m | m in ps && !Dropped(m, now, timeoutUs, maxRetries)
      ensures Advance(m, now, timeoutUs, maxRetries) in qs
    {
      var k :| 0 <= k < |kept| && kept[k] == m;
      assert qs[k] == Advance(m, now, timeoutUs, maxRetries);
    }
    forall q | q in qs
      ensures exists m :: m in ps && !Dropped(m, now, timeoutUs, maxRetries) && q == Advance(m, now, timeoutUs, maxRetries)
      ensures !q.acked
    {
      var k :| 0 <= k < |qs| && qs[k] == q;
      assert kept[k] in kept;
    }
  }

  /** `process_send_queue` keeps every retry count within `max_retries_`:
      only an entry below the bound is retried. */
  lemma ProcessQueueKeepsRetriesBounded(ps: seq<PendingMessage>, now: int, timeoutUs: int, maxRetries: uint8)
    requires RetriesBounded(ps, maxRetries)
    ensures RetriesBounded(ProcessQueue(ps, now, timeoutUs, maxRetries), maxRetries)
  {
    ProcessQueueDropsExactly(ps, now, timeoutUs, maxRetries);
  }

  /** `process_send_queue` changes no payload, so it keeps the queue
      well-formed. */
  lemma ProcessQueueKeepsWellFormed(ps: seq<PendingMessage>, now: int, timeoutUs: int, maxRetries: uint8)
    requires QueueWellFormed(ps)
    ensures QueueWellFormed(ProcessQueue(ps, now, timeoutUs, maxRetries))
  {
    ProcessQueueDropsExactly(ps, now, timeoutUs, maxRetries);
  }

  /** How often one entry goes on air over a run of `process_send_queue`
      passes at the given times, while no ACK arrives for it: the passes in
      which it is due and `transmit_packet` accepts its frame. */
  function Airings(m: PendingMessage, nows: seq<int>, timeoutUs: int, maxRetries: uint8, initialized: bool): nat
    decreases |nows|
  {
    if nows == [] || Dropped(m, nows[0], timeoutUs, maxRetries) then 0
    else
      (if Due(m, nows[0], timeoutUs, maxRetries) && TxAccepts(initialized, m.payload) then 1 else 0)
      + Airings(Advance(m, nows[0], timeoutUs, maxRetries), nows[1..], timeoutUs, maxRetries, initialized)
  }

  /** `Airings` counts what the queue functions do to a queue holding only
      this entry: one pass keeps it (advanced) iff it is not dropped, and
      puts its frame on air iff it is due and accepted. */
  lemma SingleEntryPass(m: PendingMessage, now: int, timeoutUs: int, maxRetries: uint8, initialized: bool)
    ensures ProcessQueue([m], now, timeoutUs, maxRetries)
         == (if Dropped(m, now, timeoutUs, maxRetries) then [] else [Advance(m, now, timeoutUs, maxRetries)])
    ensures QueueFrames([m], now, timeoutUs, maxRetries, initialized)
         == (if !Dropped(m, now, timeoutUs, maxRetries) && Due(m, now, timeoutUs, maxRetries)
                && TxAccepts(initialized, m.payload) then [m.payload] else [])
  {
    assert [m][1..] == [];
    var kept := Prune([m], now, timeoutUs, maxRetries);
    assert kept == (if Dropped(m, now, timeoutUs, maxRetries) then [] else [m]);
    if kept != [] {
      assert kept[..0] == [];
    }
  }

  /** The retransmission loop treats each kept entry on its own. */
  lemma StepConcat(a: seq<PendingMessage>, b: seq<PendingMessage>, now: int, timeoutUs: int, maxRetries: uint8)
    ensures Step(a + b, now, timeoutUs, maxRetries) == Step(a, now, timeoutUs, maxRetries) + Step(b, now, timeoutUs, maxRetries)
  {
    var l := Step(a + b, now, timeoutUs, maxRetries);
    var r := Step(a, now, timeoutUs, maxRetries) + Step(b, now, timeoutUs, maxRetries);
    assert |l| == |r|;
    forall i | 0 <= i < |l|
      ensures l[i] == r[i]
    {
      if i < |a| {
        assert (a + b)[i] == a[i];
      } else {
        assert (a + b)[i] == b[i - |a|];
      }
    }
  }

  /** One more entry at the end of the retransmission loop. */
  lemma RetransmittedFramesSnoc(ps: seq<PendingMessage>, m: PendingMessage,
                                now: int, timeoutUs: int, maxRetries: uint8, initialized: bool)
    ensures RetransmittedFrames(ps + [m], now, timeoutUs, maxRetries, initialized)
         == RetransmittedFrames(ps, now, timeoutUs, maxRetries, initialized) + EntryFrames(m, now, timeoutUs, maxRetries, initialized)
  {
    var all := ps + [m];
    assert all[..|all| - 1] == ps && all[|all| - 1] == m;
  }

  /** Concatenation of frame lists is associative. */
  lemma FramesAssoc(x: seq<seq<byte>>, y: seq<seq<byte>>, z: seq<seq<byte>>)
    ensures x + (y + z) == (x + y) + z
  {
  }

  /** Concatenation of queues is associative. */
  lemma PendingAssoc(x: seq<PendingMessage>, y: seq<PendingMessage>, z: seq<PendingMessage>)
    ensures x + (y + z) == (x + y) + z
  {
  }

  /** The inductive step of `RetransmittedFramesConcat`. */
  lemma RetransmittedFramesConcatSnoc(a: seq<PendingMessage>, b: seq<PendingMessage>, x: PendingMessage,
                                      now: int, timeoutUs: int, maxRetries: uint8, initialized: bool)
    requires RetransmittedFrames(a + b, now, timeoutUs, maxRetries, initialized)
          == RetransmittedFrames(a, now, timeoutUs, maxRetries, initialized)
             + RetransmittedFrames(b, now, timeoutUs, maxRetries, initialized)
    ensures RetransmittedFrames(a + (b + [x]), now, timeoutUs, maxRetries, initialized)
         == RetransmittedFrames(a, now, timeoutUs, maxRetries, initialized)
            + RetransmittedFrames(b + [x], now, timeoutUs, maxRetries, initialized)
  {
    PendingAssoc(a, b, [x]);
    RetransmittedFramesSnoc(a + b, x, now, timeoutUs, maxRetries, initialized);
    RetransmittedFramesSnoc(b, x, now, timeoutUs, maxRetries, initialized);
    FramesAssoc(RetransmittedFrames(a, now, timeoutUs, maxRetries, initialized),
                RetransmittedFrames(b, now, timeoutUs, maxRetries, initialized),
                EntryFrames(x, now, timeoutUs, maxRetries, initialized));
  }

  /** The frames of the retransmission loop over two segments are those of
      the first followed by those of the second. */
  lemma {:induction false} RetransmittedFramesConcat(a: seq<PendingMessage>, b: seq<PendingMessage>,
                                                     now: int, timeoutUs: int, maxRetries: uint8, initialized: bool)
    ensures RetransmittedFrames(a + b, now, timeoutUs, maxRetries, initialized)
         == RetransmittedFrames(a, now, timeoutUs, maxRetries, initialized)
            + RetransmittedFrames(b, now, timeoutUs, maxRetries, initialized)
    decreases |b|
  {
    if b == [] {
      assert a + b == a;
    } else {
      var b', x := b[..|b| - 1], b[|b| - 1];
      assert b' + [x] == b;
      RetransmittedFramesConcat(a, b', now, timeoutUs, maxRetries, initialized);
      RetransmittedFramesConcatSnoc(a, b', x, now, timeoutUs, maxRetries, initialized);
    }
  }

  /** Entries of the queue do not interact: a pass over `a + [m] + b` is the
      pass over `a`, then what `m` alone becomes and puts on air, then the
      pass over `b`. With `SingleEntryPass` this makes `Airings` the count
      of `m`'s transmissions in any queue. */
  lemma PassIsPerEntry(a: seq<PendingMessage>, m: PendingMessage, b: seq<PendingMessage>,
                       now: int, timeoutUs: int, maxRetries: uint8, initialized: bool)
    ensures ProcessQueue(a + [m] + b, now, timeoutUs, maxRetries)
         == ProcessQueue(a, now, timeoutUs, maxRetries)
            + (if Dropped(m, now, timeoutUs, maxRetries) then [] else [Advance(m, now, timeoutUs, maxRetries)])
            + ProcessQueue(b, now, timeoutUs, maxRetries)
    ensures QueueFrames(a + [m] + b, now, timeoutUs, maxRetries, initialized)
         == QueueFrames(a, now, timeoutUs, maxRetries, initialized)
            + (if !Dropped(m, now, timeoutUs, maxRetries) && Due(m, now, timeoutUs, maxRetries)
                  && TxAccepts(initialized, m.payload) then [m.payload] else [])
            + QueueFrames(b, now, timeoutUs, maxRetries, initialized)
  {
    SingleEntryPass(m, now, timeoutUs, maxRetries, initialized);
    PruneConcat(a + [m], b, now, timeoutUs, maxRetries);
    PruneConcat(a, [m], now, timeoutUs, maxRetries);
    var pa := Prune(a, now, timeoutUs, maxRetries);
    var pm := Prune([m], now, timeoutUs, maxRetries);
    var pb := Prune(b, now, timeoutUs, maxRetries);
    StepConcat(pa + pm, pb, now, timeoutUs, maxRetries);
    StepConcat(pa, pm, now, timeoutUs, maxRetries);
    RetransmittedFramesConcat(pa + pm, pb, now, timeoutUs, maxRetries, initialized);
    RetransmittedFramesConcat(pa, pm, now, timeoutUs, maxRetries, initialized);
  }

  /** An entry with `retry_count` r <= max goes on air at most max - r more
      times, however often the queue is processed. */
  lemma {:induction false} AiringsBound(m: PendingMessage, nows: seq<int>, timeoutUs: int, maxRetries: uint8, initialized: bool)
    requires m.retryCount <= maxRetries
    ensures Airings(m, nows, timeoutUs, maxRetries, initialized) <= maxRetries - m.retryCount
    decreases |nows|
  {
    if nows != [] && !Dropped(m, nows[0], timeoutUs, maxRetries) {
      AiringsBound(Advance(m, nows[0], timeoutUs, maxRetries), nows[1..], timeoutUs, maxRetries, initialized);
    }
  }

  /** `send_lora` itself never transmits, so a new message goes on air at
      most `max_retries_` times in all, the first transmission included. */
  lemma NewMessageAiredAtMostMaxRetries(mac: Mac, id: MsgId, now: int, msg: seq<byte>, nows: seq<int>,
                                         timeoutUs: int, maxRetries: uint8, initialized: bool)
    ensures Airings(NewPending(mac, id, now, msg), nows, timeoutUs, maxRetries, initialized) <= maxRetries
  {
    AiringsBound(NewPending(mac, id, now, msg), nows, timeoutUs, maxRetries, initialized);
  }

  /** If no ACK arrives, the radio is initialised, the frame fits and every
      pass comes more than a timeout after the previous event, the entry
      goes on air exactly max - r times: with `max_retries_` = R a new
      message is sent R times in all. */
  lemma {:induction false} AiringsExact(m: PendingMessage, nows: seq<int>, timeoutUs: int, maxRetries: uint8, initialized: bool)
    requires !m.acked && m.retryCount <= maxRetries
    requires TxAccepts(initialized, m.payload)
    requires |nows| >= maxRetries - m.retryCount
    requires nows != [] ==> nows[0] - m.timestamp > timeoutUs
    requires forall k | 0 < k < |nows| :: nows[k] - nows[k - 1] > timeoutUs
    ensures Airings(m, nows, timeoutUs, maxRetries, initialized) == maxRetries - m.retryCount
    decreases |nows|
  {
    if nows != [] && m.retryCount < maxRetries {
      var m' := Advance(m, nows[0], timeoutUs, maxRetries);
      var rest := nows[1..];
      assert rest != [] ==> rest[0] - m'.timestamp > timeoutUs by {
        if rest != [] { assert rest[0] == nows[1]; }
      }
      forall k | 0 < k < |rest| ensures rest[k] - rest[k - 1] > timeoutUs {
        assert rest[k] == nows[k + 1] && rest[k - 1] == nows[k];
      }
      AiringsExact(m', rest, timeoutUs, maxRetries, initialized);
    }
  }

  // ---------------------------------------------------------------------
  // ACK matching

  predicate AckMatches(m: PendingMessage, mac: Mac, id: MsgId)
  {
    m.mac == mac && m.messageId == id && !m.acked
  }

  /** The `find_if` of the ACK branch: the first un-acked entry with this
      mac and id. */
  function FindAckTarget(ps: seq<PendingMessage>, mac: Mac, id: MsgId): (r: Option<nat>)
    ensures r.Some? ==> r.value < |ps| && AckMatches(ps[r.value], mac, id)
    ensures r.Some? ==> forall j | 0 <= j < r.value :: !AckMatches(ps[j], mac, id)
    ensures r.None? ==> forall j | 0 <= j < |ps| :: !AckMatches(ps[j], mac, id)
  {
    if ps == [] then None
    else if AckMatches(ps[0], mac, id) then Some(0)
    else match FindAckTarget(ps[1..], mac, id)
      case None => None
      case Some(k) => Some(k + 1)
  }

  /** The ACK a receiver sends for a queued frame echoes the frame's first
      six bytes and its id, so it finds that entry (or an earlier un-acked
      entry with the same mac and id) in the sender's queue. */
  lemma AckOfQueuedFrameMatches(ps: seq<PendingMessage>, k: nat)
    requires k < |ps| && WellFormed(ps[k]) && !ps[k].acked
    ensures Classify(ps[k].payload).DataPacket?
    ensures Classify(AckFrame(Classify(ps[k].payload).mac, Classify(ps[k].payload).id))
            == AckPacket(ps[k].mac, ps[k].messageId)
    ensures FindAckTarget(ps, ps[k].mac, ps[k].messageId).Some?
    ensures FindAckTarget(ps, ps[k].mac, ps[k].messageId).value <= k
  {
    var m := ps[k];
    DataFrameRoundTrip(m.mac, m.messageId, m.payload[HeaderLength..]);
    assert AckMatches(ps[k], m.mac, m.messageId);
  }

  /** The `find_if` of `send_lora_cmd`: an un-acked entry for the peer whose
      payload is exactly 8 bytes and whose bytes 4..8 are the command. */
  predicate QueuedCmdMatches(m: PendingMessage, mac: Mac, msg: seq<byte>)
  {
    m.mac == mac && !m.acked && |m.payload| == 8 && m.payload[4..8] == msg
  }

  function FindQueuedCmd(ps: seq<PendingMessage>, mac: Mac, msg: seq<byte>): (r: Option<nat>)
    ensures r.Some? ==> r.value < |ps| && QueuedCmdMatches(ps[r.value], mac, msg)
    ensures r.Some? ==> forall j | 0 <= j < r.value :: !QueuedCmdMatches(ps[j], mac, msg)
    ensures r.None? ==> forall j | 0 <= j < |ps| :: !QueuedCmdMatches(ps[j], mac, msg)
  {
    if ps == [] then None
    else if QueuedCmdMatches(ps[0], mac, msg) then Some(0)
    else match FindQueuedCmd(ps[1..], mac, msg)
      case None => None
      case Some(k) => Some(k + 1)
  }

  /** Every entry `send_lora` creates has at least 10 bytes, so the 8-byte
      lookup of `send_lora_cmd` never finds one. */
  lemma QueuedCmdNeverFound(ps: seq<PendingMessage>, mac: Mac, msg: seq<byte>)
    requires QueueWellFormed(ps)
    ensures FindQueuedCmd(ps, mac, msg) == None
  {
    forall j | 0 <= j < |ps| ensures !QueuedCmdMatches(ps[j], mac, msg) {
      assert ps[j] in ps;
    }
  }

  // ---------------------------------------------------------------------
  // Duplicate history

  datatype ReceivedMessageInfo = ReceivedMessageInfo(mac: Mac, timestamp: int, data: seq<byte>)

  predicate Stale(info: ReceivedMessageInfo, now: int)
  {
    now - info.timestamp > HistoryWindowUs
  }

  /** The age-based `remove_if` over the history. */
  function PruneHistory(h: seq<ReceivedMessageInfo>, now: int): (h': seq<ReceivedMessageInfo>)
    ensures |h'| <= |h|
    ensures forall x :: x in h' <==> x in h && !Stale(x, now)
  {
    if h == [] then []
    else (if Stale(h[0], now) then [] else [h[0]]) + PruneHistory(h[1..], now)
  }

  /** The age-based pruning is stable: it works segment by segment, so the
      surviving entries keep their order and the oldest stays first. */
  lemma {:induction false} PruneHistoryConcat(a: seq<ReceivedMessageInfo>, b: seq<ReceivedMessageInfo>, now: int)
    ensures PruneHistory(a + b, now) == PruneHistory(a, now) + PruneHistory(b, now)
  {
    if a == [] {
      assert a + b == b;
    } else {
      assert (a + b)[1..] == a[1..] + b;
      PruneHistoryConcat(a[1..], b, now);
    }
  }

  /** The `any_of` test: an entry with the same mac and the same bytes. */
  predicate Seen(h: seq<ReceivedMessageInfo>, mac: Mac, data: seq<byte>)
  {
    exists i | 0 <= i < |h| :: h[i].mac == mac && h[i].data == data
  }

  /** Pruning only forgets: a packet seen after pruning was seen before,
      and one recorded within the last 300 s is still seen. */
  lemma PruneHistoryKeepsRecent(h: seq<ReceivedMessageInfo>, now: int, mac: Mac, data: seq<byte>)
    ensures Seen(PruneHistory(h, now), mac, data) ==> Seen(h, mac, data)
    ensures (exists i | 0 <= i < |h| :: h[i].mac == mac && h[i].data == data && !Stale(h[i], now))
            ==> Seen(PruneHistory(h, now), mac, data)
  {
    var h' := PruneHistory(h, now);
    if Seen(h', mac, data) {
      var i :| 0 <= i < |h'| && h'[i].mac == mac && h'[i].data == data;
      assert h'[i] in h;
      var j :| 0 <= j < |h| && h[j] == h'[i];
    }
    if exists i | 0 <= i < |h| :: h[i].mac == mac && h[i].data == data && !Stale(h[i], now) {
      var i :| 0 <= i < |h| && h[i].mac == mac && h[i].data == data && !Stale(h[i], now);
      assert h[i] in h';
      var j :| 0 <= j < |h'| && h'[j] == h[i];
    }
  }

  /** Recording a new packet, dropping the oldest entry when full. */
  function Remember(h: seq<ReceivedMessageInfo>, mac: Mac, now: int, data: seq<byte>): (h': seq<ReceivedMessageInfo>)
    ensures 1 <= |h'| <= |h| + 1
    ensures |h| <= MaxHistorySize ==> |h'| <= MaxHistorySize
    ensures |h| < MaxHistorySize ==> |h'| == |h| + 1
    ensures h'[|h'| - 1] == ReceivedMessageInfo(mac, now, data)
    ensures forall k | 1 <= k < |h| :: h[k] in h'
    ensures |h| < MaxHistorySize ==> forall k | 0 <= k < |h| :: h[k] in h'
  {
    (if |h| >= MaxHistorySize then h[1..] else h) + [ReceivedMessageInfo(mac, now, data)]
  }

  /** Once a packet has been recorded at time t, the same bytes from the same
      sender arriving within 300 s are found by the duplicate test, however
      the history is pruned at that later time. */
  lemma RepeatWithinWindowIsDuplicate(h: seq<ReceivedMessageInfo>, mac: Mac, t: int, data: seq<byte>, later: int)
    requires later - t <= HistoryWindowUs
    ensures Seen(PruneHistory(Remember(h, mac, t, data), later), mac, data)
  {
    var info := ReceivedMessageInfo(mac, t, data);
    var h' := PruneHistory(Remember(h, mac, t, data), later);
    assert info in Remember(h, mac, t, data);
    assert info in h';
    var i :| 0 <= i < |h'| && h'[i] == info;
  }

  /** Once recorded, a packet's bytes from the same sender are a duplicate. */
  lemma RememberMakesSeen(h: seq<ReceivedMessageInfo>, mac: Mac, now: int, data: seq<byte>)
    ensures Seen(Remember(h, mac, now, data), mac, data)
  {
    var h' := Remember(h, mac, now, data);
    assert h'[|h'| - 1].mac == mac;
  }

  // ---------------------------------------------------------------------
  // Observable outputs

  /** What the component does that can be observed: a frame put on air, or
      a call of one of its four callback managers. */
  datatype Output =
    | Transmitted(frame: seq<byte>)
    | AckReceived(mac: Mac, id: MsgId)
    | CmdReceived(mac: Mac, cmd: int16)
    | DataReceived(mac: Mac, data: seq<byte>)
    | MessageReceived(mac: Mac, text: seq<byte>)

  function TxOutputs(frames: seq<seq<byte>>): (out: seq<Output>)
    ensures |out| == |frames|
  {
    seq(|frames|, i requires 0 <= i < |frames| => Transmitted(frames[i]))
  }

  lemma TxOutputsConcat(a: seq<seq<byte>>, b: seq<seq<byte>>)
    ensures TxOutputs(a + b) == TxOutputs(a) + TxOutputs(b)
  {
  }

  /** The callbacks for a new data payload, in the order of
      `handle_received_data`: cmd (for a command payload), data (always),
      message (for a non-empty payload). */
  function Dispatch(mac: Mac, payload: seq<byte>): (out: seq<Output>)
    ensures |out| == (if IsCmdPayload(payload) then 1 else 0) + 1 + (if payload != [] then 1 else 0)
    ensures IsCmdPayload(payload) ==> out[0] == CmdReceived(mac, DecodeCmd(payload))
    ensures out[if IsCmdPayload(payload) then 1 else 0] == DataReceived(mac, payload)
    ensures payload != [] ==> out[|out| - 1] == MessageReceived(mac, payload)
    ensures forall o | o in out :: !o.Transmitted? && !o.AckReceived?
  {
    (if IsCmdPayload(payload) then [CmdReceived(mac, DecodeCmd(payload))] else [])
    + [DataReceived(mac, payload)]
    + (if payload != [] then [MessageReceived(mac, payload)] else [])
  }

  /** A command sent with `send_lora_cmd` reaches the receiver's cmd
      callback with the same value, ahead of the data and message callbacks. */
  lemma CmdFrameDispatchesCmd(mac: Mac, id: MsgId, cmd: int16)
    ensures Classify(DataFrame(mac, id, EncodeCmd(cmd))) == DataPacket(mac, id, EncodeCmd(cmd))
    ensures Dispatch(mac, EncodeCmd(cmd)) == [CmdReceived(mac, cmd), DataReceived(mac, EncodeCmd(cmd)), MessageReceived(mac, EncodeCmd(cmd))]
  {
    CmdRoundTrip(cmd);
  }
}
