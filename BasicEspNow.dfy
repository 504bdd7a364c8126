/** The ESP-NOW component: peer registration before a send, the reaction
    of the receive callback to ACK, command and plain frames, and the
    trigger lists it dispatches to. */
module BasicEspNow {
  import opened Bytes
  import opened EspNowFrames

  /** What the component does that can be observed: a frame handed to
      `esp_now_send`, a trigger fired (`id` is the identifier the caller
      gave the trigger when adding it), or a call of `on_recv_cmd_callback_`. */
  datatype EspOutput =
    | Sent(mac: Mac, frame: seq<byte>)
    | MessageFired(id: nat, mac: Mac, msg: seq<byte>)
    | AckFired(id: nat, mac: Mac)
    | CmdFired(id: nat, mac: Mac, cmd: int16)
    | CmdCallback(mac: Mac, cmd: int16)

  /** Each message trigger once, in registration order. */
  function MessageFirings(ts: seq<nat>, mac: Mac, msg: seq<byte>): (out: seq<EspOutput>)
    ensures |out| == |ts|
  {
    seq(|ts|, i requires 0 <= i < |ts| => MessageFired(ts[i], mac, msg))
  }

  /** Each ack trigger once, in registration order. */
  function AckFirings(ts: seq<nat>, mac: Mac): (out: seq<EspOutput>)
    ensures |out| == |ts|
  {
    seq(|ts|, i requires 0 <= i < |ts| => AckFired(ts[i], mac))
  }

  /** Each cmd trigger once, in registration order. */
  function CmdFirings(ts: seq<nat>, mac: Mac, cmd: int16): (out: seq<EspOutput>)
    ensures |out| == |ts|
  {
    seq(|ts|, i requires 0 <= i < |ts| => CmdFired(ts[i], mac, cmd))
  }

  /** `send_espnow_ex` sends iff the peer is already registered or adding
      it succeeds (`added` is the outcome of `esp_now_add_peer`). */
  function SendOutputs(peers: set<Mac>, mac: Mac, frame: seq<byte>, added: bool): (out: seq<EspOutput>)
    ensures |out| == (if mac in PeersAfter(peers, mac, added) then 1 else 0)
    ensures forall e | e in out :: e == Sent(mac, frame)
  {
    if mac in peers || added then [Sent(mac, frame)] else []
  }

  /** The peer table after `send_espnow_ex`. */
  function PeersAfter(peers: set<Mac>, mac: Mac, added: bool): (ps: set<Mac>)
    ensures peers <= ps && ps <= peers + {mac}
  {
    if mac in peers || !added then peers else peers + {mac}
  }

  /** The ACK `recv_cb` sends back for a 4-byte frame other than an ACK. */
  function ReplyOutputs(peers: set<Mac>, mac: Mac, data: seq<byte>, added: bool): seq<EspOutput>
  {
    if |data| == 4 then SendOutputs(peers, mac, AckPattern, added) else []
  }

  /** The cmd triggers and the command callback, for a command frame. */
  function CmdOutputs(cmdTs: seq<nat>, mac: Mac, data: seq<byte>): seq<EspOutput>
  {
    if IsCmdFrame(data) then CmdFirings(cmdTs, mac, DecodeEspCmd(data)) + [CmdCallback(mac, DecodeEspCmd(data))]
    else []
  }

  /** Everything `recv_cb` does for one frame from `mac`, in order. */
  function RecvOutputs(peers: set<Mac>, msgTs: seq<nat>, ackTs: seq<nat>, cmdTs: seq<nat>,
                       mac: Mac, data: seq<byte>, added: bool): (out: seq<EspOutput>)
    ensures var react := React(data);
      out == (if react.ackOnly then AckFirings(ackTs, mac) else [])
             + (if react.reply then SendOutputs(peers, mac, AckPattern, added) else [])
             + (if react.cmd.Some? then CmdFirings(cmdTs, mac, react.cmd.value) + [CmdCallback(mac, react.cmd.value)] else [])
             + (if react.deliver then MessageFirings(msgTs, mac, data) else [])
  {
    if IsAck(data) then AckFirings(ackTs, mac)
    else ReplyOutputs(peers, mac, data, added) + CmdOutputs(cmdTs, mac, data) + MessageFirings(msgTs, mac, data)
  }

  /** A trigger registered later fires after every earlier one. */
  lemma FiringsAppend(ts: seq<nat>, t: nat, mac: Mac, msg: seq<byte>, cmd: int16)
    ensures MessageFirings(ts + [t], mac, msg) == MessageFirings(ts, mac, msg) + [MessageFired(t, mac, msg)]
    ensures AckFirings(ts + [t], mac) == AckFirings(ts, mac) + [AckFired(t, mac)]
    ensures CmdFirings(ts + [t], mac, cmd) == CmdFirings(ts, mac, cmd) + [CmdFired(t, mac, cmd)]
  {
  }

  /** The ACK pattern fires exactly the ack triggers, with the sender, and
      neither replies nor dispatches anything else. */
  lemma AckFiresOnlyAckTriggers(peers: set<Mac>, msgTs: seq<nat>, ackTs: seq<nat>, cmdTs: seq<nat>, mac: Mac, added: bool)
    ensures var out := RecvOutputs(peers, msgTs, ackTs, cmdTs, mac, AckPattern, added);
      && |out| == |ackTs|
      && forall i | 0 <= i < |out| :: out[i] == AckFired(ackTs[i], mac)
  {
  }

  /** Any other 4-byte frame is answered with exactly one ACK to the
      sender (when the peer is or can be registered), before any trigger
      fires. */
  lemma FourByteFrameAnsweredOnce(peers: set<Mac>, msgTs: seq<nat>, ackTs: seq<nat>, cmdTs: seq<nat>,
                                  mac: Mac, data: seq<byte>, added: bool)
    requires |data| == 4 && !IsAck(data)
    ensures var out := RecvOutputs(peers, msgTs, ackTs, cmdTs, mac, data, added);
      && ((mac in peers || added) ==> out[0] == Sent(mac, AckPattern))
      && (forall i | 0 <= i < |out| && out[i].Sent? :: i == 0 && out[i] == Sent(mac, AckPattern))
  {
    var r := React(data);
    var reply := SendOutputs(peers, mac, AckPattern, added);
    var cmd: seq<EspOutput> := if r.cmd.Some? then CmdFirings(cmdTs, mac, r.cmd.value) + [CmdCallback(mac, r.cmd.value)] else [];
    var msgs := MessageFirings(msgTs, mac, data);
    assert RecvOutputs(peers, msgTs, ackTs, cmdTs, mac, data, added) == reply + cmd + msgs;
    assert forall o | o in cmd + msgs :: !o.Sent?;
  }

  /** Every frame other than the ACK pattern, of any length, reaches every
      message trigger with its full bytes and the sender, after everything
      else `recv_cb` does. */
  lemma NonAckDelivered(peers: set<Mac>, msgTs: seq<nat>, ackTs: seq<nat>, cmdTs: seq<nat>,
                        mac: Mac, data: seq<byte>, added: bool)
    requires !IsAck(data)
    ensures var out := RecvOutputs(peers, msgTs, ackTs, cmdTs, mac, data, added);
      && |msgTs| <= |out|
      && out[|out| - |msgTs|..] == MessageFirings(msgTs, mac, data)
  {
  }

  /** A frame built by `send_espnow_cmd` reaches every cmd trigger and then
      `on_recv_cmd_callback_` of the receiver with the same command, unless
      the command is 256, whose frame is the ACK pattern. */
  lemma CmdDelivered(peers: set<Mac>, msgTs: seq<nat>, ackTs: seq<nat>, cmdTs: seq<nat>,
                     mac: Mac, cmd: int16, added: bool)
    ensures cmd != 0x100 ==>
      var out := RecvOutputs(peers, msgTs, ackTs, cmdTs, mac, EncodeEspCmd(cmd), added);
      var start := |SendOutputs(peers, mac, AckPattern, added)|;
      && start + |cmdTs| < |out|
      && out[start..start + |cmdTs|] == CmdFirings(cmdTs, mac, cmd)
      && out[start + |cmdTs|] == CmdCallback(mac, cmd)
    ensures cmd == 0x100 ==>
      RecvOutputs(peers, msgTs, ackTs, cmdTs, mac, EncodeEspCmd(cmd), added) == AckFirings(ackTs, mac)
  {
    EspCmdIsAckIff(cmd);
    if cmd != 0x100 {
      EspCmdRoundTrip(cmd);
      var reply := SendOutputs(peers, mac, AckPattern, added);
      var cmds := CmdFirings(cmdTs, mac, cmd) + [CmdCallback(mac, cmd)];
      var out := reply + cmds + MessageFirings(msgTs, mac, EncodeEspCmd(cmd));
      assert RecvOutputs(peers, msgTs, ackTs, cmdTs, mac, EncodeEspCmd(cmd), added) == out;
      assert out[|reply|..|reply| + |cmds|] == cmds;
    }
  }

  lemma ConcatAssoc(t: seq<EspOutput>, a: seq<EspOutput>, b: seq<EspOutput>, c: seq<EspOutput>)
    ensures t + a + b + c == t + (a + b + c)
  {
  }

  /** No frame is sent in `out`. */
  predicate NoSends(out: seq<EspOutput>)
  {
    forall i | 0 <= i < |out| :: !out[i].Sent?
  }

  /** Triggers and callbacks send nothing. */
  lemma HandlersSendNothing(msgTs: seq<nat>, cmdTs: seq<nat>, mac: Mac, data: seq<byte>)
    ensures NoSends(CmdOutputs(cmdTs, mac, data) + MessageFirings(msgTs, mac, data))
  {
    var cmd: seq<EspOutput> := CmdOutputs(cmdTs, mac, data);
    var msgs: seq<EspOutput> := MessageFirings(msgTs, mac, data);
    assert NoSends(cmd);
    forall i | 0 <= i < |cmd + msgs|
      ensures !(cmd + msgs)[i].Sent?
    {
      if i >= |cmd| {
        assert (cmd + msgs)[i] == msgs[i - |cmd|];
      } else {
        assert (cmd + msgs)[i] == cmd[i];
      }
    }
  }

  /** Every frame in `out` goes to a member of `peers`. */
  predicate SendsOnlyTo(out: seq<EspOutput>, peers: set<Mac>)
  {
    forall i | 0 <= i < |out| && out[i].Sent? :: out[i].mac in peers
  }

  lemma SendsOnlyToConcat(a: seq<EspOutput>, b: seq<EspOutput>, peers: set<Mac>)
    ensures SendsOnlyTo(a + b, peers) <==> SendsOnlyTo(a, peers) && SendsOnlyTo(b, peers)
  {
    if SendsOnlyTo(a, peers) && SendsOnlyTo(b, peers) {
      forall i | 0 <= i < |a + b| && (a + b)[i].Sent?
        ensures (a + b)[i].mac in peers
      {
        if i >= |a| {
          assert (a + b)[i] == b[i - |a|];
        }
      }
    }
    if SendsOnlyTo(a + b, peers) {
      forall i | 0 <= i < |a| && a[i].Sent?
        ensures a[i].mac in peers
      {
        assert (a + b)[i] == a[i];
      }
      forall i | 0 <= i < |b| && b[i].Sent?
        ensures b[i].mac in peers
      {
        assert (a + b)[|a| + i] == b[i];
      }
    }
  }

  /** `recv_cb` sends only to the peer table it leaves behind. */
  lemma RecvSendsOnlyToPeers(peers: set<Mac>, msgTs: seq<nat>, ackTs: seq<nat>, cmdTs: seq<nat>,
                             mac: Mac, data: seq<byte>, added: bool)
    ensures SendsOnlyTo(RecvOutputs(peers, msgTs, ackTs, cmdTs, mac, data, added),
                        if React(data).reply then PeersAfter(peers, mac, added) else peers)
  {
    if !IsAck(data) {
      var ps := if |data| == 4 then PeersAfter(peers, mac, added) else peers;
      var reply := ReplyOutputs(peers, mac, data, added);
      var rest := CmdOutputs(cmdTs, mac, data) + MessageFirings(msgTs, mac, data);
      ReplySendsOnlyToPeer(peers, mac, data, added);
      HandlersSendNothing(msgTs, cmdTs, mac, data);
      NoSendsSendsOnlyTo(rest, ps);
      SendsOnlyToConcat(reply, rest, ps);
    }
  }

  /** The reply goes to `mac`, which is then in the peer table. */
  lemma ReplySendsOnlyToPeer(peers: set<Mac>, mac: Mac, data: seq<byte>, added: bool)
    ensures SendsOnlyTo(ReplyOutputs(peers, mac, data, added),
                        if |data| == 4 then PeersAfter(peers, mac, added) else peers)
  {
  }

  lemma NoSendsSendsOnlyTo(out: seq<EspOutput>, peers: set<Mac>)
    requires NoSends(out)
    ensures SendsOnlyTo(out, peers)
  {
  }

  /** A larger peer table admits every trace a smaller one admits. */
  lemma SendsOnlyToGrows(out: seq<EspOutput>, peers: set<Mac>, more: set<Mac>)
    requires SendsOnlyTo(out, peers) && peers <= more
    ensures SendsOnlyTo(out, more)
  {
  }

  class BasicESPNowEx {
    var peerMac: Mac
    /** The driver's peer table. */
    var peers: set<Mac>
    var msgTriggers: seq<nat>
    var ackTriggers: seq<nat>
    var cmdTriggers: seq<nat>
    /** Sends, trigger firings and callback calls, in the order they happen. */
    var trace: seq<EspOutput>

    /** Frames only ever go to registered peers. */
    ghost predicate SentOnlyToPeers()
      reads this
    {
      SendsOnlyTo(trace, peers)
    }

    /** `peers` is the driver's peer table when the component is created. */
    constructor (peerTable: set<Mac>)
      ensures peerMac == BroadcastMac && peers == peerTable
      ensures msgTriggers == [] && ackTriggers == [] && cmdTriggers == [] && trace == []
      ensures SentOnlyToPeers()
    {
      peerMac := BroadcastMac;
      peers := peerTable;
      msgTriggers, ackTriggers, cmdTriggers := [], [], [];
      trace := [];
    }

    method SetPeerMac(mac: Mac)
      modifies this
      ensures peerMac == mac
      ensures peers == old(peers) && trace == old(trace)
      ensures msgTriggers == old(msgTriggers) && ackTriggers == old(ackTriggers) && cmdTriggers == old(cmdTriggers)
    {
      peerMac := mac;
    }

    method AddOnMessageTrigger(t: nat)
      modifies this
      ensures msgTriggers == old(msgTriggers) + [t]
      ensures peerMac == old(peerMac) && peers == old(peers) && trace == old(trace)
      ensures ackTriggers == old(ackTriggers) && cmdTriggers == old(cmdTriggers)
    {
      msgTriggers := msgTriggers + [t];
    }

    method AddOnRecvAckTrigger(t: nat)
      modifies this
      ensures ackTriggers == old(ackTriggers) + [t]
      ensures peerMac == old(peerMac) && peers == old(peers) && trace == old(trace)
      ensures msgTriggers == old(msgTriggers) && cmdTriggers == old(cmdTriggers)
    {
      ackTriggers := ackTriggers + [t];
    }

    method AddOnRecvCmdTrigger(t: nat)
      modifies this
      ensures cmdTriggers == old(cmdTriggers) + [t]
      ensures peerMac == old(peerMac) && peers == old(peers) && trace == old(trace)
      ensures msgTriggers == old(msgTriggers) && ackTriggers == old(ackTriggers)
    {
      cmdTriggers := cmdTriggers + [t];
    }

    /** `send_espnow_ex`: register an unknown peer first (`added` is the
        outcome of `esp_now_add_peer`); if that fails nothing is sent. */
    method SendEspnowEx(msg: seq<byte>, mac: Mac, added: bool)
      modifies this
      ensures peers == PeersAfter(old(peers), mac, added)
      ensures trace == old(trace) + SendOutputs(old(peers), mac, msg, added)
      ensures peerMac == old(peerMac)
      ensures msgTriggers == old(msgTriggers) && ackTriggers == old(ackTriggers) && cmdTriggers == old(cmdTriggers)
      ensures old(SentOnlyToPeers()) ==> SentOnlyToPeers()
    {
      if mac !in peers {
        if !added {
          return;
        }
        peers := peers + {mac};
      }
      trace := trace + [Sent(mac, msg)];
    }

    /** `send_espnow_cmd`: the 4-byte command frame through `send_espnow_ex`. */
    method SendEspnowCmd(cmd: int16, mac: Mac, added: bool)
      modifies this
      ensures peers == PeersAfter(old(peers), mac, added)
      ensures trace == old(trace) + SendOutputs(old(peers), mac, EncodeEspCmd(cmd), added)
      ensures peerMac == old(peerMac)
      ensures msgTriggers == old(msgTriggers) && ackTriggers == old(ackTriggers) && cmdTriggers == old(cmdTriggers)
      ensures old(SentOnlyToPeers()) ==> SentOnlyToPeers()
    {
      var msg := [LowByte(cmd), HighByte(cmd), 0, 0];
      msg := msg[2 := msg[0]][3 := msg[1]];
      assert msg == EncodeEspCmd(cmd);
      SendEspnowEx(msg, mac, added);
    }

    method HandleReceived(msg: seq<byte>, mac: Mac)
      modifies this
      ensures trace == old(trace) + MessageFirings(msgTriggers, mac, msg)
      ensures peerMac == old(peerMac) && peers == old(peers)
      ensures msgTriggers == old(msgTriggers) && ackTriggers == old(ackTriggers) && cmdTriggers == old(cmdTriggers)
    {
      for i := 0 to |msgTriggers|
        invariant msgTriggers == old(msgTriggers) && ackTriggers == old(ackTriggers) && cmdTriggers == old(cmdTriggers)
        invariant peerMac == old(peerMac) && peers == old(peers)
        invariant trace == old(trace) + MessageFirings(msgTriggers[..i], mac, msg)
      {
        assert msgTriggers[..i + 1] == msgTriggers[..i] + [msgTriggers[i]];
        FiringsAppend(msgTriggers[..i], msgTriggers[i], mac, msg, 0);
        trace := trace + [MessageFired(msgTriggers[i], mac, msg)];
      }
      assert msgTriggers[..|msgTriggers|] == msgTriggers;
    }

    method HandleAck(mac: Mac)
      modifies this
      ensures trace == old(trace) + AckFirings(ackTriggers, mac)
      ensures peerMac == old(peerMac) && peers == old(peers)
      ensures msgTriggers == old(msgTriggers) && ackTriggers == old(ackTriggers) && cmdTriggers == old(cmdTriggers)
    {
      for i := 0 to |ackTriggers|
        invariant msgTriggers == old(msgTriggers) && ackTriggers == old(ackTriggers) && cmdTriggers == old(cmdTriggers)
        invariant peerMac == old(peerMac) && peers == old(peers)
        invariant trace == old(trace) + AckFirings(ackTriggers[..i], mac)
      {
        assert ackTriggers[..i + 1] == ackTriggers[..i] + [ackTriggers[i]];
        FiringsAppend(ackTriggers[..i], ackTriggers[i], mac, [], 0);
        trace := trace + [AckFired(ackTriggers[i], mac)];
      }
      assert ackTriggers[..|ackTriggers|] == ackTriggers;
    }

    /** `handle_cmd`: the cmd triggers in order, then `on_recv_cmd_callback_`. */
    method HandleCmd(mac: Mac, cmd: int16)
      modifies this
      ensures trace == old(trace) + CmdFirings(cmdTriggers, mac, cmd) + [CmdCallback(mac, cmd)]
      ensures peerMac == old(peerMac) && peers == old(peers)
      ensures msgTriggers == old(msgTriggers) && ackTriggers == old(ackTriggers) && cmdTriggers == old(cmdTriggers)
    {
      for i := 0 to |cmdTriggers|
        invariant msgTriggers == old(msgTriggers) && ackTriggers == old(ackTriggers) && cmdTriggers == old(cmdTriggers)
        invariant peerMac == old(peerMac) && peers == old(peers)
        invariant trace == old(trace) + CmdFirings(cmdTriggers[..i], mac, cmd)
      {
        assert cmdTriggers[..i + 1] == cmdTriggers[..i] + [cmdTriggers[i]];
        FiringsAppend(cmdTriggers[..i], cmdTriggers[i], mac, [], cmd);
        trace := trace + [CmdFired(cmdTriggers[i], mac, cmd)];
      }
      assert cmdTriggers[..|cmdTriggers|] == cmdTriggers;
      trace := trace + [CmdCallback(mac, cmd)];
    }

    /** `recv_cb` for a frame `data` from `mac`; `added` is the outcome of
        `esp_now_add_peer` should the reply need an unknown peer added. */
    method RecvCb(mac: Mac, data: seq<byte>, added: bool)
      modifies this
      ensures trace == old(trace) + RecvOutputs(old(peers), msgTriggers, ackTriggers, cmdTriggers, mac, data, added)
      ensures peers == (if React(data).reply then PeersAfter(old(peers), mac, added) else old(peers))
      ensures peerMac == old(peerMac)
      ensures msgTriggers == old(msgTriggers) && ackTriggers == old(ackTriggers) && cmdTriggers == old(cmdTriggers)
      ensures old(SentOnlyToPeers()) ==> SentOnlyToPeers()
    {
      ghost var trace0, peers0 := trace, peers;
      if |data| == 4 && data == AckPattern {
        HandleAck(mac);
      } else {
        RecvFrame(mac, data, added);
      }
      RecvSendsOnlyToPeers(peers0, msgTriggers, ackTriggers, cmdTriggers, mac, data, added);
      if SendsOnlyTo(trace0, peers0) {
        SendsOnlyToGrows(trace0, peers0, peers);
        SendsOnlyToConcat(trace0, RecvOutputs(peers0, msgTriggers, ackTriggers, cmdTriggers, mac, data, added), peers);
      }
    }

    /** The part of `recv_cb` after the ACK test: the reply to a 4-byte
        frame, the command when both halves agree, then the message
        triggers. */
    method RecvFrame(mac: Mac, data: seq<byte>, added: bool)
      requires !IsAck(data)
      modifies this
      ensures trace == old(trace) + RecvOutputs(old(peers), msgTriggers, ackTriggers, cmdTriggers, mac, data, added)
      ensures peers == (if |data| == 4 then PeersAfter(old(peers), mac, added) else old(peers))
      ensures peerMac == old(peerMac)
      ensures msgTriggers == old(msgTriggers) && ackTriggers == old(ackTriggers) && cmdTriggers == old(cmdTriggers)
    {
      ghost var t0, reply := trace, ReplyOutputs(peers, mac, data, added);
      if |data| == 4 {
        SendEspnowEx(AckPattern, mac, added);
      }
      ghost var t1, cmdPart := trace, CmdOutputs(cmdTriggers, mac, data);
      assert t1 == t0 + reply;
      if |data| == 4 && data[..2] == data[2..] {
        HandleCmd(mac, DecodeEspCmd(data));
      }
      ghost var t2, msgs := trace, MessageFirings(msgTriggers, mac, data);
      assert t2 == t1 + cmdPart;
      HandleReceived(data, mac);
      assert trace == t2 + msgs;
      ConcatAssoc(t0, reply, cmdPart, msgs);
    }
  }
}
