/** What a switch does with each message of its controller, and with the packets of its batch. */
module Dispatch {
  import opened Framing
  import opened Samples
  import opened EventLog
  import opened Statistics
  import opened Topology
  import opened Packets

  // ---- reading a message

  // `mem` is the buffer from the first byte of the message on, of which `size` bytes are the message.

  /** Where the Ethernet frame of a packet_out begins. */
  function FrameAt(mem: Bytes): nat
    requires |mem| >= PACKET_OUT_SIZE
  {
    PACKET_OUT_SIZE + U16(mem, 14)
  }

  /** A frame with a VLAN tag is read 4 Ethernet headers further on. */
  const VLAN_STEP: nat := 4 * ETHER_HEADER

  /** packets.hpp `packet_out_is_lldp` */
  predicate IsLldp(mem: Bytes)
    requires Readable(mem)
  {
    var at := FrameAt(mem) + 12;
    if U16(mem, at) == ETHERTYPE_VLAN then U16(mem, at + VLAN_STEP) == ETHERTYPE_LLDP
    else U16(mem, at) == ETHERTYPE_LLDP
  }

  /** The bytes that decide about a packet_out lie in the buffer. */
  predicate Readable(mem: Bytes) {
    |mem| >= PACKET_OUT_SIZE && |mem| >= FrameAt(mem) + ETHER_HEADER &&
    (U16(mem, FrameAt(mem) + 12) == ETHERTYPE_VLAN ==> |mem| >= FrameAt(mem) + ETHER_HEADER + VLAN_STEP)
  }

  /** packets.hpp `packet_out_is_ofdp` */
  predicate IsOfdp(mem: Bytes)
    requires Readable(mem)
  {
    IsLldp(mem) && mem[FrameAt(mem) + 5] == 1
  }

  /** packets.hpp `packet_out_extract_port`; OFPAT_OUTPUT is 0. */
  function ExtractPort(mem: Bytes): nat
    requires Readable(mem)
  {
    if U16(mem, 14) != 0 && U16(mem, 16) == 0 then U16(mem, 20) else 0
  }

  /** An id as the `int` that the checks look at. */
  function Id(v: nat): int { ToInt(v) }

  datatype Effect =
    | Ignore
    | Reply(kind: Byte)
    | Answer(id: nat)               // goes into the statistics
    | Relay(port: nat, frame: Bytes)
    | Configure(config: Bytes)

  function AnswerTo(id: int): Effect { if 0 < id <= TIMESTAMP_COUNT + 1 then Answer(id) else Ignore }

  /** What a message makes switch `s` do. */
  function EffectOf(mem: Bytes, size: nat, s: int, links: Links): Effect
    requires Complete(mem, size)
  {
    var kind := mem[1];
    if kind == OFPT_HELLO then Reply(OFPT_HELLO)
    else if kind == OFPT_ECHO_REQUEST then Reply(OFPT_ECHO_REPLY)
    else if kind == OFPT_VENDOR then Reply(OFPT_ERROR)
    else if kind == OFPT_FEATURES_REQUEST then Reply(OFPT_FEATURES_REPLY)
    else if kind == OFPT_SET_CONFIG then Configure(mem[8..12])
    else if kind == OFPT_FLOW_MOD then AnswerTo(Id(U32(mem, 64)))
    else if kind == OFPT_PACKET_OUT && !IsLldp(mem) then AnswerTo(Id(U32(mem, 8)))
    else if kind == OFPT_PACKET_OUT && IsOfdp(mem) then
      var (remoteSwitch, remotePort) := Remote(links, s, ExtractPort(mem));
      if remoteSwitch != 0 && remotePort != 0 then Relay(remotePort % 0x1_0000, mem[FrameAt(mem)..size]) else Ignore
    else Ignore
  }

  /** The fields that are read lie in the buffer, and a frame that may be relayed in the message. */
  predicate Complete(mem: Bytes, size: nat) {
    HEADER <= |mem| && size <= |mem| && (mem[1] == OFPT_SET_CONFIG ==> |mem| >= 12) &&
    (mem[1] == OFPT_FLOW_MOD ==> |mem| >= FLOW_MOD_SIZE) &&
    (mem[1] == OFPT_PACKET_OUT ==> Readable(mem) && (IsOfdp(mem) ==> FrameAt(mem) <= size))
  }

  /** The frame fits the buffer of 255 bytes in which it is relayed. */
  predicate Small(e: Effect) { e.Relay? ==> PACKET_IN_SIZE + |e.frame| <= 255 }

  /** The id has a place in the ring: of the ids that are accepted, only the largest has none. */
  predicate HasPlace(e: Effect) { e.Answer? ==> e.id <= TIMESTAMP_COUNT }

  predicate IsReply(m: Bytes, kind: Byte, id: nat) {
    if kind == OFPT_HELLO then IsHello(m)
    else if kind == OFPT_ECHO_REPLY then IsEchoReply(m)
    else if kind == OFPT_ERROR then IsVendorError(m)
    else IsFeaturesReply(m, id)
  }

  class Switch {
    const id: nat
    const config: Config
    const topo: Matrix
    var ofConfig: Bytes      // of_switch_config_to_send: flags and miss_send_len
    var sent: seq<Bytes>     // over the own controller connection
    var relayed: seq<Bytes>  // handed to the sender for frames of other switches

    /** Whatever is sent is a message, and its parts are valid. */
    ghost predicate Valid()
      reads this, config, config.stamps, topo, topo.switches
    {
      config.Valid() && topo.Valid() && id < MAX_SWITCH_COUNT && |ofConfig| == 4 &&
      AllMessages(sent) && AllMessages(relayed)
    }

    constructor (id: nat, config: Config, topo: Matrix)
      requires config.Valid() && topo.Valid() && id < MAX_SWITCH_COUNT
      ensures Valid() && this.id == id && this.config == config && this.topo == topo && sent == relayed == []
    {
      this.id, this.config, this.topo := id, config, topo;
      ofConfig, sent, relayed := [0, 0, 0, 0], [], [];
    }

    /** `lock`, `send`, `unlock`: the buffer goes out as one message. */
    method Send(m: Bytes)
      requires Message(m) && AllMessages(sent)
      modifies this`sent
      ensures sent == old(sent) + [m] && AllMessages(sent)
    {
      sent := sent + [m];
    }

    /** The branches of process_packet that answer at once. */
    method SendReply(kind: Byte)
      requires kind in {OFPT_HELLO, OFPT_ECHO_REPLY, OFPT_ERROR, OFPT_FEATURES_REPLY}
      requires AllMessages(sent) && id < MAX_SWITCH_COUNT
      modifies this`sent
      ensures AllMessages(sent) && |sent| == |old(sent)| + 1 && sent[..|old(sent)|] == old(sent)
      ensures IsReply(sent[|old(sent)|], kind, id)
      ensures kind == 0 ==> sent[|old(sent)|] == [1, 0, 0, 8, 0, 0, 0, 0]
      ensures kind == 3 ==> sent[|old(sent)|] == [1, 3, 0, 8, 0, 0, 0, 1]
      ensures kind == 1 ==> sent[|old(sent)|] == [1, 1, 0, 12, 0, 0, 0, 1, 0, 1, 0, 3]
      ensures kind == 6 ==> IsFeaturesReply(sent[|old(sent)|], id)
    {
      var buf := new Byte[FEATURES_SIZE];
      var size;
      if kind == OFPT_HELLO { size := CreateHello(buf); }
      else if kind == OFPT_ECHO_REPLY { size := CreateEchoReply(buf); }
      else if kind == OFPT_ERROR { size := CreateError(buf); }
      else { size := CreateFeaturesReply(buf, id); }
      ReplyIsMessage(buf[..size], kind, id);
      ReplyBytes(buf[..size], kind, id);
      Send(buf[..size]);
    }

    /**
     * By the type byte of the message: which reply is sent, byte by byte; what becomes of a configuration; whether
     * the statistics hear of a buffer id; and that nothing else happens.
     */
    ghost predicate ByType(mem: Bytes, now: real, sent': seq<Bytes>, relayed': seq<Bytes>, ofConfig': Bytes, log': Log)
      requires |mem| >= HEADER
      reads this`sent, this`relayed, this`ofConfig, config`log
    {
      (if mem[1] in {0, 2, 4, 5} then
         |sent| == |sent'| + 1 && sent[..|sent'|] == sent' &&
         (mem[1] == 0 ==> sent[|sent'|] == [1, 0, 0, 8, 0, 0, 0, 0]) &&
         (mem[1] == 2 ==> sent[|sent'|] == [1, 3, 0, 8, 0, 0, 0, 1]) &&
         (mem[1] == 4 ==> sent[|sent'|] == [1, 1, 0, 12, 0, 0, 0, 1, 0, 1, 0, 3]) &&
         (mem[1] == 5 ==> IsFeaturesReply(sent[|sent'|], id))
       else sent == sent') &&
      (if mem[1] == 9 then |mem| >= 12 && ofConfig == mem[8..12] else ofConfig == ofConfig') &&
      (mem[1] != 13 ==> relayed == relayed') &&
      (if mem[1] == 14 then
         |mem| >= 72 &&
         config.log == log' + (if 0 < U32(mem, 64) <= 200001 then [Received(U32(mem, 64), now)] else [])
       else if mem[1] == 13 then
         Readable(mem) &&
         config.log == log' + (if !IsLldp(mem) && 0 < U32(mem, 8) <= 200001 then [Received(U32(mem, 8), now)] else [])
       else config.log == log')
    }

    /** packets.hpp `process_packet`: exactly what the effect of the message says, and nothing else. */
    method ProcessPacket(mem: Bytes, size: nat, now: real)
      requires Valid() && now >= LastTime(config.log, config.start) && Complete(mem, size)
      requires Small(EffectOf(mem, size, id, topo.links)) && HasPlace(EffectOf(mem, size, id, topo.links))
      modifies this, config, config.stamps
      ensures Valid() && config.start == old(config.start) && topo.links == old(topo.links)
      ensures var e := EffectOf(mem, size, id, old(topo.links));
              config.log == old(config.log) + (if e.Answer? then [Received(e.id, now)] else []) &&
              ofConfig == (if e.Configure? then e.config else old(ofConfig)) &&
              (if e.Reply? then
                 |sent| == |old(sent)| + 1 && sent[..|old(sent)|] == old(sent) && IsReply(sent[|old(sent)|], e.kind, id)
               else sent == old(sent)) &&
              (if e.Relay? then
                 |relayed| == |old(relayed)| + 1 && relayed[..|old(relayed)|] == old(relayed) &&
                 IsRelayed(relayed[|old(relayed)|], e.port, e.frame)
               else relayed == old(relayed))
      ensures ByType(mem, now, old(sent), old(relayed), old(ofConfig), old(config.log))
    {
      assert ReadByType(mem, size, EffectOf(mem, size, id, topo.links)) by {
        EffectByType(mem, size, id, topo.links);
      }
      var kind := mem[1];
      if kind == OFPT_HELLO { SendReply(OFPT_HELLO); }
      else if kind == OFPT_ECHO_REQUEST { SendReply(OFPT_ECHO_REPLY); }
      else if kind == OFPT_VENDOR { SendReply(OFPT_ERROR); }
      else if kind == OFPT_FEATURES_REQUEST { SendReply(OFPT_FEATURES_REPLY); }
      else if kind == OFPT_SET_CONFIG { ofConfig := mem[8..12]; }
      else if kind == OFPT_FLOW_MOD { ReceiveAnswer(Id(U32(mem, 64)), now); }
      else if kind == OFPT_PACKET_OUT {
        if IsLldp(mem) {
          if IsOfdp(mem) {
            var port := ExtractPort(mem);
            var remoteSwitch, remotePort := topo.GetConnection(id, port);
            if remoteSwitch != 0 && remotePort != 0 {
              RelayFrame(remotePort % 0x1_0000, mem[FrameAt(mem)..size]);
            }
          }
        } else {
          ReceiveAnswer(Id(U32(mem, 8)), now);
        }
      }
    }

    /** packets.hpp:573-580 and 611-618 */
    method ReceiveAnswer(i: int, now: real)
      requires Valid() && now >= LastTime(config.log, config.start) && HasPlace(AnswerTo(i))
      modifies config, config.stamps
      ensures Valid() && config.start == old(config.start)
      ensures config.log == old(config.log) + (if AnswerTo(i).Answer? then [Received(i, now)] else [])
    {
      if i > TIMESTAMP_COUNT + 1 {
        return;
      } else if i > 0 {
        var matched := config.ReceivePacketID(i, now);
      }
    }

    method RelayFrame(port: nat, frame: Bytes)
      requires AllMessages(relayed) && port < 0x1_0000 && PACKET_IN_SIZE + |frame| <= 255
      modifies this`relayed
      ensures AllMessages(relayed) && |relayed| == |old(relayed)| + 1 && relayed[..|old(relayed)|] == old(relayed)
      ensures IsRelayed(relayed[|old(relayed)|], port, frame)
    {
      var buf := new Byte[255];
      var size := CreateRelayed(buf, port, frame);
      HeaderMakesMessage(buf[..size], OFPT_PACKET_IN, 0);
      relayed := relayed + [buf[..size]];
    }

    // ---- the batch thread

    /** One packet of the batch (switch.hpp:655-665): the id in it is the one under which its time is kept. */
    method SendPacketIn(now: real) returns (packetId: nat)
      requires Valid() && now >= LastTime(config.log, config.start) && SentCount(config.log) + 1 < 0x8000_0000
      modifies this`sent, config, config.stamps
      ensures Valid() && config.log == old(config.log) + [EventLog.Sent(now)] && config.start == old(config.start)
      ensures |sent| == |old(sent)| + 1 && sent[..|old(sent)|] == old(sent)
      ensures packetId == Place(SentCount(config.log)) + 1 <= TIMESTAMP_COUNT
      ensures IsPacketIn(sent[|old(sent)|], packetId, SentCount(config.log), id)
    {
      var overrun;
      packetId, overrun := config.SendPacketID(now);
      var buf := new Byte[PACKET_IN_FAKE_SIZE];
      CreatePacketIn(buf, packetId, config.sentCount, id);
      HeaderMakesMessage(buf[..PACKET_IN_FAKE_SIZE], OFPT_PACKET_IN, packetId);
      Send(buf[..PACKET_IN_FAKE_SIZE]);
    }

    /** One packet of a capture file (switch.hpp:636-653); nothing is sent, and no id used up, at its end. */
    method SendCaptured(buf: array<Byte>, read: int, now: real)
      requires Valid() && now >= LastTime(config.log, config.start) && SentCount(config.log) + 1 < 0x8000_0000
      requires read <= PACK_IN_SIZE - PACKET_IN_SIZE && read + PACKET_IN_SIZE <= buf.Length
      modifies this`sent, config, config.stamps, buf
      ensures Valid() && config.start == old(config.start)
      ensures read < 0 ==> sent == old(sent) && config.log == old(config.log)
      ensures read >= 0 ==> config.log == old(config.log) + [EventLog.Sent(now)]
      ensures read >= 0 ==>
                |sent| == |old(sent)| + 1 && sent[..|old(sent)|] == old(sent) &&
                IsCaptured(sent[|old(sent)|], Place(SentCount(config.log)) + 1, old(buf[..read]))
    {
      var size := Encapsulate(buf, read);
      if size > 0 {
        ghost var m := buf[..size];
        var packetId, overrun := config.SendPacketID(now);
        Put32(buf, 8, packetId);
        Put32(buf, 4, packetId);
        assert buf[..size][PACKET_IN_DATA..] == m[PACKET_IN_DATA..];
        HeaderMakesMessage(buf[..size], OFPT_PACKET_IN, packetId);
        Send(buf[..size]);
      }
    }
  }

  /** What the type byte says about the effect. */
  ghost predicate ReadByType(mem: Bytes, size: nat, e: Effect)
    requires Complete(mem, size)
  {
    (e.Reply? <==> mem[1] in {0, 2, 4, 5}) && (mem[1] == 0 ==> e == Reply(0)) && (mem[1] == 2 ==> e == Reply(3)) &&
    (mem[1] == 4 ==> e == Reply(1)) && (mem[1] == 5 ==> e == Reply(6)) &&
    (e.Configure? <==> mem[1] == 9) && (mem[1] == 9 ==> e == Configure(mem[8..12])) &&
    (e.Relay? ==> mem[1] == 13) && (e.Answer? ==> mem[1] == 13 || mem[1] == 14) &&
    (mem[1] == 14 ==> e == if 0 < U32(mem, 64) <= 200001 then Answer(U32(mem, 64)) else Ignore) &&
    (mem[1] == 13 ==> (e.Answer? <==> !IsLldp(mem) && 0 < U32(mem, 8) <= 200001)) &&
    (mem[1] == 13 && e.Answer? ==> e == Answer(U32(mem, 8)))
  }

  lemma EffectByType(mem: Bytes, size: nat, s: int, links: Links)
    requires Complete(mem, size)
    ensures ReadByType(mem, size, EffectOf(mem, size, s, links))
  {
    hide Remote, IsLldp, IsOfdp, ExtractPort, U32;
    if mem[1] == OFPT_FLOW_MOD { AnswerIs(U32(mem, 64)); }
    if mem[1] == OFPT_PACKET_OUT { AnswerIs(U32(mem, 8)); }
  }

  lemma AnswerIs(v: nat)
    requires v < 0x1_0000_0000
    ensures AnswerTo(Id(v)) == if 0 < v <= 200001 then Answer(v) else Ignore
  {
  }

  lemma ReplyBytes(m: Bytes, kind: Byte, id: nat)
    requires IsReply(m, kind, id)
    ensures kind == 0 ==> m == [1, 0, 0, 8, 0, 0, 0, 0]
    ensures kind == 3 ==> m == [1, 3, 0, 8, 0, 0, 0, 1]
    ensures kind == 1 ==> m == [1, 1, 0, 12, 0, 0, 0, 1, 0, 1, 0, 3]
    ensures kind == 6 ==> IsFeaturesReply(m, id)
  {
    FixedMessages(m);
  }

  lemma ReplyIsMessage(m: Bytes, kind: Byte, id: nat)
    requires IsReply(m, kind, id)
    ensures Message(m)
  {
  }

  lemma SameFields(mem: Bytes, m: Bytes, at: nat)
    requires m <= mem && at + 2 <= |m|
    ensures U16(mem, at) == U16(m, at)
  {
  }

  lemma SameFrame(mem: Bytes, m: Bytes)
    requires m <= mem && Readable(m)
    ensures Readable(mem) && FrameAt(mem) == FrameAt(m) && ExtractPort(mem) == ExtractPort(m)
    ensures IsLldp(mem) == IsLldp(m) && IsOfdp(mem) == IsOfdp(m)
  {
    SameFields(mem, m, 14);
    SameFields(mem, m, 16);
    SameFields(mem, m, 20);
    SameFields(mem, m, FrameAt(m) + 12);
    if U16(m, FrameAt(m) + 12) == ETHERTYPE_VLAN { SameFields(mem, m, FrameAt(m) + 12 + VLAN_STEP); }
  }

  /**
   * What a message does is in the message: if it holds all that is read of it, the bytes behind it in the buffer,
   * and so the way the stream arrived, make no difference.
   */
  lemma EffectIsInTheMessage(mem: Bytes, size: nat, s: int, links: Links)
    requires size <= |mem| && Complete(mem[..size], size)
    ensures Complete(mem, size) && EffectOf(mem, size, s, links) == EffectOf(mem[..size], size, s, links)
  {
    hide Remote, IsLldp, IsOfdp, ExtractPort;
    var m := mem[..size];
    assert m <= mem && m[1] == mem[1];
    if m[1] == OFPT_PACKET_OUT {
      SameFrame(mem, m);
      assert FrameAt(m) <= size ==> mem[FrameAt(m)..size] == m[FrameAt(m)..size];
    } else if m[1] == OFPT_SET_CONFIG {
      assert mem[8..12] == m[8..12];
    }
  }

  // ---- what the messages are for

  /**
   * A controller that answers a packet with its buffer id, whatever else it says, names exactly the packet to the
   * statistics: in a flow_mod, and in a packet_out unless the frame in it is LLDP.
   */
  lemma AnswerNamesItsPacket(m: Bytes, id: nat, count: nat, s: int, mem: Bytes, size: nat, links: Links)
    requires 0 <= s && IsPacketIn(m, id, count, s) && 1 <= id <= TIMESTAMP_COUNT
    requires Complete(mem, size)
    ensures mem[1] == OFPT_FLOW_MOD && U32(mem, 64) == U32(m, 8) ==> EffectOf(mem, size, s, links) == Answer(id)
    ensures mem[1] == OFPT_PACKET_OUT && U32(mem, 8) == U32(m, 8) ==>
              (EffectOf(mem, size, s, links) == Answer(id) <==> !IsLldp(mem))
  {
  }

  /** The message answers the packet: a flow_mod, or a packet_out without LLDP, with its buffer id. */
  predicate Answers(mem: Bytes, size: nat, m: Bytes) {
    Complete(mem, size) && |m| >= 12 &&
    (if mem[1] == 14 then mem[64..68] == m[8..12]
     else mem[1] == 13 && !IsLldp(mem) && mem[8..12] == m[8..12])
  }

  lemma SameNumber(a: Bytes, i: nat, b: Bytes, j: nat)
    requires i + 4 <= |a| && j + 4 <= |b| && a[i..i + 4] == b[j..j + 4]
    ensures U32(a, i) == U32(b, j)
  {
    var s, t := a[i..i + 4], b[j..j + 4];
    assert a[i] == s[0] == t[0] == b[j] && a[i + 1] == s[1] == t[1] == b[j + 1];
    assert a[i + 2] == s[2] == t[2] == b[j + 2] && a[i + 3] == s[3] == t[3] == b[j + 3];
  }

  /**
   * A packet and its answer, from one end to the other.  `m` is sent as `SendPacketIn` does after the events `log`;
   * then anything may happen, but no answer to it and less than TIMESTAMP_COUNT packets; then `mem` comes in.  It is
   * taken for the answer to that packet, and the statistics get one round trip time more, from the one to the other.
   */
  lemma AnswerIsMeasured(log: Log, sentAt: real, m: Bytes, s: nat, between: Log, mem: Bytes, size: nat, at: real,
                         links: Links, start: real)
    requires var p := SentCount(log + [EventLog.Sent(sentAt)]);
             IsPacketIn(m, Place(p) + 1, p, s) && NoAnswer(between, Place(p) + 1) &&
             SentCount(log + [EventLog.Sent(sentAt)] + between) < p + TIMESTAMP_COUNT
    requires Answers(mem, size, m)
    requires Possible(log + [EventLog.Sent(sentAt)] + between, start)
    requires at >= LastTime(log + [EventLog.Sent(sentAt)] + between, start)
    ensures var all := log + [EventLog.Sent(sentAt)] + between;
            var id := Place(SentCount(log) + 1) + 1;
            EffectOf(mem, size, s, links) == Answer(id) &&
            Rtts(all + [Received(id, at)]) == Rtts(all) + [at - sentAt] &&
            Of(Rtts(all + [Received(id, at)])) == Of(Rtts(all)).Add(at - sentAt)
  {
    var p := SentCount(log) + 1;
    var all, id := log + [EventLog.Sent(sentAt)] + between, Place(p) + 1;
    assert Before(log + [EventLog.Sent(sentAt)]) == log;
    hide SentCount, Slot, Rtts, Possible, Of, IsLldp, NoAnswer;
    if mem[1] == 14 { SameNumber(mem, 64, m, 8); } else { SameNumber(mem, 8, m, 8); }
    AnswerNamesItsPacket(m, id, p, s, mem, size, links);
    AfterReceived(all, id, at, start);
    RoundTripIsMeasured(log, sentAt, between, at, start);
    Snoc(Rtts(all), at - sentAt);
  }

  /** A discovery frame that a controller lets out at one end of a link. */
  predicate Probes(mem: Bytes, size: nat, port: nat) {
    Complete(mem, size) && mem[1] == OFPT_PACKET_OUT && IsOfdp(mem) && ExtractPort(mem) == port
  }

  /**
   * The controller discovers every link in both directions: what it lets out at one end comes back unchanged with
   * the port of the other end.
   */
  lemma LinksAreDiscovered(links: Links, l: Link, mem: Bytes, size: nat, mem': Bytes, size': nat)
    requires Proper(links) && NoClash(links) && l in links && l != NO_LINK && l.ls != 0 && l.rs != 0
    requires 0 < l.lp < 0x1_0000 && 0 < l.rp < 0x1_0000
    requires Probes(mem, size, l.lp) && Probes(mem', size', l.rp)
    ensures EffectOf(mem, size, l.ls, links) == Relay(l.rp, mem[FrameAt(mem)..size])
    ensures EffectOf(mem', size', l.rs, links) == Relay(l.lp, mem'[FrameAt(mem')..size'])
  {
    hide Remote, NoClash;
    AllLinksAreFound(links);
    assert Found(links, l);
  }

  // ---- discovery on the wire

  /**
   * A packet_out in the buffer as a controller sends it: one output action, to a port, and behind it the frame.
   * (Version, transaction, buffer and input port are not looked at.)
   */
  predicate IsPacketOut(mem: Bytes, size: nat, port: nat, frame: Bytes) {
    24 <= size <= |mem| && port < 0x1_0000 && mem[1] == 13 &&
    mem[14..16] == [0, 8] && mem[16..20] == [0, 0, 0, 8] && mem[20..22] == [port / 256, port % 256] &&
    mem[24..size] == frame
  }

  /** A discovery frame: LLDP, to an address that ends with 1. */
  predicate IsDiscovery(frame: Bytes) { |frame| >= 14 && frame[5] == 1 && frame[12..14] == [0x88, 0xcc] }

  lemma PacketOutFields(mem: Bytes, size: nat, port: nat, frame: Bytes)
    requires IsPacketOut(mem, size, port, frame) && |frame| >= 14
    ensures FrameAt(mem) == 24 && U16(mem, 16) == 0 && U16(mem, 14) == 8 && U16(mem, 20) == port
    ensures U16(mem, 36) == U16(frame, 12) && mem[29] == frame[5]
  {
    assert mem[14] == mem[14..16][0] && mem[15] == mem[14..16][1];
    assert mem[16] == mem[16..20][0] && mem[17] == mem[16..20][1];
    assert mem[20] == mem[20..22][0] && mem[21] == mem[20..22][1];
    assert mem[24..size][12] == mem[36] && mem[24..size][13] == mem[37] && mem[24..size][5] == mem[29];
  }

  /** A packet_out with a discovery frame probes its port, and one with an untagged other frame does not. */
  lemma DiscoveryProbes(mem: Bytes, size: nat, port: nat, frame: Bytes)
    requires IsPacketOut(mem, size, port, frame) && |frame| >= 14
    requires frame[12..14] != [0x81, 0]
    ensures Complete(mem, size) && (Probes(mem, size, port) <==> IsDiscovery(frame))
    ensures IsLldp(mem) <==> frame[12..14] == [0x88, 0xcc]
    ensures mem[FrameAt(mem)..size] == frame
  {
    PacketOutFields(mem, size, port, frame);
    assert frame[12..14] == [frame[12], frame[13]];
  }

  /**
   * What the controller sends to a port at one end of a link comes back from the other end: the same frame, byte by
   * byte, with the port of that end.
   */
  lemma DiscoveryOnTheWire(links: Links, l: Link, mem: Bytes, size: nat, mem': Bytes, size': nat, frame: Bytes)
    requires Proper(links) && NoClash(links) && l in links && l != NO_LINK && l.ls != 0 && l.rs != 0
    requires 0 < l.lp < 0x1_0000 && 0 < l.rp < 0x1_0000 && IsDiscovery(frame)
    requires IsPacketOut(mem, size, l.lp, frame) && IsPacketOut(mem', size', l.rp, frame)
    ensures Complete(mem, size) && EffectOf(mem, size, l.ls, links) == Relay(l.rp, frame)
    ensures Complete(mem', size') && EffectOf(mem', size', l.rs, links) == Relay(l.lp, frame)
  {
    hide NoClash, Proper, IsPacketOut, EffectOf, Probes, Complete, IsLldp;
    DiscoveryProbes(mem, size, l.lp, frame);
    DiscoveryProbes(mem', size', l.rp, frame);
    LinksAreDiscovered(links, l, mem, size, mem', size');
  }

  /** LLDP to another address is dropped, and any other untagged frame makes the packet_out an answer. */
  lemma OtherPacketOut(mem: Bytes, size: nat, port: nat, frame: Bytes, s: int, links: Links)
    requires IsPacketOut(mem, size, port, frame) && |frame| >= 14 && !IsDiscovery(frame)
    requires frame[12..14] != [0x81, 0]
    ensures Complete(mem, size)
    ensures EffectOf(mem, size, s, links) ==
            if frame[12..14] == [0x88, 0xcc] || !(0 < U32(mem, 8) <= 200001) then Ignore else Answer(U32(mem, 8))
  {
    hide Remote;
    DiscoveryProbes(mem, size, port, frame);
    PacketOutFields(mem, size, port, frame);
    AnswerIs(U32(mem, 8));
  }

  /** A probe on a port without a link stays unanswered. */
  lemma NothingToDiscover(links: Links, s: int, port: nat, mem: Bytes, size: nat)
    requires Proper(links) && IsSwitch(s) && !Used(links, s, port) && Probes(mem, size, port)
    ensures EffectOf(mem, size, s, links) == Ignore
  {
    hide Remote, Used;
    UnusedPort(links, s, port);
  }

  /**
   * A VLAN tag has four bytes, but the type behind it is looked for 4 headers further on: an LLDP frame with a tag is
   * recognised exactly if the bytes there are the LLDP type too, and there is one for which they are not.
   */
  lemma TaggedLldp(mem: Bytes)
    requires Readable(mem) && U16(mem, FrameAt(mem) + 12) == ETHERTYPE_VLAN
    ensures IsLldp(mem) <==> mem[FrameAt(mem) + 68] == 0x88 && mem[FrameAt(mem) + 69] == 0xcc
    ensures !IsLldp(MissedProbe()) && Readable(MissedProbe())
    ensures U16(MissedProbe(), FrameAt(MissedProbe()) + 12) == ETHERTYPE_VLAN
    ensures U16(MissedProbe(), FrameAt(MissedProbe()) + 16) == ETHERTYPE_LLDP
  {
    var m := MissedProbe();
    assert m[14] == 0 && m[15] == 0;
    assert FrameAt(m) == 16;
    assert m[28] == 0x81 && m[29] == 0 && m[32] == 0x88 && m[33] == 0xcc && m[84] == 0 && m[85] == 0;
  }

  function MissedProbe(): Bytes {
    seq(86, k => if k == 1 then 13 else if k == 28 then 0x81 else if k == 32 then 0x88 else if k == 33 then 0xcc else 0)
  }
}
