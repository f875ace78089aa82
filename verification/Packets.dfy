/**
 * The messages of packets.hpp and mypcap.hpp: how they are built, byte by byte, and how a received one is handled.
 * A built message is described by what its receiver reads in it.
 */
module Packets {
  import opened Framing

  const OFP_VERSION: Byte := 1

  const OFPT_HELLO: Byte := 0
  const OFPT_ERROR: Byte := 1
  const OFPT_ECHO_REQUEST: Byte := 2
  const OFPT_ECHO_REPLY: Byte := 3
  const OFPT_VENDOR: Byte := 4
  const OFPT_FEATURES_REQUEST: Byte := 5
  const OFPT_FEATURES_REPLY: Byte := 6
  const OFPT_GET_CONFIG_REPLY: Byte := 8
  const OFPT_SET_CONFIG: Byte := 9
  const OFPT_PACKET_IN: Byte := 10
  const OFPT_PACKET_OUT: Byte := 13
  const OFPT_FLOW_MOD: Byte := 14

  const OFPET_BAD_REQUEST: nat := 1
  const OFPBRC_BAD_VENDOR: nat := 3
  const ETHERTYPE_VLAN: nat := 0x8100
  const ETHERTYPE_LLDP: nat := 0x88cc

  // sizes of the structures of openflow.h
  const PACKET_IN_SIZE: nat := 20
  const PACKET_IN_DATA: nat := 18
  const PACKET_OUT_SIZE: nat := 16
  const FLOW_MOD_SIZE: nat := 72
  const ETHER_HEADER: nat := 14
  const PACKET_IN_FAKE_SIZE: nat := 82
  const FEATURES_SIZE: nat := 224

  const FAKE_HEAD: seq<Byte> := [
    0x97, 0x0a, 0x00, 0x52, 0x00, 0x00, 0x00, 0x00, 0x00, 0x00, 0x01, 0x01, 0x00, 0x40, 0x00, 0x01,
    0x00, 0x00
  ]

  const FAKE_ADDRESSES: seq<Byte> := [
    0x80, 0x00, 0x00, 0x00, 0x00, 0x01, 0x00, 0x00, 0x00, 0x00, 0x00, 0x02
  ]

  const FAKE_PAYLOAD: seq<Byte> := [
    0x08, 0x00, 0x45, 0x00, 0x00, 0x32, 0x00, 0x00, 0x00, 0x00, 0x40, 0xff, 0xf7, 0x2c, 0xc0, 0xa8,
    0x00, 0x28, 0xc0, 0xa8, 0x01, 0x28, 0x7a, 0x18, 0x58, 0x6b, 0x11, 0x08, 0x97, 0xf5, 0x19, 0xe2,
    0x65, 0x7e, 0x07, 0xcc, 0x31, 0xc3, 0x11, 0xc7, 0xc4, 0x0c, 0x8b, 0x95, 0x51, 0x51, 0x33, 0x54,
    0x51, 0xd5, 0x00, 0x36
  ]

  const PACKET_IN_FAKE: seq<Byte> := FAKE_HEAD + FAKE_ADDRESSES + FAKE_PAYLOAD

  const FEATURES_HEAD: seq<Byte> := [
    0x97, 0x06, 0x00, 0xe0, 0x04, 0x01, 0x00, 0x00, 0x00, 0x00, 0x76, 0xa9, 0xd4, 0x0d, 0x25, 0x48
  ]

  const FEATURES_PORTS: seq<Byte> := [
    0x00, 0x00, 0x01, 0x00, 0x02, 0x00, 0x00, 0x00, 0x00, 0x00, 0x00, 0x00, 0x00, 0x00, 0x07, 0xff,
    0x00, 0x01, 0x1a, 0xc1, 0x51, 0xff, 0xef, 0x8a, 0x76, 0x65, 0x74, 0x68, 0x31, 0x00, 0x00, 0x00,
    0x00, 0x00, 0x00, 0x00, 0x00, 0x00, 0x00, 0x00, 0x00, 0x00, 0x00, 0x00, 0x00, 0x00, 0x00, 0x00,
    0x00, 0x00, 0x00, 0xc0, 0x00, 0x00, 0x00, 0x00, 0x00, 0x00, 0x00, 0x00, 0x00, 0x00, 0x00, 0x00,
    0x00, 0x02, 0xce, 0x2f, 0xa2, 0x87, 0xf6, 0x70, 0x76, 0x65, 0x74, 0x68, 0x33, 0x00, 0x00, 0x00,
    0x00, 0x00, 0x00, 0x00, 0x00, 0x00, 0x00, 0x00, 0x00, 0x00, 0x00, 0x00, 0x00, 0x00, 0x00, 0x00,
    0x00, 0x00, 0x00, 0xc0, 0x00, 0x00, 0x00, 0x00, 0x00, 0x00, 0x00, 0x00, 0x00, 0x00, 0x00, 0x00,
    0x00, 0x03, 0xca, 0x8a, 0x1e, 0xf3, 0x77, 0xef, 0x76, 0x65, 0x74, 0x68, 0x35, 0x00, 0x00, 0x00,
    0x00, 0x00, 0x00, 0x00, 0x00, 0x00, 0x00, 0x00, 0x00, 0x00, 0x00, 0x00, 0x00, 0x00, 0x00, 0x00,
    0x00, 0x00, 0x00, 0xc0, 0x00, 0x00, 0x00, 0x00, 0x00, 0x00, 0x00, 0x00, 0x00, 0x00, 0x00, 0x00,
    0x00, 0x04, 0xfa, 0xbc, 0x77, 0x8d, 0x7e, 0x0b, 0x76, 0x65, 0x74, 0x68, 0x37, 0x00, 0x00, 0x00,
    0x00, 0x00, 0x00, 0x00, 0x00, 0x00, 0x00, 0x00, 0x00, 0x00, 0x00, 0x00, 0x00, 0x00, 0x00, 0x00,
    0x00, 0x00, 0x00, 0xc0, 0x00, 0x00, 0x00, 0x00, 0x00, 0x00, 0x00, 0x00, 0x00, 0x00, 0x00, 0x00
  ]

  const MAKE_FEATURES_REPLY_FAKE: seq<Byte> := FEATURES_HEAD + FEATURES_PORTS

  // ---- fields

  /** `ntohs` of the two bytes at `at` */
  function U16(s: Bytes, at: nat): (n: nat)
    requires at + 2 <= |s|
    ensures n < 0x1_0000
  {
    (s[at] as int) * 0x100 + s[at + 1] as int
  }

  /** `ntohl` of the four bytes at `at` */
  function U32(s: Bytes, at: nat): (n: nat)
    requires at + 4 <= |s|
    ensures n < 0x1_0000_0000
  {
    U16(s, at) * 0x1_0000 + U16(s, at + 2)
  }

  /** The same four bytes as an `int` of the machine. */
  function Little32(s: Bytes, at: nat): nat
    requires at + 4 <= |s|
  {
    Little16(s, at) + Little16(s, at + 2) * 0x1_0000
  }

  function Little16(s: Bytes, at: nat): nat
    requires at + 2 <= |s|
  {
    (s[at] as int) + (s[at + 1] as int) * 0x100
  }

  /** Nothing but the bytes from `lo` up to `hi` differs. */
  predicate Elsewhere(a: Bytes, b: Bytes, lo: nat, hi: nat) {
    |a| == |b| && forall k :: 0 <= k < |a| && !(lo <= k < hi) ==> a[k] == b[k]
  }

  method Put16(buf: array<Byte>, at: nat, v: nat)
    requires at + 2 <= buf.Length && v < 0x1_0000
    modifies buf
    ensures U16(buf[..], at) == v && Elsewhere(old(buf[..]), buf[..], at, at + 2)
  {
    buf[at], buf[at + 1] := v / 0x100, v % 0x100;
  }

  method Put32(buf: array<Byte>, at: nat, v: nat)
    requires at + 4 <= buf.Length && v < 0x1_0000_0000
    modifies buf
    ensures U32(buf[..], at) == v && Elsewhere(old(buf[..]), buf[..], at, at + 4)
  {
    Put16(buf, at, v / 0x1_0000);
    Put16(buf, at + 2, v % 0x1_0000);
  }

  method PutLittle32(buf: array<Byte>, at: nat, v: nat)
    requires at + 4 <= buf.Length && v < 0x1_0000_0000
    modifies buf
    ensures Little32(buf[..], at) == v && Elsewhere(old(buf[..]), buf[..], at, at + 4)
  {
    var low, high := v % 0x1_0000, v / 0x1_0000;
    buf[at], buf[at + 1] := low % 0x100, low / 0x100;
    buf[at + 2], buf[at + 3] := high % 0x100, high / 0x100;
  }

  /** `memcpy` */
  method Copy(buf: array<Byte>, at: nat, b: Bytes)
    requires at + |b| <= buf.Length
    modifies buf
    ensures buf[at..at + |b|] == b && Elsewhere(old(buf[..]), buf[..], at, at + |b|)
  {
    forall k | 0 <= k < |b| { buf[at + k] := b[k]; }
  }

  /** `memset(buf, 0, n)` */
  method Clear(buf: array<Byte>, n: nat)
    requires n <= buf.Length
    modifies buf
    ensures Elsewhere(old(buf[..]), buf[..], 0, n) && forall k :: 0 <= k < n ==> buf[k] == 0
  {
    forall k | 0 <= k < n { buf[k] := 0; }
  }

  // ---- packet_create

  /** The header names the version, the type, the number of bytes and the transaction. */
  predicate HasHeader(m: Bytes, kind: Byte, xid: nat) {
    |m| >= HEADER && m[0] == OFP_VERSION && m[1] == kind && U16(m, 2) == |m| && U32(m, 4) == xid
  }

  lemma HeaderMakesMessage(m: Bytes, kind: Byte, xid: nat)
    requires HasHeader(m, kind, xid)
    ensures Message(m)
  {
  }

  predicate IsHello(m: Bytes) { |m| == HEADER && HasHeader(m, OFPT_HELLO, 0) }

  predicate IsEchoReply(m: Bytes) { |m| == HEADER && HasHeader(m, OFPT_ECHO_REPLY, 1) }

  predicate IsVendorError(m: Bytes) {
    |m| == 12 && HasHeader(m, OFPT_ERROR, 1) && U16(m, 8) == OFPET_BAD_REQUEST && U16(m, 10) == OFPBRC_BAD_VENDOR
  }

  /** Byte by byte. */
  lemma FixedMessages(m: Bytes)
    ensures IsHello(m) <==> m == [1, 0, 0, 8, 0, 0, 0, 0]
    ensures IsEchoReply(m) <==> m == [1, 3, 0, 8, 0, 0, 0, 1]
    ensures IsVendorError(m) <==> m == [1, 1, 0, 12, 0, 0, 0, 1, 0, 1, 0, 3]
  {
    if |m| == 8 { assert m == [m[0], m[1], m[2], m[3], m[4], m[5], m[6], m[7]]; }
    if |m| == 12 {
      assert m == [m[0], m[1], m[2], m[3], m[4], m[5], m[6], m[7], m[8], m[9], m[10], m[11]];
    }
  }

  /** `datapath` is the 64-bit number at 8; from 16 on it is the fixed description of four ports. */
  predicate IsFeaturesReply(m: Bytes, datapath: nat) {
    |m| == FEATURES_SIZE && HasHeader(m, OFPT_FEATURES_REPLY, 1) &&
    U32(m, 8) * 0x1_0000_0000 + U32(m, 12) == datapath && m[16..] == FEATURES_PORTS
  }

  /** The length of the frame, its ports, and where it begins. */
  predicate HasFrame(m: Bytes, length: nat, port: nat) {
    |m| >= PACKET_IN_DATA && U16(m, 12) == length && U16(m, 14) == port && m[16] == 0 && m[17] == 0
  }

  /**
   * A packet_in that was made up: it carries its id twice, and an Ethernet frame whose addresses name the switch
   * and the number of packets sent.
   */
  predicate IsPacketIn(m: Bytes, id: nat, count: nat, switchId: nat) {
    |m| == PACKET_IN_FAKE_SIZE && HasHeader(m, OFPT_PACKET_IN, id) && U32(m, 8) == id &&
    HasFrame(m, |m| - PACKET_IN_DATA, 1) &&
    m[18..23] == FAKE_ADDRESSES[..5] && m[23] == switchId % 0x100 &&
    m[24] == 0 && Little32(m, 25) == count && m[29] == switchId % 0x100 &&
    m[30..] == FAKE_PAYLOAD
  }

  /** The source address of the frame. */
  function SourceMac(m: Bytes): Bytes
    requires |m| == PACKET_IN_FAKE_SIZE
  {
    m[24..30]
  }

  method PutHeader(buf: array<Byte>, kind: Byte, length: nat, xid: nat)
    requires buf.Length >= HEADER && length < 0x1_0000 && xid < 0x1_0000_0000
    modifies buf
    ensures buf[0] == OFP_VERSION && buf[1] == kind && U16(buf[..], 2) == length && U32(buf[..], 4) == xid
    ensures Elsewhere(old(buf[..]), buf[..], 0, HEADER)
  {
    buf[0], buf[1] := OFP_VERSION, kind;
    Put16(buf, 2, length);
    Put32(buf, 4, xid);
  }

  method CreateHello(buf: array<Byte>) returns (size: nat)
    requires buf.Length >= HEADER
    modifies buf
    ensures size <= buf.Length && IsHello(buf[..size])
  {
    PutHeader(buf, OFPT_HELLO, 8, 0);
    size := HEADER;
  }

  method CreateError(buf: array<Byte>) returns (size: nat)
    requires buf.Length >= 12
    modifies buf
    ensures size <= buf.Length && IsVendorError(buf[..size])
  {
    PutHeader(buf, OFPT_ERROR, 12, 1);
    Put16(buf, 8, OFPET_BAD_REQUEST);
    Put16(buf, 10, OFPBRC_BAD_VENDOR);
    size := 12;
  }

  method CreateEchoReply(buf: array<Byte>) returns (size: nat)
    requires buf.Length >= HEADER
    modifies buf
    ensures size <= buf.Length && IsEchoReply(buf[..size])
  {
    PutHeader(buf, OFPT_ECHO_REPLY, 8, 1);
    size := HEADER;
  }

  method CreateFeaturesReply(buf: array<Byte>, id: nat) returns (size: nat)
    requires buf.Length >= FEATURES_SIZE && id < 0x8000_0000
    modifies buf
    ensures size <= buf.Length && IsFeaturesReply(buf[..size], id)
  {
    Copy(buf, 0, MAKE_FEATURES_REPLY_FAKE);
    FeaturesTemplate(buf[0..FEATURES_SIZE]);
    buf[0] := OFP_VERSION;
    Put32(buf, 4, 1);
    Put32(buf, 8, 0);
    Put32(buf, 12, id);
    size := FEATURES_SIZE;
    assert buf[..size][16..] == FEATURES_PORTS;
  }

  lemma FeaturesTemplate(m: Bytes)
    requires m == MAKE_FEATURES_REPLY_FAKE
    ensures |m| == FEATURES_SIZE && m[1] == OFPT_FEATURES_REPLY && U16(m, 2) == FEATURES_SIZE
  {
  }

  lemma PacketInTemplate(m: Bytes)
    requires m == PACKET_IN_FAKE
    ensures |m| == PACKET_IN_FAKE_SIZE && m[1] == OFPT_PACKET_IN && U16(m, 2) == PACKET_IN_FAKE_SIZE
    ensures HasFrame(m, PACKET_IN_FAKE_SIZE - PACKET_IN_DATA, 1)
    ensures m[18..23] == FAKE_ADDRESSES[..5] && m[24] == 0 && m[30..] == FAKE_PAYLOAD
  {
  }

  /** What packet_create does for OFPT_PACKET_IN once it has the id. */
  method CreatePacketIn(buf: array<Byte>, id: nat, count: nat, switchId: nat)
    requires buf.Length >= PACKET_IN_FAKE_SIZE && id < 0x8000_0000 && count < 0x8000_0000
    modifies buf
    ensures IsPacketIn(buf[..PACKET_IN_FAKE_SIZE], id, count, switchId)
  {
    hide FAKE_HEAD, FAKE_ADDRESSES, FAKE_PAYLOAD, PACKET_IN_FAKE;
    PacketInTemplate(PACKET_IN_FAKE);
    Copy(buf, 0, PACKET_IN_FAKE);
    ghost var m := buf[0..PACKET_IN_FAKE_SIZE];
    buf[0] := OFP_VERSION;
    Put32(buf, 8, id);
    Put32(buf, 4, id);
    PutLittle32(buf, 25, count);
    buf[23] := switchId % 0x100;
    buf[29] := switchId % 0x100;
    ghost var n := buf[..PACKET_IN_FAKE_SIZE];
    assert forall k :: 0 <= k < 82 && !(k == 0 || 4 <= k < 12 || k == 23 || 25 <= k < 30) ==> n[k] == m[k];
    assert n[18..23] == m[18..23] && n[30..] == m[30..];
  }

  /** The reply to OFPT_GET_CONFIG_REQUEST; no branch of process_packet asks for it, and it sets no size. */
  method CreateGetConfigReply(buf: array<Byte>, config: Bytes)
    requires buf.Length >= 12 && |config| == 4
    modifies buf
    ensures buf[1] == OFPT_GET_CONFIG_REPLY && buf[8..12] == config
    ensures U16(buf[..], 2) == 12 * 0x100 && !Message(buf[..12])
  {
    PutHeader(buf, OFPT_GET_CONFIG_REPLY, 0, 1);
    buf[2], buf[3] := 12, 0;  // the length as an `int` of the machine, without `htons`
    Copy(buf, 8, config);
    assert U16(buf[..], 2) == 12 * 0x100;
    assert LengthField(buf[..12]) == 12 * 0x100;
  }

  /** The header of a packet_in around a frame, as the relay and mypcap write it: no buffer, an input port. */
  method PutPacketIn(buf: array<Byte>, length: nat, frameLength: nat, port: nat)
    requires buf.Length >= PACKET_IN_SIZE && length < 0x1_0000 && frameLength < 0x1_0000 && port < 0x1_0000
    requires buf[17] == 0
    modifies buf
    ensures buf[0] == OFP_VERSION && buf[1] == OFPT_PACKET_IN && U16(buf[..], 2) == length && U32(buf[..], 4) == 0
    ensures U32(buf[..], 8) == 0 && HasFrame(buf[..], frameLength, port)
    ensures Elsewhere(old(buf[..]), buf[..], 0, PACKET_IN_DATA)
  {
    PutHeader(buf, OFPT_PACKET_IN, length, 0);
    Put32(buf, 8, 0);
    Put16(buf, 12, frameLength);
    Put16(buf, 14, port);
    buf[16] := 0;  // OFPR_NO_MATCH
  }

  /** A frame that comes from another switch: the message ends where the frame does. */
  predicate IsRelayed(m: Bytes, port: nat, frame: Bytes) {
    |m| == PACKET_IN_DATA + |frame| && HasHeader(m, OFPT_PACKET_IN, 0) && U32(m, 8) == 0 &&
    HasFrame(m, |frame|, port) && m[PACKET_IN_DATA..] == frame
  }

  /** packets.hpp:540-556: the buffer for a relayed frame. */
  method CreateRelayed(buf: array<Byte>, port: nat, frame: Bytes) returns (size: nat)
    requires buf.Length == 255 && PACKET_IN_SIZE + |frame| <= buf.Length && port < 0x1_0000
    modifies buf
    ensures size <= buf.Length && IsRelayed(buf[..size], port, frame)
  {
    Clear(buf, PACKET_IN_SIZE + |frame|);
    Copy(buf, PACKET_IN_DATA, frame);
    PutPacketIn(buf, PACKET_IN_SIZE + |frame| - 2, |frame|, port);
    size := PACKET_IN_SIZE + |frame| - 2;
    assert buf[..size][PACKET_IN_DATA..] == frame;
  }

  const PACK_IN_SIZE: nat := 9001

  /**
   * A packet read from a capture file: the message is two bytes longer than its frame length says, because the
   * frame begins two bytes before the end of the structure.
   */
  predicate IsCaptured(m: Bytes, id: nat, packet: Bytes) {
    |m| == PACKET_IN_SIZE + |packet| && HasHeader(m, OFPT_PACKET_IN, id) && U32(m, 8) == id &&
    HasFrame(m, |packet|, 0) && m[PACKET_IN_DATA..] == packet + [0, 0]
  }

  /**
   * mypcap.hpp `get_next_packet`, from where the packet is in the buffer; the size is negative at the end of the
   * file.
   */
  method Encapsulate(buf: array<Byte>, size: int) returns (newSize: int)
    requires size <= PACK_IN_SIZE - PACKET_IN_SIZE && size + PACKET_IN_SIZE <= buf.Length
    modifies buf
    ensures size < 0 ==> newSize == size && buf[..] == old(buf[..])
    ensures size >= 0 ==> newSize == size + PACKET_IN_SIZE && IsCaptured(buf[..newSize], 0, old(buf[..size]))
  {
    newSize := size;
    if size > -1 {
      var packet := buf[..size];
      var packIn := new Byte[PACK_IN_SIZE];
      Clear(packIn, PACK_IN_SIZE);
      Copy(packIn, PACKET_IN_DATA, packet);
      PutPacketIn(packIn, PACKET_IN_SIZE + size, size, 0);
      newSize := size + PACKET_IN_SIZE;
      ghost var m := packIn[..newSize];
      assert m[PACKET_IN_DATA..] == packet + [0, 0];
      Copy(buf, 0, packIn[..newSize]);
      assert buf[..newSize] == buf[0..newSize];
    }
  }

  /** The source address tells the packets of a switch apart, which their ids do only as far as the ring reaches. */
  lemma SourcesDiffer(m: Bytes, id: nat, count: nat, m': Bytes, id': nat, count': nat, switchId: nat)
    requires IsPacketIn(m, id, count, switchId) && IsPacketIn(m', id', count', switchId)
    ensures SourceMac(m) == SourceMac(m') <==> count == count'
    ensures m == m' <==> id == id' && count == count'
  {
    BytesOfLittle32(m, m', 25);
    BytesOfU32(m, m', 4);
    BytesOfU32(m, m', 8);
    assert forall k :: 0 <= k < 6 ==> SourceMac(m)[k] == m[24 + k] && SourceMac(m')[k] == m'[24 + k];
    assert forall k :: 0 <= k < 5 ==> m[18..23][k] == m[18 + k] && m'[18..23][k] == m'[18 + k];
    assert forall k :: 30 <= k < 82 ==> m[30..][k - 30] == m[k] && m'[30..][k - 30] == m'[k];
    BytesOfU16(m, m', 2);
    BytesOfU16(m, m', 12);
    BytesOfU16(m, m', 14);
  }

  lemma BytesOfU16(m: Bytes, m': Bytes, at: nat)
    requires at + 2 <= |m| && at + 2 <= |m'|
    ensures U16(m, at) == U16(m', at) <==> m[at] == m'[at] && m[at + 1] == m'[at + 1]
  {
  }

  lemma BytesOfU32(m: Bytes, m': Bytes, at: nat)
    requires at + 4 <= |m| && at + 4 <= |m'|
    ensures U32(m, at) == U32(m', at) <==> forall k :: at <= k < at + 4 ==> m[k] == m'[k]
  {
    BytesOfU16(m, m', at);
    BytesOfU16(m, m', at + 2);
  }

  lemma BytesOfLittle32(m: Bytes, m': Bytes, at: nat)
    requires at + 4 <= |m| && at + 4 <= |m'|
    ensures Little32(m, at) == Little32(m', at) <==> forall k :: at <= k < at + 4 ==> m[k] == m'[k]
  {
    assert Little16(m, at) == Little16(m', at) <==> m[at] == m'[at] && m[at + 1] == m'[at + 1];
    assert Little16(m, at + 2) == Little16(m', at + 2) <==> m[at + 2] == m'[at + 2] && m[at + 3] == m'[at + 3];
  }

  // ---- byte by byte

  /** The four bytes of a number, the most significant first. */
  function Bytes32(v: nat): Bytes
    requires v < 0x1_0000_0000
  {
    [v / 0x100_0000, v / 0x1_0000 % 0x100, v / 0x100 % 0x100, v % 0x100]
  }

  lemma ByteOrder(s: Bytes, at: nat)
    requires at + 4 <= |s|
    ensures s[at..at + 4] == Bytes32(U32(s, at))
    ensures var b := Bytes32(Little32(s, at)); s[at..at + 4] == [b[3], b[2], b[1], b[0]]
    ensures s[at..at + 2] == [U16(s, at) / 0x100, U16(s, at) % 0x100]
  {
    var a, b, c, d := s[at] as int, s[at + 1] as int, s[at + 2] as int, s[at + 3] as int;
    assert U32(s, at) == (a * 0x100 + b) * 0x1_0000 + (c * 0x100 + d);
    assert Little32(s, at) == (a + b * 0x100) + (c + d * 0x100) * 0x1_0000;
    Digits256(a, b, c, d);
    Digits256(d, c, b, a);
    assert s[at..at + 4] == [s[at], s[at + 1], s[at + 2], s[at + 3]];
  }

  lemma Digits256(a: int, b: int, c: int, d: int)
    requires 0 <= a < 0x100 && 0 <= b < 0x100 && 0 <= c < 0x100 && 0 <= d < 0x100
    ensures var v := (a * 0x100 + b) * 0x1_0000 + (c * 0x100 + d);
            0 <= v < 0x1_0000_0000 && v / 0x100_0000 == a && v / 0x1_0000 % 0x100 == b &&
            v / 0x100 % 0x100 == c && v % 0x100 == d
  {
  }

  lemma Addresses()
    ensures FAKE_ADDRESSES[..5] == [0x80, 0, 0, 0, 0] && FAKE_ADDRESSES[6] == 0
  {
  }

  lemma PacketInBytes(m: Bytes, id: nat, count: nat, switchId: nat)
    requires IsPacketIn(m, id, count, switchId)
    ensures id < 0x1_0000_0000 && count < 0x1_0000_0000 && |m| == 82
    ensures m[..4] == [1, 10, 0, 82] && m[4..8] == m[8..12] == Bytes32(id)
    ensures m[12..18] == [0, 64, 0, 1, 0, 0]
    ensures m[18..25] == [0x80, 0, 0, 0, 0, switchId % 0x100, 0]
    ensures var b := Bytes32(count); m[25..30] == [b[3], b[2], b[1], b[0], switchId % 0x100]
    ensures m[30..] == FAKE_PAYLOAD
  {
    Addresses();
    hide U32, Little32, FAKE_PAYLOAD, FAKE_ADDRESSES, FAKE_HEAD;
    FrameHeaderBytes(m, id, 64, 1);
    ByteOrder(m, 25);
    AddressBytes(m);
  }

  lemma AddressBytes(m: Bytes)
    requires |m| == 82
    ensures m[18..25] == m[18..23] + [m[23], m[24]] && m[25..30] == m[25..29] + [m[29]]
  {
  }

  lemma FrameHeaderBytes(m: Bytes, id: nat, length: nat, port: nat)
    requires HasHeader(m, OFPT_PACKET_IN, id) && |m| >= 18 && U32(m, 8) == id && HasFrame(m, length, port)
    ensures id < 0x1_0000_0000 && |m| < 0x1_0000 && length < 0x1_0000 && port < 0x1_0000
    ensures m[..4] == [1, 10, |m| / 0x100, |m| % 0x100] && m[4..8] == m[8..12] == Bytes32(id)
    ensures m[12..18] == [length / 0x100, length % 0x100, port / 0x100, port % 0x100, 0, 0]
  {
    ByteOrder(m, 2);
    ByteOrder(m, 4);
    ByteOrder(m, 8);
    ByteOrder(m, 12);
    ByteOrder(m, 14);
    hide U32, Little32, Bytes32, FAKE_PAYLOAD;
    assert m[..4] == [m[0], m[1]] + m[2..4];
    assert m[12..18] == m[12..14] + m[14..16] + [m[16], m[17]];
  }

  /** A relayed frame, and a captured one. */
  lemma FramedBytes(m: Bytes, port: nat, id: nat, frame: Bytes)
    ensures IsRelayed(m, port, frame) ==>
              m[..4] == [1, 10, |m| / 0x100, |m| % 0x100] && m[4..12] == [0, 0, 0, 0, 0, 0, 0, 0] &&
              m[12..18] == [|frame| / 0x100, |frame| % 0x100, port / 0x100, port % 0x100, 0, 0] && m[18..] == frame
    ensures IsCaptured(m, id, frame) ==>
              id < 0x1_0000_0000 && m[..4] == [1, 10, |m| / 0x100, |m| % 0x100] &&
              m[4..12] == Bytes32(id) + Bytes32(id) &&
              m[12..18] == [|frame| / 0x100, |frame| % 0x100, 0, 0, 0, 0] && m[18..] == frame + [0, 0]
  {
    if IsRelayed(m, port, frame) {
      FrameHeaderBytes(m, 0, |frame|, port);
      assert m[4..12] == m[4..8] + m[8..12] == Bytes32(0) + Bytes32(0);
    }
    if IsCaptured(m, id, frame) {
      FrameHeaderBytes(m, id, |frame|, 0);
      assert m[4..12] == m[4..8] + m[8..12];
    }
  }

  lemma HighAndLow(high: nat, low: nat, v: nat)
    requires high * 0x1_0000_0000 + low == v < 0x1_0000_0000
    ensures high == 0 && low == v
  {
  }

  lemma FeaturesBytes(m: Bytes, id: nat)
    requires IsFeaturesReply(m, id) && id < 0x1_0000_0000
    ensures m[..4] == [1, 6, 0, 224] && m[4..8] == Bytes32(1) && m[8..12] == Bytes32(0) && m[12..16] == Bytes32(id)
    ensures m[16..] == FEATURES_PORTS
  {
    hide FEATURES_PORTS, FEATURES_HEAD;
    ByteOrder(m, 2);
    ByteOrder(m, 4);
    ByteOrder(m, 8);
    ByteOrder(m, 12);
    HighAndLow(U32(m, 8), U32(m, 12), id);
    hide U32, Bytes32;
    assert m[..4] == [m[0], m[1]] + m[2..4];
  }
}
