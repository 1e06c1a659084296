/**
 * An encoder of TCP packets, and the proof that its image is exactly what the
 * classifier takes for TCP: recognising and encoding are inverse to each other.
 */
module Codec {
  import opened Endian
  import opened Packets

  type Bytes = seq<Byte>

  /** A VLAN tag: service (802.1ad) or customer (802.1Q), and its control bytes. */
  datatype Tag = Tag(service: bool, tci: Bytes)

  /** The free fields of the IP header; the code checks no others. */
  datatype Net =
    | V4(version: nat, head: Bytes, tail: Bytes, options: Bytes)
    | V6(head: Bytes, tail: Bytes)

  datatype Segment = Segment(
    srcPort: Bytes, dstPort: nat, numbers: Bytes, reserved: nat, rest: Bytes, options: Bytes)

  /** Everything before the TCP header. */
  datatype Headers = Headers(macs: Bytes, tags: seq<Tag>, net: Net)

  datatype Packet = Packet(head: Headers, tcp: Segment, payload: Bytes)

  predicate GoodOptions(options: Bytes) {
    |options| % 4 == 0 && |options| <= 40
  }

  predicate GoodNet(net: Net) {
    match net
    case V4(version, head, tail, options) =>
      version < 16 && |head| == 8 && |tail| == 10 && GoodOptions(options)
    case V6(head, tail) => |head| == 6 && |tail| == 33
  }

  predicate GoodTcp(tcp: Segment) {
    && |tcp.srcPort| == 2 && tcp.dstPort < 0x1_0000 && |tcp.numbers| == 8
    && tcp.reserved < 16 && |tcp.rest| == 7 && GoodOptions(tcp.options)
  }

  predicate GoodHeaders(h: Headers) {
    && |h.macs| == 12 && |h.tags| <= 2
    && (forall j :: 0 <= j < |h.tags| ==> |h.tags[j].tci| == 2)
    && GoodNet(h.net)
  }

  predicate Good(x: Packet) {
    GoodHeaders(x.head) && GoodTcp(x.tcp)
  }

  function TagBytes(t: Tag): Bytes {
    (if t.service then [0x88, 0xA8] else [0x81, 0x00]) + t.tci
  }

  function TagsBytes(tags: seq<Tag>): Bytes {
    if tags == [] then [] else TagsBytes(tags[..|tags| - 1]) + TagBytes(tags[|tags| - 1])
  }

  function TypeBytes(net: Net): Bytes {
    if net.V4? then [0x08, 0x00] else [0x86, 0xDD]
  }

  function NetBytes(net: Net): Bytes
    requires GoodNet(net)
  {
    match net
    case V4(version, head, tail, options) =>
      [version * 16 + (5 + |options| / 4)] + head + [6] + tail + options
    case V6(head, tail) => head + [6] + tail
  }

  function TcpBytes(tcp: Segment): Bytes
    requires GoodTcp(tcp)
  {
    tcp.srcPort + [tcp.dstPort / 256, tcp.dstPort % 256] + tcp.numbers
    + [(5 + |tcp.options| / 4) * 16 + tcp.reserved] + tcp.rest + tcp.options
  }

  /** Addresses, tags and EtherType. */
  function LinkBytes(h: Headers): Bytes {
    h.macs + TagsBytes(h.tags) + TypeBytes(h.net)
  }

  function HeaderBytes(h: Headers): Bytes
    requires GoodHeaders(h)
  {
    LinkBytes(h) + NetBytes(h.net)
  }

  function Encode(x: Packet): Bytes
    requires Good(x)
  {
    HeaderBytes(x.head) + TcpBytes(x.tcp) + x.payload
  }

  // ---- Encoded packets are recognised --------------------------------------

  lemma {:induction false} TagsBytesAt(tags: seq<Tag>, j: nat)
    requires (forall i :: 0 <= i < |tags| ==> |tags[i].tci| == 2) && j <= |tags|
    ensures |TagsBytes(tags)| == 4 * |tags|
    ensures j < |tags| ==> IsVlan(Be16(TagsBytes(tags), 4 * j))
  {
    if tags != [] {
      var m := |tags| - 1;
      TagsBytesAt(tags[..m], if j < m then j else m);
    }
  }

  /** Fields of a part are fields of the whole, shifted. */
  lemma PartAt(a: Bytes, b: Bytes, c: Bytes, i: nat)
    requires i + 2 <= |b|
    ensures Be16(a + b + c, |a| + i) == Be16(b, i)
  {
  }

  lemma LinkLength(h: Headers)
    requires GoodHeaders(h)
    ensures |LinkBytes(h)| == 14 + 4 * |h.tags|
  {
    TagsBytesAt(h.tags, 0);
  }

  lemma EncodedEthernet(h: Headers, after: Bytes)
    requires GoodHeaders(h)
    ensures Ethernet(LinkBytes(h) + after, 0, |h.tags|)
    ensures Be16(LinkBytes(h) + after, 12 + 4 * |h.tags|) == if h.net.V4? then ETH_P_IP else ETH_P_IPV6
  {
    var p, k := LinkBytes(h) + after, |h.tags|;
    var tagged, ty := TagsBytes(h.tags), TypeBytes(h.net);
    TagsBytesAt(h.tags, 0);
    assert p == (h.macs + tagged) + ty + after;
    PartAt(h.macs + tagged, ty, after, 0);
    assert p == h.macs + tagged + (ty + after);
    forall j | 0 <= j < k ensures IsVlan(Be16(p, 12 + 4 * j)) {
      TagsBytesAt(h.tags, j);
      PartAt(h.macs, tagged, ty + after, 4 * j);
    }
  }

  lemma NetBytesAt(net: Net)
    requires GoodNet(net)
    ensures |NetBytes(net)| == if net.V4? then 20 + |net.options| else 40
    ensures net.V4? ==> NetBytes(net)[0] as nat % 16 == 5 + |net.options| / 4
    ensures NetBytes(net)[if net.V4? then 9 else 6] == 6
  {
  }

  lemma ByteAt(a: Bytes, b: Bytes, c: Bytes, i: nat)
    requires i < |b|
    ensures (a + b + c)[|a| + i] == b[i]
  {
  }

  lemma EncodedNet(net: Net, before: Bytes, after: Bytes)
    requires GoodNet(net)
    ensures NetTcp(before + NetBytes(net) + after, if net.V4? then ETH_P_IP else ETH_P_IPV6,
                   |before|, |before| + |NetBytes(net)|)
  {
    var b := NetBytes(net);
    NetBytesAt(net);
    ByteAt(before, b, after, 0);
    ByteAt(before, b, after, if net.V4? then 9 else 6);
  }

  lemma EncodedTcp(tcp: Segment, before: Bytes, after: Bytes)
    requires GoodTcp(tcp)
    ensures TcpHeader(before + TcpBytes(tcp) + after, |before|)
    ensures Be16(before + TcpBytes(tcp) + after, |before| + 2) == tcp.dstPort
  {
    var p, b := before + TcpBytes(tcp) + after, TcpBytes(tcp);
    assert |b| == 20 + |tcp.options|;
    assert b[12] as nat == (5 + |tcp.options| / 4) * 16 + tcp.reserved;
    assert p[|before| + 12] == b[12];
    PartAt(before, b, after, 2);
  }

  lemma Regroup(a: Bytes, b: Bytes, c: Bytes)
    ensures a + b + c == a + (b + c)
  {
  }

  /** Encoded headers lead to TCP right behind them. */
  lemma HeadersLead(h: Headers, rest: Bytes)
    requires GoodHeaders(h)
    ensures LeadsToTcp(HeaderBytes(h) + rest, |HeaderBytes(h)|)
  {
    var p := HeaderBytes(h) + rest;
    LinkLength(h);
    EncodedNet(h.net, LinkBytes(h), rest);
    Regroup(LinkBytes(h), NetBytes(h.net), rest);
    EncodedEthernet(h, NetBytes(h.net) + rest);
    assert Ethernet(p, 0, |h.tags|);
  }

  /** The classifier recovers the port, whatever the tags, options and payload. */
  lemma EncodedIsTcp(x: Packet)
    requires Good(x)
    ensures ClassOf(Encode(x)) == Tcp(x.tcp.dstPort)
  {
    HeadersLead(x.head, TcpBytes(x.tcp) + x.payload);
    Regroup(HeaderBytes(x.head), TcpBytes(x.tcp), x.payload);
    EncodedTcp(x.tcp, HeaderBytes(x.head), x.payload);
    ClassUnique(Encode(x), ClassOf(Encode(x)), Tcp(x.tcp.dstPort));
  }

  // ---- Recognised packets are encodings ------------------------------------

  function DecodeTags(p: Bytes, k: nat): seq<Tag>
    requires 12 + 4 * k <= |p|
  {
    seq(k, j requires 0 <= j < k => TagAt(p, 12 + 4 * j))
  }

  lemma TagDecoded(p: Bytes, i: nat)
    requires i + 4 <= |p| && IsVlan(Be16(p, i))
    ensures TagBytes(TagAt(p, i)) == p[i..i + 4]
  {
  }

  lemma Join(p: Bytes, a: nat, b: nat, c: nat)
    requires a <= b <= c <= |p|
    ensures p[a..b] + p[b..c] == p[a..c]
  {
  }

  lemma TagsBytesSnoc(tags: seq<Tag>, t: Tag)
    ensures TagsBytes(tags + [t]) == TagsBytes(tags) + TagBytes(t)
  {
    assert (tags + [t])[..|tags|] == tags;
  }

  function TagAt(p: Bytes, i: nat): Tag
    requires i + 4 <= |p|
  {
    Tag(p[i] == 0x88, p[i + 2..i + 4])
  }

  lemma DecodeTagsSnoc(p: Bytes, k: nat, i: nat)
    requires i == 12 + 4 * k && i + 4 <= |p|
    ensures DecodeTags(p, k + 1) == DecodeTags(p, k) + [TagAt(p, i)]
  {
  }

  lemma {:induction false} TagsDecoded(p: Bytes, k: nat)
    requires 12 + 4 * k <= |p| && forall j :: 0 <= j < k ==> IsVlan(Be16(p, 12 + 4 * j))
    ensures TagsBytes(DecodeTags(p, k)) == p[12..12 + 4 * k]
  {
    if k > 0 {
      var i := 12 + 4 * (k - 1);
      TagsDecoded(p, k - 1);
      DecodeTagsSnoc(p, k - 1, i);
      TagsBytesSnoc(DecodeTags(p, k - 1), TagAt(p, i));
      TagDecoded(p, i);
      Join(p, 12, i, i + 4);
    }
  }

  lemma V4Parts(p: Bytes, off: nat, t: nat)
    requires off + 20 <= t <= |p|
    ensures [p[off]] + p[off + 1..off + 9] + [p[off + 9]] + p[off + 10..off + 20] + p[off + 20..t] == p[off..t]
  {
    assert [p[off]] + p[off + 1..off + 9] + [p[off + 9]] == p[off..off + 10];
    assert p[off..off + 10] + p[off + 10..off + 20] == p[off..off + 20];
    assert p[off..off + 20] + p[off + 20..t] == p[off..t];
  }

  lemma NetDecoded(p: Bytes, etherType: nat, off: nat, t: nat) returns (net: Net)
    requires NetTcp(p, etherType, off, t)
    ensures off <= t <= |p| && GoodNet(net) && NetBytes(net) == p[off..t] && (etherType == ETH_P_IP <==> net.V4?)
  {
    if etherType == ETH_P_IP {
      var b := p[off] as nat;
      net := V4(b / 16, p[off + 1..off + 9], p[off + 10..off + 20], p[off + 20..t]);
      V4Parts(p, off, t);
    } else {
      net := V6(p[off..off + 6], p[off + 7..t]);
      assert p[off..off + 6] + [p[off + 6]] + p[off + 7..t] == p[off..t];
    }
  }

  lemma TcpParts(p: Bytes, t: nat, end: nat)
    requires t + 20 <= end <= |p|
    ensures p[t..t + 2] + [p[t + 2], p[t + 3]] + p[t + 4..t + 12] + [p[t + 12]] + p[t + 13..t + 20] + p[t + 20..end]
         == p[t..end]
  {
    assert p[t..t + 2] + [p[t + 2], p[t + 3]] == p[t..t + 4];
    assert p[t..t + 4] + p[t + 4..t + 12] + [p[t + 12]] == p[t..t + 13];
    assert p[t..t + 13] + p[t + 13..t + 20] == p[t..t + 20];
    assert p[t..t + 20] + p[t + 20..end] == p[t..end];
  }

  lemma TcpDecoded(p: Bytes, t: nat) returns (tcp: Segment, end: nat)
    requires TcpHeader(p, t)
    ensures t <= end <= |p| && GoodTcp(tcp) && TcpBytes(tcp) == p[t..end] && tcp.dstPort == Be16(p, t + 2)
  {
    var b := p[t + 12] as nat;
    end := t + 4 * (b / 16);
    tcp := Segment(p[t..t + 2], Be16(p, t + 2), p[t + 4..t + 12], b % 16, p[t + 13..t + 20], p[t + 20..end]);
    TcpParts(p, t, end);
  }

  lemma TypeDecoded(p: Bytes, i: nat, net: Net)
    requires i + 2 <= |p| && Be16(p, i) == if net.V4? then ETH_P_IP else ETH_P_IPV6
    ensures TypeBytes(net) == p[i..i + 2]
  {
  }

  lemma Split(p: Bytes, t: nat)
    requires t <= |p|
    ensures p[..t] + p[t..] == p
  {
  }

  lemma Split3(p: Bytes, t: nat, end: nat)
    requires t <= end <= |p|
    ensures p[..t] + p[t..end] + p[end..] == p
  {
  }

  lemma HeadersJoined(p: Bytes, h: Headers, off: nat, t: nat)
    requires GoodHeaders(h) && 14 <= off <= t <= |p|
    requires h.macs == p[..12] && TagsBytes(h.tags) == p[12..off - 2]
    requires TypeBytes(h.net) == p[off - 2..off] && NetBytes(h.net) == p[off..t]
    ensures HeaderBytes(h) == p[..t]
  {
    assert p[..12] == p[0..12] && p[..t] == p[0..t];
    Join(p, 0, 12, off - 2);
    Join(p, 0, off - 2, off);
    Join(p, 0, off, t);
  }

  lemma TagsGood(p: Bytes, k: nat)
    requires 12 + 4 * k <= |p|
    ensures |DecodeTags(p, k)| == k && forall j :: 0 <= j < k ==> |DecodeTags(p, k)[j].tci| == 2
  {
  }

  lemma HeadersDecodedAt(p: Bytes, k: nat, off: nat, t: nat) returns (h: Headers)
    requires Ethernet(p, 0, k) && off == 14 + 4 * k && NetTcp(p, Be16(p, off - 2), off, t)
    ensures t <= |p| && GoodHeaders(h) && HeaderBytes(h) == p[..t]
  {
    TagsDecoded(p, k);
    TagsGood(p, k);
    var net := NetDecoded(p, Be16(p, off - 2), off, t);
    TypeDecoded(p, off - 2, net);
    h := Headers(p[..12], DecodeTags(p, k), net);
    HeadersJoined(p, h, off, t);
  }

  /** Headers that lead to TCP are encoded headers. */
  lemma HeadersDecoded(p: Bytes, t: nat) returns (h: Headers)
    requires LeadsToTcp(p, t)
    ensures t <= |p| && GoodHeaders(h) && HeaderBytes(h) == p[..t]
  {
    var k: nat :| Ethernet(p, 0, k) && NetTcp(p, Be16(p, 12 + 4 * k), 14 + 4 * k, t);
    h := HeadersDecodedAt(p, k, 14 + 4 * k, t);
  }

  lemma Decoded(p: Bytes, port: nat) returns (x: Packet)
    requires HasClass(p, Tcp(port))
    ensures Good(x) && x.tcp.dstPort == port && Encode(x) == p
  {
    var t: nat :| LeadsToTcp(p, t) && TcpHeader(p, t) && port == Be16(p, t + 2);
    var h := HeadersDecoded(p, t);
    var tcp, end := TcpDecoded(p, t);
    x := Packet(h, tcp, p[end..]);
    Split3(p, t, end);
  }

  /** The headers lead to TCP at an offset exactly when the bytes before it encode headers. */
  lemma LeadsIffEncoded(p: Bytes, t: nat)
    ensures LeadsToTcp(p, t) <==> t <= |p| && exists h :: GoodHeaders(h) && HeaderBytes(h) == p[..t]
  {
    if LeadsToTcp(p, t) {
      var h := HeadersDecoded(p, t);
    }
    if t <= |p| && exists h :: GoodHeaders(h) && HeaderBytes(h) == p[..t] {
      var h :| GoodHeaders(h) && HeaderBytes(h) == p[..t];
      HeadersLead(h, p[t..]);
      Split(p, t);
    }
  }

  /** What follows the headers is no TCP header: too short, or with a length that does not fit. */
  predicate NoTcpHeader(rest: Bytes) {
    |rest| < 20 || rest[12] as nat / 16 < 5 || |rest| < 4 * (rest[12] as nat / 16)
  }

  lemma RestOfHeader(p: Bytes, t: nat)
    requires t <= |p|
    ensures TcpHeader(p, t) <==> !NoTcpHeader(p[t..])
  {
  }

  /** Encoded headers followed by something that is no TCP header. */
  ghost predicate Broken(p: Bytes, h: Headers, t: nat)
  {
    t <= |p| && GoodHeaders(h) && HeaderBytes(h) == p[..t] && NoTcpHeader(p[t..])
  }

  /** The other classes, too, in terms of the encoder. */
  lemma OthersIffEncoded(p: Bytes)
    ensures ClassOf(p) == TooShort <==> |p| < 14
    ensures ClassOf(p) == NotTcp
       <==> |p| >= 14 && forall h, t: nat :: t <= |p| && GoodHeaders(h) ==> HeaderBytes(h) != p[..t]
    ensures ClassOf(p) == BadTcp <==> exists h, t: nat :: Broken(p, h, t)
  {
    forall t: nat ensures LeadsToTcp(p, t) <==> t <= |p| && exists h :: GoodHeaders(h) && HeaderBytes(h) == p[..t] {
      LeadsIffEncoded(p, t);
    }
    forall t: nat | t <= |p| ensures TcpHeader(p, t) <==> !NoTcpHeader(p[t..]) {
      RestOfHeader(p, t);
    }
    forall c | HasClass(p, c) ensures c == ClassOf(p) {
      ClassUnique(p, c, ClassOf(p));
    }
    if ClassOf(p) == BadTcp {
      var t: nat :| LeadsToTcp(p, t) && !TcpHeader(p, t);
      var h :| GoodHeaders(h) && HeaderBytes(h) == p[..t];
      assert Broken(p, h, t);
    }
    if exists h, t: nat :: Broken(p, h, t) {
      var h, t: nat :| Broken(p, h, t);
      assert LeadsToTcp(p, t) && HasClass(p, BadTcp);
    }
    if |p| < 14 {
      assert HasClass(p, TooShort);
    }
    if |p| >= 14 && forall h, t: nat :: t <= |p| && GoodHeaders(h) ==> HeaderBytes(h) != p[..t] {
      assert HasClass(p, NotTcp);
    }
  }

  /**
   * The packets classified as TCP to a port are exactly the encodings of a
   * well-formed packet with that destination port.
   */
  lemma TcpIffEncoded(p: Bytes, port: nat)
    ensures ClassOf(p) == Tcp(port) <==> exists x :: Good(x) && x.tcp.dstPort == port && Encode(x) == p
  {
    if ClassOf(p) == Tcp(port) {
      var x := Decoded(p, port);
    }
    if exists x :: Good(x) && x.tcp.dstPort == port && Encode(x) == p {
      var x :| Good(x) && x.tcp.dstPort == port && Encode(x) == p;
      EncodedIsTcp(x);
    }
  }

  /**
   * A packet is redirected to the socket exactly when it encodes TCP to the
   * knocking port and arrives on an enabled queue with a socket.
   */
  lemma RedirectIffKnock(p: Bytes, index: nat, queues: seq<nat>, sockets: map<nat, nat>)
    ensures SockVerdict(p, index, queues, sockets) == XDP_REDIRECT
       <==> index < |queues| && queues[index] != 0 && index in sockets
            && exists x :: Good(x) && x.tcp.dstPort == 7777 && Encode(x) == p
  {
    TcpIffEncoded(p, 7777);
  }
}
