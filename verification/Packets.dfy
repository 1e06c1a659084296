/**
 * What the XDP programs decide about a packet, as a property of its bytes:
 * Ethernet with up to two VLAN tags, IPv4 or the fixed IPv6 header, TCP.
 */
module Packets {
  import opened Endian

  const ETH_P_8021Q := 0x8100
  const ETH_P_8021AD := 0x88A8
  const ETH_P_IP := 0x0800
  const ETH_P_IPV6 := 0x86DD
  const IPPROTO_TCP := 6
  const VLAN_MAX_DEPTH := 2

  const XDP_ABORTED := 0
  const XDP_PASS := 2
  const XDP_REDIRECT := 4

  const KNOCK_PORT := 7777

  /** The number that two consecutive bytes spell in network byte order. */
  function Be16(p: seq<Byte>, i: nat): nat
    requires i + 2 <= |p|
  {
    256 * (p[i] as nat) + (p[i + 1] as nat)
  }

  predicate IsVlan(etherType: nat) {
    etherType == ETH_P_8021Q || etherType == ETH_P_8021AD
  }

  /**
   * An Ethernet header at `s` followed by `k` skipped VLAN tags: every skipped
   * EtherType is a VLAN one, and skipping stops at two tags, at another
   * EtherType, or where the next tag would not fit.
   */
  predicate Ethernet(p: seq<Byte>, s: nat, k: nat) {
    && k <= VLAN_MAX_DEPTH && s + 14 + 4 * k <= |p|
    && (forall j :: 0 <= j < k ==> IsVlan(Be16(p, s + 12 + 4 * j)))
    && (k == VLAN_MAX_DEPTH || !IsVlan(Be16(p, s + 12 + 4 * k)) || s + 18 + 4 * k > |p|)
  }

  /** An IPv4 header in `[off, t)`, options included, for the given protocol. */
  predicate Ipv4(p: seq<Byte>, off: nat, t: nat, protocol: int) {
    && off + 20 <= |p| && 5 <= p[off] as nat % 16
    && t == off + 4 * (p[off] as nat % 16) <= |p|
    && protocol == p[off + 9]
  }

  /** An IPv6 header in `[off, t)` for the given next header. */
  predicate Ipv6(p: seq<Byte>, off: nat, t: nat, nextHdr: int) {
    t == off + 40 <= |p| && nextHdr == p[off + 6]
  }

  predicate NetTcp(p: seq<Byte>, etherType: nat, off: nat, t: nat) {
    || (etherType == ETH_P_IP && Ipv4(p, off, t, IPPROTO_TCP))
    || (etherType == ETH_P_IPV6 && Ipv6(p, off, t, IPPROTO_TCP))
  }

  /** A TCP header at `t` that lies in the packet, options included. */
  predicate TcpHeader(p: seq<Byte>, t: nat) {
    t + 20 <= |p| && 5 <= p[t + 12] as nat / 16 && t + 4 * (p[t + 12] as nat / 16) <= |p|
  }

  /** The headers lead to TCP at offset `t`. */
  ghost predicate LeadsToTcp(p: seq<Byte>, t: nat) {
    exists k: nat :: Ethernet(p, 0, k) && NetTcp(p, Be16(p, 12 + 4 * k), 14 + 4 * k, t)
  }

  datatype Class = TooShort | NotTcp | BadTcp | Tcp(port: nat)

  /** The declarative reading of a packet. */
  ghost predicate HasClass(p: seq<Byte>, c: Class) {
    match c
    case TooShort => |p| < 14
    case NotTcp => |p| >= 14 && forall t: nat :: !LeadsToTcp(p, t)
    case BadTcp => exists t: nat :: LeadsToTcp(p, t) && !TcpHeader(p, t)
    case Tcp(port) => exists t: nat :: LeadsToTcp(p, t) && TcpHeader(p, t) && port == Be16(p, t + 2)
  }

  /** At most one number of tags fits. */
  lemma TagsUnique(p: seq<Byte>, s: nat, j: nat, k: nat)
    requires Ethernet(p, s, j) && Ethernet(p, s, k)
    ensures j == k
  {
  }

  lemma NetUnique(p: seq<Byte>, etherType: nat, off: nat, t: nat, u: nat)
    requires NetTcp(p, etherType, off, t) && NetTcp(p, etherType, off, u)
    ensures t == u
  {
  }

  lemma TcpUnique(p: seq<Byte>, t: nat, u: nat)
    requires LeadsToTcp(p, t) && LeadsToTcp(p, u)
    ensures t == u
  {
    var j: nat :| Ethernet(p, 0, j) && NetTcp(p, Be16(p, 12 + 4 * j), 14 + 4 * j, t);
    var k: nat :| Ethernet(p, 0, k) && NetTcp(p, Be16(p, 12 + 4 * k), 14 + 4 * k, u);
    TagsUnique(p, 0, j, k);
    NetUnique(p, Be16(p, 12 + 4 * k), 14 + 4 * k, t, u);
  }

  /** The reading is a function of the bytes. */
  lemma ClassUnique(p: seq<Byte>, c: Class, d: Class)
    requires HasClass(p, c) && HasClass(p, d)
    ensures c == d
  {
    forall t: nat, u: nat | LeadsToTcp(p, t) && LeadsToTcp(p, u) ensures t == u {
      TcpUnique(p, t, u);
    }
  }

  /** How many tags are skipped. */
  function Tags(p: seq<Byte>): (k: nat)
    requires 14 <= |p|
    ensures Ethernet(p, 0, k)
  {
    if !IsVlan(Be16(p, 12)) || 18 > |p| then 0
    else if !IsVlan(Be16(p, 16)) || 22 > |p| then 1
    else 2
  }

  /** Where TCP starts, if the headers lead to it. */
  function TcpStart(p: seq<Byte>): (t: int)
    requires 14 <= |p|
    ensures t >= 0 ==> LeadsToTcp(p, t)
    ensures t < 0 ==> forall u: nat :: !LeadsToTcp(p, u)
  {
    var k := Tags(p);
    var off := 14 + 4 * k;
    var etherType := Be16(p, 12 + 4 * k);
    var t := if etherType == ETH_P_IP && off + 20 <= |p| then off + 4 * (p[off] as nat % 16) else off + 40;
    var r := if NetTcp(p, etherType, off, t) then t else -1;
    NoOtherTcp(p, k, t);
    r
  }

  lemma NoOtherTcp(p: seq<Byte>, k: nat, t: nat)
    requires 14 <= |p| && Ethernet(p, 0, k)
    requires var off, e := 14 + 4 * k, Be16(p, 12 + 4 * k);
      t == if e == ETH_P_IP && off + 20 <= |p| then off + 4 * (p[off] as nat % 16) else off + 40
    ensures forall u: nat :: LeadsToTcp(p, u) ==> NetTcp(p, Be16(p, 12 + 4 * k), 14 + 4 * k, t)
  {
    forall u: nat | LeadsToTcp(p, u) ensures NetTcp(p, Be16(p, 12 + 4 * k), 14 + 4 * k, t) {
      var j: nat :| Ethernet(p, 0, j) && NetTcp(p, Be16(p, 12 + 4 * j), 14 + 4 * j, u);
      TagsUnique(p, 0, j, k);
    }
  }

  /** The reading, computed; it exists for every packet. */
  function ClassOf(p: seq<Byte>): (c: Class)
    ensures HasClass(p, c)
  {
    if |p| < 14 then TooShort
    else
      var t := TcpStart(p);
      if t < 0 then NotTcp
      else if !TcpHeader(p, t) then BadTcp
      else Tcp(Be16(p, t + 2))
  }

  lemma ClassIs(p: seq<Byte>, c: Class)
    ensures HasClass(p, c) <==> c == ClassOf(p)
  {
    if HasClass(p, c) {
      ClassUnique(p, c, ClassOf(p));
    }
  }

  // ---- Verdicts ------------------------------------------------------------

  /** `bpf_redirect_map(map, key, 0)`: on a missing entry, the low two flag bits. */
  function RedirectMap(sockets: map<nat, nat>, key: nat): nat {
    if key in sockets then XDP_REDIRECT else XDP_ABORTED
  }

  /** What `xdp_sock_prog` returns. `queues` is the array map of enabled queues. */
  function SockVerdict(p: seq<Byte>, index: nat, queues: seq<nat>, sockets: map<nat, nat>): nat {
    if index >= |queues| then XDP_PASS
    else
      match ClassOf(p)
      case TooShort => XDP_ABORTED
      case NotTcp => XDP_PASS
      case BadTcp => XDP_ABORTED
      case Tcp(port) =>
        if port == KNOCK_PORT && queues[index] != 0 then RedirectMap(sockets, index) else XDP_PASS
  }

  /** What `perf_event_test` returns, whether it tries to output a ring-buffer record, and whether one is written. */
  datatype EventResult = EventResult(action: nat, tried: bool, written: bool)

  function EventVerdict(p: seq<Byte>, outputOk: bool): EventResult {
    match ClassOf(p)
    case TooShort => EventResult(XDP_ABORTED, false, false)
    case NotTcp => EventResult(XDP_PASS, false, false)
    case BadTcp => EventResult(XDP_ABORTED, false, false)
    case Tcp(port) =>
      if port != KNOCK_PORT then EventResult(XDP_PASS, false, false)
      else if outputOk then EventResult(XDP_PASS, true, true)
      else EventResult(XDP_ABORTED, true, false)
  }
}
