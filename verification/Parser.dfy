/**
 * The header parsers and the two XDP programs as code: a cursor moved in place
 * over the packet bytes, for either byte order of the machine.
 */
module Parser {
  import opened Endian
  import opened Packets

  /** `struct hdr_cursor`. */
  class Cursor {
    var pos: nat

    constructor (pos: nat)
      ensures this.pos == pos
    {
      this.pos := pos;
    }
  }

  predicate ProtoIsVlan(order: Order, hProto: nat) {
    hProto == Htons(order, ETH_P_8021Q) || hProto == Htons(order, ETH_P_8021AD)
  }

  /** A 16-bit field, as the machine loads it. */
  function Field16(order: Order, p: seq<Byte>, i: nat): nat
    requires i + 2 <= |p|
  {
    Load16(order, p[i], p[i + 1])
  }

  lemma FieldIs(order: Order, p: seq<Byte>, i: nat, c: nat)
    requires i + 2 <= |p| && c < 0x1_0000
    ensures Field16(order, p, i) == Htons(order, c) <==> Be16(p, i) == c
    ensures Htons(order, Field16(order, p, i)) == Be16(p, i)
  {
    HtonsSpells(order, p[i], p[i + 1], c);
  }

  lemma VlanField(order: Order, p: seq<Byte>, i: nat)
    requires i + 2 <= |p|
    ensures ProtoIsVlan(order, Field16(order, p, i)) <==> IsVlan(Be16(p, i))
  {
    FieldIs(order, p, i, ETH_P_8021Q);
    FieldIs(order, p, i, ETH_P_8021AD);
  }

  /**
   * `parse_ethhdr`: fails exactly when the Ethernet header does not fit; else the
   * cursor moves past it and the skipped tags, and the last EtherType is returned
   * as loaded.
   */
  method ParseEthHdr(order: Order, nh: Cursor, p: seq<Byte>) returns (ethType: int, ghost k: nat)
    requires nh.pos <= |p|
    modifies nh
    ensures ethType < 0 <==> old(nh.pos) + 14 > |p|
    ensures ethType < 0 ==> nh.pos == old(nh.pos)
    ensures ethType >= 0 ==> Ethernet(p, old(nh.pos), k) && nh.pos == old(nh.pos) + 14 + 4 * k <= |p|
    ensures ethType >= 0 ==> ethType == Field16(order, p, nh.pos - 2)
  {
    k := 0;
    var eth := nh.pos;
    if nh.pos + 14 > |p| {
      return -1, 0;
    }
    nh.pos := nh.pos + 14;
    var vlh := nh.pos;
    var hProto := Field16(order, p, eth + 12);
    var i := 0;
    while i < VLAN_MAX_DEPTH
      invariant i <= VLAN_MAX_DEPTH && vlh == eth + 14 + 4 * i <= |p|
      invariant hProto == Field16(order, p, vlh - 2)
      invariant forall j :: 0 <= j < i ==> IsVlan(Be16(p, eth + 12 + 4 * j))
    {
      VlanField(order, p, vlh - 2);
      if !ProtoIsVlan(order, hProto) {
        break;
      }
      if vlh + 4 > |p| {
        break;
      }
      hProto := Field16(order, p, vlh + 2);
      vlh := vlh + 4;
      i := i + 1;
    }
    nh.pos := vlh;
    k := i;
    ethType := hProto;
  }

  /** `parse_iphdr`: the protocol number and a cursor past the options, or -1. */
  method ParseIpHdr(nh: Cursor, p: seq<Byte>) returns (protocol: int)
    requires nh.pos <= |p|
    modifies nh
    ensures protocol >= 0 ==> Ipv4(p, old(nh.pos), nh.pos, protocol) && 20 <= nh.pos - old(nh.pos) <= 60
    ensures protocol < 0 ==> nh.pos == old(nh.pos) && forall t: nat, n: int :: !Ipv4(p, nh.pos, t, n)
  {
    var iph := nh.pos;
    if iph + 20 > |p| {
      return -1;
    }
    var hdrsize := (p[iph] as nat % 16) * 4;
    if hdrsize < 20 {
      return -1;
    }
    if nh.pos + hdrsize > |p| {
      return -1;
    }
    nh.pos := nh.pos + hdrsize;
    protocol := p[iph + 9];
  }

  /** `parse_ip6hdr`: the next-header number and a cursor past the fixed header, or -1. */
  method ParseIp6Hdr(nh: Cursor, p: seq<Byte>) returns (nextHdr: int)
    requires nh.pos <= |p|
    modifies nh
    ensures nextHdr >= 0 ==> Ipv6(p, old(nh.pos), nh.pos, nextHdr) && nh.pos == old(nh.pos) + 40
    ensures nextHdr < 0 ==> nh.pos == old(nh.pos) && forall t: nat, n: int :: !Ipv6(p, nh.pos, t, n)
  {
    var ip6h := nh.pos;
    if ip6h + 40 > |p| {
      return -1;
    }
    nh.pos := ip6h + 40;
    nextHdr := p[ip6h + 6];
  }

  /** `parse_tcphdr`: succeeds exactly on a header that lies in the packet. */
  method ParseTcpHdr(nh: Cursor, p: seq<Byte>) returns (len: int)
    requires nh.pos <= |p|
    modifies nh
    ensures len >= 0 <==> TcpHeader(p, old(nh.pos))
    ensures len >= 0 ==> len == 4 * (p[old(nh.pos) + 12] as nat / 16) && 20 <= len <= 60
    ensures len >= 0 ==> nh.pos == old(nh.pos) + len <= |p|
    ensures len < 0 ==> nh.pos == old(nh.pos)
  {
    var h := nh.pos;
    if h + 20 > |p| {
      return -1;
    }
    len := (p[h + 12] as nat / 16) * 4;
    if len < 20 {
      return -1;
    }
    if nh.pos + len > |p| {
      return -1;
    }
    nh.pos := nh.pos + len;
  }

  /** What the two IP parsers conclude about the packet behind the tags. */
  lemma IpDecides(p: seq<Byte>, k: nat, t: nat, isTcp: bool)
    requires Ethernet(p, 0, k)
    requires var e, off := Be16(p, 12 + 4 * k), 14 + 4 * k;
      if isTcp then NetTcp(p, e, off, t) else forall u: nat :: !NetTcp(p, e, off, u)
    ensures isTcp ==> LeadsToTcp(p, t)
    ensures !isTcp ==> HasClass(p, NotTcp)
  {
    if !isTcp {
      forall u: nat ensures !LeadsToTcp(p, u) {
        if LeadsToTcp(p, u) {
          var j: nat :| Ethernet(p, 0, j) && NetTcp(p, Be16(p, 12 + 4 * j), 14 + 4 * j, u);
          TagsUnique(p, 0, j, k);
          assert false;
        }
      }
    }
  }

  /** `parse_iphdr` or `parse_ip6hdr`, as the EtherType says. */
  method ParseNet(order: Order, nh: Cursor, p: seq<Byte>, ethType: nat, ghost k: nat) returns (isTcp: bool)
    requires Ethernet(p, 0, k) && nh.pos == 14 + 4 * k && ethType == Field16(order, p, nh.pos - 2)
    modifies nh
    ensures isTcp ==> LeadsToTcp(p, nh.pos) && nh.pos <= |p|
    ensures !isTcp ==> HasClass(p, NotTcp)
  {
    FieldIs(order, p, nh.pos - 2, ETH_P_IP);
    FieldIs(order, p, nh.pos - 2, ETH_P_IPV6);
    var ipType;
    if ethType == Htons(order, ETH_P_IP) {
      ipType := ParseIpHdr(nh, p);
    } else if ethType == Htons(order, ETH_P_IPV6) {
      ipType := ParseIp6Hdr(nh, p);
    } else {
      IpDecides(p, k, nh.pos, false);
      return false;
    }
    isTcp := ipType == IPPROTO_TCP;
    IpDecides(p, k, nh.pos, isTcp);
  }

  /** The parser chain that both programs contain, for either byte order. */
  method Classify(order: Order, p: seq<Byte>) returns (c: Class)
    ensures HasClass(p, c)
  {
    var nh := new Cursor(0);
    var ethType, k := ParseEthHdr(order, nh, p);
    if ethType < 0 {
      return TooShort;
    }
    var isTcp := ParseNet(order, nh, p, ethType, k);
    if !isTcp {
      return NotTcp;
    }
    var tcp := nh.pos;
    var len := ParseTcpHdr(nh, p);
    if len < 0 {
      return BadTcp;
    }
    FieldIs(order, p, tcp + 2, 0);
    c := Tcp(Htons(order, Field16(order, p, tcp + 2)));
  }

  /**
   * `xdp_sock_prog`: on every packet, queue index, map state and byte order the
   * verdict is the declarative one.
   */
  method XdpSockProg(order: Order, p: seq<Byte>, index: nat, queues: seq<nat>, sockets: map<nat, nat>)
      returns (action: nat)
    ensures action == SockVerdict(p, index, queues, sockets)
    ensures action == 2
       <==> || index >= |queues| || HasClass(p, NotTcp)
            || exists port :: HasClass(p, Tcp(port)) && (port != 7777 || queues[index] == 0)
    ensures action == 0
       <==> && index < |queues|
            && (|| HasClass(p, TooShort) || HasClass(p, BadTcp)
                || (HasClass(p, Tcp(7777)) && queues[index] != 0 && index !in sockets))
    ensures action == 4
       <==> index < |queues| && HasClass(p, Tcp(7777)) && queues[index] != 0 && index in sockets
  {
    forall c ensures HasClass(p, c) <==> c == ClassOf(p) {
      ClassIs(p, c);
    }
    if index >= |queues| {
      return XDP_PASS;
    }
    var qidconf := queues[index];
    action := XDP_PASS;
    var c := Classify(order, p);
    if c.TooShort? || c.BadTcp? {
      return XDP_ABORTED;
    }
    if c == Tcp(KNOCK_PORT) {
      if qidconf != 0 {
        return RedirectMap(sockets, index);
      }
    }
  }

  /** `perf_event_test`: likewise, with the outcome of the ring-buffer output given. */
  method PerfEventTest(order: Order, p: seq<Byte>, outputOk: bool) returns (action: nat, tried: bool, written: bool)
    ensures EventResult(action, tried, written) == EventVerdict(p, outputOk)
    ensures action == 2
       <==> || HasClass(p, NotTcp) || (HasClass(p, Tcp(7777)) && outputOk)
            || exists port :: HasClass(p, Tcp(port)) && port != 7777
    ensures action == 0
       <==> HasClass(p, TooShort) || HasClass(p, BadTcp) || (HasClass(p, Tcp(7777)) && !outputOk)
    ensures tried <==> HasClass(p, Tcp(7777))
    ensures written <==> HasClass(p, Tcp(7777)) && outputOk
  {
    forall c ensures HasClass(p, c) <==> c == ClassOf(p) {
      ClassIs(p, c);
    }
    action, tried, written := XDP_PASS, false, false;
    var c := Classify(order, p);
    if c.TooShort? || c.BadTcp? {
      action := XDP_ABORTED;
      return;
    }
    if c == Tcp(KNOCK_PORT) {
      tried, written := true, outputOk;
      if !outputOk {
        action := XDP_ABORTED;
      }
    }
  }
}
