/**
 * `PortScanner.check_protocol` (port_scanner/port_scanner.py): the reply
 * bytes are compared with five signatures in a fixed order and the first
 * one that matches names the protocol.
 */
module Classifier {
  import opened Wrappers
  import opened Bytes
  import opened StructFormat
  import opened Probes

  /** The transaction identifier as it travels. */
  function DnsMarker(): (r: Bytes)
    ensures |r| == 2
  {
    [0x5B, 0x22]
  }

  /** The marker is `struct.pack('!H', DNS_ID)`. */
  lemma DnsMarkerIsPacked()
    ensures Pack(U16, [DnsId]) == Some(DnsMarker())
  {
    U16Packable(DnsId);
    PackBytesUnfold(U16, [DnsId]);
    EncodeU16(DnsId);
    assert U16[1..] == [] && [DnsId][1..] == [];
    assert PackBytes(U16, [DnsId]) == [0x5B, 0x22];
  }

  /** Python's `data[:n]`: at most the first `n` bytes. */
  function Head(data: Bytes, n: nat): (r: Bytes)
    ensures |r| == if |data| < n then |data| else n
    ensures r == data[..|r|]
  {
    if |data| <= n then data else data[..n]
  }

  predicate IsDigitByte(b: byte)
  {
    0x30 <= b <= 0x39
  }

  /** `re.match(b'[0-9]{3}', s)`: three ASCII digits at the start of `s`. */
  predicate MatchThreeDigits(s: Bytes)
  {
    |s| >= 3 && IsDigitByte(s[0]) && IsDigitByte(s[1]) && IsDigitByte(s[2])
  }

  /** The identifier's two bytes, adjacent, at position `i`. */
  predicate DnsIdAt(p: Bytes, i: int)
  {
    0 <= i && i + 1 < |p| && p[i] == 0x5B && p[i + 1] == 0x22
  }

  /** The five signatures, stated on bytes, independently of the helpers the classifier calls. */
  predicate HasDnsId(p: Bytes) { exists i | 0 <= i < |p| :: DnsIdAt(p, i) }
  predicate HttpStatusLine(p: Bytes) { |p| >= 4 && p[0] == 0x48 && p[1] == 0x54 && p[2] == 0x54 && p[3] == 0x50 }
  predicate ReplyCode(p: Bytes) { |p| >= 3 && IsDigitByte(p[0]) && IsDigitByte(p[1]) && IsDigitByte(p[2]) }
  predicate PositiveStatus(p: Bytes) { |p| >= 1 && p[0] == 0x2B }
  predicate NtpSized(p: Bytes) { |p| == 48 }

  lemma DnsMarkerOccurs(p: Bytes)
    ensures Contains(p, DnsMarker()) <==> HasDnsId(p)
  {
    var m := DnsMarker();
    if Contains(p, m) {
      var i :| OccursAt(p, m, i);
      assert p[i..i + 2][0] == p[i] && p[i..i + 2][1] == p[i + 1];
      assert DnsIdAt(p, i);
    }
    if HasDnsId(p) {
      var i :| 0 <= i < |p| && DnsIdAt(p, i);
      assert p[i..i + 2] == [p[i], p[i + 1]];
      assert OccursAt(p, m, i);
    }
  }

  /** `check_protocol`: the first signature that matches, in the order dns, http, smtp, pop3, ntp. */
  function CheckProtocol(packet: Bytes): Tag
  {
    if Contains(packet, DnsMarker()) then Dns
    else if StartsWith(packet, Ascii("HTTP")) then Http
    else if MatchThreeDigits(Head(packet, 3)) then Smtp
    else if StartsWith(packet, Ascii("+")) then Pop3
    else if Unpack(NtpFormat, packet).Some? then Ntp
    else Undefined
  }

  /**
   * The classification stated on the bytes alone: each protocol is reported
   * exactly when its signature is present and no earlier signature is.
   */
  lemma {:induction false} CheckProtocolSignatures(packet: Bytes)
    ensures CheckProtocol(packet) == Dns <==> HasDnsId(packet)
    ensures CheckProtocol(packet) == Http <==> !HasDnsId(packet) && HttpStatusLine(packet)
    ensures CheckProtocol(packet) == Smtp <==>
      !HasDnsId(packet) && !HttpStatusLine(packet) && ReplyCode(packet)
    ensures CheckProtocol(packet) == Pop3 <==>
      !HasDnsId(packet) && !HttpStatusLine(packet) && !ReplyCode(packet) && PositiveStatus(packet)
    ensures CheckProtocol(packet) == Ntp <==>
      !HasDnsId(packet) && !HttpStatusLine(packet) && !ReplyCode(packet) && !PositiveStatus(packet)
      && NtpSized(packet)
    ensures CheckProtocol(packet) == Undefined <==>
      !HasDnsId(packet) && !HttpStatusLine(packet) && !ReplyCode(packet) && !PositiveStatus(packet)
      && !NtpSized(packet)
  {
    DnsMarkerOccurs(packet);
    NtpFormatSize();
  }

  /** An empty reply (the peer closed without sending) is still classified, as undefined. */
  lemma {:induction false} EmptyReplyUndefined()
    ensures CheckProtocol([]) == Undefined
  {
    CheckProtocolSignatures([]);
  }

  /** Any DNS reply that echoes the query's identifier is recognised as DNS, whatever else it holds. */
  lemma {:induction false} EchoedIdIsDns(p: Bytes)
    requires |p| >= 2 && p[0] == 0x5B && p[1] == 0x22
    ensures CheckProtocol(p) == Dns
  {
    assert DnsIdAt(p, 0);
    CheckProtocolSignatures(p);
  }

  /** The identifier wins over every later signature: an HTTP reply carrying 0x5B22 is reported as DNS. */
  lemma {:induction false} DnsShadowsHttp(p: Bytes, i: nat)
    requires HttpStatusLine(p) && DnsIdAt(p, i)
    ensures CheckProtocol(p) == Dns
  {
    CheckProtocolSignatures(p);
  }

  /** The scanner's own DNS queries, echoed back, are recognised as DNS. */
  lemma {:induction false} DnsProbesClassify()
    ensures CheckProtocol(DnsPacket()) == Dns
    ensures CheckProtocol(TcpDnsPacket()) == Dns
  {
    DnsPacketLayout();
    EchoedIdIsDns(DnsPacket());
    TcpDnsPacketLayout();
    var t := TcpDnsPacket();
    assert t[2..][0] == t[2] && t[2..][1] == t[3];
    assert DnsIdAt(t, 2);
    CheckProtocolSignatures(t);
  }

  /** The scanner's own NTP request, echoed back, is recognised as NTP. */
  lemma {:induction false} NtpProbeClassifies()
    ensures CheckProtocol(NtpPacket()) == Ntp
  {
    var n := NtpPacket();
    forall i | 0 <= i < |n|
      ensures !DnsIdAt(n, i)
    {
      if i == 0 {
        assert n[1] == 0;
      } else {
        assert n[i] == 0;
      }
    }
    CheckProtocolSignatures(n);
  }

  /** Any reply of exactly 48 bytes gets a protocol name: NTP at the latest. */
  lemma {:induction false} FortyEightBytesNeverUndefined(p: Bytes)
    requires |p| == 48
    ensures CheckProtocol(p) != Undefined
  {
    CheckProtocolSignatures(p);
  }
}
