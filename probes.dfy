/**
 * The probe catalog of the port scanner (port_scanner/port_scanner.py): the
 * fixed payloads it sends, one table per transport, in the tables' order.
 */
module Probes {
  import opened Wrappers
  import opened Bytes
  import opened StructFormat
  import opened NtpHeader

  /** The protocol tags the classifier can return; the catalog keys are the first five. */
  datatype Tag = Dns | Http | Smtp | Pop3 | Ntp | Undefined
  {
    /** The tag as the source spells it. */
    function Name(): string
    {
      match this
      case Dns => "dns"
      case Http => "http"
      case Smtp => "smtp"
      case Pop3 => "pop3"
      case Ntp => "ntp"
      case Undefined => "undefined"
    }
  }

  /**
   * Every name the classifier can return is a non-empty string, so the
   * scanner's test of `protocol` as a truth value separates "some reply
   * was classified" from the initial `""`; and no two tags share a name.
   */
  lemma TagNames(a: Tag, b: Tag)
    ensures a.Name() != ""
    ensures a.Name() == b.Name() <==> a == b
  {
  }

  /** One catalog entry: the key it is stored under and the payload sent. */
  datatype Probe = Probe(protocol: Tag, payload: Bytes)

  /** The fixed DNS transaction identifier (0x5B22). */
  const DnsId: int := 23330

  /** `!H`: one unsigned 16-bit big-endian field. */
  const U16: Format := [Unsigned(2)]

  /** `!HHHHHH`: the DNS header of section 4.1.1 of RFC 1035. */
  const DnsHeaderFormat: Format :=
    [Unsigned(2), Unsigned(2), Unsigned(2), Unsigned(2), Unsigned(2), Unsigned(2)]

  /** The header fields of the query: ID, flags (only RD set), QDCOUNT 1, ANCOUNT, NSCOUNT, ARCOUNT 0. */
  const DnsHeaderValues: seq<int> := [DnsId, 256, 1, 0, 0, 0]

  /** `!BBBb11I`: the 48-byte NTP header the scanner sends and recognises. */
  const NtpFormat: Format :=
    [Unsigned(1), Unsigned(1), Unsigned(1), Signed(1)] + Repeat(Unsigned(4), 11)

  /** The values packed into the NTP probe: LI 0, VN 4, mode 3, then fourteen zeros. */
  const NtpProbeValues: seq<int> := [0x23, 0, 0, 0, 0, 0, 0, 0, 0, 0, 0, 0, 0, 0, 0]

  /** `!BBBb11I` packs into 48 bytes. */
  lemma NtpFormatSize()
    ensures |NtpFormat| == 15 && Size(NtpFormat) == 48
  {
    var head := [Unsigned(1), Unsigned(1), Unsigned(1), Signed(1)];
    SizeAppend(head, Repeat(Unsigned(4), 11));
    SizeRepeat(Unsigned(4), 11);
  }

  /** A domain name as length-prefixed labels ended by the root label (RFC 1035, section 3.1). */
  function EncodeName(labels: seq<string>): (r: Bytes)
    requires forall i :: 0 <= i < |labels| ==> IsAscii(labels[i]) && 1 <= |labels[i]| < 64
  {
    if labels == [] then [0]
    else [|labels[0]| as byte] + Ascii(labels[0]) + EncodeName(labels[1..])
  }

  /** The query header fields fit their 16-bit codes. */
  lemma DnsHeaderPackable()
    ensures Packable(DnsHeaderFormat, DnsHeaderValues)
  {
    PackableAt(DnsHeaderFormat, DnsHeaderValues);
    assert Pow256(2) == 65536 by {
      assert Pow256(1) == 256;
    }
  }

  /** The query header as it goes on the wire. */
  function DnsHeader(): (r: Bytes)
    ensures |r| == 12
  {
    [0x5B, 0x22, 0x01, 0x00, 0x00, 0x01, 0x00, 0x00, 0x00, 0x00, 0x00, 0x00]
  }

  /** `struct.pack('!HHHHHH', DNS_ID, 256, 1, 0, 0, 0)` produces exactly the header, and it unpacks back. */
  lemma DnsHeaderIsPacked()
    ensures Unpack(DnsHeaderFormat, DnsHeader()) == Some(DnsHeaderValues)
    ensures Pack(DnsHeaderFormat, DnsHeaderValues) == Some(DnsHeader())
  {
    DnsHeaderPackable();
    PackSixU16(DnsHeaderFormat, DnsHeaderValues);
    UnpackPack(DnsHeaderFormat, DnsHeaderValues);
  }

  /** Six `H` codes pack their values as twelve bytes, high byte first. */
  lemma PackSixU16(f: Format, v: seq<int>)
    requires |f| == 6 && forall i :: 0 <= i < 6 ==> f[i] == Unsigned(2)
    requires Packable(f, v) && forall i :: 0 <= i < 6 ==> 0 <= v[i] < 65536
    ensures PackBytes(f, v) == [(v[0] / 256) as byte, (v[0] % 256) as byte, (v[1] / 256) as byte, (v[1] % 256) as byte,
                                (v[2] / 256) as byte, (v[2] % 256) as byte, (v[3] / 256) as byte, (v[3] % 256) as byte,
                                (v[4] / 256) as byte, (v[4] % 256) as byte, (v[5] / 256) as byte, (v[5] % 256) as byte]
  {
    PackU16Step(f, v);
    var f1, v1 := f[1..], v[1..];
    PackU16Step(f1, v1);
    var f2, v2 := f1[1..], v1[1..];
    PackU16Step(f2, v2);
    PackThreeU16(f2[1..], v2[1..]);
  }

  /** Three `H` codes pack their values as six bytes, high byte first. */
  lemma PackThreeU16(f: Format, v: seq<int>)
    requires |f| == 3 && f[0] == Unsigned(2) && f[1] == Unsigned(2) && f[2] == Unsigned(2)
    requires Packable(f, v) && 0 <= v[0] < 65536 && 0 <= v[1] < 65536 && 0 <= v[2] < 65536
    ensures PackBytes(f, v) == [(v[0] / 256) as byte, (v[0] % 256) as byte, (v[1] / 256) as byte, (v[1] % 256) as byte,
                                (v[2] / 256) as byte, (v[2] % 256) as byte]
  {
    PackU16Step(f, v);
    var f1, v1 := f[1..], v[1..];
    PackU16Step(f1, v1);
    var f2, v2 := f1[1..], v1[1..];
    PackU16Step(f2, v2);
    assert f2[1..] == [] && v2[1..] == [];
  }

  /** A leading `H` code packs its value as two big-endian bytes. */
  lemma PackU16Step(fmt: Format, vals: seq<int>)
    requires Packable(fmt, vals) && fmt != [] && fmt[0] == Unsigned(2)
    ensures Packable(fmt[1..], vals[1..])
    ensures PackBytes(fmt, vals) == [(vals[0] / 256) as byte, (vals[0] % 256) as byte] + PackBytes(fmt[1..], vals[1..])
  {
    PackBytesUnfold(fmt, vals);
    assert Pow256(2) == 65536 by {
      assert Pow256(1) == 256;
    }
    EncodeU16(vals[0]);
  }

  /** The question of the query: google.com, QTYPE 1 (A), QCLASS 1 (IN). */
  function DnsQuestion(): (r: Bytes)
    ensures |r| == 16
  {
    [0x06] + Ascii("google") + [0x03] + Ascii("com") + [0x00] + [0x00, 0x01, 0x00, 0x01]
  }

  /** The question is the encoded name followed by two 16-bit fields, both 1. */
  lemma DnsQuestionLayout()
    ensures DnsQuestion()[..12] == EncodeName(["google", "com"])
    ensures Unpack([Unsigned(2), Unsigned(2)], DnsQuestion()[12..]) == Some([1, 1])
  {
    var q := DnsQuestion();
    assert q[..12] == [0x06] + Ascii("google") + [0x03] + Ascii("com") + [0x00];
    DnsNameBytes(q[..12]);
    DnsQuestionTail(q[12..]);
  }

  lemma DnsNameBytes(name: Bytes)
    requires name == [0x06] + Ascii("google") + [0x03] + Ascii("com") + [0x00]
    ensures name == EncodeName(["google", "com"])
  {
    assert ["google", "com"][1..] == ["com"];
    assert ["com"][1..] == [];
  }

  lemma DnsQuestionTail(tail: Bytes)
    requires tail == [0x00, 0x01, 0x00, 0x01]
    ensures Unpack([Unsigned(2), Unsigned(2)], tail) == Some([1, 1])
  {
    var f2 := [Unsigned(2), Unsigned(2)];
    assert tail == EncodeField(Unsigned(2), 1) + EncodeField(Unsigned(2), 1) by {
      EncodeU16(1);
    }
    assert Packable(f2, [1, 1]) by {
      PackableAt(f2, [1, 1]);
      assert Pow256(2) == 65536 by {
        assert Pow256(1) == 256;
      }
    }
    PackBytesUnfold(f2, [1, 1]);
    PackBytesUnfold(f2[1..], [1, 1][1..]);
    assert f2[1..][1..] == [] && [1, 1][1..][1..] == [];
    assert PackBytes(f2, [1, 1]) == tail;
    assert Pack(f2, [1, 1]) == Some(tail);
    UnpackPack(f2, [1, 1]);
  }

  /** `DNS_PACKET`: an A/IN query for google.com with ID 23330, as a UDP datagram carries it. */
  function DnsPacket(): (r: Bytes)
    ensures |r| == 28
  {
    DnsHeader() + DnsQuestion()
  }

  /** The query's layout: identifier first, then the header fields, the name, QTYPE and QCLASS. */
  lemma DnsPacketLayout()
    ensures DnsPacket()[..2] == [0x5B, 0x22]
    ensures Unpack(DnsHeaderFormat, DnsPacket()[..12]) == Some(DnsHeaderValues)
    ensures DnsPacket()[12..24] == EncodeName(["google", "com"])
    ensures Unpack([Unsigned(2), Unsigned(2)], DnsPacket()[24..]) == Some([1, 1])
  {
    DnsHeaderIsPacked();
    DnsQuestionLayout();
    HeaderQuestionSplit(DnsHeader(), DnsQuestion());
  }

  lemma HeaderQuestionSplit(h: Bytes, q: Bytes)
    requires |h| == 12 && |q| == 16
    ensures (h + q)[..2] == h[..2] && (h + q)[..12] == h
    ensures (h + q)[12..24] == q[..12] && (h + q)[24..] == q[12..]
  {
  }

  /** Every value below 65536 fits `!H`. */
  lemma U16Packable(v: int)
    requires 0 <= v < 65536
    ensures Packable(U16, [v])
  {
    assert Pow256(2) == 65536 by {
      assert Pow256(1) == 256;
    }
  }

  /** The DNS query over TCP: a 16-bit length prefix then the datagram (RFC 1035, section 4.2.2). */
  function TcpDnsPacket(): (r: Bytes)
    ensures |r| == 30
  {
    [0x00, 0x1C] + DnsPacket()
  }

  /** The prefix is `struct.pack('!H', len(DNS_PACKET))`: it unpacks to the length of what follows it. */
  lemma TcpDnsPacketLayout()
    ensures Pack(U16, [|DnsPacket()|]) == Some(TcpDnsPacket()[..2])
    ensures Unpack(U16, TcpDnsPacket()[..2]) == Some([|TcpDnsPacket()| - 2])
    ensures TcpDnsPacket()[2..] == DnsPacket()
  {
    var d := DnsPacket();
    U16Packable(|d|);
    PackBytesUnfold(U16, [|d|]);
    EncodeU16(|d|);
    assert PackBytes(U16, [|d|]) == [0x00, 0x1C];
    UnpackPack(U16, [|d|]);
    PrefixSplit([0x00, 0x1C], d);
  }

  lemma PrefixSplit(prefix: Bytes, d: Bytes)
    requires |prefix| == 2
    ensures (prefix + d)[..2] == prefix && (prefix + d)[2..] == d
  {
  }

  /** `NTP_PACKET`: a version-4 client request, every field after the first octet zero. */
  function NtpPacket(): (r: Bytes)
    ensures |r| == 48
  {
    [0x23] + Zeros(47)
  }

  /** The first octet says leap indicator 0, version 4, client mode. */
  lemma NtpPacketHeader()
    ensures NtpPacket()[0] == FirstOctet(0, 4, ClientMode)
  {
  }

  /** `struct.pack('!BBBb11I', 0b00100011, *([0]*14))` produces exactly the request, and it unpacks back. */
  lemma NtpPacketIsPacked()
    ensures Pack(NtpFormat, NtpProbeValues) == Some(NtpPacket())
    ensures Unpack(NtpFormat, NtpPacket()) == Some(NtpProbeValues)
  {
    NtpProbePackable();
    NtpPacketBytes(PackBytes(NtpFormat, NtpProbeValues));
    UnpackPack(NtpFormat, NtpProbeValues);
  }

  lemma NtpProbePackable()
    ensures Packable(NtpFormat, NtpProbeValues)
  {
    NtpFormatSize();
    PackZeros(NtpFormat[1..]);
    assert NtpProbeValues[1..] == seq(|NtpFormat[1..]|, _ => 0);
  }

  lemma NtpPacketBytes(r: Bytes)
    requires Packable(NtpFormat, NtpProbeValues)
    requires r == PackBytes(NtpFormat, NtpProbeValues)
    ensures r == NtpPacket()
  {
    NtpFormatSize();
    PackBytesUnfold(NtpFormat, NtpProbeValues);
    PackZeros(NtpFormat[1..]);
    assert NtpProbeValues[1..] == seq(|NtpFormat[1..]|, _ => 0);
    assert EncodeField(Unsigned(1), 0x23) == [0x23];
  }

  /** `HTTP_PACKET`: a minimal HTTP/1.1 request for the root of google.com. */
  function HttpPacket(): (r: Bytes)
    ensures |r| == 36
  {
    Ascii("GET / HTTP/1.1\r\nHost: google.com\r\n\r\n")
  }

  /** `SMTP_PACKET`: an arbitrary line; a server's numeric reply code is what gets recognised. */
  function SmtpPacket(): (r: Bytes)
    ensures |r| == 12
  {
    Ascii("Mock message")
  }

  /** `POP3_PACKET`: a bare AUTH command; a `+OK`/`-ERR` status is what gets recognised. */
  function Pop3Packet(): (r: Bytes)
    ensures |r| == 4
  {
    Ascii("AUTH")
  }

  /** `TCP_PACKETS`, in insertion order. */
  function TcpPackets(): seq<Probe>
  {
    [Probe(Dns, TcpDnsPacket()), Probe(Http, HttpPacket()), Probe(Smtp, SmtpPacket()), Probe(Pop3, Pop3Packet())]
  }

  /** `UDP_PACKETS`, in insertion order. */
  function UdpPackets(): seq<Probe>
  {
    [Probe(Dns, DnsPacket()), Probe(Ntp, NtpPacket())]
  }
}
