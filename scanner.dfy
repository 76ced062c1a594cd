/**
 * The scanning loop of port_scanner/port_scanner.py: every probe of a
 * transport's catalog is tried on a port over a fresh socket, the reply to
 * the last probe that got one decides the protocol, and an answered port is
 * appended to the scanner's list for that transport.
 */
module Scanner {
  import opened Wrappers
  import opened Bytes
  import opened Probes
  import opened Classifier

  datatype Transport = Tcp | Udp

  /** The socket errors the scanner catches and skips. */
  datatype FailureKind = ConnectionReset | ConnectionRefused | PermissionDenied | Timeout

  /** What one probe exchange produced: an error that was caught, or the bytes received. */
  datatype Attempt = NoResponse(reason: FailureKind) | Received(data: Bytes)

  /**
   * The network as seen by one exchange: host, transport, port and payload
   * determine what comes back on a fresh socket.
   */
  type Network = (string, Transport, int, Bytes) -> Attempt

  /** An entry of `open_tcp_ports` / `open_udp_ports`: the port and the protocol name. */
  datatype Finding = Finding(port: int, protocol: Tag)

  /** The outcome of each probe, in catalog order. */
  function Attempts(net: Network, host: string, t: Transport, port: int, probes: seq<Probe>): (r: seq<Attempt>)
    ensures |r| == |probes|
    ensures forall i :: 0 <= i < |probes| ==> r[i] == net(host, t, port, probes[i].payload)
  {
    seq(|probes|, i requires 0 <= i < |probes| => net(host, t, port, probes[i].payload))
  }

  /** The classification of the last reply, or nothing when no probe was answered. */
  function LastAnswer(attempts: seq<Attempt>): Option<Tag>
  {
    if attempts == [] then None
    else match attempts[|attempts| - 1]
      case Received(data) => Some(CheckProtocol(data))
      case NoResponse(_) => LastAnswer(attempts[..|attempts| - 1])
  }

  /** No protocol exactly when no probe got a reply. */
  lemma {:induction false} LastAnswerNone(attempts: seq<Attempt>)
    ensures LastAnswer(attempts) == None <==> forall i :: 0 <= i < |attempts| ==> attempts[i].NoResponse?
  {
    if attempts != [] {
      var init := attempts[..|attempts| - 1];
      LastAnswerNone(init);
      assert forall i :: 0 <= i < |init| ==> init[i] == attempts[i];
    }
  }

  /** A reply followed only by failures decides the protocol: later answers override earlier ones. */
  lemma {:induction false} LastAnswerIsLastReply(attempts: seq<Attempt>, i: nat)
    requires LastReplyAt(attempts, i)
    ensures LastAnswer(attempts) == Some(CheckProtocol(attempts[i].data))
  {
    if i < |attempts| - 1 {
      var init := attempts[..|attempts| - 1];
      LastAnswerIsLastReply(init, i);
    }
  }

  /** Probe `i` was answered and no later probe was. */
  predicate LastReplyAt(attempts: seq<Attempt>, i: int)
  {
    0 <= i < |attempts| && attempts[i].Received?
    && forall j :: i < j < |attempts| ==> attempts[j].NoResponse?
  }

  /** Any protocol reported is the classification of a reply that no later reply overrides. */
  lemma {:induction false} LastAnswerWitness(attempts: seq<Attempt>)
    requires LastAnswer(attempts).Some?
    ensures exists i :: LastReplyAt(attempts, i) && LastAnswer(attempts) == Some(CheckProtocol(attempts[i].data))
  {
    var n := |attempts|;
    if attempts[n - 1].Received? {
      assert LastReplyAt(attempts, n - 1);
    } else {
      var init := attempts[..n - 1];
      LastAnswerWitness(init);
      var i :| LastReplyAt(init, i) && LastAnswer(init) == Some(CheckProtocol(init[i].data));
      assert attempts[i] == init[i];
      assert LastReplyAt(attempts, i);
    }
  }

  /**
   * The loop of `scan_tcp_port` / `scan_udp_port`: one exchange per probe,
   * a reply replaces whatever protocol an earlier reply gave.
   */
  method ProbePort(net: Network, host: string, t: Transport, port: int, probes: seq<Probe>)
    returns (protocol: Option<Tag>)
    ensures protocol == LastAnswer(Attempts(net, host, t, port, probes))
  {
    protocol := None;
    var i := 0;
    while i < |probes|
      invariant 0 <= i <= |probes|
      invariant protocol == LastAnswer(Attempts(net, host, t, port, probes[..i]))
    {
      var attempt := net(host, t, port, probes[i].payload);
      match attempt {
        case Received(data) =>
          protocol := Some(CheckProtocol(data));
        case NoResponse(_) =>
      }
      AttemptsStep(net, host, t, port, probes, i);
      i := i + 1;
    }
    assert probes[..i] == probes;
  }

  lemma AttemptsStep(net: Network, host: string, t: Transport, port: int, probes: seq<Probe>, i: nat)
    requires i < |probes|
    ensures Attempts(net, host, t, port, probes[..i + 1])
      == Attempts(net, host, t, port, probes[..i]) + [net(host, t, port, probes[i].payload)]
  {
    var a := Attempts(net, host, t, port, probes[..i + 1]);
    assert a == Attempts(net, host, t, port, probes[..i]) + [net(host, t, port, probes[i].payload)];
  }

  /** What one port contributes to a transport's list: one finding when some probe was answered. */
  function PortFinding(net: Network, host: string, t: Transport, probes: seq<Probe>, port: int): seq<Finding>
  {
    match LastAnswer(Attempts(net, host, t, port, probes))
    case None => []
    case Some(tag) => [Finding(port, tag)]
  }

  /** The findings for the ports `lo..hi`, in ascending order. */
  function PortFindings(net: Network, host: string, t: Transport, probes: seq<Probe>, lo: int, hi: int): seq<Finding>
    decreases hi - lo
  {
    if hi < lo then [] else PortFindings(net, host, t, probes, lo, hi - 1) + PortFinding(net, host, t, probes, hi)
  }

  /** Scanning one more port appends that port's finding. */
  lemma FindingsStep(net: Network, host: string, t: Transport, probes: seq<Probe>, lo: int, hi: int,
                      prefix: seq<Finding>)
    requires lo <= hi
    ensures prefix + PortFindings(net, host, t, probes, lo, hi)
      == prefix + PortFindings(net, host, t, probes, lo, hi - 1) + PortFinding(net, host, t, probes, hi)
  {
  }

  /** Every finding lies in the scanned range and the ports are strictly ascending, hence distinct. */
  lemma {:induction false} FindingsOrdered(net: Network, host: string, t: Transport, probes: seq<Probe>, lo: int, hi: int)
    ensures forall k :: 0 <= k < |PortFindings(net, host, t, probes, lo, hi)| ==>
      lo <= PortFindings(net, host, t, probes, lo, hi)[k].port <= hi
    ensures forall k, m :: 0 <= k < m < |PortFindings(net, host, t, probes, lo, hi)| ==>
      PortFindings(net, host, t, probes, lo, hi)[k].port < PortFindings(net, host, t, probes, lo, hi)[m].port
    decreases hi - lo
  {
    if lo <= hi {
      FindingsOrdered(net, host, t, probes, lo, hi - 1);
    }
  }

  /** A port is reported with a protocol exactly when it is in range and its last reply is classified so. */
  lemma {:induction false} FindingsComplete(net: Network, host: string, t: Transport, probes: seq<Probe>,
                                            lo: int, hi: int, port: int, tag: Tag)
    ensures Finding(port, tag) in PortFindings(net, host, t, probes, lo, hi) <==>
      lo <= port <= hi && LastAnswer(Attempts(net, host, t, port, probes)) == Some(tag)
    decreases hi - lo
  {
    if lo <= hi {
      FindingsComplete(net, host, t, probes, lo, hi - 1, port, tag);
      if port == hi {
        FindingsOrdered(net, host, t, probes, lo, hi - 1);
      }
    }
  }

  /** At most one finding per scanned port. */
  lemma {:induction false} FindingsCount(net: Network, host: string, t: Transport, probes: seq<Probe>, lo: int, hi: int)
    requires lo <= hi + 1
    ensures |PortFindings(net, host, t, probes, lo, hi)| <= hi - lo + 1
    decreases hi - lo
  {
    if lo <= hi {
      FindingsCount(net, host, t, probes, lo, hi - 1);
    }
  }

  /**
   * `PortScanner`: the target and range it was built with, the two lists it
   * fills, and (as fields, fixed at construction) the module's two probe tables.
   */
  class PortScanner {
    const target: string
    const start: int
    const end: int
    const tcpPackets: seq<Probe>
    const udpPackets: seq<Probe>
    var openTcpPorts: seq<Finding>
    var openUdpPorts: seq<Finding>

    constructor(target: string, start: int, end: int)
      ensures this.target == target && this.start == start && this.end == end
      ensures openTcpPorts == [] && openUdpPorts == []
      ensures tcpPackets == TcpPackets() && udpPackets == UdpPackets()
    {
      this.target := target;
      this.start := start;
      this.end := end;
      tcpPackets := TcpPackets();
      udpPackets := UdpPackets();
      openTcpPorts := [];
      openUdpPorts := [];
    }

    /** `scan_tcp_port`: appends at most one TCP finding for `port`. */
    method ScanTcpPort(net: Network, port: int)
      modifies this
      ensures openTcpPorts == old(openTcpPorts) + PortFinding(net, target, Tcp, tcpPackets, port)
      ensures openUdpPorts == old(openUdpPorts)
    {
      var protocol := ProbePort(net, target, Tcp, port, tcpPackets);
      if protocol.Some? {
        openTcpPorts := openTcpPorts + [Finding(port, protocol.value)];
      }
    }

    /** `scan_udp_port`: appends at most one UDP finding for `port`. */
    method ScanUdpPort(net: Network, port: int)
      modifies this
      ensures openUdpPorts == old(openUdpPorts) + PortFinding(net, target, Udp, udpPackets, port)
      ensures openTcpPorts == old(openTcpPorts)
    {
      var protocol := ProbePort(net, target, Udp, port, udpPackets);
      if protocol.Some? {
        openUdpPorts := openUdpPorts + [Finding(port, protocol.value)];
      }
    }

    /** `scan_ports`: both scans of every port of `start..end`, one port after another. */
    method ScanPorts(net: Network)
      modifies this
      ensures openTcpPorts == old(openTcpPorts) + PortFindings(net, target, Tcp, tcpPackets, start, end)
      ensures openUdpPorts == old(openUdpPorts) + PortFindings(net, target, Udp, udpPackets, start, end)
    {
      var port := start;
      while port <= end
        invariant port == start || start <= port <= end + 1
        invariant openTcpPorts == old(openTcpPorts) + PortFindings(net, target, Tcp, tcpPackets, start, port - 1)
        invariant openUdpPorts == old(openUdpPorts) + PortFindings(net, target, Udp, udpPackets, start, port - 1)
        decreases end - port
      {
        ScanTcpPort(net, port);
        ScanUdpPort(net, port);
        FindingsStep(net, target, Tcp, tcpPackets, start, port, old(openTcpPorts));
        FindingsStep(net, target, Udp, udpPackets, start, port, old(openUdpPorts));
        port := port + 1;
      }
      if end < start {
        assert PortFindings(net, target, Tcp, tcpPackets, start, end) == [];
        assert PortFindings(net, target, Udp, udpPackets, start, end) == [];
      }
    }
  }

  datatype ScanError = InvalidArguments | InvalidHostname

  /** The two lists `main` prints, TCP first. */
  datatype ScanReport = ScanReport(tcp: seq<Finding>, udp: seq<Finding>)

  /**
   * `main` after argument parsing: the range check, the hostname check
   * (its outcome is a parameter), then one full scan.
   */
  method Run(net: Network, hostname: string, start: int, end: int, hostnameResolves: bool)
    returns (r: Result<ScanReport, ScanError>)
    ensures r == Failure(InvalidArguments) <==> start < 1 || end > 65535 || end < start
    ensures r == Failure(InvalidHostname) <==> 1 <= start <= end <= 65535 && !hostnameResolves
    ensures r.Success? ==> r.value == ScanReport(PortFindings(net, hostname, Tcp, TcpPackets(), start, end),
                                                  PortFindings(net, hostname, Udp, UdpPackets(), start, end))
  {
    if start < 1 || end > 65535 || end < start {
      return Failure(InvalidArguments);
    }
    if !hostnameResolves {
      return Failure(InvalidHostname);
    }
    var scanner := new PortScanner(hostname, start, end);
    scanner.ScanPorts(net);
    return Success(ScanReport(scanner.openTcpPorts, scanner.openUdpPorts));
  }
}
