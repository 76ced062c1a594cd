# Network tools: probe packets, protocol classification, SNTP replies, route extraction

This project models in Dafny the computational core of three small network tools.

**Port scanner.** It sends a fixed catalog of probe packets to every port of a range:
- TCP probes: DNS (with its length prefix), HTTP, SMTP, POP3.
- UDP probes: DNS, NTP.

Each reply is classified by an ordered list of byte signatures. An answered port is recorded with the protocol of the last reply it gave.

**SNTP server.** It unpacks a 48-byte request with the layout `!BBBBIIIQQQQ` and packs a server reply. The reply:
- copies the request's transmit timestamp;
- stamps two readings of a shifted clock.

**Traceroute wrapper.** It reads the lines of `tracert` output:
- takes the first IPv4-looking address of each line;
- notices lines with three asterisks;
- reshapes the address list into a route that ends at the destination.

Modules, one per file:
- `wrappers.dfy`: `Option` and `Result`.
- `bytes.dfy`: bytes and the big-endian integer encoding.
- `struct_format.dfy`: Python's `struct.pack` and `struct.unpack` for the integer codes `B`, `b`, `H`, `I` and `Q` in network order.
  - A size mismatch or a value that does not fit is the `None` that stands for `struct.error`.
  - It proves both round trips, and where each field sits in a packed buffer.
- `ntp_header.dfy`: the first NTP octet (leap indicator, version, mode) of section 4 of RFC 4330.
- `probes.dfy`: the probe catalog.
  - The packets are defined by their bytes.
  - Lemmas prove that those bytes are exactly what the source's `struct.pack` expressions produce, and that they unpack back to the packed values.
- `classifier.dfy`: `check_protocol`.
- `scanner.dfy`:
  - the per-port probing loop;
  - the `PortScanner` class with its two result lists;
  - the sequential scan of a range;
  - the argument checks of `main`.
- `sntp.dfy`: `create_packet` and `calculate_time`.
- `trace_regex.dfy`: `IP_REGEX` and `TIMEOUT_REGEX` as scanning functions, proved equal to declarative descriptions of what the patterns match.
- `tracer.dfy`: the collecting loop of `trace`, the route reshaping, and the argument check of `main`.
- `interplay.dfy`: how the scanner classifies the SNTP server's replies.

## Model

| member | source | states |
|---|---|---|
| Bytes.FromToBigEndian | sntp/sntp.py:38-43 | a value below 256^n, written as n big-endian bytes and read back, is the same value |
| Bytes.ToFromBigEndian | sntp/sntp.py:38-43 | bytes read as a big-endian number and written back at the same width are the same bytes |
| Bytes.ToBigEndianShift | sntp/sntp.py:52 | a value times 256^k, written on n+k bytes, is the value on n bytes followed by k zero bytes |
| Bytes.ZeroBigEndian | sntp/sntp.py:40 | zero written big-endian is all zero bytes |
| Bytes.ZeroFromBigEndian | port_scanner/port_scanner.py:11 | a field read as a big-endian number is zero exactly when every one of its bytes is zero, as in the zero fields of the NTP probe |
| Bytes.Contains | port_scanner/port_scanner.py:41 | `needle in data` holds exactly when the needle occurs contiguously at some index of the data |
| StructFormat.DecodeEncodeField | sntp/sntp.py:15 | decoding the encoding of a value that fits its code gives the value back, for signed and unsigned codes |
| StructFormat.EncodeDecodeField | sntp/sntp.py:15 | encoding the decoding of a field's bytes gives the bytes back |
| StructFormat.EncodeU16 | port_scanner/port_scanner.py:9 | an `H` field is the value's high byte followed by its low byte |
| StructFormat.Pack | sntp/sntp.py:39-43 | `pack` succeeds exactly when there is one value per code and each fits its code; its output then has `calcsize` bytes |
| StructFormat.PackableAt | sntp/sntp.py:39-43 | the success condition of `pack` is the element-wise fit check |
| StructFormat.Unpack | sntp/sntp.py:38 | `unpack` succeeds exactly when the buffer has `calcsize` bytes, and the values it returns fit their codes |
| StructFormat.UnpackPack | sntp/sntp.py:38-43 | unpacking a packed buffer gives back the packed values |
| StructFormat.PackUnpack | sntp/sntp.py:38-43 | packing the unpacked values gives back the buffer |
| StructFormat.PackZeros | port_scanner/port_scanner.py:11 | packing zeros gives zero bytes, for any format |
| StructFormat.SizeRepeat | sntp/sntp.py:15 | a repeat count such as `11I` takes the count times the code's width |
| StructFormat.SizeAppend | sntp/sntp.py:15 | the size of two formats in a row is the sum of their sizes |
| StructFormat.OffsetNext | sntp/sntp.py:15 | each field starts where the previous one ends |
| StructFormat.PackFieldAt | sntp/sntp.py:39-43 | in a packed buffer, field i occupies the bytes from its offset on and holds the encoding of value i |
| StructFormat.UnpackFieldAt | sntp/sntp.py:38 | unpacked value i is the decoding of the bytes at field i's offset |
| NtpHeader.FirstOctet | sntp/sntp.py:40 | the octet built from leap indicator, version and mode yields those three sub-fields back |
| Probes.TagNames | port_scanner/port_scanner.py:39-56 | every protocol name the classifier returns is non-empty, so `if protocol:` is true exactly after a reply was classified; distinct tags have distinct names |
| Probes.NtpFormatSize | port_scanner/port_scanner.py:11 | `!BBBb11I` has 15 codes and packs into 48 bytes |
| Probes.DnsHeaderPackable | port_scanner/port_scanner.py:9 | the six DNS header values fit their 16-bit codes |
| Probes.DnsHeaderIsPacked | port_scanner/port_scanner.py:8-9 | `pack('!HHHHHH', 23330, 256, 1, 0, 0, 0)` is exactly the 12 header bytes, and they unpack to those values |
| Probes.DnsQuestionLayout | port_scanner/port_scanner.py:10 | the question is the encoded name google.com (RFC 1035, section 3.1) followed by QTYPE 1 and QCLASS 1 |
| Probes.DnsPacket | port_scanner/port_scanner.py:9-10 | the UDP DNS query is 28 bytes |
| Probes.DnsPacketLayout | port_scanner/port_scanner.py:8-10 | the query starts with 0x5B 0x22; its first 12 bytes unpack to the header values; then come the name, QTYPE 1 and QCLASS 1 |
| Probes.TcpDnsPacket | port_scanner/port_scanner.py:17 | the TCP DNS probe is 30 bytes |
| Probes.TcpDnsPacketLayout | port_scanner/port_scanner.py:17 | the TCP probe is `pack('!H', len(DNS_PACKET))` followed by the UDP query; the prefix unpacks to the length of what follows it |
| Probes.NtpPacket | port_scanner/port_scanner.py:11 | the NTP probe is 48 bytes |
| Probes.NtpPacketHeader | port_scanner/port_scanner.py:11 | the first octet of the NTP probe says leap indicator 0, version 4, client mode |
| Probes.NtpPacketIsPacked | port_scanner/port_scanner.py:11 | `pack('!BBBb11I', 0b00100011, 0, ..., 0)` is exactly the NTP probe (0x23 then 47 zero bytes), and it unpacks back to those values |
| Classifier.DnsMarkerIsPacked | port_scanner/port_scanner.py:41 | `pack('!H', DNS_ID)` is the two bytes 0x5B 0x22 |
| Classifier.Head | port_scanner/port_scanner.py:45 | `packet[:3]` is the first min(3, length) bytes of the packet |
| Classifier.DnsMarkerOccurs | port_scanner/port_scanner.py:41 | the marker is in the packet exactly when 0x5B and 0x22 stand side by side somewhere in it |
| Classifier.CheckProtocolSignatures | port_scanner/port_scanner.py:39-56 | each of the six tags is returned exactly when its signature holds and no earlier one does. The order is: the 0x5B22 pair anywhere; `HTTP` at the start; three ASCII digits at the start; `+` at the start; exactly 48 bytes; otherwise undefined |
| Classifier.EmptyReplyUndefined | port_scanner/port_scanner.py:39-56 | an empty reply is classified undefined |
| Classifier.EchoedIdIsDns | port_scanner/port_scanner.py:41-42 | any reply starting with the query identifier is classified dns |
| Classifier.DnsShadowsHttp | port_scanner/port_scanner.py:41-44 | an HTTP status line that contains 0x5B22 is classified dns |
| Classifier.DnsProbesClassify | port_scanner/port_scanner.py:41-42 | both DNS probes, echoed back, are classified dns |
| Classifier.NtpProbeClassifies | port_scanner/port_scanner.py:50-52 | the NTP probe, echoed back, is classified ntp |
| Classifier.FortyEightBytesNeverUndefined | port_scanner/port_scanner.py:50-56 | every 48-byte reply gets a protocol other than undefined |
| Scanner.LastAnswerNone | port_scanner/port_scanner.py:74-75 | no protocol exactly when every exchange ended in a caught error; an empty reply still counts as an answer |
| Scanner.LastAnswerIsLastReply | port_scanner/port_scanner.py:62-72 | when probe i was answered and no later probe was, the protocol is the classification of reply i |
| Scanner.LastAnswerWitness | port_scanner/port_scanner.py:62-72 | any protocol reported is the classification of an answered probe that no later answer overrides |
| Scanner.ProbePort | port_scanner/port_scanner.py:60-72 | each probe of the catalog is sent once, in catalog order, on a fresh exchange; afterwards `protocol` holds the classification of the last reply, or nothing when no probe was answered |
| Scanner.FindingsOrdered | port_scanner/port_scanner.py:99-104 | every finding's port lies in start..end, and ports strictly ascend, so none appears twice |
| Scanner.FindingsComplete | port_scanner/port_scanner.py:99-104 | (port, tag) is recorded exactly when the port is in range and its last answer is classified as tag |
| Scanner.FindingsCount | port_scanner/port_scanner.py:99-104 | a scan of a range records at most one finding per port |
| Scanner.FindingsStep | port_scanner/port_scanner.py:99-104 | scanning one more port appends that port's finding |
| Scanner.PortScanner.constructor | port_scanner/port_scanner.py:32-37 | the scanner keeps target and range and starts with two empty lists |
| Scanner.PortScanner.ScanTcpPort | port_scanner/port_scanner.py:58-75 | appends at most one finding for the port, to the TCP list only, with the TCP catalog's last answer; the UDP list is unchanged |
| Scanner.PortScanner.ScanUdpPort | port_scanner/port_scanner.py:77-93 | appends at most one finding for the port, to the UDP list only, with the UDP catalog's last answer; the TCP list is unchanged |
| Scanner.PortScanner.ScanPorts | port_scanner/port_scanner.py:95-108 | both lists grow by the findings of every port of start..end, in port order |
| Scanner.Run | port_scanner/port_scanner.py:122-137 | start < 1, end > 65535 or end < start is rejected; otherwise an unresolvable hostname is rejected; otherwise the report is the findings of the whole range for each transport |
| Sntp.PacketLayout | sntp/sntp.py:15 | `!BBBBIIIQQQQ` has 11 codes and 48 bytes; the originate, receive and transmit timestamps sit at bytes 24, 32 and 40 |
| Sntp.CalculateTime | sntp/sntp.py:46-52 | the timestamp's upper 32 bits are Unix time + 2208988800 + shift, and its fraction is zero |
| Sntp.TimestampFits | sntp/sntp.py:15 | a stamped time fits `Q` exactly when its seconds lie in 0 .. 2^32-1 |
| Sntp.CreatePacketOutcome | sntp/sntp.py:29-44 | a request is malformed exactly when it is not 48 bytes; a reply is produced exactly when the request is 48 bytes and both clock readings fit the NTP era |
| Sntp.ReplyPacked | sntp/sntp.py:39-43 | a reply is the packing of the server header values, the copied timestamp and the two stamped times |
| Sntp.ReplyDecodes | sntp/sntp.py:39-43 | a reply is 48 bytes and unpacks, with the same layout, to exactly the packed values |
| Sntp.ReplyOriginate | sntp/sntp.py:41 | reply bytes 24..32 equal request bytes 40..48 |
| Sntp.StampedBytes | sntp/sntp.py:52 | a stamped time is its 4 seconds bytes, big-endian, followed by 4 zero bytes |
| Sntp.ReplyTimestamps | sntp/sntp.py:41-43 | reply bytes 32..36 and 40..44 read as the two shifted clock readings in NTP seconds; bytes 36..40 and 44..48 are zero |
| Sntp.ReplyHeader | sntp/sntp.py:40 | reply byte 0 says leap 0, version 4, server mode (0x24); byte 1 (stratum) is 1; bytes 2..24 are zero |
| Sntp.HeaderBytes | sntp/sntp.py:40 | packing 0x24, 1 and six zeros gives those header bytes |
| TraceRegex.DigitRun | tracer/tracer.py:8 | the run counted from i is all digits and ends at a non-digit or the end of the line |
| TraceRegex.DotGroupSpec | tracer/tracer.py:8 | `\d{1,3}\.` matches from i up to just past a exactly when i..a is one to three digits and a holds a dot |
| TraceRegex.MatchIsDottedQuad | tracer/tracer.py:8 | every match of `IP_REGEX` is four groups of one to three digits joined by dots, values unchecked |
| TraceRegex.MatchIsLongest | tracer/tracer.py:8 | wherever a dotted quad starts, `IP_REGEX` matches there and no shorter than it |
| TraceRegex.SearchFromSpec | tracer/tracer.py:19 | the search from i stops at the first position where a dotted quad starts, or finds none when none starts |
| TraceRegex.SearchIpSpec | tracer/tracer.py:19 | the search returns the longest dotted quad at the leftmost position where one starts, and nothing exactly when no part of the line is a dotted quad |
| TraceRegex.NewlineResets | tracer/tracer.py:9 | no triple of asterisks straddles a line break |
| TraceRegex.OtherCharIgnored | tracer/tracer.py:9 | characters other than `*` and line breaks do not affect a timeout match |
| TraceRegex.TimeoutFromSpec | tracer/tracer.py:9 | the scan, having met some asterisks on the current line, succeeds exactly when three asterisks stand on one line in what it has left to read |
| TraceRegex.HasTimeoutSpec | tracer/tracer.py:20 | `TIMEOUT_REGEX.search` succeeds exactly when three asterisks stand on one line |
| Tracer.LineIps | tracer/tracer.py:19-22 | a line contributes at most one address |
| Tracer.LineIpsSpec | tracer/tracer.py:19-22 | a line contributes nothing when no part of it is a dotted quad, and otherwise its leftmost, longest one |
| Tracer.CollectIps | tracer/tracer.py:17-22 | no more addresses than lines |
| Tracer.CollectIpsAppend | tracer/tracer.py:17-22 | the addresses of two stretches of output are those of each, in order: lines keep their order |
| Tracer.CollectIpsQuads | tracer/tracer.py:19-22 | every collected address is a dotted quad |
| Tracer.CollectStep | tracer/tracer.py:19-22 | one more line appends its address, if any |
| Tracer.TimedOutStep | tracer/tracer.py:20-24 | one more line requests termination when it matches `TIMEOUT_REGEX` |
| Tracer.RouteUnique | tracer/tracer.py:28-30 | the route is determined by the collected addresses |
| Tracer.RouteProperties | tracer/tracer.py:28-30 | an appended destination never follows itself, and the route holds only collected addresses |
| Tracer.Reshaped | tracer/tracer.py:28-30 | popping the destination from the front and appending it unless it is already last gives the route |
| Tracer.Trace | tracer/tracer.py:13-30 | termination is requested exactly when some line has three asterisks. At most one address is an invalid domain. Otherwise the result drops the destination from the front, keeps the rest in order and ends with the destination, with length n-1 or n |
| Tracer.Run | tracer/tracer.py:58-61 | the arguments are rejected exactly when hops or wait is not positive, and nothing is traced then; otherwise the result is that of `trace` |
| Interplay.SntpReplyClassified | port_scanner/port_scanner.py:39-56 | a reply of the SNTP server is classified ntp, unless 0x5B 0x22 stand side by side in it, in which case it is dns |

## Left out

- **Sockets.** The socket calls of the port scanner are replaced by a `Network` function. It maps host, transport, port and payload to a caught error or the bytes received, and is a parameter. The calls replaced are `socket`, `connect`, `sendall`, `recv`, `sendto` and `recvfrom`, with their one-second timeouts.
  - A real network may answer the same probe differently twice; the model's network answers deterministically.
  - The 1024-byte cap of `recv`/`recvfrom` is not imposed on the bytes the network returns.
- **Uncaught socket errors.** Errors other than the four caught kinds, such as `socket.gaierror` or an unreachable host, end the scanning thread in the source. They are not modelled.
- **Threads of `scan_ports`.** They are replaced by a sequential loop, so the lists come out in port order. In the source, the order of entries and the safety of the concurrent appends depend on thread scheduling.
- **Hostname pre-flight in `main`.** The `bind` check becomes the boolean parameter `hostnameResolves`.
- **argparse, printing and the reporting loops** of the three tools are left out.
- **SNTP server plumbing.** The asyncio transport (`connection_made`, `datagram_received`, `sendto`), `config.json`, the one-hour `sleep` and `asyncio.run` are left out.
  - The escaping `struct.error` of `create_packet` is the `Failure` result of `Sntp.CreatePacket`.
- Sntp.CalculateTime: the clock is an integer parameter, one per `calculate_time` call. Truncating the float `time.time() + offset + shift` with `int()` is not modelled.
- **Tracer process and network I/O.** The `tracert` subprocess output is the `lines` parameter, already decoded from cp866.
  - `terminate()` becomes the `terminated` result flag; the lines are all the output there was.
  - `wait()`, `find_ips`' HTTP request to ip-api.com and the printing of its answer are left out.
- TraceRegex.IsDigit: `\d` is modelled as the ASCII digits. Python's `\d` also matches other Unicode decimal digits, which cp866-decoded text does not contain.
- **api/main.py** is not part of this model.
