/**
 * The first octet of an NTP/SNTP header: leap indicator (2 bits), version
 * number (3 bits) and mode (3 bits), as laid out in section 4 of RFC 4330.
 */
module NtpHeader {
  import opened Bytes

  /** Mode 3: a client request. */
  const ClientMode: nat := 3
  /** Mode 4: a server reply. */
  const ServerMode: nat := 4

  function LeapIndicator(b: byte): nat { b as int / 64 }

  function VersionNumber(b: byte): nat { (b as int / 8) % 8 }

  function Mode(b: byte): nat { b as int % 8 }

  /** The octet that carries the three sub-fields. */
  function FirstOctet(li: nat, vn: nat, mode: nat): (b: byte)
    requires li < 4 && vn < 8 && mode < 8
    ensures LeapIndicator(b) == li && VersionNumber(b) == vn && Mode(b) == mode
  {
    (li * 64 + vn * 8 + mode) as byte
  }
}
