/**
 * The port scanner pointed at the SNTP server of the same repository: how
 * `check_protocol` names the server's replies.
 */
module Interplay {
  import opened Bytes
  import opened NtpHeader
  import opened Probes
  import opened Classifier
  import opened Sntp

  /**
   * A reply of the SNTP server is reported as NTP, unless the bytes
   * 0x5B 0x22 happen to stand side by side in it (in a timestamp, say):
   * the DNS signature is tried first and then wins.
   */
  lemma {:induction false} SntpReplyClassified(shift: int, data: Bytes, receiveNow: int, transmitNow: int)
    requires CreatePacket(shift, data, receiveNow, transmitNow).Success?
    ensures CheckProtocol(Reply(shift, data, receiveNow, transmitNow)) ==
      if HasDnsId(Reply(shift, data, receiveNow, transmitNow)) then Dns else Ntp
  {
    var reply := Reply(shift, data, receiveNow, transmitNow);
    ReplyHeader(shift, data, receiveNow, transmitNow);
    assert reply[0] == 0x24;
    CheckProtocolSignatures(reply);
  }
}
