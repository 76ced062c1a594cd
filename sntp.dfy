/**
 * `SNTPProtocol.create_packet` and `calculate_time` (sntp/sntp.py): the
 * server unpacks the 48-byte request, then packs a reply that copies the
 * request's transmit timestamp and stamps two readings of its shifted clock.
 */
module Sntp {
  import opened Wrappers
  import opened Bytes
  import opened StructFormat
  import opened NtpHeader

  /** `!BBBBIIIQQQQ`: four octets, three 32-bit words, four 64-bit timestamps. */
  const PacketFormat: Format :=
    Repeat(Unsigned(1), 4) + Repeat(Unsigned(4), 3) + Repeat(Unsigned(8), 4)

  /** Seconds from 1900-01-01 (the NTP era) to 1970-01-01 (the Unix epoch). */
  const NtpOffset: int := 2208988800

  /** 2^32: one second in NTP's 32.32 fixed-point timestamps. */
  const FractionScale: int := 0x1_0000_0000

  /** Indices of the timestamp fields in `PacketFormat`. */
  const OriginateField: nat := 8
  const ReceiveField: nat := 9
  const TransmitField: nat := 10

  /** The two ways `struct` can refuse: a request of the wrong size, or a timestamp outside 64 bits. */
  datatype SntpError = MalformedRequest | TimestampOutOfRange

  /** The layout of `PacketFormat`: its size and where the three copied or stamped timestamps sit. */
  lemma {:induction false} PacketLayout()
    ensures |PacketFormat| == 11 && Size(PacketFormat) == 48
    ensures forall i :: 0 <= i < 4 ==> PacketFormat[i] == Unsigned(1)
    ensures forall i :: 4 <= i < 7 ==> PacketFormat[i] == Unsigned(4)
    ensures forall i :: 7 <= i < 11 ==> PacketFormat[i] == Unsigned(8)
    ensures Offset(PacketFormat, OriginateField) == 24
    ensures Offset(PacketFormat, ReceiveField) == 32
    ensures Offset(PacketFormat, TransmitField) == 40
  {
    var b, i, q := Repeat(Unsigned(1), 4), Repeat(Unsigned(4), 3), Repeat(Unsigned(8), 4);
    SizeRepeat(Unsigned(1), 4);
    SizeRepeat(Unsigned(4), 3);
    SizeRepeat(Unsigned(8), 4);
    SizeAppend(b, i);
    SizeAppend(b + i, q);
    var fmt := PacketFormat;
    assert fmt[..8] == (b + i) + Repeat(Unsigned(8), 1);
    assert fmt[..9] == (b + i) + Repeat(Unsigned(8), 2);
    assert fmt[..10] == (b + i) + Repeat(Unsigned(8), 3);
    SizeRepeat(Unsigned(8), 1);
    SizeRepeat(Unsigned(8), 2);
    SizeRepeat(Unsigned(8), 3);
    SizeAppend(b + i, Repeat(Unsigned(8), 1));
    SizeAppend(b + i, Repeat(Unsigned(8), 2));
    SizeAppend(b + i, Repeat(Unsigned(8), 3));
  }

  /** `calculate_time`: the shifted Unix time `now`, in NTP seconds, in the upper half of a 64-bit timestamp. */
  function CalculateTime(shift: int, now: int): (t: int)
    ensures t % FractionScale == 0
    ensures t / FractionScale == now + NtpOffset + shift
  {
    (now + NtpOffset + shift) * FractionScale
  }

  /** A clock reading whose timestamp `struct` can pack as `Q`. */
  predicate InEra(shift: int, now: int)
  {
    0 <= now + NtpOffset + shift < FractionScale
  }

  /** The reply's field values: LI 0 / VN 4 / server mode, stratum 1, zeros, then the three timestamps. */
  function ReplyValues(request: seq<int>, receiveTime: int, transmitTime: int): (vals: seq<int>)
    requires |request| == 11
    ensures |vals| == 11
  {
    [0x24, 1, 0, 0, 0, 0, 0, 0, request[TransmitField], receiveTime, transmitTime]
  }

  /**
   * `create_packet`: the reply to `data`, stamped with the clock readings
   * `receiveNow` and `transmitNow` (the two `calculate_time` calls, in order).
   */
  function CreatePacket(shift: int, data: Bytes, receiveNow: int, transmitNow: int): Result<Bytes, SntpError>
  {
    match Unpack(PacketFormat, data)
    case None => Failure(MalformedRequest)
    case Some(request) =>
      PacketLayout();
      match Pack(PacketFormat, ReplyValues(request, CalculateTime(shift, receiveNow), CalculateTime(shift, transmitNow)))
      case None => Failure(TimestampOutOfRange)
      case Some(reply) => Success(reply)
  }

  /** `Q` holds a stamped time exactly when the shifted clock lies in the current NTP era. */
  lemma TimestampFits(shift: int, now: int)
    ensures Fits(Unsigned(8), CalculateTime(shift, now)) <==> InEra(shift, now)
  {
    var secs := now + NtpOffset + shift;
    var t := CalculateTime(shift, now);
    assert Pow256(1) == 256;
    assert Pow256(2) == 65536;
    assert Pow256(4) == FractionScale by {
      assert Pow256(3) == 16777216;
    }
    Pow256Split(4, 4);
    assert Pow256(8) == FractionScale * FractionScale;
    if 0 <= secs < FractionScale {
      assert t <= (FractionScale - 1) * FractionScale;
    } else if secs < 0 {
      assert t < 0;
    } else {
      assert t >= FractionScale * FractionScale;
    }
  }

  /** Which requests are answered: exactly 48 bytes, and both clock readings inside the NTP era. */
  lemma {:induction false} CreatePacketOutcome(shift: int, data: Bytes, receiveNow: int, transmitNow: int)
    ensures CreatePacket(shift, data, receiveNow, transmitNow) == Failure(MalformedRequest) <==> |data| != 48
    ensures CreatePacket(shift, data, receiveNow, transmitNow).Success? <==>
      |data| == 48 && InEra(shift, receiveNow) && InEra(shift, transmitNow)
  {
    PacketLayout();
    if |data| == 48 {
      var request := Unpack(PacketFormat, data).value;
      var vals := ReplyValues(request, CalculateTime(shift, receiveNow), CalculateTime(shift, transmitNow));
      PackableAt(PacketFormat, vals);
      PackableAt(PacketFormat, request);
      assert Fits(PacketFormat[TransmitField], request[TransmitField]);
      TimestampFits(shift, receiveNow);
      TimestampFits(shift, transmitNow);
      assert Pow256(1) == 256;
      assert forall i :: 0 <= i < 8 ==> Fits(PacketFormat[i], vals[i]);
      assert vals[ReceiveField] == CalculateTime(shift, receiveNow);
      assert vals[TransmitField] == CalculateTime(shift, transmitNow);
      if Packable(PacketFormat, vals) {
        assert Fits(PacketFormat[ReceiveField], vals[ReceiveField]);
        assert Fits(PacketFormat[TransmitField], vals[TransmitField]);
      }
    }
  }

  /** The reply `CreatePacket` produces, when it produces one. */
  function Reply(shift: int, data: Bytes, receiveNow: int, transmitNow: int): (reply: Bytes)
    requires CreatePacket(shift, data, receiveNow, transmitNow).Success?
  {
    CreatePacket(shift, data, receiveNow, transmitNow).value
  }

  /** The values packed into a successful reply, and the fact that they fit. */
  lemma ReplyPacked(shift: int, data: Bytes, receiveNow: int, transmitNow: int)
    requires CreatePacket(shift, data, receiveNow, transmitNow).Success?
    ensures |data| == 48 && |Unpack(PacketFormat, data).value| == 11
    ensures Packable(PacketFormat, ReplyValues(Unpack(PacketFormat, data).value,
                       CalculateTime(shift, receiveNow), CalculateTime(shift, transmitNow)))
    ensures Reply(shift, data, receiveNow, transmitNow) ==
      PackBytes(PacketFormat, ReplyValues(Unpack(PacketFormat, data).value,
                  CalculateTime(shift, receiveNow), CalculateTime(shift, transmitNow)))
  {
    PacketLayout();
  }

  /** A reply is 48 bytes and unpacks, with the same layout, to exactly the values packed into it. */
  lemma {:induction false} ReplyDecodes(shift: int, data: Bytes, receiveNow: int, transmitNow: int)
    requires CreatePacket(shift, data, receiveNow, transmitNow).Success?
    ensures |Reply(shift, data, receiveNow, transmitNow)| == 48
    ensures Unpack(PacketFormat, Reply(shift, data, receiveNow, transmitNow)) ==
      Some(ReplyValues(Unpack(PacketFormat, data).value,
                       CalculateTime(shift, receiveNow), CalculateTime(shift, transmitNow)))
  {
    PacketLayout();
    ReplyPacked(shift, data, receiveNow, transmitNow);
    var vals := ReplyValues(Unpack(PacketFormat, data).value,
                            CalculateTime(shift, receiveNow), CalculateTime(shift, transmitNow));
    UnpackPack(PacketFormat, vals);
  }

  /** The reply's originate timestamp (bytes 24..32) is the request's transmit timestamp (bytes 40..48). */
  lemma {:induction false} ReplyOriginate(shift: int, data: Bytes, receiveNow: int, transmitNow: int)
    requires CreatePacket(shift, data, receiveNow, transmitNow).Success?
    ensures |data| == 48 && |Reply(shift, data, receiveNow, transmitNow)| == 48
    ensures Reply(shift, data, receiveNow, transmitNow)[24..32] == data[40..48]
  {
    PacketLayout();
    ReplyPacked(shift, data, receiveNow, transmitNow);
    var request := Unpack(PacketFormat, data).value;
    var vals := ReplyValues(request, CalculateTime(shift, receiveNow), CalculateTime(shift, transmitNow));
    PackFieldAt(PacketFormat, vals, OriginateField);
    UnpackFieldAt(PacketFormat, data, TransmitField);
    EncodeDecodeField(Unsigned(8), data[40..48]);
  }

  /** A stamped timestamp: the NTP seconds in the upper four bytes, a zero fraction in the lower four. */
  lemma StampedBytes(shift: int, now: int)
    requires InEra(shift, now)
    ensures EncodeField(Unsigned(8), CalculateTime(shift, now)) ==
      ToBigEndian(now + NtpOffset + shift, 4) + Zeros(4)
    ensures FromBigEndian(ToBigEndian(now + NtpOffset + shift, 4)) == now + NtpOffset + shift
  {
    TimestampFits(shift, now);
    assert Pow256(1) == 256;
    assert Pow256(2) == 65536;
    assert Pow256(4) == FractionScale by {
      assert Pow256(3) == 16777216;
    }
    ToBigEndianShift(now + NtpOffset + shift, 4, 4);
    FromToBigEndian(now + NtpOffset + shift, 4);
  }

  /** The receive and transmit timestamps carry the two clock readings, shifted into the NTP era, with no fraction. */
  lemma {:induction false} ReplyTimestamps(shift: int, data: Bytes, receiveNow: int, transmitNow: int)
    requires CreatePacket(shift, data, receiveNow, transmitNow).Success?
    ensures |Reply(shift, data, receiveNow, transmitNow)| == 48
    ensures FromBigEndian(Reply(shift, data, receiveNow, transmitNow)[32..36]) == receiveNow + NtpOffset + shift
    ensures Reply(shift, data, receiveNow, transmitNow)[36..40] == Zeros(4)
    ensures FromBigEndian(Reply(shift, data, receiveNow, transmitNow)[40..44]) == transmitNow + NtpOffset + shift
    ensures Reply(shift, data, receiveNow, transmitNow)[44..48] == Zeros(4)
  {
    PacketLayout();
    CreatePacketOutcome(shift, data, receiveNow, transmitNow);
    ReplyPacked(shift, data, receiveNow, transmitNow);
    var reply := Reply(shift, data, receiveNow, transmitNow);
    var vals := ReplyValues(Unpack(PacketFormat, data).value,
                            CalculateTime(shift, receiveNow), CalculateTime(shift, transmitNow));
    PackFieldAt(PacketFormat, vals, ReceiveField);
    PackFieldAt(PacketFormat, vals, TransmitField);
    StampedBytes(shift, receiveNow);
    StampedBytes(shift, transmitNow);
    SplitEight(reply[32..40], ToBigEndian(receiveNow + NtpOffset + shift, 4));
    SplitEight(reply[40..48], ToBigEndian(transmitNow + NtpOffset + shift, 4));
    assert reply[32..40][..4] == reply[32..36] && reply[32..40][4..] == reply[36..40];
    assert reply[40..48][..4] == reply[40..44] && reply[40..48][4..] == reply[44..48];
  }

  lemma SplitEight(s: Bytes, high: Bytes)
    requires |high| == 4 && s == high + Zeros(4)
    ensures s[..4] == high && s[4..] == Zeros(4)
  {
  }

  /** The header of a reply: LI 0, version 4, server mode; stratum 1; the next 22 bytes zero. */
  lemma {:induction false} ReplyHeader(shift: int, data: Bytes, receiveNow: int, transmitNow: int)
    requires CreatePacket(shift, data, receiveNow, transmitNow).Success?
    ensures |Reply(shift, data, receiveNow, transmitNow)| == 48
    ensures Reply(shift, data, receiveNow, transmitNow)[0] == FirstOctet(0, 4, ServerMode)
    ensures Reply(shift, data, receiveNow, transmitNow)[1] == 1
    ensures forall k :: 2 <= k < 24 ==> Reply(shift, data, receiveNow, transmitNow)[k] == 0
  {
    PacketLayout();
    ReplyPacked(shift, data, receiveNow, transmitNow);
    var vals := ReplyValues(Unpack(PacketFormat, data).value,
                            CalculateTime(shift, receiveNow), CalculateTime(shift, transmitNow));
    HeaderBytes(vals);
  }

  /** Packing header values 0x24, 1 and six zeros gives those bytes, each zero field as zero bytes. */
  lemma HeaderBytes(vals: seq<int>)
    requires Packable(PacketFormat, vals)
    requires vals[0] == 0x24 && vals[1] == 1 && forall i :: 2 <= i < 8 ==> vals[i] == 0
    ensures |PackBytes(PacketFormat, vals)| == 48
    ensures PackBytes(PacketFormat, vals)[0] == 0x24 && PackBytes(PacketFormat, vals)[1] == 1
    ensures forall k :: 2 <= k < 24 ==> PackBytes(PacketFormat, vals)[k] == 0
  {
    PacketLayout();
    HeaderOffsets();
    var bytes := PackBytes(PacketFormat, vals);
    PackFieldAt(PacketFormat, vals, 0);
    PackFieldAt(PacketFormat, vals, 1);
    assert bytes[0..1] == [0x24];
    assert bytes[1..2] == [1];
    ZeroField(vals, 2);
    ZeroField(vals, 3);
    ZeroField(vals, 4);
    ZeroField(vals, 5);
    ZeroField(vals, 6);
    ZeroField(vals, 7);
  }

  /** A zero header field packs to zero bytes. */
  lemma ZeroField(vals: seq<int>, i: nat)
    requires Packable(PacketFormat, vals) && 2 <= i < 8 && vals[i] == 0
    ensures Offset(PacketFormat, i + 1) <= |PackBytes(PacketFormat, vals)|
    ensures forall k :: Offset(PacketFormat, i) <= k < Offset(PacketFormat, i + 1) ==>
      PackBytes(PacketFormat, vals)[k] == 0
  {
    PacketLayout();
    var bytes := PackBytes(PacketFormat, vals);
    var lo := Offset(PacketFormat, i);
    PackFieldAt(PacketFormat, vals, i);
    ZeroBigEndian(PacketFormat[i].width);
    OffsetNext(PacketFormat, i);
    forall k | lo <= k < Offset(PacketFormat, i + 1)
      ensures bytes[k] == 0
    {
      assert bytes[lo..Offset(PacketFormat, i + 1)][k - lo] == bytes[k];
    }
  }

  /** Where the first eight fields start. */
  lemma HeaderOffsets()
    ensures Offset(PacketFormat, 0) == 0 && Offset(PacketFormat, 1) == 1
    ensures Offset(PacketFormat, 2) == 2 && Offset(PacketFormat, 3) == 3
    ensures Offset(PacketFormat, 4) == 4 && Offset(PacketFormat, 5) == 8
    ensures Offset(PacketFormat, 6) == 12 && Offset(PacketFormat, 7) == 16
    ensures Offset(PacketFormat, 8) == 24
  {
    PacketLayout();
    assert PacketFormat[..0] == [];
    OffsetNext(PacketFormat, 0);
    OffsetNext(PacketFormat, 1);
    OffsetNext(PacketFormat, 2);
    OffsetNext(PacketFormat, 3);
    OffsetNext(PacketFormat, 4);
    OffsetNext(PacketFormat, 5);
    OffsetNext(PacketFormat, 6);
  }
}
