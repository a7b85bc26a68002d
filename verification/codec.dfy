/**
 The ICMP echo messages of ping.py: the request `send_packet` packs
 (lines 51-60) and the reply test of `receive_packet` (lines 85-93).

 The header is the `struct` format `!bbHHh`: type, code, checksum,
 identifier, sequence, in network byte order. The 8-octet send timestamp is
 an opaque `Stamp` here; its IEEE-754 encoding is not modelled.
 */
module Codec {
  import opened Base
  import Checksum

  const IcmpEchoRequest: Byte := 8
  const IcmpEchoReply: Byte := 0
  /** Size of the `!bbHHh` header. */
  const HeaderSize: int := 8
  /** Size of the `!d` timestamp that opens the payload. */
  const StampSize: int := 8
  /** `receive_packet` assumes an IPv4 header without options. */
  const IpHeaderSize: int := 20
  /** Offset of the time-to-live octet in the IPv4 header. */
  const TtlOffset: int := 8

  /** The octets of the send timestamp. */
  type Stamp = s: seq<Byte> | |s| == StampSize witness [0, 0, 0, 0, 0, 0, 0, 0]

  /** The five fields of an ICMP echo header, as `struct` sees them. */
  datatype IcmpHeader = IcmpHeader(icmpType: int, code: int, checksum: int, id: int, sequence: int)

  /** The field ranges `struct.pack("!bbHHh", ...)` accepts; outside them it raises `struct.error`. */
  predicate Packable(h: IcmpHeader) {
    FitsI8(h.icmpType) && FitsI8(h.code) && FitsU16(h.checksum) && FitsU16(h.id) && FitsI16(h.sequence)
  }

  /** `struct.unpack("!bbHHh", b)`. */
  function UnpackHeader(b: seq<Byte>): (h: IcmpHeader)
    requires |b| == HeaderSize
    ensures Packable(h)
  {
    IcmpHeader(ByteToI8(b[0]), ByteToI8(b[1]), BEToU16(b[2], b[3]), BEToU16(b[4], b[5]), BEToI16(b[6], b[7]))
  }

  /** `struct.pack("!bbHHh", ...)`; `None` stands for `struct.error`. */
  function PackHeader(h: IcmpHeader): (r: Option<seq<Byte>>)
    ensures r.Some? <==> Packable(h)
    ensures r.Some? ==> |r.value| == HeaderSize && UnpackHeader(r.value) == h
  {
    if Packable(h) then
      Some([I8ToByte(h.icmpType), I8ToByte(h.code)] + U16ToBE(h.checksum) + U16ToBE(h.id) + I16ToBE(h.sequence))
    else
      None
  }

  /** Unpacking and packing again gives the same eight octets. */
  lemma PackUnpacked(b: seq<Byte>)
    requires |b| == HeaderSize
    ensures PackHeader(UnpackHeader(b)) == Some(b)
  {
    I8RoundTrip(b[0]);
    I8RoundTrip(b[1]);
    U16RoundTrip(b[2], b[3]);
    U16RoundTrip(b[4], b[5]);
    I16RoundTrip(b[6], b[7]);
    assert b == [b[0], b[1]] + [b[2], b[3]] + [b[4], b[5]] + [b[6], b[7]];
  }

  /**
   The payload of line 55: the timestamp, then `size - 8` zero pad octets;
   `"x" * (size - 8)` is empty when `size` is below 8.
   */
  function Payload(stamp: Stamp, size: int): (d: seq<Byte>)
    ensures |d| == if size < StampSize then StampSize else size
    ensures d[..StampSize] == stamp
    ensures forall i :: StampSize <= i < |d| ==> d[i] == 0
  {
    stamp + Zeros(if size < StampSize then 0 else size - StampSize)
  }

  /** The identifier and sequence number `send_packet` can pack. */
  predicate Encodable(id: int, sequence: int) {
    FitsU16(id) && FitsI16(sequence)
  }

  /** The message with its checksum field (octets 2-3) zeroed, as `checksum` is first run on it. */
  function Blanked(pkt: seq<Byte>): (b: seq<Byte>)
    requires |pkt| >= 4
    ensures |b| == |pkt| && b[2] == 0 && b[3] == 0
    ensures forall i :: 0 <= i < |pkt| && i != 2 && i != 3 ==> b[i] == pkt[i]
  {
    pkt[..2] + [0, 0] + pkt[4..]
  }

  /** The wire layout of an echo request carrying `id`, `sequence` and `stamp`, field by field. */
  ghost predicate RequestLayout(pkt: seq<Byte>, id: int, sequence: int, size: int, stamp: Stamp) {
    && |pkt| == HeaderSize + (if size < StampSize then StampSize else size)
    && pkt[0] == IcmpEchoRequest && pkt[1] == 0
    && BEToU16(pkt[2], pkt[3]) == Checksum.InternetChecksum(Blanked(pkt))
    && BEToU16(pkt[4], pkt[5]) == id
    && BEToI16(pkt[6], pkt[7]) == sequence
    && pkt[HeaderSize..HeaderSize + StampSize] == stamp
    && (forall i :: HeaderSize + StampSize <= i < |pkt| ==> pkt[i] == 0)
  }

  /**
   `send_packet` up to `sendto`: pack the header with a zero checksum, compute
   the checksum over header and payload, pack the header again with it.
   `None` stands for the `struct.error` of an identifier or sequence number
   outside its field.
   */
  function EncodeRequest(id: int, sequence: int, size: int, stamp: Stamp): (r: Option<seq<Byte>>)
    ensures r.Some? <==> Encodable(id, sequence)
    ensures r.Some? ==> RequestLayout(r.value, id, sequence, size, stamp)
  {
    var blank := PackHeader(IcmpHeader(IcmpEchoRequest, 0, 0, id, sequence));
    if blank.None? then None
    else
      var data := Payload(stamp, size);
      var sum := Checksum.InternetChecksum(blank.value + data);
      var header := PackHeader(IcmpHeader(IcmpEchoRequest, 0, sum, id, sequence));
      var pkt := header.value + data;
      BlankedChecksumField(IcmpHeader(IcmpEchoRequest, 0, 0, id, sequence), sum, data);
      Some(pkt)
  }

  /**
   Zeroing octets 2-3 of a packed header followed by `data` gives the same
   header packed with a zero checksum, followed by `data`.
   */
  lemma BlankedChecksumField(h: IcmpHeader, sum: int, data: seq<Byte>)
    requires Packable(h) && h.checksum == 0 && FitsU16(sum)
    ensures var pkt := PackHeader(h.(checksum := sum)).value + data;
      Blanked(pkt) == PackHeader(h).value + data
  {
    var pkt := PackHeader(h.(checksum := sum)).value + data;
    var blank := PackHeader(h).value + data;
    var l := Blanked(pkt);
    assert |l| == |blank|;
    forall i | 0 <= i < |l|
      ensures l[i] == blank[i]
    {
    }
  }

  /**
   The request `send_packet` sends passes the receiver's checksum test of
   section 4.1 of RFC 1071, as long as it fits in an IPv4 datagram.
   */
  lemma EncodedRequestVerifies(id: int, sequence: int, size: int, stamp: Stamp)
    requires Encodable(id, sequence)
    requires size <= Checksum.MaxDatagram - HeaderSize
    ensures Checksum.InternetChecksum(EncodeRequest(id, sequence, size, stamp).value) == 0
  {
    LaidOutRequestVerifies(EncodeRequest(id, sequence, size, stamp).value, id, sequence, size, stamp);
  }

  /** A message whose octets 2-3 hold the checksum of the rest verifies. */
  lemma LaidOutRequestVerifies(pkt: seq<Byte>, id: int, sequence: int, size: int, stamp: Stamp)
    requires RequestLayout(pkt, id, sequence, size, stamp)
    requires |pkt| <= Checksum.MaxDatagram
    ensures Checksum.InternetChecksum(pkt) == 0
  {
    var blank := Blanked(pkt);
    var sum := Checksum.InternetChecksum(blank);
    assert |blank| == |pkt| && blank[2] == 0 && blank[3] == 0;
    Checksum.ChecksumSelfCheck(blank);
    var q := Checksum.WithChecksumField(blank, sum);
    assert BEToU16(pkt[2], pkt[3]) == sum;
    forall i | 0 <= i < |pkt|
      ensures q[i] == pkt[i]
    {
    }
    assert q == pkt;
  }

  /**
   Line 57 as written: with an odd `size` of at least 9 the message handed to
   `checksum` has odd length, and `checksum` as written fails on it.
   */
  lemma OddSizeBreaksChecksumAsWritten(id: int, sequence: int, size: int, stamp: Stamp)
    requires Encodable(id, sequence)
    requires size >= StampSize && size % 2 == 1
    ensures var pkt := EncodeRequest(id, sequence, size, stamp).value;
      Checksum.ChecksumAsWritten(Blanked(pkt)).None?
  {
    var pkt := EncodeRequest(id, sequence, size, stamp).value;
    assert |Blanked(pkt)| == HeaderSize + size;
    OddAfterHeader(size);
  }

  /** The header has even size, so an odd payload makes an odd message. */
  lemma OddAfterHeader(size: int)
    requires size % 2 == 1
    ensures (HeaderSize + size) % 2 == 1
  {
  }

  /** What `receive_packet` extracts from an accepted reply (line 93); the delay itself is left out. */
  datatype Reply = Reply(dataSize: int, ttl: Byte, stamp: Stamp)

  /**
   The verdict on one received datagram: an accepted reply, traffic the wait
   loop skips (line 87 false), or a datagram too short for the `struct.unpack`
   calls of lines 86 and 90, which raise `struct.error`.
   */
  datatype Verdict = Accepted(reply: Reply) | Ignored | Malformed

  /**
   Lines 85-92, with the time-to-live read as the octet's value. A datagram is
   accepted exactly when its ICMP type octet (offset 20) is 0 and the
   identifier at offsets 24-25 is the session's; the sequence number and the
   checksum are not looked at.
   */
  function DecodeReply(datagram: seq<Byte>, id: int): (v: Verdict)
    ensures v.Accepted? <==>
      |datagram| >= 36 && datagram[20] == 0 && BEToU16(datagram[24], datagram[25]) == id
    ensures v.Ignored? <==>
      |datagram| >= 28 && (datagram[20] != 0 || BEToU16(datagram[24], datagram[25]) != id)
    ensures v.Accepted? ==>
      v.reply == Reply(|datagram| - 28, datagram[8], datagram[28..36])
  {
    var start := IpHeaderSize + HeaderSize;
    if |datagram| < start then Malformed
    else
      var h := UnpackHeader(datagram[IpHeaderSize..start]);
      if h.icmpType == IcmpEchoReply && h.id == id then
        var dataSize := |datagram[start..]|;
        if |datagram| < start + StampSize then Malformed
        else Accepted(Reply(dataSize, datagram[TtlOffset], datagram[start..start + StampSize]))
      else
        Ignored
  }

  /**
   `receive_packet`'s parsing exactly as written. Line 92 turns the
   time-to-live octet into text with `bytes.decode()`, which is UTF-8 and
   rejects a lone octet of 128 or more, so such a reply raises
   UnicodeDecodeError (`None`) instead of being returned.
   */
  function DecodeReplyAsWritten(datagram: seq<Byte>, id: int): (r: Option<Verdict>)
    ensures r.None? <==> DecodeReply(datagram, id).Accepted? && datagram[TtlOffset] >= 0x80
    ensures r.Some? ==> r.value == DecodeReply(datagram, id)
  {
    var start := IpHeaderSize + HeaderSize;
    if |datagram| < start then Some(Malformed)
    else
      var h := UnpackHeader(datagram[IpHeaderSize..start]);
      if h.icmpType == IcmpEchoReply && h.id == id then
        var dataSize := |datagram[start..]|;
        if |datagram| < start + StampSize then Some(Malformed)
        else
          var ttl := datagram[TtlOffset];
          if ttl >= 0x80 then None
          else Some(Accepted(Reply(dataSize, ttl, datagram[start..start + StampSize])))
      else
        Some(Ignored)
  }

  /**
   A concrete reply that shows the defect: a host whose replies arrive with
   time-to-live 128 is answered with a crash instead of a reply line.
   */
  lemma HighTtlReplyBreaksAsWritten()
    ensures var d := [0, 0, 0, 0, 0, 0, 0, 0, 128] + Zeros(11) + [0, 0, 0, 0, 0, 7] + Zeros(10);
      && DecodeReply(d, 7) == Accepted(Reply(8, 128, Zeros(8)))
      && DecodeReplyAsWritten(d, 7).None?
  {
    var d := [0, 0, 0, 0, 0, 0, 0, 0, 128] + Zeros(11) + [0, 0, 0, 0, 0, 7] + Zeros(10);
    assert |d| == 36 && d[8] == 128 && d[20] == 0 && d[24] == 0 && d[25] == 7;
    assert d[28..36] == Zeros(8);
  }

  /**
   The echo reply a responding host returns for `request` (RFC 792): the same
   message with type 0 and a recomputed checksum.
   */
  function EchoOf(request: seq<Byte>): (reply: seq<Byte>)
    requires |request| >= 4
    ensures |reply| == |request|
    ensures reply[0] == IcmpEchoReply && reply[1] == request[1]
    ensures reply[4..] == request[4..]
  {
    var blank := [IcmpEchoReply, request[1], 0, 0] + request[4..];
    Checksum.WithChecksumField(blank, Checksum.InternetChecksum(blank))
  }

  /**
   Encoding and decoding agree: the echo of a request, behind any 20-octet
   IPv4 header, is accepted by the session that sent it, with the payload
   size, the header's time-to-live and the very timestamp that was sent.
   */
  lemma EchoedRequestAccepted(ip: seq<Byte>, id: int, sequence: int, size: int, stamp: Stamp)
    requires |ip| == IpHeaderSize && Encodable(id, sequence)
    ensures var request := EncodeRequest(id, sequence, size, stamp).value;
      DecodeReply(ip + EchoOf(request), id)
        == Accepted(Reply(if size < StampSize then StampSize else size, ip[TtlOffset], stamp))
  {
    EchoedLaidOutAccepted(ip, EncodeRequest(id, sequence, size, stamp).value, id, sequence, size, stamp);
  }

  lemma EchoedLaidOutAccepted(ip: seq<Byte>, request: seq<Byte>, id: int, sequence: int, size: int, stamp: Stamp)
    requires |ip| == IpHeaderSize && RequestLayout(request, id, sequence, size, stamp)
    ensures DecodeReply(ip + EchoOf(request), id)
        == Accepted(Reply(if size < StampSize then StampSize else size, ip[TtlOffset], stamp))
  {
    var reply := EchoOf(request);
    var d := ip + reply;
    assert d[20] == reply[0] && d[24] == request[4] && d[25] == request[5];
    assert d[28..36] == request[8..16];
  }

  /** Line 83: `recvfrom(2048)` returns at most the first 2048 octets of a datagram. */
  const RecvBufferSize: int := 2048

  function Received(datagram: seq<Byte>): (r: seq<Byte>)
    ensures |r| == if |datagram| <= RecvBufferSize then |datagram| else RecvBufferSize
    ensures r == datagram[..|r|]
  {
    if |datagram| <= RecvBufferSize then datagram else datagram[..RecvBufferSize]
  }

  /**
   Cutting a datagram after its timestamp keeps the verdict; an accepted
   reply then reports the size of what is left after offset 28.
   */
  lemma TruncatedVerdict(datagram: seq<Byte>, n: int, id: int)
    requires 36 <= n <= |datagram|
    ensures DecodeReply(datagram[..n], id) ==
      match DecodeReply(datagram, id)
      case Accepted(r) => Accepted(r.(dataSize := n - 28))
      case v => v
  {
    var t := datagram[..n];
    assert t[8] == datagram[8] && t[20] == datagram[20] && t[24] == datagram[24] && t[25] == datagram[25];
    assert t[28..36] == datagram[28..36];
  }

  /**
   The echo of a request as line 83 receives it, behind a 20-octet IPv4
   header: accepted, with the padded payload size capped at the 2020 octets
   that fit after the headers in the 2048-octet buffer.
   */
  lemma EchoedRequestReceived(ip: seq<Byte>, id: int, sequence: int, size: int, stamp: Stamp)
    requires |ip| == IpHeaderSize && Encodable(id, sequence)
    ensures var request := EncodeRequest(id, sequence, size, stamp).value;
      var padded := if size < StampSize then StampSize else size;
      var room := RecvBufferSize - IpHeaderSize - HeaderSize;
      DecodeReply(Received(ip + EchoOf(request)), id)
        == Accepted(Reply(if padded <= room then padded else room, ip[TtlOffset], stamp))
  {
    var request := EncodeRequest(id, sequence, size, stamp).value;
    EchoedRequestAccepted(ip, id, sequence, size, stamp);
    var d := ip + EchoOf(request);
    if |d| > RecvBufferSize {
      TruncatedVerdict(d, RecvBufferSize, id);
    }
  }

  /**
   The request itself, as a raw socket on the loopback interface also sees
   it, is not taken for a reply: its type is 8.
   */
  lemma OwnRequestIgnored(ip: seq<Byte>, id: int, sequence: int, size: int, stamp: Stamp)
    requires |ip| == IpHeaderSize && Encodable(id, sequence)
    ensures DecodeReply(ip + EncodeRequest(id, sequence, size, stamp).value, id) == Ignored
  {
    var request := EncodeRequest(id, sequence, size, stamp).value;
    assert RequestLayout(request, id, sequence, size, stamp);
    assert (ip + request)[20] == request[0];
  }

  /** The echo of another session's request is ignored, whatever its sequence number. */
  lemma ForeignReplyIgnored(ip: seq<Byte>, id: int, other: int, sequence: int, size: int, stamp: Stamp)
    requires |ip| == IpHeaderSize && Encodable(other, sequence) && other != id
    ensures DecodeReply(ip + EchoOf(EncodeRequest(other, sequence, size, stamp).value), id) == Ignored
  {
    ForeignLaidOutIgnored(ip, EncodeRequest(other, sequence, size, stamp).value, id, other, sequence, size, stamp);
  }

  lemma ForeignLaidOutIgnored(ip: seq<Byte>, request: seq<Byte>, id: int, other: int, sequence: int, size: int, stamp: Stamp)
    requires |ip| == IpHeaderSize && RequestLayout(request, other, sequence, size, stamp) && other != id
    ensures DecodeReply(ip + EchoOf(request), id) == Ignored
  {
    var reply := EchoOf(request);
    var d := ip + reply;
    assert d[24] == request[4] && d[25] == request[5];
  }
}
