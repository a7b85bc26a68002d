# A verified model of ping.py

`ping.py` is a small ICMP echo client. It builds an echo request (type,
code, checksum, identifier, sequence number, then an 8-octet send timestamp
padded with zeros to the requested size) and sends it on a raw socket. It
then waits for an echo reply that carries its process identifier, and prints
one line per probe and a summary at the end: sent, received, lost, loss
percentage and the shortest, longest and average delay.

This project models the pure core of that program in Dafny:

- `Base` (base.dfy): octets, the optional result used where Python raises,
  and the ranges and network byte order of the `struct` codes `b`, `H` and `h`.
- `Checksum` (checksum.dfy): `checksum`, the internet checksum of section 4.1
  of RFC 1071, as the evidently intended function and step by step as a loop.
  It also has the function as line 19 reads under Python 3.
- `Codec` (codec.dfy): packing the echo request in `send_packet` and the reply
  test of `receive_packet`. The reply test has an intended variant and an
  as-written variant.
- `Stats` (stats.dfy): the end-of-session summary of `ping`.
- `Session` (session.dfy): the probe loop of `ping` as a fold over the
  outcomes the network supplies, and the report it ends with.

The network is a parameter. Each probe's outcome is an element of a
sequence: lost, answered after so many milliseconds, or raised (an exception
out of `do_ping`). Running out of outcomes while the loop still wants to
probe stands for Ctrl+C.

## Model

| member | source | states |
|---|---|---|
| Base.ByteToI8 | ping.py:86 | reading an octet as `b` gives a value in the signed 8-bit range, congruent to the octet modulo 256 |
| Base.I8ToByte | ping.py:52 | writing a signed 8-bit value as `b` gives the octet that reads back as that value |
| Base.BEToU16 | ping.py:86 | reading two octets as `!H` gives a 16-bit value whose high and low octets are the first and second |
| Base.U16ToBE | ping.py:52 | writing a 16-bit value as `!H` gives two octets that read back as that value |
| Base.BEToI16 | ping.py:86 | reading two octets as `!h` gives a signed 16-bit value congruent to their unsigned reading modulo 2^16 |
| Base.I16ToBE | ping.py:52 | writing a signed 16-bit value as `!h` gives two octets that read back as that value |
| Checksum.Swap16 | ping.py:34 | the byte swap exchanges the high and low octets of a 16-bit value |
| Checksum.WithChecksumField | ping.py:59 | putting a value into the checksum field writes its high octet at offset 2 and its low octet at offset 3 and changes nothing else |
| Checksum.Folded | ping.py:30-31 | the two folds leave a 16-bit value with the same residue modulo 0xffff as the 32-bit sum, and zero only for a zero sum (end-around carry) |
| Checksum.Finish | ping.py:30-34 | complementing and byte-swapping the folded sum gives a 16-bit value that is zero exactly when the sum is a non-zero multiple of 0xffff |
| Checksum.InternetChecksum | ping.py:12-35 | the checksum of any message is a 16-bit value, zero exactly when its masked word sum is a non-zero multiple of 0xffff |
| Checksum.ComputeChecksum | ping.py:18-35 | the word loop with its 32-bit mask, the folds, the complement and the swap compute `InternetChecksum`, so a loop-based reading and the recursive definition agree |
| Checksum.ChecksumSelfCheck | ping.py:57-59 | a message checksummed with a zero field, then given that checksum big-endian in octets 2-3, has checksum 0 (the receiver's test of RFC 1071), for any length from 4 to 65535 octets, odd or even |
| Checksum.AsWrittenLoop | ping.py:19-25 | the word loop as line 19 reads under Python 3 keeps its running sum below 2^32 by the mask of line 24 |
| Checksum.ChecksumAsWritten | ping.py:19-35 | `checksum` as written returns exactly on even lengths, and then a 16-bit value; on an odd length it raises |
| Checksum.ChecksumAsWrittenOnlyEven | ping.py:19-28 | `checksum` as written agrees with the intended checksum on even lengths and raises on every odd length |
| Codec.UnpackHeader | ping.py:86 | `struct.unpack("!bbHHh")` yields fields within the ranges of their codes |
| Codec.PackHeader | ping.py:52 | `struct.pack("!bbHHh")` succeeds exactly when every field is within its code's range, and unpacking the result gives the header back |
| Codec.PackUnpacked | ping.py:52 | packing an unpacked header gives the same eight octets back |
| Codec.Payload | ping.py:55 | the payload is the timestamp followed by `size - 8` zero octets, or the timestamp alone when `size` is below 8 |
| Codec.Blanked | ping.py:51-52 | the message with its checksum field zeroed keeps every other octet |
| Codec.EncodeRequest | ping.py:51-60 | a request exists exactly when the identifier fits `H` and the sequence number fits `h`; it is type 8, code 0, identifier, sequence number, timestamp and zero padding at their offsets, with the checksum of the blanked message in octets 2-3 |
| Codec.EncodedRequestVerifies | ping.py:51-60 | every request `send_packet` builds, up to an IPv4 datagram in size, passes the receiver's checksum test |
| Codec.OddSizeBreaksChecksumAsWritten | ping.py:55-57 | with an odd `size` of 9 or more, the message given to `checksum` has odd length and `checksum` as written raises |
| Codec.DecodeReply | ping.py:85-93 | a datagram is accepted exactly when it has at least 36 octets (line 90 unpacks eight timestamp octets from offset 28), octet 20 is 0 and octets 24-25 hold the session's identifier; it is ignored exactly when it has at least 28 octets but fails the type or identifier test, and malformed (`struct.error`) otherwise; an accepted reply carries the payload size, octet 8 as time-to-live and octets 28-35 as the timestamp |
| Codec.DecodeReplyAsWritten | ping.py:92 | as written, parsing fails exactly on accepted replies whose time-to-live is 128 or more, and otherwise agrees with `DecodeReply` |
| Codec.HighTtlReplyBreaksAsWritten | ping.py:92 | a concrete 36-octet reply with time-to-live 128 is accepted by the intended parser and makes the as-written parser raise |
| Codec.EchoedRequestAccepted | ping.py:51-93 | the whole echo of a request, behind a 20-octet IPv4 header, is accepted by the sending session with the padded payload size, the header's time-to-live and the timestamp that was sent |
| Codec.Received | ping.py:83 | `recvfrom(2048)` gives the datagram's first octets, all of them up to 2048 and exactly 2048 beyond that |
| Codec.TruncatedVerdict | ping.py:83-93 | cutting a datagram anywhere after its timestamp keeps its verdict, and an accepted reply then reports the size left after offset 28 |
| Codec.EchoedRequestReceived | ping.py:51-93 | the echo of a request as line 83 receives it, behind a 20-octet IPv4 header, is accepted with the header's time-to-live and the timestamp that was sent, and with the padded payload size up to 2020 and 2020 for larger payloads |
| Codec.OwnRequestIgnored | ping.py:87 | the session's own request, seen on the raw socket, is not taken for a reply |
| Codec.ForeignReplyIgnored | ping.py:87 | the echo of another identifier's request is ignored, whatever its sequence number |
| Session.SessionId | ping.py:136 | the identifier is a 16-bit value congruent to the process id modulo 2^16 |
| Session.ReceiveOutcome | ping.py:75-96 | a probe is lost exactly when every datagram that arrives in time is ignored; otherwise the first datagram that is not ignored decides it: answered with the measured delay if it is accepted, raised if it is malformed |
| Session.Record | ping.py:149-170 | one completed probe keeps `send_times == times == index`, `loss + receive_times == send_times` and `len(delays) == receive_times`, and appends a delay exactly when the probe was answered |
| Session.Loop | ping.py:147-170 | the loop keeps the counter relations, makes at most one probe per outcome, stops with `struct.error` only on a sequence number `h` cannot hold, and stops with an exception only at a probe that raised |
| Session.LoopCounters | ping.py:149-162 | the delays a run of the loop collects are those of the answered probes it made, in probe order |
| Session.LoopLength | ping.py:147-170 | how many probes the loop makes (the fewer of the probes before the first that raises and the probes it may make) and, in each direction, why it stops: by count, by `struct.error` at sequence number 32768, by an exception from a probe, or by interruption |
| Session.CountedSession | ping.py:143-170 | with `signal` other than 1 and `n` from 1 to 32768, a session that is not interrupted and whose first `n` probes do not raise makes exactly `n` probes, numbered 0 to `n - 1` |
| Session.EndlessSession | ping.py:165-170 | with `signal == 1` or `n` below 1, the loop never stops by count; it makes up to 32768 probes and ends with `struct.error` exactly when none of them raised and it was not interrupted first |
| Session.EndlessSessionCrashes | ping.py:147-173 | such a session, not interrupted and with no probe raising, ends with the traceback for sequence number 32768 and prints no summary |
| Session.FailedProbeCrashes | ping.py:146-173 | a probe that raises before the session would stop ends the program with a traceback at that probe's sequence number, with no summary |
| Session.RunCounters | ping.py:137-170 | whatever ends it, a session's counters satisfy the loop's relations and its delays are those of the answered probes among the first `send_times` outcomes |
| Session.Ping | ping.py:146-192 | the program ends with a traceback exactly when the loop ended by `struct.error` or by an exception from a probe; it fails on line 191's division exactly when it was interrupted before the first probe; otherwise its summary has at least one probe sent, lost equal to sent minus received, a loss percentage, and the delay lines exactly when a reply arrived |
| Session.ReportMatchesRun | ping.py:146-192 | a printed summary reports the run that produced it: sent is the number of probes the loop made (the fewer of the probes before the first that raised and the probes it may make), received is the number of answered ones, lost is the difference, the loss percentage is lost of sent, and the delay lines give the least, greatest and truncated mean of exactly those probes' delays |
| Session.SilentHost | ping.py:146-192 | a counted session with no answer reports `n` sent, 0 received, `n` lost, 100 percent loss and no delay summary |
| Session.ResponsiveHost | ping.py:146-186 | a counted session answered every time reports `n` sent and received, no loss and a delay summary |
| Stats.Insert | ping.py:177 | inserting into a sorted list keeps it sorted and adds exactly the one element |
| Stats.Sort | ping.py:177 | `sorted` returns an ordered permutation of its input |
| Stats.TruncDiv | ping.py:185 | `int(a / b)` is the floor for a non-negative dividend and the ceiling for a negative one |
| Stats.LossPercent | ping.py:182 | the loss percentage exists exactly when a probe was counted; it is the value `p` with `p * times == loss * 100`, so 0 for no loss, 100 when all were lost, and between them otherwise |
| Stats.SummarizeDelays | ping.py:176-185 | the delay summary is absent exactly when no delay was recorded; otherwise shortest and longest are recorded delays bounding all of them, and the average is `int(sum(delays) / len(delays))`, which lies between them |
| Stats.Summarize | ping.py:176-192 | the summary prints the counts it is given; it has a loss percentage exactly when a probe was counted (`loss / times` raises otherwise), and that percentage is `loss` of `times`, between 0 and 100 when `loss <= times`; it has the delay lines exactly when `delays` is non-empty, and they give the least and greatest delay and the truncated mean |
| Stats.AverageBetween | ping.py:185 | the truncated average of delays lies between their least and greatest |
| Stats.SortedEnds | ping.py:177-184 | the first and last element of a sorted permutation are its least and greatest elements |

## Left out

- Sockets, `select`, `recvfrom` and the timing of the wait loop of `receive_packet` (lines 75-96) are left out. `Received` keeps the first 2048 octets of a datagram, as line 83's buffer does, and `DecodeReply` gives the verdict on what was received. `ReceiveOutcome` takes the verdicts on the datagrams that arrive before the timeout as a parameter. The session takes each probe's outcome as a parameter.
- Clocks (`time.time`) and the float delay are left out. The delay reaches the model already converted to whole milliseconds, as line 158 does.
- The send timestamp's IEEE-754 encoding is left out. A timestamp is an opaque 8-octet `Stamp`.
- `time.sleep(1)` and all printed text, including line 152, are left out. The summary is a datatype of the printed numbers.
- Name resolution (`gethostbyname`, `gethostbyaddr`, `a_count`) is left out.
- With an `a_count` other than 0 or 1, line 134 never assigns `dest_name`, and line 152 reads it when the probe with sequence number 0 is answered. That raises UnboundLocalError and ends the program with a traceback and no summary (lines 133-134 and 151-152). The session follows the `a_count` values 0 and 1, where line 152 only prints.
- `os.getpid()` is a parameter.
- The command-line parsing of the `__main__` block is left out.
- `PermissionError` from opening a raw socket is left out.
- Ctrl+C is modelled only between probes, as the outcomes running out. An interrupt during `do_ping` happens before the counters move, so it leaves the same state.
- Sequence numbers of 32768 and above: the model follows the code, where `struct.pack` code `h` raises `struct.error` and ends the program with a traceback (`Crashed`). It does not wrap the sequence number around.
- Stats.LossPercent: computed over the rationals. It does not model the float rounding of `loss / times * 100`.
- Checksum.ChecksumSelfCheck: requires the message to be at most 65535 octets. That covers every ICMP message IPv4 can carry, which is at most 65515 octets. Longer messages are not modelled. The 32-bit mask of line 24 could only act once the word sum reaches 2^32, which takes about 131,000 octets.
- Codec.EncodedRequestVerifies: requires `size` of at most 65527, so that the whole message is at most 65535 octets, for the same reason.
- Codec.EchoedRequestAccepted: decodes the whole echo, which is what line 83 receives only when the payload is at most 2020 octets. Line 83 cuts replies to 2048 octets, so larger payloads report `data_size` 2020; `Codec.EchoedRequestReceived` states that case. Both cover only a 20-octet IPv4 header, one without options. `DecodeReply` takes the datagram as `recvfrom` returned it.
- Codec.EchoOf: describes the answering host (RFC 792), not ping.py. Only the lemmas about decoding use it, so it has no row above.
- The session loop uses the corrected `checksum` and reply parser. With the code as written, an odd `size` of 9 or more makes the first probe raise IndexError, and a reply with time-to-live 128 or more makes its probe raise UnicodeDecodeError (see Findings). In the session such a probe is the outcome `Raised`, like a malformed datagram. The program then ends with a traceback and prints no summary.
- The packet size does not change the loop's control flow, so the session's `Config` has no size. Its effect on the message is stated in `Codec`.
- Interruption before the first probe: the program prints the header of line 188 and then raises ZeroDivisionError at line 191 (`times` is 0). The model reports this as `CountsFailed`, without the printed header.

## Findings

| source | as written | input that shows it | evidently intended | confidence | as-written member | corrected member |
|---|---|---|---|---|---|---|
| ping.py:19 | `countTo = (len(packet) / 2) * 2` is true division under Python 3, so `countTo == len(packet)`. On an odd length the loop reads `packet[count + 1]` one past the end and raises IndexError. The trailing-octet branch of lines 26-28 is never reached. | `-l 9`: a 9-octet payload makes a 17-octet message for `checksum` | integer division `//`, with the trailing octet added as its value (section 4.1 of RFC 1071) | high, not executed | Checksum.ChecksumAsWritten (its contract: no result on odd lengths; shown for real requests by Codec.OddSizeBreaksChecksumAsWritten) | Checksum.InternetChecksum (proved by Checksum.ChecksumSelfCheck and Checksum.ComputeChecksum) |
| ping.py:92 | the time-to-live octet is turned into text with `bytes.decode()`, which is UTF-8 and rejects a lone octet of 128 or more with UnicodeDecodeError | an echo reply arriving with time-to-live 128, the usual initial value of Windows hosts (Codec.HighTtlReplyBreaksAsWritten) | the octet's value, `recPacket[8]` | high, not executed | Codec.DecodeReplyAsWritten (shown by Codec.HighTtlReplyBreaksAsWritten) | Codec.DecodeReply (proved against the encoder by Codec.EchoedRequestAccepted) |
