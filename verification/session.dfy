/**
 The probe loop of `ping` (ping.py lines 136-192) as a fold over the
 outcomes the network supplies. Each element of `outcomes` is what one
 `do_ping` call did; running out of outcomes while the loop still wants
 to probe stands for a Ctrl+C observed between two probes.

 The session uses the intended checksum and reply parser of `Checksum` and
 `Codec`; the two defects of the code as written are stated there.
 */
module Session {
  import opened Base
  import Codec
  import Stats

  /**
   One `do_ping` call: it returned `None`, it returned a reply whose delay
   `int(delay * 1000)` is in milliseconds, or an exception came out of it.
   `receive_packet` raises on a datagram too short for its `struct.unpack`
   calls; `send_packet` raises where `sendto` fails, and in the code as
   written on the defects stated in `Checksum` and `Codec`.
   */
  datatype Outcome = Lost | Answered(delayMs: int) | Raised

  /**
   Lines 75-96 after `recvfrom`: the verdicts on the datagrams that arrive
   before the wait gives up, in arrival order, each `Codec.DecodeReply` of
   what `Codec.Received` keeps of the datagram. Ignored traffic is skipped;
   the first other verdict decides the probe; none at all is a timeout.
   `delayMs` is the delay the clock gives for the accepted reply.
   */
  function ReceiveOutcome(verdicts: seq<Codec.Verdict>, delayMs: int): (o: Outcome)
    ensures o.Lost? <==> AllIgnored(verdicts)
    ensures o.Answered? ==> o.delayMs == delayMs
    ensures o.Answered? ==> exists i :: 0 <= i < |verdicts| && verdicts[i].Accepted? && AllIgnored(verdicts[..i])
    ensures o.Raised? ==> exists i :: 0 <= i < |verdicts| && verdicts[i].Malformed? && AllIgnored(verdicts[..i])
    decreases |verdicts|
  {
    if |verdicts| == 0 then Lost
    else
      match verdicts[0]
      case Accepted(_) =>
        assert AllIgnored(verdicts[..0]);
        Answered(delayMs)
      case Malformed =>
        assert AllIgnored(verdicts[..0]);
        Raised
      case Ignored =>
        var o := ReceiveOutcome(verdicts[1..], delayMs);
        if o.Answered? then
          var i :| 0 <= i < |verdicts| - 1 && verdicts[1..][i].Accepted? && AllIgnored(verdicts[1..][..i]);
          IgnoredPrefix(verdicts, i);
          o
        else if o.Raised? then
          var i :| 0 <= i < |verdicts| - 1 && verdicts[1..][i].Malformed? && AllIgnored(verdicts[1..][..i]);
          IgnoredPrefix(verdicts, i);
          o
        else
          assert forall i :: 1 <= i < |verdicts| ==> verdicts[1..][i - 1] == verdicts[i];
          o
  }

  predicate AllIgnored(verdicts: seq<Codec.Verdict>) {
    forall i :: 0 <= i < |verdicts| ==> verdicts[i].Ignored?
  }

  /** An ignored datagram in front of an ignored run gives a longer ignored run. */
  lemma IgnoredPrefix(verdicts: seq<Codec.Verdict>, i: nat)
    requires 0 <= i < |verdicts| - 1 && verdicts[0].Ignored? && AllIgnored(verdicts[1..][..i])
    ensures verdicts[1..][i] == verdicts[i + 1] && AllIgnored(verdicts[..i + 1])
  {
    var s := verdicts[..i + 1];
    forall j | 0 <= j < |s|
      ensures s[j].Ignored?
    {
      if j > 0 {
        assert s[j] == verdicts[1..][..i][j - 1];
      }
    }
  }

  /** The arguments of `ping` the loop depends on; `pid` is what `os.getpid()` returned. */
  datatype Config = Config(pid: int, n: int, signal: int)

  /**
   The loop's variables: `index` is the next sequence number, the counters
   are those of lines 137-141, and `issued` lists the sequence numbers handed
   to `do_ping` so far.
   */
  datatype Counters = Counters(
    index: int, sendTimes: nat, times: nat, loss: nat, receiveTimes: nat,
    delays: seq<int>, issued: seq<int>)

  /**
   How the loop ended: `loop_flag` cleared, interrupted, `struct.error` from
   `send_packet` at a sequence number `h` cannot hold, or another exception
   out of `do_ping`.
   */
  datatype Ending = CountReached | Cancelled | PackFailure | ProbeFailure

  /** Line 136: the identifier is the process id masked to 16 bits. */
  function SessionId(pid: int): (id: int)
    ensures FitsU16(id)
    ensures (id - pid) % TwoTo16 == 0
  {
    pid % TwoTo16
  }

  /** Lines 137-143. */
  const Start: Counters := Counters(0, 0, 0, 0, 0, [], [])

  /** The counter relations the loop keeps. */
  ghost predicate Consistent(c: Counters) {
    && c.sendTimes == c.times == |c.issued| == c.index
    && c.loss + c.receiveTimes == c.sendTimes
    && |c.delays| == c.receiveTimes
    && (forall i :: 0 <= i < |c.issued| ==> c.issued[i] == i)
  }

  /**
   Lines 149-170 after a completed probe: count it, count a loss or a reply
   and keep its delay, and move to the next sequence number.
   */
  function Record(c: Counters, o: Outcome): (r: Counters)
    requires !o.Raised?
    ensures Consistent(c) ==> Consistent(r)
    ensures r.delays == c.delays + (if o.Answered? then [o.delayMs] else [])
  {
    var c' := c.(index := c.index + 1, sendTimes := c.sendTimes + 1, times := c.times + 1,
                 issued := c.issued + [c.index]);
    match o
    case Lost => c'.(loss := c.loss + 1)
    case Answered(d) => c'.(receiveTimes := c.receiveTimes + 1, delays := c.delays + [d])
  }

  /**
   Lines 147-170. `send_packet` packs the sequence number with `h` first, so
   an index outside 16 signed bits ends the loop with `struct.error` before
   anything is counted; so does an exception while waiting for the reply.
   After a probe, `loop_flag` is cleared when the index was `n - 1`, unless
   `signal` is 1.
   */
  function Loop(c: Counters, looping: bool, outcomes: seq<Outcome>, cfg: Config): (r: (Counters, Ending))
    ensures Consistent(c) ==> Consistent(r.0)
    ensures c.index <= r.0.index <= c.index + |outcomes|
    ensures r.1 == PackFailure ==> !Codec.Encodable(SessionId(cfg.pid), r.0.index)
    ensures r.1 == ProbeFailure ==> r.0.index < c.index + |outcomes| && outcomes[r.0.index - c.index].Raised?
    decreases |outcomes|
  {
    if !looping then (c, CountReached)
    else if |outcomes| == 0 then (c, Cancelled)
    else if !Codec.Encodable(SessionId(cfg.pid), c.index) then (c, PackFailure)
    else if outcomes[0].Raised? then (c, ProbeFailure)
    else
      var stillLooping := c.index != cfg.n - 1 || cfg.signal == 1;
      var r := Loop(Record(c, outcomes[0]), stillLooping, outcomes[1..], cfg);
      assert r.1 == ProbeFailure ==> outcomes[r.0.index - c.index] == outcomes[1..][r.0.index - c.index - 1];
      r
  }

  function Run(cfg: Config, outcomes: seq<Outcome>): (Counters, Ending)
  {
    Loop(Start, true, outcomes, cfg)
  }

  /** The delays of the answered probes, in probe order. */
  function Delays(outcomes: seq<Outcome>): seq<int>
  {
    if |outcomes| == 0 then []
    else (if outcomes[0].Answered? then [outcomes[0].delayMs] else []) + Delays(outcomes[1..])
  }

  /** How many probes complete before the first one that raises. */
  function Clean(outcomes: seq<Outcome>): (k: nat)
    ensures k <= |outcomes|
    ensures forall i :: 0 <= i < k ==> !outcomes[i].Raised?
    ensures k < |outcomes| ==> outcomes[k].Raised?
  {
    if |outcomes| == 0 || outcomes[0].Raised? then 0 else 1 + Clean(outcomes[1..])
  }

  /**
   The delays are appended in probe order: those of the answered probes
   among the outcomes the loop consumed.
   */
  lemma {:induction false} LoopCounters(c: Counters, looping: bool, outcomes: seq<Outcome>, cfg: Config)
    ensures var f := Loop(c, looping, outcomes, cfg).0;
      f.delays == c.delays + Delays(outcomes[..f.index - c.index])
    decreases |outcomes|
  {
    if looping && |outcomes| > 0 && Codec.Encodable(SessionId(cfg.pid), c.index) && !outcomes[0].Raised? {
      var next := Record(c, outcomes[0]);
      var stillLooping := c.index != cfg.n - 1 || cfg.signal == 1;
      LoopCounters(next, stillLooping, outcomes[1..], cfg);
      var f := Loop(next, stillLooping, outcomes[1..], cfg).0;
      DelaysPrefix(outcomes, f.index - c.index);
    } else {
      assert outcomes[..0] == [];
    }
  }

  /** The delays of a non-empty prefix: the first outcome's, then the rest's. */
  lemma DelaysPrefix(outcomes: seq<Outcome>, k: nat)
    requires 1 <= k <= |outcomes|
    ensures Delays(outcomes[..k]) ==
      (if outcomes[0].Answered? then [outcomes[0].delayMs] else []) + Delays(outcomes[1..][..k - 1])
  {
    assert outcomes[..k][1..] == outcomes[1..][..k - 1];
  }

  /** The session stops on its own by count: finite mode with a count that fits in `h`. */
  predicate StopsByCount(cfg: Config) {
    cfg.signal != 1 && 1 <= cfg.n <= 0x8000
  }

  /** The probes a session can make before it stops by itself or `struct.error` stops it. */
  function Limit(cfg: Config): int {
    if StopsByCount(cfg) then cfg.n else 0x8000
  }

  function Min(a: int, b: int): int {
    if a <= b then a else b
  }

  /**
   How many probes the loop makes from index `i`, and why it stops: by count
   when the count is reachable and enough probes complete, by `struct.error`
   at index 32768, by an exception when a probe raises first, and by
   interruption when the outcomes run out.
   */
  lemma {:induction false} LoopLength(c: Counters, outcomes: seq<Outcome>, cfg: Config)
    requires 0 <= c.index <= Limit(cfg)
    requires StopsByCount(cfg) ==> c.index < Limit(cfg)
    ensures var (f, e) := Loop(c, true, outcomes, cfg);
      var left := Limit(cfg) - c.index;
      var k := Clean(outcomes);
      && f.index - c.index == Min(k, left)
      && (e == CountReached <==> StopsByCount(cfg) && k >= left)
      && (e == PackFailure <==> !StopsByCount(cfg) && k >= left && |outcomes| > left)
      && (e == ProbeFailure <==> k < left && k < |outcomes|)
    decreases |outcomes|
  {
    if |outcomes| > 0 && Codec.Encodable(SessionId(cfg.pid), c.index) && !outcomes[0].Raised? {
      var next := Record(c, outcomes[0]);
      assert Clean(outcomes[1..]) == Clean(outcomes) - 1;
      if StopsByCount(cfg) && c.index == cfg.n - 1 {
        assert Loop(c, true, outcomes, cfg) == (next, CountReached);
      } else {
        assert c.index != cfg.n - 1 || cfg.signal == 1;
        LoopLength(next, outcomes[1..], cfg);
      }
    }
  }

  /**
   What a session started from the state of lines 137-143 ends with, for
   the outcomes it was given: how many probes it made, why it stopped, and
   its counters.
   */
  ghost predicate Fresh(r: (Counters, Ending), outcomes: seq<Outcome>, cfg: Config) {
    var (f, e) := r;
    var k := Clean(outcomes);
    && f.index == f.sendTimes == f.times <= |outcomes|
    && f.loss + f.receiveTimes == f.sendTimes
    && f.receiveTimes == |f.delays|
    && f.delays == Delays(outcomes[..f.sendTimes])
    && f.issued == seq(f.sendTimes, i => i)
    && f.index == Min(k, Limit(cfg))
    && (e == CountReached <==> StopsByCount(cfg) && k >= Limit(cfg))
    && (e == PackFailure <==> !StopsByCount(cfg) && k >= Limit(cfg) && |outcomes| > Limit(cfg))
    && (e == ProbeFailure <==> k < Limit(cfg) && k < |outcomes|)
  }

  /**
   The loop started from the state of lines 137-143, `c`. (Written with `c`
   pinned to `Start` rather than with `Start` itself, which makes the
   verifier unfold the loop on the constant.)
   */
  lemma FromStart(c: Counters, cfg: Config, outcomes: seq<Outcome>)
    requires c == Start
    ensures Fresh(Loop(c, true, outcomes, cfg), outcomes, cfg)
  {
    FromFresh(c, cfg, outcomes);
  }

  /** The same, for any state that agrees with the start where the loop reads it. */
  lemma FromFresh(c: Counters, cfg: Config, outcomes: seq<Outcome>)
    requires Consistent(c) && c.index == 0 && c.delays == []
    ensures Fresh(Loop(c, true, outcomes, cfg), outcomes, cfg)
  {
    LoopCounters(c, true, outcomes, cfg);
    LoopLength(c, outcomes, cfg);
    var f := Loop(c, true, outcomes, cfg).0;
    assert f.delays == [] + Delays(outcomes[..f.index]);
    IssuedInOrder(f.issued);
  }

  /** A sequence whose every element is its own position counts up from 0. */
  lemma IssuedInOrder(issued: seq<int>)
    requires forall i :: 0 <= i < |issued| ==> issued[i] == i
    ensures issued == seq(|issued|, i => i)
  {
  }

  /**
   With `signal` other than 1 and a count `n` from 1 to 32768, a session
   whose first `n` probes complete makes exactly `n` probes, numbered 0 to
   `n - 1` in order.
   */
  lemma CountedSession(cfg: Config, outcomes: seq<Outcome>)
    requires cfg.signal != 1 && 1 <= cfg.n <= 0x8000
    requires |outcomes| >= cfg.n && forall i :: 0 <= i < cfg.n ==> !outcomes[i].Raised?
    ensures var (f, e) := Run(cfg, outcomes);
      && e == CountReached
      && f.sendTimes == cfg.n
      && f.issued == seq(cfg.n, i => i)
  {
    FromStart(Start, cfg, outcomes);
  }

  /**
   With `signal == 1`, or a count below 1, the loop never stops by count: it
   runs until interrupted, until a probe raises, or until it fails packing
   sequence number 32768.
   */
  lemma EndlessSession(cfg: Config, outcomes: seq<Outcome>)
    requires cfg.signal == 1 || cfg.n <= 0
    ensures var (f, e) := Run(cfg, outcomes);
      && e != CountReached
      && (e == PackFailure <==> Clean(outcomes) >= 0x8000 && |outcomes| > 0x8000)
      && f.sendTimes == Min(Clean(outcomes), 0x8000)
  {
    FromStart(Start, cfg, outcomes);
  }

  /** Every run, however it ends, keeps the counter relations of the loop. */
  lemma RunCounters(cfg: Config, outcomes: seq<Outcome>)
    ensures var f := Run(cfg, outcomes).0;
      && f.sendTimes == f.times <= |outcomes|
      && f.loss + f.receiveTimes == f.sendTimes
      && f.receiveTimes == |f.delays|
      && f.delays == Delays(outcomes[..f.sendTimes])
      && f.issued == seq(f.sendTimes, i => i)
  {
    FromStart(Start, cfg, outcomes);
  }

  /**
   What the program ends with: a traceback out of the loop (`struct.error`
   packing `sequence`, or an exception while probing it); the line-188
   header followed by the ZeroDivisionError of line 191 when no probe
   completed; or the summary.
   */
  datatype Report =
    | Crashed(ending: Ending, sequence: int)
    | CountsFailed
    | Reported(ending: Ending, stats: Stats.Statistics)

  /** `ping` after name resolution: the loop, then the summary of lines 176-192. */
  function Ping(cfg: Config, outcomes: seq<Outcome>): (rep: Report)
    ensures rep.Crashed? <==> Run(cfg, outcomes).1 in {PackFailure, ProbeFailure}
    ensures rep.CountsFailed? <==> |outcomes| == 0
    ensures rep.Reported? ==>
      && rep.stats.sent > 0
      && rep.stats.lost == rep.stats.sent - rep.stats.received
      && rep.stats.lossPercent.Some?
      && (rep.stats.delays.Spread? <==> rep.stats.received > 0)
  {
    FromStart(Start, cfg, outcomes);
    var (c, e) := Run(cfg, outcomes);
    if e == PackFailure || e == ProbeFailure then Crashed(e, c.index)
    else if c.times == 0 then CountsFailed
    else Reported(e, Stats.Summarize(c.sendTimes, c.receiveTimes, c.loss, c.times, c.delays))
  }

  /**
   An endless session whose first 32768 probes complete, and that is not
   interrupted, ends in the `struct.error` traceback for sequence number
   32768, with no summary.
   */
  lemma EndlessSessionCrashes(cfg: Config, outcomes: seq<Outcome>)
    requires cfg.signal == 1 || cfg.n <= 0
    requires |outcomes| > 0x8000 && forall i :: 0 <= i < 0x8000 ==> !outcomes[i].Raised?
    ensures Ping(cfg, outcomes) == Crashed(PackFailure, 0x8000)
  {
    FromStart(Start, cfg, outcomes);
  }

  /**
   A probe that raises before the session would stop ends the program with
   a traceback at its sequence number, and nothing is summarized.
   */
  lemma FailedProbeCrashes(cfg: Config, outcomes: seq<Outcome>, k: nat)
    requires k < |outcomes| && k < Limit(cfg) && outcomes[k].Raised?
    requires forall i :: 0 <= i < k ==> !outcomes[i].Raised?
    ensures Ping(cfg, outcomes) == Crashed(ProbeFailure, k)
  {
    FromStart(Start, cfg, outcomes);
    assert Clean(outcomes) == k;
  }

  /**
   A printed summary reports the run that produced it: the probes made
   before the session stopped, the replies among them, the loss percentage
   of lines 182 and 191, and the delay lines of lines 184-185 over exactly
   the delays of those replies.
   */
  lemma ReportMatchesRun(cfg: Config, outcomes: seq<Outcome>)
    ensures var rep := Ping(cfg, outcomes);
      rep.Reported? ==>
        var sent := Min(Clean(outcomes), Limit(cfg));
        var ds := Delays(outcomes[..sent]);
        && rep.ending == Run(cfg, outcomes).1
        && rep.stats.sent == Run(cfg, outcomes).0.sendTimes == sent
        && rep.stats.received == |ds|
        && rep.stats.lost == sent - |ds|
        && rep.stats.lossPercent.Some?
        && Stats.IsPercent(rep.stats.lossPercent.value, rep.stats.lost, sent)
        && 0.0 <= rep.stats.lossPercent.value <= 100.0
        && (rep.stats.delays.Spread? <==> |ds| > 0)
        && Stats.Describes(rep.stats.delays, ds)
  {
    FromStart(Start, cfg, outcomes);
    var f := Run(cfg, outcomes).0;
    if f.times > 0 {
      SummaryOfRun(f, f.sendTimes, f.delays);
    }
  }

  /** The summary of lines 176-192 over the counters of a session that made `sent` probes. */
  lemma SummaryOfRun(f: Counters, sent: nat, ds: seq<int>)
    requires f.sendTimes == f.times == sent > 0
    requires f.loss + f.receiveTimes == f.sendTimes && f.receiveTimes == |f.delays|
    requires f.delays == ds
    ensures var st := Stats.Summarize(f.sendTimes, f.receiveTimes, f.loss, f.times, f.delays);
      && st.sent == sent
      && st.received == |ds|
      && st.lost == sent - |ds|
      && st.lossPercent.Some?
      && Stats.IsPercent(st.lossPercent.value, st.lost, sent)
      && 0.0 <= st.lossPercent.value <= 100.0
      && (st.delays.Spread? <==> |ds| > 0)
      && Stats.Describes(st.delays, ds)
  {
  }

  /** No answered probe contributes no delay. */
  lemma {:induction false} NoAnswersNoDelays(outcomes: seq<Outcome>)
    requires forall i :: 0 <= i < |outcomes| ==> outcomes[i] == Lost
    ensures Delays(outcomes) == []
  {
    if |outcomes| > 0 {
      NoAnswersNoDelays(outcomes[1..]);
    }
  }

  /** Every answered probe contributes its delay. */
  lemma {:induction false} AllAnswersAllDelays(outcomes: seq<Outcome>)
    requires forall i :: 0 <= i < |outcomes| ==> outcomes[i].Answered?
    ensures |Delays(outcomes)| == |outcomes|
  {
    if |outcomes| > 0 {
      AllAnswersAllDelays(outcomes[1..]);
    }
  }

  /**
   A host that never answers: a counted session reports every probe lost,
   100 percent loss, and only the counts.
   */
  lemma SilentHost(cfg: Config, outcomes: seq<Outcome>)
    requires cfg.signal != 1 && 1 <= cfg.n <= 0x8000
    requires |outcomes| >= cfg.n
    requires forall i :: 0 <= i < |outcomes| ==> outcomes[i] == Lost
    ensures Ping(cfg, outcomes)
      == Reported(CountReached, Stats.Statistics(cfg.n, 0, cfg.n, Some(100.0), Stats.CountsOnly))
  {
    CountedSession(cfg, outcomes);
    RunCounters(cfg, outcomes);
    var (f, e) := Run(cfg, outcomes);
    NoAnswersNoDelays(outcomes[..f.sendTimes]);
  }

  /**
   A host that answers every probe: a counted session reports no loss and a
   delay summary.
   */
  lemma ResponsiveHost(cfg: Config, outcomes: seq<Outcome>)
    requires cfg.signal != 1 && 1 <= cfg.n <= 0x8000
    requires |outcomes| >= cfg.n
    requires forall i :: 0 <= i < |outcomes| ==> outcomes[i].Answered?
    ensures var rep := Ping(cfg, outcomes);
      && rep.Reported? && rep.ending == CountReached
      && rep.stats.sent == rep.stats.received == cfg.n
      && rep.stats.lost == 0 && rep.stats.lossPercent == Some(0.0)
      && rep.stats.delays.Spread?
  {
    CountedSession(cfg, outcomes);
    RunCounters(cfg, outcomes);
    var (f, e) := Run(cfg, outcomes);
    AllAnswersAllDelays(outcomes[..f.sendTimes]);
  }
}
