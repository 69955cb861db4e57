/** The capture loop of main.c. libpcap is replaced by the sequence of
    results `pcap_next_ex` would return, in order: each is the return code
    together with the frame (its pcap_pkthdr lengths and bytes). A code of
    0 (the read timeout expired) is skipped without decoding, PCAP_ERROR
    and PCAP_ERROR_BREAK end the loop, and every other code has its frame
    decoded, in arrival order. */
module Capture {
  import opened Bytes
  import opened Decoder

  const PCAP_ERROR := -1
  const PCAP_ERROR_BREAK := -2

  /** One captured frame: `len` is the length on the wire and `data` the
      bytes libpcap captured, so the header's caplen is |data|. */
  datatype Frame = Frame(len: nat, data: seq<byte>) {
    function Caplen(): nat { |data| }
  }

  /** One call of pcap_next_ex: its return code and what it handed back. */
  datatype NextResult = NextResult(res: int, frame: Frame)

  datatype Option<T> = None | Some(value: T)

  /** The decoded frames in order, and the code that ended the loop; None
      when the capture results ran out first. */
  datatype RunResult = RunResult(outcomes: seq<Outcome>, stop: Option<int>)

  predicate IsTimeout(res: int) { res == 0 }

  predicate IsTerminal(res: int) { res == PCAP_ERROR || res == PCAP_ERROR_BREAK }

  /** The outcome of decoding one delivered frame. */
  function DecodeResult(r: NextResult): Outcome
  {
    Decode(r.frame.data, r.frame.Caplen())
  }

  /** What the capture loop produces from a sequence of results. */
  function Run(results: seq<NextResult>): (r: RunResult)
    ensures |r.outcomes| <= |results|
    ensures r.stop.Some? ==> IsTerminal(r.stop.value)
    decreases |results|
  {
    if results == [] then RunResult([], None)
    else if IsTimeout(results[0].res) then Run(results[1..])
    else if IsTerminal(results[0].res) then RunResult([], Some(results[0].res))
    else
      var rest := Run(results[1..]);
      RunResult([DecodeResult(results[0])] + rest.outcomes, rest.stop)
  }

  /** The capture loop: pull the next result, skip a timeout, stop at an
      error or break, decode anything else. */
  method CaptureLoop(results: seq<NextResult>) returns (outcomes: seq<Outcome>, stop: Option<int>)
    ensures RunResult(outcomes, stop) == Run(results)
  {
    outcomes, stop := [], None;
    var i := 0;
    while i < |results|
      invariant 0 <= i <= |results|
      invariant Run(results) == RunResult(outcomes + Run(results[i..]).outcomes, Run(results[i..]).stop)
    {
      var r := results[i];
      assert results[i..][1..] == results[i + 1..];
      i := i + 1;
      if IsTimeout(r.res) {
        continue;
      }
      if IsTerminal(r.res) {
        stop := Some(r.res);
        break;
      }
      var outcome := DecodeFrame(r.frame.data, r.frame.Caplen());
      outcomes := outcomes + [outcome];
    }
  }

  // ---------------------------------------------------------------------
  // Properties of the loop

  /** A timeout anywhere in the stream changes nothing: it is neither
      decoded nor does it stop the loop. */
  lemma {:induction false} TimeoutIgnored(xs: seq<NextResult>, t: NextResult, ys: seq<NextResult>)
    requires IsTimeout(t.res)
    ensures Run(xs + [t] + ys) == Run(xs + ys)
    decreases |xs|
  {
    if xs == [] {
      assert ([] + [t] + ys)[1..] == ys;
      assert [] + ys == ys;
    } else {
      assert (xs + [t] + ys)[0] == xs[0] && (xs + ys)[0] == xs[0];
      assert (xs + [t] + ys)[1..] == xs[1..] + [t] + ys;
      assert (xs + ys)[1..] == xs[1..] + ys;
      TimeoutIgnored(xs[1..], t, ys);
    }
  }

  /** The loop ends at the first PCAP_ERROR or PCAP_ERROR_BREAK: what
      follows it is never looked at, and its code is the one reported. */
  lemma {:induction false} StopsAtFirstTerminal(xs: seq<NextResult>, e: NextResult, ys: seq<NextResult>)
    requires forall i | 0 <= i < |xs| :: !IsTerminal(xs[i].res)
    requires IsTerminal(e.res)
    ensures Run(xs).stop == None
    ensures Run(xs + [e] + ys) == RunResult(Run(xs).outcomes, Some(e.res))
    decreases |xs|
  {
    if xs == [] {
      assert ([] + [e] + ys)[0] == e;
    } else {
      assert (xs + [e] + ys)[0] == xs[0];
      assert (xs + [e] + ys)[1..] == xs[1..] + [e] + ys;
      StopsAtFirstTerminal(xs[1..], e, ys);
    }
  }

  /** Without timeouts or terminal codes every result is decoded, one
      outcome per result, in arrival order, and the loop runs to the end. */
  lemma {:induction false} DecodesInOrder(xs: seq<NextResult>)
    requires forall i | 0 <= i < |xs| :: !IsTimeout(xs[i].res) && !IsTerminal(xs[i].res)
    ensures Run(xs).stop == None
    ensures |Run(xs).outcomes| == |xs|
    ensures forall i | 0 <= i < |xs| :: Run(xs).outcomes[i] == DecodeResult(xs[i])
    decreases |xs|
  {
    if xs != [] {
      DecodesInOrder(xs[1..]);
      forall i | 0 <= i < |xs|
        ensures Run(xs).outcomes[i] == DecodeResult(xs[i])
      {
        if i > 0 {
          assert Run(xs).outcomes[i] == Run(xs[1..]).outcomes[i - 1];
          assert xs[1..][i - 1] == xs[i];
        }
      }
    }
  }

  /** The loop reports a stop code exactly when some result is terminal. */
  lemma {:induction false} StopIffTerminal(xs: seq<NextResult>)
    ensures Run(xs).stop.Some? <==> exists i | 0 <= i < |xs| :: IsTerminal(xs[i].res)
    ensures Run(xs).stop.Some? ==> IsTerminal(Run(xs).stop.value)
    decreases |xs|
  {
    if xs != [] {
      StopIffTerminal(xs[1..]);
      if exists i | 0 <= i < |xs[1..]| :: IsTerminal(xs[1..][i].res) {
        var i :| 0 <= i < |xs[1..]| && IsTerminal(xs[1..][i].res);
        assert IsTerminal(xs[i + 1].res);
      }
      if exists i | 0 <= i < |xs| :: IsTerminal(xs[i].res) {
        var i :| 0 <= i < |xs| && IsTerminal(xs[i].res);
        if i > 0 {
          assert IsTerminal(xs[1..][i - 1].res);
        }
      }
    }
  }
}
