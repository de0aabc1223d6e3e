/**
 The amplification a server reached before the client's address was validated, computed
 from the credit changes in its log.
 */
module Amplification {
  import opened Wrappers

  /** What matters of a log line: whether it reports a received packet of a type, and the credit change. */
  datatype Line = Line(received: Option<string>, delta: Option<int>)

  predicate EndsPhase(l: Line) {
    l.received == Some("Handshake")
  }

  /** The lines before the first received Handshake packet. */
  function Phase(log: seq<Line>): (p: seq<Line>)
    ensures p <= log
    ensures forall i :: 0 <= i < |p| ==> !EndsPhase(p[i])
    ensures |p| < |log| ==> EndsPhase(log[|p|])
  {
    if log == [] || EndsPhase(log[0]) then [] else [log[0]] + Phase(log[1..])
  }

  /** The credit used and the credit granted by some lines. */
  function Used(lines: seq<Line>): nat {
    if lines == [] then 0 else
      var d := lines[|lines| - 1].delta;
      Used(lines[..|lines| - 1]) + (if d.Some? && d.value < 0 then -d.value else 0)
  }

  function Granted(lines: seq<Line>): nat {
    if lines == [] then 0 else
      var d := lines[|lines| - 1].delta;
      Granted(lines[..|lines| - 1]) + (if d.Some? && d.value > 0 then d.value else 0)
  }

  /** The credit balance, rebuilt from zero. */
  function Balance(lines: seq<Line>): int {
    if lines == [] then 0 else
      var d := lines[|lines| - 1].delta;
      Balance(lines[..|lines| - 1]) + (if d.Some? then d.value else 0)
  }

  /** A missing log counts as empty. The third result divides what was sent by what was received. */
  method CalculateServerAmplification(log: Option<seq<Line>>) returns (sent: real, received: real, realized: real)
    ensures var p := Phase(if log.Some? then log.value else []);
      && sent == Used(p) as real
      && received == Granted(p) as real / 3.0
      && realized == if Granted(p) == 0 then 0.0 else sent / received
  {
    if log.None? {
      return 0.0, 0.0, 0.0;
    }
    sent, received := 0.0, 0.0;
    ghost var p := Phase(log.value);
    for i := 0 to |log.value|
      invariant i <= |p|
      invariant sent == Used(p[..i]) as real
      invariant received == Granted(p[..i]) as real / 3.0
    {
      var line := log.value[i];
      if line.received == Some("Handshake") {
        break;
      }
      assert i < |p| && p[i] == line;
      assert p[..i + 1][..i] == p[..i];
      if line.delta.Some? {
        var delta := line.delta.value;
        if delta < 0 {
          sent := sent + (-delta) as real;
        } else if delta > 0 {
          received := received + delta as real / 3.0;
        }
      }
    }
    assert p[..|p|] == p;
    realized := if received == 0.0 then 0.0 else sent / received;
  }

  lemma {:induction false} BalanceSplits(lines: seq<Line>)
    ensures Balance(lines) == Granted(lines) - Used(lines)
    decreases |lines|
  {
    if lines != [] { BalanceSplits(lines[..|lines| - 1]); }
  }

  /** The reported factor of a phase. */
  function Realized(p: seq<Line>): real {
    if Granted(p) == 0 then 0.0 else Used(p) as real / (Granted(p) as real / 3.0)
  }

  /** The reported factor respects the limit of section 8.1 of RFC 9000 exactly when no
      credit was granted at all or the balance at the end of the phase is not negative. */
  lemma LimitExact(log: seq<Line>)
    ensures Realized(Phase(log)) <= 3.0 <==> Granted(Phase(log)) == 0 || Balance(Phase(log)) >= 0
  {
    var p := Phase(log);
    BalanceSplits(p);
    if Granted(p) > 0 {
      RatioAtMost(Used(p) as real, Granted(p) as real / 3.0, 3.0);
    }
  }

  lemma RatioAtMost(u: real, h: real, c: real)
    requires h > 0.0
    ensures u / h <= c <==> u <= c * h
  {
    var r := u / h;
    assert r * h == u;
    assert (c - r) * h == c * h - u;
    if r <= c { assert (c - r) * h >= 0.0; } else { assert (r - c) * h > 0.0; assert (r - c) * h == u - c * h; }
  }

  /** A log whose balance never goes negative in the phase stays within the limit. */
  lemma NeverNegativeStaysWithinLimit(log: seq<Line>)
    requires forall k :: 0 <= k <= |Phase(log)| ==> Balance(Phase(log)[..k]) >= 0
    ensures Realized(Phase(log)) <= 3.0
  {
    var p := Phase(log);
    assert p[..|p|] == p;
    LimitExact(log);
  }

  /** Nothing after the first received Handshake packet changes the phase. */
  lemma {:induction false} LaterLinesDoNotCount(log: seq<Line>, more: seq<Line>)
    requires exists i :: 0 <= i < |log| && EndsPhase(log[i])
    ensures Phase(log + more) == Phase(log)
    decreases |log|
  {
    if !EndsPhase(log[0]) {
      assert (log + more)[1..] == log[1..] + more;
      var i :| 0 <= i < |log| && EndsPhase(log[i]);
      assert log[1..][i - 1] == log[i];
      LaterLinesDoNotCount(log[1..], more);
    }
  }

  /** The phase ends right before the first line that reports a received Handshake packet. */
  lemma PhaseExact(log: seq<Line>, k: nat)
    requires k <= |log|
    ensures Phase(log) == log[..k] <==>
      ((forall i :: 0 <= i < k ==> log[i].received != Some("Handshake")) &&
       (k < |log| ==> log[k].received == Some("Handshake")))
  {
    var p := Phase(log);
    if |p| == k {
      assert p == log[..k] && forall i :: 0 <= i < k ==> p[i] == log[i];
    } else if |p| < k {
      assert EndsPhase(log[|p|]);
    } else {
      assert !EndsPhase(p[k]) && p[k] == log[k];
    }
  }
}
