/** The drawdown latch: opening is paused after two consecutive snapshots below the threshold. */
module Drawdown {
  import opened Options

  /** One snapshot callback: the portfolio value and the threshold configured at that moment. */
  datatype Observation = Observation(totalUsd: real, thresholdPct: real)

  /** The snapshot's loss against the baseline reaches the threshold. A zero baseline makes the
      quotient infinite with the sign of the loss, or undefined. */
  predicate Reached(start: real, o: Observation) {
    if start == 0.0 then o.totalUsd < 0.0 else (start - o.totalUsd) / start * 100.0 >= o.thresholdPct
  }

  /** For every observation made with the protection enabled, whether it reached the threshold. */
  function Checks(start: real, after: seq<Observation>): seq<bool>
    decreases |after|
  {
    if after == [] then []
    else
      var before, last := Checks(start, after[..|after| - 1]), after[|after| - 1];
      if last.thresholdPct <= 0.0 then before else before + [Reached(start, last)]
  }

  ghost predicate TwoInARow(checks: seq<bool>) {
    exists i :: 0 <= i < |checks| - 1 && checks[i] && checks[i + 1]
  }

  lemma TwoInARowAppend(checks: seq<bool>, last: bool)
    ensures TwoInARow(checks + [last]) <==> TwoInARow(checks) || (checks != [] && checks[|checks| - 1] && last)
  {
    var longer := checks + [last];
    if TwoInARow(checks) {
      var i :| 0 <= i < |checks| - 1 && checks[i] && checks[i + 1];
      assert longer[i] && longer[i + 1];
    }
    if checks != [] && checks[|checks| - 1] && last {
      assert longer[|checks| - 1] && longer[|checks| - 1 + 1];
    }
  }

  /** The percentage test without the division: what is left of the baseline is at most the part that
      the threshold leaves. */
  predicate Breach(start: real, o: Observation) {
    if start > 0.0 then o.totalUsd * 100.0 <= start * (100.0 - o.thresholdPct)
    else if start < 0.0 then o.totalUsd * 100.0 >= start * (100.0 - o.thresholdPct)
    else o.totalUsd < 0.0
  }

  lemma ReachedIsBreach(start: real, o: Observation)
    ensures Reached(start, o) <==> Breach(start, o)
  {
    if start != 0.0 {
      var q := (start - o.totalUsd) / start;
      assert q * start == start - o.totalUsd;
      assert q * 100.0 * start == start * 100.0 - o.totalUsd * 100.0;
      assert start * (100.0 - o.thresholdPct) == start * 100.0 - o.thresholdPct * start;
      var gap := q * 100.0 - o.thresholdPct;
      assert gap * start == q * 100.0 * start - o.thresholdPct * start;
      assert start > 0.0 ==> (gap >= 0.0 <==> gap * start >= 0.0);
      assert start < 0.0 ==> (gap >= 0.0 <==> gap * start <= 0.0);
    }
  }

  /** Two checked observations reach the threshold with only unchecked ones between them. */
  ghost predicate Adjacent(start: real, after: seq<Observation>, i: int, j: int) {
    && 0 <= i < j < |after|
    && after[i].thresholdPct > 0.0 && Breach(start, after[i])
    && after[j].thresholdPct > 0.0 && Breach(start, after[j])
    && forall k :: i < k < j ==> after[k].thresholdPct <= 0.0
  }

  /** The last checked observation, if any, and its outcome. */
  lemma {:induction false} LastCheck(start: real, after: seq<Observation>) returns (i: int)
    ensures -1 <= i < |after| && (Checks(start, after) == [] <==> i == -1)
    ensures forall k :: i < k < |after| ==> after[k].thresholdPct <= 0.0
    ensures i >= 0 ==>
      var checks := Checks(start, after);
      after[i].thresholdPct > 0.0 && checks[|checks| - 1] == Breach(start, after[i])
    decreases |after|
  {
    i := |after| - 1;
    if after != [] { ReachedIsBreach(start, after[i]); }
    if after != [] && after[i].thresholdPct <= 0.0 {
      var init := after[..i];
      assert forall k :: 0 <= k < |init| ==> init[k] == after[k];
      i := LastCheck(start, init);
    }
  }

  /** The latch said of the observations themselves. */
  lemma {:induction false} PausedExactly(start: real, after: seq<Observation>)
    ensures TwoInARow(Checks(start, after)) <==> exists i, j :: Adjacent(start, after, i, j)
    decreases |after|
  {
    if after != [] {
      var n := |after| - 1;
      var init, last := after[..n], after[n];
      PausedExactly(start, init);
      ReachedIsBreach(start, last);
      TwoInARowAppend(Checks(start, init), Breach(start, last));
      var p := LastCheck(start, init);
      assert forall k :: 0 <= k < n ==> init[k] == after[k];
      assert forall i, j :: j < n ==> (Adjacent(start, init, i, j) <==> Adjacent(start, after, i, j));
      assert forall i :: Adjacent(start, after, i, n) ==> i == p;
      if last.thresholdPct > 0.0 && p >= 0 && Breach(start, init[p]) && Breach(start, last) {
        assert Adjacent(start, after, p, n);
      }
    }
  }

  /** With a constant positive threshold: two neighbouring snapshots. */
  lemma ConstantThreshold(start: real, after: seq<Observation>)
    requires forall i :: 0 <= i < |after| ==> after[i].thresholdPct > 0.0
    ensures TwoInARow(Checks(start, after)) <==>
      exists i :: 0 <= i < |after| - 1 && Breach(start, after[i]) && Breach(start, after[i + 1])
  {
    PausedExactly(start, after);
    forall i, j | Adjacent(start, after, i, j) ensures j == i + 1 {
      assert after[i + 1].thresholdPct > 0.0;
    }
    forall i | 0 <= i < |after| - 1 && Breach(start, after[i]) && Breach(start, after[i + 1])
      ensures Adjacent(start, after, i, i + 1)
    {
    }
  }

  class RiskGuard {
    var startAssetUsd: Option<real>
    var drawdownWarning: bool
    var drawdownPaused: bool
    var others: seq<bool> // the pause flags of the other enabled executors

    ghost var after: seq<Observation> // observations since the baseline

    ghost predicate Valid()
      reads this
    {
      && (startAssetUsd.None? ==> after == [] && !drawdownPaused && !drawdownWarning)
      && (startAssetUsd.Some? ==>
            var checks := Checks(startAssetUsd.value, after);
            && (drawdownPaused <==> TwoInARow(checks))
            && (!drawdownPaused ==> (drawdownWarning <==> checks != [] && checks[|checks| - 1])))
      && forall i :: 0 <= i < |others| ==> others[i] == drawdownPaused
    }

    constructor (otherExecutors: nat)
      ensures Valid() && startAssetUsd.None? && |others| == otherExecutors
    {
      startAssetUsd, drawdownWarning, drawdownPaused := None, false, false;
      others := seq(otherExecutors, _ => false);
      after := [];
    }

    /** The pause is set exactly when two adjacent enabled snapshots after the baseline reached the
        threshold, on every executor alike, and is never cleared. */
    method OnSnapshot(totalUsd: real, thresholdPct: real)
      requires Valid()
      modifies this
      ensures Valid()
      ensures old(startAssetUsd).None? ==> startAssetUsd == Some(totalUsd) && after == []
      ensures old(startAssetUsd).Some? ==>
        startAssetUsd == old(startAssetUsd) && after == old(after) + [Observation(totalUsd, thresholdPct)]
      ensures old(drawdownPaused) ==> drawdownPaused
      ensures |others| == old(|others|)
    {
      if startAssetUsd.None? {
        startAssetUsd := Some(totalUsd);
        return;
      }
      var start := startAssetUsd.value;
      ghost var checks := Checks(start, after);
      ghost var reached := Reached(start, Observation(totalUsd, thresholdPct));
      TwoInARowAppend(checks, reached);
      after := after + [Observation(totalUsd, thresholdPct)];
      assert after[..|after| - 1] == old(after);
      if drawdownPaused { return; }
      if thresholdPct <= 0.0 { return; }
      if Reached(start, Observation(totalUsd, thresholdPct)) {
        if !drawdownWarning {
          drawdownWarning := true;
        } else {
          drawdownPaused := true;
          others := seq(|others|, _ => true);
        }
      } else {
        drawdownWarning := false;
      }
    }
  }

  /** A whole run: the first snapshot is the baseline; at the end every executor's flag says whether
      two adjacent enabled snapshots after it reached the threshold. */
  method RunGuard(observations: seq<Observation>, otherExecutors: nat) returns (paused: bool, others: seq<bool>)
    ensures paused <==> observations != [] && TwoInARow(Checks(observations[0].totalUsd, observations[1..]))
    ensures paused <==> exists i, j :: observations != [] && Adjacent(observations[0].totalUsd, observations[1..], i, j)
    ensures |others| == otherExecutors && forall i :: 0 <= i < |others| ==> others[i] == paused
  {
    var guard := new RiskGuard(otherExecutors);
    for i := 0 to |observations|
      invariant fresh(guard) && guard.Valid() && |guard.others| == otherExecutors
      invariant i == 0 ==> guard.startAssetUsd.None?
      invariant i > 0 ==> guard.startAssetUsd == Some(observations[0].totalUsd) && guard.after == observations[1..i]
    {
      guard.OnSnapshot(observations[i].totalUsd, observations[i].thresholdPct);
    }
    assert |observations| > 0 ==> observations[1..|observations|] == observations[1..];
    if |observations| > 0 { PausedExactly(observations[0].totalUsd, observations[1..]); }
    paused, others := guard.drawdownPaused, guard.others;
  }
}
