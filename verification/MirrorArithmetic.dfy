/**
  Proportional mirroring. Each partial decrease by the target becomes a truncated integer share
  of our own liquidity, taken against a stored baseline that is rewritten every time. The
  results here bound the error that truncation accumulates over arbitrarily long runs.
 */
module MirrorArithmetic {
  import opened Arithmetic

  // ---------- exact share (Byreal, DAMM v2) ----------

  /** What the target's liquidity was when last looked at, and what ours is. */
  datatype Mirror = Mirror(stored: nat, ours: nat)

  function Share(ours: nat, stored: nat, current: nat): nat
    requires 0 < current < stored
  {
    MulMono(0, ours, 0, stored - current);
    BnDiv(ours * (stored - current), stored)
  }

  /** What is left after taking the share is our liquidity scaled by current/stored, rounded up. */
  lemma LeftoverIsCeiling(ours: nat, stored: nat, current: nat)
    requires 0 < current < stored
    ensures Share(ours, stored, current) <= ours
    ensures Share(ours, stored, current) == ours ==> ours == 0
    ensures ours * current <= (ours - Share(ours, stored, current)) * stored < ours * current + stored
  {
    var share := Share(ours, stored, current);
    assert ours * (stored - current) == ours * stored - ours * current;
    assert (ours - share) * stored == ours * stored - share * stored;
    if share > ours {
      MulMono(ours + 1, share, stored, stored);
      MulMono(0, ours, 0, current);
      assert false;
    }
    if share == ours && ours > 0 {
      MulMono(1, ours, 1, current);
      assert false;
    }
  }

  lemma ShareIsMonotone(less: nat, more: nat, stored: nat, current: nat)
    requires 0 < current < stored && less <= more
    ensures Share(less, stored, current) <= Share(more, stored, current)
  {
    var a, b := Share(less, stored, current), Share(more, stored, current);
    MulMono(less, more, stored - current, stored - current);
    if a > b {
      MulMono(b + 1, a, stored, stored);
      Distribute(b, 1, stored);
      assert false;
    }
  }

  /** One event of the target, and how much the transactions sent for it took from our position once
      all of them that take effect have done so. That need not be the share of what we hold: sends can
      be lost or repeated, and the share may have been computed from a position read too early. */
  datatype Step =
    | Decreased(current: nat, taken: nat)
    | Unchanged // target grew or stood still, or the event was dropped before the baseline

  predicate Fits(m: Mirror, step: Step) {
    step.Unchanged? || 0 < step.current < m.stored
  }

  function Left(ours: nat, taken: nat): (left: nat)
    ensures left <= ours
  {
    if taken < ours then ours - taken else 0
  }

  function Take(m: Mirror, step: Step): Mirror
    requires Fits(m, step)
  {
    match step
    case Unchanged => m
    case Decreased(current, taken) => Mirror(current, Left(m.ours, taken))
  }

  /** The step takes no more than the share of what we hold. */
  predicate NoMore(m: Mirror, step: Step)
    requires Fits(m, step)
  {
    step.Decreased? ==> m.ours == 0 || step.taken <= Share(m.ours, m.stored, step.current)
  }

  /** The step takes no less than the share of what we hold. */
  predicate NoLess(m: Mirror, step: Step)
    requires Fits(m, step)
  {
    step.Decreased? ==> step.taken >= Share(m.ours, m.stored, step.current)
  }

  /** One step keeps us at the target's share or above exactly when it takes no more than our share. */
  lemma KeepsShareIffNoMore(m: Mirror, current: nat, taken: nat)
    requires 0 < current < m.stored
    ensures m.ours * current <= Left(m.ours, taken) * m.stored <==> NoMore(m, Decreased(current, taken))
  {
    var share, left := Share(m.ours, m.stored, current), Left(m.ours, taken);
    LeftoverIsCeiling(m.ours, m.stored, current);
    if taken <= share {
      MulMono(m.ours - share, left, m.stored, m.stored);
    } else if m.ours > 0 {
      if left > 0 {
        MulMono(left, m.ours - share - 1, m.stored, m.stored);
        Distribute(m.ours - share, -1, m.stored);
      } else {
        MulMono(1, m.ours, 1, current);
      }
    }
  }

  /** One step leaves less than a unit above the target's share exactly when it takes no less. */
  lemma WithinUnitIffNoLess(m: Mirror, current: nat, taken: nat)
    requires 0 < current < m.stored
    ensures Left(m.ours, taken) * m.stored < m.ours * current + m.stored <==> NoLess(m, Decreased(current, taken))
  {
    var share, left := Share(m.ours, m.stored, current), Left(m.ours, taken);
    LeftoverIsCeiling(m.ours, m.stored, current);
    if taken >= share {
      MulMono(left, m.ours - share, m.stored, m.stored);
    } else {
      MulMono(m.ours - share + 1, left, m.stored, m.stored);
      Distribute(m.ours - share, 1, m.stored);
    }
  }

  // ---------- whole runs ----------

  /** The mirrors that a run of steps goes through. */
  ghost predicate Run(trace: seq<Mirror>, steps: seq<Step>) {
    && |trace| == |steps| + 1
    && forall i :: 0 <= i < |steps| ==> Fits(trace[i], steps[i]) && trace[i + 1] == Take(trace[i], steps[i])
  }

  ghost predicate AllNoMore(trace: seq<Mirror>, steps: seq<Step>)
    requires Run(trace, steps)
  {
    forall i :: 0 <= i < |steps| ==> NoMore(trace[i], steps[i])
  }

  ghost predicate AllNoLess(trace: seq<Mirror>, steps: seq<Step>)
    requires Run(trace, steps)
  {
    forall i :: 0 <= i < |steps| ==> NoLess(trace[i], steps[i])
  }

  function DecreaseCount(steps: seq<Step>): nat {
    if steps == [] then 0
    else DecreaseCount(steps[..|steps| - 1]) + if steps[|steps| - 1].Decreased? then 1 else 0
  }

  lemma {:induction false} DecreasesAtMost(steps: seq<Step>)
    ensures DecreaseCount(steps) <= |steps|
    decreases |steps|
  {
    if steps != [] { DecreasesAtMost(steps[..|steps| - 1]); }
  }

  /** The target never grows along a run, and neither do we. */
  lemma {:induction false} RunShrinks(trace: seq<Mirror>, steps: seq<Step>)
    requires Run(trace, steps) && trace[0].stored > 0
    ensures 0 < trace[|steps|].stored <= trace[0].stored && trace[|steps|].ours <= trace[0].ours
    decreases |steps|
  {
    if steps != [] { RunShrinks(trace[..|steps|], steps[..|steps| - 1]); }
  }

  /** If no step takes more than our share, we never fall below the target's: M0·Ln <= Mn·L0. Steps
      that take less, or nothing, do no harm. */
  lemma {:induction false} NeverBelowShare(trace: seq<Mirror>, steps: seq<Step>)
    requires Run(trace, steps) && trace[0].stored > 0 && AllNoMore(trace, steps)
    ensures trace[0].ours * trace[|steps|].stored <= trace[|steps|].ours * trace[0].stored
    decreases |steps|
  {
    if steps != [] {
      var n := |steps| - 1;
      NeverBelowShare(trace[..|steps|], steps[..n]);
      RunShrinks(trace[..|steps|], steps[..n]);
      if steps[n].Decreased? {
        KeepsShareIffNoMore(trace[n], steps[n].current, steps[n].taken);
        LowerBoundStep(trace[0], trace[n], trace[n + 1]);
      }
    }
  }

  lemma LowerBoundStep(m: Mirror, k: Mirror, n: Mirror)
    requires k.stored > 0
    requires m.ours * k.stored <= k.ours * m.stored
    requires k.ours * n.stored <= n.ours * k.stored
    ensures m.ours * n.stored <= n.ours * m.stored
  {
    calc {
      (m.ours * n.stored) * k.stored;
      (m.ours * k.stored) * n.stored;
    <= { MulMono(m.ours * k.stored, k.ours * m.stored, n.stored, n.stored); }
      (k.ours * m.stored) * n.stored;
      (k.ours * n.stored) * m.stored;
    <= { MulMono(k.ours * n.stored, n.ours * k.stored, m.stored, m.stored); }
      (n.ours * k.stored) * m.stored;
      (n.ours * m.stored) * k.stored;
    }
    Cancel(m.ours * n.stored, n.ours * m.stored, k.stored);
  }

  /** If no step takes less than our share, we stay within one unit per decrease above the target's:
      Mn·L0 <= M0·Ln + n·L0, strictly once anything was decreased. */
  lemma {:induction false} NeverFarAboveShare(trace: seq<Mirror>, steps: seq<Step>)
    requires Run(trace, steps) && trace[0].stored > 0 && AllNoLess(trace, steps)
    ensures
      var m, n, count := trace[0], trace[|steps|], DecreaseCount(steps);
      && n.ours * m.stored <= m.ours * n.stored + count * m.stored
      && (count > 0 ==> n.ours * m.stored < m.ours * n.stored + count * m.stored)
    decreases |steps|
  {
    if steps != [] {
      var n := |steps| - 1;
      NeverFarAboveShare(trace[..|steps|], steps[..n]);
      RunShrinks(trace[..|steps|], steps[..n]);
      if steps[n].Decreased? {
        WithinUnitIffNoLess(trace[n], steps[n].current, steps[n].taken);
        UpperBoundStep(trace[0], trace[n], trace[n + 1], DecreaseCount(steps[..n]));
      }
    }
  }

  lemma UpperBoundStep(m: Mirror, k: Mirror, n: Mirror, count: nat)
    requires 0 < n.stored < k.stored && m.stored > 0
    requires k.ours * m.stored <= m.ours * k.stored + count * m.stored
    requires n.ours * k.stored < k.ours * n.stored + k.stored
    ensures n.ours * m.stored < m.ours * n.stored + (count + 1) * m.stored
  {
    var x, y, z := n.stored, k.stored, m.stored;
    var a, b, c, d := n.ours * z, k.ours * z, m.ours * x, count * z;
    assert a * y <= b * x + y * z - z by {
      MulMono(n.ours * y, k.ours * x + (y - 1), z, z);
      Distribute(k.ours * x, y - 1, z);
      Distribute(y, -1, z);
      Swap(n.ours, y, z);
      Swap(k.ours, x, z);
    }
    assert b * x <= c * y + d * y by {
      MulMono(b, m.ours * y + d, x, x);
      Distribute(m.ours * y, d, x);
      Swap(m.ours, y, x);
      MulMono(d, d, x, y);
    }
    Distribute(c, d, y);
    Distribute(c + d, z, y);
    Distribute(count, 1, z);
    if a >= c + d + z {
      MulMono(c + d + z, a, y, y);
      assert false;
    }
  }

  /** A position that had liquidity keeps some while the target does. */
  lemma NeverEmptied(trace: seq<Mirror>, steps: seq<Step>)
    requires Run(trace, steps) && trace[0].stored > 0 && trace[0].ours > 0 && AllNoMore(trace, steps)
    ensures trace[|steps|].ours > 0
  {
    RunShrinks(trace, steps);
    NeverBelowShare(trace, steps);
    MulMono(1, trace[0].ours, 1, trace[|steps|].stored);
  }

  /** Reaching the same target liquidity in several steps never removes more than one step would. */
  lemma SplittingNeverRemovesMore(trace: seq<Mirror>, steps: seq<Step>)
    requires Run(trace, steps) && 0 < trace[|steps|].stored < trace[0].stored && AllNoMore(trace, steps)
    ensures
      var m, n := trace[0], trace[|steps|];
      m.ours - Share(m.ours, m.stored, n.stored) <= n.ours
  {
    var m, n := trace[0], trace[|steps|];
    NeverBelowShare(trace, steps);
    LeftoverIsCeiling(m.ours, m.stored, n.stored);
    var direct := m.ours - Share(m.ours, m.stored, n.stored);
    if direct > n.ours {
      MulMono(n.ours + 1, direct, m.stored, m.stored);
      Distribute(n.ours, 1, m.stored);
      assert false;
    }
  }

  /** The upper bound needs every decrease to take its share. After a single one that took nothing,
      the bound that counts no decrease fails exactly when we hold anything at all; the one that
      counts it fails exactly when our exact share of it was more than one unit. */
  lemma LostSendLeavesExcess(m: Mirror, current: nat)
    requires 0 < current < m.stored
    ensures Run([m, Mirror(current, m.ours)], [Decreased(current, 0)])
    ensures m.ours * m.stored <= m.ours * current + 0 * m.stored <==> m.ours == 0
    ensures m.ours * m.stored <= m.ours * current + 1 * m.stored <==> m.ours * (m.stored - current) <= m.stored
  {
    Distribute(current, m.stored - current, m.ours);
    if m.ours > 0 { MulMono(1, m.ours, 1, m.stored - current); }
  }

  // ---------- basis points (Meteora DLMM) ----------

  function Bps(stored: nat, current: nat): nat
    requires 0 < current < stored
  {
    BnDiv((stored - current) * 10000, stored)
  }

  /** The basis points of a partial decrease are below 10000, and what the request keeps is the
      target's remaining fraction rounded up to a basis point. */
  lemma BpsBounds(stored: nat, current: nat)
    requires 0 < current < stored
    ensures Bps(stored, current) < 10000
    ensures 10000 * current <= (10000 - Bps(stored, current)) * stored < 10000 * current + stored
  {
    var bps := Bps(stored, current);
    Distribute(10000 - bps, bps, stored);
    if bps >= 10000 {
      MulMono(10000, bps, stored, stored);
      assert false;
    }
  }

  /** The target's liquidity after each observed partial decrease, starting from `stored`. */
  predicate Decreases(stored: nat, currents: seq<nat>)
    decreases |currents|
  {
    currents == [] ||
    (var init := currents[..|currents| - 1];
     Decreases(stored, init) && 0 < currents[|currents| - 1] < LastOf(stored, init))
  }

  function LastOf(stored: nat, currents: seq<nat>): nat {
    if currents == [] then stored else currents[|currents| - 1]
  }

  /** The basis points requested at each decrease of the run. */
  function Requests(stored: nat, currents: seq<nat>): (r: seq<int>)
    requires Decreases(stored, currents)
    ensures |r| == |currents|
    decreases |currents|
  {
    if currents == [] then []
    else
      var init := currents[..|currents| - 1];
      Requests(stored, init) + [Bps(LastOf(stored, init), currents[|currents| - 1])]
  }

  /** Product of (10000 - bps) over a series of requests. */
  function Remaining(requests: seq<int>): int
    decreases |requests|
  {
    if requests == [] then 1 else Remaining(requests[..|requests| - 1]) * (10000 - requests[|requests| - 1])
  }

  function Scale(n: nat): nat {
    if n == 0 then 1 else Scale(n - 1) * 10000
  }

  /** After `n` requests: what they keep of a position is at least the target's remaining fraction,
      and at most one basis point per request more. */
  ghost predicate Tracks(stored: nat, now: nat, kept: int, n: nat) {
    && 0 < now <= stored && 0 <= kept <= Scale(n)
    && Scale(n) * now <= kept * stored
    && kept * stored * 10000 <= Scale(n) * (10000 * now + n * stored)
  }

  /** Over any run, the requests together keep at least the target's remaining fraction, and at
      most one basis point per request more. */
  lemma {:induction false} RequestsTrackTarget(stored: nat, currents: seq<nat>)
    requires stored > 0 && Decreases(stored, currents)
    ensures Tracks(stored, LastOf(stored, currents), Remaining(Requests(stored, currents)), |currents|)
    decreases |currents|
  {
    if currents != [] {
      var init := currents[..|currents| - 1];
      var before, now, requests := LastOf(stored, init), currents[|currents| - 1], Requests(stored, init);
      RequestsTrackTarget(stored, init);
      TracksRequest(stored, before, now, Remaining(requests), |init|);
      assert (requests + [Bps(before, now)])[..|init|] == requests;
    }
  }

  /** An event that requests nothing keeps everything. */
  lemma TracksNothingRequested(stored: nat, now: nat, kept: nat, n: nat)
    requires Tracks(stored, now, kept, n)
    ensures Tracks(stored, now, kept * 10000, n + 1)
  {
    var scale, bound, more := Scale(n), 10000 * now + n * stored, 10000 * now + (n + 1) * stored;
    assert Scale(n + 1) == scale * 10000;
    MulMono(kept, scale, 10000, 10000);
    assert (scale * 10000) * now <= (kept * 10000) * stored by {
      Swap(scale, 10000, now);
      Swap(kept, 10000, stored);
    }
    MulMono(0, n, 0, stored);
    Distribute(n, 1, stored);
    MulMono(scale, scale, bound, more);
    Swap(kept, 10000, stored);
    Swap(scale, 10000, more);
  }

  lemma TracksRequest(stored: nat, before: nat, now: nat, kept: nat, n: nat)
    requires Tracks(stored, before, kept, n) && 0 < now < before
    ensures Tracks(stored, now, kept * (10000 - Bps(before, now)), n + 1)
  {
    BpsBounds(before, now);
    var keep := 10000 - Bps(before, now);
    assert Scale(n + 1) == Scale(n) * 10000;
    MulMono(kept, Scale(n), keep, 10000);
    BpsLowerStep(stored, before, now, kept, Scale(n), keep);
    UpperStep(10000, stored, before, now, kept, Scale(n), keep, n);
  }

  lemma BpsLowerStep(stored: nat, before: nat, now: nat, kept: nat, scale: nat, keep: nat)
    requires before > 0 && scale * before <= kept * stored && 10000 * now <= keep * before
    ensures (scale * 10000) * now <= (kept * keep) * stored
  {
    calc {
      ((scale * 10000) * now) * before;
      (scale * (10000 * now)) * before;
      { Swap(scale, 10000 * now, before); }
      (scale * before) * (10000 * now);
    <= { MulMono(scale * before, kept * stored, 10000 * now, keep * before); }
      (kept * stored) * (keep * before);
      ((kept * stored) * keep) * before;
      { Swap(kept, stored, keep); }
      ((kept * keep) * stored) * before;
    }
    Cancel((scale * 10000) * now, (kept * keep) * stored, before);
  }

  /** With `unit` for 10000: the accumulated excess scales down with the target, and rounding
      adds at most one basis point of the baseline. */
  lemma UpperStep(unit: nat, stored: nat, before: nat, now: nat, kept: nat, scale: nat, keep: nat, n: nat)
    requires 0 < now < before && kept <= scale
    requires kept * stored * unit <= scale * (unit * before + n * stored)
    requires keep * before <= unit * now + before
    ensures (kept * keep) * stored * unit <= (scale * unit) * (unit * now + (n + 1) * stored)
  {
    var a, v, g := kept * stored * unit, n * stored, scale * unit;
    MulMono(0, kept * stored, 0, unit);
    assert a <= g * stored by {
      MulMono(kept, scale, stored * unit, stored * unit);
      Swap(scale, unit, stored);
    }
    OldExcessShrinks(unit, before, now, scale, v, a);
    Combine(a, keep, before, unit * now, g * (unit * now + v), g * stored);
    assert g * (unit * now + v) + g * stored == g * (unit * now + v + stored);
    assert (kept * keep) * stored * unit == a * keep by {
      Swap(kept, keep, stored);
      Swap(kept * stored, keep, unit);
    }
    Distribute(n, 1, stored);
  }

  lemma Combine(a: nat, keep: nat, before: nat, t: nat, oldPart: nat, newPart: nat)
    requires before > 0 && keep * before <= t + before
    requires a * t <= oldPart * before && a <= newPart
    ensures a * keep <= oldPart + newPart
  {
    MulMono(a, a, keep * before, t + before);
    MulMono(a, newPart, before, before);
    assert (a * keep) * before == a * (keep * before);
    Distribute(t, before, a);
    Distribute(oldPart, newPart, before);
    Cancel(a * keep, oldPart + newPart, before);
  }

  lemma OldExcessShrinks(unit: nat, before: nat, now: nat, scale: nat, v: nat, a: nat)
    requires now < before && a <= scale * (unit * before + v)
    ensures a * (unit * now) <= ((scale * unit) * (unit * now + v)) * before
  {
    var shrunk := (unit * now + v) * before;
    assert (unit * before + v) * now <= shrunk by {
      MulMono(v, v, now, before);
      Distribute(unit * before, v, now);
      Distribute(unit * now, v, before);
      Swap(unit, before, now);
    }
    MulMono(0, unit, 0, before);
    MulMono(a, scale * (unit * before + v), now, now);
    MulMono(scale, scale, (unit * before + v) * now, shrunk);
    assert (scale * (unit * before + v)) * now == scale * ((unit * before + v) * now);
    MulMono(0, a, 0, now);
    MulMono(a * now, scale * shrunk, unit, unit);
    assert a * (unit * now) == (a * now) * unit;
    assert (scale * shrunk) * unit == (scale * unit) * shrunk by { Swap(scale, shrunk, unit); }
    assert (scale * unit) * shrunk == ((scale * unit) * (unit * now + v)) * before;
  }
}
