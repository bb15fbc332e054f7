/**
  Reference definitions for the asset history: the batch rule "last snapshot of each bucket
  wins", closed buckets, and retention by time window and count.
 */
module TrendSpec {
  import Arithmetic

  /** A portfolio snapshot; the other USD columns travel with it unchanged. */
  datatype Snapshot = Snapshot(ts: nat, totalUsd: real)

  const HOUR: nat := 3600000
  const DAY: nat := 86400000

  /** Start of the bucket of width `size` that holds `ts`. */
  function Floor(ts: nat, size: nat): (b: nat)
    requires size > 0
    ensures b <= ts < b + size
    decreases ts
  {
    if ts < size then 0 else size + Floor(ts - size, size)
  }

  lemma {:induction false} FloorIsMultiple(ts: nat, size: nat) returns (q: nat)
    requires size > 0
    ensures Floor(ts, size) == q * size
    decreases ts
  {
    if ts < size {
      q := 0;
    } else {
      var p := FloorIsMultiple(ts - size, size);
      q := p + 1;
      Arithmetic.Distribute(p, 1, size);
    }
  }

  /** The source's `Math.floor(ts / size) * size`. */
  lemma FloorIsDivision(ts: nat, size: nat)
    requires size > 0
    ensures Floor(ts, size) == ts / size * size
  {
    var q := FloorIsMultiple(ts, size);
    Arithmetic.DivisionIsUnique(ts, size, q);
  }

  lemma {:induction false} FloorGap(a: nat, b: nat, size: nat)
    requires size > 0
    ensures Floor(a, size) < Floor(b, size) ==> a < Floor(b, size)
    ensures a <= b ==> Floor(a, size) <= Floor(b, size)
    ensures Floor(a, size) > 0 <==> a >= size
    decreases a
  {
    if a >= size && b >= size { FloorGap(a - size, b - size, size); }
  }

  lemma {:induction false} FloorReachesMultiple(ts: nat, size: nat, k: nat)
    requires size > 0 && k * size <= ts
    ensures k * size <= Floor(ts, size)
    decreases k
  {
    if k > 0 {
      Arithmetic.Distribute(k - 1, 1, size);
      Arithmetic.MulMono(0, k - 1, 0, size);
      FloorReachesMultiple(ts - size, size, k - 1);
    }
  }

  /** A day boundary is an hour boundary. */
  lemma NewDayIsNewHour(a: nat, b: nat)
    requires Floor(a, DAY) < Floor(b, DAY)
    ensures Floor(a, HOUR) < Floor(b, HOUR)
  {
    FloorGap(a, b, DAY);
    var q := FloorIsMultiple(b, DAY);
    FloorReachesMultiple(b, HOUR, 24 * q);
  }

  ghost predicate NonDecreasing(s: seq<Snapshot>) {
    forall i, j :: 0 <= i <= j < |s| ==> s[i].ts <= s[j].ts
  }

  /** The same, one adjacent pair at a time. */
  ghost predicate Ordered(s: seq<Snapshot>)
    decreases |s|
  {
    |s| < 2 || (Ordered(s[..|s| - 1]) && s[|s| - 2].ts <= s[|s| - 1].ts)
  }

  lemma {:induction false} OrderedIsNonDecreasing(s: seq<Snapshot>)
    ensures Ordered(s) <==> NonDecreasing(s)
    decreases |s|
  {
    if |s| >= 2 {
      var init := s[..|s| - 1];
      OrderedIsNonDecreasing(init);
      assert forall i :: 0 <= i < |init| ==> init[i] == s[i];
      assert init[|init| - 1] == s[|s| - 2];
    }
  }

  // ---------- the batch rule ----------

  /** `source[k]` is the last snapshot of its bucket. */
  ghost predicate LastOfBucket(source: seq<Snapshot>, size: nat, k: int)
    requires size > 0 && 0 <= k < |source|
  {
    forall j :: k < j < |source| ==> Floor(source[j].ts, size) != Floor(source[k].ts, size)
  }

  ghost predicate Ascending(s: seq<Snapshot>, size: nat)
    requires size > 0
  {
    forall i, j :: 0 <= i < j < |s| ==> Floor(s[i].ts, size) < Floor(s[j].ts, size)
  }

  ghost predicate Contains(source: seq<Snapshot>, size: nat, s: Snapshot)
    requires size > 0
  {
    exists k :: 0 <= k < |source| && source[k] == s && LastOfBucket(source, size, k)
  }

  /** `r` holds the last snapshot of every bucket of `source`, ordered by bucket. */
  ghost predicate IsBatch(source: seq<Snapshot>, size: nat, r: seq<Snapshot>)
    requires size > 0
  {
    && Ascending(r, size)
    && forall s :: s in r <==> Contains(source, size, s)
  }

  lemma LastIsGreatest(a: seq<Snapshot>, size: nat, s: Snapshot)
    requires size > 0 && Ascending(a, size) && s in a
    ensures var x := a[|a| - 1];
      if s == x then s !in a[..|a| - 1] else s in a[..|a| - 1] && Floor(s.ts, size) < Floor(x.ts, size)
  {
    var x := a[|a| - 1];
    var i :| 0 <= i < |a| && a[i] == s;
    if i < |a| - 1 { assert a[..|a| - 1][i] == s; }
  }

  /** The batch rule has one answer. */
  lemma {:induction false} BatchIsUnique(size: nat, a: seq<Snapshot>, b: seq<Snapshot>)
    requires size > 0 && Ascending(a, size) && Ascending(b, size)
    requires forall s :: s in a <==> s in b
    ensures a == b
    decreases |a|
  {
    assert |a| > 0 ==> a[|a| - 1] in b;
    assert |b| > 0 ==> b[|b| - 1] in a;
    if a != [] {
      var x, y := a[|a| - 1], b[|b| - 1];
      LastIsGreatest(a, size, y);
      LastIsGreatest(b, size, x);
      assert x == y;
      var a', b' := a[..|a| - 1], b[..|b| - 1];
      forall s ensures s in a' <==> s in b' {
        if s in a {
          LastIsGreatest(a, size, s);
          LastIsGreatest(b, size, s);
        }
      }
      BatchIsUnique(size, a', b');
      assert a == a' + [x] && b == b' + [x];
    }
  }

  // ---------- closed buckets ----------

  /** The last snapshot of every bucket that a later bucket has followed. */
  function Closed(s: seq<Snapshot>, size: nat): seq<Snapshot>
    requires size > 0
    decreases |s|
  {
    if |s| < 2 then []
    else
      var init, prev, last := s[..|s| - 1], s[|s| - 2], s[|s| - 1];
      if Floor(prev.ts, size) < Floor(last.ts, size) then Closed(init, size) + [prev] else Closed(init, size)
  }

  /** Appending the open bucket: it replaces `prev` or follows it. */
  lemma ReplaceOrFollow(closed: seq<Snapshot>, prev: Snapshot, last: Snapshot, size: nat)
    requires size > 0 && Ascending(closed + [prev], size) && Floor(prev.ts, size) <= Floor(last.ts, size)
    ensures
      var before := closed + [prev];
      var r := (if Floor(prev.ts, size) < Floor(last.ts, size) then before else closed) + [last];
      && Ascending(r, size)
      && forall x :: x in r <==> x == last || (x in before && Floor(x.ts, size) != Floor(last.ts, size))
  {
    var before := closed + [prev];
    var kept := if Floor(prev.ts, size) < Floor(last.ts, size) then before else closed;
    assert before[..|before| - 1] == closed && before[|before| - 1] == prev;
    forall x ensures x in kept <==> x in before && Floor(x.ts, size) < Floor(last.ts, size) {
      if x in before { LastIsGreatest(before, size, x); }
    }
    forall x | x in before ensures Floor(x.ts, size) <= Floor(last.ts, size) {
      LastIsGreatest(before, size, x);
    }
    var r := kept + [last];
    forall i, j | 0 <= i < j < |r| ensures Floor(r[i].ts, size) < Floor(r[j].ts, size) {
      if j < |r| - 1 {
        assert r[i] == before[i] && r[j] == before[j];
      } else {
        assert r[i] == kept[i] && kept[i] in kept;
      }
    }
  }

  /** On an ordered history, the closed buckets and the open one are exactly the batch. */
  lemma {:induction false} ClosedAndOpenAreTheBatch(s: seq<Snapshot>, size: nat)
    requires size > 0 && s != [] && NonDecreasing(s)
    ensures IsBatch(s, size, Closed(s, size) + [s[|s| - 1]])
    decreases |s|
  {
    var last := s[|s| - 1];
    if |s| == 1 {
      assert LastOfBucket(s, size, 0);
    } else {
      var init, prev := s[..|s| - 1], s[|s| - 2];
      ClosedAndOpenAreTheBatch(init, size);
      FloorGap(prev.ts, last.ts, size);
      ReplaceOrFollow(Closed(init, size), prev, last, size);
      forall x ensures x in Closed(s, size) + [last] <==> Contains(s, size, x) {
        BatchStep(s, size, x);
      }
    }
  }

  /** A snapshot is the last of its bucket in the longer history iff it is the new one, or it was
      in the shorter history and the new one is in another bucket. */
  lemma BatchStep(s: seq<Snapshot>, size: nat, x: Snapshot)
    requires size > 0 && |s| > 0
    ensures Contains(s, size, x) <==>
      || x == s[|s| - 1]
      || (Contains(s[..|s| - 1], size, x) && Floor(x.ts, size) != Floor(s[|s| - 1].ts, size))
  {
    var init, n := s[..|s| - 1], |s| - 1;
    if Contains(s, size, x) {
      var k :| 0 <= k < |s| && s[k] == x && LastOfBucket(s, size, k);
      if k < n {
        assert init[k] == x && LastOfBucket(init, size, k);
        assert Floor(s[n].ts, size) != Floor(s[k].ts, size);
      }
    }
    if x == s[n] { assert LastOfBucket(s, size, n); }
    if Contains(init, size, x) && Floor(x.ts, size) != Floor(s[n].ts, size) {
      var k :| 0 <= k < |init| && init[k] == x && LastOfBucket(init, size, k);
      forall j | k < j < |s| ensures Floor(s[j].ts, size) != Floor(s[k].ts, size) {
        if j < n { assert init[j] == s[j]; }
      }
      assert s[k] == x && LastOfBucket(s, size, k);
    }
  }

  // ---------- retention ----------

  function Since(s: seq<Snapshot>, cutoff: int): (r: seq<Snapshot>)
    decreases |s|
  {
    if s == [] then []
    else if s[|s| - 1].ts >= cutoff then Since(s[..|s| - 1], cutoff) + [s[|s| - 1]]
    else Since(s[..|s| - 1], cutoff)
  }

  /** The last `max` rows, or all of them. */
  function Newest(s: seq<Snapshot>, max: nat): seq<Snapshot>
    decreases |s|
  {
    if s == [] || max == 0 then [] else Newest(s[..|s| - 1], max - 1) + [s[|s| - 1]]
  }

  lemma {:induction false} NewestIsSuffix(s: seq<Snapshot>, max: nat)
    ensures Newest(s, max) == if |s| > max then s[|s| - max..] else s
    decreases |s|
  {
    if s != [] && max > 0 {
      var init := s[..|s| - 1];
      NewestIsSuffix(init, max - 1);
      assert s == init + [s[|s| - 1]];
      if |s| > max { assert s[|s| - max..] == init[|s| - max..] + [s[|s| - 1]]; }
    }
  }

  /** Time window first, then count cap. */
  function Trim(s: seq<Snapshot>, cutoff: int, max: nat): seq<Snapshot> {
    Newest(Since(s, cutoff), max)
  }

  /** Rows the collector promotes: closed buckets, except the one at the epoch, whose start 0
      doubles as "nothing aggregated yet". */
  function Promoted(s: seq<Snapshot>, size: nat): seq<Snapshot>
    requires size > 0
  {
    Since(Closed(s, size), size)
  }

  /** On an ordered history the time window keeps a suffix. */
  lemma {:induction false} SinceIsSuffix(s: seq<Snapshot>, cutoff: int) returns (k: nat)
    requires NonDecreasing(s)
    ensures k <= |s| && Since(s, cutoff) == s[k..]
    ensures forall i :: 0 <= i < k ==> s[i].ts < cutoff
    ensures forall i :: k <= i < |s| ==> s[i].ts >= cutoff
    decreases |s|
  {
    if s == [] {
      k := 0;
    } else {
      var init, last := s[..|s| - 1], s[|s| - 1];
      var j := SinceIsSuffix(init, cutoff);
      assert forall i :: 0 <= i < |init| ==> init[i] == s[i] && s[i].ts <= last.ts;
      if last.ts >= cutoff {
        k := j;
        assert s[k..] == init[k..] + [last];
      } else {
        k := |s|;
        assert j == |init|;
      }
    }
  }

  /** The rows from the k-th on are exactly those not older than the cutoff and among the last `max`. */
  ghost predicate KeptFrom(s: seq<Snapshot>, k: nat, cutoff: int, max: nat) {
    forall i :: 0 <= i < |s| ==> (k <= i <==> s[i].ts >= cutoff && |s| - max <= i)
  }

  /** On an ordered history the whole trim keeps a suffix too. */
  lemma TrimIsSuffix(s: seq<Snapshot>, cutoff: int, max: nat) returns (k: nat)
    requires NonDecreasing(s)
    ensures k <= |s| && Trim(s, cutoff, max) == s[k..]
    ensures KeptFrom(s, k, cutoff, max)
  {
    var j := SinceIsSuffix(s, cutoff);
    NewestIsSuffix(s[j..], max);
    k := if |s| - j > max then |s| - max else j;
    assert |s| - j > max ==> s[j..][|s| - j - max..] == s[k..];
  }

  /** Dropping rows that a trim would drop anyway does not change the trim. */
  lemma TrimIgnoresDropped(all: seq<Snapshot>, j: nat, late: int, max: nat)
    requires NonDecreasing(all) && j <= |all|
    requires forall i :: 0 <= i < j ==> !(all[i].ts >= late && |all| - max <= i)
    ensures Trim(all[j..], late, max) == Trim(all, late, max)
  {
    var rest := all[j..];
    assert NonDecreasing(rest);
    var m := TrimIsSuffix(all, late, max);
    var n := TrimIsSuffix(rest, late, max);
    assert m < |all| ==> all[m].ts >= late;
    assert m >= j;
    assert m < |all| ==> rest[m - j] == all[m];
    assert n < |rest| ==> rest[n] == all[j + n];
    assert m == j + n;
  }

  /** Trimming on the way changes nothing: a later, tighter trim gives the same rows. */
  lemma TrimComposes(a: seq<Snapshot>, b: seq<Snapshot>, early: int, late: int, max: nat)
    requires NonDecreasing(a + b) && early <= late
    ensures Trim(Trim(a, early, max) + b, late, max) == Trim(a + b, late, max)
  {
    var all := a + b;
    assert forall i :: 0 <= i < |a| ==> all[i] == a[i];
    assert NonDecreasing(a);
    var j := TrimIsSuffix(a, early, max);
    TrimIgnoresDropped(all, j, late, max);
    assert a[j..] + b == all[j..];
  }

  lemma {:induction false} SinceOrdered(s: seq<Snapshot>, last: Snapshot, cutoff: int)
    requires NonDecreasing(s + [last])
    ensures NonDecreasing(Since(s, cutoff) + [last])
  {
    assert NonDecreasing(s) by {
      forall i, j | 0 <= i <= j < |s| ensures s[i].ts <= s[j].ts {
        assert (s + [last])[i] == s[i] && (s + [last])[j] == s[j];
      }
    }
    var k := SinceIsSuffix(s, cutoff);
    assert Since(s, cutoff) + [last] == (s + [last])[k..];
  }

  lemma {:induction false} ClosedOrdered(s: seq<Snapshot>, size: nat)
    requires size > 0 && s != [] && NonDecreasing(s)
    ensures NonDecreasing(Closed(s, size) + [s[|s| - 1]])
    decreases |s|
  {
    if |s| > 1 {
      var init, prev, last := s[..|s| - 1], s[|s| - 2], s[|s| - 1];
      ClosedOrdered(init, size);
      var before := Closed(init, size) + [prev];
      forall i | 0 <= i < |before| ensures before[i].ts <= prev.ts { assert before[|before| - 1] == prev; }
      var r := Closed(s, size) + [last];
      forall i, j | 0 <= i <= j < |r| ensures r[i].ts <= r[j].ts {
        if j < |r| - 1 { assert r[i] == before[i] && r[j] == before[j]; }
        else if i < |r| - 1 { assert r[i] == before[i]; }
      }
    }
  }

  lemma PromotedOrdered(s: seq<Snapshot>, size: nat)
    requires size > 0 && s != [] && NonDecreasing(s)
    ensures NonDecreasing(Promoted(s, size) + [s[|s| - 1]])
  {
    ClosedOrdered(s, size);
    SinceOrdered(Closed(s, size), s[|s| - 1], size);
  }

  /** What one more snapshot promotes. */
  lemma PromotedStep(s: seq<Snapshot>, next: Snapshot, size: nat)
    requires size > 0 && s != []
    ensures Promoted(s + [next], size) ==
      if 0 < Floor(s[|s| - 1].ts, size) < Floor(next.ts, size) then Promoted(s, size) + [s[|s| - 1]]
      else Promoted(s, size)
  {
    var t := s + [next];
    assert t[..|t| - 1] == s && t[|t| - 2] == s[|s| - 1] && t[|t| - 1] == next;
    FloorGap(s[|s| - 1].ts, next.ts, size);
    var c := Closed(s, size);
    if Floor(s[|s| - 1].ts, size) < Floor(next.ts, size) {
      assert (c + [s[|s| - 1]])[..|c|] == c;
    }
  }
}
