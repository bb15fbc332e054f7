/** The batch tiers of the import script, and their agreement with the running collector. */
module BucketBatch {
  import opened TrendSpec
  import opened AssetTrendCollector

  lemma {:induction false} HasLeast(keys: set<nat>) returns (least: nat)
    requires keys != {}
    ensures least in keys && forall k :: k in keys ==> least <= k
    decreases keys
  {
    var first :| first in keys;
    var rest := keys - {first};
    assert forall k :: k in keys ==> k == first || k in rest;
    least := first;
    if rest != {} {
      var other := HasLeast(rest);
      if other < first { least := other; }
    }
  }

  method Sorted(keys: set<nat>) returns (r: seq<nat>)
    ensures forall i, j :: 0 <= i < j < |r| ==> r[i] < r[j]
    ensures forall k :: k in r <==> k in keys
  {
    r := [];
    var rest := keys;
    while rest != {}
      invariant forall i, j :: 0 <= i < j < |r| ==> r[i] < r[j]
      invariant forall k :: k in keys <==> k in r || k in rest
      invariant forall i, k :: 0 <= i < |r| && k in rest ==> r[i] < k
      decreases rest
    {
      ghost var least := HasLeast(rest);
      var k :| k in rest && forall x :: x in rest ==> k <= x;
      r := r + [k];
      rest := rest - {k};
    }
  }

  /** Last snapshot in each bucket wins; buckets in ascending order. */
  method BucketBy(source: seq<Snapshot>, size: nat) returns (r: seq<Snapshot>)
    requires size > 0
    ensures IsBatch(source, size, r)
  {
    var buckets: map<nat, Snapshot> := map[];
    for i := 0 to |source|
      invariant forall k :: k in buckets ==> Floor(buckets[k].ts, size) == k
      invariant forall s :: Contains(source[..i], size, s) <==>
        Floor(s.ts, size) in buckets && buckets[Floor(s.ts, size)] == s
    {
      forall s { BatchStep(source[..i + 1], size, s); }
      assert source[..i + 1][..i] == source[..i];
      buckets := buckets[Floor(source[i].ts, size) := source[i]];
    }
    assert source[..|source|] == source;
    var keys := Sorted(buckets.Keys);
    r := seq(|keys|, i requires 0 <= i < |keys| && keys[i] in buckets => buckets[keys[i]]);
    forall s ensures s in r <==> Contains(source, size, s) {
      if s in r {
        var i :| 0 <= i < |r| && r[i] == s;
        assert keys[i] in keys;
      }
      if Contains(source, size, s) {
        assert Floor(s.ts, size) in keys;
        var i :| 0 <= i < |keys| && keys[i] == Floor(s.ts, size);
        assert r[i] == s;
      }
    }
  }

  /** The rows the collector has promoted are the batch of the whole history, without the bucket
      that is still open and without the bucket at the epoch. */
  lemma PromotedIsBatchMinusOpen(s: seq<Snapshot>, size: nat, batch: seq<Snapshot>)
    requires size > 0 && Ordered(s) && IsBatch(s, size, batch)
    ensures s == [] ==> batch == []
    ensures s != [] ==>
      |batch| > 0 && batch[|batch| - 1] == s[|s| - 1] && Promoted(s, size) == Since(batch[..|batch| - 1], size)
  {
    OrderedIsNonDecreasing(s);
    if s == [] {
      BatchIsUnique(size, batch, []);
    } else {
      ClosedAndOpenAreTheBatch(s, size);
      BatchIsUnique(size, batch, Closed(s, size) + [s[|s| - 1]]);
    }
  }

  datatype Commit = Commit(snapshot: Snapshot, now: nat)

  function History(commits: seq<Commit>): seq<Snapshot> {
    seq(|commits|, i requires 0 <= i < |commits| => commits[i].snapshot)
  }

  lemma HistoryGrows(commits: seq<Commit>, i: nat)
    requires i < |commits|
    ensures History(commits[..i + 1]) == History(commits[..i]) + [commits[i].snapshot]
    ensures History(commits[..|commits|]) == History(commits)
  {
    assert commits[..|commits|] == commits;
  }

  /** Snapshots and commit times never go back, and each commit follows its snapshot within 48 hours. */
  predicate WellTimed(commits: seq<Commit>) {
    forall i :: 0 <= i < |commits| ==>
      && commits[i].now - RAW_WINDOW <= commits[i].snapshot.ts
      && (i > 0 ==> commits[i - 1].snapshot.ts <= commits[i].snapshot.ts && commits[i - 1].now <= commits[i].now)
  }

  /** Any run of the collector from the empty state ends with the tiers an import of its whole
      history would compute: the batch days and hours that are closed, raw and hourly trimmed once
      at the end. */
  method RunCollector(commits: seq<Commit>) returns (raw: seq<Snapshot>, hourly: seq<Snapshot>, daily: seq<Snapshot>)
    requires WellTimed(commits)
    ensures commits == [] ==> raw == hourly == daily == []
    ensures commits != [] ==>
      var all, now := History(commits), commits[|commits| - 1].now;
      && raw == Trim(all, now - RAW_WINDOW, MAX_RAW)
      && hourly == Trim(Promoted(all, HOUR), now - HOURLY_WINDOW, MAX_HOURLY)
      && daily == Promoted(all, DAY)
      && Ordered(all)
  {
    var trend := new AssetTrend();
    for i := 0 to |commits|
      invariant fresh(trend) && trend.Valid()
      invariant trend.committed == History(commits[..i])
      invariant trend.clock == if i == 0 then 0 else commits[i - 1].now
    {
      HistoryGrows(commits, i);
      trend.CommitSnapshot(commits[i].snapshot, commits[i].now);
    }
    assert commits[..|commits|] == commits;
    raw, hourly, daily := trend.raw, trend.hourly, trend.daily;
  }

  /** Windows and caps in numbers: of an ordered history the raw tier keeps the snapshots of the last 48
      hours, at most 576 of them, and the hourly tier those of the last 30 days, at most 720. */
  lemma RetentionInNumbers(s: seq<Snapshot>, now: nat) returns (j: nat, k: nat)
    requires Ordered(s)
    ensures j <= |s| && Trim(s, now - RAW_WINDOW, MAX_RAW) == s[j..] && KeptFrom(s, j, now - 48 * 60 * 60 * 1000, 576)
    ensures k <= |s| && Trim(s, now - HOURLY_WINDOW, MAX_HOURLY) == s[k..]
    ensures KeptFrom(s, k, now - 30 * 24 * 60 * 60 * 1000, 720)
    ensures HOUR == 60 * 60 * 1000 && DAY == 24 * 60 * 60 * 1000
  {
    OrderedIsNonDecreasing(s);
    j := TrimIsSuffix(s, now - RAW_WINDOW, MAX_RAW);
    k := TrimIsSuffix(s, now - HOURLY_WINDOW, MAX_HOURLY);
  }

  /** The collector and the import script agree on every run: what `BucketBy` computes from the
      whole history is the collector's daily tier plus the open day, and its hourly tier before
      retention plus the open hour. */
  method CollectorAgreesWithImport(commits: seq<Commit>)
    returns (hourly: seq<Snapshot>, daily: seq<Snapshot>, batchHours: seq<Snapshot>, batchDays: seq<Snapshot>)
    requires WellTimed(commits) && commits != []
    ensures IsBatch(History(commits), DAY, batchDays) && IsBatch(History(commits), HOUR, batchHours)
    ensures |batchDays| > 0 && daily == Since(batchDays[..|batchDays| - 1], DAY)
    ensures |batchHours| > 0
      && hourly == Trim(Since(batchHours[..|batchHours| - 1], HOUR), commits[|commits| - 1].now - HOURLY_WINDOW, MAX_HOURLY)
  {
    var raw;
    raw, hourly, daily := RunCollector(commits);
    batchHours := BucketBy(History(commits), HOUR);
    batchDays := BucketBy(History(commits), DAY);
    PromotedIsBatchMinusOpen(History(commits), HOUR, batchHours);
    PromotedIsBatchMinusOpen(History(commits), DAY, batchDays);
  }
}
