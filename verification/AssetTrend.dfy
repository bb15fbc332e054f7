/**
  The asset history collector. Its three tiers are updated in place at every snapshot; the class
  invariant says that they always equal the batch definitions of `TrendSpec` applied to the whole
  history, although days are taken from hourly rows and old rows are trimmed on the way.
 */
module AssetTrendCollector {
  import opened Options
  import opened TrendSpec

  const MAX_RAW: nat := 576
  const MAX_HOURLY: nat := 720
  const RAW_WINDOW: nat := 172800000      // 48 hours
  const HOURLY_WINDOW: nat := 2592000000  // 30 days

  datatype Granularity = Hourly | Daily

  predicate Within(s: Snapshot, from: nat, to: nat) {
    from <= s.ts < to
  }

  /** Rows of a tier with a timestamp in [from, to). */
  function Between(tier: seq<Snapshot>, from: nat, to: nat): seq<Snapshot>
    decreases |tier|
  {
    if tier == [] then []
    else
      var last := tier[|tier| - 1];
      if Within(last, from, to) then Between(tier[..|tier| - 1], from, to) + [last] else Between(tier[..|tier| - 1], from, to)
  }

  /** Row `k` of the tier is in the span, and no later row is. */
  ghost predicate LastWithin(tier: seq<Snapshot>, from: nat, to: nat, k: int) {
    && 0 <= k < |tier| && Within(tier[k], from, to)
    && forall j :: k < j < |tier| ==> !Within(tier[j], from, to)
  }

  /** The rows in a span end with the last row of the tier that is in it. */
  lemma {:induction false} BetweenEnd(tier: seq<Snapshot>, from: nat, to: nat) returns (k: int)
    ensures var rows := Between(tier, from, to);
      if rows == [] then forall i :: 0 <= i < |tier| ==> !Within(tier[i], from, to)
      else LastWithin(tier, from, to, k) && tier[k] == rows[|rows| - 1]
    decreases |tier|
  {
    k := |tier| - 1;
    if tier != [] && !Within(tier[k], from, to) {
      var init := tier[..k];
      assert forall i :: 0 <= i < |init| ==> init[i] == tier[i];
      k := BetweenEnd(init, from, to);
    }
  }

  function LastFloor(s: seq<Snapshot>, size: nat): nat
    requires size > 0
  {
    if s == [] then 0 else Floor(s[|s| - 1].ts, size)
  }

  /** The snapshot before `next` closes a bucket after the epoch. */
  predicate Closes(s: seq<Snapshot>, next: Snapshot, size: nat)
    requires size > 0
  {
    s != [] && 0 < LastFloor(s, size) < Floor(next.ts, size)
  }

  /** `rows` with the row that `next` promotes: its predecessor, if that closes a bucket. */
  function Grow(rows: seq<Snapshot>, s: seq<Snapshot>, next: Snapshot, size: nat): seq<Snapshot>
    requires size > 0
  {
    if Closes(s, next, size) then rows + [s[|s| - 1]] else rows
  }

  lemma PromotedGrows(s: seq<Snapshot>, next: Snapshot, size: nat)
    requires size > 0
    ensures Promoted(s + [next], size) == Grow(Promoted(s, size), s, next, size)
  {
    if s != [] { PromotedStep(s, next, size); }
  }

  /** `raw` ends with the newest snapshot, after its predecessor in the history if it has one. */
  predicate EndsWith(raw: seq<Snapshot>, s: seq<Snapshot>, next: Snapshot) {
    && |raw| >= 1 && raw[|raw| - 1] == next
    && (s != [] ==> |raw| >= 2 && raw[|raw| - 2] == s[|s| - 1])
  }

  /** The last row in the span of a closed bucket is the snapshot that closed it, whether or not the
      newest snapshot follows it in the tier. */
  lemma ClosingSnapshotIsLast(rows: seq<Snapshot>, prev: Snapshot, next: Snapshot, size: nat)
    requires size > 0 && Floor(prev.ts, size) < Floor(next.ts, size)
    requires |rows| >= 1
    requires rows[|rows| - 1] == prev || (|rows| >= 2 && rows[|rows| - 2] == prev && rows[|rows| - 1] == next)
    ensures
      var from, to := Floor(prev.ts, size), Floor(next.ts, size);
      && (exists k :: LastWithin(rows, from, to, k))
      && (forall k :: LastWithin(rows, from, to, k) ==> rows[k] == prev)
  {
    var from, to := Floor(prev.ts, size), Floor(next.ts, size);
    FloorGap(prev.ts, next.ts, size);
    var k := if rows[|rows| - 1] == prev then |rows| - 1 else |rows| - 2;
    assert Within(rows[k], from, to) && LastWithin(rows, from, to, k);
    assert forall j :: LastWithin(rows, from, to, j) ==> j == k;
  }

  /** A snapshot that closes a day also closes an hour, so its row is already in the hourly tier. */
  lemma DayRowIsHourRow(s: seq<Snapshot>, next: Snapshot)
    ensures Closes(s, next, DAY) ==> Closes(s, next, HOUR)
  {
    if Closes(s, next, DAY) {
      NewDayIsNewHour(s[|s| - 1].ts, next.ts);
      FloorGap(s[|s| - 1].ts, next.ts, DAY);
      FloorGap(s[|s| - 1].ts, next.ts, HOUR);
    }
  }

  /** If the tracker has moved to a later bucket, the row of the tier that ends the span it left:
      no later row is in the span. None only if the tracker was unset, has not moved, or the span is
      empty. */
  method ClosingRow(tier: seq<Snapshot>, last: nat, current: nat) returns (row: Option<Snapshot>)
    ensures row.Some? ==> 0 < last < current && exists k :: LastWithin(tier, last, current, k) && tier[k] == row.value
    ensures row.None? ==> !(0 < last < current) || forall i :: 0 <= i < |tier| ==> !Within(tier[i], last, current)
  {
    row := None;
    if last > 0 && current > last {
      var candidates := Between(tier, last, current);
      ghost var k := BetweenEnd(tier, last, current);
      if |candidates| > 0 {
        row := Some(candidates[|candidates| - 1]);
      }
    }
  }

  class AssetTrend {
    var raw: seq<Snapshot>
    var hourly: seq<Snapshot>
    var daily: seq<Snapshot>
    var lastAggregatedHour: nat
    var lastAggregatedDay: nat

    ghost var committed: seq<Snapshot> // every snapshot of the run
    ghost var clock: nat               // time of the last commit

    /** The raw tier is one trim of the whole history. */
    ghost predicate RawExact()
      reads this
    {
      && Ordered(committed)
      && raw == Trim(committed, clock - RAW_WINDOW, MAX_RAW)
      && (committed != [] ==> committed[|committed| - 1].ts >= clock - RAW_WINDOW)
    }

    /** The hourly tier is one trim of all the hours closed so far. */
    ghost predicate HourlyExact()
      reads this
    {
      hourly == Trim(Promoted(committed, HOUR), clock - HOURLY_WINDOW, MAX_HOURLY)
    }

    /** The daily tier is all the days closed so far. */
    ghost predicate DailyExact()
      reads this
    {
      daily == Promoted(committed, DAY)
    }

    ghost predicate TrackersExact()
      reads this
    {
      lastAggregatedHour == LastFloor(committed, HOUR) && lastAggregatedDay == LastFloor(committed, DAY)
    }

    ghost predicate Valid()
      reads this
    {
      RawExact() && HourlyExact() && DailyExact() && TrackersExact()
    }

    constructor ()
      ensures Valid() && committed == [] && clock == 0
    {
      raw, hourly, daily := [], [], [];
      lastAggregatedHour, lastAggregatedDay := 0, 0;
      committed, clock := [], 0;
    }

    /** Promotes the last row of an hour or day that the pushed snapshot has closed. */
    method AggregateTiers(snapshot: Snapshot) returns (promoted: seq<(Granularity, Snapshot)>)
      requires EndsWith(raw, committed, snapshot)
      requires lastAggregatedHour == LastFloor(committed, HOUR) && lastAggregatedDay == LastFloor(committed, DAY)
      modifies this`hourly, this`daily, this`lastAggregatedHour, this`lastAggregatedDay
      ensures hourly == Grow(old(hourly), committed, snapshot, HOUR)
      ensures daily == Grow(old(daily), committed, snapshot, DAY)
      ensures lastAggregatedHour == Floor(snapshot.ts, HOUR) && lastAggregatedDay == Floor(snapshot.ts, DAY)
      ensures promoted ==
        if Closes(committed, snapshot, DAY) then [(Hourly, committed[|committed| - 1]), (Daily, committed[|committed| - 1])]
        else if Closes(committed, snapshot, HOUR) then [(Hourly, committed[|committed| - 1])]
        else []
    {
      DayRowIsHourRow(committed, snapshot);
      var endOfHour := PromoteHour(snapshot);
      var endOfDay := PromoteDay(snapshot);
      promoted := if endOfHour.Some? then [(Hourly, endOfHour.value)] else [];
      promoted := if endOfDay.Some? then promoted + [(Daily, endOfDay.value)] else promoted;
    }

    /** Takes the last row of a closed hour from the raw tier. */
    method PromoteHour(snapshot: Snapshot) returns (endOfHour: Option<Snapshot>)
      requires EndsWith(raw, committed, snapshot) && lastAggregatedHour == LastFloor(committed, HOUR)
      modifies this`hourly, this`lastAggregatedHour
      ensures hourly == Grow(old(hourly), committed, snapshot, HOUR)
      ensures lastAggregatedHour == Floor(snapshot.ts, HOUR)
      ensures endOfHour == if Closes(committed, snapshot, HOUR) then Some(committed[|committed| - 1]) else None
    {
      if Closes(committed, snapshot, HOUR) {
        ClosingSnapshotIsLast(raw, committed[|committed| - 1], snapshot, HOUR);
      }
      var currentHour := Floor(snapshot.ts, HOUR);
      endOfHour := ClosingRow(raw, lastAggregatedHour, currentHour);
      if endOfHour.Some? {
        hourly := hourly + [endOfHour.value];
      }
      lastAggregatedHour := currentHour;
    }

    /** Takes the last row of a closed day from the hourly tier. */
    method PromoteDay(snapshot: Snapshot) returns (endOfDay: Option<Snapshot>)
      requires Closes(committed, snapshot, DAY) ==> |hourly| > 0 && hourly[|hourly| - 1] == committed[|committed| - 1]
      requires lastAggregatedDay == LastFloor(committed, DAY)
      modifies this`daily, this`lastAggregatedDay
      ensures daily == Grow(old(daily), committed, snapshot, DAY)
      ensures lastAggregatedDay == Floor(snapshot.ts, DAY)
      ensures endOfDay == if Closes(committed, snapshot, DAY) then Some(committed[|committed| - 1]) else None
    {
      if Closes(committed, snapshot, DAY) {
        ClosingSnapshotIsLast(hourly, committed[|committed| - 1], snapshot, DAY);
      }
      var currentDay := Floor(snapshot.ts, DAY);
      endOfDay := ClosingRow(hourly, lastAggregatedDay, currentDay);
      if endOfDay.Some? {
        daily := daily + [endOfDay.value];
      }
      lastAggregatedDay := currentDay;
    }

    /** Applies the time windows, then the count caps. */
    method EnforceRetention(now: nat)
      modifies this`raw, this`hourly
      ensures raw == Trim(old(raw), now - RAW_WINDOW, MAX_RAW)
      ensures hourly == Trim(old(hourly), now - HOURLY_WINDOW, MAX_HOURLY)
    {
      raw := Since(raw, now - RAW_WINDOW);
      hourly := Since(hourly, now - HOURLY_WINDOW);
      NewestIsSuffix(raw, MAX_RAW);
      NewestIsSuffix(hourly, MAX_HOURLY);
      if |raw| > MAX_RAW {
        raw := raw[|raw| - MAX_RAW..];
      }
      if |hourly| > MAX_HOURLY {
        hourly := hourly[|hourly| - MAX_HOURLY..];
      }
    }

    /** The in-memory effect of a commit, in terms of the tiers before it. */
    method UpdateTiers(snapshot: Snapshot, now: nat)
      requires RawExact() && TrackersExact()
      modifies this`raw, this`hourly, this`daily, this`lastAggregatedHour, this`lastAggregatedDay
      ensures raw == Trim(old(raw) + [snapshot], now - RAW_WINDOW, MAX_RAW)
      ensures hourly == Trim(Grow(old(hourly), committed, snapshot, HOUR), now - HOURLY_WINDOW, MAX_HOURLY)
      ensures daily == Grow(old(daily), committed, snapshot, DAY)
      ensures lastAggregatedHour == Floor(snapshot.ts, HOUR) && lastAggregatedDay == Floor(snapshot.ts, DAY)
    {
      RawEndsWithHistory(committed, snapshot, clock - RAW_WINDOW);
      raw := raw + [snapshot];
      var promoted := AggregateTiers(snapshot);
      EnforceRetention(now);
    }

    /** Commits one snapshot. Snapshots come in time order and are committed within 48 hours of
        their own timestamp (the collector stamps and commits them in one go). */
    method CommitSnapshot(snapshot: Snapshot, now: nat)
      requires Valid()
      requires committed != [] ==> committed[|committed| - 1].ts <= snapshot.ts
      requires clock <= now && now - RAW_WINDOW <= snapshot.ts
      modifies this
      ensures Valid()
      ensures committed == old(committed) + [snapshot] && clock == now
    {
      UpdateTiers(snapshot, now);
      committed, clock := committed + [snapshot], now;
      CommitKeepsRaw(snapshot);
      CommitKeepsHourly(snapshot);
      CommitKeepsDaily(snapshot);
      CommitKeepsTrackers(snapshot);
    }

    twostate lemma CommitKeepsRaw(snapshot: Snapshot)
      requires old(RawExact()) && old(clock) <= clock && clock - RAW_WINDOW <= snapshot.ts
      requires old(committed) != [] ==> old(committed)[|old(committed)| - 1].ts <= snapshot.ts
      requires committed == old(committed) + [snapshot]
      requires raw == Trim(old(raw) + [snapshot], clock - RAW_WINDOW, MAX_RAW)
      ensures RawExact()
    {
      RawComposes(old(committed), snapshot, old(clock) - RAW_WINDOW, clock - RAW_WINDOW);
    }

    twostate lemma CommitKeepsHourly(snapshot: Snapshot)
      requires old(RawExact()) && old(HourlyExact()) && old(clock) <= clock
      requires committed == old(committed) + [snapshot]
      requires hourly == Trim(Grow(old(hourly), old(committed), snapshot, HOUR), clock - HOURLY_WINDOW, MAX_HOURLY)
      ensures HourlyExact()
    {
      HourlyComposes(old(committed), snapshot, old(clock) - HOURLY_WINDOW, clock - HOURLY_WINDOW);
    }

    twostate lemma CommitKeepsDaily(snapshot: Snapshot)
      requires old(DailyExact())
      requires committed == old(committed) + [snapshot]
      requires daily == Grow(old(daily), old(committed), snapshot, DAY)
      ensures DailyExact()
    {
      PromotedGrows(old(committed), snapshot, DAY);
    }

    twostate lemma CommitKeepsTrackers(snapshot: Snapshot)
      requires committed == old(committed) + [snapshot]
      requires lastAggregatedHour == Floor(snapshot.ts, HOUR) && lastAggregatedDay == Floor(snapshot.ts, DAY)
      ensures TrackersExact()
    {
    }
  }

  /** The newest snapshot survives the raw trim as long as it is inside the window. */
  lemma RawEndsWithHistory(s: seq<Snapshot>, next: Snapshot, cutoff: int)
    requires Ordered(s) && (s != [] ==> s[|s| - 1].ts >= cutoff)
    ensures EndsWith(Trim(s, cutoff, MAX_RAW) + [next], s, next)
  {
    OrderedIsNonDecreasing(s);
    if s != [] {
      var k := TrimIsSuffix(s, cutoff, MAX_RAW);
      assert k <= |s| - 1;
    }
  }

  lemma RawComposes(s: seq<Snapshot>, next: Snapshot, early: int, late: int)
    requires Ordered(s) && (s != [] ==> s[|s| - 1].ts <= next.ts) && early <= late
    ensures Ordered(s + [next])
    ensures Trim(Trim(s, early, MAX_RAW) + [next], late, MAX_RAW) == Trim(s + [next], late, MAX_RAW)
  {
    assert (s + [next])[..|s|] == s;
    OrderedIsNonDecreasing(s + [next]);
    TrimComposes(s, [next], early, late, MAX_RAW);
  }

  lemma HourlyComposes(s: seq<Snapshot>, next: Snapshot, early: int, late: int)
    requires Ordered(s) && early <= late
    ensures Trim(Grow(Trim(Promoted(s, HOUR), early, MAX_HOURLY), s, next, HOUR), late, MAX_HOURLY)
         == Trim(Promoted(s + [next], HOUR), late, MAX_HOURLY)
  {
    OrderedIsNonDecreasing(s);
    PromotedGrows(s, next, HOUR);
    var rows := Promoted(s, HOUR);
    if Closes(s, next, HOUR) {
      PromotedOrdered(s, HOUR);
      TrimComposes(rows, [s[|s| - 1]], early, late, MAX_HOURLY);
    } else {
      if s != [] {
        PromotedOrdered(s, HOUR);
        assert forall i :: 0 <= i < |rows| ==> rows[i] == (rows + [s[|s| - 1]])[i];
      }
      assert rows + [] == rows && Trim(rows, early, MAX_HOURLY) + [] == Trim(rows, early, MAX_HOURLY);
      TrimComposes(rows, [], early, late, MAX_HOURLY);
    }
  }
}
