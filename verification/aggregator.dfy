/** The status aggregator: snapshots of the tracker's statuses kept in two
    parallel lists (snapshots and their capture instants), pruned from the
    front once older than the retention period, with history queries. */
module Aggregation {
  import opened Wrappers
  import opened MilestoneProcessing
  import Extrema

  /** Instants are integer microseconds; the retention period is in hours. */
  const MicrosPerHour: int := 3_600_000_000
  const DefaultRetentionHours: int := 24

  /** A snapshot is a copy of the tracker's ordered mapping. */
  type Snapshot = seq<Entry>

  datatype Aggregator = Aggregator(retentionHours: int, history: seq<Snapshot>, timestamps: seq<int>)

  /** `status_history` and `snapshot_timestamps` stay the same length. */
  predicate Parallel(a: Aggregator) {
    |a.history| == |a.timestamps|
  }

  function NewAggregator(retentionHours: int := DefaultRetentionHours): (a: Aggregator)
    ensures a.retentionHours == retentionHours && a.history == [] && a.timestamps == []
    ensures Parallel(a)
  {
    Aggregator(retentionHours, [], [])
  }

  function Cutoff(a: Aggregator, now: int): int {
    now - a.retentionHours * MicrosPerHour
  }

  /** How many leading instants are earlier than the cutoff. */
  function ExpiredPrefix(ts: seq<int>, cutoff: int): (k: nat)
    ensures k <= |ts|
    ensures forall j :: 0 <= j < k ==> ts[j] < cutoff
    ensures k < |ts| ==> ts[k] >= cutoff
  {
    if |ts| == 0 || ts[0] >= cutoff then 0 else 1 + ExpiredPrefix(ts[1..], cutoff)
  }

  /** `_cleanup_old_snapshots`: drop entries from the front of both lists
      while the front instant is earlier than `now` minus the retention. What
      remains is a common suffix of the two lists. */
  function CleanupOldSnapshots(a: Aggregator, now: int): (r: Aggregator)
    requires Parallel(a)
    ensures Parallel(r)
    ensures r.retentionHours == a.retentionHours
    ensures var k := |a.timestamps| - |r.timestamps|;
      && 0 <= k <= |a.timestamps|
      && r.timestamps == a.timestamps[k..] && r.history == a.history[k..]
      && (forall j :: 0 <= j < k ==> a.timestamps[j] < Cutoff(a, now))
    ensures |r.timestamps| > 0 ==> r.timestamps[0] >= Cutoff(a, now)
  {
    var k := ExpiredPrefix(a.timestamps, Cutoff(a, now));
    a.(history := a.history[k..], timestamps := a.timestamps[k..])
  }

  /** `capture_snapshot` at instant `now`: append the snapshot and its instant,
      then clean up. With a non-negative retention the new snapshot survives
      as the last entry. */
  function CaptureSnapshot(a: Aggregator, statuses: Snapshot, now: int): (r: Aggregator)
    requires Parallel(a)
    ensures Parallel(r)
    ensures var all := a.timestamps + [now];
      var k := |all| - |r.timestamps|;
      && 0 <= k <= |all|
      && r.timestamps == all[k..] && r.history == (a.history + [statuses])[k..]
      && (forall j :: 0 <= j < k ==> all[j] < Cutoff(a, now))
    ensures |r.timestamps| > 0 ==> r.timestamps[0] >= Cutoff(a, now)
    ensures a.retentionHours >= 0 ==>
      && |r.history| > 0
      && r.history[|r.history| - 1] == statuses
      && r.timestamps[|r.timestamps| - 1] == now
  {
    var grown := a.(history := a.history + [statuses], timestamps := a.timestamps + [now]);
    assert a.retentionHours >= 0 ==> a.retentionHours * MicrosPerHour >= 0;
    LastAtOrAfterCutoffSurvives(grown.timestamps, Cutoff(grown, now));
    CleanupOldSnapshots(grown, now)
  }

  /** Cleanup never removes an entry that is not earlier than the cutoff, so
      it stops at or before the last instant when that one is recent enough. */
  lemma LastAtOrAfterCutoffSurvives(ts: seq<int>, cutoff: int)
    ensures |ts| > 0 && ts[|ts| - 1] >= cutoff ==> ExpiredPrefix(ts, cutoff) < |ts|
  {
  }

  function Abs(x: int): nat {
    if x < 0 then -x else x
  }

  /** `get_status_at_time`: nothing without snapshots; otherwise the snapshot
      at the first index whose instant is closest to `t`. */
  method GetStatusAtTime(a: Aggregator, t: int) returns (s: Option<Snapshot>)
    requires Parallel(a)
    ensures s.None? <==> |a.timestamps| == 0
    ensures s.Some? ==>
      exists k :: 0 <= k < |a.timestamps| && s.value == a.history[k]
        && (forall j :: 0 <= j < |a.timestamps| ==> Abs(a.timestamps[k] - t) <= Abs(a.timestamps[j] - t))
        && (forall j :: 0 <= j < k ==> Abs(a.timestamps[k] - t) < Abs(a.timestamps[j] - t))
  {
    if |a.timestamps| == 0 {
      return None;
    }
    var ts := a.timestamps;
    var keys := seq(|ts|, i requires 0 <= i < |ts| => Abs(ts[i] - t));
    var k := Extrema.FirstArgMin(keys);
    s := Some(a.history[k]);
    assert forall j :: 0 <= j < |ts| ==> keys[j] == Abs(ts[j] - t);
  }

  /** `get_milestone_history`: the status of `m` from every snapshot that
      holds it, oldest first. */
  function MilestoneHistory(hist: seq<Snapshot>, m: string): (r: seq<MilestoneStatus>)
    ensures |r| <= |hist|
    ensures (forall i :: 0 <= i < |hist| ==> Lookup(hist[i], m).Some?) ==> |r| == |hist|
    ensures forall s :: s in r ==> exists i :: 0 <= i < |hist| && Lookup(hist[i], m) == Some(s)
  {
    if |hist| == 0 then []
    else
      var rest := MilestoneHistory(hist[1..], m);
      assert forall s :: s in rest ==> exists i :: 0 <= i < |hist| && Lookup(hist[i], m) == Some(s) by {
        forall s | s in rest
          ensures exists i :: 0 <= i < |hist| && Lookup(hist[i], m) == Some(s)
        {
          var i :| 0 <= i < |hist[1..]| && Lookup(hist[1..][i], m) == Some(s);
          assert Lookup(hist[i + 1], m) == Some(s);
        }
      }
      match Lookup(hist[0], m)
      case Some(s) => [s] + rest
      case None => rest
  }

  /** Snapshot order is kept: the history of a concatenation is the
      concatenation of the histories. */
  lemma {:induction false} MilestoneHistoryAppend(h1: seq<Snapshot>, h2: seq<Snapshot>, m: string)
    ensures MilestoneHistory(h1 + h2, m) == MilestoneHistory(h1, m) + MilestoneHistory(h2, m)
  {
    if |h1| > 0 {
      assert (h1 + h2)[0] == h1[0];
      assert (h1 + h2)[1..] == h1[1..] + h2;
      MilestoneHistoryAppend(h1[1..], h2, m);
      match Lookup(h1[0], m)
      case Some(s) =>
        AppendAssoc([s], MilestoneHistory(h1[1..], m), MilestoneHistory(h2, m));
      case None =>
    } else {
      assert h1 + h2 == h2;
    }
  }

  function GetMilestoneHistory(a: Aggregator, m: string): seq<MilestoneStatus> {
    MilestoneHistory(a.history, m)
  }

  /** Capturing a snapshot that holds `m` (with nothing pruned) adds its status
      to the end of `m`'s history. */
  lemma {:induction false} CaptureExtendsHistory(a: Aggregator, statuses: Snapshot, now: int, m: string)
    requires Parallel(a)
    requires forall j :: 0 <= j < |a.timestamps| ==> a.timestamps[j] >= Cutoff(a, now)
    requires Lookup(statuses, m).Some?
    requires a.retentionHours >= 0
    ensures GetMilestoneHistory(CaptureSnapshot(a, statuses, now), m)
         == GetMilestoneHistory(a, m) + [Lookup(statuses, m).value]
  {
    CaptureWithoutPruning(a, statuses, now);
    MilestoneHistoryAppend(a.history, [statuses], m);
    MilestoneHistorySingle(statuses, m);
  }

  lemma MilestoneHistorySingle(snap: Snapshot, m: string)
    requires Lookup(snap, m).Some?
    ensures MilestoneHistory([snap], m) == [Lookup(snap, m).value]
  {
    assert [snap][1..] == [];
  }

  /** When no instant is older than the cutoff, capturing prunes nothing. */
  lemma CaptureWithoutPruning(a: Aggregator, statuses: Snapshot, now: int)
    requires Parallel(a)
    requires forall j :: 0 <= j < |a.timestamps| ==> a.timestamps[j] >= Cutoff(a, now)
    requires a.retentionHours >= 0
    ensures CaptureSnapshot(a, statuses, now).history == a.history + [statuses]
    ensures CaptureSnapshot(a, statuses, now).timestamps == a.timestamps + [now]
  {
    var all := a.timestamps + [now];
    assert ExpiredPrefix(all, Cutoff(a, now)) == 0;
  }

  /** The first completion of `m` within one snapshot: the last update of the
      first entry for `m` that is complete. */
  function FirstCompleteIn(snap: Snapshot, m: string): (r: Option<Option<int>>)
    ensures r.Some? <==> exists j :: 0 <= j < |snap| && snap[j].name == m && snap[j].status.state == Complete
  {
    if |snap| == 0 then None
    else if snap[0].name == m && snap[0].status.state == Complete then Some(snap[0].status.lastUpdate)
    else FirstCompleteIn(snap[1..], m)
  }

  /** The reference meaning of the completion timeline for one milestone:
      the last update recorded for it in the earliest snapshot where it is complete. */
  function FirstCompletion(hist: seq<Snapshot>, m: string): Option<Option<int>> {
    if |hist| == 0 then None
    else match FirstCompleteIn(hist[0], m)
      case Some(u) => Some(u)
      case None => FirstCompletion(hist[1..], m)
  }

  /** The inner loop of `get_completion_timeline` over one snapshot. */
  function AddCompletions(acc: map<string, Option<int>>, snap: Snapshot): map<string, Option<int>>
    decreases |snap|
  {
    if |snap| == 0 then acc
    else
      var e := snap[0];
      var acc' := if e.name !in acc && e.status.state == Complete then acc[e.name := e.status.lastUpdate] else acc;
      AddCompletions(acc', snap[1..])
  }

  /** The outer loop of `get_completion_timeline` over the snapshots. */
  function TimelineFrom(acc: map<string, Option<int>>, hist: seq<Snapshot>): map<string, Option<int>>
    decreases |hist|
  {
    if |hist| == 0 then acc else TimelineFrom(AddCompletions(acc, hist[0]), hist[1..])
  }

  lemma {:induction false} AddCompletionsSpec(acc: map<string, Option<int>>, snap: Snapshot, m: string)
    ensures m in AddCompletions(acc, snap) <==> m in acc || FirstCompleteIn(snap, m).Some?
    ensures m in acc ==> AddCompletions(acc, snap)[m] == acc[m]
    ensures m !in acc && FirstCompleteIn(snap, m).Some? ==>
      AddCompletions(acc, snap)[m] == FirstCompleteIn(snap, m).value
    decreases |snap|
  {
    if |snap| > 0 {
      var e := snap[0];
      var acc' := if e.name !in acc && e.status.state == Complete then acc[e.name := e.status.lastUpdate] else acc;
      AddCompletionsSpec(acc', snap[1..], m);
    }
  }

  lemma {:induction false} TimelineFromSpec(acc: map<string, Option<int>>, hist: seq<Snapshot>, m: string)
    ensures m in TimelineFrom(acc, hist) <==> m in acc || FirstCompletion(hist, m).Some?
    ensures m in acc ==> TimelineFrom(acc, hist)[m] == acc[m]
    ensures m !in acc && FirstCompletion(hist, m).Some? ==>
      TimelineFrom(acc, hist)[m] == FirstCompletion(hist, m).value
    decreases |hist|
  {
    if |hist| > 0 {
      AddCompletionsSpec(acc, hist[0], m);
      TimelineFromSpec(AddCompletions(acc, hist[0]), hist[1..], m);
    }
  }

  /** `get_completion_timeline`: each milestone that is complete in some
      snapshot, mapped to its last update in the earliest such snapshot;
      milestones never seen complete are absent. */
  function GetCompletionTimeline(a: Aggregator): (r: map<string, Option<int>>)
    ensures forall m :: m in r <==> FirstCompletion(a.history, m).Some?
    ensures forall m :: m in r ==> r[m] == FirstCompletion(a.history, m).value
  {
    var r := TimelineFrom(map[], a.history);
    forall m ensures (m in r <==> FirstCompletion(a.history, m).Some?)
                  && (m in r ==> r[m] == FirstCompletion(a.history, m).value) {
      TimelineFromSpec(map[], a.history, m);
    }
    r
  }

  /** A milestone is in the timeline exactly when some snapshot has it complete. */
  lemma {:induction false} FirstCompletionExists(hist: seq<Snapshot>, m: string)
    ensures FirstCompletion(hist, m).Some? <==>
      exists i, j :: 0 <= i < |hist| && 0 <= j < |hist[i]| && hist[i][j].name == m
        && hist[i][j].status.state == Complete
  {
    if |hist| > 0 {
      FirstCompletionExists(hist[1..], m);
      if FirstCompleteIn(hist[0], m).None? {
        assert forall i :: 1 <= i < |hist| ==> hist[i] == hist[1..][i - 1];
      }
    }
  }

  function SumProgress(h: seq<MilestoneStatus>): real {
    if |h| == 0 then 0.0 else SumProgress(h[..|h| - 1]) + h[|h| - 1].progressPercent
  }

  /** `get_average_progress`: 0.0 with no history, else the mean progress. */
  function GetAverageProgress(a: Aggregator, m: string): (r: real)
    ensures |GetMilestoneHistory(a, m)| == 0 ==> r == 0.0
    ensures |GetMilestoneHistory(a, m)| > 0 ==>
      r * (|GetMilestoneHistory(a, m)| as real) == SumProgress(GetMilestoneHistory(a, m))
  {
    var h := GetMilestoneHistory(a, m);
    if |h| == 0 then 0.0 else SumProgress(h) / (|h| as real)
  }

  lemma {:induction false} SumProgressBounds(h: seq<MilestoneStatus>, lo: real, hi: real)
    requires forall i :: 0 <= i < |h| ==> lo <= h[i].progressPercent <= hi
    ensures (|h| as real) * lo <= SumProgress(h) <= (|h| as real) * hi
  {
    if |h| > 0 {
      SumProgressBounds(h[..|h| - 1], lo, hi);
    }
  }

  /** The average lies between the smallest and largest recorded progress;
      in particular a milestone whose progress never changed averages to it. */
  lemma {:induction false} AverageWithinBounds(a: Aggregator, m: string, lo: real, hi: real)
    requires |GetMilestoneHistory(a, m)| > 0
    requires forall s :: s in GetMilestoneHistory(a, m) ==> lo <= s.progressPercent <= hi
    ensures lo <= GetAverageProgress(a, m) <= hi
  {
    var h := GetMilestoneHistory(a, m);
    assert forall i :: 0 <= i < |h| ==> h[i] in h;
    MeanWithinBounds(h, lo, hi);
  }

  /** The mean of a non-empty run of progress values lies within any bounds of them. */
  lemma MeanWithinBounds(h: seq<MilestoneStatus>, lo: real, hi: real)
    requires |h| > 0
    requires forall i :: 0 <= i < |h| ==> lo <= h[i].progressPercent <= hi
    ensures lo <= SumProgress(h) / (|h| as real) <= hi
  {
    SumProgressBounds(h, lo, hi);
    DivideBounds(SumProgress(h), |h| as real, lo, hi);
  }

  lemma DivideBounds(sum: real, n: real, lo: real, hi: real)
    requires n > 0.0
    requires n * lo <= sum <= n * hi
    ensures lo <= sum / n <= hi
  {
    assert sum / n * n == sum;
  }
}
