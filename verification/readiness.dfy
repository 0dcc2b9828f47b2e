/** The readiness computer: a pure function from the tracker's statuses to a
    launch verdict (three partitions, a progress ratio, a level, a message). */
module Readiness {
  import opened MilestoneProcessing
  import opened Milestones
  import opened Text
  import opened Packets

  datatype ReadinessLevel = NotReady | Partial | Ready | Hold | Scrubbed

  /** `LaunchReadiness` without its wall-clock timestamp. */
  datatype LaunchReadiness = LaunchReadiness(
    level: ReadinessLevel,
    readyMilestones: seq<string>,
    pendingMilestones: seq<string>,
    failedMilestones: seq<string>,
    overallProgress: real,
    message: string)

  /** Which partition a milestone state puts its milestone in. */
  datatype Category = ReadyCat | PendingCat | FailedCat

  function Classify(st: MilestoneState): Category {
    match st
    case Complete => ReadyCat
    case Failed => FailedCat
    case Aborted => FailedCat
    case _ => PendingCat
  }

  /** The names of the entries in category `c`, in iteration order. */
  function NamesIn(entries: seq<Entry>, c: Category): (r: seq<string>)
    ensures |r| <= |entries|
    ensures forall x :: x in r <==>
      exists i :: 0 <= i < |entries| && entries[i].name == x && Classify(entries[i].status.state) == c
  {
    if |entries| == 0 then []
    else
      var e := entries[|entries| - 1];
      var r0 := NamesIn(entries[..|entries| - 1], c);
      assert forall i :: 0 <= i < |entries| - 1 ==> entries[..|entries| - 1][i] == entries[i];
      r0 + (if Classify(e.status.state) == c then [e.name] else [])
  }

  /** Partitioning preserves iteration order: it distributes over concatenation. */
  lemma {:induction false} NamesInAppend(a: seq<Entry>, b: seq<Entry>, c: Category)
    ensures NamesIn(a + b, c) == NamesIn(a, c) + NamesIn(b, c)
    decreases |b|
  {
    if |b| == 0 {
      assert a + b == a;
    } else {
      assert (a + b)[..|a + b| - 1] == a + b[..|b| - 1];
      NamesInAppend(a, b[..|b| - 1], c);
    }
  }

  /** The three partitions together have one name per entry. */
  lemma {:induction false} PartitionSizes(entries: seq<Entry>)
    ensures |NamesIn(entries, ReadyCat)| + |NamesIn(entries, PendingCat)| + |NamesIn(entries, FailedCat)|
         == |entries|
  {
    if |entries| > 0 {
      PartitionSizes(entries[..|entries| - 1]);
    }
  }

  /** With unique keys, every milestone lands in exactly one partition: the one
      its state selects. */
  lemma PartitionExactlyOne(entries: seq<Entry>, i: nat, c: Category)
    requires UniqueNames(entries)
    requires i < |entries|
    ensures entries[i].name in NamesIn(entries, c) <==> Classify(entries[i].status.state) == c
  {
  }

  predicate HasName(entries: seq<Entry>, m: string) {
    exists i :: 0 <= i < |entries| && entries[i].name == m
  }

  predicate AnyFailed(entries: seq<Entry>) {
    exists i :: 0 <= i < |entries| && Classify(entries[i].status.state) == FailedCat
  }

  predicate CriticalFailed(entries: seq<Entry>) {
    exists i :: 0 <= i < |entries| && Classify(entries[i].status.state) == FailedCat
      && entries[i].name in CriticalMilestones
  }

  predicate AllComplete(entries: seq<Entry>) {
    forall i :: 0 <= i < |entries| ==> entries[i].status.state == Complete
  }

  predicate AllCriticalComplete(entries: seq<Entry>) {
    forall i :: 0 <= i < |entries| && entries[i].name in CriticalMilestones ==>
      entries[i].status.state == Complete
  }

  /** Every critical milestone that is tracked at all is among the ready ones. */
  predicate CriticalReady(entries: seq<Entry>, ready: seq<string>) {
    forall m :: m in CriticalMilestones && HasName(entries, m) ==> m in ready
  }

  /** `_determine_readiness_level`, in the source's precedence order. */
  function DetermineLevel(ready: seq<string>, pending: seq<string>, failed: seq<string>,
                          entries: seq<Entry>): ReadinessLevel
  {
    if |failed| > 0 then
      if exists m :: m in failed && m in CriticalMilestones then Scrubbed else Hold
    else if |pending| == 0 && CriticalReady(entries, ready) then Ready
    else if CriticalReady(entries, ready) then Partial
    else NotReady
  }

  const ReadyMessage: string := "All systems ready for launch"
  const ScrubbedPrefix: string := "Launch scrubbed due to critical failures: "
  const HoldPrefix: string := "Launch on hold: "

  /** `_generate_message`. */
  function GenerateMessage(level: ReadinessLevel, ready: seq<string>, pending: seq<string>,
                           failed: seq<string>): string
  {
    match level
    case Ready => ReadyMessage
    case Scrubbed => ScrubbedPrefix + Join(failed, ", ")
    case Hold => HoldPrefix + Join(failed, ", ")
    case _ => "Not ready - " + NatToString(|pending|) + " milestones pending"
  }

  /** Percentage of milestones that are complete; 0.0 for an empty mapping. */
  function OverallProgress(readyCount: nat, total: nat): (r: real)
    requires readyCount <= total
    ensures 0.0 <= r <= 100.0
    ensures total == 0 ==> r == 0.0
    ensures total > 0 ==> r * (total as real) == 100.0 * (readyCount as real)
    ensures r == 100.0 <==> total > 0 && readyCount == total
  {
    if total > 0 then (readyCount as real) / (total as real) * 100.0 else 0.0
  }

  /** `compute_readiness`. */
  function ComputeReadiness(entries: seq<Entry>): (r: LaunchReadiness)
    // partitions
    ensures r.readyMilestones == NamesIn(entries, ReadyCat)
    ensures r.pendingMilestones == NamesIn(entries, PendingCat)
    ensures r.failedMilestones == NamesIn(entries, FailedCat)
    // level precedence
    ensures r.level == Scrubbed <==> CriticalFailed(entries)
    ensures r.level == Hold <==> AnyFailed(entries) && !CriticalFailed(entries)
    ensures r.level == Ready <==> AllComplete(entries)
    ensures UniqueNames(entries) ==>
      (r.level == Partial <==> !AnyFailed(entries) && !AllComplete(entries) && AllCriticalComplete(entries))
    ensures UniqueNames(entries) ==>
      (r.level == NotReady <==> !AnyFailed(entries) && !AllCriticalComplete(entries))
    // progress
    ensures |entries| == 0 ==> r.overallProgress == 0.0
    ensures 0.0 <= r.overallProgress <= 100.0
    ensures |entries| > 0 ==>
      r.overallProgress == (|r.readyMilestones| as real) / (|entries| as real) * 100.0
    ensures r.overallProgress == 100.0 <==> |entries| > 0 && AllComplete(entries)
    // message
    ensures r.level == Ready ==> r.message == ReadyMessage
    ensures r.level == Scrubbed ==> r.message == ScrubbedPrefix + Join(r.failedMilestones, ", ")
    ensures r.level == Hold ==> r.message == HoldPrefix + Join(r.failedMilestones, ", ")
    ensures r.level == Partial || r.level == NotReady ==>
      r.message == "Not ready - " + NatToString(|r.pendingMilestones|) + " milestones pending"
  {
    var ready := NamesIn(entries, ReadyCat);
    var pending := NamesIn(entries, PendingCat);
    var failed := NamesIn(entries, FailedCat);
    PartitionSizes(entries);
    LevelFacts(entries);
    var level := DetermineLevel(ready, pending, failed, entries);
    var progress := OverallProgress(|ready|, |entries|);
    assert progress == 100.0 <==> |entries| > 0 && |ready| == |entries|;
    LaunchReadiness(level, ready, pending, failed, progress,
                    GenerateMessage(level, ready, pending, failed))
  }

  /** The failed partition is non-empty exactly when some state is FAILED or
      ABORTED, and it holds a critical name exactly when a critical one is. */
  lemma FailedPartitionFacts(entries: seq<Entry>)
    ensures var failed := NamesIn(entries, FailedCat);
      && (|failed| > 0 <==> AnyFailed(entries))
      && ((exists m :: m in failed && m in CriticalMilestones) <==> CriticalFailed(entries))
  {
    var failed := NamesIn(entries, FailedCat);
    if AnyFailed(entries) {
      var i :| 0 <= i < |entries| && Classify(entries[i].status.state) == FailedCat;
      assert entries[i].name in failed;
    }
    if CriticalFailed(entries) {
      var i :| 0 <= i < |entries| && Classify(entries[i].status.state) == FailedCat
        && entries[i].name in CriticalMilestones;
      assert entries[i].name in failed;
    }
  }

  /** Nothing pending and nothing failed, or every name ready, exactly when
      every milestone is complete. */
  lemma AllCompleteFacts(entries: seq<Entry>)
    ensures var ready := NamesIn(entries, ReadyCat);
      var pending := NamesIn(entries, PendingCat);
      var failed := NamesIn(entries, FailedCat);
      && (|pending| == 0 && |failed| == 0 <==> AllComplete(entries))
      && (|ready| == |entries| <==> AllComplete(entries))
      && (AllComplete(entries) ==> CriticalReady(entries, ready))
  {
    var ready := NamesIn(entries, ReadyCat);
    var pending := NamesIn(entries, PendingCat);
    var failed := NamesIn(entries, FailedCat);
    PartitionSizes(entries);
    if AllComplete(entries) {
      assert |pending| == 0 && |failed| == 0;
      assert CriticalReady(entries, ready);
    }
    if |pending| == 0 && |failed| == 0 {
      forall i | 0 <= i < |entries|
        ensures entries[i].status.state == Complete
      {
        var c := Classify(entries[i].status.state);
        assert entries[i].name in NamesIn(entries, c);
      }
    }
  }

  /** With unique keys, the source's `critical_ready` holds exactly when every
      tracked critical milestone is complete. */
  lemma CriticalReadyFacts(entries: seq<Entry>)
    requires UniqueNames(entries)
    ensures CriticalReady(entries, NamesIn(entries, ReadyCat)) <==> AllCriticalComplete(entries)
  {
    var ready := NamesIn(entries, ReadyCat);
    if CriticalReady(entries, ready) {
      forall i | 0 <= i < |entries| && entries[i].name in CriticalMilestones
        ensures entries[i].status.state == Complete
      {
        assert HasName(entries, entries[i].name);
      }
    }
  }

  /** The level precedence, stated over the entries' states. */
  lemma LevelFacts(entries: seq<Entry>)
    ensures var ready := NamesIn(entries, ReadyCat);
      var pending := NamesIn(entries, PendingCat);
      var failed := NamesIn(entries, FailedCat);
      var level := DetermineLevel(ready, pending, failed, entries);
      && (|failed| > 0 <==> AnyFailed(entries))
      && (|ready| == |entries| <==> AllComplete(entries))
      && (level == Scrubbed <==> CriticalFailed(entries))
      && (level == Hold <==> AnyFailed(entries) && !CriticalFailed(entries))
      && (level == Ready <==> AllComplete(entries))
      && (UniqueNames(entries) ==>
           (level == Partial <==> !AnyFailed(entries) && !AllComplete(entries) && AllCriticalComplete(entries)))
      && (UniqueNames(entries) ==>
           (level == NotReady <==> !AnyFailed(entries) && !AllCriticalComplete(entries)))
  {
    FailedPartitionFacts(entries);
    AllCompleteFacts(entries);
    if UniqueNames(entries) {
      CriticalReadyFacts(entries);
    }
  }

  /** On hold or scrubbed, the message names every failed milestone, the
      non-critical ones included. */
  lemma MessageNamesEveryFailure(entries: seq<Entry>, i: nat)
    requires ComputeReadiness(entries).level == Scrubbed || ComputeReadiness(entries).level == Hold
    requires i < |ComputeReadiness(entries).failedMilestones|
    ensures IsInfix(ComputeReadiness(entries).failedMilestones[i], ComputeReadiness(entries).message)
  {
    var r := ComputeReadiness(entries);
    JoinContainsEach(r.failedMilestones, ", ", i);
    if r.level == Scrubbed {
      InfixOfSuffix(r.failedMilestones[i], ScrubbedPrefix, Join(r.failedMilestones, ", "));
    } else {
      InfixOfSuffix(r.failedMilestones[i], HoldPrefix, Join(r.failedMilestones, ", "));
    }
  }

  /** With nothing failed and something incomplete, the verdict is PARTIAL or
      NOT_READY, and the number in its message reads back as the number of
      pending milestones. */
  lemma PendingCountInMessage(entries: seq<Entry>)
    requires !AnyFailed(entries) && !AllComplete(entries)
    ensures var r := ComputeReadiness(entries);
      && (r.level == Partial || r.level == NotReady)
      && (exists digits :: IsDigits(digits)
            && r.message == "Not ready - " + digits + " milestones pending"
            && ParseDigits(digits) == |r.pendingMilestones|)
  {
    var r := ComputeReadiness(entries);
    ParseNatToString(|r.pendingMilestones|);
    var digits := NatToString(|r.pendingMilestones|);
    assert r.message == "Not ready - " + digits + " milestones pending";
  }

  /** The tracker's completion count is the size of the ready partition. */
  lemma {:induction false} CompletionCountIsReady(entries: seq<Entry>)
    ensures CompletionCount(entries) == |NamesIn(entries, ReadyCat)|
    ensures CompletionCount(entries) == |ComputeReadiness(entries).readyMilestones|
  {
    if |entries| > 0 {
      CompletionCountIsReady(entries[..|entries| - 1]);
    }
  }

  /** For a tracker, the verdict is READY exactly when all six milestones are
      complete, and the progress is then 100. */
  lemma TrackerReadyIffAllComplete(p: Processor)
    requires Tracked(p)
    ensures var r := ComputeReadiness(GetAllStatuses(p));
      && (r.level == Ready <==> GetCompletionCount(p) == 6)
      && (r.level == Ready <==> forall m :: IsMilestone(m) ==> IsMilestoneComplete(p, m))
      && (r.level == Ready <==> r.overallProgress == 100.0)
  {
    TrackedUnique(p);
    AllMilestonesDistinct();
    var r := ComputeReadiness(GetAllStatuses(p));
    if forall m :: IsMilestone(m) ==> IsMilestoneComplete(p, m) {
      forall i | 0 <= i < |p.entries|
        ensures p.entries[i].status.state == Complete
      {
        assert IsMilestone(p.entries[i].name);
      }
    }
  }

  /** Nothing started yet: every milestone pending, nothing ready or failed. */
  lemma NothingStartedReadiness(entries: seq<Entry>)
    requires forall i :: 0 <= i < |entries| ==> entries[i].status.state == NotStarted
    ensures var r := ComputeReadiness(entries);
      && r.readyMilestones == [] && r.failedMilestones == []
      && r.pendingMilestones == seq(|entries|, i requires 0 <= i < |entries| => entries[i].name)
      && r.overallProgress == 0.0
      && (HasName(entries, "engine_chill") && UniqueNames(entries) ==> r.level == NotReady)
  {
    AllPending(entries);
    PartitionSizes(entries);
  }

  /** A tracker none of whose milestones has started is NOT_READY with all
      six milestones pending. */
  lemma TrackerNothingStarted(p: Processor)
    requires Tracked(p)
    requires forall i :: 0 <= i < |p.entries| ==> p.entries[i].status.state == NotStarted
    ensures var r := ComputeReadiness(GetAllStatuses(p));
      && r.level == NotReady
      && r.readyMilestones == [] && r.failedMilestones == []
      && r.pendingMilestones == AllMilestones
      && r.overallProgress == 0.0
      && r.message == "Not ready - 6 milestones pending"
  {
    var es := GetAllStatuses(p);
    TrackedUnique(p);
    assert HasName(es, es[0].name);
    NothingStartedReadiness(es);
    assert seq(|es|, i requires 0 <= i < |es| => es[i].name) == AllMilestones;
    SixPendingMessage();
  }

  lemma SixPendingMessage()
    ensures "Not ready - " + NatToString(6) + " milestones pending" == "Not ready - 6 milestones pending"
  {
    assert NatToString(6) == "6";
  }

  /** A fresh tracker is NOT_READY with all six milestones pending. */
  lemma InitialReadiness()
    ensures var r := ComputeReadiness(GetAllStatuses(InitialProcessor()));
      && r.level == NotReady
      && r.pendingMilestones == AllMilestones
      && r.message == "Not ready - 6 milestones pending"
  {
    TrackerNothingStarted(InitialProcessor());
  }

  lemma {:induction false} AllPending(entries: seq<Entry>)
    requires forall i :: 0 <= i < |entries| ==> Classify(entries[i].status.state) == PendingCat
    ensures NamesIn(entries, PendingCat) == seq(|entries|, i requires 0 <= i < |entries| => entries[i].name)
  {
    if |entries| > 0 {
      AllPending(entries[..|entries| - 1]);
    }
  }

  /** A `failed` packet for a critical milestone scrubs the launch, whatever
      the other milestones' states. */
  lemma CriticalFailureScrubs(p: Processor, pkt: Packet)
    requires Tracked(p)
    requires ProgressIsNumeric(pkt.data)
    requires pkt.milestone in CriticalMilestones
    requires StatusIs(pkt.data, "failed")
    ensures ProcessPacket(p, pkt).ok
    ensures ComputeReadiness(GetAllStatuses(ProcessPacket(p, pkt).next)).level == Scrubbed
  {
    TrackedUnique(p);
    CriticalAreMilestones();
    var i := Find(p.entries, pkt.milestone).value;
    var next := ProcessPacket(p, pkt).next;
    assert CriticalFailed(GetAllStatuses(next)) by {
      assert next.entries[i].status.state == Failed;
    }
  }

  /** A `failed` packet for a non-critical milestone, while no critical
      milestone has failed, puts the launch on hold. */
  lemma NonCriticalFailureHolds(p: Processor, pkt: Packet)
    requires Tracked(p)
    requires ProgressIsNumeric(pkt.data)
    requires IsMilestone(pkt.milestone) && pkt.milestone !in CriticalMilestones
    requires StatusIs(pkt.data, "failed")
    requires !CriticalFailed(p.entries)
    ensures ProcessPacket(p, pkt).ok
    ensures ComputeReadiness(GetAllStatuses(ProcessPacket(p, pkt).next)).level == Hold
  {
    TrackedUnique(p);
    var i := Find(p.entries, pkt.milestone).value;
    var next := ProcessPacket(p, pkt).next;
    assert next.entries[i].status.state == Failed;
    assert AnyFailed(GetAllStatuses(next));
    assert !CriticalFailed(GetAllStatuses(next)) by {
      forall j | 0 <= j < |next.entries| && next.entries[j].name in CriticalMilestones
        ensures Classify(next.entries[j].status.state) != FailedCat
      {
        assert j != i;
        assert next.entries[j] == p.entries[j];
      }
    }
  }
}
