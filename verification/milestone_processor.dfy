/** The milestone tracker: one status per milestone, updated by packets
    according to their payload's `status`, `progress` and numeric fields. */
module MilestoneProcessing {
  import opened Wrappers
  import opened Values
  import opened Milestones
  import opened Packets

  datatype MilestoneState = NotStarted | InProgress | Complete | Failed | Aborted

  /** `error_message` holds whatever the payload's `error` field held (nothing
      when that was `None`), so it is a payload value rather than a string. */
  datatype MilestoneStatus = MilestoneStatus(
    milestone: string,
    state: MilestoneState,
    progressPercent: real,
    lastUpdate: Option<int>,
    errorMessage: Option<Value>,
    metrics: map<string, real>)

  /** One key/value pair of an insertion-ordered mapping from milestone name
      to status. The tracker's mapping and every snapshot of it are `seq<Entry>`. */
  datatype Entry = Entry(name: string, status: MilestoneStatus)

  datatype Processor = Processor(entries: seq<Entry>)

  /** A freshly created status: not started, no progress, no update, no error, no metrics. */
  function FreshStatus(m: string): MilestoneStatus {
    MilestoneStatus(m, NotStarted, 0.0, None, None, map[])
  }

  /** Position of key `m` in an ordered mapping. */
  function Find(entries: seq<Entry>, m: string): (r: Option<nat>)
    ensures r.None? <==> forall i :: 0 <= i < |entries| ==> entries[i].name != m
    ensures r.Some? ==> r.value < |entries| && entries[r.value].name == m
    ensures r.Some? ==> forall j :: 0 <= j < r.value ==> entries[j].name != m
  {
    if |entries| == 0 then None
    else if entries[0].name == m then Some(0)
    else match Find(entries[1..], m)
      case None => None
      case Some(i) => Some(i + 1)
  }

  /** `mapping.get(m)`. */
  function Lookup(entries: seq<Entry>, m: string): Option<MilestoneStatus> {
    match Find(entries, m)
    case None => None
    case Some(i) => Some(entries[i].status)
  }

  /** Dictionary keys are unique. */
  predicate UniqueNames(entries: seq<Entry>) {
    forall i, j :: 0 <= i < j < |entries| ==> entries[i].name != entries[j].name
  }

  /** The shape every tracker keeps: exactly the six milestones, in their fixed
      order, each status naming its own milestone. */
  predicate Tracked(p: Processor) {
    && |p.entries| == |AllMilestones|
    && forall i :: 0 <= i < |p.entries| ==>
         p.entries[i].name == AllMilestones[i] && p.entries[i].status.milestone == AllMilestones[i]
  }

  lemma TrackedUnique(p: Processor)
    ensures Tracked(p) ==> UniqueNames(p.entries)
    ensures Tracked(p) ==> forall m :: Find(p.entries, m).Some? <==> IsMilestone(m)
  {
    if Tracked(p) {
      AllMilestonesDistinct();
      forall m | IsMilestone(m)
        ensures Find(p.entries, m).Some?
      {
        var i :| 0 <= i < |AllMilestones| && AllMilestones[i] == m;
        assert p.entries[i].name == m;
      }
    }
  }

  /** `MilestoneProcessor()`: the six milestones, each freshly not started. */
  function InitialProcessor(): (p: Processor)
    ensures Tracked(p)
    ensures forall i :: 0 <= i < |p.entries| ==> p.entries[i].status == FreshStatus(AllMilestones[i])
  {
    Processor(seq(|AllMilestones|, i requires 0 <= i < |AllMilestones| =>
      Entry(AllMilestones[i], FreshStatus(AllMilestones[i]))))
  }

  /** The payload's `status` field is the string `v`. */
  predicate StatusIs(data: map<string, Value>, v: string) {
    "status" in data && data["status"] == Str(v)
  }

  predicate HasKnownStatus(data: map<string, Value>) {
    StatusIs(data, "complete") || StatusIs(data, "in_progress") || StatusIs(data, "failed")
  }

  /** `float(data["progress"])` must not raise. */
  predicate ProgressIsNumeric(data: map<string, Value>) {
    "progress" in data ==> IsNumeric(data["progress"])
  }

  /** Progress given by the packet is a positive number. */
  predicate PositiveProgress(data: map<string, Value>)
    requires ProgressIsNumeric(data)
  {
    "progress" in data && ToReal(data["progress"]) > 0.0
  }

  /** A payload entry that is recorded as a metric. */
  predicate IsMetric(data: map<string, Value>, k: string) {
    k in data && IsNumeric(data[k]) && k != "status" && k != "progress"
  }

  /** The error message a `failed` status records: the payload's `error`
      value (an explicit `None` clears the message), else "Unknown error". */
  function FailureMessage(data: map<string, Value>): (r: Option<Value>)
    ensures "error" !in data ==> r == Some(Str("Unknown error"))
    ensures "error" in data ==> (r.None? <==> data["error"].Null?)
    ensures "error" in data && r.Some? ==> r.value == data["error"]
  {
    if "error" !in data then Some(Str("Unknown error"))
    else if data["error"].Null? then None
    else Some(data["error"])
  }

  function ApplyStatusField(s: MilestoneStatus, data: map<string, Value>): MilestoneStatus {
    if StatusIs(data, "complete") then s.(state := Complete, progressPercent := 100.0)
    else if StatusIs(data, "in_progress") then s.(state := InProgress)
    else if StatusIs(data, "failed") then s.(state := Failed, errorMessage := FailureMessage(data))
    else s
  }

  function ApplyProgressField(s: MilestoneStatus, data: map<string, Value>): MilestoneStatus
    requires ProgressIsNumeric(data)
  {
    if "progress" in data then
      var v := ToReal(data["progress"]);
      s.(progressPercent := v, state := if v > 0.0 && s.state == NotStarted then InProgress else s.state)
    else s
  }

  function ApplyMetrics(s: MilestoneStatus, data: map<string, Value>): MilestoneStatus {
    s.(metrics := s.metrics + map k | k in data.Keys && IsMetric(data, k) :: ToReal(data[k]))
  }

  /** The effect of one packet on its milestone's status. */
  function ApplyPacket(s: MilestoneStatus, pkt: Packet): (r: MilestoneStatus)
    requires ProgressIsNumeric(pkt.data)
    // identity and freshness
    ensures r.milestone == s.milestone
    ensures r.lastUpdate == Some(pkt.timestamp)
    // state
    ensures StatusIs(pkt.data, "complete") ==> r.state == Complete
    ensures StatusIs(pkt.data, "in_progress") ==> r.state == InProgress
    ensures StatusIs(pkt.data, "failed") ==> r.state == Failed
    ensures !HasKnownStatus(pkt.data) && s.state == NotStarted && PositiveProgress(pkt.data) ==>
      r.state == InProgress
    ensures !HasKnownStatus(pkt.data) && !(s.state == NotStarted && PositiveProgress(pkt.data)) ==>
      r.state == s.state
    // error message
    ensures StatusIs(pkt.data, "failed") ==> r.errorMessage == FailureMessage(pkt.data)
    ensures !StatusIs(pkt.data, "failed") ==> r.errorMessage == s.errorMessage
    // progress: an explicit value wins over the 100.0 of a completion
    ensures "progress" in pkt.data ==> r.progressPercent == ToReal(pkt.data["progress"])
    ensures "progress" !in pkt.data && StatusIs(pkt.data, "complete") ==> r.progressPercent == 100.0
    ensures "progress" !in pkt.data && !StatusIs(pkt.data, "complete") ==>
      r.progressPercent == s.progressPercent
    // metrics
    ensures forall k :: k in r.metrics <==> k in s.metrics || IsMetric(pkt.data, k)
    ensures forall k :: IsMetric(pkt.data, k) ==> r.metrics[k] == ToReal(pkt.data[k])
    ensures forall k :: k in s.metrics && !IsMetric(pkt.data, k) ==> r.metrics[k] == s.metrics[k]
  {
    var stamped := s.(lastUpdate := Some(pkt.timestamp));
    ApplyMetrics(ApplyProgressField(ApplyStatusField(stamped, pkt.data), pkt.data), pkt.data)
  }

  /** `process_packet`: an unknown milestone is refused and nothing changes;
      otherwise exactly that milestone's status is updated and true returned. */
  function ProcessPacket(p: Processor, pkt: Packet): (out: Step<Processor>)
    requires ProgressIsNumeric(pkt.data)
    ensures Find(p.entries, pkt.milestone).None? ==> out == Step(p, false)
    ensures Find(p.entries, pkt.milestone).Some? ==>
      var i := Find(p.entries, pkt.milestone).value;
      && out.ok
      && |out.next.entries| == |p.entries|
      && out.next.entries[i] == Entry(pkt.milestone, ApplyPacket(p.entries[i].status, pkt))
      && forall j :: 0 <= j < |p.entries| && j != i ==> out.next.entries[j] == p.entries[j]
    ensures Tracked(p) ==> Tracked(out.next)
  {
    match Find(p.entries, pkt.milestone)
    case None => Step(p, false)
    case Some(i) =>
      var e := p.entries[i];
      Step(Processor(p.entries[i := Entry(e.name, ApplyPacket(e.status, pkt))]), true)
  }

  /** Processing the same packet twice in a row leaves the status as
      processing it once: with no deduplication by packet id, an immediate
      duplicate is harmless. */
  lemma ApplyPacketIdempotent(s: MilestoneStatus, pkt: Packet)
    requires ProgressIsNumeric(pkt.data)
    ensures ApplyPacket(ApplyPacket(s, pkt), pkt) == ApplyPacket(s, pkt)
  {
    var once := ApplyPacket(s, pkt);
    var twice := ApplyPacket(once, pkt);
    assert twice.metrics == once.metrics;
  }

  lemma ProcessPacketIdempotent(p: Processor, pkt: Packet)
    requires ProgressIsNumeric(pkt.data)
    ensures ProcessPacket(ProcessPacket(p, pkt).next, pkt) == Step(ProcessPacket(p, pkt).next, ProcessPacket(p, pkt).ok)
  {
    var once := ProcessPacket(p, pkt);
    match Find(p.entries, pkt.milestone)
    case None =>
    case Some(i) =>
      assert forall j :: 0 <= j < |p.entries| ==> once.next.entries[j].name == p.entries[j].name;
      assert Find(once.next.entries, pkt.milestone) == Some(i);
      ApplyPacketIdempotent(p.entries[i].status, pkt);
      assert once.next.entries[i := Entry(pkt.milestone, ApplyPacket(once.next.entries[i].status, pkt))]
          == once.next.entries;
  }

  /** Packets are not deduplicated by id, so a late re-delivery of an old
      packet undoes later progress: a `failed` packet replayed after a
      `complete` one fails the milestone again. */
  lemma LateDuplicateOverwrites(s: MilestoneStatus, failed: Packet, done: Packet)
    requires ProgressIsNumeric(failed.data) && ProgressIsNumeric(done.data)
    requires StatusIs(failed.data, "failed") && StatusIs(done.data, "complete")
    ensures ApplyPacket(ApplyPacket(s, failed), done).state == Complete
    ensures ApplyPacket(ApplyPacket(ApplyPacket(s, failed), done), failed).state == Failed
    ensures ApplyPacket(ApplyPacket(ApplyPacket(s, failed), done), failed).lastUpdate == Some(failed.timestamp)
  {
  }

  /** Without an explicit status, a packet can move a milestone's state in only
      one way: from not started to in progress. Complete and failed states are
      never left on progress or metrics alone. */
  lemma ProgressOnlyStarts(s: MilestoneStatus, pkt: Packet)
    requires ProgressIsNumeric(pkt.data)
    requires !HasKnownStatus(pkt.data)
    ensures ApplyPacket(s, pkt).state == s.state
         || (s.state == NotStarted && ApplyPacket(s, pkt).state == InProgress)
    ensures s.state in {Complete, Failed, Aborted, InProgress} ==> ApplyPacket(s, pkt).state == s.state
  {
  }

  /** `get_milestone_status`. */
  function GetMilestoneStatus(p: Processor, m: string): (r: Option<MilestoneStatus>)
    ensures r.None? <==> forall i :: 0 <= i < |p.entries| ==> p.entries[i].name != m
    ensures r.Some? ==> exists i :: 0 <= i < |p.entries| && p.entries[i] == Entry(m, r.value)
    ensures Tracked(p) ==> (r.Some? <==> IsMilestone(m))
  {
    TrackedUnique(p);
    Lookup(p.entries, m)
  }

  /** `get_all_statuses`: a copy of the mapping, in the tracker's order. */
  function GetAllStatuses(p: Processor): (r: seq<Entry>)
    ensures r == p.entries
    ensures Tracked(p) ==> UniqueNames(r) && forall i :: 0 <= i < |r| ==> r[i].name == AllMilestones[i]
  {
    TrackedUnique(p);
    p.entries
  }

  /** `is_milestone_complete`: false for an unknown milestone. */
  function IsMilestoneComplete(p: Processor, m: string): (r: bool)
    ensures (forall i :: 0 <= i < |p.entries| ==> p.entries[i].name != m) ==> !r
    ensures UniqueNames(p.entries) ==>
      (r <==> exists i :: 0 <= i < |p.entries| && p.entries[i].name == m && p.entries[i].status.state == Complete)
  {
    match Lookup(p.entries, m)
    case None => false
    case Some(s) => s.state == Complete
  }

  /** `reset_milestone`: false for an unknown milestone; otherwise that
      milestone gets a fresh status and nothing else changes. */
  function ResetMilestone(p: Processor, m: string): (out: Step<Processor>)
    ensures Find(p.entries, m).None? ==> out == Step(p, false)
    ensures Find(p.entries, m).Some? ==>
      var i := Find(p.entries, m).value;
      && out.ok
      && |out.next.entries| == |p.entries|
      && out.next.entries[i] == Entry(m, FreshStatus(m))
      && forall j :: 0 <= j < |p.entries| && j != i ==> out.next.entries[j] == p.entries[j]
    ensures Tracked(p) ==> Tracked(out.next)
  {
    match Find(p.entries, m)
    case None => Step(p, false)
    case Some(i) => Step(Processor(p.entries[i := Entry(m, FreshStatus(m))]), true)
  }

  /** Resetting a milestone forgets every packet it has processed: the
      tracker is as if the packet had never arrived and the milestone had
      been reset. From a fresh tracker, process-then-reset is the fresh tracker. */
  lemma ResetUndoesProcessing(p: Processor, pkt: Packet)
    requires ProgressIsNumeric(pkt.data)
    ensures ResetMilestone(ProcessPacket(p, pkt).next, pkt.milestone).next
         == ResetMilestone(p, pkt.milestone).next
    ensures IsMilestone(pkt.milestone) ==>
      ResetMilestone(ProcessPacket(InitialProcessor(), pkt).next, pkt.milestone).next == InitialProcessor()
  {
    ResetAfterProcessing(p, pkt);
    ResetAfterProcessing(InitialProcessor(), pkt);
    if IsMilestone(pkt.milestone) {
      ResetInitialIsInitial(pkt.milestone);
    }
  }

  /** Processing only touches the entry named by the packet, which a reset then overwrites. */
  lemma ResetAfterProcessing(p: Processor, pkt: Packet)
    requires ProgressIsNumeric(pkt.data)
    ensures ResetMilestone(ProcessPacket(p, pkt).next, pkt.milestone).next
         == ResetMilestone(p, pkt.milestone).next
  {
    var once := ProcessPacket(p, pkt);
    match Find(p.entries, pkt.milestone)
    case None =>
    case Some(i) =>
      assert forall j :: 0 <= j < |p.entries| ==> once.next.entries[j].name == p.entries[j].name;
      assert Find(once.next.entries, pkt.milestone) == Some(i);
  }

  /** Resetting a milestone of the initial tracker leaves the tracker as it was. */
  lemma ResetInitialIsInitial(m: string)
    requires IsMilestone(m)
    ensures ResetMilestone(InitialProcessor(), m).next == InitialProcessor()
  {
    var init := InitialProcessor();
    TrackedUnique(init);
    var i := Find(init.entries, m).value;
    assert init.entries[i] == Entry(m, FreshStatus(m));
    assert init.entries[i := Entry(m, FreshStatus(m))] == init.entries;
  }

  /** `get_completion_count`. */
  function CompletionCount(entries: seq<Entry>): (n: nat)
    ensures n <= |entries|
    ensures n == |entries| <==> forall i :: 0 <= i < |entries| ==> entries[i].status.state == Complete
    ensures n == 0 <==> forall i :: 0 <= i < |entries| ==> entries[i].status.state != Complete
  {
    if |entries| == 0 then 0
    else
      var last := if entries[|entries| - 1].status.state == Complete then 1 else 0;
      CompletionCount(entries[..|entries| - 1]) + last
  }

  function GetCompletionCount(p: Processor): nat {
    CompletionCount(p.entries)
  }
}
