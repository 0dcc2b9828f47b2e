# Launch telemetry: from packets to a launch verdict

This project models, in Dafny, the bookkeeping core of a launch-countdown
telemetry service and proves properties of it. Ground stations send
telemetry packets. Each packet names one of six fixed launch milestones
(`engine_chill`, `fuel_load`, `pressurization`, `terminal_count`,
`ignition`, `liftoff`) and carries a payload. The service:

- checks each packet's structure and keeps the accepted ones in a bounded
  FIFO buffer (`Receivers`);
- folds each packet into a per-milestone status: state, progress, last
  update, error message and metrics (`MilestoneProcessing`);
- derives a launch verdict from the six statuses (`Readiness`). The verdict
  has three partitions (ready, pending, failed), a progress percentage and
  one of five levels (NOT_READY, PARTIAL, READY, HOLD, SCRUBBED) with a fixed
  message per level;
- keeps time-stamped snapshots of the statuses for history queries
  (`Aggregation`).

A small generic whitelist state machine with a transition log
(`StateMachines`) is modelled alongside.

Everything is written as immutable datatypes and pure functions. A call that
mutates a service object becomes a function from the old state to the new
state. When the call also returns a boolean, the result is a
`Step(next, ok)`. Two kinds of step are written as methods with loops,
because Python computes them with `max`/`min` over a key: the
latest-by-timestamp query and the closest-snapshot query (`Extrema`).

Modules and files:

| file | module | models |
|---|---|---|
| `wrappers.dfy` | `Wrappers` | `Option`, `Result` (a raised error), `Step` (new state and returned boolean) |
| `values.dfy` | `Values` | payload values and what counts as numeric |
| `milestones.dfy` | `Milestones` | the six milestone names and the critical three |
| `packet.dfy` | `Packets` | `ingestion/packet.py` |
| `receiver.dfy` | `Receivers` | `ingestion/receiver.py` |
| `milestone_processor.dfy` | `MilestoneProcessing` | `processors/milestone_processor.py` |
| `readiness.dfy` | `Readiness` | `status/readiness.py` |
| `state_machine.dfy` | `StateMachines` | `processors/state_machine.py` |
| `aggregator.dfy` | `Aggregation` | `status/aggregator.py` |
| `text.dfy` | `Text` | `", ".join` and integer formatting used in the messages |
| `extrema.dfy` | `Extrema` | first-index `max`/`min` by key |

Modelling choices:

- **Ordered mappings.** A Python `dict` is modelled as a `seq<Entry>` of
  key/status pairs in insertion order. This covers the tracker's
  `milestone_states` and every snapshot of it. Iteration order matters, for
  the readiness partitions and for the completion timeline. Lookups take the
  first matching key. `UniqueNames` states that keys are unique. `Tracked`
  states that the tracker holds exactly the six milestones in their fixed
  order, and every tracker operation preserves it.
- **Payloads.** A payload is a `map<string, Value>`. A `Value` is `Int`,
  `Float` (a `real`), `Bool`, `Str`, `Null` (Python's `None`) or `Other`
  (lists, nested mappings). "Numeric" means `Int`, `Float` or `Bool`, as
  `isinstance(v, (int, float))` is in Python. `ToReal` models `float(v)`.
- **Instants.** Timestamps are `int`. In the aggregator they are
  microseconds, and the retention period is converted at 3 600 000 000
  microseconds per hour. The aggregator reads the clock through a `now`
  parameter.
- **Raised errors.** A receiver whose capacity is zero or negative has an
  empty buffer when the first valid packet arrives. `receive_packet` then
  pops from an empty list, which raises. `ReceivePacket` returns
  `Failure("pop from empty list")` in that case, and the counters stay
  unchanged. `WellFormed` (capacity at least 1) rules this case out.
- **Validity and messages.** `is_valid` asks for a non-empty id, source
  and milestone; the timestamp is always truthy (ingestion/packet.py:32-34).
  The SCRUBBED and HOLD messages both list every failed milestone, critical
  or not (status/readiness.py:102-105). ABORTED counts as failed
  (status/readiness.py:49-50).
- **Defaults.** A receiver's capacity defaults to 1000 and an aggregator's
  retention to 24 hours; `NewReceiver()` and `NewAggregator()` take these
  defaults.

## Model

| member | source | states |
|---|---|---|
| `Milestones.AllMilestonesDistinct` | processors/milestone_processor.py:39-46 | The six milestone names are pairwise distinct, so the tracker's keys are unique. |
| `Values.ToReal` | processors/milestone_processor.py:93-94 | `float()` of a numeric payload value: booleans become 1.0/0.0, integers keep their value and floats are returned unchanged. |
| `Packets.MakePacket` | ingestion/packet.py:10-30 | Building a packet succeeds exactly when the milestone is one of the six names, and then stores every field unchanged. Otherwise it raises "Invalid milestone: <name>". |
| `Packets.BuiltPacketValidity` | ingestion/packet.py:32-34 | For a packet that was built successfully, `is_valid` holds exactly when the id and source are non-empty, because the milestone is already non-empty. `validate_packet` additionally needs a non-empty payload. The timestamp never matters. |
| `Packets.DefaultPayloadRejected` | ingestion/packet.py:14-15 | A packet built without `data` gets an empty payload and no sequence number, and `validate_packet` refuses it. |
| `Packets.ValidationRefusals` | ingestion/packet.py:37-53 | `validate_packet` refuses every packet that `is_valid` refuses (an empty id, for example) and every packet with an empty payload. It accepts exactly the packets that are valid and have a payload. |
| `Receivers.NewReceiver` | ingestion/receiver.py:12-18 | A new receiver has an empty buffer, both counters at zero and the given capacity, 1000 by default. With capacity at least 1 it is well formed. |
| `Receivers.ReceivePacket` | ingestion/receiver.py:20-43 | A refused packet returns false and adds exactly 1 to the error count; nothing else changes. An accepted packet returns true, adds 1 to the packet count, leaves the error count alone and becomes the last buffered packet. On a well-formed receiver the buffer becomes the last `capacity` packets of old buffer + packet. The call raises exactly when a valid packet meets an empty buffer and a capacity of zero or less. |
| `Receivers.FifoEviction` | ingestion/receiver.py:34-38 | After any run of packets on a well-formed receiver, the buffer is the last `capacity` packets of old buffer + accepted packets, in arrival order. The packet count grows by the number accepted and the error count by the number refused. |
| `Receivers.OverflowKeepsNewest` | ingestion/receiver.py:34-38 | At least `capacity` valid packets into a new receiver leave exactly the newest `capacity` of them in the buffer, in arrival order. |
| `Receivers.TwelveIntoTen` | ingestion/receiver.py:34-37 | Twelve valid packets into a new receiver of capacity 10 leave exactly packets 3 to 12 in the buffer. |
| `Receivers.GetPackets` | ingestion/receiver.py:58-70 | With a non-empty milestone, the result is the buffered packets for that milestone, in buffer order and with repeats kept (the order-preserving filter). With no milestone or an empty one, it is the whole buffer. |
| `Receivers.FilterMilestoneAppend` | ingestion/receiver.py:68-69 | Filtering by milestone keeps buffer order: it distributes over concatenation. |
| `Receivers.GetLatestPacket` | ingestion/receiver.py:72-85 | Returns none exactly when the filtered list is empty. Otherwise returns the first filtered packet whose timestamp is the latest. |
| `Receivers.ClearBuffer` | ingestion/receiver.py:87-89 | Empties the buffer, keeps both counters and the capacity, and keeps the receiver well formed. |
| `Receivers.GetStats` | ingestion/receiver.py:100-112 | Reports the two counters, the buffer length and the capacity. On a well-formed receiver the buffer length is at most the capacity and at most the packet count. |
| `Extrema.FirstArgMax` | ingestion/receiver.py:85 | `max` by key returns the first index with the largest key. |
| `Extrema.FirstArgMin` | status/aggregator.py:49-52 | `min` over indices by key returns the first index with the smallest key. |
| `MilestoneProcessing.InitialProcessor` | processors/milestone_processor.py:33-52 | A new tracker holds exactly the six milestones in fixed order. Each is NOT_STARTED with progress 0, no last update, no error and no metrics. |
| `MilestoneProcessing.FailureMessage` | processors/milestone_processor.py:83-85 | A `failed` status records the payload's `error` value, nothing when that value is `None`, and "Unknown error" when the payload has no `error`. |
| `MilestoneProcessing.ApplyPacket` | processors/milestone_processor.py:74-94 | `last_update` becomes the packet's timestamp. `status` "complete" gives COMPLETE with progress 100; "in_progress" gives IN_PROGRESS; "failed" gives FAILED with the payload's `error` (no message when that is `None`) or "Unknown error" when there is no `error`. Any other status changes nothing. An explicit `progress` overrides the progress, including the 100 from "complete". Positive progress promotes only NOT_STARTED to IN_PROGRESS. Every other numeric field is stored as a metric, and the other metrics keep their values. |
| `MilestoneProcessing.ProcessPacket` | processors/milestone_processor.py:54-96 | An unknown milestone returns false and changes nothing. A known one returns true and updates that milestone's entry alone. The tracker's shape is preserved. |
| `MilestoneProcessing.ApplyPacketIdempotent` | processors/milestone_processor.py:74-94 | Applying the same packet twice in a row gives the same status as applying it once. |
| `MilestoneProcessing.ProcessPacketIdempotent` | processors/milestone_processor.py:64-96 | Processing the same packet twice in a row leaves the tracker as processing it once, and returns the same boolean. |
| `MilestoneProcessing.LateDuplicateOverwrites` | processors/milestone_processor.py:69-85 | Packets are not deduplicated by id: replaying an old `failed` packet after a `complete` one makes the milestone FAILED again and moves its last update back to the old packet's timestamp. |
| `MilestoneProcessing.ProgressOnlyStarts` | processors/milestone_processor.py:87-90 | Without a recognised `status`, the only possible state change is NOT_STARTED to IN_PROGRESS. COMPLETE, FAILED, ABORTED and IN_PROGRESS are kept. |
| `MilestoneProcessing.GetMilestoneStatus` | processors/milestone_processor.py:98-108 | Returns none exactly when no entry has that name, and otherwise the status stored under the name. For a tracker, it finds something exactly for the six milestones. |
| `MilestoneProcessing.GetAllStatuses` | processors/milestone_processor.py:110-117 | The copy equals the tracker's mapping: the same names and the same statuses in the same order. For a tracker, it lists the six milestones in fixed order with unique keys. |
| `MilestoneProcessing.IsMilestoneComplete` | processors/milestone_processor.py:119-130 | False for an unknown name. With unique keys, true exactly when the milestone's state is COMPLETE. |
| `MilestoneProcessing.ResetMilestone` | processors/milestone_processor.py:132-149 | An unknown name returns false and changes nothing. A known one gets a fresh NOT_STARTED status, and every other entry is unchanged. |
| `MilestoneProcessing.ResetUndoesProcessing` | processors/milestone_processor.py:132-149 | Resetting a milestone right after a packet gives the same tracker as resetting it without the packet. On a new tracker, process-then-reset gives back the new tracker. |
| `MilestoneProcessing.CompletionCount` | processors/milestone_processor.py:151-161 | The completion count is at most the number of milestones. It equals that number exactly when all are COMPLETE, and is zero exactly when none is. |
| `Readiness.NamesIn` | status/readiness.py:46-52 | A name is in a partition exactly when some entry with that name has a state of that partition's category: COMPLETE is ready, FAILED or ABORTED is failed, anything else is pending. |
| `Readiness.NamesInAppend` | status/readiness.py:46-52 | Each partition keeps iteration order: it distributes over concatenation. |
| `Readiness.PartitionSizes` | status/readiness.py:42-54 | The three partitions together have exactly one name per milestone. |
| `Readiness.PartitionExactlyOne` | status/readiness.py:46-52 | With unique keys, each milestone is in exactly the partition its state selects and in no other. |
| `Readiness.OverallProgress` | status/readiness.py:54-55 | The progress is 0.0 with no milestones and lies between 0 and 100. It is 100 exactly when there are milestones and all are ready. |
| `Readiness.ComputeReadiness` | status/readiness.py:38-68 | The partitions are the ready, pending and failed names. SCRUBBED exactly when a critical milestone failed. HOLD exactly when something failed but nothing critical. READY exactly when everything is COMPLETE. With unique keys: PARTIAL exactly when nothing failed, not everything is complete, and every critical milestone is complete; NOT_READY otherwise. The progress is 100·ready/total. Each level has its exact message. |
| `Readiness.FailedPartitionFacts` | status/readiness.py:78-80 | The failed list is non-empty exactly when some milestone is FAILED or ABORTED, and holds a critical name exactly when a critical milestone is. |
| `Readiness.AllCompleteFacts` | status/readiness.py:84-90 | Nothing pending and nothing failed, or every name ready, holds exactly when every milestone is COMPLETE; then `critical_ready` holds too. |
| `Readiness.CriticalReadyFacts` | status/readiness.py:84-87 | With unique keys, `critical_ready` holds exactly when every tracked critical milestone is COMPLETE. |
| `Readiness.LevelFacts` | status/readiness.py:70-95 | The level decision in precedence order, restated over the milestone states. |
| `Readiness.MessageNamesEveryFailure` | status/readiness.py:102-105 | On HOLD or SCRUBBED, every failed milestone, critical or not, appears in the message. |
| `Readiness.PendingCountInMessage` | status/readiness.py:78-106 | With nothing failed and something incomplete, the level is PARTIAL or NOT_READY and the message is "Not ready - N milestones pending", where the digits N read back as the number of pending milestones. |
| `Readiness.CompletionCountIsReady` | status/readiness.py:46-48 | The tracker's completion count equals the size of the ready partition. |
| `Readiness.TrackerReadyIffAllComplete` | status/readiness.py:84-90 | For a tracker, READY holds exactly when all six milestones are complete. That is the same as a completion count of 6, and the same as a progress of 100. |
| `Readiness.NothingStartedReadiness` | status/readiness.py:42-55 | When no milestone has started, nothing is ready or failed, every milestone is pending in order, and the progress is 0. With unique keys and `engine_chill` among them, the level is NOT_READY. |
| `Readiness.TrackerNothingStarted` | status/readiness.py:92-106 | A tracker with nothing started is NOT_READY, with all six pending and the message "Not ready - 6 milestones pending". |
| `Readiness.InitialReadiness` | status/readiness.py:38-68 | A new tracker's verdict is NOT_READY with all six milestones pending. |
| `Readiness.CriticalFailureScrubs` | status/readiness.py:78-81 | A "failed" packet for a critical milestone makes the verdict SCRUBBED, whatever the other milestones' states. |
| `Readiness.NonCriticalFailureHolds` | status/readiness.py:78-82 | A "failed" packet for a non-critical milestone, while no critical milestone has failed, makes the verdict HOLD. |
| `Text.JoinContainsEach` | status/readiness.py:103-105 | Every item of a `", ".join` can be found in the joined string. |
| `Text.ParseNatToString` | status/readiness.py:106 | The decimal rendering of a count reads back as the count. |
| `StateMachines.NewStateMachine` | processors/state_machine.py:19-24 | A new machine is at its initial state, with no allowed transitions and an empty log, and satisfies the machine invariant. |
| `StateMachines.AddTransition` | processors/state_machine.py:26-38 | Afterwards `t` is allowed from `f`. It is appended once, and nothing changes if it was already there. No other source state's list changes. The invariant is kept, including no duplicates in any list. |
| `StateMachines.AddTransitionIdempotent` | processors/state_machine.py:34-38 | Adding the same transition twice is the same as adding it once. |
| `StateMachines.AddTransitionEnables` | processors/state_machine.py:40-53 | Adding a transition never revokes an allowed move, and makes the added move available from its source state. With no list for the current state, `can_transition` stays false unless the added transition starts there. |
| `StateMachines.Transit` | processors/state_machine.py:55-83 | A disallowed move returns false and changes nothing. An allowed move returns true, appends exactly one record (old state, target, condition) and moves the machine to the target. The invariant is kept. |
| `StateMachines.GetHistory` | processors/state_machine.py:98-105 | Returns the log itself. The log starts at the initial state and each record starts where the previous one ended. The last record ends at the current state, and every record is a permitted move. |
| `StateMachines.Reset` | processors/state_machine.py:107-110 | The machine returns to the initial state with an empty log and keeps its allowed transitions. |
| `StateMachines.RunAllKeepsLog` | processors/state_machine.py:66-77 | Over any sequence of requests, the log only grows, by at most one record per request, and the invariant holds throughout. |
| `StateMachines.IdleActiveComplete` | processors/state_machine.py:55-110 | With idle→active→{complete, failed}: idle cannot go straight to complete, idle→active→complete is logged as two chained records, and reset returns to idle. |
| `Aggregation.NewAggregator` | status/aggregator.py:12-15 | A new aggregator has two empty parallel lists and the given retention, 24 hours by default. |
| `Aggregation.ExpiredPrefix` | status/aggregator.py:32-34 | Cleanup drops exactly the leading instants earlier than the cutoff, and stops at the first one that is not. |
| `Aggregation.CleanupOldSnapshots` | status/aggregator.py:28-34 | Cleanup keeps the two lists parallel and removes entries only from the front, all of them older than `now` minus the retention. What remains is empty or starts at or after the cutoff. |
| `Aggregation.CaptureSnapshot` | status/aggregator.py:17-26 | Capturing appends a snapshot and its instant, then cleans up: the result is a common suffix of the extended lists, every dropped instant is earlier than `now` minus the retention, and what remains is empty or starts at or after that cutoff. With a non-negative retention, the new snapshot stays as the last entry. |
| `Aggregation.GetStatusAtTime` | status/aggregator.py:36-54 | Returns none exactly when there are no snapshots. Otherwise returns the snapshot at the first index whose instant is closest to the query time. |
| `Aggregation.MilestoneHistory` | status/aggregator.py:56-70 | Each history entry comes from a snapshot that holds the milestone. The history is never longer than the snapshot list, and is exactly as long when every snapshot holds the milestone. |
| `Aggregation.MilestoneHistoryAppend` | status/aggregator.py:66-70 | The history keeps snapshot order: it distributes over concatenation. |
| `Aggregation.CaptureExtendsHistory` | status/aggregator.py:24-26 | When nothing is pruned, capturing a snapshot that holds the milestone adds that snapshot's status to the end of the milestone's history. |
| `Aggregation.FirstCompleteIn` | status/aggregator.py:82-84 | A snapshot records a completion for a milestone exactly when one of its entries for that milestone is COMPLETE. |
| `Aggregation.GetCompletionTimeline` | status/aggregator.py:72-86 | A milestone is in the timeline exactly when some snapshot has it complete. Its value is the last update from the earliest such snapshot. |
| `Aggregation.FirstCompletionExists` | status/aggregator.py:79-86 | A milestone has a first completion exactly when some entry for it, in some snapshot, is COMPLETE. |
| `Aggregation.GetAverageProgress` | status/aggregator.py:88-102 | The average is 0.0 with no history. Otherwise, multiplied by the history length, it gives the sum of the progress values. |
| `Aggregation.AverageWithinBounds` | status/aggregator.py:98-102 | The average lies between any lower and upper bound of the recorded progress values. In particular, constant progress averages to itself. |

## Left out

- Sequence-number gap checks, the reorder stage, `last_sequence` and retry with backoff are not in `ingestion/receiver.py`, so there is nothing to model.
- `receive_packet_async` only yields once (`sleep(0)`) and then calls `receive_packet`, so it adds no behaviour.
- `ingestion/receiver.py` imports a `PacketValidator` that `ingestion/packet.py` does not define. The receiver is modelled as calling `validate_packet` directly.
- Callbacks (`register_callback` in both the receiver and the state machine, and the calls to them) run arbitrary caller code.
- The wall-clock `timestamp` of a readiness result and of a logged state transition is not modelled.
- Aggregation.CaptureSnapshot: the source reads the clock twice, once to stamp the snapshot (status/aggregator.py:25) and once to compute the cleanup cutoff (status/aggregator.py:30). The model uses a single `now` for both. So with a retention of 0 hours the source drops the new snapshot whenever the clock advances between the two reads, while in the model it always survives.
- Snapshots are values here. In the source, `dict(statuses)` is a shallow copy that shares `MilestoneStatus` objects with the tracker, and `process_packet` mutates those objects in place.
- Floating point: progress, metrics and the overall progress are exact `real`s, so IEEE rounding, NaN and infinities are not modelled.
- MilestoneProcessing.ProcessPacket: requires the payload's `progress`, when present, to be numeric. `float()` raises on other values, except a numeric string such as "50", which Python would accept and the model excludes.
- Pydantic does not validate assignments to `MilestoneStatus`, so `error_message` keeps whatever value the payload's `error` field held (nothing when it was `None`). The model types it as an optional payload value rather than a string.
- The HTTP layer (`api/server.py`), the package re-exports and the test utilities are not modelled.
