/** The generic state machine: a whitelist of allowed transitions, a current
    state, and a log of the transitions taken. */
module StateMachines {
  import opened Wrappers

  /** One logged transition, without its wall-clock timestamp. */
  datatype Transition = Transition(fromState: string, toState: string, condition: Option<string>)

  datatype StateMachine = StateMachine(
    current: string,
    initial: string,
    allowed: map<string, seq<string>>,
    history: seq<Transition>)

  predicate NoDuplicates(s: seq<string>) {
    forall i, j :: 0 <= i < j < |s| ==> s[i] != s[j]
  }

  /** The log is a path: it starts at the initial state, each record starts
      where the previous one ended, and the last one ends at the current state. */
  predicate Chained(h: seq<Transition>, initial: string, current: string) {
    if |h| == 0 then current == initial
    else
      && h[0].fromState == initial
      && h[|h| - 1].toState == current
      && forall i :: 0 <= i < |h| - 1 ==> h[i].toState == h[i + 1].fromState
  }

  /** Every logged transition is one the whitelist permits. */
  predicate Permitted(allowed: map<string, seq<string>>, h: seq<Transition>) {
    forall i :: 0 <= i < |h| ==> h[i].fromState in allowed && h[i].toState in allowed[h[i].fromState]
  }

  /** What every state machine keeps true between calls. */
  predicate Valid(sm: StateMachine) {
    && Chained(sm.history, sm.initial, sm.current)
    && Permitted(sm.allowed, sm.history)
    && forall f :: f in sm.allowed ==> NoDuplicates(sm.allowed[f])
  }

  function NewStateMachine(initial: string): (sm: StateMachine)
    ensures sm.current == initial && sm.initial == initial
    ensures sm.allowed == map[] && sm.history == []
    ensures Valid(sm)
  {
    StateMachine(initial, initial, map[], [])
  }

  /** `add_transition`: `t` becomes allowed from `f`, once; nothing else changes. */
  function AddTransition(sm: StateMachine, f: string, t: string): (r: StateMachine)
    ensures f in r.allowed && t in r.allowed[f]
    ensures f in sm.allowed && t in sm.allowed[f] ==> r == sm
    ensures f in sm.allowed && t !in sm.allowed[f] ==> r.allowed[f] == sm.allowed[f] + [t]
    ensures f !in sm.allowed ==> r.allowed[f] == [t]
    ensures forall g :: g != f ==> (g in r.allowed <==> g in sm.allowed)
    ensures forall g :: g != f && g in sm.allowed ==> r.allowed[g] == sm.allowed[g]
    ensures r.current == sm.current && r.initial == sm.initial && r.history == sm.history
    ensures Valid(sm) ==> Valid(r)
  {
    var existing := if f in sm.allowed then sm.allowed[f] else [];
    if t in existing then sm.(allowed := sm.allowed[f := existing])
    else sm.(allowed := sm.allowed[f := existing + [t]])
  }

  /** Adding the same transition twice is the same as adding it once. */
  lemma AddTransitionIdempotent(sm: StateMachine, f: string, t: string)
    ensures AddTransition(AddTransition(sm, f, t), f, t) == AddTransition(sm, f, t)
  {
  }

  /** `can_transition`. */
  predicate CanTransition(sm: StateMachine, t: string) {
    sm.current in sm.allowed && t in sm.allowed[sm.current]
  }

  /** Adding a transition never revokes one, and makes the added move
      available whenever the machine is at its source state. */
  lemma AddTransitionEnables(sm: StateMachine, f: string, t: string, x: string)
    ensures CanTransition(sm, x) ==> CanTransition(AddTransition(sm, f, t), x)
    ensures sm.current == f ==> CanTransition(AddTransition(sm, f, t), t)
    ensures sm.current !in sm.allowed && sm.current != f ==> !CanTransition(AddTransition(sm, f, t), x)
  {
  }

  /** `transition`: a move the whitelist does not permit is refused and changes
      nothing; a permitted one logs exactly one record and moves the machine. */
  function Transit(sm: StateMachine, t: string, condition: Option<string>): (out: Step<StateMachine>)
    ensures !CanTransition(sm, t) ==> out == Step(sm, false)
    ensures CanTransition(sm, t) ==>
      && out.ok
      && out.next.current == t
      && out.next.history == sm.history + [Transition(sm.current, t, condition)]
      && out.next.allowed == sm.allowed && out.next.initial == sm.initial
    ensures Valid(sm) ==> Valid(out.next)
  {
    if !CanTransition(sm, t) then Step(sm, false)
    else Step(sm.(history := sm.history + [Transition(sm.current, t, condition)], current := t), true)
  }

  /** `get_history`: the log, oldest record first. */
  function GetHistory(sm: StateMachine): (h: seq<Transition>)
    ensures h == sm.history
    ensures Valid(sm) ==> Chained(h, sm.initial, sm.current) && Permitted(sm.allowed, h)
  {
    sm.history
  }

  /** `reset`: back to the initial state with an empty log; the whitelist stays. */
  function Reset(sm: StateMachine): (r: StateMachine)
    ensures r.current == sm.initial && r.history == []
    ensures r.allowed == sm.allowed && r.initial == sm.initial
    ensures Valid(sm) ==> Valid(r)
  {
    sm.(current := sm.initial, history := [])
  }

  /** Driving the machine with a list of requested targets. */
  function RunAll(sm: StateMachine, targets: seq<string>): StateMachine
  {
    if |targets| == 0 then sm
    else Transit(RunAll(sm, targets[..|targets| - 1]), targets[|targets| - 1], None).next
  }

  /** The log only grows, one record per granted request, and the chaining
      invariant survives any run. */
  lemma {:induction false} RunAllKeepsLog(sm: StateMachine, targets: seq<string>)
    requires Valid(sm)
    ensures Valid(RunAll(sm, targets))
    ensures sm.history <= RunAll(sm, targets).history
    ensures |RunAll(sm, targets).history| <= |sm.history| + |targets|
    ensures RunAll(sm, targets).allowed == sm.allowed
  {
    if |targets| > 0 {
      RunAllKeepsLog(sm, targets[..|targets| - 1]);
    }
  }

  /** The machine from the tests: idle -> active -> {complete, failed}. */
  lemma IdleActiveComplete()
    ensures var sm := AddTransition(AddTransition(AddTransition(
                        NewStateMachine("idle"), "idle", "active"), "active", "complete"), "active", "failed");
      && !CanTransition(sm, "complete")
      && var s1 := Transit(sm, "active", None);
      && s1.ok
      && var s2 := Transit(s1.next, "complete", None);
      && s2.ok
      && s2.next.history == [Transition("idle", "active", None), Transition("active", "complete", None)]
      && Reset(s2.next).current == "idle"
  {
  }
}
