/** The orchestrator's lifecycle state machine (src/codex_agent/core/orchestrator.py):
    a fixed transition table, a guarded `transition` that records each
    change, and an unguarded `reset`. Mutators return the new machine and
    their result; the clock is a parameter. */
module Lifecycle {
  import opened Outcomes
  import opened Seqs
  import opened Models

  /** `TRANSITIONS`: the allowed targets of each state, in table order. */
  function Transitions(s: LifecycleState): seq<LifecycleState>
  {
    match s
    case Idle => [Planning]
    case Planning => [Scaffolding, LifecycleState.Failed]
    case Scaffolding => [Building, LifecycleState.Failed]
    case Building => [Verifying, LifecycleState.Failed]
    case Verifying => [Deploying, Building, LifecycleState.Failed]
    case Deploying => [Observing, LifecycleState.Failed]
    case Observing => [Maintaining, Idle]
    case Maintaining => [Building, Observing, Idle, LifecycleState.Failed]
    case Failed => [Idle]
  }

  datatype Machine = Machine(
    current: LifecycleState,
    previous: Option<LifecycleState>,
    history: seq<StateTransition>,
    currentTask: Option<Task>)

  /** `StateTransitionError`: the rejected move and what was allowed instead. */
  datatype TransitionError = TransitionError(
    from: LifecycleState, to: LifecycleState, allowed: seq<LifecycleState>)

  /** A new orchestrator. */
  function Init(): (m: Machine)
    ensures m.current == Idle && m.previous == None && m.history == [] && m.currentTask == None
  {
    Machine(Idle, None, [], None)
  }

  /** `can_transition(to)`: a lookup in the table. An allowed move always
      changes the state, work can only start from IDLE, and FAILED can only
      go back to IDLE. */
  function CanTransition(m: Machine, to: LifecycleState): (r: bool)
    ensures r ==> to != m.current
    ensures to == Planning ==> (r <==> m.current == Idle)
    ensures m.current == LifecycleState.Failed ==> (r <==> to == Idle)
  {
    to in Transitions(m.current)
  }

  /** `get_allowed_transitions()`: the targets `can_transition` accepts, in table order. */
  function AllowedTransitions(m: Machine): (r: seq<LifecycleState>)
    ensures forall to :: to in r <==> CanTransition(m, to)
    ensures Distinct(r)
  {
    Transitions(m.current)
  }

  /** `transition(to, trigger)`: on an allowed move, record it, shift the
      current state into `previous`, and return the record; otherwise raise
      and leave the machine as it was. */
  function Transition(m: Machine, to: LifecycleState, trigger: string, timestamp: nat)
    : (r: (Machine, Result<StateTransition, TransitionError>))
    ensures r.1.Err? <==> !CanTransition(m, to)
    ensures r.1.Err? ==> r.0 == m && r.1.error == TransitionError(m.current, to, AllowedTransitions(m))
    ensures r.1.Ok? ==>
      && r.1.value == StateTransition(m.current, to, trigger, timestamp)
      && r.0.current == to
      && r.0.previous == Some(m.current)
      && r.0.history == m.history + [r.1.value]
      && r.0.currentTask == m.currentTask
  {
    if !CanTransition(m, to) then
      (m, Err(TransitionError(m.current, to, Transitions(m.current))))
    else
      var rec := StateTransition(m.current, to, trigger, timestamp);
      (Machine(to, Some(m.current), m.history + [rec], m.currentTask), Ok(rec))
  }

  /** `reset()`: back to IDLE from any state, dropping the current task;
      `previous` and the history are left alone. */
  function Reset(m: Machine): (r: Machine)
    ensures r.current == Idle && r.currentTask == None
    ensures r.previous == m.previous && r.history == m.history
  {
    m.(current := Idle, currentTask := None)
  }

  /** `is_terminal_state()`: IDLE and FAILED, the two states the table
      leaves by a single way out (PLANNING to start, IDLE to recover). */
  function IsTerminal(m: Machine): (r: bool)
    ensures r <==> |AllowedTransitions(m)| == 1
  {
    m.current in [Idle, LifecycleState.Failed]
  }

  /** `create_audit_event(type)`: an event by "orchestrator" carrying the
      current state and, when a task is set, its id. The machine is not changed. */
  function CreateAuditEvent(m: Machine, eventType: EventType): (e: AuditEvent)
    ensures e.eventType == eventType && e.actor == "orchestrator"
    ensures e.state == Some(m.current)
    ensures e.taskId.Some? <==> m.currentTask.Some?
    ensures m.currentTask.Some? ==> e.taskId == Some(m.currentTask.value.id)
  {
    AuditEvent(eventType, "orchestrator", Some(m.current),
      if m.currentTask.Some? then Some(m.currentTask.value.id) else None)
  }

  /** `get_transition_history()`: a copy of the recorded transitions. */
  function History(m: Machine): seq<StateTransition>
  {
    m.history
  }

  /** A successful transition adds exactly its record to the history, and
      the audit event taken afterwards reports the new state; a rejected one
      changes neither. */
  lemma TransitionRecords(m: Machine, to: LifecycleState, trigger: string, timestamp: nat, eventType: EventType)
    ensures var r := Transition(m, to, trigger, timestamp);
      && (r.1.Ok? ==> History(r.0) == History(m) + [r.1.value])
      && (r.1.Ok? ==> CreateAuditEvent(r.0, eventType).state == Some(to))
      && (r.1.Err? ==> History(r.0) == History(m) && CreateAuditEvent(r.0, eventType) == CreateAuditEvent(m, eventType))
  {
  }

  /** `reset` always lands in a terminal state, records nothing, and leaves
      later audit events without a task id. */
  lemma ResetIsTerminal(m: Machine, eventType: EventType)
    ensures IsTerminal(Reset(m))
    ensures History(Reset(m)) == History(m)
    ensures CreateAuditEvent(Reset(m), eventType).taskId == None
  {
  }

  /** Whatever a caller does, the history only grows: what was recorded
      stays a prefix. */
  lemma {:induction false} RunExtendsHistory(m: Machine, ops: seq<Op>)
    ensures History(m) <= History(Run(m, ops))
    decreases |ops|
  {
    if ops != [] {
      var m' := Step(m, ops[0]);
      if ops[0].Move? {
        TransitionRecords(m, ops[0].to, ops[0].trigger, ops[0].timestamp, EventType.StateChange);
      }
      RunExtendsHistory(m', ops[1..]);
    }
  }

  // ---------------------------------------------------------------------------
  // Runs
  // ---------------------------------------------------------------------------

  /** An operation a caller can apply to the machine. */
  datatype Op = Move(to: LifecycleState, trigger: string, timestamp: nat) | DoReset

  function Step(m: Machine, op: Op): Machine
  {
    match op
    case Move(to, trigger, timestamp) => Transition(m, to, trigger, timestamp).0
    case DoReset => Reset(m)
  }

  function Run(m: Machine, ops: seq<Op>): Machine
    decreases |ops|
  {
    if ops == [] then m else Run(Step(m, ops[0]), ops[1..])
  }

  /** Every recorded transition is an edge of the table. */
  ghost predicate HistoryLegal(m: Machine)
  {
    forall i :: 0 <= i < |m.history| ==> m.history[i].toState in Transitions(m.history[i].fromState)
  }

  /** `previous` is set exactly when a transition is recorded, to that
      transition's source. */
  ghost predicate PreviousMatches(m: Machine)
  {
    && (m.previous.None? <==> m.history == [])
    && (m.history != [] ==> m.previous == Some(m.history[|m.history| - 1].fromState))
  }

  ghost predicate Consistent(m: Machine)
  {
    HistoryLegal(m) && PreviousMatches(m)
  }

  lemma InitConsistent()
    ensures Consistent(Init())
  {
  }

  /** Whatever a caller does, history holds only table edges and `previous`
      stays the source of the last one. */
  lemma {:induction false} RunKeepsConsistent(m: Machine, ops: seq<Op>)
    requires Consistent(m)
    ensures Consistent(Run(m, ops))
    decreases |ops|
  {
    if ops != [] {
      var m' := Step(m, ops[0]);
      assert Consistent(m') by {
        if ops[0].Move? {
          var r := Transition(m, ops[0].to, ops[0].trigger, ops[0].timestamp);
          if r.1.Ok? {
            forall i | 0 <= i < |m'.history|
              ensures m'.history[i].toState in Transitions(m'.history[i].fromState) {
              if i < |m.history| { assert m'.history[i] == m.history[i]; }
            }
          }
        }
      }
      RunKeepsConsistent(m', ops[1..]);
    }
  }

  /** The history read as a walk of the table from IDLE to the current state. */
  ghost predicate Chained(m: Machine)
  {
    && (m.history == [] ==> m.current == Idle)
    && (m.history != [] ==> m.history[0].fromState == Idle && m.current == m.history[|m.history| - 1].toState)
    && forall i :: 0 <= i < |m.history| - 1 ==> m.history[i].toState == m.history[i + 1].fromState
  }

  /** Transitions alone keep the history a walk ending at the current state. */
  lemma {:induction false} MovesKeepChained(m: Machine, ops: seq<Op>)
    requires Chained(m)
    requires forall i :: 0 <= i < |ops| ==> ops[i].Move?
    ensures Chained(Run(m, ops))
    decreases |ops|
  {
    if ops != [] {
      var m' := Step(m, ops[0]);
      assert Chained(m') by {
        var r := Transition(m, ops[0].to, ops[0].trigger, ops[0].timestamp);
        if r.1.Ok? {
          forall i | 0 <= i < |m'.history| - 1
            ensures m'.history[i].toState == m'.history[i + 1].fromState {
            if i + 1 < |m.history| {
              assert m'.history[i] == m.history[i] && m'.history[i + 1] == m.history[i + 1];
            }
          }
        }
      }
      MovesKeepChained(m', ops[1..]);
    }
  }

  /** `reset` does not record anything, so after it the history is no longer
      a walk: IDLE -> PLANNING, reset, IDLE -> PLANNING records two moves
      that do not join up. */
  lemma ResetBreaksChain()
    ensures var m := Run(Init(), [Move(Planning, "manual", 0), DoReset, Move(Planning, "manual", 1)]);
      && Consistent(m)
      && |m.history| == 2
      && !Chained(m)
  {
    var ops := [Move(Planning, "manual", 0), DoReset, Move(Planning, "manual", 1)];
    var m1 := Step(Init(), ops[0]);
    var m2 := Step(m1, ops[1]);
    var m3 := Step(m2, ops[2]);
    assert Run(m3, []) == m3;
    assert Run(Init(), ops) == Run(m1, ops[1..]);
    assert Run(m1, ops[1..]) == Run(m2, ops[2..]);
    assert Run(m2, ops[2..]) == Run(m3, []);
    assert m3.history[0].toState == Planning && m3.history[1].fromState == Idle;
  }

  // ---------------------------------------------------------------------------
  // The table
  // ---------------------------------------------------------------------------

  /** A sequence of states each allowed from the one before. */
  ghost predicate IsWalk(w: seq<LifecycleState>)
  {
    |w| >= 1 && forall i :: 0 <= i < |w| - 1 ==> w[i + 1] in Transitions(w[i])
  }

  /** No state lists itself, and no target is listed twice. */
  lemma TableShape(s: LifecycleState)
    ensures s !in Transitions(s)
    ensures Distinct(Transitions(s))
  {
  }

  /** A fresh machine can only start planning. */
  lemma FromIdleOnlyPlanning(to: LifecycleState)
    ensures CanTransition(Init(), to) <==> to == Planning
    ensures AllowedTransitions(Init()) == [Planning]
  {
  }

  /** A way back to IDLE from every state. */
  function WayHome(s: LifecycleState): (w: seq<LifecycleState>)
    ensures IsWalk(w) && w[0] == s && w[|w| - 1] == Idle
  {
    match s
    case Idle => [Idle]
    case Planning => [Planning, LifecycleState.Failed, Idle]
    case Scaffolding => [Scaffolding, LifecycleState.Failed, Idle]
    case Building => [Building, LifecycleState.Failed, Idle]
    case Verifying => [Verifying, LifecycleState.Failed, Idle]
    case Deploying => [Deploying, Observing, Idle]
    case Observing => [Observing, Idle]
    case Maintaining => [Maintaining, Idle]
    case Failed => [LifecycleState.Failed, Idle]
  }

  /** A way from IDLE to every state. */
  function WayFromIdle(s: LifecycleState): (w: seq<LifecycleState>)
    ensures IsWalk(w) && w[0] == Idle && w[|w| - 1] == s
  {
    var main := [Idle, Planning, Scaffolding, Building, Verifying, Deploying, Observing, Maintaining];
    match s
    case Idle => [Idle]
    case Planning => main[..2]
    case Scaffolding => main[..3]
    case Building => main[..4]
    case Verifying => main[..5]
    case Deploying => main[..6]
    case Observing => main[..7]
    case Maintaining => main
    case Failed => [Idle, Planning, LifecycleState.Failed]
  }

  /** The moves that follow a walk. */
  function MovesAlong(w: seq<LifecycleState>, trigger: string, timestamp: nat): (ops: seq<Op>)
    ensures |ops| == |w| - 1 || (w == [] && ops == [])
    ensures forall i :: 0 <= i < |ops| ==> ops[i] == Move(w[i + 1], trigger, timestamp)
  {
    if |w| <= 1 then [] else [Move(w[1], trigger, timestamp)] + MovesAlong(w[1..], trigger, timestamp)
  }

  /** Following a walk from the current state succeeds at every step: the
      machine ends at the walk's last state with one record per step. */
  lemma {:induction false} WalkRuns(m: Machine, w: seq<LifecycleState>, trigger: string, timestamp: nat)
    requires IsWalk(w) && w[0] == m.current
    ensures Run(m, MovesAlong(w, trigger, timestamp)).current == w[|w| - 1]
    ensures |Run(m, MovesAlong(w, trigger, timestamp)).history| == |m.history| + |w| - 1
    decreases |w|
  {
    if |w| > 1 {
      var ops := MovesAlong(w, trigger, timestamp);
      var m' := Step(m, ops[0]);
      assert w[1] in Transitions(w[0]);
      assert m'.current == w[1];
      assert IsWalk(w[1..]) by {
        forall i | 0 <= i < |w[1..]| - 1 ensures w[1..][i + 1] in Transitions(w[1..][i]) {
          assert w[1..][i] == w[i + 1] && w[1..][i + 1] == w[i + 2];
        }
      }
      assert ops[1..] == MovesAlong(w[1..], trigger, timestamp);
      WalkRuns(m', w[1..], trigger, timestamp);
    }
  }

  /** From any state the machine can be driven back to IDLE by transitions. */
  lemma EveryStateReturnsToIdle(m: Machine, trigger: string, timestamp: nat)
    ensures Run(m, MovesAlong(WayHome(m.current), trigger, timestamp)).current == Idle
  {
    WalkRuns(m, WayHome(m.current), trigger, timestamp);
  }

  /** From a fresh machine every state can be reached by transitions. */
  lemma EveryStateReachable(s: LifecycleState, trigger: string, timestamp: nat)
    ensures Run(Init(), MovesAlong(WayFromIdle(s), trigger, timestamp)).current == s
  {
    WalkRuns(Init(), WayFromIdle(s), trigger, timestamp);
  }
}
