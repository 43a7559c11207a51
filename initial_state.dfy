/**
 * The reset_initial_state handler as functions on the store state: the
 * event-id guard, the reset flag, the counter zeroing and the rebuild of
 * the three tables. Every cloud call may fail; `faults` names the calls
 * that would fail if they were made.
 */
module InitialState {
  import opened Store
  import QueueExpiry

  // ---------------------------------------------------------------------
  // Table schemas and the rebuild plan.
  // ---------------------------------------------------------------------

  /** Token table: hash key request_id, index EventExpiresIndex on (event_id, expires). */
  const TOKEN_SCHEMA: KeySchema :=
    KeySchema("request_id", None, [Index("EventExpiresIndex", "event_id", Some("expires"))])

  /** Queue-position table: hash key request_id, index QueuePositionIndex on queue_position. */
  const QUEUE_POSITION_SCHEMA: KeySchema :=
    KeySchema("request_id", None, [Index("QueuePositionIndex", "queue_position", None)])

  /** Serving-counter table: composite key (event_id, serving_counter), no index. */
  const SERVING_COUNTER_SCHEMA: KeySchema :=
    KeySchema("event_id", Some("serving_counter"), [])

  function SchemaOf(t: TableName): KeySchema {
    match t
    case TokenTable => TOKEN_SCHEMA
    case QueuePositionTable => QUEUE_POSITION_SCHEMA
    case ServingCounterTable => SERVING_COUNTER_SCHEMA
  }

  /** The five calls made on one table, in order. */
  function TableSteps(t: TableName): seq<Step> {
    [Step(t, DeleteTable), Step(t, WaitNotExists), Step(t, CreateTable), Step(t, WaitExists), Step(t, EnablePitr)]
  }

  /** All table calls of a reset: token table, then queue-position table, then serving-counter table. */
  function Plan(): seq<Step> {
    TableSteps(TokenTable) + TableSteps(QueuePositionTable) + TableSteps(ServingCounterTable)
  }

  /** The counters a reset zeroes. */
  const ZEROED: set<CounterKey> :=
    {ServingCounter, QueueCounter, TokenCounter, CompletedSessionCounter, AbandonedSessionCounter, MaxQueuePositionExpired}

  // ---------------------------------------------------------------------
  // One table call.
  // ---------------------------------------------------------------------

  /**
   * Whether a call can succeed on a table in state `ts`: a delete needs an
   * active table, a create an absent one; the not-exists waiter gives up on
   * a table that is not going away, the exists waiter on one that is not
   * coming up, and point-in-time recovery needs an active table.
   */
  predicate Permitted(ts: TableState, a: Action) {
    match a
    case DeleteTable => ts.Active?
    case WaitNotExists => ts.Deleting? || ts.Absent?
    case CreateTable => ts.Absent?
    case WaitExists => ts.Creating? || ts.Active?
    case EnablePitr => ts.Active?
  }

  /** The effect of a call on the stores, or None when it raises. */
  function StepEffect(s: State, step: Step, faults: set<Step>): (r: Option<State>)
    ensures r.Some? <==> step !in faults && Permitted(TableOf(s, step.table), step.action)
    ensures r.Some? ==> r.value.counters == s.counters && r.value.journal == s.journal
  {
    var t := step.table;
    var ts := TableOf(s, t);
    if step in faults || !Permitted(ts, step.action) then None
    else
      match step.action
      case DeleteTable => Some(ClearItems(WithTable(s, t, Deleting), t))
      case WaitNotExists => Some(WithTable(s, t, Absent))
      case CreateTable => Some(WithTable(s, t, Creating(SchemaOf(t))))
      case WaitExists => Some(WithTable(s, t, Active(ts.schema, ts.Active? && ts.pitr)))
      case EnablePitr => Some(WithTable(s, t, Active(ts.schema, true)))
  }

  /**
   * What a successful call does: it moves its own table along the life
   * cycle, drops that table's items if it deletes it, and leaves the other
   * tables and their items alone.
   */
  lemma StepTransition(s: State, step: Step, faults: set<Step>)
    requires StepEffect(s, step, faults).Some?
    ensures var r := StepEffect(s, step, faults).value;
      var t := step.table;
      var ts := TableOf(s, t);
      && (forall u :: u != t ==> TableOf(r, u) == TableOf(s, u))
      && (step.action == DeleteTable ==> TableOf(r, t) == Deleting)
      && (step.action == WaitNotExists ==> TableOf(r, t) == Absent)
      && (step.action == CreateTable ==> TableOf(r, t) == Creating(SchemaOf(t)))
      && (step.action == WaitExists ==> TableOf(r, t) == Active(ts.schema, ts.Active? && ts.pitr))
      && (step.action == EnablePitr ==> TableOf(r, t) == Active(ts.schema, true))
      && (if step.action == DeleteTable && t == TokenTable then r.tokens == {} else r.tokens == s.tokens)
      && (if step.action == DeleteTable && t == QueuePositionTable then r.entries == map[] else r.entries == s.entries)
      && (if step.action == DeleteTable && t == ServingCounterTable then r.issuances == map[] else r.issuances == s.issuances)
  {
  }

  /** Records a call in the journal; it is made whether or not it succeeds. */
  function Logged(s: State, step: Step): State {
    s.(journal := s.journal + [TableCall(step)])
  }

  datatype StepsResult = StepsResult(state: State, failed: Option<Step>)

  /** None of `steps` is a call on table `u`. */
  predicate Untouched(steps: seq<Step>, u: TableName) {
    forall st :: st in steps ==> st.table != u
  }

  /** Makes the calls in order and stops at the first one that raises. */
  function RunSteps(s: State, steps: seq<Step>, faults: set<Step>): (r: StepsResult)
    ensures r.state.counters == s.counters
    ensures r.failed.Some? ==> r.failed.value in steps
    decreases |steps|
  {
    if steps == [] then StepsResult(s, None)
    else
      var logged := Logged(s, steps[0]);
      match StepEffect(logged, steps[0], faults)
      case None => StepsResult(logged, Some(steps[0]))
      case Some(next) =>
        var rest := RunSteps(next, steps[1..], faults);
        assert rest.failed.Some? ==> rest.failed.value in steps[1..];
        assert steps == [steps[0]] + steps[1..];
        rest
  }

  /** A run that completes made every call, and none of them was faulty. */
  lemma {:induction false} RunStepsCompleted(s: State, steps: seq<Step>, faults: set<Step>)
    requires RunSteps(s, steps, faults).failed.None?
    ensures forall st :: st in steps ==> st !in faults
    decreases |steps|
  {
    if steps != [] {
      var logged := Logged(s, steps[0]);
      var next := StepEffect(logged, steps[0], faults).value;
      RunStepsCompleted(next, steps[1..], faults);
      assert steps == [steps[0]] + steps[1..];
    }
  }

  /** A run leaves alone every table none of its calls names. */
  lemma {:induction false} RunStepsFrame(s: State, steps: seq<Step>, faults: set<Step>, u: TableName)
    requires Untouched(steps, u)
    ensures TableOf(RunSteps(s, steps, faults).state, u) == TableOf(s, u)
    decreases |steps|
  {
    if steps != [] {
      var logged := Logged(s, steps[0]);
      assert steps[0] in steps;
      assert TableOf(logged, u) == TableOf(s, u);
      var e := StepEffect(logged, steps[0], faults);
      if e.Some? {
        StepTransition(logged, steps[0], faults);
        assert Untouched(steps[1..], u) by {
          forall st | st in steps[1..] ensures st.table != u {
            assert st in steps;
          }
        }
        RunStepsFrame(e.value, steps[1..], faults, u);
      }
    }
  }

  /** The journal entries of the calls `steps`. */
  function Calls(steps: seq<Step>): (ops: seq<Op>)
    ensures |ops| == |steps|
  {
    if steps == [] then [] else [TableCall(steps[0])] + Calls(steps[1..])
  }

  lemma CallsCons(steps: seq<Step>, k: nat)
    requires k < |steps|
    ensures Calls(steps[..k + 1]) == [TableCall(steps[0])] + Calls(steps[1..][..k])
  {
    assert steps[..k + 1][0] == steps[0];
    assert steps[..k + 1][1..] == steps[1..][..k];
  }

  /** How many of `steps` a run makes: up to and including the first that raises. */
  function Attempted(s: State, steps: seq<Step>, faults: set<Step>): (k: nat)
    ensures k <= |steps|
    decreases |steps|
  {
    if steps == [] then 0
    else
      match StepEffect(Logged(s, steps[0]), steps[0], faults)
      case None => 1
      case Some(next) => 1 + Attempted(next, steps[1..], faults)
  }

  /** The journal of a run holds the calls it made, in order. */
  lemma {:induction false} RunStepsJournal(s: State, steps: seq<Step>, faults: set<Step>)
    ensures RunSteps(s, steps, faults).state.journal == s.journal + Calls(steps[..Attempted(s, steps, faults)])
    decreases |steps|
  {
    if steps == [] {
      assert steps[..0] == [];
    } else {
      var logged := Logged(s, steps[0]);
      var e := StepEffect(logged, steps[0], faults);
      if e.None? {
        CallsCons(steps, 0);
        assert steps[1..][..0] == [];
      } else {
        RunStepsJournal(e.value, steps[1..], faults);
        CallsCons(steps, Attempted(e.value, steps[1..], faults));
      }
    }
  }

  /** A run that raises stops at the last call it made; one that does not makes them all. */
  lemma {:induction false} RunStepsStopsAtFailure(s: State, steps: seq<Step>, faults: set<Step>)
    ensures var r := RunSteps(s, steps, faults);
      var k := Attempted(s, steps, faults);
      && (r.failed.None? ==> k == |steps|)
      && (r.failed.Some? ==> 0 < k && r.failed.value == steps[k - 1])
    decreases |steps|
  {
    if steps != [] {
      var e := StepEffect(Logged(s, steps[0]), steps[0], faults);
      if e.Some? {
        RunStepsStopsAtFailure(e.value, steps[1..], faults);
      }
    }
  }

  /** Running `a + b` runs `a`, then, unless a call of `a` raised, `b`. */
  lemma {:induction false} RunStepsAppend(s: State, a: seq<Step>, b: seq<Step>, faults: set<Step>)
    ensures var ra := RunSteps(s, a, faults);
      RunSteps(s, a + b, faults) == if ra.failed.Some? then ra else RunSteps(ra.state, b, faults)
    decreases |a|
  {
    if a == [] {
      assert a + b == b;
    } else {
      assert (a + b)[0] == a[0] && (a + b)[1..] == a[1..] + b;
      var logged := Logged(s, a[0]);
      match StepEffect(logged, a[0], faults)
      case None =>
      case Some(next) =>
        RunStepsAppend(next, a[1..], b, faults);
    }
  }

  /**
   * On an active table with no faulty call, the five calls succeed and
   * leave the table active, empty, with its schema and recovery enabled.
   */
  lemma RebuildActiveTable(s: State, t: TableName, faults: set<Step>)
    requires TableOf(s, t).Active?
    requires forall a :: Step(t, a) !in faults
    ensures var r := RunSteps(s, TableSteps(t), faults);
      && r.failed.None?
      && TableOf(r.state, t) == Active(SchemaOf(t), true)
      && (forall u :: u != t ==> TableOf(r.state, u) == TableOf(s, u))
      && (if t == TokenTable then r.state.tokens == {} else r.state.tokens == s.tokens)
      && (if t == QueuePositionTable then r.state.entries == map[] else r.state.entries == s.entries)
      && (if t == ServingCounterTable then r.state.issuances == map[] else r.state.issuances == s.issuances)
  {
    var steps := TableSteps(t);
    var s2 := Teardown(s, t, faults);
    var s5 := Recreate(s2, t, faults);
  }

  /** The delete call and the not-exists waiter: the table and its items are gone. */
  lemma Teardown(s: State, t: TableName, faults: set<Step>) returns (s2: State)
    requires TableOf(s, t).Active?
    requires forall a :: Step(t, a) !in faults
    ensures RunSteps(s, TableSteps(t), faults) == RunSteps(s2, TableSteps(t)[2..], faults)
    ensures TableOf(s2, t) == Absent
    ensures forall u :: u != t ==> TableOf(s2, u) == TableOf(s, u)
    ensures if t == TokenTable then s2.tokens == {} else s2.tokens == s.tokens
    ensures if t == QueuePositionTable then s2.entries == map[] else s2.entries == s.entries
    ensures if t == ServingCounterTable then s2.issuances == map[] else s2.issuances == s.issuances
  {
    var steps := TableSteps(t);
    assert steps[0] == Step(t, DeleteTable) && steps[1..][0] == Step(t, WaitNotExists);
    var s1 := RunFirst(s, steps, faults);
    StepTransition(Logged(s, steps[0]), steps[0], faults);
    s2 := RunFirst(s1, steps[1..], faults);
    StepTransition(Logged(s1, steps[1]), steps[1], faults);
    assert steps[1..][1..] == steps[2..];
  }

  /** The create call, the exists waiter and point-in-time recovery: the table is back, empty. */
  lemma Recreate(s2: State, t: TableName, faults: set<Step>) returns (s5: State)
    requires TableOf(s2, t) == Absent
    requires forall a :: Step(t, a) !in faults
    ensures RunSteps(s2, TableSteps(t)[2..], faults) == StepsResult(s5, None)
    ensures TableOf(s5, t) == Active(SchemaOf(t), true)
    ensures forall u :: u != t ==> TableOf(s5, u) == TableOf(s2, u)
    ensures s5.tokens == s2.tokens && s5.entries == s2.entries && s5.issuances == s2.issuances
  {
    var steps := TableSteps(t)[2..];
    assert steps[0] == Step(t, CreateTable) && steps[1..][0] == Step(t, WaitExists)
        && steps[1..][1..][0] == Step(t, EnablePitr) && steps[1..][1..][1..] == [];
    var s3 := RunFirst(s2, steps, faults);
    StepTransition(Logged(s2, steps[0]), steps[0], faults);
    var s4 := RunFirst(s3, steps[1..], faults);
    StepTransition(Logged(s3, steps[1..][0]), steps[1..][0], faults);
    s5 := RunFirst(s4, steps[1..][1..], faults);
    StepTransition(Logged(s4, steps[1..][1..][0]), steps[1..][1..][0], faults);
  }

  /** When the first call succeeds, a run goes on from the state it produced. */
  lemma RunFirst(s: State, steps: seq<Step>, faults: set<Step>) returns (next: State)
    requires steps != []
    requires steps[0] !in faults && Permitted(TableOf(s, steps[0].table), steps[0].action)
    ensures StepEffect(Logged(s, steps[0]), steps[0], faults) == Some(next)
    ensures RunSteps(s, steps, faults) == RunSteps(next, steps[1..], faults)
  {
    assert TableOf(Logged(s, steps[0]), steps[0].table) == TableOf(s, steps[0].table);
    next := StepEffect(Logged(s, steps[0]), steps[0], faults).value;
  }

  // ---------------------------------------------------------------------
  // The handler.
  // ---------------------------------------------------------------------

  datatype ResetOutcome = Completed | InvalidEventId | Raised(step: Step)

  /** The handler's HTTP answer; a raised error has none. */
  datatype Response = Response(statusCode: int, message: string)

  function ResponseOf(o: ResetOutcome): (r: Option<Response>)
    ensures r.Some? <==> !o.Raised?
    ensures o.Completed? ==> r == Some(Response(200, "Reset completed"))
    ensures o.InvalidEventId? ==> r == Some(Response(400, "Invalid event ID"))
  {
    match o
    case Completed => Some(Response(200, "Reset completed"))
    case InvalidEventId => Some(Response(400, "Invalid event ID"))
    case Raised(_) => None
  }

  /** The six `getset` calls that zero the counters, in the handler's order. */
  function ZeroCounters(s: State): (r: State)
    ensures r.counters.Keys == s.counters.Keys + ZEROED
    ensures forall k :: k in ZEROED ==> r.counters[k] == 0
    ensures forall k :: k in s.counters && k !in ZEROED ==> r.counters[k] == s.counters[k]
    ensures r.journal == s.journal + ZERO_OPS
    ensures r.issuances == s.issuances && r.entries == s.entries && r.tokens == s.tokens
    ensures r.tokenTable == s.tokenTable && r.positionTable == s.positionTable && r.servingTable == s.servingTable
  {
    s.(counters := s.counters[ServingCounter := 0][QueueCounter := 0][TokenCounter := 0]
                     [CompletedSessionCounter := 0][AbandonedSessionCounter := 0][MaxQueuePositionExpired := 0],
       journal := s.journal + ZERO_OPS)
  }

  /** The journal entries of ZeroCounters. */
  const ZERO_OPS: seq<Op> := [
    SetCounter(ServingCounter, 0), SetCounter(QueueCounter, 0), SetCounter(TokenCounter, 0),
    SetCounter(CompletedSessionCounter, 0), SetCounter(AbandonedSessionCounter, 0),
    SetCounter(MaxQueuePositionExpired, 0)]

  /** A matching request: raise the flag, zero the counters, then the table rebuild. */
  function Frozen(s: State): State {
    ZeroCounters(WriteCounter(s, ResetInProgress, 1))
  }

  datatype ResetResult = ResetResult(state: State, outcome: ResetOutcome)

  /**
   * One invocation with the configured EVENT_ID `eventId` and the
   * sanitised id from the request, `clientEventId`.
   */
  function Reset(s: State, eventId: string, clientEventId: string, faults: set<Step>): (r: ResetResult)
    ensures eventId != clientEventId ==> r == ResetResult(s, InvalidEventId)
    ensures eventId == clientEventId ==> !r.outcome.InvalidEventId?
  {
    if eventId != clientEventId then ResetResult(s, InvalidEventId)
    else
      var run := RunSteps(Frozen(s), Plan(), faults);
      match run.failed
      case Some(step) => ResetResult(run.state, Raised(step))
      case None => ResetResult(WriteCounter(run.state, ResetInProgress, 0), Completed)
  }

  // ---------------------------------------------------------------------
  // What a reset promises.
  // ---------------------------------------------------------------------

  lemma FrozenCounters(s: State)
    ensures var f := Frozen(s);
      && f.counters.Keys == s.counters.Keys + ZEROED + {ResetInProgress}
      && f.counters[ResetInProgress] == 1
      && (forall k :: k in ZEROED ==> f.counters[k] == 0)
      && f.journal == s.journal + [SetCounter(ResetInProgress, 1)] + ZERO_OPS
      && f.issuances == s.issuances && f.entries == s.entries && f.tokens == s.tokens
      && (forall t :: TableOf(f, t) == TableOf(s, t))
  {
    var s0 := WriteCounter(s, ResetInProgress, 1);
    assert s0.tokenTable == s.tokenTable && s0.positionTable == s.positionTable && s0.servingTable == s.servingTable by {
      assert TableOf(s0, TokenTable) == TableOf(s, TokenTable);
      assert TableOf(s0, QueuePositionTable) == TableOf(s, QueuePositionTable);
      assert TableOf(s0, ServingCounterTable) == TableOf(s, ServingCounterTable);
    }
    assert ResetInProgress !in ZEROED;
  }

  /**
   * On a matching id the flag is set to 1 first, then the six counters are
   * zeroed, then the table calls are made in plan order up to the first one
   * that raises; only a run that completes ends by clearing the flag.
   */
  lemma ResetJournalOrder(s: State, eventId: string, faults: set<Step>)
    ensures var r := Reset(s, eventId, eventId, faults);
      exists k :: && 0 <= k <= |Plan()|
                  && (r.outcome.Raised? ==>
                        (&& 0 < k && r.outcome.step == Plan()[k - 1]
                         && r.state.journal == s.journal + [SetCounter(ResetInProgress, 1)] + ZERO_OPS + Calls(Plan()[..k])))
                  && (r.outcome.Completed? ==>
                        (&& k == |Plan()|
                         && r.state.journal == s.journal + [SetCounter(ResetInProgress, 1)] + ZERO_OPS + Calls(Plan())
                                               + [SetCounter(ResetInProgress, 0)]))
  {
    FrozenCounters(s);
    RunStepsJournal(Frozen(s), Plan(), faults);
    RunStepsStopsAtFailure(Frozen(s), Plan(), faults);
    var k := Attempted(Frozen(s), Plan(), faults);
    assert Plan()[..|Plan()|] == Plan();
    assert 0 <= k <= |Plan()|;
  }

  /**
   * On a matching id the six counters end at 0, no other counter moves but
   * the flag, and the flag ends at 1 after a failure and at 0 after success.
   */
  lemma ResetCounters(s: State, eventId: string, faults: set<Step>)
    ensures var r := Reset(s, eventId, eventId, faults);
      && r.state.counters.Keys == s.counters.Keys + ZEROED + {ResetInProgress}
      && (forall k :: k in ZEROED ==> r.state.counters[k] == 0)
      && r.state.counters[ResetInProgress] == (if r.outcome.Completed? then 0 else 1)
  {
    FrozenCounters(s);
  }

  /** The plan runs table by table. */
  lemma PlanInStages(f: State, faults: set<Step>)
    ensures var ra := RunSteps(f, TableSteps(TokenTable), faults);
      var rb := RunSteps(ra.state, TableSteps(QueuePositionTable), faults);
      RunSteps(f, Plan(), faults) ==
        if ra.failed.Some? then ra
        else if rb.failed.Some? then rb
        else RunSteps(rb.state, TableSteps(ServingCounterTable), faults)
  {
    var a := TableSteps(TokenTable);
    var b := TableSteps(QueuePositionTable);
    var c := TableSteps(ServingCounterTable);
    assert Plan() == (a + b) + c;
    RunStepsAppend(f, a + b, c, faults);
    RunStepsAppend(f, a, b, faults);
  }

  /** The rebuild of a table that is not active raises at once. */
  lemma RebuildInactiveTable(s: State, t: TableName, faults: set<Step>)
    requires !TableOf(s, t).Active?
    ensures RunSteps(s, TableSteps(t), faults).failed == Some(Step(t, DeleteTable))
  {
    assert TableSteps(t)[0] == Step(t, DeleteTable);
  }

  /** A call on one table leaves the others as they were. */
  lemma RebuildUntouched(s: State, t: TableName, u: TableName, faults: set<Step>)
    requires t != u
    ensures TableOf(RunSteps(s, TableSteps(t), faults).state, u) == TableOf(s, u)
  {
    assert Untouched(TableSteps(t), u);
    RunStepsFrame(s, TableSteps(t), faults, u);
  }

  /** With no faulty call, the plan rebuilds three active tables. */
  lemma RunPlanWithoutFaults(f: State, faults: set<Step>)
    requires forall t :: TableOf(f, t).Active?
    requires forall t, a :: Step(t, a) !in faults
    ensures var rc := RunSteps(f, Plan(), faults);
      && rc.failed.None?
      && (forall t :: TableOf(rc.state, t) == Active(SchemaOf(t), true))
      && rc.state.tokens == {} && rc.state.entries == map[] && rc.state.issuances == map[]
  {
    PlanInStages(f, faults);
    var ra := RunSteps(f, TableSteps(TokenTable), faults);
    RebuildActiveTable(f, TokenTable, faults);
    assert TableOf(ra.state, QueuePositionTable).Active? && TableOf(ra.state, ServingCounterTable).Active?;
    var rb := RunSteps(ra.state, TableSteps(QueuePositionTable), faults);
    RebuildActiveTable(ra.state, QueuePositionTable, faults);
    assert TableOf(rb.state, ServingCounterTable).Active?;
    var rc := RunSteps(rb.state, TableSteps(ServingCounterTable), faults);
    RebuildActiveTable(rb.state, ServingCounterTable, faults);
    assert TableOf(rc.state, TokenTable) == TableOf(ra.state, TokenTable);
    assert TableOf(rc.state, QueuePositionTable) == TableOf(rb.state, QueuePositionTable);
  }

  /** A completed reset leaves all three tables active, empty, with their schemas and recovery enabled. */
  lemma CompletedResetTables(s: State, eventId: string, faults: set<Step>)
    requires forall t :: TableOf(s, t).Active?
    requires forall step :: step in Plan() ==> step !in faults
    ensures var r := Reset(s, eventId, eventId, faults);
      && r.outcome == Completed
      && (forall t :: TableOf(r.state, t) == Active(SchemaOf(t), true))
      && r.state.tokens == {} && r.state.entries == map[] && r.state.issuances == map[]
  {
    FrozenCounters(s);
    NoFaultOffPlan(faults);
    RunPlanWithoutFaults(Frozen(s), faults);
    var rc := RunSteps(Frozen(s), Plan(), faults);
    assert Reset(s, eventId, eventId, faults) == ResetResult(WriteCounter(rc.state, ResetInProgress, 0), Completed);
  }

  lemma NoFaultOffPlan(faults: set<Step>)
    requires forall step :: step in Plan() ==> step !in faults
    ensures forall t, a :: Step(t, a) !in faults
  {
    forall t, x ensures Step(t, x) !in faults {
      PlanHolds(x);
      assert Step(t, x) in Plan() by {
        match t
        case TokenTable =>
        case QueuePositionTable =>
        case ServingCounterTable =>
      }
    }
  }

  /** Every call on every table is in the plan. */
  lemma PlanHolds(x: Action)
    ensures Step(TokenTable, x) in Plan() && Step(QueuePositionTable, x) in Plan()
            && Step(ServingCounterTable, x) in Plan()
  {
    var p := Plan();
    match x
    case DeleteTable => assert p[0] == Step(TokenTable, x) && p[5] == Step(QueuePositionTable, x) && p[10] == Step(ServingCounterTable, x);
    case WaitNotExists => assert p[1] == Step(TokenTable, x) && p[6] == Step(QueuePositionTable, x) && p[11] == Step(ServingCounterTable, x);
    case CreateTable => assert p[2] == Step(TokenTable, x) && p[7] == Step(QueuePositionTable, x) && p[12] == Step(ServingCounterTable, x);
    case WaitExists => assert p[3] == Step(TokenTable, x) && p[8] == Step(QueuePositionTable, x) && p[13] == Step(ServingCounterTable, x);
    case EnablePitr => assert p[4] == Step(TokenTable, x) && p[9] == Step(QueuePositionTable, x) && p[14] == Step(ServingCounterTable, x);
  }

  /** A reset completes only if none of its calls was faulty. */
  lemma CompletedResetHadNoFault(s: State, eventId: string, faults: set<Step>)
    requires Reset(s, eventId, eventId, faults).outcome.Completed?
    ensures forall step :: step in Plan() ==> step !in faults
  {
    RunStepsCompleted(Frozen(s), Plan(), faults);
  }

  /**
   * A reset started while some table is not active (for instance, after an
   * earlier reset raised between deleting and re-creating it) raises, at the
   * latest when it tries to delete that table.
   */
  lemma ResetNeedsActiveTables(s: State, eventId: string, faults: set<Step>, t: TableName)
    requires !TableOf(s, t).Active?
    ensures Reset(s, eventId, eventId, faults).outcome.Raised?
  {
    var f := Frozen(s);
    FrozenCounters(s);
    PlanInStages(f, faults);
    var ra := RunSteps(f, TableSteps(TokenTable), faults);
    var rb := RunSteps(ra.state, TableSteps(QueuePositionTable), faults);
    match t
    case TokenTable =>
      RebuildInactiveTable(f, t, faults);
    case QueuePositionTable =>
      RebuildUntouched(f, TokenTable, t, faults);
      RebuildInactiveTable(ra.state, t, faults);
    case ServingCounterTable =>
      RebuildUntouched(f, TokenTable, t, faults);
      RebuildUntouched(ra.state, QueuePositionTable, t, faults);
      RebuildInactiveTable(rb.state, t, faults);
  }

  /**
   * A matching reset completes exactly when every table was active when it
   * started and none of its calls was faulty.
   */
  lemma ResetCompletesExactly(s: State, eventId: string, faults: set<Step>)
    ensures Reset(s, eventId, eventId, faults).outcome.Completed? <==>
            (forall t :: TableOf(s, t).Active?) && (forall step :: step in Plan() ==> step !in faults)
  {
    if Reset(s, eventId, eventId, faults).outcome.Completed? {
      CompletedResetHadNoFault(s, eventId, faults);
      forall t ensures TableOf(s, t).Active? {
        if !TableOf(s, t).Active? {
          ResetNeedsActiveTables(s, eventId, faults, t);
        }
      }
    }
    if (forall t :: TableOf(s, t).Active?) && (forall step :: step in Plan() ==> step !in faults) {
      CompletedResetTables(s, eventId, faults);
    }
  }
  /**
   * The handler's answer: 400 exactly when the id does not match, 200
   * exactly when it matches and the reset completes, and no answer (the
   * error propagates) otherwise.
   */
  lemma ResetResponse(s: State, eventId: string, clientEventId: string, faults: set<Step>)
    ensures var resp := ResponseOf(Reset(s, eventId, clientEventId, faults).outcome);
      && (resp == Some(Response(400, "Invalid event ID")) <==> eventId != clientEventId)
      && (resp == Some(Response(200, "Reset completed")) <==>
            eventId == clientEventId && (forall t :: TableOf(s, t).Active?) &&
            (forall step :: step in Plan() ==> step !in faults))
  {
    if eventId == clientEventId {
      ResetCompletesExactly(s, eventId, faults);
    }
  }


  /**
   * While a failed reset leaves the flag at 1, the expiry pass reads the
   * flag and changes nothing.
   */
  lemma FailedResetFreezesExpiry(s: State, eventId: string, faults: set<Step>,
                                 cfg: QueueExpiry.Config, now: int, issueTime: int)
    requires Reset(s, eventId, eventId, faults).outcome.Raised?
    ensures var r := Reset(s, eventId, eventId, faults).state;
      QueueExpiry.Readable(r) && QueueExpiry.Pass(r, cfg, now, issueTime) == r
  {
    ResetCounters(s, eventId, faults);
  }

  /**
   * After a completed reset the expiry pass finds the stores readable and
   * nothing to expire, and the watermark bound holds, so every later pass
   * keeps it.
   */
  lemma CompletedResetIsIdle(s: State, eventId: string, faults: set<Step>,
                             cfg: QueueExpiry.Config, now: int, issueTime: int)
    requires Reset(s, eventId, eventId, faults).outcome.Completed?
    ensures var r := Reset(s, eventId, eventId, faults).state;
      && (forall t :: TableOf(r, t) == Active(SchemaOf(t), true))
      && QueueExpiry.Readable(r) && QueueExpiry.Pass(r, cfg, now, issueTime) == r
      && QueueExpiry.WithinServing(r)
  {
    CompletedResetState(s, eventId, faults);
    ResetCounters(s, eventId, faults);
    var r := Reset(s, eventId, eventId, faults).state;
    EmptyStoresAreIdle(r, cfg, now, issueTime);
  }

  /** What a completed reset leaves behind, whatever the state it started from. */
  lemma CompletedResetState(s: State, eventId: string, faults: set<Step>)
    requires Reset(s, eventId, eventId, faults).outcome.Completed?
    ensures var r := Reset(s, eventId, eventId, faults).state;
      && (forall t :: TableOf(r, t) == Active(SchemaOf(t), true))
      && r.tokens == {} && r.entries == map[] && r.issuances == map[]
      && r.counters.Keys >= ZEROED + {ResetInProgress} && r.counters[ResetInProgress] == 0
  {
    ResetCompletesExactly(s, eventId, faults);
    CompletedResetTables(s, eventId, faults);
    ResetCounters(s, eventId, faults);
  }

  lemma EmptyStoresAreIdle(r: State, cfg: QueueExpiry.Config, now: int, issueTime: int)
    requires r.counters.Keys >= ZEROED + {ResetInProgress} && r.counters[ResetInProgress] == 0
    requires TableOf(r, ServingCounterTable).Active? && r.issuances == map[]
    ensures QueueExpiry.Readable(r) && QueueExpiry.Pass(r, cfg, now, issueTime) == r
  {
    assert MaxQueuePositionExpired in ZEROED && ServingCounter in ZEROED && QueueCounter in ZEROED;
  }
}
