/**
 * The two handlers as they run: a waiting room object whose fields are the
 * stores, and whose methods update them in place. Each method is proved to
 * leave the stores as the corresponding function of QueueExpiry or
 * InitialState says.
 */
module Handlers {
  import opened Store
  import QueueExpiry
  import InitialState

  class WaitingRoom {
    var counters: map<CounterKey, int>
    var issuances: map<int, Issuance>
    var entries: map<int, int>
    var tokens: set<string>
    var tokenTable: TableState
    var positionTable: TableState
    var servingTable: TableState
    /** Every mutation issued to the stores, in order. */
    ghost var journal: seq<Op>

    ghost function Current(): State
      reads this
    {
      State(counters, issuances, entries, tokens, tokenTable, positionTable, servingTable, journal)
    }

    constructor (s: State)
      ensures Current() == s
    {
      counters := s.counters;
      issuances := s.issuances;
      entries := s.entries;
      tokens := s.tokens;
      tokenTable := s.tokenTable;
      positionTable := s.positionTable;
      servingTable := s.servingTable;
      journal := s.journal;
    }

    /** `set` / `getset` of a counter. */
    method SetCounter(k: CounterKey, v: int)
      modifies this
      ensures Current() == WriteCounter(old(Current()), k, v)
    {
      counters := counters[k := v];
      journal := journal + [Op.SetCounter(k, v)];
    }

    /** incr_serving_counter; `issueTime` is the clock reading it stamps on the new record. */
    method IncrServingCounter(queuePositionsServed: int, position: int, previous: int, issueTime: int)
      requires ServingCounter in counters
      modifies this
      ensures Current() == QueueExpiry.Credit(old(Current()), queuePositionsServed, position, previous, issueTime)
    {
      var incrementBy := QueueExpiry.IncrementBy(queuePositionsServed, position, previous);
      if incrementBy <= 0 {
        return;
      }
      var curServing := counters[ServingCounter] + incrementBy;
      counters := counters[ServingCounter := curServing];
      journal := journal + [IncrCounter(ServingCounter, incrementBy)];
      var item := Issuance(issueTime, 0);
      issuances := issuances[curServing := item];
      journal := journal + [PutIssuance(curServing, item)];
      journal := journal + [PutEvent(Notification(curServing - incrementBy, incrementBy, curServing))];
    }

    /**
     * The set_max_queue_position_expired handler at time `now`. The
     * issuance query is a snapshot taken before the loop; the entry-time
     * lookup reads the queue-position table afresh for each candidate.
     */
    method SetMaxQueuePositionExpired(cfg: QueueExpiry.Config, now: int, issueTime: int)
      requires QueueExpiry.Readable(Current())
      modifies this
      ensures Current() == QueueExpiry.Pass(old(Current()), cfg, now, issueTime)
    {
      if counters[ResetInProgress] != 0 {
        return;
      }
      var maxQueuePositionExpired := counters[MaxQueuePositionExpired];
      var snapshot := issuances;
      var items := QueueExpiry.Candidates(snapshot, maxQueuePositionExpired);
      if |items| == 0 {
        return;
      }
      ghost var s0 := Current();
      var previous := maxQueuePositionExpired;
      var i := 0;
      while i < |items|
        invariant 0 <= i <= |items|
        invariant previous == QueueExpiry.Previous(items, maxQueuePositionExpired, i)
        invariant forall j :: 0 <= j < i ==> QueueExpiry.Expired(items[j], snapshot, s0.entries, now, cfg.expiryPeriod)
        invariant Current() == QueueExpiry.ScanPrefix(s0, items, snapshot, maxQueuePositionExpired, cfg, issueTime, i)
        invariant entries == s0.entries && ServingCounter in counters
        decreases |items| - i
      {
        var position := items[i];
        var item := snapshot[position];
        if position !in entries {
          break;
        }
        var queueTime := QueueExpiry.Max(entries[position], item.issueTime);
        if now - queueTime < cfg.expiryPeriod {
          break;
        }
        assert QueueExpiry.Expired(items[i], snapshot, s0.entries, now, cfg.expiryPeriod);
        ghost var before := Current();
        MarkExpired(position, previous, item, cfg, issueTime);
        QueueExpiry.ScanPrefixNext(s0, items, snapshot, maxQueuePositionExpired, cfg, issueTime, i);
        previous := position;
        i := i + 1;
      }
      QueueExpiry.StopIndexUnique(items, snapshot, s0.entries, now, cfg.expiryPeriod, 0, i);
    }

    /** The loop body for an expired candidate: move the watermark up to it, then credit if enabled. */
    method MarkExpired(position: int, previous: int, item: Issuance, cfg: QueueExpiry.Config, issueTime: int)
      requires ServingCounter in counters
      modifies this
      ensures Current() == QueueExpiry.MarkExpired(old(Current()), position, previous, item, cfg, issueTime)
    {
      SetCounter(MaxQueuePositionExpired, position);
      if cfg.incrSvcOnQueuePosExpiry == "true" {
        IncrServingCounter(item.queuePositionsServed, position, previous, issueTime);
      }
    }

    /** One DynamoDB call of the reset; `faults` names the calls that raise. */
    method PerformStep(step: Step, faults: set<Step>) returns (ok: bool)
      modifies this
      ensures var logged := InitialState.Logged(old(Current()), step);
        var effect := InitialState.StepEffect(logged, step, faults);
        ok == effect.Some? && Current() == (if ok then effect.value else logged)
    {
      journal := journal + [TableCall(step)];
      ok := true;
      var ts := match step.table
        case TokenTable => tokenTable
        case QueuePositionTable => positionTable
        case ServingCounterTable => servingTable;
      if step in faults || !InitialState.Permitted(ts, step.action) {
        return false;
      }
      var next := match step.action
        case DeleteTable => Deleting
        case WaitNotExists => Absent
        case CreateTable => Creating(InitialState.SchemaOf(step.table))
        case WaitExists => Active(ts.schema, ts.Active? && ts.pitr)
        case EnablePitr => Active(ts.schema, true);
      match step.table
      case TokenTable =>
        tokenTable := next;
        if step.action == DeleteTable { tokens := {}; }
      case QueuePositionTable =>
        positionTable := next;
        if step.action == DeleteTable { entries := map[]; }
      case ServingCounterTable =>
        servingTable := next;
        if step.action == DeleteTable { issuances := map[]; }
    }

    /** Delete, wait, re-create, wait, enable recovery: the five calls on one table. */
    method RebuildTable(t: TableName, faults: set<Step>) returns (failed: Option<Step>)
      modifies this
      ensures InitialState.StepsResult(Current(), failed) == InitialState.RunSteps(old(Current()), InitialState.TableSteps(t), faults)
    {
      ghost var steps := InitialState.TableSteps(t);
      ghost var s0 := Current();
      assert steps[1..][0] == steps[1] && steps[2..][0] == steps[2] && steps[3..][0] == steps[3] && steps[4..][0] == steps[4];
      assert steps[1..][1..] == steps[2..] && steps[2..][1..] == steps[3..] && steps[3..][1..] == steps[4..];
      assert steps[4..][1..] == [];
      var ok := PerformStep(Step(t, DeleteTable), faults);
      if !ok {
        return Some(Step(t, DeleteTable));
      }
      ghost var s1 := Current();
      assert InitialState.RunSteps(s0, steps, faults) == InitialState.RunSteps(s1, steps[1..], faults);
      ok := PerformStep(Step(t, WaitNotExists), faults);
      if !ok {
        return Some(Step(t, WaitNotExists));
      }
      ghost var s2 := Current();
      assert InitialState.RunSteps(s1, steps[1..], faults) == InitialState.RunSteps(s2, steps[2..], faults);
      ok := PerformStep(Step(t, CreateTable), faults);
      if !ok {
        return Some(Step(t, CreateTable));
      }
      ghost var s3 := Current();
      assert InitialState.RunSteps(s2, steps[2..], faults) == InitialState.RunSteps(s3, steps[3..], faults);
      ok := PerformStep(Step(t, WaitExists), faults);
      if !ok {
        return Some(Step(t, WaitExists));
      }
      ghost var s4 := Current();
      assert InitialState.RunSteps(s3, steps[3..], faults) == InitialState.RunSteps(s4, steps[4..], faults);
      ok := PerformStep(Step(t, EnablePitr), faults);
      if !ok {
        return Some(Step(t, EnablePitr));
      }
      return None;
    }

    /** The six counter resets, in the handler's order. */
    method ZeroCounters()
      modifies this
      ensures Current() == InitialState.ZeroCounters(old(Current()))
    {
      ghost var j := journal;
      counters := counters[ServingCounter := 0];
      journal := journal + [Op.SetCounter(ServingCounter, 0)];
      counters := counters[QueueCounter := 0];
      journal := journal + [Op.SetCounter(QueueCounter, 0)];
      counters := counters[TokenCounter := 0];
      journal := journal + [Op.SetCounter(TokenCounter, 0)];
      counters := counters[CompletedSessionCounter := 0];
      journal := journal + [Op.SetCounter(CompletedSessionCounter, 0)];
      counters := counters[AbandonedSessionCounter := 0];
      journal := journal + [Op.SetCounter(AbandonedSessionCounter, 0)];
      counters := counters[MaxQueuePositionExpired := 0];
      journal := journal + [Op.SetCounter(MaxQueuePositionExpired, 0)];
      assert journal == j + InitialState.ZERO_OPS;
    }

    /**
     * The reset_initial_state handler; `clientEventId` is the request's
     * event id after sanitising.
     */
    method ResetInitialState(eventId: string, clientEventId: string, faults: set<Step>)
      returns (outcome: InitialState.ResetOutcome)
      modifies this
      ensures InitialState.ResetResult(Current(), outcome) == InitialState.Reset(old(Current()), eventId, clientEventId, faults)
    {
      if eventId != clientEventId {
        return InitialState.InvalidEventId;
      }
      ghost var s0 := Current();
      SetCounter(ResetInProgress, 1);
      ZeroCounters();
      ghost var f := Current();
      assert f == InitialState.Frozen(s0);
      InitialState.PlanInStages(f, faults);
      var failed := RebuildTable(TokenTable, faults);
      if failed.Some? {
        return InitialState.Raised(failed.value);
      }
      failed := RebuildTable(QueuePositionTable, faults);
      if failed.Some? {
        return InitialState.Raised(failed.value);
      }
      failed := RebuildTable(ServingCounterTable, faults);
      if failed.Some? {
        return InitialState.Raised(failed.value);
      }
      SetCounter(ResetInProgress, 0);
      return InitialState.Completed;
    }
  }
}
