/**
 * The stores behind the waiting room's core API: the fast counter store
 * (Redis), the three durable tables (DynamoDB) and the event bus, seen as
 * one value. Every mutation issued to any of them is also appended to a
 * journal, so that the order of mutations can be stated and proved.
 */
module Store {

  datatype Option<+T> = None | Some(value: T)

  /** Names of the counters kept in the fast counter store. */
  datatype CounterKey =
    | QueueCounter
    | ServingCounter
    | TokenCounter
    | CompletedSessionCounter
    | AbandonedSessionCounter
    | MaxQueuePositionExpired
    | ResetInProgress

  /**
   * A record of the serving-counter issued-at table. The table's key is
   * (event_id, serving_counter); with one event, the record is stored
   * under its serving_counter value.
   */
  datatype Issuance = Issuance(issueTime: int, queuePositionsServed: int)

  /** Detail of an `automatic_serving_counter_incr` event. */
  datatype Notification = Notification(previousPosition: int, incrementBy: int, currentPosition: int)

  datatype TableName = TokenTable | QueuePositionTable | ServingCounterTable

  /** The calls the reset makes on one table, in the order it makes them. */
  datatype Action = DeleteTable | WaitNotExists | CreateTable | WaitExists | EnablePitr

  datatype Step = Step(table: TableName, action: Action)

  /** A global secondary index: its name, hash key and optional range key. */
  datatype Index = Index(name: string, hashKey: string, rangeKey: Option<string>)

  /** The primary key and the secondary indexes a table is created with. */
  datatype KeySchema = KeySchema(hashKey: string, rangeKey: Option<string>, indexes: seq<Index>)

  /** Life cycle of a table as DynamoDB reports it. */
  datatype TableState =
    | Absent
    | Deleting
    | Creating(schema: KeySchema)
    | Active(schema: KeySchema, pitr: bool)

  /** One mutation issued to a store. */
  datatype Op =
    | SetCounter(key: CounterKey, value: int)
    | IncrCounter(key: CounterKey, delta: int)
    | PutIssuance(position: int, record: Issuance)
    | PutEvent(event: Notification)
    | TableCall(step: Step)

  /**
   * Everything the two handlers read or change. `entries` maps a queue
   * position to its entry time (the queue-position table looked up through
   * its QueuePositionIndex); `tokens` holds the request ids of the token table.
   */
  datatype State = State(
    counters: map<CounterKey, int>,
    issuances: map<int, Issuance>,
    entries: map<int, int>,
    tokens: set<string>,
    tokenTable: TableState,
    positionTable: TableState,
    servingTable: TableState,
    journal: seq<Op>)

  function TableOf(s: State, t: TableName): TableState {
    match t
    case TokenTable => s.tokenTable
    case QueuePositionTable => s.positionTable
    case ServingCounterTable => s.servingTable
  }

  /** Replaces the state of table `t`; nothing else changes. */
  function WithTable(s: State, t: TableName, ts: TableState): (r: State)
    ensures TableOf(r, t) == ts
    ensures forall u :: u != t ==> TableOf(r, u) == TableOf(s, u)
    ensures r.counters == s.counters && r.journal == s.journal
    ensures r.issuances == s.issuances && r.entries == s.entries && r.tokens == s.tokens
  {
    match t
    case TokenTable => s.(tokenTable := ts)
    case QueuePositionTable => s.(positionTable := ts)
    case ServingCounterTable => s.(servingTable := ts)
  }

  /** Drops every item of table `t`, as deleting the table does. */
  function ClearItems(s: State, t: TableName): (r: State)
    ensures t == TokenTable ==> r.tokens == {}
    ensures t == QueuePositionTable ==> r.entries == map[]
    ensures t == ServingCounterTable ==> r.issuances == map[]
    ensures t != TokenTable ==> r.tokens == s.tokens
    ensures t != QueuePositionTable ==> r.entries == s.entries
    ensures t != ServingCounterTable ==> r.issuances == s.issuances
    ensures forall u :: TableOf(r, u) == TableOf(s, u)
    ensures r.counters == s.counters && r.journal == s.journal
  {
    match t
    case TokenTable => s.(tokens := {})
    case QueuePositionTable => s.(entries := map[])
    case ServingCounterTable => s.(issuances := map[])
  }

  /** An unconditional `set` (or `getset`) of a counter. */
  function WriteCounter(s: State, k: CounterKey, v: int): (r: State)
    ensures r.counters.Keys == s.counters.Keys + {k}
    ensures r.counters[k] == v
    ensures forall j :: j in s.counters && j != k ==> r.counters[j] == s.counters[j]
    ensures r.journal == s.journal + [SetCounter(k, v)]
    ensures r.issuances == s.issuances && r.entries == s.entries && r.tokens == s.tokens
    ensures forall t :: TableOf(r, t) == TableOf(s, t)
  {
    s.(counters := s.counters[k := v], journal := s.journal + [SetCounter(k, v)])
  }

  /** The positions written to MAX_QUEUE_POSITION_EXPIRED, in journal order. */
  function WatermarkWrites(ops: seq<Op>): seq<int> {
    if ops == [] then []
    else
      (if ops[0].SetCounter? && ops[0].key == MaxQueuePositionExpired then [ops[0].value] else [])
      + WatermarkWrites(ops[1..])
  }

  /** The event details published to the event bus, in journal order. */
  function Emitted(ops: seq<Op>): seq<Notification> {
    if ops == [] then []
    else (if ops[0].PutEvent? then [ops[0].event] else []) + Emitted(ops[1..])
  }

  lemma {:induction false} WatermarkWritesAppend(a: seq<Op>, b: seq<Op>)
    ensures WatermarkWrites(a + b) == WatermarkWrites(a) + WatermarkWrites(b)
  {
    if a == [] {
      assert a + b == b;
    } else {
      var h := (if a[0].SetCounter? && a[0].key == MaxQueuePositionExpired then [a[0].value] else []);
      assert (a + b)[0] == a[0] && (a + b)[1..] == a[1..] + b;
      calc {
        WatermarkWrites(a + b);
        h + WatermarkWrites(a[1..] + b);
        { WatermarkWritesAppend(a[1..], b); }
        h + (WatermarkWrites(a[1..]) + WatermarkWrites(b));
        (h + WatermarkWrites(a[1..])) + WatermarkWrites(b);
      }
    }
  }

  lemma {:induction false} EmittedAppend(a: seq<Op>, b: seq<Op>)
    ensures Emitted(a + b) == Emitted(a) + Emitted(b)
  {
    if a == [] {
      assert a + b == b;
    } else {
      var h := (if a[0].PutEvent? then [a[0].event] else []);
      assert (a + b)[0] == a[0] && (a + b)[1..] == a[1..] + b;
      calc {
        Emitted(a + b);
        h + Emitted(a[1..] + b);
        { EmittedAppend(a[1..], b); }
        h + (Emitted(a[1..]) + Emitted(b));
        (h + Emitted(a[1..])) + Emitted(b);
      }
    }
  }

  lemma EmittedSnoc(a: seq<Op>, o: Op)
    ensures Emitted(a + [o]) == Emitted(a) + (if o.PutEvent? then [o.event] else [])
  {
    EmittedAppend(a, [o]);
    assert [o][1..] == [];
  }

  lemma WatermarkWritesSnoc(a: seq<Op>, o: Op)
    ensures WatermarkWrites(a + [o]) ==
            WatermarkWrites(a) + (if o.SetCounter? && o.key == MaxQueuePositionExpired then [o.value] else [])
  {
    WatermarkWritesAppend(a, [o]);
    assert [o][1..] == [];
  }
}
