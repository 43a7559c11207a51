/**
 * The expiry-reconciliation pass of the set_max_queue_position_expired
 * handler, as functions on the store state. `Pass` is the effect of one
 * invocation; the lemmas below state what the pass promises.
 */
module QueueExpiry {
  import opened Store

  /**
   * The handler's configuration: QUEUE_POSITION_EXPIRY_PERIOD (seconds) and
   * INCR_SVC_ON_QUEUE_POS_EXPIRY, kept as the raw environment string.
   */
  datatype Config = Config(expiryPeriod: int, incrSvcOnQueuePosExpiry: string)

  /** Crediting is on only for the exact string "true". */
  predicate CreditEnabled(cfg: Config) {
    cfg.incrSvcOnQueuePosExpiry == "true"
  }

  predicate StrictlyIncreasing(r: seq<int>) {
    forall i, j :: 0 <= i < j < |r| ==> r[i] < r[j]
  }

  function Max(a: int, b: int): int {
    if a < b then b else a
  }

  // ---------------------------------------------------------------------
  // The candidate query: issuance records above the watermark, ascending.
  // ---------------------------------------------------------------------

  lemma {:induction false} LeastElement(s: set<int>) returns (m: int)
    requires s != {}
    ensures m in s && forall x :: x in s ==> m <= x
    decreases |s|
  {
    if forall z :: z !in s { assert false; }
    var y :| y in s;
    if s == {y} {
      m := y;
    } else {
      var rest := LeastElement(s - {y});
      m := if y < rest then y else rest;
      forall x | x in s ensures m <= x {
        if x != y { assert x in s - {y}; }
      }
    }
  }

  lemma LeastExists(s: set<int>)
    requires s != {}
    ensures exists m :: m in s && forall x :: x in s ==> m <= x
  {
    var m := LeastElement(s);
  }

  function Least(s: set<int>): (m: int)
    requires s != {}
    ensures m in s && forall x :: x in s ==> m <= x
  {
    LeastExists(s);
    var m :| m in s && forall x :: x in s ==> m <= x; m
  }

  /** The elements of `s` in ascending order. */
  function Ascending(s: set<int>): (r: seq<int>)
    ensures StrictlyIncreasing(r)
    ensures forall x :: x in r <==> x in s
    ensures |r| == |s|
    decreases |s|
  {
    if s == {} then []
    else
      var m := Least(s);
      var rest := Ascending(s - {m});
      assert forall j :: 0 <= j < |rest| ==> m < rest[j] by {
        forall j | 0 <= j < |rest| ensures m < rest[j] {
          assert rest[j] in rest;
        }
      }
      [m] + rest
  }

  /** A strictly increasing sequence is determined by its elements. */
  lemma {:induction false} IncreasingUnique(a: seq<int>, b: seq<int>)
    requires StrictlyIncreasing(a) && StrictlyIncreasing(b)
    requires forall x :: x in a <==> x in b
    ensures a == b
    decreases |a|
  {
    if a != [] { assert a[0] in a; }
    if b != [] { assert b[0] in b; }
    if a != [] && b != [] {
      HeadIsLeast(b, a[0]);
      HeadIsLeast(a, b[0]);
      forall x ensures x in a[1..] <==> x in b[1..] {
        TailMembers(a, x);
        TailMembers(b, x);
      }
      IncreasingUnique(a[1..], b[1..]);
      assert a == [a[0]] + a[1..] && b == [b[0]] + b[1..];
    }
  }

  lemma HeadIsLeast(a: seq<int>, x: int)
    requires StrictlyIncreasing(a) && x in a
    ensures a[0] <= x
  {
    var i :| 0 <= i < |a| && a[i] == x;
    if i > 0 {
      assert a[0] < a[i];
    }
  }

  /** In a strictly increasing sequence, the tail holds the elements other than the head. */
  lemma TailMembers(a: seq<int>, x: int)
    requires StrictlyIncreasing(a) && a != []
    ensures x in a[1..] <==> x in a && x != a[0]
  {
    if x in a[1..] {
      var i :| 0 <= i < |a[1..]| && a[1..][i] == x;
      assert a[i + 1] == x;
    }
    if x in a && x != a[0] {
      var i :| 0 <= i < |a| && a[i] == x;
      assert a[1..][i - 1] == x;
    }
  }

  /**
   * The issuance records with serving_counter strictly above `w`, in
   * ascending order: the result of the key-condition query.
   */
  function Candidates(issuances: map<int, Issuance>, w: int): (r: seq<int>)
    ensures StrictlyIncreasing(r)
    ensures forall k :: k in r <==> k in issuances && k > w
  {
    Ascending(set k | k in issuances && k > w)
  }

  // ---------------------------------------------------------------------
  // The stop test and the scanned prefix.
  // ---------------------------------------------------------------------

  /**
   * Candidate `c` is past its grace period: its queue-position entry exists
   * and the later of its entry time and its issue time is at least
   * `period` seconds before `now`.
   */
  predicate Expired(c: int, snapshot: map<int, Issuance>, entries: map<int, int>, now: int, period: int)
    requires c in snapshot
  {
    c in entries && now - Max(entries[c], snapshot[c].issueTime) >= period
  }

  /**
   * The index, from `from` on, of the first candidate the scan stops at,
   * or |cands| when it passes them all.
   */
  function StopIndex(cands: seq<int>, snapshot: map<int, Issuance>, entries: map<int, int>,
                     now: int, period: int, from: nat): (n: nat)
    requires from <= |cands|
    requires forall c :: c in cands ==> c in snapshot
    ensures from <= n <= |cands|
    ensures forall j :: from <= j < n ==> Expired(cands[j], snapshot, entries, now, period)
    ensures n < |cands| ==> !Expired(cands[n], snapshot, entries, now, period)
    decreases |cands| - from
  {
    if from == |cands| then from
    else if !Expired(cands[from], snapshot, entries, now, period) then from
    else StopIndex(cands, snapshot, entries, now, period, from + 1)
  }

  /**
   * The stop index is the only index from which every earlier candidate
   * expired and which is either past the end or not expired itself.
   */
  lemma {:induction false} StopIndexUnique(cands: seq<int>, snapshot: map<int, Issuance>, entries: map<int, int>,
                                           now: int, period: int, from: nat, n: nat)
    requires from <= n <= |cands|
    requires forall c :: c in cands ==> c in snapshot
    requires forall j :: from <= j < n ==> Expired(cands[j], snapshot, entries, now, period)
    requires n < |cands| ==> !Expired(cands[n], snapshot, entries, now, period)
    ensures StopIndex(cands, snapshot, entries, now, period, from) == n
    decreases n - from
  {
    if from < n {
      StopIndexUnique(cands, snapshot, entries, now, period, from + 1, n);
    }
  }

  /** The `previous` position handed to the credit step for the `i`-th candidate. */
  function Previous(cands: seq<int>, w: int, i: nat): int
    requires i <= |cands|
  {
    if i == 0 then w else cands[i - 1]
  }

  /** Each candidate lies above the `previous` value the credit step receives with it. */
  lemma {:induction false} PreviousBelowCandidate(issuances: map<int, Issuance>, w: int, i: nat)
    requires i < |Candidates(issuances, w)|
    ensures Previous(Candidates(issuances, w), w, i) < Candidates(issuances, w)[i]
    ensures i > 0 ==> Previous(Candidates(issuances, w), w, i) == Candidates(issuances, w)[i - 1]
    ensures i == 0 ==> Previous(Candidates(issuances, w), w, i) == w
  {
    var c := Candidates(issuances, w);
    if i == 0 {
      assert c[0] in c;
    } else {
      assert c[i - 1] < c[i];
    }
  }

  // ---------------------------------------------------------------------
  // The credit step (incr_serving_counter).
  // ---------------------------------------------------------------------

  /**
   * Every record of `after` is the record of `before` under the same key,
   * or a fresh one stamped `issueTime` with no position served; no record
   * of `before` is dropped.
   */
  predicate OnlyFreshRecords(before: map<int, Issuance>, after: map<int, Issuance>, issueTime: int) {
    && before.Keys <= after.Keys
    && forall k :: k in after ==> (k in before && after[k] == before[k]) || after[k] == Issuance(issueTime, 0)
  }

  /** Positions in the gap (previous, position] not already served. */
  function IncrementBy(queuePositionsServed: int, position: int, previous: int): int {
    (position - previous) - queuePositionsServed
  }

  /** The event detail of a credit: its increment is positive and is the gap it reports. */
  predicate Credited(e: Notification) {
    e.incrementBy > 0 && e.currentPosition - e.previousPosition == e.incrementBy
  }

  /**
   * The effect of incr_serving_counter: skip a non-positive increment;
   * otherwise raise the serving counter by it, write a fresh issuance record
   * under the new value and publish one event.
   */
  function Credit(s: State, queuePositionsServed: int, position: int, previous: int, issueTime: int): (r: State)
    requires ServingCounter in s.counters
    ensures r.counters.Keys == s.counters.Keys
    ensures var inc := IncrementBy(queuePositionsServed, position, previous);
      && (inc <= 0 ==> r == s)
      && (inc > 0 ==>
            && r.counters[ServingCounter] == s.counters[ServingCounter] + inc
            && r.issuances.Keys == s.issuances.Keys + {r.counters[ServingCounter]}
            && r.issuances[r.counters[ServingCounter]] == Issuance(issueTime, 0)
            && (forall k :: k in s.issuances && k != r.counters[ServingCounter] ==> r.issuances[k] == s.issuances[k])
            && Emitted(r.journal) == Emitted(s.journal) +
                 [Notification(r.counters[ServingCounter] - inc, inc, r.counters[ServingCounter])])
    ensures forall k :: k in s.counters && k != ServingCounter ==> r.counters[k] == s.counters[k]
    ensures r.counters[ServingCounter] >= s.counters[ServingCounter]
    ensures WatermarkWrites(r.journal) == WatermarkWrites(s.journal)
    ensures |s.journal| <= |r.journal| && r.journal[..|s.journal|] == s.journal
    ensures r.entries == s.entries && r.tokens == s.tokens
    ensures forall t :: TableOf(r, t) == TableOf(s, t)
  {
    var inc := IncrementBy(queuePositionsServed, position, previous);
    if inc <= 0 then s
    else
      var cur := s.counters[ServingCounter] + inc;
      var record := Issuance(issueTime, 0);
      var notification := Notification(cur - inc, inc, cur);
      var journal := s.journal + [IncrCounter(ServingCounter, inc)] + [PutIssuance(cur, record)] + [PutEvent(notification)];
      EmittedSnoc(s.journal, IncrCounter(ServingCounter, inc));
      EmittedSnoc(s.journal + [IncrCounter(ServingCounter, inc)], PutIssuance(cur, record));
      EmittedSnoc(s.journal + [IncrCounter(ServingCounter, inc)] + [PutIssuance(cur, record)], PutEvent(notification));
      WatermarkWritesSnoc(s.journal, IncrCounter(ServingCounter, inc));
      WatermarkWritesSnoc(s.journal + [IncrCounter(ServingCounter, inc)], PutIssuance(cur, record));
      WatermarkWritesSnoc(s.journal + [IncrCounter(ServingCounter, inc)] + [PutIssuance(cur, record)], PutEvent(notification));
      s.(counters := s.counters[ServingCounter := cur],
         issuances := s.issuances[cur := record],
         journal := journal)
  }

  // ---------------------------------------------------------------------
  // The scan loop.
  // ---------------------------------------------------------------------

  function Positive(x: int): (r: int)
    ensures r >= 0 && r >= x && (r == x || r == 0)
  {
    if x > 0 then x else 0
  }

  /**
   * The watermark bound the pass keeps: the watermark and every issuance
   * key lie at or below the serving counter.
   */
  predicate WithinServing(s: State) {
    && ServingCounter in s.counters && MaxQueuePositionExpired in s.counters
    && s.counters[MaxQueuePositionExpired] <= s.counters[ServingCounter]
    && forall k :: k in s.issuances ==> k <= s.counters[ServingCounter]
  }

  /** The increment the credit step computes for the `i`-th candidate. */
  function CreditAt(cands: seq<int>, snapshot: map<int, Issuance>, w: int, i: nat): int
    requires i < |cands|
    requires forall c :: c in cands ==> c in snapshot
  {
    var position := cands[i];
    assert position in cands;
    IncrementBy(snapshot[position].queuePositionsServed, position, Previous(cands, w, i))
  }

  /** What crediting the first `n` candidates adds to the serving counter. */
  function CreditTotal(cands: seq<int>, snapshot: map<int, Issuance>, w: int, n: nat): (total: int)
    requires n <= |cands|
    requires forall c :: c in cands ==> c in snapshot
    ensures total >= 0
  {
    if n == 0 then 0
    else CreditTotal(cands, snapshot, w, n - 1) + Positive(CreditAt(cands, snapshot, w, n - 1))
  }

  /** The event a credit of `inc` publishes from serving counter `serving`: one when `inc` is positive. */
  function CreditEvent(serving: int, inc: int): (r: seq<Notification>)
    ensures |r| <= 1
    ensures inc > 0 ==> r == [Notification(serving, inc, serving + inc)] && Credited(r[0])
    ensures inc <= 0 ==> r == []
  {
    if inc > 0 then [Notification(serving, inc, serving + inc)] else []
  }

  /**
   * The issuance table after the credits whose events are `es`: each one
   * writes a record stamped `t`, with nothing served, under the serving
   * counter value it ends at.
   */
  function Stamp(m: map<int, Issuance>, es: seq<Notification>, t: int): map<int, Issuance>
    decreases |es|
  {
    if es == [] then m
    else Stamp(m, es[..|es| - 1], t)[es[|es| - 1].currentPosition := Issuance(t, 0)]
  }

  lemma StampSnoc(m: map<int, Issuance>, es: seq<Notification>, e: Notification, t: int)
    ensures Stamp(m, es + [e], t) == Stamp(m, es, t)[e.currentPosition := Issuance(t, 0)]
  {
    assert (es + [e])[..|es|] == es;
  }

  /**
   * The events crediting the first `n` candidates publishes, starting from
   * serving counter `base`: one credit for each candidate with a positive
   * increment.
   */
  function CreditEvents(cands: seq<int>, snapshot: map<int, Issuance>, w: int, base: int, n: nat): (r: seq<Notification>)
    requires n <= |cands|
    requires forall c :: c in cands ==> c in snapshot
    ensures |r| <= n
    ensures forall i :: 0 <= i < |r| ==> Credited(r[i])
  {
    if n == 0 then []
    else
      var before := CreditEvents(cands, snapshot, w, base, n - 1);
      var inc := CreditAt(cands, snapshot, w, n - 1);
      var total := CreditTotal(cands, snapshot, w, n - 1);
      before + CreditEvent(base + total, inc)
  }

  /**
   * The events `r` tile the range from `lo` to `hi`: the first starts at
   * `lo`, each starts where the one before ended, and the last ends at `hi`.
   */
  predicate Tiles(r: seq<Notification>, lo: int, hi: int) {
    if r == [] then lo == hi
    else r[0].previousPosition == lo && Tiles(r[1..], r[0].currentPosition, hi)
  }

  lemma {:induction false} TilesSnoc(r: seq<Notification>, lo: int, mid: int, e: Notification)
    requires Tiles(r, lo, mid) && e.previousPosition == mid
    ensures Tiles(r + [e], lo, e.currentPosition)
    decreases |r|
  {
    if r == [] {
      assert r + [e] == [e] && [e][1..] == [];
    } else {
      assert (r + [e])[0] == r[0] && (r + [e])[1..] == r[1..] + [e];
      TilesSnoc(r[1..], r[0].currentPosition, mid, e);
    }
  }

  /**
   * The credit events tile the rise of the serving counter, from `base` to
   * `base + CreditTotal(...)`; with no event, nothing was credited.
   */
  lemma {:induction false} CreditEventsTile(cands: seq<int>, snapshot: map<int, Issuance>, w: int, base: int, n: nat)
    requires n <= |cands|
    requires forall c :: c in cands ==> c in snapshot
    ensures Tiles(CreditEvents(cands, snapshot, w, base, n), base, base + CreditTotal(cands, snapshot, w, n))
    decreases n
  {
    if n > 0 {
      CreditEventsTile(cands, snapshot, w, base, n - 1);
      var total := CreditTotal(cands, snapshot, w, n - 1);
      var inc := CreditAt(cands, snapshot, w, n - 1);
      var before := CreditEvents(cands, snapshot, w, base, n - 1);
      if inc > 0 {
        TilesSnoc(before, base, base + total, Notification(base + total, inc, base + total + inc));
      } else {
        assert before + [] == before;
        assert CreditEvents(cands, snapshot, w, base, n) == before;
      }
    }
  }

  /**
   * One pass of the loop body for a candidate that has expired: set the
   * watermark to it, then credit if crediting is on.
   */
  function MarkExpired(s: State, position: int, previous: int, item: Issuance, cfg: Config, issueTime: int): (r: State)
    requires ServingCounter in s.counters
    ensures r.counters.Keys == s.counters.Keys + {MaxQueuePositionExpired}
    ensures r.counters[MaxQueuePositionExpired] == position
    ensures forall k :: k in s.counters && k != ServingCounter && k != MaxQueuePositionExpired ==>
              r.counters[k] == s.counters[k]
    ensures WatermarkWrites(r.journal) == WatermarkWrites(s.journal) + [position]
    ensures var inc := IncrementBy(item.queuePositionsServed, position, previous);
      r.counters[ServingCounter] == s.counters[ServingCounter] + (if CreditEnabled(cfg) then Positive(inc) else 0)
    ensures var inc := IncrementBy(item.queuePositionsServed, position, previous);
      Emitted(r.journal) == Emitted(s.journal) + (if CreditEnabled(cfg) then CreditEvent(s.counters[ServingCounter], inc) else [])
    ensures var inc := IncrementBy(item.queuePositionsServed, position, previous);
      r.issuances == if CreditEnabled(cfg) && inc > 0
                     then s.issuances[s.counters[ServingCounter] + inc := Issuance(issueTime, 0)]
                     else s.issuances
    ensures OnlyFreshRecords(s.issuances, r.issuances, issueTime)
    ensures r.entries == s.entries && r.tokens == s.tokens
    ensures forall t :: TableOf(r, t) == TableOf(s, t)
  {
    var op := SetCounter(MaxQueuePositionExpired, position);
    var marked := WriteCounter(s, MaxQueuePositionExpired, position);
    WatermarkWritesSnoc(s.journal, op);
    EmittedSnoc(s.journal, op);
    assert Emitted(s.journal) + [] == Emitted(s.journal);
    if CreditEnabled(cfg) then
      Credit(marked, item.queuePositionsServed, position, previous, issueTime)
    else marked
  }

  /** The loop body keeps the watermark bound when the candidate is at or below the serving counter. */
  lemma MarkExpiredWithinServing(s: State, position: int, previous: int, item: Issuance, cfg: Config, issueTime: int)
    requires WithinServing(s) && position <= s.counters[ServingCounter]
    ensures WithinServing(MarkExpired(s, position, previous, item, cfg, issueTime))
  {
  }

  /** One credit on top of `total` earlier ones, stated over plain values. */
  lemma CreditStep(base: seq<Notification>, serving: int, total: int, prior: seq<Notification>,
                   midServing: int, mid: seq<Notification>, inc: int,
                   endServing: int, end: seq<Notification>,
                   records: map<int, Issuance>, midRecords: map<int, Issuance>, endRecords: map<int, Issuance>, t: int)
    requires midServing == serving + total && mid == base + prior
    requires endServing == midServing + Positive(inc) && end == mid + CreditEvent(midServing, inc)
    requires midRecords == Stamp(records, prior, t)
    requires endRecords == if inc > 0 then midRecords[midServing + inc := Issuance(t, 0)] else midRecords
    ensures endServing == serving + (total + Positive(inc))
    ensures end == base + (prior + CreditEvent(serving + total, inc))
    ensures endRecords == Stamp(records, prior + CreditEvent(serving + total, inc), t)
  {
    if inc > 0 {
      StampSnoc(records, prior, Notification(serving + total, inc, serving + total + inc), t);
    } else {
      assert prior + [] == prior;
    }
  }

  lemma PrefixSnoc(ws: seq<int>, c: seq<int>, n: nat)
    requires 0 < n <= |c|
    ensures (ws + c[..n - 1]) + [c[n - 1]] == ws + c[..n]
  {
    assert c[..n - 1] + [c[n - 1]] == c[..n];
  }

  /**
   * `after` is `before` followed by at most `k` event details, each of
   * them a credit.
   */
  predicate CreditedExtension(before: seq<Notification>, after: seq<Notification>, k: nat) {
    && |before| <= |after| <= |before| + k
    && after[..|before|] == before
    && forall i :: |before| <= i < |after| ==> Credited(after[i])
  }

  lemma AppendCredited(before: seq<Notification>, added: seq<Notification>, k: nat)
    requires |added| <= k && forall i :: 0 <= i < |added| ==> Credited(added[i])
    ensures CreditedExtension(before, before + added, k)
  {
    var after := before + added;
    assert after[..|before|] == before;
    forall i | |before| <= i < |after| ensures Credited(after[i]) {
      assert after[i] == added[i - |before|];
    }
  }

  /**
   * `r` is the state after the loop body has run on `s` for the first `n`
   * candidates, each with the record values of the snapshot the query
   * returned. The watermark is written once per candidate, in candidate
   * order, and ends at the last of them. With crediting on, the serving
   * counter has risen by exactly CreditTotal, the event bus has received
   * exactly CreditEvents and each of those credits has written its record;
   * with crediting off, the serving counter, the issuance table and the
   * event bus are left alone. Other counters, entries and tables are
   * unchanged.
   */
  predicate ScanSpec(s: State, r: State, cands: seq<int>, snapshot: map<int, Issuance>, w: int,
                     cfg: Config, issueTime: int, n: nat)
    requires n <= |cands|
    requires forall c :: c in cands ==> c in snapshot
    requires ServingCounter in s.counters && MaxQueuePositionExpired in s.counters
  {
    ScanFrame(s, r, cands, issueTime, n) && ScanCredits(s, r, cands, snapshot, w, cfg, issueTime, n)
  }

  /** The watermark part of ScanSpec, with everything the credits do not touch. */
  predicate ScanFrame(s: State, r: State, cands: seq<int>, issueTime: int, n: nat)
    requires n <= |cands|
    requires ServingCounter in s.counters && MaxQueuePositionExpired in s.counters
  {
    && r.counters.Keys == s.counters.Keys
    && r.counters[MaxQueuePositionExpired] == (if n == 0 then s.counters[MaxQueuePositionExpired] else cands[n - 1])
    && (forall k :: k in s.counters && k != ServingCounter && k != MaxQueuePositionExpired ==>
          r.counters[k] == s.counters[k])
    && r.entries == s.entries && r.tokens == s.tokens
    && (forall t :: TableOf(r, t) == TableOf(s, t))
    && WatermarkWrites(r.journal) == WatermarkWrites(s.journal) + cands[..n]
    && OnlyFreshRecords(s.issuances, r.issuances, issueTime)
  }

  /** The credit part of ScanSpec: serving counter, events and issuance records. */
  predicate ScanCredits(s: State, r: State, cands: seq<int>, snapshot: map<int, Issuance>, w: int,
                        cfg: Config, issueTime: int, n: nat)
    requires n <= |cands|
    requires forall c :: c in cands ==> c in snapshot
    requires ServingCounter in s.counters
  {
    CreditsAre(s, r, cfg, issueTime, CreditTotal(cands, snapshot, w, n),
               CreditEvents(cands, snapshot, w, s.counters[ServingCounter], n))
  }

  /**
   * `r` is `s` after credits worth `total` that emitted `events`: when
   * crediting is on, the serving counter has moved by `total`, the events
   * follow the earlier ones and each wrote a fresh issuance record at its
   * new serving value; when it is off, none of the three has changed.
   */
  predicate CreditsAre(s: State, r: State, cfg: Config, issueTime: int, total: int, events: seq<Notification>)
    requires ServingCounter in s.counters
  {
    && ServingCounter in r.counters
    && r.counters[ServingCounter] == s.counters[ServingCounter] + (if CreditEnabled(cfg) then total else 0)
    && Emitted(r.journal) == Emitted(s.journal) + (if CreditEnabled(cfg) then events else [])
    && r.issuances == (if CreditEnabled(cfg) then Stamp(s.issuances, events, issueTime) else s.issuances)
  }

  /** Before the first iteration, nothing has happened. */
  lemma ScanStart(s: State, cands: seq<int>, snapshot: map<int, Issuance>, w: int, cfg: Config, issueTime: int)
    requires forall c :: c in cands ==> c in snapshot
    requires ServingCounter in s.counters && MaxQueuePositionExpired in s.counters
    ensures ScanSpec(s, s, cands, snapshot, w, cfg, issueTime, 0)
  {
    assert Emitted(s.journal) + [] == Emitted(s.journal);
    assert WatermarkWrites(s.journal) + cands[..0] == WatermarkWrites(s.journal);
  }

  /** Running the loop body on the `n`-th candidate extends the first `n - 1` iterations to `n`. */
  lemma ScanExtend(s: State, before: State, cands: seq<int>, snapshot: map<int, Issuance>, w: int,
                   cfg: Config, issueTime: int, n: nat)
    requires 0 < n <= |cands|
    requires forall c :: c in cands ==> c in snapshot
    requires ServingCounter in s.counters && MaxQueuePositionExpired in s.counters
    requires ScanSpec(s, before, cands, snapshot, w, cfg, issueTime, n - 1)
    ensures cands[n - 1] in snapshot && ServingCounter in before.counters
    ensures ScanSpec(s, MarkExpired(before, cands[n - 1], Previous(cands, w, n - 1), snapshot[cands[n - 1]], cfg, issueTime),
                     cands, snapshot, w, cfg, issueTime, n)
  {
    var position := cands[n - 1];
    assert position in cands;
    var r := MarkExpired(before, position, Previous(cands, w, n - 1), snapshot[position], cfg, issueTime);
    var serving := s.counters[ServingCounter];
    var total := CreditTotal(cands, snapshot, w, n - 1);
    var prior := CreditEvents(cands, snapshot, w, serving, n - 1);
    var inc := CreditAt(cands, snapshot, w, n - 1);
    CreditedPrefix(cands, snapshot, w, serving, n, total, prior, inc);
    CreditsStep(s, before, r, cfg, issueTime, total, prior, inc);
    ScanExtendFrame(s, before, cands, snapshot, w, cfg, issueTime, n);
  }

  /** The loop body moves the watermark to the candidate and leaves the rest of ScanFrame as it was. */
  lemma ScanExtendFrame(s: State, before: State, cands: seq<int>, snapshot: map<int, Issuance>, w: int,
                        cfg: Config, issueTime: int, n: nat)
    requires 0 < n <= |cands| && cands[n - 1] in snapshot
    requires ServingCounter in s.counters && MaxQueuePositionExpired in s.counters
    requires ScanFrame(s, before, cands, issueTime, n - 1)
    ensures ScanFrame(s, MarkExpired(before, cands[n - 1], Previous(cands, w, n - 1), snapshot[cands[n - 1]], cfg, issueTime),
                      cands, issueTime, n)
  {
    PrefixSnoc(WatermarkWrites(s.journal), cands, n);
  }

  /** One more loop body, with the candidate's credit `inc`, extends the credits so far by that credit. */
  lemma CreditsStep(s: State, before: State, r: State, cfg: Config, issueTime: int,
                    total: int, prior: seq<Notification>, inc: int)
    requires ServingCounter in s.counters
    requires CreditsAre(s, before, cfg, issueTime, total, prior)
    requires ServingCounter in r.counters
    requires r.counters[ServingCounter] == before.counters[ServingCounter] + (if CreditEnabled(cfg) then Positive(inc) else 0)
    requires Emitted(r.journal) == Emitted(before.journal) +
               (if CreditEnabled(cfg) then CreditEvent(before.counters[ServingCounter], inc) else [])
    requires r.issuances == if CreditEnabled(cfg) && inc > 0
               then before.issuances[before.counters[ServingCounter] + inc := Issuance(issueTime, 0)]
               else before.issuances
    ensures CreditsAre(s, r, cfg, issueTime, total + Positive(inc),
                       prior + CreditEvent(s.counters[ServingCounter] + total, inc))
  {
    if CreditEnabled(cfg) {
      CreditStep(Emitted(s.journal), s.counters[ServingCounter], total, prior,
                 before.counters[ServingCounter], Emitted(before.journal), inc,
                 r.counters[ServingCounter], Emitted(r.journal),
                 s.issuances, before.issuances, r.issuances, issueTime);
    } else {
      assert Emitted(before.journal) + [] == Emitted(before.journal);
    }
  }

  /** One more candidate adds its credit to the total and its event to the events. */
  lemma CreditedPrefix(cands: seq<int>, snapshot: map<int, Issuance>, w: int, base: int, n: nat,
                       total: int, prior: seq<Notification>, inc: int)
    requires 0 < n <= |cands|
    requires forall c :: c in cands ==> c in snapshot
    requires total == CreditTotal(cands, snapshot, w, n - 1)
    requires prior == CreditEvents(cands, snapshot, w, base, n - 1)
    requires inc == CreditAt(cands, snapshot, w, n - 1)
    ensures CreditTotal(cands, snapshot, w, n) == total + Positive(inc)
    ensures CreditEvents(cands, snapshot, w, base, n) == prior + CreditEvent(base + total, inc)
  {
  }

  /** The state after the loop body has run for the first `n` candidates. */
  function ScanPrefix(s: State, cands: seq<int>, snapshot: map<int, Issuance>, w: int,
                      cfg: Config, issueTime: int, n: nat): (r: State)
    requires n <= |cands|
    requires forall c :: c in cands ==> c in snapshot
    requires ServingCounter in s.counters && MaxQueuePositionExpired in s.counters
    ensures ScanSpec(s, r, cands, snapshot, w, cfg, issueTime, n)
    decreases n
  {
    if n == 0 then
      ScanStart(s, cands, snapshot, w, cfg, issueTime);
      s
    else
      var before := ScanPrefix(s, cands, snapshot, w, cfg, issueTime, n - 1);
      ScanExtend(s, before, cands, snapshot, w, cfg, issueTime, n);
      MarkExpired(before, cands[n - 1], Previous(cands, w, n - 1), snapshot[cands[n - 1]], cfg, issueTime)
  }

  /** The scan keeps the watermark bound when every candidate is at or below the serving counter. */
  lemma {:induction false} ScanPrefixWithinServing(s: State, cands: seq<int>, snapshot: map<int, Issuance>, w: int,
                                                   cfg: Config, issueTime: int, n: nat)
    requires n <= |cands|
    requires forall c :: c in cands ==> c in snapshot
    requires WithinServing(s) && forall c :: c in cands ==> c <= s.counters[ServingCounter]
    ensures WithinServing(ScanPrefix(s, cands, snapshot, w, cfg, issueTime, n))
    decreases n
  {
    if n > 0 {
      ScanPrefixWithinServing(s, cands, snapshot, w, cfg, issueTime, n - 1);
      var before := ScanPrefix(s, cands, snapshot, w, cfg, issueTime, n - 1);
      assert cands[n - 1] in cands;
      MarkExpiredWithinServing(before, cands[n - 1], Previous(cands, w, n - 1), snapshot[cands[n - 1]], cfg, issueTime);
    }
  }

  /**
   * What the handler needs to find in the stores: the reset flag, and when
   * it is clear the three counters it reads, the issuance table it queries
   * and, when there is a candidate, the queue-position table.
   */
  predicate Readable(s: State) {
    && ResetInProgress in s.counters
    && (s.counters[ResetInProgress] == 0 ==>
          && MaxQueuePositionExpired in s.counters
          && ServingCounter in s.counters
          && QueueCounter in s.counters
          && s.servingTable.Active?
          && ((exists k :: k in s.issuances && k > s.counters[MaxQueuePositionExpired]) ==> s.positionTable.Active?))
  }

  /** The candidate list of a pass. */
  function Eligible(s: State): seq<int>
    requires MaxQueuePositionExpired in s.counters
  {
    Candidates(s.issuances, s.counters[MaxQueuePositionExpired])
  }

  /** How many candidates a pass processes. */
  function Processed(s: State, cfg: Config, now: int): nat
    requires MaxQueuePositionExpired in s.counters
  {
    StopIndex(Eligible(s), s.issuances, s.entries, now, cfg.expiryPeriod, 0)
  }

  /**
   * One invocation of the handler at time `now`; `issueTime` is the time
   * stamped on the issuance records the pass appends.
   */
  function Pass(s: State, cfg: Config, now: int, issueTime: int): (r: State)
    requires Readable(s)
    ensures s.counters[ResetInProgress] != 0 ==> r == s
    ensures (s.counters[ResetInProgress] == 0 &&
             forall k :: k in s.issuances ==> k <= s.counters[MaxQueuePositionExpired]) ==> r == s
  {
    if s.counters[ResetInProgress] != 0 then s
    else
      var w := s.counters[MaxQueuePositionExpired];
      var cands := Candidates(s.issuances, w);
      ScanPrefix(s, cands, s.issuances, w, cfg, issueTime, StopIndex(cands, s.issuances, s.entries, now, cfg.expiryPeriod, 0))
  }

  /** The `n + 1`-th iteration is the loop body run on the state after the first `n`. */
  lemma ScanPrefixNext(s: State, cands: seq<int>, snapshot: map<int, Issuance>, w: int,
                       cfg: Config, issueTime: int, n: nat)
    requires n < |cands|
    requires forall c :: c in cands ==> c in snapshot
    requires ServingCounter in s.counters && MaxQueuePositionExpired in s.counters
    ensures cands[n] in snapshot && ServingCounter in ScanPrefix(s, cands, snapshot, w, cfg, issueTime, n).counters
    ensures ScanPrefix(s, cands, snapshot, w, cfg, issueTime, n + 1) ==
            MarkExpired(ScanPrefix(s, cands, snapshot, w, cfg, issueTime, n), cands[n], Previous(cands, w, n),
                        snapshot[cands[n]], cfg, issueTime)
  {
    ScanExtend(s, ScanPrefix(s, cands, snapshot, w, cfg, issueTime, n), cands, snapshot, w, cfg, issueTime, n + 1);
  }

  // ---------------------------------------------------------------------
  // The pass.
  // ---------------------------------------------------------------------

  /**
   * After a pass the watermark is the last processed candidate, or its old
   * value when none was processed; it never decreases.
   */
  lemma WatermarkAfterPass(s: State, cfg: Config, now: int, issueTime: int)
    requires Readable(s) && s.counters[ResetInProgress] == 0
    ensures var n := Processed(s, cfg, now);
      var r := Pass(s, cfg, now, issueTime);
      && r.counters[MaxQueuePositionExpired] == Previous(Eligible(s), s.counters[MaxQueuePositionExpired], n)
      && r.counters[MaxQueuePositionExpired] >= s.counters[MaxQueuePositionExpired]
  {
    var n := Processed(s, cfg, now);
    if n > 0 {
      assert Eligible(s)[n - 1] in Eligible(s);
    }
  }

  /**
   * The pass marks expired exactly the processed candidates, in ascending
   * order, and every one of them is past its grace period.
   */
  lemma ExpiredInOrder(s: State, cfg: Config, now: int, issueTime: int)
    requires Readable(s) && s.counters[ResetInProgress] == 0
    ensures var cands := Eligible(s);
      var n := Processed(s, cfg, now);
      && WatermarkWrites(Pass(s, cfg, now, issueTime).journal) == WatermarkWrites(s.journal) + cands[..n]
      && forall j :: 0 <= j < n ==> Expired(cands[j], s.issuances, s.entries, now, cfg.expiryPeriod)
  {
  }

  /**
   * The candidate the scan stops at has no queue-position entry or is still
   * inside its grace period, and neither it nor any later candidate is
   * marked expired: all lie above the new watermark.
   */
  lemma StopCandidateNotExpired(s: State, cfg: Config, now: int, issueTime: int)
    requires Readable(s) && s.counters[ResetInProgress] == 0
    ensures var cands := Eligible(s);
      var n := Processed(s, cfg, now);
      var r := Pass(s, cfg, now, issueTime);
      n < |cands| ==>
        && (cands[n] !in s.entries ||
            now - Max(s.entries[cands[n]], s.issuances[cands[n]].issueTime) < cfg.expiryPeriod)
        && forall j :: n <= j < |cands| ==> cands[j] > r.counters[MaxQueuePositionExpired]
  {
    var cands := Eligible(s);
    var n := Processed(s, cfg, now);
    WatermarkAfterPass(s, cfg, now, issueTime);
    if n < |cands| {
      forall j | n <= j < |cands| ensures cands[j] > Previous(cands, s.counters[MaxQueuePositionExpired], n) {
        PreviousBelowCandidate(s.issuances, s.counters[MaxQueuePositionExpired], n);
        if j > n { assert cands[n] < cands[j]; }
      }
    }
  }

  /** The serving counter never decreases across a pass. */
  lemma ServingNeverDecreases(s: State, cfg: Config, now: int, issueTime: int)
    requires Readable(s) && s.counters[ResetInProgress] == 0
    ensures Pass(s, cfg, now, issueTime).counters[ServingCounter] >= s.counters[ServingCounter]
  {
  }

  /** With crediting off, a pass moves only the watermark. */
  lemma PassWithoutCredit(s: State, cfg: Config, now: int, issueTime: int)
    requires Readable(s) && !CreditEnabled(cfg)
    ensures var r := Pass(s, cfg, now, issueTime);
      && (r.counters[ResetInProgress] == 0 ==> r.counters[ServingCounter] == s.counters[ServingCounter])
      && r.issuances == s.issuances
      && Emitted(r.journal) == Emitted(s.journal)
  {
  }

  /** Every event a pass publishes is a credit, at most one per processed candidate. */
  lemma PassEvents(s: State, cfg: Config, now: int, issueTime: int)
    requires Readable(s) && s.counters[ResetInProgress] == 0
    ensures CreditedExtension(Emitted(s.journal), Emitted(Pass(s, cfg, now, issueTime).journal), Processed(s, cfg, now))
  {
    var n := Processed(s, cfg, now);
    var added := if CreditEnabled(cfg) then CreditEvents(Eligible(s), s.issuances, s.counters[MaxQueuePositionExpired],
                                                         s.counters[ServingCounter], n) else [];
    AppendCredited(Emitted(s.journal), added, n);
  }

  /**
   * With crediting on, a pass raises the serving counter by exactly the sum
   * of the positive increments `(pos - previous) - queue_positions_served`
   * of the processed candidates, and its events tile that rise: the first
   * starts at the old serving counter, each starts where the one before
   * ended, and the last ends at the new serving counter.
   */
  lemma PassCredits(s: State, cfg: Config, now: int, issueTime: int)
    requires Readable(s) && s.counters[ResetInProgress] == 0 && CreditEnabled(cfg)
    ensures var cands := Eligible(s);
      var w := s.counters[MaxQueuePositionExpired];
      var n := Processed(s, cfg, now);
      var r := Pass(s, cfg, now, issueTime);
      && r.counters[ServingCounter] == s.counters[ServingCounter] + CreditTotal(cands, s.issuances, w, n)
      && Emitted(r.journal) == Emitted(s.journal) + CreditEvents(cands, s.issuances, w, s.counters[ServingCounter], n)
      && Tiles(CreditEvents(cands, s.issuances, w, s.counters[ServingCounter], n),
               s.counters[ServingCounter], r.counters[ServingCounter])
      && r.issuances == Stamp(s.issuances, CreditEvents(cands, s.issuances, w, s.counters[ServingCounter], n), issueTime)
  {
    var cands := Eligible(s);
    var w := s.counters[MaxQueuePositionExpired];
    var n := Processed(s, cfg, now);
    var r := Pass(s, cfg, now, issueTime);
    assert r == ScanPrefix(s, cands, s.issuances, w, cfg, issueTime, n);
    var events := CreditEvents(cands, s.issuances, w, s.counters[ServingCounter], n);
    assert r.counters[ServingCounter] == s.counters[ServingCounter] + CreditTotal(cands, s.issuances, w, n);
    assert Emitted(r.journal) == Emitted(s.journal) + events;
    assert r.issuances == Stamp(s.issuances, events, issueTime);
    CreditEventsTile(cands, s.issuances, w, s.counters[ServingCounter], n);
  }

  /**
   * A pass keeps the watermark bound: when the watermark and every
   * issuance key lie at or below the serving counter before the pass, they
   * still do after it.
   */
  lemma PassWithinServing(s: State, cfg: Config, now: int, issueTime: int)
    requires Readable(s) && WithinServing(s)
    ensures WithinServing(Pass(s, cfg, now, issueTime))
  {
    if s.counters[ResetInProgress] == 0 {
      var cands := Eligible(s);
      ScanPrefixWithinServing(s, cands, s.issuances, s.counters[MaxQueuePositionExpired], cfg, issueTime,
                              Processed(s, cfg, now));
    }
  }

  /** A pass leaves the handler able to run again. */
  lemma PassKeepsReadable(s: State, cfg: Config, now: int, issueTime: int)
    requires Readable(s)
    ensures Readable(Pass(s, cfg, now, issueTime))
  {
    if s.counters[ResetInProgress] == 0 {
      var r := Pass(s, cfg, now, issueTime);
      WatermarkAfterPass(s, cfg, now, issueTime);
      assert TableOf(r, ServingCounterTable) == TableOf(s, ServingCounterTable);
      assert TableOf(r, QueuePositionTable) == TableOf(s, QueuePositionTable);
      if !s.positionTable.Active? {
        assert forall k :: k in s.issuances ==> k <= s.counters[MaxQueuePositionExpired];
        assert r == s;
      }
    }
  }

  /**
   * A second pass at the same time changes nothing: it resumes at the
   * candidate the first one stopped at, and the records the first one
   * appended are stamped too recently to have expired. The handler stamps
   * them with the clock read after `now`, so `issueTime >= now` and a
   * positive expiry period meet the condition on crediting.
   */
  lemma PassIdempotent(s: State, cfg: Config, now: int, issueTime: int)
    requires Readable(s)
    requires CreditEnabled(cfg) ==> now - issueTime < cfg.expiryPeriod
    ensures Readable(Pass(s, cfg, now, issueTime))
    ensures Pass(Pass(s, cfg, now, issueTime), cfg, now, issueTime) == Pass(s, cfg, now, issueTime)
  {
    PassKeepsReadable(s, cfg, now, issueTime);
    if s.counters[ResetInProgress] == 0 {
      var r := Pass(s, cfg, now, issueTime);
      var w := s.counters[MaxQueuePositionExpired];
      var cands := Eligible(s);
      var n := Processed(s, cfg, now);
      if n > 0 {
        WatermarkAfterPass(s, cfg, now, issueTime);
        var rest := Eligible(r);
        if rest != [] {
          FirstAfterScanNotExpired(s.issuances, r.issuances, s.entries, w, n, now, cfg.expiryPeriod, issueTime);
        }
        assert Processed(r, cfg, now) == 0;
      }
    }
  }

  /**
   * After a scan of the first `n` candidates of `snap` that stopped at the
   * next one, the least record above the new watermark is not expired.
   */
  lemma FirstAfterScanNotExpired(snap: map<int, Issuance>, after: map<int, Issuance>, entries: map<int, int>,
                                 w: int, n: nat, now: int, period: int, issueTime: int)
    requires 0 < n <= |Candidates(snap, w)|
    requires n < |Candidates(snap, w)| ==> !Expired(Candidates(snap, w)[n], snap, entries, now, period)
    requires OnlyFreshRecords(snap, after, issueTime)
    requires after != snap ==> now - issueTime < period
    requires Candidates(after, Candidates(snap, w)[n - 1]) != []
    ensures var c := Candidates(after, Candidates(snap, w)[n - 1])[0];
      c in after && !Expired(c, after, entries, now, period)
  {
    var cands := Candidates(snap, w);
    var rest := Candidates(after, cands[n - 1]);
    var c := rest[0];
    assert c in rest;
    assert cands[n - 1] in cands;
    if n < |cands| {
      assert cands[n - 1] < cands[n];
      assert cands[n] in rest;
      HeadIsLeast(rest, cands[n]);
    }
    if c in snap && after[c] == snap[c] {
      assert c in cands;
      var j :| 0 <= j < |cands| && cands[j] == c;
    }
  }
}
