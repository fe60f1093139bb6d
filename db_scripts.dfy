/**
 * The pair-verification store: the image_verification table in which pairs of
 * annotation images wait for a human verdict, and the set of pairs this
 * process currently holds.  Every public operation of the store is one atomic
 * guarded UPDATE/INSERT (or one transaction) on the table; here each becomes
 * one method of VerificationStore.  The clock and the instance identifier are
 * inputs: `now` is passed to each method that reads the clock, and the
 * identifier is fixed when the store is opened.
 */
module VerificationDb {
  import opened Common

  /** The CHECK constraint of the status column. */
  datatype Status = Awaiting | InProgress | Checked | Sent

  /** The CHECK constraint of the decision column; 'none' is its default. */
  datatype Decision = NoDecision | Correct | Incorrect | CantTell

  /** The nine columns a caller supplies when it inserts a pair. */
  datatype PairInfo = PairInfo(
    id: string,
    uuid1: string, image1Path: string, bbox1: string, cluster1: string,
    uuid2: string, image2Path: string, bbox2: string, cluster2: string)

  /** One row of image_verification.  Timestamps are instants in whole seconds; None is NULL. */
  datatype Row = Row(
    pair: PairInfo,
    status: Status,
    decision: Decision,
    startedAt: Option<int>,
    completedAt: Option<int>,
    instanceId: Option<string>,
    heartbeat: Option<int>)

  /** The table, keyed by its primary key id. */
  type Table = map<string, Row>

  /** The columns the reservation query hands back. */
  datatype Task = Task(
    id: string, image1Path: string, image2Path: string,
    bbox1: string, bbox2: string, cluster1: string, cluster2: string)

  /** The statistics query: SUM over no rows is NULL, hence the options. */
  datatype Stats = Stats(
    total: nat,
    awaiting: Option<nat>,
    inProgress: Option<nat>,
    checked: Option<nat>,
    activeInstances: nat,
    breakdown: map<string, nat>,
    currentInstance: string)

  // ---------------------------------------------------------------------------
  // Row transitions: the SET part of each UPDATE.

  /** INSERT ... status 'awaiting'; decision takes its default, the timestamps and owner are NULL. */
  function NewRow(p: PairInfo): Row {
    Row(p, Awaiting, NoDecision, None, None, None, None)
  }

  /** SET status='in_progress', started_at=now, instance_id=inst, heartbeat=now. */
  function Reserve(r: Row, now: int, inst: string): Row {
    r.(status := InProgress, startedAt := Some(now), instanceId := Some(inst), heartbeat := Some(now))
  }

  /** SET status='awaiting', started_at=NULL, instance_id=NULL, heartbeat=NULL. */
  function Release(r: Row): Row {
    r.(status := Awaiting, startedAt := None, instanceId := None, heartbeat := None)
  }

  /** SET status='checked', decision=d, completed_at=now. */
  function Complete(r: Row, d: Decision, now: int): Row {
    r.(status := Checked, decision := d, completedAt := Some(now))
  }

  /** SET heartbeat=now. */
  function Beat(r: Row, now: int): Row {
    r.(heartbeat := Some(now))
  }

  /** WHERE status='in_progress' AND instance_id=inst. */
  predicate OwnedInProgress(r: Row, inst: string) {
    r.status == InProgress && r.instanceId == Some(inst)
  }

  /** WHERE status='in_progress' AND (heartbeat IS NULL OR heartbeat < cutoff). */
  predicate IsStale(r: Row, cutoff: int) {
    r.status == InProgress && (r.heartbeat.None? || r.heartbeat.value < cutoff)
  }

  /** uuid1 = u1 AND uuid2 = u2, or the other way round. */
  predicate MatchesPair(r: Row, u1: string, u2: string) {
    (r.pair.uuid1 == u1 && r.pair.uuid2 == u2) || (r.pair.uuid1 == u2 && r.pair.uuid2 == u1)
  }

  function TaskOf(r: Row): Task {
    Task(r.pair.id, r.pair.image1Path, r.pair.image2Path, r.pair.bbox1, r.pair.bbox2, r.pair.cluster1, r.pair.cluster2)
  }

  // ---------------------------------------------------------------------------
  // The shape of a row in each status, kept by every operation.

  ghost predicate WellFormedRow(r: Row) {
    match r.status
    case Awaiting =>
      r.decision == NoDecision && r.startedAt.None? && r.completedAt.None? && r.instanceId.None? && r.heartbeat.None?
    case InProgress =>
      r.decision == NoDecision && r.startedAt.Some? && r.completedAt.None? && r.instanceId.Some? && r.heartbeat.Some?
    case Checked =>
      r.startedAt.Some? && r.completedAt.Some? && r.instanceId.Some? && r.heartbeat.Some?
    case Sent =>
      r.startedAt.Some? && r.completedAt.Some? && r.instanceId.Some? && r.heartbeat.Some?
  }

  ghost predicate WellFormed(t: Table) {
    forall id :: id in t ==> t[id].pair.id == id && WellFormedRow(t[id])
  }

  // ---------------------------------------------------------------------------
  // Sets of ids selected by the WHERE clauses.

  function IdsWithStatus(t: Table, s: Status): set<string> {
    set id | id in t && t[id].status == s
  }

  function OwnedIds(t: Table, inst: string): set<string> {
    set id | id in t && OwnedInProgress(t[id], inst)
  }

  function StaleIds(t: Table, cutoff: int): set<string> {
    set id | id in t && IsStale(t[id], cutoff)
  }

  function MatchingIds(t: Table, u1: string, u2: string): set<string> {
    set id | id in t && MatchesPair(t[id], u1, u2)
  }

  function DecidedMatchingIds(t: Table, u1: string, u2: string): set<string> {
    set id | id in MatchingIds(t, u1, u2) && t[id].status in {Checked, Sent}
  }

  /** COUNT(DISTINCT instance_id): the non-NULL owners of any row. */
  function Owners(t: Table): set<string> {
    set id | id in t && t[id].instanceId.Some? :: t[id].instanceId.value
  }

  /** The groups of the breakdown query: owners of in-progress rows. */
  function WorkingInstances(t: Table): set<string> {
    set id | id in t && t[id].status == InProgress && t[id].instanceId.Some? :: t[id].instanceId.value
  }

  // ---------------------------------------------------------------------------
  // Whole-table updates.

  /** INSERT OR IGNORE of one pair. */
  function Insert(t: Table, p: PairInfo): Table {
    if p.id in t then t else t[p.id := NewRow(p)]
  }

  /** The ids of a batch of pairs. */
  function BatchIds(ps: seq<PairInfo>): (ids: set<string>)
    ensures forall k :: 0 <= k < |ps| ==> ps[k].id in ids
    decreases |ps|
  {
    if ps == [] then {} else BatchIds(ps[..|ps| - 1]) + {ps[|ps| - 1].id}
  }

  /** executemany of INSERT OR IGNORE: the pairs in order, an existing id ignored. */
  function InsertAll(t: Table, ps: seq<PairInfo>): Table
    decreases |ps|
  {
    if ps == [] then t else Insert(InsertAll(t, ps[..|ps| - 1]), ps[|ps| - 1])
  }

  function ReleaseOwned(t: Table, inst: string): Table {
    map id | id in t :: if OwnedInProgress(t[id], inst) then Release(t[id]) else t[id]
  }

  function ReleaseStale(t: Table, cutoff: int): Table {
    map id | id in t :: if IsStale(t[id], cutoff) then Release(t[id]) else t[id]
  }

  /** SELECT id, decision ... WHERE id IN ids AND status = 'checked', as a dictionary. */
  function CheckedDecisions(t: Table, ids: seq<string>): (r: map<string, Decision>)
    ensures forall id :: id in r <==> id in ids && id in t && t[id].status == Checked
    ensures forall id :: id in r ==> r[id] == t[id].decision
  {
    map id | id in t && id in ids && t[id].status == Checked :: t[id].decision
  }

  /** UPDATE ... SET status = 'sent' WHERE id IN ids AND status = 'checked'. */
  function MarkSent(t: Table, ids: seq<string>): Table {
    map id | id in t :: if id in ids && t[id].status == Checked then t[id].(status := Sent) else t[id]
  }

  // ---------------------------------------------------------------------------
  // ORDER BY id: SQLite compares TEXT by its BINARY collation, byte by byte of
  // the UTF-8 encoding, which orders strings as their code points do.

  predicate LexLe(a: string, b: string)
    decreases |a|
  {
    |a| == 0 || (|b| > 0 && (a[0] < b[0] || (a[0] == b[0] && LexLe(a[1..], b[1..]))))
  }

  predicate IsLeast(m: string, s: set<string>) {
    m in s && forall x :: x in s ==> LexLe(m, x)
  }

  lemma {:induction false} LexLeReflexive(a: string)
    ensures LexLe(a, a)
    decreases |a|
  {
    if |a| > 0 {
      LexLeReflexive(a[1..]);
    }
  }

  lemma {:induction false} LexLeTotal(a: string, b: string)
    ensures LexLe(a, b) || LexLe(b, a)
    decreases |a|
  {
    if |a| > 0 && |b| > 0 && a[0] == b[0] {
      LexLeTotal(a[1..], b[1..]);
    }
  }

  lemma {:induction false} LexLeAntisymmetric(a: string, b: string)
    requires LexLe(a, b) && LexLe(b, a)
    ensures a == b
    decreases |a|
  {
    if |a| > 0 && |b| > 0 {
      LexLeAntisymmetric(a[1..], b[1..]);
      assert a == [a[0]] + a[1..];
      assert b == [b[0]] + b[1..];
    }
  }

  lemma {:induction false} LexLeTransitive(a: string, b: string, c: string)
    requires LexLe(a, b) && LexLe(b, c)
    ensures LexLe(a, c)
    decreases |a|
  {
    if |a| > 0 && a[0] == b[0] && b[0] == c[0] {
      LexLeTransitive(a[1..], b[1..], c[1..]);
    }
  }

  /** Every non-empty set of ids has a first one in ORDER BY id. */
  lemma {:induction false} LeastExists(s: set<string>)
    requires s != {}
    ensures exists m :: IsLeast(m, s)
    decreases |s|
  {
    var x :| x in s;
    if s == {x} {
      LexLeReflexive(x);
      assert IsLeast(x, s);
    } else {
      var rest := s - {x};
      LeastExists(rest);
      var m :| IsLeast(m, rest);
      LexLeTotal(x, m);
      if LexLe(x, m) {
        LexLeReflexive(x);
        forall y | y in s ensures LexLe(x, y) {
          if y != x {
            LexLeTransitive(x, m, y);
          }
        }
        assert IsLeast(x, s);
      } else {
        assert IsLeast(m, s);
      }
    }
  }

  /** ORDER BY id LIMIT 1 determines its row: the first id is unique. */
  lemma LeastUnique(a: string, b: string, s: set<string>)
    requires IsLeast(a, s) && IsLeast(b, s)
    ensures a == b
  {
    LexLeAntisymmetric(a, b);
  }

  // ---------------------------------------------------------------------------
  // Properties of the whole-table updates.

  /** No pair before position k of the batch has the id of pair k. */
  predicate FirstWithId(ps: seq<PairInfo>, k: int)
    requires 0 <= k < |ps|
  {
    forall j :: 0 <= j < k ==> ps[j].id != ps[k].id
  }

  /** A batch insert adds exactly the ids of the batch that were not present and keeps every existing row. */
  lemma {:induction false} InsertAllKeys(t: Table, ps: seq<PairInfo>)
    ensures InsertAll(t, ps).Keys == t.Keys + BatchIds(ps)
    ensures forall id :: id in t ==> InsertAll(t, ps)[id] == t[id]
    decreases |ps|
  {
    if ps != [] {
      InsertAllKeys(t, ps[..|ps| - 1]);
    }
  }

  /** Every row a batch insert adds is a fresh awaiting row under its own id. */
  lemma {:induction false} InsertAllNewRows(t: Table, ps: seq<PairInfo>)
    ensures forall id :: id in InsertAll(t, ps) && id !in t ==>
              InsertAll(t, ps)[id] == NewRow(InsertAll(t, ps)[id].pair) && InsertAll(t, ps)[id].pair.id == id
    decreases |ps|
  {
    if ps != [] {
      InsertAllNewRows(t, ps[..|ps| - 1]);
    }
  }

  lemma {:induction false} NotInBatch(ps: seq<PairInfo>, id: string)
    requires forall j :: 0 <= j < |ps| ==> ps[j].id != id
    ensures id !in BatchIds(ps)
    decreases |ps|
  {
    if ps != [] {
      NotInBatch(ps[..|ps| - 1], id);
    }
  }

  /** Of several pairs with one new id, the first in the batch is the one inserted. */
  lemma {:induction false} InsertAllFirstWins(t: Table, ps: seq<PairInfo>, k: int)
    requires 0 <= k < |ps| && ps[k].id !in t && FirstWithId(ps, k)
    ensures ps[k].id in InsertAll(t, ps) && InsertAll(t, ps)[ps[k].id] == NewRow(ps[k])
    decreases |ps|
  {
    InsertAllKeys(t, ps);
    var n := |ps| - 1;
    var prefix := ps[..n];
    InsertAllKeys(t, prefix);
    if k < n {
      assert ps[k] == prefix[k];
      assert FirstWithId(prefix, k);
      InsertAllFirstWins(t, prefix, k);
    } else {
      NotInBatch(prefix, ps[n].id);
    }
  }

  /** A batch insert keeps the table well formed and does not change who owns what. */
  lemma InsertAllKeepsShape(t: Table, ps: seq<PairInfo>, inst: string)
    requires WellFormed(t)
    ensures WellFormed(InsertAll(t, ps))
    ensures OwnedIds(InsertAll(t, ps), inst) == OwnedIds(t, inst)
  {
    InsertAllKeys(t, ps);
    InsertAllNewRows(t, ps);
  }

  /** One insert adds one new key exactly when the id was absent. */
  lemma InsertCount(t: Table, base: Table, p: PairInfo)
    requires base.Keys <= t.Keys
    ensures base.Keys <= Insert(t, p).Keys
    ensures |Insert(t, p).Keys - base.Keys| == |t.Keys - base.Keys| + (if p.id in t then 0 else 1)
  {
    var keys := Insert(t, p).Keys;
    if p.id in t {
      assert keys == t.Keys;
    } else {
      assert keys == t.Keys + {p.id};
      NewKeyCount(t.Keys, base.Keys, p.id);
    }
  }

  lemma NewKeyCount(keys: set<string>, base: set<string>, k: string)
    requires k !in keys && base <= keys
    ensures |(keys + {k}) - base| == |keys - base| + 1
  {
    assert (keys + {k}) - base == (keys - base) + {k};
  }

  lemma InsertAllStep(base: Table, ps: seq<PairInfo>, i: nat)
    requires i < |ps|
    ensures InsertAll(base, ps[..i + 1]) == Insert(InsertAll(base, ps[..i]), ps[i])
  {
    assert ps[..i + 1][..i] == ps[..i];
  }

  /** Only requested rows that were checked change, and they change only to sent. */
  lemma MarkSentEffect(t: Table, ids: seq<string>)
    ensures MarkSent(t, ids).Keys == t.Keys
    ensures forall id :: id in t && !(id in ids && t[id].status == Checked) ==> MarkSent(t, ids)[id] == t[id]
    ensures forall id :: id in t && id in ids && t[id].status == Checked ==>
              MarkSent(t, ids)[id] == t[id].(status := Sent)
  {
  }

  /** Every row the harvest moves to 'sent' had its decision returned by the SELECT. */
  lemma SentDecisionsReturned(t: Table, ids: seq<string>)
    ensures forall id :: id in t && t[id].status != Sent && MarkSent(t, ids)[id].status == Sent ==>
              id in CheckedDecisions(t, ids) && CheckedDecisions(t, ids)[id] == t[id].decision
  {
  }

  /**
   * get_decisions as written: the SELECT reads t, another connection may
   * commit before the UPDATE (no transaction spans the two statements), and
   * the UPDATE then runs on the table as it is by then.
   */
  function HarvestInterleaved(t: Table, ids: seq<string>, between: Table): (r: (map<string, Decision>, Table))
    ensures r.0 == CheckedDecisions(t, ids)
    ensures r.0 == map[] ==> r.1 == between
    ensures r.1.Keys == between.Keys
  {
    var found := CheckedDecisions(t, ids);
    (found, if found == map[] then between else MarkSent(between, ids))
  }

  /** A pair that becomes 'checked' between the two statements is marked 'sent' but its decision is not returned. */
  lemma DecisionLostBetweenStatements(t: Table, ids: seq<string>, between: Table, id: string)
    requires id in ids && id in t && t[id].status != Checked
    requires id in between && between[id].status == Checked
    requires CheckedDecisions(t, ids) != map[]
    ensures id !in HarvestInterleaved(t, ids, between).0
    ensures HarvestInterleaved(t, ids, between).1[id].status == Sent
  {
  }

  /** Harvesting is one-shot: asking again for the same ids finds no checked row. */
  lemma HarvestOnce(t: Table, ids: seq<string>)
    ensures CheckedDecisions(MarkSent(t, ids), ids) == map[]
  {
    var t' := MarkSent(t, ids);
    forall id | id in ids && id in t' ensures t'[id].status != Checked {
    }
    assert CheckedDecisions(t', ids).Keys == {};
  }

  /** With no checked row among the ids, the UPDATE to 'sent' changes nothing. */
  lemma MarkSentNoop(t: Table, ids: seq<string>)
    requires CheckedDecisions(t, ids) == map[]
    ensures MarkSent(t, ids) == t
  {
    forall id | id in t ensures MarkSent(t, ids)[id] == t[id] {
      assert id !in CheckedDecisions(t, ids);
    }
  }

  /** A reservation followed by a release gives back the awaiting row unchanged. */
  lemma ReleaseUndoesReserve(r: Row, now: int, inst: string)
    requires WellFormedRow(r) && r.status == Awaiting
    ensures Release(Reserve(r, now, inst)) == r
    ensures OwnedInProgress(Reserve(r, now, inst), inst)
  {
  }

  /** Both lookups by uuid pairs ignore the order of the two uuids. */
  lemma LookupSymmetric(t: Table, u1: string, u2: string)
    ensures MatchingIds(t, u1, u2) == MatchingIds(t, u2, u1)
    ensures DecidedMatchingIds(t, u1, u2) == DecidedMatchingIds(t, u2, u1)
  {
  }

  /** The four statuses partition the table, so the per-status counts add up to the total. */
  lemma StatusCountsPartition(t: Table)
    ensures |IdsWithStatus(t, Awaiting)| + |IdsWithStatus(t, InProgress)|
            + |IdsWithStatus(t, Checked)| + |IdsWithStatus(t, Sent)| == |t|
  {
    var a, p, c, s := IdsWithStatus(t, Awaiting), IdsWithStatus(t, InProgress), IdsWithStatus(t, Checked), IdsWithStatus(t, Sent);
    StatusesCoverKeys(t);
    DisjointUnionCount(a, p);
    DisjointUnionCount(a + p, c);
    DisjointUnionCount(a + p + c, s);
    assert |t| == |t.Keys|;
  }

  /** Every row has exactly one of the four statuses. */
  lemma StatusesCoverKeys(t: Table)
    ensures var a, p, c, s := IdsWithStatus(t, Awaiting), IdsWithStatus(t, InProgress), IdsWithStatus(t, Checked), IdsWithStatus(t, Sent);
            t.Keys == a + p + c + s && a !! p && (a + p) !! c && (a + p + c) !! s
  {
  }

  /** The sizes of disjoint sets add up. */
  lemma DisjointUnionCount(x: set<string>, y: set<string>)
    requires x !! y
    ensures |x + y| == |x| + |y|
  {
  }

  /** Releasing the owned rows leaves none owned by that instance; releasing stale rows leaves none stale. */
  lemma ReleaseClears(t: Table, inst: string, cutoff: int)
    ensures OwnedIds(ReleaseOwned(t, inst), inst) == {}
    ensures StaleIds(ReleaseStale(t, cutoff), cutoff) == {}
    ensures ReleaseOwned(t, inst).Keys == t.Keys && ReleaseStale(t, cutoff).Keys == t.Keys
  {
  }

  // ---------------------------------------------------------------------------

  /** The INSERT OR IGNORE loop of add_image_pairs: one pair at a time, counting the rows that went in. */
  method InsertBatch(base: Table, pairs: seq<PairInfo>) returns (t: Table, inserted: nat)
    ensures t == InsertAll(base, pairs)
    ensures base.Keys <= t.Keys
    ensures inserted == |t.Keys - base.Keys|
  {
    t := base;
    inserted := 0;
    for i := 0 to |pairs|
      invariant t == InsertAll(base, pairs[..i])
      invariant base.Keys <= t.Keys
      invariant inserted == |t.Keys - base.Keys|
    {
      InsertAllStep(base, pairs, i);
      InsertCount(t, base, pairs[i]);
      if pairs[i].id !in t {
        inserted := inserted + 1;
      }
      t := Insert(t, pairs[i]);
    }
    assert pairs[..|pairs|] == pairs;
  }

  class VerificationStore {
    /** INSTANCE_IDENTIFIER: this process's owner tag. */
    const identifier: string
    /** The image_verification table. */
    var table: Table
    /** instance_active_pairs: the pairs this process has reserved. */
    var activePairs: set<string>

    /**
     * The table is well formed, and every in-progress row owned by this
     * instance is one it holds (which is why cleanup may skip the UPDATE when
     * it holds nothing).
     */
    ghost predicate Valid()
      reads this
    {
      WellFormed(table) && OwnedIds(table, identifier) <= activePairs
    }

    /**
     * Importing the module (instance_active_pairs starts empty) followed by
     * init_db: open the persisted table (created empty if absent) and reset
     * this instance's pairs. init_db itself leaves instance_active_pairs
     * alone, so a second call in the same process keeps the old set; the
     * model does not cover that second call.
     */
    constructor (identifier: string, persisted: Table)
      requires WellFormed(persisted)
      ensures Valid()
      ensures this.identifier == identifier
      ensures table == ReleaseOwned(persisted, identifier)
      ensures activePairs == {}
    {
      this.identifier := identifier;
      table := ReleaseOwned(persisted, identifier);
      activePairs := {};
      ReleaseClears(persisted, identifier, 0);
    }

    /** add_image_pairs: INSERT OR IGNORE each pair; the count is the number of rows added. */
    method AddImagePairs(pairs: seq<PairInfo>) returns (inserted: nat)
      requires Valid()
      modifies this
      ensures Valid()
      ensures table == InsertAll(old(table), pairs)
      ensures table.Keys == old(table).Keys + BatchIds(pairs)
      ensures forall id :: id in old(table) ==> table[id] == old(table)[id]
      ensures forall k :: 0 <= k < |pairs| && pairs[k].id !in old(table) && FirstWithId(pairs, k) ==>
                table[pairs[k].id] == NewRow(pairs[k])
      ensures inserted == |table.Keys - old(table).Keys|
      ensures activePairs == old(activePairs)
    {
      var t;
      t, inserted := InsertBatch(table, pairs);
      InsertAllKeys(table, pairs);
      InsertAllKeepsShape(table, pairs, identifier);
      forall k | 0 <= k < |pairs| && pairs[k].id !in table && FirstWithId(pairs, k)
        ensures t[pairs[k].id] == NewRow(pairs[k])
      {
        InsertAllFirstWins(table, pairs, k);
      }
      table := t;
    }

    /** add_image_pair: the batch insert with one pair. */
    method AddImagePair(pair: PairInfo) returns (inserted: nat)
      requires Valid()
      modifies this
      ensures Valid()
      ensures inserted == (if pair.id in old(table) then 0 else 1)
      ensures table == Insert(old(table), pair)
      ensures activePairs == old(activePairs)
    {
      inserted := AddImagePairs([pair]);
      assert [pair][..0] == [];
      if pair.id !in old(table) {
        assert table.Keys - old(table).Keys == {pair.id};
      } else {
        assert table.Keys - old(table).Keys == {};
      }
    }

    /**
     * get_decisions: the decisions of the requested pairs that are checked,
     * which are then marked sent.  An empty request changes nothing.
     */
    method GetDecisions(pairIds: seq<string>) returns (decisions: map<string, Decision>)
      requires Valid()
      modifies this
      ensures Valid()
      ensures decisions == CheckedDecisions(old(table), pairIds)
      ensures table == MarkSent(old(table), pairIds)
      ensures pairIds == [] ==> decisions == map[] && table == old(table)
      ensures activePairs == old(activePairs)
    {
      if |pairIds| == 0 {
        MarkSentNoop(table, pairIds);
        return map[];
      }
      var results := CheckedDecisions(table, pairIds);
      if results != map[] {
        table := MarkSent(table, pairIds);
        assert OwnedIds(table, identifier) == OwnedIds(old(table), identifier);
      } else {
        MarkSentNoop(table, pairIds);
      }
      decisions := results;
    }

    /** get_decision: the batch harvest with one id, looked up with dict.get. */
    method GetDecision(pairId: string) returns (decision: Option<Decision>)
      requires Valid()
      modifies this
      ensures Valid()
      ensures decision == if pairId in old(table) && old(table)[pairId].status == Checked
                          then Some(old(table)[pairId].decision) else None
      ensures table == MarkSent(old(table), [pairId])
      ensures activePairs == old(activePairs)
    {
      var results := GetDecisions([pairId]);
      decision := if pairId in results then Some(results[pairId]) else None;
    }

    /**
     * get_existing_pair_decision: the decision of some row for these two
     * uuids (in either order) that is checked or sent; None if there is none.
     * LIMIT 1 without ORDER BY may return any such row.
     */
    method GetExistingPairDecision(uuid1: string, uuid2: string) returns (decision: Option<Decision>)
      ensures decision.None? <==> DecidedMatchingIds(table, uuid1, uuid2) == {}
      ensures decision.Some? ==>
                exists id :: id in DecidedMatchingIds(table, uuid1, uuid2) && table[id].decision == decision.value
    {
      var found := DecidedMatchingIds(table, uuid1, uuid2);
      if found == {} {
        decision := None;
      } else {
        var id :| id in found;
        decision := Some(table[id].decision);
      }
    }

    /** check_pair_exists: whether a row for these two uuids (in either order) exists, with its status and decision. */
    method CheckPairExists(uuid1: string, uuid2: string) returns (found: bool, status: Option<Status>, decision: Option<Decision>)
      ensures found <==> MatchingIds(table, uuid1, uuid2) != {}
      ensures !found ==> status.None? && decision.None?
      ensures found ==> exists id :: id in MatchingIds(table, uuid1, uuid2) &&
                          status == Some(table[id].status) && decision == Some(table[id].decision)
    {
      var matching := MatchingIds(table, uuid1, uuid2);
      if matching == {} {
        found, status, decision := false, None, None;
      } else {
        var id :| id in matching;
        found, status, decision := true, Some(table[id].status), Some(table[id].decision);
      }
    }

    /** reset_instance_pairs: return this instance's in-progress rows to awaiting; the count of rows reset. */
    method ResetInstancePairs() returns (count: nat)
      requires Valid()
      modifies this
      ensures Valid()
      ensures count == |OwnedIds(old(table), identifier)|
      ensures table == ReleaseOwned(old(table), identifier)
      ensures OwnedIds(table, identifier) == {}
      ensures activePairs == old(activePairs)
    {
      count := |OwnedIds(table, identifier)|;
      ReleaseClears(table, identifier, 0);
      table := ReleaseOwned(table, identifier);
    }

    /**
     * reset_stale_pairs: every in-progress row whose heartbeat is NULL or
     * older than now minus the timeout goes back to awaiting, whoever owns it.
     */
    method ResetStalePairs(now: int, timeoutMinutes: int) returns (count: nat)
      requires Valid()
      modifies this
      ensures Valid()
      ensures count == |StaleIds(old(table), now - timeoutMinutes * 60)|
      ensures table == ReleaseStale(old(table), now - timeoutMinutes * 60)
      ensures activePairs == old(activePairs)
    {
      var cutoff := now - timeoutMinutes * 60;
      count := |StaleIds(table, cutoff)|;
      table := ReleaseStale(table, cutoff);
      assert OwnedIds(table, identifier) <= OwnedIds(old(table), identifier);
    }

    /**
     * get_next_pair_atomic: reserve the awaiting row with the smallest id for
     * this instance, stamping its start and heartbeat with now, and remember
     * it.  With no awaiting row nothing changes and None is returned.
     */
    method GetNextPairAtomic(now: int) returns (task: Option<Task>)
      requires Valid()
      modifies this
      ensures Valid()
      ensures task.None? <==> IdsWithStatus(old(table), Awaiting) == {}
      ensures task.None? ==> table == old(table) && activePairs == old(activePairs)
      ensures task.Some? ==>
                IsLeast(task.value.id, IdsWithStatus(old(table), Awaiting)) &&
                task.value == TaskOf(old(table)[task.value.id]) &&
                table == old(table)[task.value.id := Reserve(old(table)[task.value.id], now, identifier)] &&
                activePairs == old(activePairs) + {task.value.id}
    {
      var waiting := IdsWithStatus(table, Awaiting);
      if waiting == {} {
        return None;
      }
      LeastExists(waiting);
      var id :| IsLeast(id, waiting);
      var row := table[id];
      table := table[id := Reserve(row, now, identifier)];
      activePairs := activePairs + {id};
      task := Some(TaskOf(row));
      assert OwnedIds(table, identifier) <= OwnedIds(old(table), identifier) + {id};
    }

    /** update_heartbeat: refresh the heartbeat of the row, if this instance owns it in progress. */
    method UpdateHeartbeat(pairId: string, now: int)
      requires Valid()
      modifies this
      ensures Valid()
      ensures if pairId in old(table) && OwnedInProgress(old(table)[pairId], identifier)
              then table == old(table)[pairId := Beat(old(table)[pairId], now)]
              else table == old(table)
      ensures activePairs == old(activePairs)
    {
      if pairId in table && OwnedInProgress(table[pairId], identifier) {
        table := table[pairId := Beat(table[pairId], now)];
        assert OwnedIds(table, identifier) == OwnedIds(old(table), identifier);
      }
    }

    /**
     * update_status: record the decision and completion time, if this
     * instance owns the row in progress, and forget the pair.  Otherwise
     * nothing changes and the result is false.
     */
    method UpdateStatus(pairId: string, decision: Decision, now: int) returns (success: bool)
      requires Valid()
      modifies this
      ensures Valid()
      ensures success <==> pairId in old(table) && OwnedInProgress(old(table)[pairId], identifier)
      ensures success ==> table == old(table)[pairId := Complete(old(table)[pairId], decision, now)] &&
                          activePairs == old(activePairs) - {pairId}
      ensures !success ==> table == old(table) && activePairs == old(activePairs)
    {
      success := pairId in table && OwnedInProgress(table[pairId], identifier);
      if success {
        table := table[pairId := Complete(table[pairId], decision, now)];
        activePairs := activePairs - {pairId};
        assert OwnedIds(table, identifier) == OwnedIds(old(table), identifier) - {pairId};
      }
    }

    /**
     * release_pair: hand the row back to awaiting, if this instance owns it in
     * progress, and forget the pair.  Otherwise nothing changes and the result
     * is false.
     */
    method ReleasePair(pairId: string) returns (success: bool)
      requires Valid()
      modifies this
      ensures Valid()
      ensures success <==> pairId in old(table) && OwnedInProgress(old(table)[pairId], identifier)
      ensures success ==> table == old(table)[pairId := Release(old(table)[pairId])] &&
                          activePairs == old(activePairs) - {pairId}
      ensures !success ==> table == old(table) && activePairs == old(activePairs)
    {
      success := pairId in table && OwnedInProgress(table[pairId], identifier);
      if success {
        table := table[pairId := Release(table[pairId])];
        activePairs := activePairs - {pairId};
        assert OwnedIds(table, identifier) == OwnedIds(old(table), identifier) - {pairId};
      }
    }

    /**
     * cleanup_instance_pairs: when this instance holds pairs, return its
     * in-progress rows to awaiting and forget them all.  Either way no
     * in-progress row is left owned by this instance.
     */
    method CleanupInstancePairs()
      requires Valid()
      modifies this
      ensures Valid()
      ensures old(activePairs) != {} ==> table == ReleaseOwned(old(table), identifier) && activePairs == {}
      ensures old(activePairs) == {} ==> table == old(table) && activePairs == {}
      ensures OwnedIds(table, identifier) == {}
    {
      if activePairs != {} {
        ReleaseClears(table, identifier, 0);
        table := ReleaseOwned(table, identifier);
        activePairs := {};
      }
    }

    /** get_instance_stats: counts by status, distinct owners and the in-progress breakdown by owner. */
    method GetInstanceStats() returns (stats: Stats)
      ensures stats.total == |table|
      ensures |table| == 0 ==> stats.awaiting.None? && stats.inProgress.None? && stats.checked.None?
      ensures |table| > 0 ==>
                stats.awaiting == Some(|IdsWithStatus(table, Awaiting)|) &&
                stats.inProgress == Some(|IdsWithStatus(table, InProgress)|) &&
                stats.checked == Some(|IdsWithStatus(table, Checked)|)
      ensures stats.activeInstances == |Owners(table)|
      ensures stats.breakdown.Keys == WorkingInstances(table)
      ensures forall i :: i in stats.breakdown ==> 0 < stats.breakdown[i] == |OwnedIds(table, i)|
      ensures stats.currentInstance == identifier
    {
      var breakdown := map i | i in WorkingInstances(table) :: |OwnedIds(table, i)|;
      forall i | i in breakdown ensures breakdown[i] > 0 {
        var id :| id in table && table[id].status == InProgress && table[id].instanceId == Some(i);
        assert id in OwnedIds(table, i);
      }
      var sums := if |table| == 0 then (None, None, None)
                  else (Some(|IdsWithStatus(table, Awaiting)|), Some(|IdsWithStatus(table, InProgress)|),
                        Some(|IdsWithStatus(table, Checked)|));
      stats := Stats(|table|, sums.0, sums.1, sums.2, |Owners(table)|, breakdown, identifier);
    }
  }
}
