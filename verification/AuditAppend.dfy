/**
 Appending to the audit trail (backend/app/services/audit_logger.py) by any number of transactions for any
 number of tenants at once. Transactions read the tail, hash and insert in separate steps; only the unique
 index on `(tenant_id, chain_position)` orders them.
 */
module AuditAppend {
  import opened Wrappers
  import opened Text
  import opened AuditTrail
  import opened AuditChain
  import opened AuditEvidence
  import Tables

  /* ---------- One append ---------- */

  /** The rows of a tenant by position, last one highest. */
  function TenantRows(visible: seq<Row>, tenantId: string): seq<Row> {
    Tables.Select(visible, (r: Row) => r.core.tenantId == tenantId, PositionKey)
  }

  /** `_tail`: the hash to link to and the position to take. */
  function Tail(s: Scheme, visible: seq<Row>, tenantId: string): (string, int) {
    var rows := TenantRows(visible, tenantId);
    if rows == [] then (GenesisHash(s, tenantId), 1)
    else (rows[|rows| - 1].thisHash, rows[|rows| - 1].position + 1)
  }

  /** The next row links to the tenant's last one, or to genesis if the tenant has none. */
  lemma TailIsLastRow(s: Scheme, visible: seq<Row>, tenantId: string) returns (last: Option<Row>)
    ensures last.None? ==> && (forall q :: q in visible ==> q.core.tenantId != tenantId)
                           && Tail(s, visible, tenantId) == (GenesisHash(s, tenantId), 1)
    ensures last.Some? ==> && last.value in visible && last.value.core.tenantId == tenantId
                           && (forall q :: q in visible && q.core.tenantId == tenantId ==>
                                 q.position <= last.value.position)
                           && Tail(s, visible, tenantId) == (last.value.thisHash, last.value.position + 1)
  {
    var p := (r: Row) => r.core.tenantId == tenantId;
    var rows := TenantRows(visible, tenantId);
    LastByPosition(visible, p);
    last := if rows == [] then None else Some(rows[|rows| - 1]);
    if rows == [] {
      forall q | q in visible
        ensures !p(q)
      {}
    } else {
      assert IsLast(visible, p, rows[|rows| - 1]);
    }
  }

  /** The row `record_audit_event` builds on what it sees; `None` where hashing raises. */
  function NextRow(s: Scheme, visible: seq<Row>, event: Event, notes: Annotations): Option<Row> {
    var (prev, position) := Tail(s, visible, event.tenantId);
    match ComputeChainHash(s, prev, event)
    case None => None
    case Some(h) => Some(Row(event, notes, prev, h, position))
  }

  /* ---------- The database and its transactions ---------- */

  /**
   A transaction holds rows it has hashed but not inserted yet (`flush=False`) and rows it has inserted but
   not committed. After a failed insert it can only be rolled back.
   */
  datatype Txn =
    | Open(prepared: seq<Row>, flushed: seq<Row>)
    | Broken

  /** `committed` lists rows in the order of their commits. */
  datatype Db = Db(committed: seq<Row>, txns: map<int, Txn>)

  datatype Step =
    | Begin(t: int)
    | Prepare(t: int, seen: nat, event: Event, notes: Annotations)
    | Flush(t: int)
    | Fail(t: int)
    | Commit(t: int)
    | Rollback(t: int)

  const EMPTY: Db := Db([], map[])

  /** The two rows may not both be in the table: identifier, hash, and position within the tenant are unique. */
  predicate SameKey(q: Row, r: Row) {
    || q.core.id == r.core.id
    || q.thisHash == r.thisHash
    || (q.core.tenantId == r.core.tenantId && q.position == r.position)
  }

  predicate KeyTaken(rows: seq<Row>, r: Row) {
    exists i :: 0 <= i < |rows| && SameKey(rows[i], r)
  }

  predicate IsOpen(db: Db, t: int) {
    t in db.txns && db.txns[t].Open?
  }

  /** Another transaction has inserted this key and has not ended yet: the insert waits. */
  ghost predicate KeyHeldByOther(db: Db, t: int, r: Row) {
    exists u :: u != t && IsOpen(db, u) && KeyTaken(db.txns[u].flushed, r)
  }

  /**
   A read sees the transaction's own inserts and some prefix of the commit order: all of it under READ
   COMMITTED, the part before its snapshot under stricter isolation.
   */
  ghost predicate Enabled(db: Db, step: Step) {
    match step
    case Begin(t) => t !in db.txns
    case Prepare(t, seen, event, _) => IsOpen(db, t) && seen <= |db.committed| && ProperEvent(event)
    case Flush(t) => IsOpen(db, t) && db.txns[t].prepared != [] && !KeyHeldByOther(db, t, db.txns[t].prepared[0])
    case Fail(t) => IsOpen(db, t)
    case Commit(t) => IsOpen(db, t) && db.txns[t].prepared == []
    case Rollback(t) => t in db.txns
  }

  ghost function Apply(s: Scheme, db: Db, step: Step): Db
    requires Enabled(db, step)
  {
    match step
    case Begin(t) => db.(txns := db.txns[t := Open([], [])])
    case Prepare(t, seen, event, notes) =>
      var txn := db.txns[t];
      (match NextRow(s, db.committed[..seen] + txn.flushed, event, notes)
       case None => db
       case Some(r) => db.(txns := db.txns[t := Open(txn.prepared + [r], txn.flushed)]))
    case Flush(t) =>
      var txn := db.txns[t];
      var r := txn.prepared[0];
      if KeyTaken(db.committed, r) || KeyTaken(txn.flushed, r) then
        db.(txns := db.txns[t := Broken])
      else
        db.(txns := db.txns[t := Open(txn.prepared[1..], txn.flushed + [r])])
    case Fail(t) => db.(txns := db.txns[t := Broken])
    case Commit(t) => Db(db.committed + db.txns[t].flushed, db.txns - {t})
    case Rollback(t) => db.(txns := db.txns - {t})
  }

  ghost predicate StepAt(s: Scheme, dbs: seq<Db>, steps: seq<Step>, i: nat) {
    && i < |steps| && i + 1 < |dbs|
    && Enabled(dbs[i], steps[i]) && dbs[i + 1] == Apply(s, dbs[i], steps[i])
  }

  ghost predicate Behaviour(s: Scheme, dbs: seq<Db>, steps: seq<Step>) {
    && |dbs| == |steps| + 1 && dbs[0] == EMPTY
    && forall i :: 0 <= i < |steps| ==> StepAt(s, dbs, steps, i)
  }

  /* ---------- The invariant ---------- */

  /** `r` hashes its own content and links to genesis or to a row of `base` just before it. */
  ghost predicate GoodRow(s: Scheme, r: Row, base: seq<Row>) {
    && HashIsCorrect(s, r) && ProperEvent(r.core) && r.position >= 1
    && (r.position == 1 ==> r.prevHash == GenesisHash(s, r.core.tenantId))
    && (r.position != 1 ==> HasPredecessor(base, r, 1))
  }

  ghost predicate GoodRows(s: Scheme, rows: seq<Row>, base: seq<Row>) {
    forall r :: r in rows ==> GoodRow(s, r, base)
  }

  ghost predicate KeysApart(q: seq<Row>, r: seq<Row>) {
    forall x, y :: x in q && y in r ==> !SameKey(x, y)
  }

  ghost predicate GoodTxn(s: Scheme, committed: seq<Row>, txn: Txn) {
    txn.Open? ==>
      && GoodRows(s, txn.flushed, committed + txn.flushed)
      && GoodRows(s, txn.prepared, committed + txn.flushed)
      && UniqueIndex(txn.flushed) && KeysApart(committed, txn.flushed)
  }

  ghost predicate TxnsApart(db: Db, t: int, u: int)
    requires IsOpen(db, t) && IsOpen(db, u)
  {
    KeysApart(db.txns[t].flushed, db.txns[u].flushed)
  }

  ghost predicate GoodCommitted(s: Scheme, committed: seq<Row>) {
    UniqueIndex(committed) && GoodRows(s, committed, committed)
  }

  ghost predicate AllApart(db: Db) {
    forall t, u :: t != u && IsOpen(db, t) && IsOpen(db, u) ==> TxnsApart(db, t, u)
  }

  ghost predicate Inv(s: Scheme, db: Db) {
    && GoodCommitted(s, db.committed)
    && (forall t :: t in db.txns ==> GoodTxn(s, db.committed, db.txns[t]))
    && AllApart(db)
  }

  lemma GoodRowsGrow(s: Scheme, rows: seq<Row>, base: seq<Row>, wider: seq<Row>)
    requires GoodRows(s, rows, base)
    requires forall q :: q in base ==> q in wider
    ensures GoodRows(s, rows, wider)
  {
    forall r | r in rows
      ensures GoodRow(s, r, wider)
    {
      assert GoodRow(s, r, base);
      if r.position != 1 {
        var q :| q in base && IsPredecessor(q, r, 1);
        assert q in wider;
      }
    }
  }

  lemma LastOfTenant(visible: seq<Row>, t: string)
    requires TenantRows(visible, t) != []
    ensures var rows := TenantRows(visible, t);
            rows[|rows| - 1] in visible && rows[|rows| - 1].core.tenantId == t
  {
    var rows := TenantRows(visible, t);
    Tables.SelectKeeps(visible, (x: Row) => x.core.tenantId == t, PositionKey, rows[|rows| - 1]);
  }

  lemma NextRowHashes(s: Scheme, visible: seq<Row>, event: Event, notes: Annotations)
    requires NextRow(s, visible, event, notes).Some?
    ensures var r := NextRow(s, visible, event, notes).value;
            r.core == event && HashIsCorrect(s, r) && (r.prevHash, r.position) == Tail(s, visible, event.tenantId)
  {}

  /** The row an append builds is good with respect to what it saw. */
  lemma NextRowIsGood(s: Scheme, visible: seq<Row>, event: Event, notes: Annotations, base: seq<Row>)
    requires ProperEvent(event) && NextRow(s, visible, event, notes).Some?
    requires GoodRows(s, visible, base) && forall q :: q in visible ==> q in base
    ensures GoodRow(s, NextRow(s, visible, event, notes).value, base)
  {
    NextRowHashes(s, visible, event, notes);
    GoodNext(s, visible, base, NextRow(s, visible, event, notes).value);
  }

  lemma GoodNext(s: Scheme, visible: seq<Row>, base: seq<Row>, r: Row)
    requires GoodRows(s, visible, base) && forall q :: q in visible ==> q in base
    requires HashIsCorrect(s, r) && ProperEvent(r.core)
    requires (r.prevHash, r.position) == Tail(s, visible, r.core.tenantId)
    ensures GoodRow(s, r, base)
  {
    var rows := TenantRows(visible, r.core.tenantId);
    if rows != [] {
      var q := rows[|rows| - 1];
      LastOfTenant(visible, r.core.tenantId);
      assert GoodRow(s, q, base);
      assert IsPredecessor(q, r, 1);
    }
  }

  lemma PreparedIsGood(s: Scheme, committed: seq<Row>, txn: Txn, seen: nat, event: Event, notes: Annotations)
    requires GoodCommitted(s, committed) && txn.Open? && GoodTxn(s, committed, txn)
    requires ProperEvent(event) && seen <= |committed|
    requires NextRow(s, committed[..seen] + txn.flushed, event, notes).Some?
    ensures var r := NextRow(s, committed[..seen] + txn.flushed, event, notes).value;
            GoodTxn(s, committed, Open(txn.prepared + [r], txn.flushed))
  {
    var visible, base := committed[..seen] + txn.flushed, committed + txn.flushed;
    GoodRowsGrow(s, committed, committed, base);
    assert GoodRows(s, visible, base);
    NextRowIsGood(s, visible, event, notes, base);
  }

  lemma PrepareKeepsInv(s: Scheme, db: Db, step: Step)
    requires Inv(s, db) && Enabled(db, step) && step.Prepare?
    ensures Inv(s, Apply(s, db, step))
  {
    var t, txn := step.t, db.txns[step.t];
    var next := NextRow(s, db.committed[..step.seen] + txn.flushed, step.event, step.notes);
    if next.Some? {
      PreparedIsGood(s, db.committed, txn, step.seen, step.event, step.notes);
      forall u | u != t && IsOpen(db, u)
        ensures KeysApart(txn.flushed, db.txns[u].flushed)
      {
        assert TxnsApart(db, t, u);
      }
      TxnChangeKeepsInv(s, db, t, Open(txn.prepared + [next.value], txn.flushed));
    }
  }

  ghost predicate ApartFromOthers(db: Db, t: int, txn: Txn) {
    txn.Open? ==> forall u :: u != t && IsOpen(db, u) ==> KeysApart(txn.flushed, db.txns[u].flushed)
  }

  lemma ChangeKeepsApart(db: Db, t: int, txn: Txn)
    requires AllApart(db) && ApartFromOthers(db, t, txn)
    ensures AllApart(db.(txns := db.txns[t := txn]))
  {
    var after := db.(txns := db.txns[t := txn]);
    forall v, u | v != u && IsOpen(after, v) && IsOpen(after, u)
      ensures TxnsApart(after, v, u)
    {
      if v != t && u != t {
        assert TxnsApart(db, v, u);
      } else if v == t {
        assert KeysApart(txn.flushed, db.txns[u].flushed);
      } else {
        assert KeysApart(txn.flushed, db.txns[v].flushed);
      }
    }
  }

  /** Replacing one transaction by a good one whose inserts clash with nobody's keeps the invariant. */
  lemma TxnChangeKeepsInv(s: Scheme, db: Db, t: int, txn: Txn)
    requires Inv(s, db) && GoodTxn(s, db.committed, txn) && ApartFromOthers(db, t, txn)
    ensures Inv(s, db.(txns := db.txns[t := txn]))
  {
    ChangeKeepsApart(db, t, txn);
  }

  lemma FlushKeepsInv(s: Scheme, db: Db, step: Step)
    requires Inv(s, db) && Enabled(db, step) && step.Flush?
    ensures Inv(s, Apply(s, db, step))
  {
    var t, txn := step.t, db.txns[step.t];
    var r := txn.prepared[0];
    assert GoodTxn(s, db.committed, txn);
    if KeyTaken(db.committed, r) || KeyTaken(txn.flushed, r) {
      TxnChangeKeepsInv(s, db, t, Broken);
    } else {
      var next := Open(txn.prepared[1..], txn.flushed + [r]);
      var base := db.committed + txn.flushed;
      assert r in txn.prepared;
      assert GoodRows(s, next.flushed, base);
      GoodRowsGrow(s, next.flushed, base, db.committed + next.flushed);
      GoodRowsGrow(s, next.prepared, base, db.committed + next.flushed);
      FlushedApart(db.committed, txn.flushed, r);
      forall u | u != t && IsOpen(db, u)
        ensures KeysApart(next.flushed, db.txns[u].flushed)
      {
        assert TxnsApart(db, t, u);
        OthersApart(db, t, u, r);
      }
      TxnChangeKeepsInv(s, db, t, next);
    }
  }

  lemma FlushedApart(committed: seq<Row>, flushed: seq<Row>, r: Row)
    requires UniqueIndex(flushed) && KeysApart(committed, flushed)
    requires !KeyTaken(committed, r) && !KeyTaken(flushed, r)
    ensures UniqueIndex(flushed + [r]) && KeysApart(committed, flushed + [r])
  {
    var after := flushed + [r];
    forall i, j | 0 <= i < j < |after|
      ensures after[i].core.tenantId != after[j].core.tenantId || after[i].position != after[j].position
    {
      if j == |flushed| {
        assert !SameKey(flushed[i], r);
      }
    }
    forall x, y | x in committed && y in after
      ensures !SameKey(x, y)
    {
      if y == r {
        var i :| 0 <= i < |committed| && committed[i] == x;
        assert !SameKey(committed[i], r);
      }
    }
  }

  lemma OthersApart(db: Db, t: int, u: int, r: Row)
    requires u != t && IsOpen(db, t) && IsOpen(db, u) && TxnsApart(db, t, u)
    requires !KeyHeldByOther(db, t, r)
    ensures KeysApart(db.txns[t].flushed + [r], db.txns[u].flushed)
  {
    var other := db.txns[u].flushed;
    assert !KeyTaken(other, r);
    forall x, y | x in db.txns[t].flushed + [r] && y in other
      ensures !SameKey(x, y)
    {
      if x == r {
        var i :| 0 <= i < |other| && other[i] == y;
        assert !SameKey(other[i], r);
      }
    }
  }

  lemma CommitKeepsInv(s: Scheme, db: Db, step: Step)
    requires Inv(s, db) && Enabled(db, step) && step.Commit?
    ensures Inv(s, Apply(s, db, step))
  {
    var t, txn := step.t, db.txns[step.t];
    var after := Apply(s, db, step);
    assert GoodTxn(s, db.committed, txn);
    ConcatUnique(db.committed, txn.flushed);
    GoodRowsGrow(s, db.committed, db.committed, after.committed);
    assert GoodRows(s, after.committed, after.committed);
    forall u | u in after.txns
      ensures GoodTxn(s, after.committed, after.txns[u])
    {
      var other := db.txns[u];
      assert GoodTxn(s, db.committed, other);
      if other.Open? {
        GoodRowsGrow(s, other.flushed, db.committed + other.flushed, after.committed + other.flushed);
        GoodRowsGrow(s, other.prepared, db.committed + other.flushed, after.committed + other.flushed);
        assert TxnsApart(db, t, u);
        assert KeysApart(after.committed, other.flushed);
      }
    }
    forall v, u | v != u && IsOpen(after, v) && IsOpen(after, u)
      ensures TxnsApart(after, v, u)
    {
      assert TxnsApart(db, v, u);
    }
  }

  lemma ConcatUnique(q: seq<Row>, r: seq<Row>)
    requires UniqueIndex(q) && UniqueIndex(r) && KeysApart(q, r)
    ensures UniqueIndex(q + r)
  {
    var w := q + r;
    forall i, j | 0 <= i < j < |w|
      ensures w[i].core.tenantId != w[j].core.tenantId || w[i].position != w[j].position
    {
      if i < |q| <= j {
        assert w[i] in q && w[j] in r;
        assert !SameKey(w[i], w[j]);
      }
    }
  }

  lemma StepKeepsInv(s: Scheme, db: Db, step: Step)
    requires Inv(s, db) && Enabled(db, step)
    ensures Inv(s, Apply(s, db, step))
  {
    match step
    case Begin(t) => TxnChangeKeepsInv(s, db, t, Open([], []));
    case Prepare(_, _, _, _) => PrepareKeepsInv(s, db, step);
    case Flush(_) => FlushKeepsInv(s, db, step);
    case Fail(t) => TxnChangeKeepsInv(s, db, t, Broken);
    case Commit(_) => CommitKeepsInv(s, db, step);
    case Rollback(t) =>
      var after := Apply(s, db, step);
      forall v, u | v != u && IsOpen(after, v) && IsOpen(after, u)
        ensures TxnsApart(after, v, u)
      {
        assert TxnsApart(db, v, u);
      }
  }

  lemma {:induction false} InvHolds(s: Scheme, dbs: seq<Db>, steps: seq<Step>, n: nat)
    requires Behaviour(s, dbs, steps) && n < |dbs|
    ensures Inv(s, dbs[n])
  {
    if n > 0 {
      InvHolds(s, dbs, steps, n - 1);
      assert StepAt(s, dbs, steps, n - 1);
      StepKeepsInv(s, dbs[n - 1], steps[n - 1]);
    }
  }

  /* ---------- What holds in every reachable state ---------- */

  lemma GoodTableIsIntact(s: Scheme, table: seq<Row>, tenantId: string)
    requires GoodCommitted(s, table)
    ensures Intact(s, table, tenantId, 1, None)
  {
    forall r | r in table && Within(r, tenantId, 1, None)
      ensures IntactRow(s, table, tenantId, 1, r)
    {
      assert GoodRow(s, r, table);
    }
  }

  /** All rows of the tenant lie in the window from position 1. */
  lemma TenantWindow(s: Scheme, table: seq<Row>, tenantId: string)
    requires GoodCommitted(s, table)
    ensures IsWindow(table, tenantId, 1, None, TenantRows(table, tenantId))
    ensures WindowRows(table, tenantId, 1, None) == TenantRows(table, tenantId)
  {
    var p := (r: Row) => r.core.tenantId == tenantId;
    var rows := Tables.Select(table, p, PositionKey);
    UniqueWithin(table, p, tenantId);
    Tables.SelectStrict(table, p, PositionKey);
    forall i, j | 0 <= i < j < |rows|
      ensures rows[i].position < rows[j].position
    {
      PositionOrder(rows[i], rows[j]);
    }
    forall r
      ensures r in rows <==> r in table && Within(r, tenantId, 1, None)
    {
      Tables.SelectKeeps(table, p, PositionKey, r);
      if r in table {
        assert GoodRow(s, r, table);
      }
    }
    WindowIs(table, tenantId, 1, None, rows);
  }

  lemma GoodTableVerifies(s: Scheme, table: seq<Row>, tenantId: string)
    requires GoodCommitted(s, table)
    ensures VerifiesCleanly(s, table, tenantId, 1, None)
    ensures Linked(s, GenesisHash(s, tenantId), 1, TenantRows(table, tenantId))
  {
    GoodTableIsIntact(s, table, tenantId);
    CleanMeansIntact(s, table, tenantId, 1, None);
    TenantWindow(s, table, tenantId);
    QuietMeansLinked(s, GenesisHash(s, tenantId), 1, TenantRows(table, tenantId));
  }

  /**
   In every interleaving, including aborts and appends that lose the race for a position, each tenant's
   committed rows, all of them, sit at positions 1 to n, start from the tenant's genesis hash, link one to
   the next and carry correct hashes, and the verifier finds them clean.
   */
  lemma EveryStateVerifies(s: Scheme, dbs: seq<Db>, steps: seq<Step>, n: nat, tenantId: string)
    requires Behaviour(s, dbs, steps) && n < |dbs|
    ensures UniqueIndex(dbs[n].committed) && ProperTable(dbs[n].committed)
    ensures Linked(s, GenesisHash(s, tenantId), 1, TenantRows(dbs[n].committed, tenantId))
    ensures VerifiesCleanly(s, dbs[n].committed, tenantId, 1, None)
  {
    InvHolds(s, dbs, steps, n);
    GoodTableVerifies(s, dbs[n].committed, tenantId);
    forall r | r in dbs[n].committed
      ensures ProperEvent(r.core)
    {
      assert GoodRow(s, r, dbs[n].committed);
    }
  }

  /** The log only grows, and a commit adds exactly the rows its transaction inserted. */
  lemma {:induction false} CommittedOnlyGrows(s: Scheme, dbs: seq<Db>, steps: seq<Step>, m: nat, n: nat)
    requires Behaviour(s, dbs, steps) && m <= n < |dbs|
    ensures dbs[m].committed <= dbs[n].committed
  {
    if m < n {
      CommittedOnlyGrows(s, dbs, steps, m, n - 1);
      var i := n - 1;
      assert StepAt(s, dbs, steps, i);
    }
  }

  /* ---------- A table nobody else writes to ---------- */

  /** What an append inserts: nothing where hashing raises or a unique column clashes. */
  function Appended(s: Scheme, table: seq<Row>, event: Event, notes: Annotations): Option<Row> {
    match NextRow(s, table, event, notes)
    case None => None
    case Some(r) => if KeyTaken(table, r) then None else Some(r)
  }

  /** No row of the tenant lies beyond the last one. */
  lemma NextPositionIsFree(s: Scheme, table: seq<Row>, t: string, rows: seq<Row>, i: nat)
    requires IsWindow(table, t, 1, None, rows) && Linked(s, GenesisHash(s, t), 1, rows)
    requires i < |table| && table[i].core.tenantId == t && table[i].position >= 1
    ensures table[i].position <= |rows|
  {
    assert Within(table[i], t, 1, None);
    assert table[i] in rows;
    var j :| 0 <= j < |rows| && rows[j] == table[i];
    LinkedInSequence(s, GenesisHash(s, t), 1, rows, j);
  }

  /** What is read for the next row: a hash that can be decoded, and the position after the last. */
  lemma TailOfGoodTable(s: Scheme, table: seq<Row>, t: string)
    requires GoodCommitted(s, table)
    ensures FromHex(Tail(s, table, t).0).Some? && Tail(s, table, t).1 == |TenantRows(table, t)| + 1
  {
    GoodTableVerifies(s, table, t);
    TailIsHash(s, t, TenantRows(table, t));
    var prev := Tail(s, table, t).0;
    var d: Digest :| prev == Hex(d);
    FromHexOfHex(d);
  }

  predicate IdTaken(table: seq<Row>, id: string) {
    exists i :: 0 <= i < |table| && table[i].core.id == id
  }

  predicate HashTaken(table: seq<Row>, hash: string) {
    exists i :: 0 <= i < |table| && table[i].thisHash == hash
  }

  /** The core encodes, and the identifier and the hash of the next row are not in the table. */
  predicate CanAppend(s: Scheme, table: seq<Row>, event: Event, notes: Annotations) {
    && Encodes(s, event) && !IdTaken(table, event.id)
    && var next := NextRow(s, table, event, notes); next.Some? ==> !HashTaken(table, next.value.thisHash)
  }

  lemma PositionIsFree(s: Scheme, table: seq<Row>, event: Event, notes: Annotations, i: nat)
    requires GoodCommitted(s, table) && NextRow(s, table, event, notes).Some? && i < |table|
    ensures table[i].core.tenantId == event.tenantId ==>
              table[i].position != NextRow(s, table, event, notes).value.position
  {
    var t := event.tenantId;
    if table[i].core.tenantId == t {
      GoodTableVerifies(s, table, t);
      TenantWindow(s, table, t);
      TailOfGoodTable(s, table, t);
      assert GoodRow(s, table[i], table);
      NextPositionIsFree(s, table, t, TenantRows(table, t), i);
    }
  }

  /**
   Without a race an append succeeds, right after the tenant's last row, if and only if its core encodes and
   neither its identifier nor its hash is in the table.
   */
  lemma AloneAppends(s: Scheme, table: seq<Row>, event: Event, notes: Annotations)
    requires GoodCommitted(s, table)
    ensures NextRow(s, table, event, notes).Some? <==> Encodes(s, event)
    ensures Appended(s, table, event, notes).Some? <==> CanAppend(s, table, event, notes)
    ensures Encodes(s, event) ==>
              NextRow(s, table, event, notes).value.position == |TenantRows(table, event.tenantId)| + 1
  {
    TailOfGoodTable(s, table, event.tenantId);
    if Encodes(s, event) {
      var r := NextRow(s, table, event, notes).value;
      forall i | 0 <= i < |table|
        ensures SameKey(table[i], r) <==> table[i].core.id == event.id || table[i].thisHash == r.thisHash
      {
        PositionIsFree(s, table, event, notes, i);
      }
    }
  }

  lemma LinkIsHash(s: Scheme, table: seq<Row>, q: Row)
    requires GoodCommitted(s, table) && q in table
    ensures IsHash(q.prevHash)
  {
    assert GoodRow(s, q, table);
    if q.position != 1 {
      var p :| p in table && IsPredecessor(p, q, 1);
      assert GoodRow(s, p, table);
      CorrectHash(s, p);
    }
  }

  /** A fresh event whose hash is in the table already has made SHA-256 collide. */
  lemma TakenHashCollides(s: Scheme, table: seq<Row>, event: Event, notes: Annotations) returns (q: Row)
    requires Canonical(s) && GoodCommitted(s, table) && ProperEvent(event) && Encodes(s, event)
    requires !IdTaken(table, event.id) && NextRow(s, table, event, notes).Some?
    requires HashTaken(table, NextRow(s, table, event, notes).value.thisHash)
    ensures q in table && Collision(s, RowPreimage(s, q), RowPreimage(s, NextRow(s, table, event, notes).value))
  {
    var r := NextRow(s, table, event, notes).value;
    var i :| 0 <= i < |table| && table[i].thisHash == r.thisHash;
    q := table[i];
    assert GoodRow(s, q, table);
    NextRowIsGood(s, table, event, notes, table);
    LinkIsHash(s, table, q);
    GoodTableVerifies(s, table, event.tenantId);
    TailIsHash(s, event.tenantId, TenantRows(table, event.tenantId));
    SameHashSameRow(s, q, r);
  }

  lemma TailIsHash(s: Scheme, t: string, rows: seq<Row>)
    requires Linked(s, GenesisHash(s, t), 1, rows)
    ensures rows == [] ==> IsHash(GenesisHash(s, t))
    ensures rows != [] ==> IsHash(rows[|rows| - 1].thisHash) && rows[|rows| - 1].position == |rows|
  {
    if rows != [] {
      LinkedInSequence(s, GenesisHash(s, t), 1, rows, |rows| - 1);
      CorrectHash(s, rows[|rows| - 1]);
    }
  }

  /** The table stays good, with every tenant's chain in it. */
  lemma AppendKeepsGood(s: Scheme, table: seq<Row>, event: Event, notes: Annotations)
    requires GoodCommitted(s, table) && ProperEvent(event)
    requires Appended(s, table, event, notes).Some?
    ensures GoodCommitted(s, table + [Appended(s, table, event, notes).value])
  {
    var r := Appended(s, table, event, notes).value;
    NextRowIsGood(s, table, event, notes, table);
    FlushedApart([], table, r);
    assert GoodRows(s, table + [r], table);
    GoodRowsGrow(s, table + [r], table, table + [r]);
  }
}
