/**
 Exporting a tenant's `audit_logs` rows page by page (backend/app/services/audit_export_service.py). Every
 page is a fresh query, so the table may change between pages.
 */
module AuditExport {
  import opened Wrappers
  import opened Json
  import opened Text
  import opened Calendar
  import KeyedSort
  import Lex
  import Tables

  /** A row of `audit_logs`; `metadata` is what its JSON column holds, `Null` for no value. */
  datatype Log = Log(
    id: string,
    tenantId: Option<string>,
    actorUserId: Option<string>,
    action: string,
    resourceType: string,
    resourceId: Option<string>,
    metadata: Json,
    ipAddress: Option<string>,
    occurredAt: Utc)

  /** `ORDER BY occurred_at, id` */
  function LogKey(r: Log): seq<int> {
    InstantKey(r.occurredAt) + Codes(r.id)
  }

  ghost predicate UniqueIds(table: seq<Log>) {
    forall i, j :: 0 <= i < j < |table| ==> table[i].id != table[j].id
  }

  /** What the export is asked for: one tenant, from `start`, inclusive, to `end`, exclusive. */
  datatype Request = Request(tenantId: string, start: Utc, end: Utc)

  predicate Wanted(q: Request, r: Log) {
    r.tenantId == Some(q.tenantId) && !Before(r.occurredAt, q.start) && Before(r.occurredAt, q.end)
  }

  datatype Cursor = Start | After(lastAt: Utc, lastId: string)

  /** The keyset condition of the next page. */
  predicate Beyond(c: Cursor, r: Log) {
    match c
    case Start => true
    case After(at, id) => Before(at, r.occurredAt) || (r.occurredAt == at && Lex.Less(Codes(id), Codes(r.id)))
  }

  function Matching(table: seq<Log>, q: Request, c: Cursor): seq<Log> {
    Tables.Select(table, (r: Log) => Wanted(q, r) && Beyond(c, r), LogKey)
  }

  function Page(table: seq<Log>, q: Request, c: Cursor, size: nat): seq<Log> {
    var rows := Matching(table, q, c);
    if |rows| <= size then rows else rows[..size]
  }

  /* ---------- One page ---------- */

  lemma UniqueIdsUniqueKeys(table: seq<Log>, p: Log -> bool)
    requires UniqueIds(table)
    ensures Tables.UniqueOn(table, p, LogKey)
  {
    forall i, j | 0 <= i < j < |table|
      ensures LogKey(table[i]) != LogKey(table[j])
    {
      LogKeyGivesId(table[i], table[j]);
    }
  }

  lemma LogKeyGivesId(r: Log, t: Log)
    ensures LogKey(r) == LogKey(t) ==> r.id == t.id && r.occurredAt == t.occurredAt
  {
    if LogKey(r) == LogKey(t) {
      assert LogKey(r)[7..] == Codes(r.id) && LogKey(t)[7..] == Codes(t.id);
      assert LogKey(r)[..7] == InstantKey(r.occurredAt) && LogKey(t)[..7] == InstantKey(t.occurredAt);
      CodesInjective(r.id, t.id);
      InstantKeyInjective(r.occurredAt, t.occurredAt);
    }
  }

  lemma MatchingHolds(table: seq<Log>, q: Request, c: Cursor, r: Log)
    ensures r in Matching(table, q, c) <==> r in table && Wanted(q, r) && Beyond(c, r)
  {
    Tables.SelectKeeps(table, (x: Log) => Wanted(q, x) && Beyond(c, x), LogKey, r);
  }

  lemma MatchingAscends(table: seq<Log>, q: Request, c: Cursor)
    requires UniqueIds(table)
    ensures KeyedSort.StrictlyAscending(Matching(table, q, c), LogKey)
  {
    var p := (x: Log) => Wanted(q, x) && Beyond(c, x);
    UniqueIdsUniqueKeys(table, p);
    Tables.SelectStrict(table, p, LogKey);
  }

  /** The keyset condition is the order of the export. */
  lemma BeyondIsAfter(last: Log, r: Log)
    ensures Beyond(After(last.occurredAt, last.id), r) <==> Lex.Less(LogKey(last), LogKey(r))
  {
    Lex.EqualLengthPrefix(InstantKey(last.occurredAt), InstantKey(r.occurredAt), Codes(last.id), Codes(r.id));
    if InstantKey(last.occurredAt) == InstantKey(r.occurredAt) {
      InstantKeyInjective(last.occurredAt, r.occurredAt);
    }
  }

  /** A matching row that the page leaves out comes after the page's last row, and the page is full. */
  lemma LeftOutComesLater(table: seq<Log>, q: Request, c: Cursor, size: nat, r: Log)
    requires UniqueIds(table) && size >= 1
    requires r in Matching(table, q, c) && r !in Page(table, q, c, size)
    ensures var page := Page(table, q, c, size);
            |page| == size && Lex.Less(LogKey(page[size - 1]), LogKey(r))
  {
    MatchingAscends(table, q, c);
    var rows := Matching(table, q, c);
    var i :| 0 <= i < |rows| && rows[i] == r;
    assert size < |rows|;
    forall j | 0 <= j < size
      ensures rows[j] != r
    {
      assert rows[..size][j] == rows[j];
    }
  }

  /* ---------- What a run of the export guarantees ---------- */

  /** The rows put out so far end at the cursor. */
  ghost predicate AtCursor(out: seq<Log>, c: Cursor) {
    if out == [] then c == Start
    else c == After(out[|out| - 1].occurredAt, out[|out| - 1].id)
  }

  ghost predicate SeenIn(snapshots: seq<seq<Log>>, used: nat, r: Log)
    requires used <= |snapshots|
  {
    exists k :: 0 <= k < used && r in snapshots[k]
  }

  ghost predicate PresentThroughout(snapshots: seq<seq<Log>>, used: nat, r: Log)
    requires used <= |snapshots|
  {
    forall k :: 0 <= k < used ==> r in snapshots[k]
  }

  /**
   `out` after `used` queries, of which query `k` saw the table `snapshots[k]`: strictly ascending, so
   without duplicates; only wanted rows that were there; and every wanted row that was there all along, up to
   the last row put out while the export is under way, and without exception once it has finished.
   */
  ghost predicate Exported(snapshots: seq<seq<Log>>, used: nat, q: Request, size: nat, out: seq<Log>, finished: bool) {
    && used <= |snapshots|
    && KeyedSort.StrictlyAscending(out, LogKey)
    && (forall r :: r in out ==> WantedAndSeen(snapshots, used, q, r))
    && (forall r :: MayBeMissing(snapshots, used, q, out, finished, r))
    && (!finished ==> |out| == used * size)
  }

  ghost predicate WantedAndSeen(snapshots: seq<seq<Log>>, used: nat, q: Request, r: Log)
    requires used <= |snapshots|
  {
    Wanted(q, r) && SeenIn(snapshots, used, r)
  }

  /** The row is out, or it need not be. */
  ghost predicate MayBeMissing(snapshots: seq<seq<Log>>, used: nat, q: Request, out: seq<Log>, finished: bool, r: Log)
    requires used <= |snapshots|
  {
    Wanted(q, r) && PresentThroughout(snapshots, used, r) && r !in out ==> !finished && ComesAfter(out, r)
  }

  ghost predicate ComesAfter(out: seq<Log>, r: Log) {
    out != [] ==> Lex.Less(LogKey(out[|out| - 1]), LogKey(r))
  }

  lemma PageBeyond(table: seq<Log>, q: Request, c: Cursor, size: nat, out: seq<Log>)
    requires UniqueIds(table) && AtCursor(out, c) && KeyedSort.StrictlyAscending(out, LogKey)
    ensures KeyedSort.StrictlyAscending(out + Page(table, q, c, size), LogKey)
  {
    var page := Page(table, q, c, size);
    MatchingAscends(table, q, c);
    assert KeyedSort.StrictlyAscending(page, LogKey);
    var w := out + page;
    forall i, j | 0 <= i < j < |w|
      ensures Lex.Less(LogKey(w[i]), LogKey(w[j]))
    {
      if i < |out| <= j {
        var last := out[|out| - 1];
        PageRow(table, q, c, size, page[j - |out|]);
        BeyondIsAfter(last, w[j]);
        if i < |out| - 1 {
          Lex.Transitive(LogKey(w[i]), LogKey(last), LogKey(w[j]));
        }
      }
    }
  }

  lemma PageRow(table: seq<Log>, q: Request, c: Cursor, size: nat, r: Log)
    requires r in Page(table, q, c, size)
    ensures r in Matching(table, q, c) && r in table && Wanted(q, r) && Beyond(c, r)
  {
    MatchingHolds(table, q, c, r);
  }

  lemma OnlyWantedRows(snapshots: seq<seq<Log>>, used: nat, q: Request, size: nat, out: seq<Log>, c: Cursor, r: Log)
    requires used < |snapshots| && Exported(snapshots, used, q, size, out, false)
    requires r in out + Page(snapshots[used], q, c, size)
    ensures WantedAndSeen(snapshots, used + 1, q, r)
  {
    if r in out {
      assert WantedAndSeen(snapshots, used, q, r) && SeenIn(snapshots, used, r);
    } else {
      PageRow(snapshots[used], q, c, size, r);
    }
  }

  lemma ExportGrows(snapshots: seq<seq<Log>>, used: nat, q: Request, size: nat, out: seq<Log>, c: Cursor,
                    finished: bool)
    requires used < |snapshots| && UniqueIds(snapshots[used]) && size >= 1
    requires Exported(snapshots, used, q, size, out, false) && AtCursor(out, c)
    requires finished <==> |Page(snapshots[used], q, c, size)| < size
    ensures Exported(snapshots, used + 1, q, size, out + Page(snapshots[used], q, c, size), finished)
  {
    var page := Page(snapshots[used], q, c, size);
    var after, next := out + page, used + 1;
    PageBeyond(snapshots[used], q, c, size, out);
    forall r | r in after
      ensures WantedAndSeen(snapshots, used + 1, q, r)
    {
      OnlyWantedRows(snapshots, used, q, size, out, c, r);
    }
    forall r
      ensures MayBeMissing(snapshots, next, q, after, finished, r)
    {
      StillMissing(snapshots, used, q, size, out, c, finished, r);
    }
  }

  lemma StillMissing(snapshots: seq<seq<Log>>, used: nat, q: Request, size: nat, out: seq<Log>, c: Cursor,
                     finished: bool, r: Log)
    requires used < |snapshots| && UniqueIds(snapshots[used]) && size >= 1
    requires Exported(snapshots, used, q, size, out, false) && AtCursor(out, c)
    requires finished <==> |Page(snapshots[used], q, c, size)| < size
    ensures MayBeMissing(snapshots, used + 1, q, out + Page(snapshots[used], q, c, size), finished, r)
  {
    var page := Page(snapshots[used], q, c, size);
    var after := out + page;
    if Wanted(q, r) && PresentThroughout(snapshots, used + 1, r) && r !in after {
      NotYetOut(snapshots, used, q, size, out, c, r);
      assert after[|after| - 1] == page[size - 1];
    }
  }

  lemma NotYetOut(snapshots: seq<seq<Log>>, used: nat, q: Request, size: nat, out: seq<Log>, c: Cursor, r: Log)
    requires used < |snapshots| && UniqueIds(snapshots[used]) && size >= 1
    requires Exported(snapshots, used, q, size, out, false) && AtCursor(out, c)
    requires Wanted(q, r) && PresentThroughout(snapshots, used + 1, r)
    requires r !in out && r !in Page(snapshots[used], q, c, size)
    ensures var page := Page(snapshots[used], q, c, size);
            |page| == size && Lex.Less(LogKey(page[size - 1]), LogKey(r))
  {
    assert PresentThroughout(snapshots, used, r);
    assert r in snapshots[used];
    assert MayBeMissing(snapshots, used, q, out, false, r);
    if out != [] {
      BeyondIsAfter(out[|out| - 1], r);
    }
    MatchingHolds(snapshots[used], q, c, r);
    LeftOutComesLater(snapshots[used], q, c, size, r);
  }

  lemma NothingOut(snapshots: seq<seq<Log>>, q: Request, size: nat)
    ensures Exported(snapshots, 0, q, size, [], false)
  {
    assert forall r :: MayBeMissing(snapshots, 0, q, [], false, r);
  }

  /** The next page leaves the cursor at its last row. */
  lemma CursorMoves(out: seq<Log>, rows: seq<Log>)
    requires rows != []
    ensures AtCursor(out + rows, After(rows[|rows| - 1].occurredAt, rows[|rows| - 1].id))
  {}

  /** The row is the tenant's and lies in the window. */
  predicate InRange(q: Request, r: Log) {
    r.tenantId == Some(q.tenantId) && (r.occurredAt == q.start || Before(q.start, r.occurredAt)) &&
    Before(r.occurredAt, q.end)
  }

  lemma WantedIsInRange(q: Request, r: Log)
    ensures Wanted(q, r) <==> InRange(q, r)
  {
    Lex.Total(InstantKey(q.start), InstantKey(r.occurredAt));
    if InstantKey(q.start) == InstantKey(r.occurredAt) {
      InstantKeyInjective(q.start, r.occurredAt);
    }
    Lex.Irreflexive(InstantKey(q.start));
    if Before(q.start, r.occurredAt) {
      Lex.Asymmetric(InstantKey(q.start), InstantKey(r.occurredAt));
    }
  }

  /** By time, and by identifier at one time. */
  predicate IsEarlier(r: Log, t: Log) {
    Before(r.occurredAt, t.occurredAt) || (r.occurredAt == t.occurredAt && Lex.Less(Codes(r.id), Codes(t.id)))
  }

  lemma KeyOrder(r: Log, t: Log)
    ensures Lex.Less(LogKey(r), LogKey(t)) <==> IsEarlier(r, t)
  {
    BeyondIsAfter(r, t);
  }

  /** What an export promises, row by row. */
  lemma ExportedRows(snapshots: seq<seq<Log>>, used: nat, q: Request, size: nat, out: seq<Log>, finished: bool)
    requires Exported(snapshots, used, q, size, out, finished)
    ensures forall i, j :: 0 <= i < j < |out| ==> IsEarlier(out[i], out[j])
    ensures forall r :: r in out ==> InRange(q, r) && exists k :: 0 <= k < used && r in snapshots[k]
    ensures finished ==> forall r :: InRange(q, r) && PresentThroughout(snapshots, used, r) ==> r in out
  {
    forall i, j | 0 <= i < j < |out|
      ensures IsEarlier(out[i], out[j])
    {
      KeyOrder(out[i], out[j]);
    }
    forall r | r in out
      ensures InRange(q, r) && exists k :: 0 <= k < used && r in snapshots[k]
    {
      assert WantedAndSeen(snapshots, used, q, r) && SeenIn(snapshots, used, r);
      WantedIsInRange(q, r);
    }
    forall r | InRange(q, r) && PresentThroughout(snapshots, used, r)
      ensures finished ==> r in out
    {
      WantedIsInRange(q, r);
      assert MayBeMissing(snapshots, used, q, out, finished, r);
    }
  }

  /** `iter_audit_rows`, for as many queries as `snapshots` has tables. */
  method IterAuditRows(snapshots: seq<seq<Log>>, q: Request, pageSize: nat)
    returns (out: seq<Log>, used: nat, finished: bool)
    requires pageSize >= 1
    requires forall k :: 0 <= k < |snapshots| ==> UniqueIds(snapshots[k])
    ensures Exported(snapshots, used, q, pageSize, out, finished)
    ensures !finished ==> used == |snapshots|
    ensures used <= |snapshots|
    ensures forall i, j :: 0 <= i < j < |out| ==> IsEarlier(out[i], out[j])
    ensures forall r :: r in out ==> InRange(q, r) && exists k :: 0 <= k < used && r in snapshots[k]
    ensures finished ==> forall r :: InRange(q, r) && PresentThroughout(snapshots, used, r) ==> r in out
  {
    out, used := [], 0;
    var cursor := Start;
    NothingOut(snapshots, q, pageSize);
    while used < |snapshots|
      invariant used <= |snapshots|
      invariant Exported(snapshots, used, q, pageSize, out, false)
      invariant AtCursor(out, cursor)
    {
      var rows := Page(snapshots[used], q, cursor, pageSize);
      ExportGrows(snapshots, used, q, pageSize, out, cursor, |rows| < pageSize);
      used := used + 1;
      ExportedRows(snapshots, used, q, pageSize, out + rows, |rows| < pageSize);
      if rows == [] {
        assert out + rows == out;
        return out, used, true;
      }
      CursorMoves(out, rows);
      out := out + rows;
      if |rows| < pageSize {
        return out, used, true;
      }
      cursor := After(rows[|rows| - 1].occurredAt, rows[|rows| - 1].id);
    }
    ExportedRows(snapshots, used, q, pageSize, out, false);
    return out, used, false;
  }

  /* ---------- A table that does not change ---------- */

  /** The window, filtered and sorted in one query. */
  function WindowLogs(table: seq<Log>, q: Request): seq<Log> {
    Tables.Select(table, (r: Log) => Wanted(q, r), LogKey)
  }

  lemma AscendingHasNoDuplicates(out: seq<Log>)
    requires KeyedSort.StrictlyAscending(out, LogKey)
    ensures forall i, j :: 0 <= i < j < |out| ==> out[i] != out[j]
  {
    KeyedSort.StrictIsDistinct(out, LogKey);
  }

  lemma {:induction false} DistinctWithinIsShorter(out: seq<Log>, w: seq<Log>)
    requires forall i, j :: 0 <= i < j < |out| ==> out[i] != out[j]
    requires forall r :: r in out ==> r in w
    ensures |out| <= |w|
  {
    if out != [] {
      var last := out[|out| - 1];
      assert last in out && last in w;
      var k :| 0 <= k < |w| && w[k] == last;
      var rest := w[..k] + w[k + 1..];
      forall r | r in out[..|out| - 1]
        ensures r in rest
      {
        assert r in out && r in w;
        var j :| 0 <= j < |w| && w[j] == r;
        assert rest[if j < k then j else j - 1] == r;
      }
      DistinctWithinIsShorter(out[..|out| - 1], rest);
    }
  }

  /**
   On a fixed table the export ends, after at most one query more than the window has pages, and equals
   filter-then-sort, for every page size of at least 1.
   */
  lemma FixedTableExport(table: seq<Log>, snapshots: seq<seq<Log>>, used: nat, q: Request, size: nat, out: seq<Log>,
                         finished: bool)
    requires UniqueIds(table) && size >= 1
    requires forall k :: 0 <= k < |snapshots| ==> snapshots[k] == table
    requires Exported(snapshots, used, q, size, out, finished) && (!finished ==> used == |snapshots|)
    requires |snapshots| * size > |WindowLogs(table, q)|
    ensures finished && out == WindowLogs(table, q)
  {
    var w := WindowLogs(table, q);
    forall r
      ensures r in w <==> r in table && Wanted(q, r)
    {
      Tables.SelectKeeps(table, (x: Log) => Wanted(q, x), LogKey, r);
    }
    forall r | r in out
      ensures r in table && Wanted(q, r)
    {
      assert WantedAndSeen(snapshots, used, q, r) && SeenIn(snapshots, used, r);
    }
    AscendingHasNoDuplicates(out);
    DistinctWithinIsShorter(out, w);
    forall r | r in table && Wanted(q, r)
      ensures finished ==> r in out
    {
      assert PresentThroughout(snapshots, used, r) && MayBeMissing(snapshots, used, q, out, finished, r);
    }
    UniqueIdsUniqueKeys(table, (x: Log) => Wanted(q, x));
    Tables.SelectIs(table, (x: Log) => Wanted(q, x), LogKey, out);
  }
}
