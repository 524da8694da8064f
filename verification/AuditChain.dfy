/**
 Verification of a tenant's audit chain (backend/app/services/audit_chain.py): the replay loop with its
 re-synchronisation after a gap, what it reports, and the statement it decides.
 */
module AuditChain {
  import opened Wrappers
  import opened Text
  import opened AuditTrail
  import KeyedSort
  import Lex
  import Tables

  datatype Reason = PositionGap | PrevHashMismatch | ThisHashMismatch

  datatype Break = Break(
    position: int,
    rowId: string,
    expectedPrev: string,
    actualPrev: string,
    expectedThis: string,
    actualThis: string,
    reason: Reason)

  datatype VerifyResult = VerifyResult(
    valid: bool,
    tenantId: string,
    rowsChecked: nat,
    fromPosition: int,
    toPosition: int,
    breaks: seq<Break>)

  function PositionKey(r: Row): seq<int> {
    [r.position]
  }

  /** The unique index on `(tenant_id, chain_position)`. */
  ghost predicate UniqueIndex(table: seq<Row>) {
    forall i, j :: 0 <= i < j < |table| ==>
      table[i].core.tenantId != table[j].core.tenantId || table[i].position != table[j].position
  }

  predicate Within(r: Row, tenantId: string, from: int, to: Option<int>) {
    r.core.tenantId == tenantId && from <= r.position && (to.Some? ==> r.position <= to.value)
  }

  function WindowRows(table: seq<Row>, tenantId: string, from: int, to: Option<int>): seq<Row> {
    Tables.Select(table, r => Within(r, tenantId, from, to), PositionKey)
  }

  function RowsBelow(table: seq<Row>, tenantId: string, from: int): seq<Row> {
    Tables.Select(table, (r: Row) => r.core.tenantId == tenantId && r.position < from, PositionKey)
  }

  /** The hash the first row of a window must link to. */
  function Anchor(s: Scheme, table: seq<Row>, tenantId: string, from: int): string {
    if from <= 1 then GenesisHash(s, tenantId)
    else
      var below := RowsBelow(table, tenantId, from);
      if below == [] then GenesisHash(s, tenantId) else below[|below| - 1].thisHash
  }

  lemma PositionOrder(q: Row, r: Row)
    ensures Lex.Less(PositionKey(q), PositionKey(r)) <==> q.position < r.position
  {
    assert PositionKey(q)[1..] == [] && PositionKey(r)[1..] == [];
  }

  /** A row that satisfies `p` beyond which there is none. */
  ghost predicate IsLast(table: seq<Row>, p: Row -> bool, r: Row) {
    r in table && p(r) && forall q :: q in table && p(q) ==> q.position <= r.position
  }

  /** A query by position ends with a last row, or is empty because no row matches. */
  lemma LastByPosition(table: seq<Row>, p: Row -> bool)
    ensures var rows := Tables.Select(table, p, PositionKey);
            if exists q :: q in table && p(q) then rows != [] && IsLast(table, p, rows[|rows| - 1]) else rows == []
  {
    var rows := Tables.Select(table, p, PositionKey);
    forall q
      ensures q in rows <==> q in table && p(q)
    {
      Tables.SelectKeeps(table, p, PositionKey, q);
    }
    if rows != [] {
      var last := rows[|rows| - 1];
      assert last in rows;
      KeyedSort.SortAscends(Tables.Where(table, p), PositionKey);
      forall q | q in rows
        ensures q.position <= last.position
      {
        PositionOrder(last, q);
      }
    }
  }

  /** The first row of a window must link to the last row before it, or to genesis if there is none. */
  lemma AnchorIsLastBefore(s: Scheme, table: seq<Row>, tenantId: string, from: int)
    ensures var p := (r: Row) => r.core.tenantId == tenantId && r.position < from;
            if from > 1 && exists q :: q in table && p(q)
            then exists r :: IsLast(table, p, r) && Anchor(s, table, tenantId, from) == r.thisHash
            else Anchor(s, table, tenantId, from) == GenesisHash(s, tenantId)
  {
    LastByPosition(table, (r: Row) => r.core.tenantId == tenantId && r.position < from);
  }

  /* ---------- What each row is held to ---------- */

  function ExpectedPrev(anchor: string, rows: seq<Row>, i: nat): string
    requires i < |rows|
  {
    if i == 0 then anchor else rows[i - 1].thisHash
  }

  function ExpectedPosition(from: int, rows: seq<Row>, i: nat): int
    requires i < |rows|
  {
    if i == 0 then from else rows[i - 1].position + 1
  }

  predicate InSequence(from: int, rows: seq<Row>, i: nat)
    requires i < |rows|
  {
    rows[i].position == ExpectedPosition(from, rows, i)
  }

  /**
   The breaks reported at one row. They depend on that row and the one before it only: after a gap, and
   after any mismatch, the replay goes on from the hash it found.
   */
  function BreaksAt(s: Scheme, anchor: string, from: int, rows: seq<Row>, i: nat): seq<Break>
    requires i < |rows|
  {
    var row, prev := rows[i], ExpectedPrev(anchor, rows, i);
    if !InSequence(from, rows, i) then
      [Break(row.position, row.core.id, prev, row.prevHash, "", row.thisHash, PositionGap)]
    else LinkBreaks(prev, row) + HashBreaks(s, prev, row)
  }

  function LinkBreaks(prev: string, row: Row): seq<Break> {
    if row.prevHash != prev
    then [Break(row.position, row.core.id, prev, row.prevHash, "", row.thisHash, PrevHashMismatch)]
    else []
  }

  function HashBreaks(s: Scheme, prev: string, row: Row): seq<Break> {
    match ComputeChainHash(s, row.prevHash, row.core)
    case Some(h) =>
      if h != row.thisHash
      then [Break(row.position, row.core.id, prev, row.prevHash, h, row.thisHash, ThisHashMismatch)]
      else []
    case None => []
  }

  /** The rows' reports, each made by itself. */
  function Reports(s: Scheme, anchor: string, from: int, rows: seq<Row>): (r: seq<seq<Break>>)
    ensures |r| == |rows|
  {
    seq(|rows|, i requires 0 <= i < |rows| => BreaksAt(s, anchor, from, rows, i))
  }

  function Flatten<T>(ss: seq<seq<T>>): seq<T> {
    if ss == [] then [] else Flatten(ss[..|ss| - 1]) + ss[|ss| - 1]
  }

  lemma FlattenNext<T>(ss: seq<seq<T>>, n: nat)
    requires n < |ss|
    ensures Flatten(ss[..n + 1]) == Flatten(ss[..n]) + ss[n]
  {
    assert ss[..n + 1][..n] == ss[..n];
  }

  /**
   The hash of the row cannot be recomputed: its link is not hexadecimal, its payload makes no dictionary, or
   the encoder refuses the core.
   */
  ghost predicate Unhashable(s: Scheme, r: Row) {
    || FromHex(r.prevHash).None?
    || Summary(r.core.payload).None?
    || s.canon(CanonicaliseCore(r.core)).None?
  }

  /** A row in sequence that cannot be hashed makes the replay raise. */
  ghost predicate RaisesAt(s: Scheme, from: int, rows: seq<Row>, i: nat)
    requires i < |rows|
  {
    InSequence(from, rows, i) && Unhashable(s, rows[i])
  }

  ghost predicate Raises(s: Scheme, from: int, rows: seq<Row>) {
    exists i :: 0 <= i < |rows| && RaisesAt(s, from, rows, i)
  }

  /** The break names the row, and the hashes that were expected before it and found. */
  predicate Describes(b: Break, row: Row, expectedPrev: string) {
    && b.position == row.position && b.rowId == row.core.id && b.actualPrev == row.prevHash
    && b.actualThis == row.thisHash && b.expectedPrev == expectedPrev
  }

  function Reasons(breaks: seq<Break>): (r: seq<Reason>)
    ensures |r| == |breaks|
  {
    seq(|breaks|, i requires 0 <= i < |breaks| => breaks[i].reason)
  }

  /** The checks on a row in sequence; `None` where recomputing its hash raises. */
  method CheckRow(s: Scheme, expectedPrev: string, row: Row) returns (report: Option<seq<Break>>)
    ensures report.None? <==> Unhashable(s, row)
    ensures report.Some? ==> report.value == LinkBreaks(expectedPrev, row) + HashBreaks(s, expectedPrev, row)
    ensures report.Some? ==> forall b :: b in report.value ==> Describes(b, row, expectedPrev)
    ensures report.Some? ==>
              Reasons(report.value) == (if row.prevHash == expectedPrev then [] else [PrevHashMismatch]) +
                                       (if HashIsCorrect(s, row) then [] else [ThisHashMismatch])
    ensures report.Some? ==> forall b :: b in report.value ==>
              if b.reason == ThisHashMismatch then ComputeChainHash(s, row.prevHash, row.core) == Some(b.expectedThis)
              else b.expectedThis == ""
  {
    var breaks: seq<Break> := [];
    if row.prevHash != expectedPrev {
      breaks := breaks +
        [Break(row.position, row.core.id, expectedPrev, row.prevHash, "", row.thisHash, PrevHashMismatch)];
    }
    var recomputed := ComputeChainHash(s, row.prevHash, row.core);
    if recomputed.None? {
      return None;
    }
    if recomputed.value != row.thisHash {
      breaks := breaks +
        [Break(row.position, row.core.id, expectedPrev, row.prevHash, recomputed.value, row.thisHash,
               ThisHashMismatch)];
    }
    return Some(breaks);
  }

  ghost predicate Expects(anchor: string, from: int, rows: seq<Row>, i: nat, prev: string, position: int) {
    i < |rows| ==> prev == ExpectedPrev(anchor, rows, i) && position == ExpectedPosition(from, rows, i)
  }

  lemma ExpectsNext(anchor: string, from: int, rows: seq<Row>, i: nat)
    requires i < |rows|
    ensures Expects(anchor, from, rows, i + 1, rows[i].thisHash, rows[i].position + 1)
  {}

  lemma ReportAt(s: Scheme, anchor: string, from: int, rows: seq<Row>, i: nat, prev: string, position: int)
    requires i < |rows| && Expects(anchor, from, rows, i, prev, position)
    ensures var row := rows[i];
            && Reports(s, anchor, from, rows)[i] ==
               (if row.position != position
                then [Break(row.position, row.core.id, prev, row.prevHash, "", row.thisHash, PositionGap)]
                else LinkBreaks(prev, row) + HashBreaks(s, prev, row))
            && (RaisesAt(s, from, rows, i) <==> row.position == position && Unhashable(s, row))
  {}

  /** What the replay has reported of the first `n` rows, none of which raised. */
  ghost predicate Replayed(s: Scheme, anchor: string, from: int, rows: seq<Row>, n: nat, breaks: seq<Break>) {
    && n <= |rows| && breaks == Flatten(Reports(s, anchor, from, rows)[..n])
    && forall i :: 0 <= i < n ==> !RaisesAt(s, from, rows, i)
  }

  lemma ReplayedNext(s: Scheme, anchor: string, from: int, rows: seq<Row>, n: nat, breaks: seq<Break>)
    requires n < |rows| && Replayed(s, anchor, from, rows, n, breaks) && !RaisesAt(s, from, rows, n)
    ensures Replayed(s, anchor, from, rows, n + 1, breaks + Reports(s, anchor, from, rows)[n])
  {
    FlattenNext(Reports(s, anchor, from, rows), n);
  }

  lemma ReplayedAll(s: Scheme, anchor: string, from: int, rows: seq<Row>, breaks: seq<Break>)
    requires Replayed(s, anchor, from, rows, |rows|, breaks)
    ensures !Raises(s, from, rows) && breaks == Flatten(Reports(s, anchor, from, rows))
  {
    assert Reports(s, anchor, from, rows)[..|rows|] == Reports(s, anchor, from, rows);
  }

  /** The replay loop over the rows the query returned; `None` where it raises. */
  method Replay(s: Scheme, rows: seq<Row>, anchor: string, from: int)
    returns (result: Option<seq<Break>>, rowsChecked: nat, lastPosition: int)
    ensures result.None? <==> Raises(s, from, rows)
    ensures result.Some? ==>
      && result.value == Flatten(Reports(s, anchor, from, rows))
      && rowsChecked == |rows|
      && lastPosition == if rows == [] then from - 1 else rows[|rows| - 1].position
  {
    var breaks: seq<Break> := [];
    var expectedPrev := anchor;
    var expectedPosition := from;
    rowsChecked := 0;
    lastPosition := from - 1;
    while rowsChecked < |rows|
      invariant 0 <= rowsChecked <= |rows|
      invariant Expects(anchor, from, rows, rowsChecked, expectedPrev, expectedPosition)
      invariant lastPosition == if rowsChecked == 0 then from - 1 else rows[rowsChecked - 1].position
      invariant Replayed(s, anchor, from, rows, rowsChecked, breaks)
    {
      var row := rows[rowsChecked];
      ReportAt(s, anchor, from, rows, rowsChecked, expectedPrev, expectedPosition);
      ExpectsNext(anchor, from, rows, rowsChecked);
      if !RaisesAt(s, from, rows, rowsChecked) {
        ReplayedNext(s, anchor, from, rows, rowsChecked, breaks);
      }
      rowsChecked := rowsChecked + 1;
      lastPosition := row.position;
      if row.position != expectedPosition {
        breaks := breaks +
          [Break(row.position, row.core.id, expectedPrev, row.prevHash, "", row.thisHash, PositionGap)];
        expectedPrev := row.thisHash;
        expectedPosition := row.position + 1;
        continue;
      }
      var report := CheckRow(s, expectedPrev, row);
      if report.None? {
        assert RaisesAt(s, from, rows, rowsChecked - 1);
        return None, rowsChecked, lastPosition;
      }
      breaks := breaks + report.value;
      expectedPrev := row.thisHash;
      expectedPosition := row.position + 1;
    }
    ReplayedAll(s, anchor, from, rows, breaks);
    return Some(breaks), rowsChecked, lastPosition;
  }

  /**
   What is reported of a row: a gap if its position is not the one after its predecessor's, and otherwise a link
   that does not continue its predecessor's hash and a hash that is not its own.
   */
  lemma ReportsTell(s: Scheme, anchor: string, from: int, rows: seq<Row>, i: nat)
    requires i < |rows| && !Unhashable(s, rows[i])
    ensures var row, report := rows[i], Reports(s, anchor, from, rows)[i];
            var prev := if i == 0 then anchor else rows[i - 1].thisHash;
            && (forall b :: b in report ==> Describes(b, row, prev))
            && Reasons(report) == if row.position != (if i == 0 then from else rows[i - 1].position + 1)
                                  then [PositionGap]
                                  else (if row.prevHash == prev then [] else [PrevHashMismatch]) +
                                       (if HashIsCorrect(s, row) then [] else [ThisHashMismatch])
  {}

  /** `verify_chain`; `None` where it raises. */
  method VerifyChain(s: Scheme, table: seq<Row>, tenantId: string, from: int, to: Option<int>)
    returns (result: Option<VerifyResult>)
    ensures result.None? <==> Raises(s, from, WindowRows(table, tenantId, from, to))
    ensures result.Some? ==>
      var rows := WindowRows(table, tenantId, from, to);
      var breaks := Flatten(Reports(s, Anchor(s, table, tenantId, from), from, rows));
      var last := if rows == [] then from - 1 else rows[|rows| - 1].position;
      result.value == VerifyResult(breaks == [], tenantId, |rows|, from, if to.Some? then to.value else last, breaks)
    ensures result.Some? && result.value.valid <==> VerifiesCleanly(s, table, tenantId, from, to)
  {
    var rows := WindowRows(table, tenantId, from, to);
    var breaks, rowsChecked, lastPosition := Replay(s, rows, Anchor(s, table, tenantId, from), from);
    if breaks.None? {
      return None;
    }
    return Some(VerifyResult(
                  breaks.value == [], tenantId, rowsChecked, from,
                  if to.Some? then to.value else lastPosition, breaks.value));
  }

  /* ---------- What a clean report means ---------- */

  /** The call returns, and reports no break. */
  ghost predicate VerifiesCleanly(s: Scheme, table: seq<Row>, tenantId: string, from: int, to: Option<int>) {
    Quiet(s, Anchor(s, table, tenantId, from), from, WindowRows(table, tenantId, from, to))
  }

  ghost predicate LinkedAt(s: Scheme, anchor: string, from: int, rows: seq<Row>, i: nat)
    requires i < |rows|
  {
    && rows[i].position == from + i
    && rows[i].prevHash == ExpectedPrev(anchor, rows, i)
    && HashIsCorrect(s, rows[i])
  }

  /** Row by row: contiguous, linked and hash-correct. */
  ghost predicate Linked(s: Scheme, anchor: string, from: int, rows: seq<Row>) {
    forall i :: 0 <= i < |rows| ==> LinkedAt(s, anchor, from, rows, i)
  }

  lemma {:induction false} FlattenEmpty<T>(ss: seq<seq<T>>)
    ensures Flatten(ss) == [] <==> forall i :: 0 <= i < |ss| ==> ss[i] == []
  {
    if ss != [] {
      FlattenEmpty(ss[..|ss| - 1]);
    }
  }

  /** A row neither reports nor raises exactly when it is in sequence, linked and hash-correct. */
  lemma QuietRow(s: Scheme, anchor: string, from: int, rows: seq<Row>, i: nat)
    requires i < |rows|
    ensures BreaksAt(s, anchor, from, rows, i) == [] && !RaisesAt(s, from, rows, i) <==>
            && InSequence(from, rows, i)
            && rows[i].prevHash == ExpectedPrev(anchor, rows, i)
            && HashIsCorrect(s, rows[i])
  {}

  lemma {:induction false} InSequencePositions(from: int, rows: seq<Row>, i: nat)
    requires i < |rows| && forall j :: 0 <= j < |rows| ==> InSequence(from, rows, j)
    ensures rows[i].position == from + i
  {
    assert InSequence(from, rows, i);
    if i > 0 {
      InSequencePositions(from, rows, i - 1);
    }
  }

  lemma LinkedInSequence(s: Scheme, anchor: string, from: int, rows: seq<Row>, i: nat)
    requires Linked(s, anchor, from, rows) && i < |rows|
    ensures LinkedAt(s, anchor, from, rows, i) && InSequence(from, rows, i)
  {
    assert LinkedAt(s, anchor, from, rows, i);
    if i > 0 {
      assert LinkedAt(s, anchor, from, rows, i - 1);
    }
  }

  /** The replay of a sequence of rows is clean. */
  ghost predicate Quiet(s: Scheme, anchor: string, from: int, rows: seq<Row>) {
    !Raises(s, from, rows) && Flatten(Reports(s, anchor, from, rows)) == []
  }

  /** The replay is clean exactly when every row is in place, linked and hash-correct. */
  lemma QuietMeansLinked(s: Scheme, anchor: string, from: int, rows: seq<Row>)
    ensures Quiet(s, anchor, from, rows) <==> Linked(s, anchor, from, rows)
  {
    var reports := Reports(s, anchor, from, rows);
    FlattenEmpty(reports);
    if Quiet(s, anchor, from, rows) {
      forall i | 0 <= i < |rows|
        ensures InSequence(from, rows, i) && HashIsCorrect(s, rows[i])
        ensures rows[i].prevHash == ExpectedPrev(anchor, rows, i)
      {
        assert reports[i] == [] && !RaisesAt(s, from, rows, i);
        QuietRow(s, anchor, from, rows, i);
      }
      forall i | 0 <= i < |rows|
        ensures LinkedAt(s, anchor, from, rows, i)
      {
        InSequencePositions(from, rows, i);
      }
    }
    if Linked(s, anchor, from, rows) {
      forall i | 0 <= i < |rows|
        ensures reports[i] == [] && !RaisesAt(s, from, rows, i)
      {
        LinkedInSequence(s, anchor, from, rows, i);
        QuietRow(s, anchor, from, rows, i);
      }
    }
  }

  /* ---------- The same, said of the table ---------- */

  /** `rows` lists the window's rows by position. */
  ghost predicate IsWindow(table: seq<Row>, tenantId: string, from: int, to: Option<int>, rows: seq<Row>) {
    && PositionsRise(rows)
    && forall r :: r in rows <==> r in table && Within(r, tenantId, from, to)
  }

  ghost predicate PositionsRise(rows: seq<Row>) {
    forall i, j :: 0 <= i < j < |rows| ==> rows[i].position < rows[j].position
  }

  /**
   The statement a clean report decides, with no order in it: every row of the window carries the hash of
   its content, and is either the first, linked to the anchor, or has its predecessor in the window and
   is linked to it.
   */
  ghost predicate Intact(s: Scheme, table: seq<Row>, tenantId: string, from: int, to: Option<int>) {
    forall r :: r in table && Within(r, tenantId, from, to) ==> IntactRow(s, table, tenantId, from, r)
  }

  ghost predicate IntactRow(s: Scheme, table: seq<Row>, tenantId: string, from: int, r: Row) {
    && HashIsCorrect(s, r)
    && (r.position == from ==> r.prevHash == Anchor(s, table, tenantId, from))
    && (r.position != from ==> HasPredecessor(table, r, from))
  }

  ghost predicate HasPredecessor(table: seq<Row>, r: Row, from: int) {
    exists q :: q in table && IsPredecessor(q, r, from)
  }

  ghost predicate IsPredecessor(q: Row, r: Row, from: int) {
    q.core.tenantId == r.core.tenantId && from <= q.position == r.position - 1 && q.thisHash == r.prevHash
  }

  lemma UniqueWithin(table: seq<Row>, p: Row -> bool, tenantId: string)
    requires UniqueIndex(table)
    requires forall r :: p(r) ==> r.core.tenantId == tenantId
    ensures Tables.UniqueOn(table, p, PositionKey)
  {
    forall i, j | 0 <= i < j < |table| && p(table[i]) && p(table[j])
      ensures PositionKey(table[i]) != PositionKey(table[j])
    {
      assert PositionKey(table[i])[0] == table[i].position && PositionKey(table[j])[0] == table[j].position;
    }
  }

  lemma SamePositionSameRow(table: seq<Row>, q: Row, r: Row)
    requires UniqueIndex(table) && q in table && r in table
    requires q.core.tenantId == r.core.tenantId && q.position == r.position
    ensures q == r
  {
    var i :| 0 <= i < |table| && table[i] == q;
    var j :| 0 <= j < |table| && table[j] == r;
    assert i == j;
  }

  /** The query answers with the window. */
  lemma WindowRowsIsWindow(table: seq<Row>, tenantId: string, from: int, to: Option<int>)
    requires UniqueIndex(table)
    ensures IsWindow(table, tenantId, from, to, WindowRows(table, tenantId, from, to))
  {
    var p := (x: Row) => Within(x, tenantId, from, to);
    var rows := Tables.Select(table, p, PositionKey);
    UniqueWithin(table, p, tenantId);
    Tables.SelectStrict(table, p, PositionKey);
    forall i, j | 0 <= i < j < |rows|
      ensures rows[i].position < rows[j].position
    {
      PositionOrder(rows[i], rows[j]);
    }
    forall r
      ensures r in rows <==> r in table && Within(r, tenantId, from, to)
    {
      Tables.SelectKeeps(table, p, PositionKey, r);
    }
  }

  /** A rising sequence of exactly the rows of the window is the query's answer. */
  lemma WindowIs(table: seq<Row>, tenantId: string, from: int, to: Option<int>, w: seq<Row>)
    requires UniqueIndex(table) && IsWindow(table, tenantId, from, to, w)
    ensures WindowRows(table, tenantId, from, to) == w
  {
    var p := (x: Row) => Within(x, tenantId, from, to);
    UniqueWithin(table, p, tenantId);
    forall i, j | 0 <= i < j < |w|
      ensures Lex.Less(PositionKey(w[i]), PositionKey(w[j]))
    {
      PositionOrder(w[i], w[j]);
    }
    Tables.SelectIs(table, p, PositionKey, w);
  }

  lemma RiseIsOrder(rows: seq<Row>, i: nat, j: nat)
    requires PositionsRise(rows) && i < |rows| && j < |rows|
    ensures i < j <==> rows[i].position < rows[j].position
  {}

  lemma PredecessorComesJustBefore(table: seq<Row>, tenantId: string, from: int, to: Option<int>, rows: seq<Row>,
                                   i: nat)
    requires IsWindow(table, tenantId, from, to, rows)
    requires i < |rows| && HasPredecessor(table, rows[i], from)
    ensures i > 0 && IsPredecessor(rows[i - 1], rows[i], from)
  {
    var q :| q in table && IsPredecessor(q, rows[i], from);
    assert rows[i] in rows;
    assert Within(q, tenantId, from, to);
    assert q in rows;
    var j :| 0 <= j < |rows| && rows[j] == q;
    RiseIsOrder(rows, j, i);
    RiseIsOrder(rows, i - 1, i);
    RiseIsOrder(rows, j, i - 1);
  }

  /** The first row starts the window; every other one follows the row before it. */
  lemma IntactStep(s: Scheme, table: seq<Row>, tenantId: string, from: int, to: Option<int>, rows: seq<Row>, i: nat)
    requires IsWindow(table, tenantId, from, to, rows) && Intact(s, table, tenantId, from, to)
    requires i < |rows|
    ensures if i == 0 then rows[0].position == from && rows[0].prevHash == Anchor(s, table, tenantId, from)
            else IsPredecessor(rows[i - 1], rows[i], from)
  {
    assert rows[i] in rows && rows[0] in rows;
    assert IntactRow(s, table, tenantId, from, rows[i]) && from <= rows[0].position;
    RiseIsOrder(rows, 0, i);
    if rows[i].position != from {
      PredecessorComesJustBefore(table, tenantId, from, to, rows, i);
    }
  }

  lemma {:induction false} IntactPositions(s: Scheme, table: seq<Row>, tenantId: string, from: int, to: Option<int>,
                                           rows: seq<Row>, i: nat)
    requires IsWindow(table, tenantId, from, to, rows) && Intact(s, table, tenantId, from, to)
    requires i < |rows|
    ensures rows[i].position == from + i
    ensures rows[i].prevHash == ExpectedPrev(Anchor(s, table, tenantId, from), rows, i)
  {
    IntactStep(s, table, tenantId, from, to, rows, i);
    if i > 0 {
      IntactPositions(s, table, tenantId, from, to, rows, i - 1);
    }
  }

  lemma LinkedMeansIntact(s: Scheme, table: seq<Row>, tenantId: string, from: int, to: Option<int>, rows: seq<Row>)
    requires IsWindow(table, tenantId, from, to, rows)
    requires Linked(s, Anchor(s, table, tenantId, from), from, rows)
    ensures Intact(s, table, tenantId, from, to)
  {
    var anchor := Anchor(s, table, tenantId, from);
    forall r | r in table && Within(r, tenantId, from, to)
      ensures IntactRow(s, table, tenantId, from, r)
    {
      assert r in rows;
      var i :| 0 <= i < |rows| && rows[i] == r;
      LinkedInSequence(s, anchor, from, rows, i);
      if i > 0 {
        assert rows[i - 1] in rows;
        assert IsPredecessor(rows[i - 1], r, from);
      }
    }
  }

  lemma IntactMeansLinked(s: Scheme, table: seq<Row>, tenantId: string, from: int, to: Option<int>, rows: seq<Row>)
    requires IsWindow(table, tenantId, from, to, rows)
    requires Intact(s, table, tenantId, from, to)
    ensures Linked(s, Anchor(s, table, tenantId, from), from, rows)
  {
    forall i | 0 <= i < |rows|
      ensures LinkedAt(s, Anchor(s, table, tenantId, from), from, rows, i)
    {
      assert rows[i] in rows && IntactRow(s, table, tenantId, from, rows[i]);
      IntactPositions(s, table, tenantId, from, to, rows, i);
    }
  }

  /** `verify_chain` reports no breaks exactly when the window is intact. */
  lemma CleanMeansIntact(s: Scheme, table: seq<Row>, tenantId: string, from: int, to: Option<int>)
    requires UniqueIndex(table)
    ensures VerifiesCleanly(s, table, tenantId, from, to) <==> Intact(s, table, tenantId, from, to)
  {
    var rows := WindowRows(table, tenantId, from, to);
    WindowRowsIsWindow(table, tenantId, from, to);
    QuietMeansLinked(s, Anchor(s, table, tenantId, from), from, rows);
    if VerifiesCleanly(s, table, tenantId, from, to) {
      LinkedMeansIntact(s, table, tenantId, from, to, rows);
    }
    if Intact(s, table, tenantId, from, to) {
      IntactMeansLinked(s, table, tenantId, from, to, rows);
    }
  }
}
