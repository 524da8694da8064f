/** Checking a chain window by window: windows checked one after the other add up. */
module AuditWindows {
  import opened Wrappers
  import opened AuditTrail
  import opened AuditChain
  import KeyedSort
  import Lex
  import Tables

  /** The anchor of a window is the hash of the row just before it, when that row is there. */
  lemma AnchorIsRowBefore(s: Scheme, table: seq<Row>, t: string, from: int, q: Row)
    requires UniqueIndex(table) && from > 1
    requires q in table && q.core.tenantId == t && q.position == from - 1
    ensures Anchor(s, table, t, from) == q.thisHash
  {
    var p := (r: Row) => r.core.tenantId == t && r.position < from;
    var below := Tables.Select(table, p, PositionKey);
    UniqueWithin(table, p, t);
    Tables.SelectStrict(table, p, PositionKey);
    Tables.SelectKeeps(table, p, PositionKey, q);
    var i :| 0 <= i < |below| && below[i] == q;
    var last := below[|below| - 1];
    Tables.SelectKeeps(table, p, PositionKey, last);
    PositionOrder(q, last);
    assert i < |below| - 1 ==> q.position < last.position;
    SamePositionSameRow(table, q, last);
  }

  lemma ConcatWindow(table: seq<Row>, t: string, a: int, m: int, to: Option<int>, q: seq<Row>, r: seq<Row>)
    requires a <= m && (to.Some? ==> m <= to.value)
    requires IsWindow(table, t, a, Some(m), q) && IsWindow(table, t, m + 1, to, r)
    ensures IsWindow(table, t, a, to, q + r)
  {
    forall x
      ensures x in q + r <==> x in table && Within(x, t, a, to)
    {
      assert x in q + r <==> x in q || x in r;
    }
    forall i, j | 0 <= i < j < |q + r|
      ensures (q + r)[i].position < (q + r)[j].position
    {
      if i < |q| <= j {
        assert (q + r)[i] in q && (q + r)[j] in r;
      }
    }
  }

  lemma ConcatFront(s: Scheme, anchor: string, a: int, q: seq<Row>, r: seq<Row>, i: nat)
    requires i < |q|
    ensures LinkedAt(s, anchor, a, q + r, i) <==> LinkedAt(s, anchor, a, q, i)
  {
    assert ExpectedPrev(anchor, q + r, i) == ExpectedPrev(anchor, q, i);
  }

  lemma ConcatBack(s: Scheme, anchor: string, a: int, q: seq<Row>, r: seq<Row>, from: int, i: nat)
    requires q != [] && from == a + |q| && |q| <= i < |q| + |r|
    ensures LinkedAt(s, anchor, a, q + r, i) <==> LinkedAt(s, q[|q| - 1].thisHash, from, r, i - |q|)
  {
    assert (q + r)[i] == r[i - |q|];
    assert ExpectedPrev(anchor, q + r, i) == ExpectedPrev(q[|q| - 1].thisHash, r, i - |q|);
  }

  lemma LinkedConcat(s: Scheme, anchor: string, a: int, q: seq<Row>, r: seq<Row>, from: int)
    requires q != [] && Linked(s, anchor, a, q) && from == a + |q|
    ensures Linked(s, anchor, a, q + r) <==> Linked(s, q[|q| - 1].thisHash, from, r)
  {
    if Linked(s, q[|q| - 1].thisHash, from, r) {
      forall i | 0 <= i < |q + r|
        ensures LinkedAt(s, anchor, a, q + r, i)
      {
        if i < |q| {
          ConcatFront(s, anchor, a, q, r, i);
        } else {
          ConcatBack(s, anchor, a, q, r, from, i);
        }
      }
    }
    if Linked(s, anchor, a, q + r) {
      var last := q[|q| - 1].thisHash;
      forall i | 0 <= i < |r|
        ensures LinkedAt(s, last, from, r, i)
      {
        ConcatBack(s, anchor, a, q, r, from, |q| + i);
      }
    }
  }

  lemma RowsCompose(s: Scheme, anchor: string, a: int, q: seq<Row>, next: string, m: int, r: seq<Row>)
    requires q != [] && |q| == m - a + 1 && next == q[|q| - 1].thisHash
    requires Quiet(s, anchor, a, q)
    ensures Quiet(s, next, m + 1, r) <==> Quiet(s, anchor, a, q + r)
  {
    QuietMeansLinked(s, anchor, a, q);
    LinkedConcat(s, anchor, a, q, r, m + 1);
    QuietMeansLinked(s, anchor, a, q + r);
    QuietMeansLinked(s, next, m + 1, r);
  }

  lemma LastPosition(s: Scheme, anchor: string, a: int, q: seq<Row>)
    requires q != [] && Quiet(s, anchor, a, q)
    ensures q[|q| - 1].position == a + |q| - 1
  {
    QuietMeansLinked(s, anchor, a, q);
    LinkedInSequence(s, anchor, a, q, |q| - 1);
  }

  lemma LastInTable(table: seq<Row>, t: string, a: int, to: Option<int>, q: seq<Row>)
    requires q != [] && IsWindow(table, t, a, to, q)
    ensures q[|q| - 1] in table && q[|q| - 1].core.tenantId == t
  {
    assert q[|q| - 1] in q;
  }

  lemma WindowIsUnique(table: seq<Row>, t: string, from: int, to: Option<int>, q: seq<Row>, r: seq<Row>)
    requires IsWindow(table, t, from, to, q) && IsWindow(table, t, from, to, r)
    ensures q == r
  {
    RisesStrictly(q);
    RisesStrictly(r);
    Tables.StrictSame(q, r, PositionKey);
  }

  lemma RisesStrictly(rows: seq<Row>)
    requires PositionsRise(rows)
    ensures KeyedSort.StrictlyAscending(rows, PositionKey)
  {
    forall i, j | 0 <= i < j < |rows|
      ensures Lex.Less(PositionKey(rows[i]), PositionKey(rows[j]))
    {
      PositionOrder(rows[i], rows[j]);
    }
  }

  lemma ComposeRows(s: Scheme, table: seq<Row>, t: string, a: int, m: int, to: Option<int>, anchor: string,
                    next: string,
                    q: seq<Row>, r: seq<Row>, w: seq<Row>)
    requires a <= m && (to.Some? ==> m <= to.value)
    requires IsWindow(table, t, a, Some(m), q) && IsWindow(table, t, m + 1, to, r) && IsWindow(table, t, a, to, w)
    requires |q| == m - a + 1 && Quiet(s, anchor, a, q) && next == q[|q| - 1].thisHash
    ensures Quiet(s, next, m + 1, r) <==> Quiet(s, anchor, a, w)
  {
    ConcatWindow(table, t, a, m, to, q, r);
    WindowIsUnique(table, t, a, to, w, q + r);
    RowsCompose(s, anchor, a, q, next, m, r);
  }

  /** After a complete window, the next one is anchored at its last row. */
  lemma NextAnchor(s: Scheme, table: seq<Row>, t: string, a: int, m: int, q: seq<Row>)
    requires UniqueIndex(table) && 1 <= a <= m
    requires IsWindow(table, t, a, Some(m), q) && |q| == m - a + 1 && q[m - a].position == m
    ensures Anchor(s, table, t, m + 1) == q[m - a].thisHash
  {
    LastInTable(table, t, a, Some(m), q);
    AnchorIsRowBefore(s, table, t, m + 1, q[m - a]);
  }

  /**
   Windowed checks compose: once `[a..m]` has verified with all of its `m - a + 1` rows checked, the window
   `[m+1..to]` verifies if and only if `[a..to]` does.
   */
  lemma WindowsCompose(s: Scheme, table: seq<Row>, t: string, a: int, m: int, to: Option<int>)
    requires UniqueIndex(table) && 1 <= a <= m && (to.Some? ==> m <= to.value)
    requires VerifiesCleanly(s, table, t, a, Some(m))
    requires |WindowRows(table, t, a, Some(m))| == m - a + 1
    ensures VerifiesCleanly(s, table, t, m + 1, to) <==> VerifiesCleanly(s, table, t, a, to)
  {
    WindowRowsIsWindow(table, t, a, Some(m));
    WindowRowsIsWindow(table, t, m + 1, to);
    WindowRowsIsWindow(table, t, a, to);
    LastPosition(s, Anchor(s, table, t, a), a, WindowRows(table, t, a, Some(m)));
    NextAnchor(s, table, t, a, m, WindowRows(table, t, a, Some(m)));
    ComposeRows(s, table, t, a, m, to, Anchor(s, table, t, a), Anchor(s, table, t, m + 1),
                WindowRows(table, t, a, Some(m)), WindowRows(table, t, m + 1, to), WindowRows(table, t, a, to));
  }
}
