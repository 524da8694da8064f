/**
 Where the replay reports a change to a valid chain, and what it cannot see.
 */
module AuditTampering {
  import opened Wrappers
  import opened Json
  import opened Text
  import opened AuditTrail
  import opened AuditChain
  import opened AuditEvidence
  import Tables

  /* ---------- Reports of which all but one are empty ---------- */

  lemma {:induction false} FlattenOne<T>(ss: seq<seq<T>>, p: nat)
    requires p < |ss|
    requires forall i :: 0 <= i < |ss| && i != p ==> ss[i] == []
    ensures Flatten(ss) == ss[p]
  {
    var front := ss[..|ss| - 1];
    if p == |ss| - 1 {
      FlattenEmpty(front);
    } else {
      FlattenOne(front, p);
    }
  }

  /** A row whose predecessor shows the same hash and position is reported alike. */
  lemma ReportIsLocal(s: Scheme, anchor: string, from: int, q: seq<Row>, i: nat, r: seq<Row>, j: nat)
    requires i < |q| && j < |r| && q[i] == r[j]
    requires ExpectedPrev(anchor, q, i) == ExpectedPrev(anchor, r, j)
    requires ExpectedPosition(from, q, i) == ExpectedPosition(from, r, j)
    ensures BreaksAt(s, anchor, from, q, i) == BreaksAt(s, anchor, from, r, j)
    ensures RaisesAt(s, from, q, i) <==> RaisesAt(s, from, r, j)
  {}

  lemma LinkedRowIsQuiet(s: Scheme, anchor: string, from: int, rows: seq<Row>, i: nat)
    requires Linked(s, anchor, from, rows) && i < |rows|
    ensures BreaksAt(s, anchor, from, rows, i) == [] && !RaisesAt(s, from, rows, i)
  {
    LinkedInSequence(s, anchor, from, rows, i);
    QuietRow(s, anchor, from, rows, i);
  }

  /* ---------- Altering one row ---------- */

  /** `r` has other hashed content than `q`, but the same place in the chain. */
  ghost predicate Altered(q: Row, r: Row) {
    && !SameEvent(q.core, r.core) && q.core.tenantId == r.core.tenantId
    && q.position == r.position && q.prevHash == r.prevHash && q.thisHash == r.thisHash
  }

  /** The break that altered content causes: the hash of what is there against the stored one. */
  function HashBreak(s: Scheme, r: Row): Break {
    Break(r.position, r.core.id, r.prevHash, r.prevHash, Hex(s.sha(RowPreimage(s, r))), r.thisHash, ThisHashMismatch)
  }

  lemma AlteredReport(s: Scheme, anchor: string, from: int, rows: seq<Row>, p: nat, r: Row)
    requires Canonical(s) && Linked(s, anchor, from, rows) && p < |rows|
    requires IsHash(rows[p].prevHash) && ProperEvent(rows[p].core) && ProperEvent(r.core)
    requires Altered(rows[p], r)
    ensures RaisesAt(s, from, rows[p := r], p) <==> !Encodes(s, r.core)
    ensures Encodes(s, r.core) ==>
              || Collision(s, RowPreimage(s, rows[p]), RowPreimage(s, r))
              || BreaksAt(s, anchor, from, rows[p := r], p) == [HashBreak(s, r)]
  {
    LinkedInSequence(s, anchor, from, rows, p);
    CorrectHash(s, rows[p]);
    var d: Digest :| rows[p].prevHash == Hex(d);
    FromHexOfHex(d);
    var h := Hex(s.sha(RowPreimage(s, r)));
    assert Encodes(s, r.core) ==> ComputeChainHash(s, r.prevHash, r.core) == Some(h);
    if h == r.thisHash && Encodes(s, r.core) {
      HexInjective(s.sha(RowPreimage(s, r)), s.sha(RowPreimage(s, rows[p])));
      if RowPreimage(s, rows[p]) == RowPreimage(s, r) {
        PreimageIdentifiesRow(s, rows[p], r);
      }
    }
    var after := rows[p := r];
    assert ExpectedPrev(anchor, after, p) == ExpectedPrev(anchor, rows, p);
    assert InSequence(from, after, p);
  }

  lemma OtherRowsStayQuiet(s: Scheme, anchor: string, from: int, rows: seq<Row>, p: nat, r: Row, i: nat)
    requires Linked(s, anchor, from, rows) && p < |rows| && i < |rows| && i != p
    requires r.position == rows[p].position && r.thisHash == rows[p].thisHash
    ensures BreaksAt(s, anchor, from, rows[p := r], i) == [] && !RaisesAt(s, from, rows[p := r], i)
  {
    var after := rows[p := r];
    assert ExpectedPrev(anchor, after, i) == ExpectedPrev(anchor, rows, i);
    ReportIsLocal(s, anchor, from, rows, i, after, i);
    LinkedRowIsQuiet(s, anchor, from, rows, i);
  }

  lemma AlteringOneRow(s: Scheme, anchor: string, from: int, rows: seq<Row>, p: nat, r: Row)
    requires Canonical(s) && Linked(s, anchor, from, rows) && p < |rows|
    requires IsHash(rows[p].prevHash) && ProperEvent(rows[p].core) && ProperEvent(r.core)
    requires Altered(rows[p], r)
    ensures Raises(s, from, rows[p := r]) <==> !Encodes(s, r.core)
    ensures Encodes(s, r.core) ==>
              || Collision(s, RowPreimage(s, rows[p]), RowPreimage(s, r))
              || Flatten(Reports(s, anchor, from, rows[p := r])) == [HashBreak(s, r)]
  {
    var after := rows[p := r];
    var reports := Reports(s, anchor, from, after);
    AlteredReport(s, anchor, from, rows, p, r);
    forall i | 0 <= i < |after| && i != p
      ensures reports[i] == [] && !RaisesAt(s, from, after, i)
    {
      OtherRowsStayQuiet(s, anchor, from, rows, p, r, i);
    }
    FlattenOne(reports, p);
    assert RaisesAt(s, from, after, p) <==> Raises(s, from, after);
  }

  lemma UpdateKeepsIndex(table: seq<Row>, k: nat, r: Row)
    requires UniqueIndex(table) && k < |table|
    requires r.core.tenantId == table[k].core.tenantId && r.position == table[k].position
    ensures UniqueIndex(table[k := r])
  {
    var after := table[k := r];
    forall i, j | 0 <= i < j < |after|
      ensures after[i].core.tenantId != after[j].core.tenantId || after[i].position != after[j].position
    {
      assert table[i].core.tenantId != table[j].core.tenantId || table[i].position != table[j].position;
    }
  }

  lemma UpdatedWindow(table: seq<Row>, t: string, from: int, to: Option<int>, rows: seq<Row>, k: nat, p: nat, r: Row)
    requires UniqueIndex(table) && IsWindow(table, t, from, to, rows)
    requires k < |table| && p < |rows| && table[k] == rows[p]
    requires r.core.tenantId == table[k].core.tenantId && r.position == table[k].position
    ensures IsWindow(table[k := r], t, from, to, rows[p := r])
  {
    var after, w := table[k := r], rows[p := r];
    assert rows[p] in rows;
    assert PositionsRise(w);
    forall x
      ensures x in w <==> x in after && Within(x, t, from, to)
    {
      if x in w && x != r {
        var i :| 0 <= i < |w| && w[i] == x;
        assert x == rows[i] && x in rows;
        var l :| 0 <= l < |table| && table[l] == x;
        RiseIsOrder(rows, i, p);
        RiseIsOrder(rows, p, i);
        assert after[l] == x;
      }
      if x in w && x == r {
        assert after[k] == r;
      }
      if x in after && Within(x, t, from, to) && x != r {
        var l :| 0 <= l < |after| && after[l] == x;
        SameRowSameSlot(table, l, k);
        assert x == table[l] && x in rows;
        var i :| 0 <= i < |rows| && rows[i] == x;
        assert w[i] == x;
      }
      if x == r {
        assert w[p] == r;
      }
    }
  }

  lemma SameRowSameSlot(table: seq<Row>, l: nat, k: nat)
    requires UniqueIndex(table) && l < |table| && k < |table|
    ensures table[l] == table[k] ==> l == k
  {}

  /**
   Altering the hashed content of one row of a valid chain is reported by exactly one break, a
   `this_hash_mismatch` at that row, if the new content can be encoded, or the old and the new content collide.
   If it cannot be encoded, the replay raises.
   */
  lemma AlterationIsLocalised(s: Scheme, table: seq<Row>, t: string, to: Option<int>, k: nat, r: Row)
    requires Canonical(s) && UniqueIndex(table) && ProperTable(table) && VerifiesCleanly(s, table, t, 1, to)
    requires k < |table| && Within(table[k], t, 1, to)
    requires Altered(table[k], r) && ProperEvent(r.core)
    ensures var rows := WindowRows(table[k := r], t, 1, to);
            && (Raises(s, 1, rows) <==> !Encodes(s, r.core))
            && (Encodes(s, r.core) ==>
                  || Collision(s, RowPreimage(s, table[k]), RowPreimage(s, r))
                  || Flatten(Reports(s, Anchor(s, table[k := r], t, 1), 1, rows)) == [HashBreak(s, r)])
  {
    var rows := WindowRows(table, t, 1, to);
    WindowRowsIsWindow(table, t, 1, to);
    CleanRowsAreChain(s, table, t, to);
    assert table[k] in rows;
    var p :| 0 <= p < |rows| && rows[p] == table[k];
    PrevIsHash(s, t, rows, p);
    UpdateKeepsIndex(table, k, r);
    UpdatedWindow(table, t, 1, to, rows, k, p, r);
    WindowIs(table[k := r], t, 1, to, rows[p := r]);
    AlteringOneRow(s, GenesisHash(s, t), 1, rows, p, r);
  }

  /* ---------- Altering any rows at once ---------- */

  /** Every row is as it was, or has other hashed content in the same place. */
  ghost predicate AlteredSome(rows: seq<Row>, after: seq<Row>) {
    |after| == |rows| && forall i :: 0 <= i < |rows| ==> after[i] == rows[i] || Altered(rows[i], after[i])
  }

  /** One break for every altered row, in order. */
  function AlterationReports(s: Scheme, rows: seq<Row>, after: seq<Row>): (r: seq<seq<Break>>)
    requires |after| == |rows|
    ensures |r| == |rows|
  {
    seq(|rows|, i requires 0 <= i < |rows| => if after[i] == rows[i] then [] else [HashBreak(s, after[i])])
  }

  ghost predicate CollidesAt(s: Scheme, rows: seq<Row>, after: seq<Row>, i: nat) {
    && i < |rows| && i < |after| && Encodes(s, after[i].core)
    && Collision(s, RowPreimage(s, rows[i]), RowPreimage(s, after[i]))
  }

  ghost predicate HashedProperly(rows: seq<Row>) {
    forall i :: 0 <= i < |rows| ==> IsHash(rows[i].prevHash) && ProperEvent(rows[i].core)
  }

  lemma AlteredRowReport(s: Scheme, anchor: string, from: int, rows: seq<Row>, after: seq<Row>, i: nat)
    requires Canonical(s) && Linked(s, anchor, from, rows) && AlteredSome(rows, after)
    requires HashedProperly(rows) && HashedProperly(after) && i < |rows|
    ensures RaisesAt(s, from, after, i) <==> !Encodes(s, after[i].core)
    ensures Encodes(s, after[i].core) ==>
              || CollidesAt(s, rows, after, i)
              || BreaksAt(s, anchor, from, after, i) == AlterationReports(s, rows, after)[i]
  {
    var one := rows[i := after[i]];
    assert ExpectedPrev(anchor, after, i) == ExpectedPrev(anchor, one, i);
    assert ExpectedPosition(from, after, i) == ExpectedPosition(from, one, i);
    ReportIsLocal(s, anchor, from, one, i, after, i);
    if after[i] == rows[i] {
      assert one == rows;
      LinkedRowIsQuiet(s, anchor, from, rows, i);
    } else {
      AlteredReport(s, anchor, from, rows, i, after[i]);
    }
  }

  /** Some row's content cannot be encoded. */
  ghost predicate SomeRefused(s: Scheme, rows: seq<Row>) {
    exists i :: 0 <= i < |rows| && !Encodes(s, rows[i].core)
  }

  lemma AlteringRows(s: Scheme, anchor: string, from: int, rows: seq<Row>, after: seq<Row>)
    requires Canonical(s) && Linked(s, anchor, from, rows) && AlteredSome(rows, after)
    requires HashedProperly(rows) && HashedProperly(after)
    ensures Raises(s, from, after) <==> SomeRefused(s, after)
    ensures !SomeRefused(s, after) ==>
              || (exists i :: CollidesAt(s, rows, after, i))
              || Reports(s, anchor, from, after) == AlterationReports(s, rows, after)
  {
    forall i | 0 <= i < |rows|
      ensures RaisesAt(s, from, after, i) <==> !Encodes(s, after[i].core)
      ensures Encodes(s, after[i].core) ==>
                || CollidesAt(s, rows, after, i)
                || BreaksAt(s, anchor, from, after, i) == AlterationReports(s, rows, after)[i]
    {
      AlteredRowReport(s, anchor, from, rows, after, i);
    }
  }

  /** Row by row of the same tenants at the same positions. */
  ghost predicate SamePlaces(table: seq<Row>, after: seq<Row>) {
    |after| == |table| && forall i :: 0 <= i < |table| ==> SamePlace(table[i], after[i])
  }

  ghost predicate SamePlace(q: Row, r: Row) {
    q.core.tenantId == r.core.tenantId && q.position == r.position
  }

  lemma SamePlacesKeepIndex(table: seq<Row>, after: seq<Row>)
    requires UniqueIndex(table) && SamePlaces(table, after)
    ensures UniqueIndex(after)
  {
    forall i, j | 0 <= i < j < |after|
      ensures after[i].core.tenantId != after[j].core.tenantId || after[i].position != after[j].position
    {
      assert SamePlace(table[i], after[i]) && SamePlace(table[j], after[j]);
    }
  }

  ghost function Slot(table: seq<Row>, r: Row): (l: nat)
    requires r in table
    ensures l < |table| && table[l] == r
  {
    var l :| 0 <= l < |table| && table[l] == r;
    l
  }

  /** The rows that have taken the places of the window's rows. */
  ghost function Successors(table: seq<Row>, after: seq<Row>, rows: seq<Row>): (w: seq<Row>)
    requires |after| == |table| && forall i :: 0 <= i < |rows| ==> rows[i] in table
    ensures |w| == |rows| && forall i :: 0 <= i < |rows| ==> w[i] == after[Slot(table, rows[i])]
  {
    seq(|rows|, i requires 0 <= i < |rows| => after[Slot(table, rows[i])])
  }

  lemma SuccessorPlace(table: seq<Row>, after: seq<Row>, rows: seq<Row>, i: nat)
    requires SamePlaces(table, after) && i < |rows| && forall j :: 0 <= j < |rows| ==> rows[j] in table
    ensures SamePlace(rows[i], Successors(table, after, rows)[i]) && Successors(table, after, rows)[i] in after
  {
    assert SamePlace(table[Slot(table, rows[i])], after[Slot(table, rows[i])]);
  }

  lemma SuccessorsAreWindow(table: seq<Row>, after: seq<Row>, t: string, from: int, to: Option<int>, rows: seq<Row>)
    requires UniqueIndex(table) && SamePlaces(table, after) && IsWindow(table, t, from, to, rows)
    requires forall j :: 0 <= j < |rows| ==> rows[j] in table
    ensures IsWindow(after, t, from, to, Successors(table, after, rows))
  {
    var w := Successors(table, after, rows);
    forall i | 0 <= i < |w|
      ensures SamePlace(rows[i], w[i]) && w[i] in after && Within(w[i], t, from, to)
    {
      SuccessorPlace(table, after, rows, i);
      assert rows[i] in rows;
    }
    forall x | x in after && Within(x, t, from, to)
      ensures x in w
    {
      var l :| 0 <= l < |after| && after[l] == x;
      assert SamePlace(table[l], x) && table[l] in rows;
      var i :| 0 <= i < |rows| && rows[i] == table[l];
      SameRowSameSlot(table, l, Slot(table, rows[i]));
      assert w[i] == x;
    }
  }

  /**
   Altering the hashed content of any rows of a valid chain is reported by exactly one break for each, a
   `this_hash_mismatch` at that row, in order, or the old and the new content of a row collide; and the replay
   raises if and only if the content of some row can no longer be encoded.
   */
  lemma AlterationsAreLocalised(s: Scheme, table: seq<Row>, t: string, to: Option<int>, after: seq<Row>,
                                rows: seq<Row>, w: seq<Row>)
    requires Canonical(s) && UniqueIndex(table) && ProperTable(table) && ProperTable(after)
    requires VerifiesCleanly(s, table, t, 1, to) && AlteredSome(table, after)
    requires rows == WindowRows(table, t, 1, to) && w == WindowRows(after, t, 1, to)
    ensures UniqueIndex(after) && AlteredSome(rows, w)
    ensures Raises(s, 1, w) <==> SomeRefused(s, w)
    ensures !SomeRefused(s, w) ==>
              || (exists i :: CollidesAt(s, rows, w, i))
              || Flatten(Reports(s, Anchor(s, after, t, 1), 1, w)) == Flatten(AlterationReports(s, rows, w))
  {
    WindowRowsIsWindow(table, t, 1, to);
    CleanRowsAreChain(s, table, t, to);
    assert forall i :: 0 <= i < |table| ==> SamePlace(table[i], after[i]);
    SamePlacesKeepIndex(table, after);
    forall j | 0 <= j < |rows|
      ensures rows[j] in table
    {
      assert rows[j] in rows;
    }
    SuccessorsAreWindow(table, after, t, 1, to, rows);
    WindowIs(after, t, 1, to, Successors(table, after, rows));
    forall i | 0 <= i < |rows|
      ensures w[i] == rows[i] || Altered(rows[i], w[i])
      ensures IsHash(rows[i].prevHash) && ProperEvent(rows[i].core)
      ensures IsHash(w[i].prevHash) && ProperEvent(w[i].core)
    {
      PrevIsHash(s, t, rows, i);
      SuccessorPlace(table, after, rows, i);
      var l := Slot(table, rows[i]);
      assert after[l] == table[l] || Altered(table[l], after[l]);
    }
    AlteringRows(s, GenesisHash(s, t), 1, rows, w);
  }

  /* ---------- Altering a row and hashing it again ---------- */

  /** `r` stands in the place of `q` with another hash, which is that of its own content. */
  ghost predicate Rehashed(s: Scheme, q: Row, r: Row) {
    SamePlace(q, r) && q.prevHash == r.prevHash && HashIsCorrect(s, r) && r.thisHash != q.thisHash
  }

  /** The break that a row causes whose predecessor was hashed again. */
  function LinkBreak(prev: Row, r: Row): Break {
    Break(r.position, r.core.id, prev.thisHash, r.prevHash, "", r.thisHash, PrevHashMismatch)
  }

  lemma RehashedReport(s: Scheme, anchor: string, from: int, rows: seq<Row>, p: nat, r: Row, i: nat)
    requires Linked(s, anchor, from, rows) && p < |rows| && Rehashed(s, rows[p], r) && i < |rows|
    ensures !RaisesAt(s, from, rows[p := r], i)
    ensures BreaksAt(s, anchor, from, rows[p := r], i) == if i == p + 1 then [LinkBreak(r, rows[i])] else []
  {
    var after := rows[p := r];
    LinkedInSequence(s, anchor, from, rows, i);
    assert ExpectedPosition(from, after, i) == ExpectedPosition(from, rows, i);
    if i != p + 1 {
      assert ExpectedPrev(anchor, after, i) == ExpectedPrev(anchor, rows, i);
      QuietRow(s, anchor, from, after, i);
    }
  }

  lemma RehashingRaisesNothing(s: Scheme, anchor: string, from: int, rows: seq<Row>, p: nat, r: Row)
    requires Linked(s, anchor, from, rows) && p < |rows| && Rehashed(s, rows[p], r)
    ensures !Raises(s, from, rows[p := r])
  {
    var after := rows[p := r];
    forall i | 0 <= i < |after|
      ensures !RaisesAt(s, from, after, i)
    {
      RehashedReport(s, anchor, from, rows, p, r, i);
    }
  }

  /** Reports of which at most the one at `p` says anything. */
  lemma FlattenAtMostOne<T>(ss: seq<seq<T>>, p: nat)
    requires forall i :: 0 <= i < |ss| && i != p ==> ss[i] == []
    ensures Flatten(ss) == if p < |ss| then ss[p] else []
  {
    if p < |ss| {
      FlattenOne(ss, p);
    } else {
      FlattenEmpty(ss);
    }
  }

  lemma RehashingOneRow(s: Scheme, anchor: string, from: int, rows: seq<Row>, p: nat, r: Row)
    requires Linked(s, anchor, from, rows) && p < |rows| && Rehashed(s, rows[p], r)
    ensures Flatten(Reports(s, anchor, from, rows[p := r])) ==
            if p + 1 < |rows| then [LinkBreak(r, rows[p + 1])] else []
  {
    var reports := Reports(s, anchor, from, rows[p := r]);
    forall i | 0 <= i < |reports| && i != p + 1
      ensures reports[i] == []
    {
      RehashedReport(s, anchor, from, rows, p, r, i);
    }
    FlattenAtMostOne(reports, p + 1);
    if p + 1 < |rows| {
      RehashedReport(s, anchor, from, rows, p, r, p + 1);
    }
  }

  /**
   When the altered row of a valid chain is hashed again, exactly one break is reported, a
   `prev_hash_mismatch` at its successor; at the head of the chain, where there is none, nothing is.
   */
  lemma RehashingIsLocalised(s: Scheme, table: seq<Row>, t: string, to: Option<int>, k: nat, r: Row, rows: seq<Row>)
    returns (p: nat)
    requires UniqueIndex(table) && VerifiesCleanly(s, table, t, 1, to) && rows == WindowRows(table, t, 1, to)
    requires k < |table| && Within(table[k], t, 1, to) && Rehashed(s, table[k], r)
    ensures p < |rows| && rows[p] == table[k]
    ensures !Raises(s, 1, WindowRows(table[k := r], t, 1, to))
    ensures Flatten(Reports(s, Anchor(s, table[k := r], t, 1), 1, WindowRows(table[k := r], t, 1, to))) ==
            if p + 1 < |rows| then [LinkBreak(r, rows[p + 1])] else []
  {
    WindowRowsIsWindow(table, t, 1, to);
    QuietMeansLinked(s, GenesisHash(s, t), 1, rows);
    assert table[k] in rows;
    p :| 0 <= p < |rows| && rows[p] == table[k];
    UpdateKeepsIndex(table, k, r);
    UpdatedWindow(table, t, 1, to, rows, k, p, r);
    WindowIs(table[k := r], t, 1, to, rows[p := r]);
    RehashingRaisesNothing(s, GenesisHash(s, t), 1, rows, p, r);
    RehashingOneRow(s, GenesisHash(s, t), 1, rows, p, r);
  }

  /* ---------- Overwriting a link ---------- */

  /** `r` has taken the place of `rows[p]`, whatever it holds: the replay raises exactly if it cannot be hashed. */
  lemma OverwrittenRow(s: Scheme, anchor: string, rows: seq<Row>, p: nat, r: Row)
    requires Linked(s, anchor, 1, rows) && p < |rows| && r.position == rows[p].position
    ensures Raises(s, 1, rows[p := r]) <==> Unhashable(s, r)
  {
    var after := rows[p := r];
    LinkedInSequence(s, anchor, 1, rows, p);
    assert InSequence(1, after, p);
    assert RaisesAt(s, 1, after, p) <==> Unhashable(s, r);
    forall i | 0 <= i < |after| && i != p
      ensures !RaisesAt(s, 1, after, i)
    {
      LinkedRowIsQuiet(s, anchor, 1, rows, i);
    }
  }

  /**
   The replay does not report every change: it raises instead, exactly if a row of a valid chain is overwritten
   by one that cannot be hashed: an unreadable link, a payload that makes no dictionary, or a core that the
   encoder refuses.
   */
  lemma UnhashableRowRaises(s: Scheme, table: seq<Row>, t: string, to: Option<int>, k: nat, r: Row)
    requires UniqueIndex(table) && VerifiesCleanly(s, table, t, 1, to)
    requires k < |table| && Within(table[k], t, 1, to) && SamePlace(table[k], r)
    ensures Raises(s, 1, WindowRows(table[k := r], t, 1, to)) <==> Unhashable(s, r)
  {
    var rows := WindowRows(table, t, 1, to);
    WindowRowsIsWindow(table, t, 1, to);
    QuietMeansLinked(s, GenesisHash(s, t), 1, rows);
    assert table[k] in rows;
    var p :| 0 <= p < |rows| && rows[p] == table[k];
    UpdateKeepsIndex(table, k, r);
    UpdatedWindow(table, t, 1, to, rows, k, p, r);
    WindowIs(table[k := r], t, 1, to, rows[p := r]);
    OverwrittenRow(s, GenesisHash(s, t), rows, p, r);
  }

  /** Overwriting a link alone: the replay raises if and only if the text is not hexadecimal. */
  lemma UnreadableLinkRaises(s: Scheme, table: seq<Row>, t: string, to: Option<int>, k: nat, link: string)
    requires UniqueIndex(table) && VerifiesCleanly(s, table, t, 1, to)
    requires k < |table| && Within(table[k], t, 1, to)
    ensures Raises(s, 1, WindowRows(table[k := table[k].(prevHash := link)], t, 1, to)) <==> FromHex(link).None?
  {
    UnhashableRowRaises(s, table, t, to, k, table[k].(prevHash := link));
    RowsEncode(s, table, t, to, table[k]);
  }

  lemma RowsEncode(s: Scheme, table: seq<Row>, t: string, to: Option<int>, r: Row)
    requires UniqueIndex(table) && VerifiesCleanly(s, table, t, 1, to) && r in table && Within(r, t, 1, to)
    ensures !Unhashable(s, r)
  {
    CleanMeansIntact(s, table, t, 1, to);
    assert IntactRow(s, table, t, 1, r);
  }

  /** A text of the length that the columns for hashes take, and not hexadecimal. */
  const UNREADABLE: string := seq(64, _ => 'z')

  /** A chain of one row. */
  lemma OneRowChain(s: Scheme, event: Event, notes: Annotations) returns (r: Row)
    requires Encodes(s, event)
    ensures r.core == event && |r.prevHash| == |r.thisHash| == 64 && r.position == 1
    ensures UniqueIndex([r]) && VerifiesCleanly(s, [r], event.tenantId, 1, None)
  {
    var t := event.tenantId;
    FromHexOfHex(s.sha(GenesisPreimage(t)));
    var h := ComputeChainHash(s, GenesisHash(s, t), event).value;
    r := Row(event, notes, GenesisHash(s, t), h, 1);
    assert IsWindow([r], t, 1, None, [r]);
    WindowIs([r], t, 1, None, [r]);
    assert LinkedAt(s, GenesisHash(s, t), 1, [r], 0);
    QuietMeansLinked(s, GenesisHash(s, t), 1, [r]);
  }

  /** Whatever the event: its chain of one row verifies, and raises once its link is overwritten with such a text. */
  lemma FittingLinkRaises(s: Scheme, event: Event, notes: Annotations) returns (r: Row)
    requires Encodes(s, event)
    ensures r.core == event && |r.prevHash| == |r.thisHash| == |UNREADABLE| == 64
    ensures VerifiesCleanly(s, [r], event.tenantId, 1, None)
    ensures Raises(s, 1, WindowRows([r.(prevHash := UNREADABLE)], event.tenantId, 1, None))
  {
    r := OneRowChain(s, event, notes);
    UnreadableLinkRaises(s, [r], event.tenantId, None, 0, UNREADABLE);
    assert [r][0 := r.(prevHash := UNREADABLE)] == [r.(prevHash := UNREADABLE)];
  }

  /** The same of its payload, overwritten with one that cannot be encoded. */
  lemma RefusedPayloadRaises(s: Scheme, event: Event, notes: Annotations, payload: Json) returns (r: Row)
    requires Encodes(s, event) && !Encodes(s, event.(payload := payload))
    ensures r.core == event && VerifiesCleanly(s, [r], event.tenantId, 1, None)
    ensures Raises(s, 1, WindowRows([r.(core := event.(payload := payload))], event.tenantId, 1, None))
  {
    r := OneRowChain(s, event, notes);
    var q := r.(core := event.(payload := payload));
    UnhashableRowRaises(s, [r], event.tenantId, None, 0, q);
    assert [r][0 := q] == [q];
  }

  /* ---------- What the replay cannot see ---------- */

  /** Changing the columns outside the hash changes no report. */
  lemma AnnotationsAreNotCovered(s: Scheme, anchor: string, from: int, rows: seq<Row>, p: nat, notes: Annotations)
    requires p < |rows|
    ensures Reports(s, anchor, from, rows[p := rows[p].(notes := notes)]) == Reports(s, anchor, from, rows)
  {
    var after := rows[p := rows[p].(notes := notes)];
    forall i | 0 <= i < |rows|
      ensures BreaksAt(s, anchor, from, after, i) == BreaksAt(s, anchor, from, rows, i)
    {
      assert ExpectedPrev(anchor, after, i) == ExpectedPrev(anchor, rows, i);
      assert InSequence(from, after, i) == InSequence(from, rows, i);
    }
  }

  lemma SameEventSameReport(s: Scheme, anchor: string, from: int, rows: seq<Row>, p: nat, r: Row, i: nat)
    requires Canonical(s) && p < |rows| && i < |rows|
    requires ProperEvent(rows[p].core) && ProperEvent(r.core) && SameEvent(rows[p].core, r.core)
    requires SamePlace(rows[p], r) && rows[p].prevHash == r.prevHash && rows[p].thisHash == r.thisHash
    ensures BreaksAt(s, anchor, from, rows[p := r], i) == BreaksAt(s, anchor, from, rows, i)
    ensures RaisesAt(s, from, rows[p := r], i) <==> RaisesAt(s, from, rows, i)
  {
    var after := rows[p := r];
    SameEventSameBytes(s, rows[p].core, r.core);
    assert ExpectedPrev(anchor, after, i) == ExpectedPrev(anchor, rows, i);
    assert ExpectedPosition(from, after, i) == ExpectedPosition(from, rows, i);
    assert ComputeChainHash(s, rows[p].prevHash, rows[p].core) == ComputeChainHash(s, r.prevHash, r.core);
    assert Unhashable(s, r) <==> ComputeChainHash(s, r.prevHash, r.core).None?;
    assert Unhashable(s, rows[p]) <==> ComputeChainHash(s, rows[p].prevHash, rows[p].core).None?;
  }

  /**
   Nor does the replay see a change of columns that leaves the hashed fields as they are, such as another
   payload of which Python makes the same dictionary.
   */
  lemma SameEventIsNotNoticed(s: Scheme, anchor: string, from: int, rows: seq<Row>, p: nat, r: Row)
    requires Canonical(s) && p < |rows|
    requires ProperEvent(rows[p].core) && ProperEvent(r.core) && SameEvent(rows[p].core, r.core)
    requires SamePlace(rows[p], r) && rows[p].prevHash == r.prevHash && rows[p].thisHash == r.thisHash
    ensures Reports(s, anchor, from, rows[p := r]) == Reports(s, anchor, from, rows)
    ensures Raises(s, from, rows[p := r]) <==> Raises(s, from, rows)
  {
    var after := rows[p := r];
    forall i | 0 <= i < |rows|
      ensures BreaksAt(s, anchor, from, after, i) == BreaksAt(s, anchor, from, rows, i)
      ensures RaisesAt(s, from, after, i) <==> RaisesAt(s, from, rows, i)
    {
      SameEventSameReport(s, anchor, from, rows, p, r, i);
    }
  }

  /* ---------- Deleting a block ---------- */

  /** The rows of `t` at positions `lo` to `hi` are gone. */
  function Delete(table: seq<Row>, t: string, lo: int, hi: int): seq<Row> {
    Tables.Where(table, (r: Row) => !(r.core.tenantId == t && lo <= r.position <= hi))
  }

  lemma {:induction false} DeleteKeepsIndex(table: seq<Row>, t: string, lo: int, hi: int)
    requires UniqueIndex(table)
    ensures UniqueIndex(Delete(table, t, lo, hi))
  {
    var p := (r: Row) => !(r.core.tenantId == t && lo <= r.position <= hi);
    WhereKeepsIndex(table, p);
  }

  lemma {:induction false} WhereKeepsIndex(table: seq<Row>, p: Row -> bool)
    requires UniqueIndex(table)
    ensures UniqueIndex(Tables.Where(table, p))
  {
    if table != [] {
      var rest := Tables.Where(table[1..], p);
      WhereKeepsIndex(table[1..], p);
      forall j | 0 <= j < |rest|
        ensures rest[j].core.tenantId != table[0].core.tenantId || rest[j].position != table[0].position
      {
        Tables.WhereKeeps(table[1..], p, rest[j]);
        var k :| 0 <= k < |table[1..]| && table[1..][k] == rest[j];
        assert table[k + 1] == rest[j];
      }
    }
  }

  ghost predicate FromOne(rows: seq<Row>) {
    forall i :: 0 <= i < |rows| ==> rows[i].position == i + 1
  }

  lemma LinkedFromOne(s: Scheme, anchor: string, rows: seq<Row>)
    requires Linked(s, anchor, 1, rows)
    ensures FromOne(rows)
  {
    forall i | 0 <= i < |rows|
      ensures rows[i].position == i + 1
    {
      LinkedInSequence(s, anchor, 1, rows, i);
    }
  }

  /** What is left of the rows after those at indices `lo` to `hi - 1` are gone. */
  function Cut(rows: seq<Row>, lo: nat, hi: nat): (w: seq<Row>)
    requires lo <= hi <= |rows|
    ensures |w| == |rows| - (hi - lo)
    ensures forall i :: 0 <= i < |w| ==> w[i] == rows[if i < lo then i else i - lo + hi]
  {
    rows[..lo] + rows[hi..]
  }

  lemma DeletedWindow(table: seq<Row>, t: string, to: Option<int>, rows: seq<Row>, lo: nat, hi: nat)
    requires IsWindow(table, t, 1, to, rows) && FromOne(rows)
    requires lo <= hi <= |rows|
    ensures IsWindow(Delete(table, t, lo + 1, hi), t, 1, to, Cut(rows, lo, hi))
  {
    var w, after := Cut(rows, lo, hi), Delete(table, t, lo + 1, hi);
    forall x
      ensures x in w <==> x in after && Within(x, t, 1, to)
    {
      Tables.WhereKeeps(table, (r: Row) => !(r.core.tenantId == t && lo + 1 <= r.position <= hi), x);
      CutKeeps(rows, lo, hi, x);
    }
  }

  lemma CutKeeps(rows: seq<Row>, lo: nat, hi: nat, x: Row)
    requires FromOne(rows) && lo <= hi <= |rows|
    ensures x in Cut(rows, lo, hi) <==> x in rows && !(lo + 1 <= x.position <= hi)
  {
    var w := Cut(rows, lo, hi);
    if x in w {
      var i :| 0 <= i < |w| && w[i] == x;
    }
    if x in rows && !(lo + 1 <= x.position <= hi) {
      var i :| 0 <= i < |rows| && rows[i] == x;
      assert w[if i < lo then i else i - hi + lo] == x;
    }
  }

  lemma QuietAfterDeletion(s: Scheme, anchor: string, rows: seq<Row>, lo: nat, hi: nat, i: nat)
    requires Linked(s, anchor, 1, rows) && lo < hi <= |rows|
    requires i < |Cut(rows, lo, hi)| && i != lo
    ensures BreaksAt(s, anchor, 1, Cut(rows, lo, hi), i) == [] && !RaisesAt(s, 1, Cut(rows, lo, hi), i)
  {
    var j := if i < lo then i else i - lo + hi;
    ReportIsLocal(s, anchor, 1, Cut(rows, lo, hi), i, rows, j);
    LinkedRowIsQuiet(s, anchor, 1, rows, j);
  }

  /** The break that the row at index `hi` causes when those from `lo` on before it are gone. */
  function GapBreak(anchor: string, rows: seq<Row>, lo: nat, hi: nat): Break
    requires lo <= hi < |rows|
  {
    var row := rows[hi];
    Break(hi + 1, row.core.id, ExpectedPrev(anchor, rows, lo), row.prevHash, "", row.thisHash, PositionGap)
  }

  lemma GapAfterDeletion(s: Scheme, anchor: string, rows: seq<Row>, lo: nat, hi: nat)
    requires Linked(s, anchor, 1, rows) && lo < hi < |rows|
    ensures !RaisesAt(s, 1, Cut(rows, lo, hi), lo)
    ensures BreaksAt(s, anchor, 1, Cut(rows, lo, hi), lo) ==
            [GapBreak(anchor, rows, lo, hi)]
  {
    LinkedFromOne(s, anchor, rows);
    assert !InSequence(1, Cut(rows, lo, hi), lo);
  }

  lemma ReportsAfterDeletion(s: Scheme, anchor: string, rows: seq<Row>, lo: nat, hi: nat)
    requires Linked(s, anchor, 1, rows) && lo < hi <= |rows|
    ensures !Raises(s, 1, Cut(rows, lo, hi))
    ensures Flatten(Reports(s, anchor, 1, Cut(rows, lo, hi))) ==
            if hi == |rows| then []
            else [GapBreak(anchor, rows, lo, hi)]
  {
    var w := Cut(rows, lo, hi);
    var reports := Reports(s, anchor, 1, w);
    forall i | 0 <= i < |w| && i != lo
      ensures reports[i] == [] && !RaisesAt(s, 1, w, i)
    {
      QuietAfterDeletion(s, anchor, rows, lo, hi, i);
    }
    if hi == |rows| {
      FlattenEmpty(reports);
    } else {
      GapAfterDeletion(s, anchor, rows, lo, hi);
      FlattenOne(reports, lo);
    }
  }

  /**
   Deleting the rows at positions `lo + 1` to `hi` of a valid chain is reported by exactly one break, a
   `position_gap` at their successor. When they reach the end of the chain there is no successor and the
   replay stays clean: truncation is not detected without knowing the head hash.
   */
  lemma DeletionIsLocalised(s: Scheme, table: seq<Row>, t: string, to: Option<int>, lo: nat, hi: nat)
    requires UniqueIndex(table) && VerifiesCleanly(s, table, t, 1, to)
    requires lo < hi <= |WindowRows(table, t, 1, to)|
    ensures var rows, after := WindowRows(table, t, 1, to), Delete(table, t, lo + 1, hi);
            && !Raises(s, 1, WindowRows(after, t, 1, to))
            && Flatten(Reports(s, Anchor(s, after, t, 1), 1, WindowRows(after, t, 1, to))) ==
               if hi == |rows| then []
               else [GapBreak(GenesisHash(s, t), rows, lo, hi)]
  {
    var rows, after := WindowRows(table, t, 1, to), Delete(table, t, lo + 1, hi);
    WindowRowsIsWindow(table, t, 1, to);
    QuietMeansLinked(s, GenesisHash(s, t), 1, rows);
    DeleteKeepsIndex(table, t, lo + 1, hi);
    LinkedFromOne(s, GenesisHash(s, t), rows);
    DeletedWindow(table, t, to, rows, lo, hi);
    WindowIs(after, t, 1, to, Cut(rows, lo, hi));
    ReportsAfterDeletion(s, GenesisHash(s, t), rows, lo, hi);
  }
}
