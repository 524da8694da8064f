/**
 What a clean audit chain is evidence of: two chains with one head hash hold the same events.
 */
module AuditEvidence {
  import opened Wrappers
  import opened Text
  import opened AuditTrail
  import opened AuditChain

  ghost predicate ProperTable(table: seq<Row>) {
    forall r :: r in table ==> ProperEvent(r.core)
  }

  /* ---------- One row ---------- */

  /** A hash in the form `hexdigest()` gives it. */
  ghost predicate IsHash(h: string) {
    exists d: Digest :: h == Hex(d)
  }

  /** The bytes a correct row hashed. */
  function RowPreimage(s: Scheme, r: Row): Bytes {
    match ChainPreimage(s, r.prevHash, r.core)
    case Some(x) => x
    case None => []
  }

  lemma CorrectHash(s: Scheme, r: Row)
    requires HashIsCorrect(s, r)
    ensures r.thisHash == Hex(s.sha(RowPreimage(s, r))) && IsHash(r.thisHash) && Encodes(s, r.core)
  {}

  lemma PreimageOf(s: Scheme, r: Row, d: Digest)
    requires r.prevHash == Hex(d) && Encodes(s, r.core)
    ensures RowPreimage(s, r) == d + CoreBytes(s, r.core).value
  {
    FromHexOfHex(d);
  }

  /** Equal preimages mean equal links and equal hashed fields. */
  lemma PreimageIdentifiesRow(s: Scheme, q: Row, r: Row)
    requires Canonical(s) && ProperEvent(q.core) && ProperEvent(r.core)
    requires IsHash(q.prevHash) && IsHash(r.prevHash) && Encodes(s, q.core) && Encodes(s, r.core)
    requires RowPreimage(s, q) == RowPreimage(s, r)
    ensures q.prevHash == r.prevHash && SameEvent(q.core, r.core)
  {
    var d: Digest :| q.prevHash == Hex(d);
    var e: Digest :| r.prevHash == Hex(e);
    PreimageOf(s, q, d);
    PreimageOf(s, r, e);
    var x, y := CoreBytes(s, q.core).value, CoreBytes(s, r.core).value;
    assert d == (d + x)[..32] && e == (e + y)[..32];
    assert x == (d + x)[32..] && y == (e + y)[32..];
    CoreIdentifiesEvent(s, q.core, r.core);
  }

  /** Rows that end in one hash are the same row, or show a collision. */
  lemma SameHashSameRow(s: Scheme, q: Row, r: Row)
    requires Canonical(s) && ProperEvent(q.core) && ProperEvent(r.core)
    requires IsHash(q.prevHash) && IsHash(r.prevHash)
    requires HashIsCorrect(s, q) && HashIsCorrect(s, r) && q.thisHash == r.thisHash
    ensures || (q.prevHash == r.prevHash && SameEvent(q.core, r.core))
            || Collision(s, RowPreimage(s, q), RowPreimage(s, r))
  {
    CorrectHash(s, q);
    CorrectHash(s, r);
    HexInjective(s.sha(RowPreimage(s, q)), s.sha(RowPreimage(s, r)));
    if RowPreimage(s, q) == RowPreimage(s, r) {
      PreimageIdentifiesRow(s, q, r);
    }
  }

  /* ---------- Two chains with one head ---------- */

  ghost predicate Belongs(r: Row, t: string) {
    r.core.tenantId == t && ProperEvent(r.core)
  }

  /** The rows of tenant `t`, replayed cleanly from its genesis. */
  ghost predicate IsChain(s: Scheme, t: string, rows: seq<Row>) {
    && Linked(s, GenesisHash(s, t), 1, rows)
    && forall r :: r in rows ==> Belongs(r, t)
  }

  lemma PrevIsHash(s: Scheme, t: string, rows: seq<Row>, i: nat)
    requires IsChain(s, t, rows) && i < |rows|
    ensures IsHash(rows[i].prevHash) && HashIsCorrect(s, rows[i]) && rows[i] in rows
  {
    LinkedInSequence(s, GenesisHash(s, t), 1, rows, i);
    if i > 0 {
      LinkedInSequence(s, GenesisHash(s, t), 1, rows, i - 1);
      CorrectHash(s, rows[i - 1]);
    }
  }

  /** The two chains agree, hash for hash and field for field, on their first `n` rows. */
  ghost predicate Agree(q: seq<Row>, r: seq<Row>, n: nat)
    requires n <= |q| && n <= |r|
  {
    forall k :: 0 <= k < n ==> SameRow(q[k], r[k])
  }

  /** Bytes that a chain of tenant `t` passed to SHA-256. */
  ghost predicate Hashed(s: Scheme, t: string, rows: seq<Row>, x: Bytes) {
    x == GenesisPreimage(t) || exists r :: r in rows && x == RowPreimage(s, r)
  }

  /** The canonical core is at least as long as the tenant id inside it. */
  ghost predicate Roomy(s: Scheme) {
    forall e: Event {:trigger Encodes(s, e)} :: Encodes(s, e) ==> |CoreBytes(s, e).value| >= |Utf8(e.tenantId)|
  }

  lemma GenesisIsNoRow(s: Scheme, r: Row)
    requires Roomy(s) && IsHash(r.prevHash) && Encodes(s, r.core)
    ensures RowPreimage(s, r) != GenesisPreimage(r.core.tenantId)
  {
    var d: Digest :| r.prevHash == Hex(d);
    PreimageOf(s, r, d);
  }

  /** One chain ends at its genesis where the other has a row before: impossible without a collision. */
  lemma GenesisCollides(s: Scheme, t: string, rows: seq<Row>, j: nat)
    requires Roomy(s) && IsChain(s, t, rows) && j < |rows|
    requires rows[j].thisHash == GenesisHash(s, t)
    ensures Collision(s, RowPreimage(s, rows[j]), GenesisPreimage(t))
  {
    PrevIsHash(s, t, rows, j);
    CorrectHash(s, rows[j]);
    HexInjective(s.sha(RowPreimage(s, rows[j])), s.sha(GenesisPreimage(t)));
    GenesisIsNoRow(s, rows[j]);
  }

  /** A collision between bytes the two chains hashed. */
  ghost predicate ShowsCollision(s: Scheme, a: string, q: seq<Row>, b: string, r: seq<Row>, x: Bytes, y: Bytes) {
    Collision(s, x, y) && Hashed(s, a, q, x) && Hashed(s, b, r, y)
  }

  ghost predicate SameRow(q: Row, r: Row) {
    SameEvent(q.core, r.core) && q.prevHash == r.prevHash && q.thisHash == r.thisHash
  }

  lemma StepBack(s: Scheme, a: string, q: seq<Row>, i: nat, b: string, r: seq<Row>, j: nat)
    returns (same: bool, x: Bytes, y: Bytes)
    requires Canonical(s)
    requires IsChain(s, a, q) && i < |q| && IsChain(s, b, r) && j < |r|
    requires q[i].thisHash == r[j].thisHash
    ensures if same then a == b && SameRow(q[i], r[j]) else ShowsCollision(s, a, q, b, r, x, y)
  {
    PrevIsHash(s, a, q, i);
    PrevIsHash(s, b, r, j);
    SameHashSameRow(s, q[i], r[j]);
    x, y := RowPreimage(s, q[i]), RowPreimage(s, r[j]);
    same := !Collision(s, x, y);
  }

  lemma AgreeNext(q: seq<Row>, r: seq<Row>, n: nat)
    requires n < |q| && n < |r| && Agree(q, r, n) && SameRow(q[n], r[n])
    ensures Agree(q, r, n + 1)
  {}

  lemma LinkOf(s: Scheme, t: string, rows: seq<Row>, i: nat)
    requires IsChain(s, t, rows) && i < |rows|
    ensures rows[i].prevHash == if i == 0 then GenesisHash(s, t) else rows[i - 1].thisHash
  {
    LinkedInSequence(s, GenesisHash(s, t), 1, rows, i);
  }

  lemma LongerChain(s: Scheme, t: string, q: seq<Row>, r: seq<Row>, j: nat) returns (x: Bytes, y: Bytes)
    requires Roomy(s) && IsChain(s, t, r) && j < |r|
    requires r[j].thisHash == GenesisHash(s, t)
    ensures ShowsCollision(s, t, q, t, r, x, y)
    ensures ShowsCollision(s, t, r, t, q, y, x)
  {
    GenesisCollides(s, t, r, j);
    x, y := GenesisPreimage(t), RowPreimage(s, r[j]);
    assert r[j] in r;
  }

  lemma {:induction false} WalkBack(s: Scheme, a: string, q: seq<Row>, i: nat, b: string, r: seq<Row>, j: nat)
    returns (same: bool, x: Bytes, y: Bytes)
    requires Canonical(s) && (i != j ==> Roomy(s))
    requires IsChain(s, a, q) && i < |q| && IsChain(s, b, r) && j < |r|
    requires q[i].thisHash == r[j].thisHash
    ensures if same then i == j && a == b && Agree(q, r, i + 1) else ShowsCollision(s, a, q, b, r, x, y)
    decreases i
  {
    same, x, y := StepBack(s, a, q, i, b, r, j);
    if same {
      LinkOf(s, a, q, i);
      LinkOf(s, b, r, j);
      if i > 0 && j > 0 {
        same, x, y := WalkBack(s, a, q, i - 1, b, r, j - 1);
        if same {
          AgreeNext(q, r, i);
        }
      } else if i > 0 {
        y, x := LongerChain(s, a, r, q, i - 1);
        same := false;
      } else if j > 0 {
        x, y := LongerChain(s, a, q, r, j - 1);
        same := false;
      } else {
        AgreeNext(q, r, 0);
      }
    }
  }

  lemma CleanRowsAreChain(s: Scheme, table: seq<Row>, t: string, to: Option<int>)
    requires UniqueIndex(table) && ProperTable(table) && VerifiesCleanly(s, table, t, 1, to)
    ensures IsChain(s, t, WindowRows(table, t, 1, to))
  {
    var rows := WindowRows(table, t, 1, to);
    WindowRowsIsWindow(table, t, 1, to);
    QuietMeansLinked(s, Anchor(s, table, t, 1), 1, rows);
  }

  /**
   Tamper evidence. Two tables that verify cleanly from position 1 and end in the same hash hold the same
   rows in every hashed field, position by position; otherwise two of the byte strings they hashed collide.
   That the chains have equally many rows need not be known beforehand, as long as the encoder is roomy.
   */
  lemma TamperEvidence(s: Scheme, t1: seq<Row>, a: string, to1: Option<int>, q: seq<Row>,
                       t2: seq<Row>, b: string, to2: Option<int>, r: seq<Row>)
    returns (x: Bytes, y: Bytes)
    requires Canonical(s) && (|q| != |r| ==> Roomy(s))
    requires UniqueIndex(t1) && ProperTable(t1) && VerifiesCleanly(s, t1, a, 1, to1)
    requires UniqueIndex(t2) && ProperTable(t2) && VerifiesCleanly(s, t2, b, 1, to2)
    requires q == WindowRows(t1, a, 1, to1) && r == WindowRows(t2, b, 1, to2) && q != [] && r != []
    requires q[|q| - 1].thisHash == r[|r| - 1].thisHash
    ensures (|q| == |r| && a == b && Agree(q, r, |q|)) || ShowsCollision(s, a, q, b, r, x, y)
  {
    CleanRowsAreChain(s, t1, a, to1);
    CleanRowsAreChain(s, t2, b, to2);
    x, y := SameHeadSameChain(s, a, q, b, r);
  }

  /** The same of two chains as such. */
  lemma SameHeadSameChain(s: Scheme, a: string, q: seq<Row>, b: string, r: seq<Row>) returns (x: Bytes, y: Bytes)
    requires Canonical(s) && (|q| != |r| ==> Roomy(s))
    requires IsChain(s, a, q) && IsChain(s, b, r) && q != [] && r != []
    requires q[|q| - 1].thisHash == r[|r| - 1].thisHash
    ensures (|q| == |r| && a == b && Agree(q, r, |q|)) || ShowsCollision(s, a, q, b, r, x, y)
  {
    var same;
    same, x, y := WalkBack(s, a, q, |q| - 1, b, r, |r| - 1);
  }
}
