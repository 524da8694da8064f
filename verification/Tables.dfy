/**
 SQL tables as sequences of rows in storage order, and `SELECT ... WHERE ... ORDER BY ...` over them.
 */
module Tables {
  import KeyedSort

  function Where<T>(table: seq<T>, p: T -> bool): seq<T> {
    if table == [] then []
    else if p(table[0]) then [table[0]] + Where(table[1..], p)
    else Where(table[1..], p)
  }

  lemma {:induction false} WhereKeeps<T>(table: seq<T>, p: T -> bool, x: T)
    ensures x in Where(table, p) <==> x in table && p(x)
  {
    if table != [] {
      WhereKeeps(table[1..], p, x);
      assert table == [table[0]] + table[1..];
    }
  }

  function Select<T>(table: seq<T>, p: T -> bool, key: T -> seq<int>): seq<T> {
    KeyedSort.Sort(Where(table, p), key)
  }

  lemma SelectKeeps<T>(table: seq<T>, p: T -> bool, key: T -> seq<int>, x: T)
    ensures x in Select(table, p, key) <==> x in table && p(x)
  {
    WhereKeeps(table, p, x);
    KeyedSort.SortKeeps(Where(table, p), key, x);
  }

  /** A unique index over the rows that satisfy `p`. */
  ghost predicate UniqueOn<T>(table: seq<T>, p: T -> bool, key: T -> seq<int>) {
    forall i, j :: 0 <= i < j < |table| && p(table[i]) && p(table[j]) ==> key(table[i]) != key(table[j])
  }

  lemma {:induction false} WhereDistinct<T>(table: seq<T>, p: T -> bool, key: T -> seq<int>)
    requires UniqueOn(table, p, key)
    ensures KeyedSort.DistinctKeys(Where(table, p), key)
  {
    if table != [] {
      var rest := Where(table[1..], p);
      WhereDistinct(table[1..], p, key);
      if p(table[0]) {
        forall j | 0 <= j < |rest|
          ensures key(rest[j]) != key(table[0])
        {
          WhereKeeps(table[1..], p, rest[j]);
          var k :| 0 <= k < |table[1..]| && table[1..][k] == rest[j];
          assert table[k + 1] == rest[j];
        }
      }
    }
  }

  lemma SelectStrict<T>(table: seq<T>, p: T -> bool, key: T -> seq<int>)
    requires UniqueOn(table, p, key)
    ensures KeyedSort.StrictlyAscending(Select(table, p, key), key)
  {
    WhereDistinct(table, p, key);
    KeyedSort.SortStrict(Where(table, p), key);
  }

  ghost predicate SameRows<T(!new)>(s: seq<T>, t: seq<T>) {
    forall x :: x in s <==> x in t
  }

  /** Two strictly ordered sequences of the same rows are the same sequence. */
  lemma StrictSame<T(!new)>(s: seq<T>, t: seq<T>, key: T -> seq<int>)
    requires KeyedSort.StrictlyAscending(s, key) && KeyedSort.StrictlyAscending(t, key)
    requires SameRows(s, t)
    ensures s == t
  {
    RowsGiveKeys(s, t, key);
    RowsGiveKeys(t, s, key);
    KeyedSort.StrictOrderIsUnique(s, t, key, key);
    KeyedSort.StrictIsDistinct(t, key);
    forall i | 0 <= i < |s|
      ensures s[i] == t[i]
    {
      assert s[i] in t;
      var j :| 0 <= j < |t| && t[j] == s[i];
      assert key(t[j]) == key(t[i]);
    }
  }

  lemma RowsGiveKeys<T(!new)>(s: seq<T>, t: seq<T>, key: T -> seq<int>)
    requires SameRows(s, t)
    ensures KeyedSort.KeysWithin(s, t, key, key)
  {
    forall i | 0 <= i < |s|
      ensures KeyedSort.HasKey(t, key, key(s[i]))
    {
      assert s[i] in t;
      var j :| 0 <= j < |t| && t[j] == s[i];
    }
  }

  /** A query answers with the one strictly ordered sequence of the matching rows. */
  lemma SelectIs<T(!new)>(table: seq<T>, p: T -> bool, key: T -> seq<int>, w: seq<T>)
    requires UniqueOn(table, p, key)
    requires KeyedSort.StrictlyAscending(w, key)
    requires forall x :: x in w <==> x in table && p(x)
    ensures Select(table, p, key) == w
  {
    SelectStrict(table, p, key);
    forall x
      ensures x in Select(table, p, key) <==> x in w
    {
      SelectKeeps(table, p, key, x);
    }
    StrictSame(Select(table, p, key), w, key);
  }
}
