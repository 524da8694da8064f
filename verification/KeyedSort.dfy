/**
 Sorting by a key: the contract of Python's `list.sort(key=...)` and of SQL's `ORDER BY`, for keys
 compared lexicographically. The sort is stable, as both promise when keys repeat.
 */
module KeyedSort {
  import Lex

  function Insert<T>(x: T, s: seq<T>, key: T -> seq<int>): (r: seq<T>)
    ensures |r| == |s| + 1
  {
    if s == [] || !Lex.Less(key(s[0]), key(x)) then [x] + s else [s[0]] + Insert(x, s[1..], key)
  }

  function Sort<T>(s: seq<T>, key: T -> seq<int>): (r: seq<T>)
    ensures |r| == |s|
  {
    if s == [] then [] else Insert(s[0], Sort(s[1..], key), key)
  }

  lemma {:induction false} InsertAdds<T>(x: T, s: seq<T>, key: T -> seq<int>)
    ensures multiset(Insert(x, s, key)) == multiset{x} + multiset(s)
  {
    if s != [] {
      InsertAdds(x, s[1..], key);
      assert s == [s[0]] + s[1..];
    }
  }

  /** Sorting permutes. */
  lemma {:induction false} SortPermutes<T>(s: seq<T>, key: T -> seq<int>)
    ensures multiset(Sort(s, key)) == multiset(s)
  {
    if s != [] {
      SortPermutes(s[1..], key);
      InsertAdds(s[0], Sort(s[1..], key), key);
      assert s == [s[0]] + s[1..];
    }
  }

  lemma InsertKeeps<T>(x: T, s: seq<T>, key: T -> seq<int>, y: T)
    ensures y in Insert(x, s, key) <==> y == x || y in s
  {
    InsertAdds(x, s, key);
    assert y in Insert(x, s, key) <==> y in multiset(Insert(x, s, key));
    assert y in s <==> y in multiset(s);
  }

  /** Sorting keeps exactly the elements there were. */
  lemma SortKeeps<T>(s: seq<T>, key: T -> seq<int>, x: T)
    ensures x in Sort(s, key) <==> x in s
  {
    SortPermutes(s, key);
    assert x in s <==> x in multiset(s);
    assert x in Sort(s, key) <==> x in multiset(Sort(s, key));
  }

  ghost predicate Ascending<T>(s: seq<T>, key: T -> seq<int>) {
    forall i, j :: 0 <= i < j < |s| ==> !Lex.Less(key(s[j]), key(s[i]))
  }

  ghost predicate StrictlyAscending<T>(s: seq<T>, key: T -> seq<int>) {
    forall i, j :: 0 <= i < j < |s| ==> Lex.Less(key(s[i]), key(s[j]))
  }

  ghost predicate DistinctKeys<T>(s: seq<T>, key: T -> seq<int>) {
    forall i, j :: 0 <= i < j < |s| ==> key(s[i]) != key(s[j])
  }

  lemma {:induction false} InsertAscends<T>(x: T, s: seq<T>, key: T -> seq<int>)
    requires Ascending(s, key)
    ensures Ascending(Insert(x, s, key), key)
  {
    var r := Insert(x, s, key);
    if s == [] {
    } else if !Lex.Less(key(s[0]), key(x)) {
      forall j | 0 < j < |r|
        ensures !Lex.Less(key(r[j]), key(r[0]))
      {
        if j > 1 {
          Lex.NotLessTransitive(key(x), key(s[0]), key(s[j - 1]));
        }
      }
    } else {
      var t := Insert(x, s[1..], key);
      InsertAscends(x, s[1..], key);
      assert r == [s[0]] + t;
      forall j | 0 < j < |r|
        ensures !Lex.Less(key(r[j]), key(r[0]))
      {
        assert r[j] == t[j - 1];
        InsertKeeps(x, s[1..], key, t[j - 1]);
        if t[j - 1] == x {
          Lex.Asymmetric(key(s[0]), key(x));
        } else {
          assert t[j - 1] in s[1..];
        }
      }
    }
  }

  lemma {:induction false} SortAscends<T>(s: seq<T>, key: T -> seq<int>)
    ensures Ascending(Sort(s, key), key)
  {
    if s != [] {
      SortAscends(s[1..], key);
      InsertAscends(s[0], Sort(s[1..], key), key);
    }
  }

  lemma {:induction false} InsertDistinct<T>(x: T, s: seq<T>, key: T -> seq<int>)
    requires DistinctKeys(s, key)
    requires forall y :: y in s ==> key(y) != key(x)
    ensures DistinctKeys(Insert(x, s, key), key)
  {
    if s != [] && Lex.Less(key(s[0]), key(x)) {
      var t := Insert(x, s[1..], key);
      InsertDistinct(x, s[1..], key);
      forall j | 0 <= j < |t|
        ensures key(t[j]) != key(s[0])
      {
        InsertKeeps(x, s[1..], key, t[j]);
        if t[j] != x {
          assert t[j] in s[1..];
        }
      }
    }
  }

  lemma {:induction false} SortDistinct<T>(s: seq<T>, key: T -> seq<int>)
    requires DistinctKeys(s, key)
    ensures DistinctKeys(Sort(s, key), key)
  {
    if s != [] {
      SortDistinct(s[1..], key);
      var r := Sort(s[1..], key);
      forall y | y in r
        ensures key(y) != key(s[0])
      {
        SortKeeps(s[1..], key, y);
        var i :| 0 <= i < |s[1..]| && s[1..][i] == y;
        assert s[i + 1] == y;
      }
      InsertDistinct(s[0], r, key);
    }
  }

  /** With distinct keys the sorted order is strict. */
  lemma SortStrict<T>(s: seq<T>, key: T -> seq<int>)
    requires DistinctKeys(s, key)
    ensures StrictlyAscending(Sort(s, key), key)
  {
    var r := Sort(s, key);
    SortAscends(s, key);
    SortDistinct(s, key);
    forall i, j | 0 <= i < j < |r|
      ensures Lex.Less(key(r[i]), key(r[j]))
    {
      Lex.Total(key(r[i]), key(r[j]));
    }
  }

  lemma StrictIsDistinct<T>(s: seq<T>, key: T -> seq<int>)
    requires StrictlyAscending(s, key)
    ensures DistinctKeys(s, key)
    ensures forall i, j :: 0 <= i < |s| && 0 <= j < |s| && key(s[i]) == key(s[j]) ==> i == j
  {
    forall i, j | 0 <= i < j < |s|
      ensures key(s[i]) != key(s[j])
    {
      Lex.Asymmetric(key(s[i]), key(s[j]));
    }
  }

  ghost predicate HasKey<T>(s: seq<T>, key: T -> seq<int>, k: seq<int>) {
    exists i :: 0 <= i < |s| && key(s[i]) == k
  }

  ghost predicate KeysWithin<T, U>(s: seq<T>, t: seq<U>, ks: T -> seq<int>, kt: U -> seq<int>) {
    forall i :: 0 <= i < |s| ==> HasKey(t, kt, ks(s[i]))
  }

  /** A strictly sorted sequence is determined by the set of its keys. */
  lemma {:induction false} StrictOrderIsUnique<T, U>(s: seq<T>, t: seq<U>, ks: T -> seq<int>, kt: U -> seq<int>)
    requires StrictlyAscending(s, ks) && StrictlyAscending(t, kt)
    requires KeysWithin(s, t, ks, kt) && KeysWithin(t, s, kt, ks)
    ensures |s| == |t|
    ensures forall i :: 0 <= i < |s| ==> ks(s[i]) == kt(t[i])
  {
    if s != [] {
      assert HasKey(t, kt, ks(s[0]));
    }
    if t != [] {
      assert HasKey(s, ks, kt(t[0]));
    }
    if s != [] && t != [] {
      SameFirstKey(s, t, ks, kt);
      TailsCover(s, t, ks, kt);
      TailsCover(t, s, kt, ks);
      StrictOrderIsUnique(s[1..], t[1..], ks, kt);
      forall i | 0 <= i < |s|
        ensures ks(s[i]) == kt(t[i])
      {
        if i > 0 {
          assert s[i] == s[1..][i - 1] && t[i] == t[1..][i - 1];
        }
      }
    }
  }

  lemma SameFirstKey<T, U>(s: seq<T>, t: seq<U>, ks: T -> seq<int>, kt: U -> seq<int>)
    requires s != [] && t != []
    requires StrictlyAscending(s, ks) && StrictlyAscending(t, kt)
    requires KeysWithin(s, t, ks, kt) && KeysWithin(t, s, kt, ks)
    ensures ks(s[0]) == kt(t[0])
  {
    assert HasKey(t, kt, ks(s[0])) && HasKey(s, ks, kt(t[0]));
    var j :| 0 <= j < |t| && kt(t[j]) == ks(s[0]);
    var i :| 0 <= i < |s| && ks(s[i]) == kt(t[0]);
    if j > 0 && i > 0 {
      Lex.Asymmetric(ks(s[0]), ks(s[i]));
    }
  }

  lemma TailsCover<T, U>(s: seq<T>, t: seq<U>, ks: T -> seq<int>, kt: U -> seq<int>)
    requires s != [] && t != [] && ks(s[0]) == kt(t[0])
    requires StrictlyAscending(s, ks)
    requires KeysWithin(s, t, ks, kt)
    ensures KeysWithin(s[1..], t[1..], ks, kt)
  {
    StrictIsDistinct(s, ks);
    forall i | 0 <= i < |s[1..]|
      ensures HasKey(t[1..], kt, ks(s[1..][i]))
    {
      assert HasKey(t, kt, ks(s[i + 1]));
      var j :| 0 <= j < |t| && kt(t[j]) == ks(s[i + 1]);
      assert t[1..][j - 1] == t[j];
    }
  }
}
