/**
 When two JSON values share their canonical bytes: exactly when they are the same value, whatever the
 insertion order of any object inside them.
 */
module CanonicalIdentity {
  import opened Json
  import opened Text
  import opened CanonicalJson
  import opened CanonicalParser
  import KeyedSort
  import Lex

  lemma {:induction false} NormalItemAt(items: seq<Json>, i: nat)
    requires i < |items|
    ensures NormalItems(items)[i] == Normal(items[i])
  {
    if i > 0 {
      NormalItemAt(items[1..], i - 1);
    }
  }

  lemma {:induction false} NormalMemberAt(members: seq<Member>, i: nat)
    requires i < |members|
    ensures NormalMembers(members)[i] == Member(members[i].key, Normal(members[i].val))
  {
    if i > 0 {
      NormalMemberAt(members[1..], i - 1);
    }
  }

  /* ---------- The sorted members ---------- */

  lemma SortedIndexOf(members: seq<Member>, i: nat) returns (k: nat)
    requires i < |members|
    ensures k < |members| && SortMembers(members)[k] == members[i]
  {
    var sorted := SortMembers(members);
    KeyedSort.SortKeeps(members, MemberKey, members[i]);
    k :| 0 <= k < |sorted| && sorted[k] == members[i];
  }

  lemma UnsortedIndexOf(members: seq<Member>, k: nat) returns (i: nat)
    requires k < |members|
    ensures i < |members| && SortMembers(members)[k] == members[i]
  {
    var sorted := SortMembers(members);
    KeyedSort.SortKeeps(members, MemberKey, sorted[k]);
    i :| 0 <= i < |members| && members[i] == sorted[k];
  }

  lemma SortedStrictly(members: seq<Member>)
    requires UniqueKeys(members)
    ensures KeyedSort.StrictlyAscending(SortMembers(members), MemberKey)
  {
    forall i, j | 0 <= i < j < |members|
      ensures MemberKey(members[i]) != MemberKey(members[j])
    {
      if MemberKey(members[i]) == MemberKey(members[j]) {
        Utf16BeInjective(members[i].key, members[j].key);
      }
    }
    KeyedSort.SortStrict(members, MemberKey);
  }

  /** Section 3.2.3 of RFC 8785: members are printed in strictly ascending order of their names' UTF-16 code units. */
  lemma MembersInCodeUnitOrder(members: seq<Member>, i: nat, j: nat)
    requires UniqueKeys(members) && i < j < |members|
    ensures Lex.Less(Utf16(SortMembers(members)[i].key), Utf16(SortMembers(members)[j].key))
  {
    var sorted := SortMembers(members);
    SortedStrictly(members);
    BigEndianKeepsOrder(Utf16(sorted[i].key), Utf16(sorted[j].key));
    assert Lex.Less(MemberKey(sorted[i]), MemberKey(sorted[j]));
  }

  ghost predicate NamesWithin(ms: seq<Member>, ns: seq<Member>) {
    forall i :: 0 <= i < |ms| ==> Named(ms[i].key, ns)
  }

  lemma SortedKeysWithin(ms: seq<Member>, ns: seq<Member>)
    requires NamesWithin(ms, ns)
    ensures KeyedSort.KeysWithin(SortMembers(ms), SortMembers(ns), MemberKey, MemberKey)
  {
    var s, t := SortMembers(ms), SortMembers(ns);
    forall k | 0 <= k < |s|
      ensures KeyedSort.HasKey(t, MemberKey, MemberKey(s[k]))
    {
      var i := UnsortedIndexOf(ms, k);
      assert Named(ms[i].key, ns);
      var j :| 0 <= j < |ns| && ns[j].key == ms[i].key;
      var l := SortedIndexOf(ns, j);
      assert MemberKey(t[l]) == MemberKey(s[k]);
    }
  }

  lemma SortedNamesAgree(ms: seq<Member>, ns: seq<Member>)
    requires UniqueKeys(ms) && UniqueKeys(ns)
    requires NamesWithin(ms, ns) && NamesWithin(ns, ms)
    ensures |ms| == |ns|
    ensures forall k :: 0 <= k < |ms| ==> SortMembers(ms)[k].key == SortMembers(ns)[k].key
  {
    var s, t := SortMembers(ms), SortMembers(ns);
    SortedStrictly(ms);
    SortedStrictly(ns);
    SortedKeysWithin(ms, ns);
    SortedKeysWithin(ns, ms);
    KeyedSort.StrictOrderIsUnique(s, t, MemberKey, MemberKey);
    forall k | 0 <= k < |s|
      ensures s[k].key == t[k].key
    {
      assert MemberKey(s[k]) == MemberKey(t[k]);
      Utf16BeInjective(s[k].key, t[k].key);
    }
  }

  lemma MatchedIsNamed(ms: seq<Member>, ns: seq<Member>)
    requires forall i :: 0 <= i < |ms| ==> Matched(ms[i], ns)
    ensures NamesWithin(ms, ns)
  {
    forall i | 0 <= i < |ms|
      ensures Named(ms[i].key, ns)
    {
      assert Matched(ms[i], ns);
    }
  }

  /* ---------- Same value, same normal form ---------- */

  /** The members at one place of the two sorted objects, where each lay before. */
  lemma SortedPartners(ms: seq<Member>, ns: seq<Member>, k: nat) returns (i: nat, j: nat)
    requires UniqueKeys(ms) && UniqueKeys(ns) && k < |ms|
    requires (forall i :: 0 <= i < |ms| ==> Matched(ms[i], ns)) && NamesWithin(ns, ms)
    ensures |ns| == |ms| && i < |ms| && j < |ns|
    ensures SortMembers(ms)[k] == ms[i] && SortMembers(ns)[k] == ns[j]
    ensures ms[i].key == ns[j].key && SameValue(ms[i].val, ns[j].val)
  {
    MatchedIsNamed(ms, ns);
    SortedNamesAgree(ms, ns);
    i := UnsortedIndexOf(ms, k);
    j := UnsortedIndexOf(ns, k);
    assert Matched(ms[i], ns);
    var l :| 0 <= l < |ns| && ns[l].key == ms[i].key && SameValue(ms[i].val, ns[l].val);
    assert ns[j].key == ns[l].key;
  }

  lemma {:induction false} SameValueSameNormal(v: Json, w: Json)
    requires WellFormed(v) && WellFormed(w) && SameValue(v, w)
    ensures Normal(v) == Normal(w)
    decreases v, 1
  {
    match (v, w)
    case (Arr(xs), Arr(ys)) =>
      forall i | 0 <= i < |xs|
        ensures NormalItems(xs)[i] == NormalItems(ys)[i]
      {
        NormalItemAt(xs, i);
        NormalItemAt(ys, i);
        SameValueSameNormal(xs[i], ys[i]);
      }
      assert NormalItems(xs) == NormalItems(ys);
    case (Obj(ms), Obj(ns)) =>
      SameObjectSameNormal(ms, ns);
    case _ =>
  }

  lemma {:induction false} SameObjectSameNormal(ms: seq<Member>, ns: seq<Member>)
    requires WellFormed(Obj(ms)) && WellFormed(Obj(ns)) && SameValue(Obj(ms), Obj(ns))
    ensures NormalMembers(SortMembers(ms)) == NormalMembers(SortMembers(ns))
    decreases Obj(ms), 0
  {
    MatchedIsNamed(ms, ns);
    SortedNamesAgree(ms, ns);
    var s, t := SortMembers(ms), SortMembers(ns);
    forall k | 0 <= k < |s|
      ensures NormalMembers(s)[k] == NormalMembers(t)[k]
    {
      var i, j := SortedPartners(ms, ns, k);
      NormalMemberAt(s, k);
      NormalMemberAt(t, k);
      SameValueSameNormal(ms[i].val, ns[j].val);
    }
  }

  lemma {:induction false} NormalKeepsMembers(ms: seq<Member>, ns: seq<Member>)
    requires ns == NormalMembers(SortMembers(ms))
    requires forall i :: 0 <= i < |ms| ==> SameValue(ms[i].val, Normal(ms[i].val))
    ensures SameValue(Obj(ms), Obj(ns))
  {
    forall i | 0 <= i < |ms|
      ensures Matched(ms[i], ns)
    {
      var k := SortedIndexOf(ms, i);
      NormalMemberAt(SortMembers(ms), k);
      assert ns[k].key == ms[i].key && SameValue(ms[i].val, ns[k].val);
    }
    forall k | 0 <= k < |ns|
      ensures Named(ns[k].key, ms)
    {
      var i := UnsortedIndexOf(ms, k);
      NormalMemberAt(SortMembers(ms), k);
    }
  }

  /** Normalising reorders members and changes nothing else. */
  lemma {:induction false} NormalIsSameValue(v: Json)
    ensures SameValue(v, Normal(v))
    decreases v
  {
    match v
    case Arr(items) =>
      forall i | 0 <= i < |items|
        ensures SameValue(items[i], NormalItems(items)[i])
      {
        NormalItemAt(items, i);
        NormalIsSameValue(items[i]);
      }
    case Obj(members) =>
      forall i | 0 <= i < |members|
        ensures SameValue(members[i].val, Normal(members[i].val))
      {
        NormalIsSameValue(members[i].val);
      }
      NormalKeepsMembers(members, NormalMembers(SortMembers(members)));
    case _ =>
  }

  /** Reading undoes printing, whatever follows: the same value up to the order of members, and the same rest. */
  lemma ReadBack(v: Json, rest: string)
    requires NoDigit(rest)
    ensures var r := ReadValue(Encode(v) + rest);
            r.Read? && SameValue(v, r.val) && r.rest == rest
  {
    ReadEncoded(v, rest);
    NormalIsSameValue(v);
  }

  /** Members at one place of equal sorted normal forms. */
  lemma PartnerOf(ms: seq<Member>, ns: seq<Member>, i: nat) returns (j: nat)
    requires i < |ms| && NormalMembers(SortMembers(ms)) == NormalMembers(SortMembers(ns))
    ensures j < |ns| && ns[j].key == ms[i].key && Normal(ns[j].val) == Normal(ms[i].val)
  {
    var k := SortedIndexOf(ms, i);
    assert |NormalMembers(SortMembers(ms))| == |NormalMembers(SortMembers(ns))|;
    j := UnsortedIndexOf(ns, k);
    NormalMemberAt(SortMembers(ms), k);
    NormalMemberAt(SortMembers(ns), k);
  }

  lemma {:induction false} SameNormalSameValue(v: Json, w: Json)
    requires Normal(v) == Normal(w)
    ensures SameValue(v, w)
    decreases v
  {
    match (v, w)
    case (Arr(xs), Arr(ys)) =>
      forall i | 0 <= i < |xs|
        ensures SameValue(xs[i], ys[i])
      {
        NormalItemAt(xs, i);
        NormalItemAt(ys, i);
        SameNormalSameValue(xs[i], ys[i]);
      }
    case (Obj(ms), Obj(ns)) =>
      assert |NormalMembers(SortMembers(ms))| == |NormalMembers(SortMembers(ns))|;
      forall i | 0 <= i < |ms|
        ensures Matched(ms[i], ns)
      {
        var j := PartnerOf(ms, ns, i);
        SameNormalSameValue(ms[i].val, ns[j].val);
      }
      forall j | 0 <= j < |ns|
        ensures Named(ns[j].key, ms)
      {
        var i := PartnerOf(ns, ms, j);
      }
    case _ =>
  }

  /* ---------- Encoding looks at the normal form only ---------- */

  /** Printing without sorting. */
  function Print(v: Json): string {
    match v
    case Arr(items) => "[" + PrintItems(items) + "]"
    case Obj(members) => "{" + PrintMembers(members) + "}"
    case _ => Encode(v)
  }

  function PrintItems(items: seq<Json>): string {
    if items == [] then ""
    else if |items| == 1 then Print(items[0])
    else Print(items[0]) + "," + PrintItems(items[1..])
  }

  function PrintMembers(members: seq<Member>): string {
    if members == [] then ""
    else
      var first := EscapeStr(members[0].key) + ":" + Print(members[0].val);
      if |members| == 1 then first else first + "," + PrintMembers(members[1..])
  }

  lemma {:induction false} EncodePrintsNormal(v: Json)
    ensures Encode(v) == Print(Normal(v))
    decreases Size(v), 0
  {
    match v
    case Arr(items) => EncodeItemsPrintsNormal(items);
    case Obj(members) => EncodeMembersPrintsNormal(SortMembers(members));
    case _ =>
  }

  lemma {:induction false} EncodeItemsPrintsNormal(items: seq<Json>)
    ensures EncodeItems(items) == PrintItems(NormalItems(items))
    decreases ItemsSize(items), 1
  {
    if items != [] {
      EncodePrintsNormal(items[0]);
      EncodeItemsPrintsNormal(items[1..]);
      assert NormalItems(items)[1..] == NormalItems(items[1..]);
    }
  }

  lemma {:induction false} EncodeMembersPrintsNormal(members: seq<Member>)
    ensures EncodeMembers(members) == PrintMembers(NormalMembers(members))
    decreases MembersSize(members), 1
  {
    if members != [] {
      EncodePrintsNormal(members[0].val);
      EncodeMembersPrintsNormal(members[1..]);
      assert NormalMembers(members)[1..] == NormalMembers(members[1..]);
    }
  }

  /* ---------- The two directions ---------- */

  /** The encoding depends only on the set of key/value pairs at every level, and on all of it. */
  lemma EncodeIdentifiesValue(v: Json, w: Json)
    requires WellFormed(v) && WellFormed(w)
    ensures Encode(v) == Encode(w) <==> SameValue(v, w)
  {
    if SameValue(v, w) {
      SameValueSameNormal(v, w);
      EncodePrintsNormal(v);
      EncodePrintsNormal(w);
    }
    if Encode(v) == Encode(w) {
      EncodingIsPrefixFree(v, w, "", "");
      SameNormalSameValue(v, w);
    }
  }

  /** The same for the bytes that are signed. */
  lemma LegacyBytesIdentifyValue(v: Json, w: Json)
    requires WellFormed(v) && WellFormed(w)
    ensures LegacyBytes(v) == LegacyBytes(w) <==> SameValue(v, w)
  {
    EncodeIdentifiesValue(v, w);
    if LegacyBytes(v) == LegacyBytes(w) {
      Utf8Injective(Encode(v), Encode(w));
    }
  }

  lemma {:induction false} SameValueKeepsInts(v: Json, w: Json, takes: int -> bool)
    requires WellFormed(v) && WellFormed(w) && SameValue(v, w) && AllInts(v, takes)
    ensures AllInts(w, takes)
    decreases v
  {
    match (v, w)
    case (Arr(xs), Arr(ys)) =>
      forall i | 0 <= i < |ys|
        ensures AllInts(ys[i], takes)
      {
        SameValueKeepsInts(xs[i], ys[i], takes);
      }
    case (Obj(ms), Obj(ns)) =>
      forall j | 0 <= j < |ns|
        ensures AllInts(ns[j].val, takes)
      {
        assert Named(ns[j].key, ms);
        var i :| 0 <= i < |ms| && ms[i].key == ns[j].key;
        assert Matched(ms[i], ns);
        var l :| 0 <= l < |ns| && ns[l].key == ms[i].key && SameValue(ms[i].val, ns[l].val);
        assert l == j;
        SameValueKeepsInts(ms[i].val, ns[j].val, takes);
      }
    case _ =>
  }

  /** Equal values hold the same integers, so an encoder takes both or neither. */
  lemma SameValueSameInts(v: Json, w: Json, takes: int -> bool)
    requires WellFormed(v) && WellFormed(w) && SameValue(v, w)
    ensures AllInts(v, takes) <==> AllInts(w, takes)
  {
    SameValueSameNormal(v, w);
    SameNormalSameValue(w, v);
    if AllInts(v, takes) {
      SameValueKeepsInts(v, w, takes);
    }
    if AllInts(w, takes) {
      SameValueKeepsInts(w, v, takes);
    }
  }
}
