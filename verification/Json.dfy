/**
 JSON values as Python holds them. An object keeps its members in insertion order, as a `dict` does,
 so that two equal dictionaries may still differ as values here; numbers are integers.
 */
module Json {

  datatype Json =
    | Null
    | Bool(b: bool)
    | Num(n: int)
    | Str(s: string)
    | Arr(items: seq<Json>)
    | Obj(members: seq<Member>)

  datatype Member = Member(key: string, val: Json)

  /** No object, at any depth, holds a key twice: what a Python `dict` guarantees. */
  ghost predicate WellFormed(v: Json) {
    match v
    case Arr(items) => forall i :: 0 <= i < |items| ==> WellFormed(items[i])
    case Obj(members) =>
      && UniqueKeys(members)
      && forall i :: 0 <= i < |members| ==> WellFormed(members[i].val)
    case _ => true
  }

  ghost predicate UniqueKeys(members: seq<Member>) {
    forall i, j :: 0 <= i < j < |members| ==> members[i].key != members[j].key
  }

  /** Python's `==` between values of one type: dictionaries are compared as sets of key/value pairs. */
  ghost predicate SameValue(v: Json, w: Json) {
    match (v, w)
    case (Arr(xs), Arr(ys)) => |xs| == |ys| && forall i :: 0 <= i < |xs| ==> SameValue(xs[i], ys[i])
    case (Obj(ms), Obj(ns)) =>
      && (forall i :: 0 <= i < |ms| ==> Matched(ms[i], ns))
      && (forall j :: 0 <= j < |ns| ==> Named(ns[j].key, ms))
    case (Arr(_), _) => false
    case (Obj(_), _) => false
    case _ => v == w
  }

  /** `members` holds the key of `m`, with the same value. */
  ghost predicate Matched(m: Member, members: seq<Member>) {
    exists j :: 0 <= j < |members| && members[j].key == m.key && SameValue(m.val, members[j].val)
  }

  ghost predicate Named(key: string, members: seq<Member>) {
    exists i :: 0 <= i < |members| && members[i].key == key
  }

  /** Every integer in the value is one that the encoder takes. */
  predicate AllInts(v: Json, takes: int -> bool) {
    match v
    case Num(n) => takes(n)
    case Arr(items) => forall i :: 0 <= i < |items| ==> AllInts(items[i], takes)
    case Obj(members) => forall i :: 0 <= i < |members| ==> AllInts(members[i].val, takes)
    case _ => true
  }

  /* Number of constructors: the measure of every recursion that reorders members. */

  function Size(v: Json): (n: nat)
    ensures n >= 1
  {
    match v
    case Arr(items) => 1 + ItemsSize(items)
    case Obj(members) => 1 + MembersSize(members)
    case _ => 1
  }

  function ItemsSize(items: seq<Json>): nat {
    if items == [] then 0 else Size(items[0]) + ItemsSize(items[1..])
  }

  function MembersSize(members: seq<Member>): nat {
    if members == [] then 0 else Size(members[0].val) + MembersSize(members[1..])
  }
}
