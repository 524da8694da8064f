/**
 The rows of the `audit_trail` table and the hash that links them
 (backend/app/models/audit_log.py, backend/app/services/audit_logger.py).
 */
module AuditTrail {
  import opened Wrappers
  import opened Json
  import opened Text
  import opened Calendar
  import CanonicalJson
  import CanonicalIdentity

  type Digest = d: Bytes | |d| == 32 witness seq(32, _ => 0)

  /**
   What the chain is built from: SHA-256, any function into 32 bytes as far as the model goes, and the
   canonical JSON encoder, `None` where it raises.
   */
  datatype Scheme = Scheme(sha: Bytes -> Digest, canon: Json -> Option<Bytes>)

  /** Equal values are encoded alike, or refused alike; values that are encoded alike are equal. */
  ghost predicate Canonical(s: Scheme) {
    forall v, w {:trigger SameValue(v, w)} :: WellFormed(v) && WellFormed(w) ==>
      && (SameValue(v, w) ==> s.canon(v) == s.canon(w))
      && (s.canon(v).Some? && s.canon(v) == s.canon(w) ==> SameValue(v, w))
  }

  /** Two different inputs with one SHA-256. */
  ghost predicate Collision(s: Scheme, x: Bytes, y: Bytes) {
    x != y && s.sha(x) == s.sha(y)
  }

  /** The fields that feed the hash. `payload` is what the JSON column `payload_summary` holds, `Null` for no value. */
  datatype Event = Event(
    id: string,
    tenantId: string,
    actorType: string,
    actorId: Option<string>,
    actionVerb: string,
    resourceType: string,
    resourceId: Option<string>,
    occurredAt: Utc,
    payload: Json,
    requestId: Option<string>)

  /** The columns that do not. */
  datatype Annotations = Annotations(
    actorEmail: Option<string>,
    resourceLabel: Option<string>,
    ip: Option<string>,
    userAgent: Option<string>)

  datatype Row = Row(
    core: Event,
    notes: Annotations,
    prevHash: string,
    thisHash: string,
    position: int)

  ghost predicate ProperEvent(e: Event) {
    WellFormed(e.payload)
  }

  function OptionalStr(o: Option<string>): Json {
    match o
    case None => Null
    case Some(s) => Str(s)
  }

  /* `dict(payload_summary) if payload_summary else None` */

  /** What Python takes for false. */
  predicate IsFalsy(v: Json) {
    match v
    case Null => true
    case Bool(b) => !b
    case Num(n) => n == 0
    case Str(s) => |s| == 0
    case Arr(items) => |items| == 0
    case Obj(members) => |members| == 0
  }

  /**
   The key and value that `dict` finds in an element of a list: a list of two, a text of two characters, or
   the two keys of a dictionary. `None` where it raises, and where the key is no string, on which the encoder
   raises afterwards.
   */
  function PairIn(item: Json): Option<Member> {
    match item
    case Arr(items) => if |items| == 2 && items[0].Str? then Some(Member(items[0].s, items[1])) else None
    case Str(s) => if |s| == 2 then Some(Member([s[0]], Str([s[1]]))) else None
    case Obj(members) => if |members| == 2 then Some(Member(members[0].key, Str(members[1].key))) else None
    case _ => None
  }

  /** A dictionary with one more assignment: a key that is there keeps its place. */
  function Assign(members: seq<Member>, m: Member): seq<Member> {
    if members == [] then [m]
    else if members[0].key == m.key then [m] + members[1..]
    else [members[0]] + Assign(members[1..], m)
  }

  /** `dict` of a list; `None` where it, or the encoder on its keys, raises. */
  function DictOf(items: seq<Json>): Option<seq<Member>> {
    if items == [] then Some([])
    else
      match (DictOf(items[..|items| - 1]), PairIn(items[|items| - 1]))
      case (Some(members), Some(m)) => Some(Assign(members, m))
      case _ => None
  }

  /** What the payload column is hashed as; `None` where making a dictionary of it raises. */
  function Summary(payload: Json): Option<Json> {
    if IsFalsy(payload) then Some(Null)
    else
      match payload
      case Obj(_) => Some(payload)
      case Arr(items) => (match DictOf(items) case Some(members) => Some(Obj(members)) case None => None)
      case _ => None
  }

  /** The summary where there is one. */
  function PayloadJson(payload: Json): Json {
    match Summary(payload)
    case Some(v) => v
    case None => Null
  }

  /** `canonicalise_core` */
  function CanonicaliseCore(e: Event): Json {
    Obj(CoreMembers(e))
  }

  function CoreMembers(e: Event): seq<Member> {
    [ Member("id", Str(e.id)),
      Member("tenant_id", Str(e.tenantId)),
      Member("actor_type", Str(e.actorType)),
      Member("actor_id", OptionalStr(e.actorId)),
      Member("action_verb", Str(e.actionVerb)),
      Member("resource_type", Str(e.resourceType)),
      Member("resource_id", OptionalStr(e.resourceId)),
      Member("occurred_at", Str(Iso(e.occurredAt))),
      Member("payload_summary", PayloadJson(e.payload)),
      Member("request_id", OptionalStr(e.requestId)) ]
  }

  /** The ASCII bytes of `once-audit-genesis-`. */
  const GENESIS_HASH_PREFIX: Bytes :=
    [111, 110, 99, 101, 45, 97, 117, 100, 105, 116, 45, 103, 101, 110, 101, 115, 105, 115, 45]

  function GenesisPreimage(tenantId: string): Bytes {
    GENESIS_HASH_PREFIX + Utf8(tenantId)
  }

  /** `genesis_hash` */
  function GenesisHash(s: Scheme, tenantId: string): string {
    Hex(s.sha(GenesisPreimage(tenantId)))
  }

  /** The bytes of the core; `None` where `canonicalise_core` or the encoder raises. */
  function CoreBytes(s: Scheme, e: Event): Option<Bytes> {
    if Summary(e.payload).None? then None else s.canon(CanonicaliseCore(e))
  }

  /** The core can be hashed: its payload makes a dictionary and the encoder takes it. */
  predicate Encodes(s: Scheme, e: Event) {
    CoreBytes(s, e).Some?
  }

  /** What is hashed for an event that follows the hash `prevHash`; `None` where something raises. */
  function ChainPreimage(s: Scheme, prevHash: string, e: Event): Option<Bytes> {
    match (FromHex(prevHash), CoreBytes(s, e))
    case (Some(prev), Some(core)) => Some(prev + core)
    case _ => None
  }

  /**
   `compute_chain_hash` of the canonical core; `None` where the previous hash is not hexadecimal or the core
   does not encode.
   */
  function ComputeChainHash(s: Scheme, prevHash: string, e: Event): Option<string> {
    match ChainPreimage(s, prevHash, e)
    case None => None
    case Some(x) => Some(Hex(s.sha(x)))
  }

  /** The row carries the hash of its own content. */
  predicate HashIsCorrect(s: Scheme, r: Row) {
    ComputeChainHash(s, r.prevHash, r.core) == Some(r.thisHash)
  }

  /** The two events agree in every hashed field. */
  ghost predicate SameEvent(e: Event, f: Event) {
    && e.id == f.id && e.tenantId == f.tenantId
    && e.actorType == f.actorType && e.actorId == f.actorId
    && e.actionVerb == f.actionVerb
    && e.resourceType == f.resourceType && e.resourceId == f.resourceId
    && e.occurredAt == f.occurredAt && e.requestId == f.requestId
    && Summary(e.payload).Some? == Summary(f.payload).Some?
    && SameValue(PayloadJson(e.payload), PayloadJson(f.payload))
  }

  /* ---------- The core names every hashed field ---------- */

  /** Enough of a key to tell the ten core keys apart. */
  function KeyTag(k: string): (int, char)
    requires k != ""
  {
    (|k|, k[0])
  }

  lemma CoreKeysUnique(e: Event)
    ensures UniqueKeys(CoreMembers(e))
  {
    var ms := CoreMembers(e);
    forall i, j | 0 <= i < j < |ms|
      ensures ms[i].key != ms[j].key
    {
      assert KeyTag(ms[i].key) != KeyTag(ms[j].key);
    }
  }

  lemma {:induction false} AssignKeepsWellFormed(members: seq<Member>, m: Member)
    requires WellFormed(Obj(members)) && WellFormed(m.val)
    ensures WellFormed(Obj(Assign(members, m)))
    ensures forall x :: x in Assign(members, m) ==> x == m || x in members
  {
    if members != [] && members[0].key != m.key {
      var rest := Assign(members[1..], m);
      assert WellFormed(Obj(members[1..]));
      AssignKeepsWellFormed(members[1..], m);
      forall i | 0 <= i < |rest|
        ensures rest[i].key != members[0].key
      {
        assert rest[i] in rest;
      }
    }
  }

  lemma {:induction false} DictWellFormed(items: seq<Json>)
    requires WellFormed(Arr(items))
    ensures DictOf(items).Some? ==> WellFormed(Obj(DictOf(items).value))
  {
    if items != [] {
      DictWellFormed(items[..|items| - 1]);
      if DictOf(items).Some? {
        AssignKeepsWellFormed(DictOf(items[..|items| - 1]).value, PairIn(items[|items| - 1]).value);
      }
    }
  }

  lemma PayloadWellFormed(payload: Json)
    requires WellFormed(payload)
    ensures WellFormed(PayloadJson(payload))
  {
    if payload.Arr? {
      DictWellFormed(payload.items);
    }
  }

  lemma CoreWellFormed(e: Event)
    requires ProperEvent(e)
    ensures WellFormed(CanonicaliseCore(e))
  {
    CoreKeysUnique(e);
    PayloadWellFormed(e.payload);
  }

  /** Objects with the same keys in the same places are compared member by member. */
  lemma SameKeysCompare(ms: seq<Member>, ns: seq<Member>)
    requires UniqueKeys(ms) && |ms| == |ns|
    requires forall i :: 0 <= i < |ms| ==> ms[i].key == ns[i].key
    ensures SameValue(Obj(ms), Obj(ns)) <==> SameMembers(ms, ns)
  {
    if SameValue(Obj(ms), Obj(ns)) {
      forall i | 0 <= i < |ms|
        ensures SameValue(ms[i].val, ns[i].val)
      {
        assert Matched(ms[i], ns);
        var j :| 0 <= j < |ns| && ns[j].key == ms[i].key && SameValue(ms[i].val, ns[j].val);
        assert ms[j].key == ms[i].key;
      }
    }
    if SameMembers(ms, ns) {
      forall i | 0 <= i < |ms|
        ensures Matched(ms[i], ns) && Named(ns[i].key, ms)
      {
        assert ns[i].key == ms[i].key && SameValue(ms[i].val, ns[i].val);
      }
    }
  }

  /** Events whose cores encode have the same canonical bytes if and only if their hashed fields agree. */
  lemma CoreIdentifiesEvent(s: Scheme, e: Event, f: Event)
    requires Canonical(s) && ProperEvent(e) && ProperEvent(f) && Encodes(s, e)
    ensures CoreBytes(s, e) == CoreBytes(s, f) <==> SameEvent(e, f)
  {
    CoreWellFormed(e);
    CoreWellFormed(f);
    if Summary(f.payload).Some? {
      SameCore(e, f);
    }
  }

  /** Events whose hashed fields agree are encoded alike, or refused alike. */
  lemma SameEventSameBytes(s: Scheme, e: Event, f: Event)
    requires Canonical(s) && ProperEvent(e) && ProperEvent(f) && SameEvent(e, f)
    ensures CoreBytes(s, e) == CoreBytes(s, f)
  {
    CoreWellFormed(e);
    CoreWellFormed(f);
    SameCore(e, f);
  }

  /** Different columns that are hashed alike: pairs and the dictionary they make, and all that counts as false. */
  lemma PayloadsHashedAlike(v: Json)
    ensures Summary(Arr([Arr([Str("a"), v])])) == Summary(Obj([Member("a", v)]))
    ensures IsFalsy(v) ==> Summary(v) == Summary(Null)
    ensures Summary(Arr([Num(1)])).None?
  {
    var item := Arr([Str("a"), v]);
    assert PairIn(item) == Some(Member("a", v));
    assert DictOf([]) == Some([]);
    assert [item][..0] == [] && [Num(1)][..0] == [];
    assert DictOf([item]) == Some([Member("a", v)]);
    assert DictOf([Num(1)]).None?;
  }

  /** Which elements of a list are pairs, and the key and value they give. */
  lemma PairsInLists(item: Json)
    ensures PairIn(item).Some? <==> || (item.Arr? && |item.items| == 2 && item.items[0].Str?)
                                    || (item.Str? && |item.s| == 2) || (item.Obj? && |item.members| == 2)
    ensures PairIn(item).Some? && item.Arr? ==>
              PairIn(item).value.key == item.items[0].s && PairIn(item).value.val == item.items[1]
    ensures PairIn(item).Some? && item.Str? ==>
              PairIn(item).value.key == item.s[..1] && PairIn(item).value.val == Str(item.s[1..])
    ensures PairIn(item).Some? && item.Obj? ==>
              PairIn(item).value.key == item.members[0].key && PairIn(item).value.val == Str(item.members[1].key)
  {}

  /** Element `i` is the last of the list that gives this key. */
  predicate LastWithKey(items: seq<Json>, i: nat, key: string) {
    && i < |items| && PairIn(items[i]).Some? && PairIn(items[i]).value.key == key
    && forall j :: i < j < |items| && PairIn(items[j]).Some? ==> PairIn(items[j]).value.key != key
  }

  lemma {:induction false} AssignReplaces(members: seq<Member>, m: Member, x: Member)
    requires UniqueKeys(members)
    ensures x in Assign(members, m) <==> x == m || (x in members && x.key != m.key)
  {
    if members != [] {
      assert members == [members[0]] + members[1..];
      if members[0].key == m.key {
        assert x in members[1..] ==> exists i :: 1 <= i < |members| && members[i] == x;
      } else {
        AssignReplaces(members[1..], m, x);
      }
    }
  }

  lemma {:induction false} AssignKeepsUnique(members: seq<Member>, m: Member)
    requires UniqueKeys(members)
    ensures UniqueKeys(Assign(members, m))
  {
    if members != [] && members[0].key != m.key {
      var rest := Assign(members[1..], m);
      AssignKeepsUnique(members[1..], m);
      forall i | 0 <= i < |rest|
        ensures rest[i].key != members[0].key
      {
        AssignReplaces(members[1..], m, rest[i]);
        assert rest[i] in rest;
      }
    }
  }

  lemma LastOfMore(items: seq<Json>, i: nat, key: string)
    requires items != [] && PairIn(items[|items| - 1]).Some?
    ensures LastWithKey(items, i, key) <==>
            if PairIn(items[|items| - 1]).value.key == key then i == |items| - 1
            else LastWithKey(items[..|items| - 1], i, key)
  {}

  /** A list makes a dictionary exactly if all its elements are pairs. */
  lemma {:induction false} DictOfPairs(items: seq<Json>)
    ensures DictOf(items).Some? <==> forall i :: 0 <= i < |items| ==> PairIn(items[i]).Some?
    ensures DictOf(items).Some? ==> UniqueKeys(DictOf(items).value)
  {
    if items != [] {
      var front, last := items[..|items| - 1], items[|items| - 1];
      DictOfPairs(front);
      if DictOf(items).Some? {
        AssignKeepsUnique(DictOf(front).value, PairIn(last).value);
      }
    }
  }

  /** Each key gets the value of the last pair with that key. */
  lemma {:induction false} DictHoldsLast(items: seq<Json>, key: string, val: Json)
    requires DictOf(items).Some?
    ensures Member(key, val) in DictOf(items).value <==>
            exists i: nat :: LastWithKey(items, i, key) && PairIn(items[i]).value.val == val
  {
    if items != [] {
      var front, last := items[..|items| - 1], items[|items| - 1];
      DictHoldsLast(front, key, val);
      DictOfPairs(front);
      AssignReplaces(DictOf(front).value, PairIn(last).value, Member(key, val));
      forall i: nat
        ensures LastWithKey(items, i, key) <==>
                if PairIn(last).value.key == key then i == |items| - 1 else LastWithKey(front, i, key)
      {
        LastOfMore(items, i, key);
      }
      if PairIn(last).value.key == key {
        assert LastWithKey(items, |items| - 1, key);
      }
    }
  }

  /** Making a dictionary raises for whatever else counts as true, and for a list with an element that is no pair. */
  lemma PayloadsThatMakeNoDictionary(payload: Json)
    ensures Summary(payload).None? <==>
              || payload == Bool(true) || (payload.Num? && payload.n != 0) || (payload.Str? && payload.s != "")
              || (payload.Arr? && exists i :: 0 <= i < |payload.items| && PairIn(payload.items[i]).None?)
  {
    if payload.Arr? {
      DictOfPairs(payload.items);
    }
  }

  lemma TextSame(a: string, b: string)
    ensures SameValue(Str(a), Str(b)) <==> a == b
  {}

  lemma OptionalSame(a: Option<string>, b: Option<string>)
    ensures SameValue(OptionalStr(a), OptionalStr(b)) <==> a == b
  {}

  ghost predicate SameMembers(ms: seq<Member>, ns: seq<Member>)
    requires |ms| == |ns|
  {
    forall i :: 0 <= i < |ms| ==> SameValue(ms[i].val, ns[i].val)
  }

  lemma SameTen(ms: seq<Member>, ns: seq<Member>)
    requires |ms| == |ns| == 10
    ensures SameMembers(ms, ns) <==>
            && SameValue(ms[0].val, ns[0].val) && SameValue(ms[1].val, ns[1].val) && SameValue(ms[2].val, ns[2].val)
            && SameValue(ms[3].val, ns[3].val) && SameValue(ms[4].val, ns[4].val) && SameValue(ms[5].val, ns[5].val)
            && SameValue(ms[6].val, ns[6].val) && SameValue(ms[7].val, ns[7].val) && SameValue(ms[8].val, ns[8].val)
            && SameValue(ms[9].val, ns[9].val)
  {}

  lemma SameCoreMembers(e: Event, f: Event)
    requires Summary(e.payload).Some? == Summary(f.payload).Some?
    ensures SameMembers(CoreMembers(e), CoreMembers(f)) <==> SameEvent(e, f)
  {
    SameTen(CoreMembers(e), CoreMembers(f));
    TextSame(e.id, f.id);
    TextSame(e.tenantId, f.tenantId);
    TextSame(e.actorType, f.actorType);
    OptionalSame(e.actorId, f.actorId);
    TextSame(e.actionVerb, f.actionVerb);
    TextSame(e.resourceType, f.resourceType);
    OptionalSame(e.resourceId, f.resourceId);
    TextSame(Iso(e.occurredAt), Iso(f.occurredAt));
    OptionalSame(e.requestId, f.requestId);
    if Iso(e.occurredAt) == Iso(f.occurredAt) {
      IsoInjective(e.occurredAt, f.occurredAt);
    }
  }

  lemma SameCore(e: Event, f: Event)
    requires Summary(e.payload).Some? == Summary(f.payload).Some?
    ensures SameValue(CanonicaliseCore(e), CanonicaliseCore(f)) <==> SameEvent(e, f)
  {
    CoreKeysUnique(e);
    SameCoreMembers(e, f);
    SameKeysCompare(CoreMembers(e), CoreMembers(f));
  }

  /** An encoder that prints as the hand-written one does and refuses some integers is canonical. */
  lemma RefusingIsCanonical(sha: Bytes -> Digest, takes: int -> bool)
    ensures Canonical(Scheme(sha, CanonicalJson.Refusing(takes)))
  {
    var canon := CanonicalJson.Refusing(takes);
    forall v, w {:trigger SameValue(v, w)} | WellFormed(v) && WellFormed(w)
      ensures SameValue(v, w) ==> canon(v) == canon(w)
      ensures canon(v).Some? && canon(v) == canon(w) ==> SameValue(v, w)
    {
      CanonicalIdentity.LegacyBytesIdentifyValue(v, w);
      if SameValue(v, w) {
        CanonicalIdentity.SameValueSameInts(v, w, takes);
      }
    }
  }
}
