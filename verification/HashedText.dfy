/**
 What the audit hashes cover, said of the text that is hashed: which names it holds and which column stands
 under each (`canonicalise_core` and `compute_chain_hash` in backend/app/services/audit_logger.py).
 */
module HashedText {
  import opened Wrappers
  import opened Json
  import opened Text
  import opened Calendar
  import opened CanonicalJson
  import opened CanonicalParser
  import opened CanonicalIdentity
  import opened CanonicalText
  import opened CanonicalScheme
  import opened AuditTrail
  import opened AuditExport
  import KeyedSort

  /* ---------- Texts that read back ---------- */

  lemma {:induction false} NormalIsWellFormed(v: Json)
    requires WellFormed(v)
    ensures WellFormed(Normal(v))
    decreases v
  {
    match v
    case Arr(items) =>
      forall i | 0 <= i < |items|
        ensures WellFormed(NormalItems(items)[i])
      {
        NormalItemAt(items, i);
        NormalIsWellFormed(items[i]);
      }
    case Obj(members) =>
      forall i | 0 <= i < |members|
        ensures WellFormed(Normal(members[i].val))
      {
        NormalIsWellFormed(members[i].val);
      }
      NormalMembersWellFormed(members);
    case _ =>
  }

  lemma NormalMembersWellFormed(members: seq<Member>)
    requires UniqueKeys(members) && forall i :: 0 <= i < |members| ==> WellFormed(Normal(members[i].val))
    ensures WellFormed(Obj(NormalMembers(SortMembers(members))))
  {
    var sorted := SortMembers(members);
    var normal := NormalMembers(sorted);
    SortedStrictly(members);
    KeyedSort.StrictIsDistinct(sorted, MemberKey);
    forall k | 0 <= k < |normal|
      ensures normal[k].key == sorted[k].key && WellFormed(normal[k].val)
    {
      NormalMemberAt(sorted, k);
      var i := UnsortedIndexOf(members, k);
    }
    forall k, l | 0 <= k < l < |normal|
      ensures normal[k].key != normal[l].key
    {
      assert MemberKey(sorted[k]) != MemberKey(sorted[l]);
    }
  }

  /** The reader takes the whole text, for a value without repeated names whose canonical text it is. */
  ghost predicate IsTextOf(t: string, v: Json) {
    ReadValue(t) == Read(v, "") && WellFormed(v) && IsText(v, t)
  }

  lemma EncodedReadsBack(v: Json) returns (w: Json)
    requires WellFormed(v)
    ensures IsTextOf(Encode(v), w) && SameValue(v, w)
  {
    w := Normal(v);
    ReadEncoded(v, "");
    assert Encode(v) + "" == Encode(v);
    NormalIsSameValue(v);
    NormalIsWellFormed(v);
    EncodeIdentifiesValue(v, w);
    TextIsUnique(w, Encode(v));
  }

  /* ---------- The core of an event ---------- */

  predicate IsCoreName(name: string) {
    name in ["id", "tenant_id", "actor_type", "actor_id", "action_verb", "resource_type", "resource_id", "occurred_at",
             "payload_summary", "request_id"]
  }

  function TextOrNull(text: Option<string>): Json {
    if text == None then Null else Str(text.value)
  }

  /** `holds` is true of the event's columns, each under its name. */
  ghost predicate HoldsColumns(holds: Member -> bool, e: Event) {
    && holds(Member("id", Str(e.id)))
    && holds(Member("tenant_id", Str(e.tenantId)))
    && holds(Member("actor_type", Str(e.actorType)))
    && holds(Member("actor_id", TextOrNull(e.actorId)))
    && holds(Member("action_verb", Str(e.actionVerb)))
    && holds(Member("resource_type", Str(e.resourceType)))
    && holds(Member("resource_id", TextOrNull(e.resourceId)))
    && holds(Member("occurred_at", Str(Iso(e.occurredAt))))
    && holds(Member("payload_summary", PayloadJson(e.payload)))
    && holds(Member("request_id", TextOrNull(e.requestId)))
  }

  /** The ten names, with the event's columns under them, and no others. */
  ghost predicate NamesEvent(ms: seq<Member>, e: Event) {
    && (forall i :: 0 <= i < |ms| ==> IsCoreName(ms[i].key))
    && HoldsColumns((m: Member) => Matched(m, ms), e)
  }

  ghost predicate NamesEventText(t: string, v: Json, e: Event) {
    IsTextOf(t, v) && v.Obj? && NamesEvent(v.members, e)
  }

  /** The text is read as an object that names the event's columns. */
  ghost predicate IsEventText(t: string, e: Event) {
    exists v :: NamesEventText(t, v, e)
  }

  lemma CoreHasName(e: Event, name: string)
    ensures Named(name, CoreMembers(e)) <==> IsCoreName(name)
  {
    var ms := CoreMembers(e);
    if IsCoreName(name) {
      assert ms[0].key == name || ms[1].key == name || ms[2].key == name || ms[3].key == name || ms[4].key == name ||
             ms[5].key == name || ms[6].key == name || ms[7].key == name || ms[8].key == name || ms[9].key == name;
    }
  }

  lemma CoreHolds(e: Event, holds: Member -> bool)
    ensures HoldsColumns(holds, e) <==> forall i :: 0 <= i < |CoreMembers(e)| ==> holds(CoreMembers(e)[i])
  {
    var ms := CoreMembers(e);
    if HoldsColumns(holds, e) {
      forall i | 0 <= i < |ms|
        ensures holds(ms[i])
      {}
    }
    if forall i :: 0 <= i < |ms| ==> holds(ms[i]) {
      assert holds(ms[0]) && holds(ms[1]) && holds(ms[2]) && holds(ms[3]) && holds(ms[4]);
      assert holds(ms[5]) && holds(ms[6]) && holds(ms[7]) && holds(ms[8]) && holds(ms[9]);
    }
  }

  /** An object equals the event's core exactly if it names its columns. */
  lemma CoreNames(e: Event, ns: seq<Member>)
    ensures SameValue(CanonicaliseCore(e), Obj(ns)) <==> NamesEvent(ns, e)
  {
    forall i | 0 <= i < |ns|
      ensures Named(ns[i].key, CoreMembers(e)) <==> IsCoreName(ns[i].key)
    {
      CoreHasName(e, ns[i].key);
    }
    CoreHolds(e, (m: Member) => Matched(m, ns));
    CompareMembers(CoreMembers(e), ns);
  }

  lemma CompareMembers(ms: seq<Member>, ns: seq<Member>)
    ensures SameValue(Obj(ms), Obj(ns)) <==>
              && (forall i :: 0 <= i < |ms| ==> Matched(ms[i], ns))
              && (forall j :: 0 <= j < |ns| ==> Named(ns[j].key, ms))
  {}

  /** The event's core is printed as a text that names its columns, and no other text does. */
  lemma CoreTextNamesEvent(e: Event, t: string)
    requires ProperEvent(e)
    ensures IsEventText(t, e) <==> t == Encode(CanonicaliseCore(e))
  {
    var core := CanonicaliseCore(e);
    CoreWellFormed(e);
    var w := EncodedReadsBack(core);
    CoreNames(e, w.members);
    assert NamesEventText(Encode(core), w, e);
    forall v | NamesEventText(t, v, e)
      ensures t == Encode(core)
    {
      CoreNames(e, v.members);
      EncodeIdentifiesValue(core, v);
      TextIsUnique(v, t);
    }
  }

  /* ---------- The hash ---------- */

  /** SHA-256 of the decoded previous hash and a text that names the event's columns. */
  ghost predicate IsHashOf(sha: Bytes -> Digest, hash: string, prevHash: string, e: Event, t: string) {
    IsEventText(t, e) && FromHex(prevHash).Some? && hash == Hex(sha(FromHex(prevHash).value + Utf8(t)))
  }

  /**
   An event can be hashed exactly if its payload makes a dictionary, whose integers a double holds exactly. */
  lemma EncodesWhen(sha: Bytes -> Digest, e: Event)
    ensures Encodes(RfcChain(sha), e) <==>
            Summary(e.payload).Some? && AllInts(Summary(e.payload).value, IsSafe)
  {
    var ms := CoreMembers(e);
    forall i | 0 <= i < |ms| && i != 8
      ensures AllInts(ms[i].val, IsSafe)
    {
      assert ms[i].val.Null? || ms[i].val.Str?;
    }
    assert ms[8].val == PayloadJson(e.payload);
  }

  lemma HashOfCoreText(sha: Bytes -> Digest, r: Row, t: string)
    requires ProperEvent(r.core) && t == Encode(CanonicaliseCore(r.core)) && Encodes(RfcChain(sha), r.core)
    ensures HashIsCorrect(RfcChain(sha), r) <==> IsHashOf(sha, r.thisHash, r.prevHash, r.core, t)
  {
    CoreTextNamesEvent(r.core, t);
    assert CoreBytes(RfcChain(sha), r.core) == Some(Utf8(t));
  }

  /** A row carries the right hash if and only if it can be hashed and its hash is that of such a text. */
  lemma HashNamesEvent(sha: Bytes -> Digest, r: Row)
    requires ProperEvent(r.core)
    ensures HashIsCorrect(RfcChain(sha), r) <==>
            Encodes(RfcChain(sha), r.core) && exists t :: IsHashOf(sha, r.thisHash, r.prevHash, r.core, t)
  {
    if Encodes(RfcChain(sha), r.core) {
      var t := Encode(CanonicaliseCore(r.core));
      HashOfCoreText(sha, r, t);
      forall u | IsHashOf(sha, r.thisHash, r.prevHash, r.core, u)
        ensures u == t
      {
        CoreTextNamesEvent(r.core, u);
      }
    }
  }

  lemma OnceBytes()
    ensures Utf8("once-") == [111, 110, 99, 101, 45]
  {
    AsciiBytes("once-");
  }

  lemma AuditBytes()
    ensures Utf8("audit-") == [97, 117, 100, 105, 116, 45]
  {
    AsciiBytes("audit-");
  }

  lemma GenesisBytes()
    ensures Utf8("genesis-") == [103, 101, 110, 101, 115, 105, 115, 45]
  {
    AsciiBytes("genesis-");
  }

  lemma ThreeParts(once: Bytes, audit: Bytes, genesis: Bytes)
    requires once == [111, 110, 99, 101, 45] && audit == [97, 117, 100, 105, 116, 45]
    requires genesis == [103, 101, 110, 101, 115, 105, 115, 45]
    ensures once + audit + genesis == GENESIS_HASH_PREFIX
  {}

  lemma ConcatThree(a: string, b: string, c: string, d: string)
    ensures Utf8(a + b + c + d) == Utf8(a) + Utf8(b) + Utf8(c) + Utf8(d)
  {
    Utf8Concat(a + b + c, d);
    Utf8Concat(a + b, c);
    Utf8Concat(a, b);
  }

  /** A tenant's chain starts from SHA-256 of `once-audit-genesis-` and the tenant's identifier. */
  lemma GenesisIsNamed(s: Scheme, tenantId: string)
    ensures GenesisHash(s, tenantId) == Hex(s.sha(Utf8("once-" + "audit-" + "genesis-" + tenantId)))
  {
    OnceBytes();
    AuditBytes();
    GenesisBytes();
    ThreeParts(Utf8("once-"), Utf8("audit-"), Utf8("genesis-"));
    ConcatThree("once-", "audit-", "genesis-", tenantId);
  }

  /* ---------- The rows of a day ---------- */

  predicate IsLogName(name: string) {
    name in ["id", "tenant_id", "actor_user_id", "action", "resource_type", "resource_id", "metadata_json",
             "ip_address", "occurred_at"]
  }

  /** `holds` is true of the row's columns, each under its name. */
  ghost predicate HoldsLog(holds: Member -> bool, r: Log) {
    && holds(Member("id", Str(r.id)))
    && holds(Member("tenant_id", TextOrNull(r.tenantId)))
    && holds(Member("actor_user_id", TextOrNull(r.actorUserId)))
    && holds(Member("action", Str(r.action)))
    && holds(Member("resource_type", Str(r.resourceType)))
    && holds(Member("resource_id", TextOrNull(r.resourceId)))
    && holds(Member("metadata_json", r.metadata))
    && holds(Member("ip_address", TextOrNull(r.ipAddress)))
    && holds(Member("occurred_at", Str(Iso(r.occurredAt))))
  }

  /** An object with the nine names, the row's columns under them, and no others. */
  ghost predicate NamesLog(v: Json, r: Log) {
    && v.Obj? && (forall i :: 0 <= i < |v.members| ==> IsLogName(v.members[i].key))
    && HoldsLog((m: Member) => Matched(m, v.members), r)
  }

  /** An array that names the rows one after the other. */
  ghost predicate NamesLogs(v: Json, rows: seq<Log>) {
    v.Arr? && |v.items| == |rows| && forall i :: 0 <= i < |rows| ==> NamesLog(v.items[i], rows[i])
  }

  /** Under the name `rows` stands an array that names the rows. */
  ghost predicate HoldsRows(ms: seq<Member>, rows: seq<Log>) {
    exists i :: 0 <= i < |ms| && ms[i].key == "rows" && NamesLogs(ms[i].val, rows)
  }

  /** The text is read as an object of the digest of the day before and the rows, and nothing else. */
  ghost predicate NamesDay(t: string, v: Json, prev: string, rows: seq<Log>) {
    && IsTextOf(t, v) && v.Obj? && (forall i :: 0 <= i < |v.members| ==> v.members[i].key in ["prev", "rows"])
    && Matched(Member("prev", Str(prev)), v.members) && HoldsRows(v.members, rows)
  }

  ghost predicate IsDayText(t: string, prev: string, rows: seq<Log>) {
    exists v :: NamesDay(t, v, prev, rows)
  }
}
