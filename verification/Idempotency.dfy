/**
 The idempotency middleware (backend/app/middleware/idempotency.py) over its in-process store, for requests
 that are handled one after the other.
 */
module Idempotency {
  import opened Wrappers
  import opened Text
  import opened AuditTrail

  /* ---------- Keys ---------- */

  /** A letter or digit of a ULID: no I, L, O or U in either case. */
  predicate IsCrockford(c: char) {
    ('0' <= c <= '9' || 'A' <= c <= 'Z' || 'a' <= c <= 'z') && Lower([c])[0] !in "ilou"
  }

  predicate IsHexDigit(c: char) {
    '0' <= c <= '9' || 'a' <= c <= 'f' || 'A' <= c <= 'F'
  }

  predicate IsUuidChar(s: string, i: nat)
    requires i < |s|
  {
    if i in {8, 13, 18, 23} then s[i] == '-' else IsHexDigit(s[i])
  }

  /** `_is_valid_key`: a ULID, a bare UUID or a hyphenated one. */
  predicate IsValidKey(key: string) {
    || (|key| == 26 && forall i :: 0 <= i < 26 ==> IsCrockford(key[i]))
    || (|key| == 32 && forall i :: 0 <= i < 32 ==> IsHexDigit(key[i]))
    || (|key| == 36 && forall i :: 0 <= i < 36 ==> IsUuidChar(key, i))
  }

  /** `_tenant_id`: a request without a tenant is anonymous. */
  function TenantName(tenant: Option<string>): string {
    if tenant.None? || tenant.value == "" then "anon" else tenant.value
  }

  /** `_scoped_key` */
  function ScopedKey(tenantId: string, key: string): string {
    tenantId + ":" + key
  }

  lemma ValidKeyHasNoColon(key: string)
    requires IsValidKey(key)
    ensures ':' !in key
  {
    forall i | 0 <= i < |key|
      ensures key[i] != ':'
    {
      if |key| == 26 {
        assert IsCrockford(key[i]);
      } else if |key| == 32 {
        assert IsHexDigit(key[i]);
      } else {
        assert IsUuidChar(key, i);
      }
    }
  }

  lemma ShorterKeyLeavesColon(t: string, k: string, u: string, l: string)
    requires |k| < |l| && ScopedKey(t, k) == ScopedKey(u, l)
    ensures ':' in l
  {
    var all := ScopedKey(t, k);
    assert all[|t|] == ':';
    assert ScopedKey(u, l)[|u| + 1..] == l;
    assert l[|t| - |u| - 1] == ':';
  }

  /** Scoped keys keep both the tenant and the key, whatever the tenant is called. */
  lemma ScopedKeyInjective(t: string, k: string, u: string, l: string)
    requires IsValidKey(k) && IsValidKey(l)
    ensures ScopedKey(t, k) == ScopedKey(u, l) <==> t == u && k == l
  {
    if ScopedKey(t, k) == ScopedKey(u, l) {
      ValidKeyHasNoColon(k);
      ValidKeyHasNoColon(l);
      if |k| < |l| {
        ShorterKeyLeavesColon(t, k, u, l);
      } else if |l| < |k| {
        ShorterKeyLeavesColon(u, l, t, k);
      }
      assert ScopedKey(t, k)[..|t|] == t && ScopedKey(u, l)[..|u|] == u;
      assert ScopedKey(t, k)[|t| + 1..] == k && ScopedKey(u, l)[|u| + 1..] == l;
    }
  }

  /** Two requests share an entry exactly if key and tenant agree, where no tenant and `anon` are one tenant. */
  lemma RequestsShareEntry(t: Option<string>, k: string, u: Option<string>, l: string)
    requires IsValidKey(k) && IsValidKey(l)
    ensures ScopedKey(TenantName(t), k) == ScopedKey(TenantName(u), l) <==>
            k == l && (t == u || {t, u} <= {None, Some(""), Some("anon")})
  {
    ScopedKeyInjective(TenantName(t), k, TenantName(u), l);
  }

  /* ---------- Requests and responses ---------- */

  datatype Request = Request(verb: string, path: string, header: string, tenant: Option<string>, body: Bytes)

  datatype Response = Response(status: int, body: Bytes, headers: map<string, string>, mediaType: Option<string>)

  datatype Entry = Entry(status: int, body: string, bodyHash: string, headers: map<string, string>, mediaType: string)

  datatype Reply =
    | Answer(response: Response)
    | Problem(status: int, slug: string)
    | Raised

  /** How the middleware is set up. `decode` is `bytes.decode("utf-8", errors="replace")`. */
  datatype Config = Config(sha: Bytes -> Digest, decode: Bytes -> string, required: seq<string>,
                           excluded: seq<string>, ttlSeconds: int)

  const REPLAY_HEADER := "Idempotency-Replayed"

  predicate IsMutating(verb: string) {
    verb in ["POST", "PATCH", "PUT", "DELETE"]
  }

  predicate HasPrefix(path: string, prefixes: seq<string>) {
    exists i :: 0 <= i < |prefixes| && prefixes[i] <= path
  }

  /** White space as `str.strip` knows it, among the characters a header can hold. */
  predicate IsSpace(c: char) {
    var n := c as int;
    9 <= n <= 13 || 28 <= n <= 32 || n == 0x85 || n == 0xA0
  }

  function TrimLeft(s: string): string {
    if s != "" && IsSpace(s[0]) then TrimLeft(s[1..]) else s
  }

  function TrimRight(s: string): string {
    if s != "" && IsSpace(s[|s| - 1]) then TrimRight(s[..|s| - 1]) else s
  }

  function Strip(s: string): string {
    TrimRight(TrimLeft(s))
  }

  predicate AllSpace(s: string) {
    forall c :: c in s ==> IsSpace(c)
  }

  /** Neither end of the text is white space. */
  predicate IsStripped(s: string) {
    s != "" ==> !IsSpace(s[0]) && !IsSpace(s[|s| - 1])
  }

  lemma {:induction false} TrimLeftIs(s: string) returns (left: string)
    ensures s == left + TrimLeft(s) && AllSpace(left)
    ensures TrimLeft(s) != "" ==> !IsSpace(TrimLeft(s)[0])
  {
    if s != "" && IsSpace(s[0]) {
      var l := TrimLeftIs(s[1..]);
      left := [s[0]] + l;
    } else {
      left := "";
    }
  }

  lemma {:induction false} TrimRightIs(s: string) returns (right: string)
    ensures s == TrimRight(s) + right && AllSpace(right)
    ensures TrimRight(s) != "" ==> !IsSpace(TrimRight(s)[|TrimRight(s)| - 1])
  {
    if s != "" && IsSpace(s[|s| - 1]) {
      var r := TrimRightIs(s[..|s| - 1]);
      right := r + [s[|s| - 1]];
    } else {
      right := "";
    }
  }

  /** Tab to carriage return, the four separators, the space, next line and the space that does not break. */
  lemma SpaceCharacters(c: char)
    ensures IsSpace(c) <==> c as int in {9, 10, 11, 12, 13, 28, 29, 30, 31, 32, 133, 160}
  {}

  /** Stripping takes off the white space at both ends and nothing else. */
  lemma StripTakesOffSpace(s: string) returns (left: string, right: string)
    ensures s == left + Strip(s) + right && AllSpace(left) && AllSpace(right) && IsStripped(Strip(s))
  {
    left := TrimLeftIs(s);
    right := TrimRightIs(TrimLeft(s));
    var t := TrimLeft(s);
    assert Strip(s) != "" ==> Strip(s)[0] == t[0];
  }

  function BodyHash(c: Config, body: Bytes): string {
    Hex(c.sha(body))
  }

  predicate IsSuccess(response: Response) {
    200 <= response.status < 300
  }

  predicate IsHopByHop(name: string) {
    Lower(name) in ["content-length", "transfer-encoding", "connection", "set-cookie"]
  }

  function Without(headers: map<string, string>, drop: string -> bool): map<string, string> {
    map name | name in headers && !drop(name) :: headers[name]
  }

  function OrJson(mediaType: Option<string>): string {
    if mediaType.None? || mediaType.value == "" then "application/json" else mediaType.value
  }

  /** What is stored of a successful response. */
  function EntryOf(c: Config, request: Request, response: Response): Entry {
    Entry(response.status, c.decode(response.body), BodyHash(c, request.body),
          Without(response.headers, IsHopByHop), OrJson(response.mediaType))
  }

  /** What the client gets of a stored response. */
  function ReplayOf(e: Entry): Response {
    Response(e.status, Utf8(e.body), e.headers[REPLAY_HEADER := "true"], Some(OrJson(Some(e.mediaType))))
  }

  /** What the client gets of a response that is being stored. */
  function FirstAnswer(response: Response): Response {
    response.(headers := Without(response.headers, (name: string) => name == "content-length"))
  }

  /* ---------- The store ---------- */

  /** `InMemoryIdempotencyStore`; an entry is worth nothing from its expiry on. */
  class InMemoryIdempotencyStore {
    var data: map<string, (real, Entry)>

    constructor ()
      ensures data == map[]
    {
      data := map[];
    }

    method Get(key: string, now: real) returns (r: Option<Entry>)
      modifies this
      ensures (data, r) == Lookup(old(data), key, now)
      ensures if key in old(data) && now < old(data)[key].0 then r == Some(old(data)[key].1) && data == old(data)
              else r == None && data == old(data) - {key}
    {
      if key !in data {
        assert data - {key} == data;
        return None;
      }
      var (expiresAt, payload) := data[key];
      if expiresAt <= now {
        data := data - {key};
        return None;
      }
      return Some(payload);
    }

    method Set(key: string, value: Entry, ttlSeconds: int, now: real)
      modifies this
      ensures data == Insert(old(data), key, value, ttlSeconds, now)
      ensures data == old(data)[key := (now + (if ttlSeconds > 1 then ttlSeconds else 1) as real, value)]
    {
      var ttl := if ttlSeconds > 1 then ttlSeconds else 1;
      data := data[key := (now + ttl as real, value)];
    }
  }

  type Data = map<string, (real, Entry)>

  predicate Fresh(data: Data, key: string, now: real) {
    key in data && now < data[key].0
  }

  function Lookup(data: Data, key: string, now: real): (Data, Option<Entry>) {
    if Fresh(data, key, now) then (data, Some(data[key].1)) else (data - {key}, None)
  }

  function Lifetime(ttlSeconds: int): (t: real)
    ensures t >= 1.0
  {
    (if ttlSeconds > 1 then ttlSeconds else 1) as real
  }

  function Insert(data: Data, key: string, value: Entry, ttlSeconds: int, now: real): Data {
    data[key := (now + Lifetime(ttlSeconds), value)]
  }

  /* ---------- The middleware ---------- */

  /**
   A request and what goes with it: the clock when the store is asked, what the handler answers if it is
   called (`None` when it raises), and the clock when the answer is stored.
   */
  datatype Call = Call(request: Request, now: real, answer: Option<Response>, later: real)

  datatype Outcome = Outcome(reply: Reply, called: bool)

  function Forward(answer: Option<Response>): Reply {
    match answer
    case None => Raised
    case Some(response) => Answer(response)
  }

  predicate Bypasses(c: Config, r: Request) {
    !IsMutating(r.verb) || HasPrefix(r.path, c.excluded)
  }

  /** The request goes through the store. */
  predicate IsKeyed(c: Config, r: Request) {
    !Bypasses(c, r) && IsValidKey(Strip(r.header))
  }

  function KeyOf(r: Request): string {
    ScopedKey(TenantName(r.tenant), Strip(r.header))
  }

  function KeyedOutcome(c: Config, cached: Option<Entry>, call: Call): Outcome {
    match cached
    case Some(e) =>
      if e.bodyHash != BodyHash(c, call.request.body) then Outcome(Problem(422, "idempotency-key-conflict"), false)
      else Outcome(Answer(ReplayOf(e)), false)
    case None =>
      if call.answer.Some? && IsSuccess(call.answer.value)
      then Outcome(Answer(FirstAnswer(call.answer.value)), true)
      else Outcome(Forward(call.answer), true)
  }

  function UnkeyedOutcome(c: Config, call: Call): Outcome {
    var r := call.request;
    if Bypasses(c, r) then Outcome(Forward(call.answer), true)
    else if Strip(r.header) != "" then Outcome(Problem(400, "invalid-idempotency-key"), false)
    else if HasPrefix(r.path, c.required) then Outcome(Problem(400, "idempotency-key-required"), false)
    else Outcome(Forward(call.answer), true)
  }

  /** The handler is called for the key and succeeds: its answer is stored. */
  predicate Stores(c: Config, data: Data, call: Call) {
    && IsKeyed(c, call.request) && !Fresh(data, KeyOf(call.request), call.now)
    && call.answer.Some? && IsSuccess(call.answer.value)
  }

  /** What one call does: the store afterwards and the outcome. */
  function Handle(c: Config, data: Data, call: Call): (Data, Outcome) {
    if !IsKeyed(c, call.request) then (data, UnkeyedOutcome(c, call))
    else
      var (after, cached) := Lookup(data, KeyOf(call.request), call.now);
      (if Stores(c, data, call)
       then Insert(after, KeyOf(call.request), EntryOf(c, call.request, call.answer.value), c.ttlSeconds, call.later)
       else after,
       KeyedOutcome(c, cached, call))
  }

  /** A mutating verb on a path that is not excluded. */
  predicate GoesThroughKeyCheck(c: Config, r: Request) {
    r.verb in {"POST", "PATCH", "PUT", "DELETE"} && !HasPrefix(r.path, c.excluded)
  }

  /** Which requests go through the store: mutating ones, on paths that are not excluded, with a valid key. */
  lemma KeyedRequests(c: Config, r: Request)
    ensures IsKeyed(c, r) <==> GoesThroughKeyCheck(c, r) && IsValidKey(Strip(r.header))
  {}

  predicate IsAlphanumeric(c: char) {
    '0' <= c <= '9' || 'A' <= c <= 'Z' || 'a' <= c <= 'z'
  }

  lemma CharacterSets(c: char)
    ensures IsCrockford(c) <==> IsAlphanumeric(c) && c !in "ILOUilou"
    ensures IsHexDigit(c) <==> c in "0123456789abcdefABCDEF"
  {}

  /** What a hyphenated UUID holds besides its hyphens. */
  function UuidDigits(key: string): string
    requires |key| == 36
  {
    key[..8] + key[9..13] + key[14..18] + key[19..23] + key[24..]
  }

  lemma UuidCharacters(key: string)
    requires |key| == 36
    ensures IsValidKey(key) <==>
              && key[8] == key[13] == key[18] == key[23] == '-'
              && forall c :: c in UuidDigits(key) ==> IsHexDigit(c)
  {
    var digits := UuidDigits(key);
    if IsValidKey(key) {
      assert IsUuidChar(key, 8) && IsUuidChar(key, 13) && IsUuidChar(key, 18) && IsUuidChar(key, 23);
      forall c | c in digits
        ensures IsHexDigit(c)
      {
        var i: nat :| i < 36 && i !in {8, 13, 18, 23} && key[i] == c;
        assert IsUuidChar(key, i);
      }
    }
    if key[8] == key[13] == key[18] == key[23] == '-' && forall c :: c in digits ==> IsHexDigit(c) {
      forall i: nat | i < 36
        ensures IsUuidChar(key, i)
      {
        assert i in {8, 13, 18, 23} || key[i] in digits;
      }
    }
  }

  /** The characters of a ULID, of a UUID, and the lengths of keys. */
  lemma KeyCharacters(key: string)
    ensures |key| == 26 ==>
              (IsValidKey(key) <==>
               forall c :: c in key ==> IsAlphanumeric(c) && c !in "ILOUilou")
    ensures |key| == 32 ==> (IsValidKey(key) <==> forall c :: c in key ==> c in "0123456789abcdefABCDEF")
    ensures |key| == 36 ==>
              (IsValidKey(key) <==> && key[8] == key[13] == key[18] == key[23] == '-'
                                    && forall c :: c in UuidDigits(key) ==> c in "0123456789abcdefABCDEF")
    ensures |key| !in {26, 32, 36} ==> !IsValidKey(key)
  {
    forall c: char
      ensures IsCrockford(c) <==> IsAlphanumeric(c) && c !in "ILOUilou"
      ensures IsHexDigit(c) <==> c in "0123456789abcdefABCDEF"
    {
      CharacterSets(c);
    }
    if |key| == 36 {
      UuidCharacters(key);
    }
  }

  /** All headers but the four that belong to the connection or the session. */
  function KeptHeaders(headers: map<string, string>): map<string, string> {
    map name | name in headers && Lower(name) != "content-length" && Lower(name) != "transfer-encoding" &&
               Lower(name) != "connection" && Lower(name) != "set-cookie" :: headers[name]
  }

  /** What the store holds of a success: until when, and which parts of it. */
  ghost predicate IsKept(c: Config, call: Call, response: Response, kept: (real, Entry)) {
    && kept.0 == call.later + (if c.ttlSeconds > 1 then c.ttlSeconds else 1) as real
    && kept.1.status == response.status
    && kept.1.body == c.decode(response.body)
    && kept.1.bodyHash == Hex(c.sha(call.request.body))
    && kept.1.mediaType == (if response.mediaType in {None, Some("")} then "application/json"
                            else response.mediaType.value)
    && kept.1.headers == KeptHeaders(response.headers)
  }

  /** The stored response again, with the header that says so. */
  ghost predicate IsReplay(e: Entry, replay: Response) {
    && replay.status == e.status && replay.body == Utf8(e.body)
    && replay.headers == e.headers["Idempotency-Replayed" := "true"]
    && replay.mediaType == Some(if e.mediaType == "" then "application/json" else e.mediaType)
  }

  /** The handler's response, whose length is counted anew. */
  ghost predicate IsForwarded(response: Response, answer: Response) {
    && answer.status == response.status && answer.body == response.body && answer.mediaType == response.mediaType
    && answer.headers == response.headers - {"content-length"}
  }

  lemma KeptForwardedReplayed(c: Config, call: Call, response: Response, e: Entry)
    ensures IsKept(c, call, response, (Expiry(c, call), EntryOf(c, call.request, response)))
    ensures IsForwarded(response, FirstAnswer(response))
    ensures IsReplay(e, ReplayOf(e))
  {
    assert IsForwarded(response, FirstAnswer(response)) by {
      assert FirstAnswer(response).headers == response.headers - {"content-length"};
    }
  }

  lemma EmptyIsNoKey()
    ensures !IsValidKey("")
  {}

  class IdempotencyMiddleware {
    const config: Config
    const store: InMemoryIdempotencyStore

    constructor (config: Config, store: InMemoryIdempotencyStore)
      ensures this.config == config && this.store == store
    {
      this.config := config;
      this.store := store;
    }

    method IsExcluded(path: string) returns (r: bool)
      ensures r == HasPrefix(path, config.excluded)
    {
      r := StartsWithAny(path, config.excluded);
    }

    method IsRequired(path: string) returns (r: bool)
      ensures r == HasPrefix(path, config.required)
    {
      r := StartsWithAny(path, config.required);
    }

    /** `call.answer` is the handler's answer; it is looked at only if the handler is called. */
    method Dispatch(call: Call) returns (reply: Reply, called: bool)
      modifies store
      ensures (store.data, Outcome(reply, called)) == Handle(config, old(store.data), call)
      ensures !GoesThroughKeyCheck(config, call.request) ==>
                called && reply == Forward(call.answer) && store.data == old(store.data)
      ensures GoesThroughKeyCheck(config, call.request) && Strip(call.request.header) == "" ==>
                && store.data == old(store.data)
                && (if HasPrefix(call.request.path, config.required)
                    then !called && reply == Problem(400, "idempotency-key-required")
                    else called && reply == Forward(call.answer))
      ensures GoesThroughKeyCheck(config, call.request) && Strip(call.request.header) != "" &&
              !IsValidKey(Strip(call.request.header)) ==>
                !called && reply == Problem(400, "invalid-idempotency-key") && store.data == old(store.data)
      ensures GoesThroughKeyCheck(config, call.request) && IsValidKey(Strip(call.request.header)) ==>
                var key := TenantName(call.request.tenant) + ":" + Strip(call.request.header);
                if key in old(store.data) && call.now < old(store.data)[key].0 then
                  && !called && store.data == old(store.data)
                  && (if old(store.data)[key].1.bodyHash == Hex(config.sha(call.request.body))
                      then reply.Answer? && IsReplay(old(store.data)[key].1, reply.response)
                      else reply == Problem(422, "idempotency-key-conflict"))
                else
                  && called
                  && (if call.answer.Some? && 200 <= call.answer.value.status <= 299
                      then key in store.data && store.data - {key} == old(store.data) - {key}
                           && IsKept(config, call, call.answer.value, store.data[key])
                           && reply.Answer? && IsForwarded(call.answer.value, reply.response)
                      else reply == Forward(call.answer) && store.data == old(store.data) - {key})
    {
      var request := call.request;
      var excluded := IsExcluded(request.path);
      if !IsMutating(request.verb) || excluded {
        return Forward(call.answer), true;
      }
      var header := Strip(request.header);
      EmptyIsNoKey();
      if header == "" {
        var required := IsRequired(request.path);
        if required {
          return Problem(400, "idempotency-key-required"), false;
        }
        return Forward(call.answer), true;
      }
      if !IsValidKey(header) {
        return Problem(400, "invalid-idempotency-key"), false;
      }
      var bodyHash := BodyHash(config, request.body);
      var scoped := ScopedKey(TenantName(request.tenant), header);
      var cached := store.Get(scoped, call.now);
      if cached.Some? {
        if cached.value.bodyHash != bodyHash {
          return Problem(422, "idempotency-key-conflict"), false;
        }
        KeptForwardedReplayed(config, call, ReplayOf(cached.value), cached.value);
        return Answer(ReplayOf(cached.value)), false;
      }
      if call.answer.None? {
        return Raised, true;
      }
      var response := call.answer.value;
      if 200 <= response.status < 300 {
        var entry := EntryOf(config, request, response);
        KeptForwardedReplayed(config, call, response, entry);
        store.Set(scoped, entry, config.ttlSeconds, call.later);
        return Answer(FirstAnswer(response)), true;
      }
      return Answer(response), true;
    }
  }

  method StartsWithAny(path: string, prefixes: seq<string>) returns (r: bool)
    ensures r == HasPrefix(path, prefixes)
  {
    for i := 0 to |prefixes|
      invariant forall j :: 0 <= j < i ==> !(prefixes[j] <= path)
    {
      if prefixes[i] <= path {
        return true;
      }
    }
    return false;
  }

  /* ---------- Runs ---------- */

  /** The store after the first `n` calls, from an empty one. */
  function After(c: Config, calls: seq<Call>, n: nat): Data
    requires n <= |calls|
  {
    if n == 0 then map[] else Handle(c, After(c, calls, n - 1), calls[n - 1]).0
  }

  function OutcomeOf(c: Config, calls: seq<Call>, n: nat): Outcome
    requires n < |calls|
  {
    Handle(c, After(c, calls, n), calls[n]).1
  }

  /** The clock never runs backwards. */
  ghost predicate Monotone(calls: seq<Call>) {
    && (forall i :: 0 <= i < |calls| ==> calls[i].now <= calls[i].later)
    && (forall i, j :: 0 <= i < j < |calls| ==> calls[i].later <= calls[j].now)
  }

  /** The handler answered call `i` with success, and the answer was stored. */
  predicate Succeeded(c: Config, calls: seq<Call>, i: nat)
    requires i < |calls|
  {
    Stores(c, After(c, calls, i), calls[i])
  }

  function Expiry(c: Config, call: Call): real {
    call.later + Lifetime(c.ttlSeconds)
  }

  function Stored(c: Config, call: Call): (real, Entry)
    requires call.answer.Some?
  {
    (Expiry(c, call), EntryOf(c, call.request, call.answer.value))
  }

  const CONFLICT: Reply := Problem(422, "idempotency-key-conflict")

  function ReplayOfCall(c: Config, call: Call): Reply
    requires call.answer.Some?
  {
    Answer(ReplayOf(EntryOf(c, call.request, call.answer.value)))
  }

  /** A call before the expiry leaves the entry as it is. */
  lemma HandleKeepsEntry(c: Config, data: Data, call: Call, key: string, entry: (real, Entry))
    requires key in data && data[key] == entry && call.now < entry.0
    ensures var after := Handle(c, data, call).0; key in after && after[key] == entry
  {}

  lemma {:induction false} EntryStays(c: Config, calls: seq<Call>, i: nat, n: nat)
    requires i < n <= |calls| && Succeeded(c, calls, i)
    requires forall m :: i < m < n ==> calls[m].now < Expiry(c, calls[i])
    ensures var key := KeyOf(calls[i].request);
            key in After(c, calls, n) && After(c, calls, n)[key] == Stored(c, calls[i])
    decreases n
  {
    if i < n - 1 {
      EntryStays(c, calls, i, n - 1);
      HandleKeepsEntry(c, After(c, calls, n - 1), calls[n - 1], KeyOf(calls[i].request), Stored(c, calls[i]));
    }
  }

  /**
   Once the handler has answered a keyed request with success, no request with the same tenant and key gets
   through to it until the entry expires: with the same body it is answered by the replay, with another one
   by a conflict.
   */
  lemma HandlerRunsOnce(c: Config, calls: seq<Call>, i: nat, j: nat)
    requires Monotone(calls) && i < j < |calls| && Succeeded(c, calls, i)
    requires GoesThroughKeyCheck(c, calls[j].request) && IsValidKey(Strip(calls[j].request.header))
    requires TenantName(calls[j].request.tenant) == TenantName(calls[i].request.tenant)
    requires Strip(calls[j].request.header) == Strip(calls[i].request.header)
    requires calls[j].now < Expiry(c, calls[i])
    ensures OutcomeOf(c, calls, i).called && !OutcomeOf(c, calls, j).called
    ensures var x, y := calls[i].request.body, calls[j].request.body;
            var reply := OutcomeOf(c, calls, j).reply;
            && (x == y ==> reply == ReplayOfCall(c, calls[i]))
            && (x != y ==> reply == CONFLICT || c.sha(x) == c.sha(y))
  {
    EntryStays(c, calls, i, j);
    if BodyHash(c, calls[j].request.body) == BodyHash(c, calls[i].request.body) {
      HexInjective(c.sha(calls[j].request.body), c.sha(calls[i].request.body));
    }
  }

  ghost predicate DecodesUtf8(c: Config) {
    forall s: string :: c.decode(Utf8(s)) == s
  }

  /** Which calls store an answer. */
  lemma StoringCalls(c: Config, data: Data, call: Call)
    ensures Stores(c, data, call) <==>
              && GoesThroughKeyCheck(c, call.request) && IsValidKey(Strip(call.request.header))
              && (KeyOf(call.request) in data ==> data[KeyOf(call.request)].0 <= call.now)
              && call.answer.Some? && 200 <= call.answer.value.status <= 299
  {}

  lemma MediaTypeKept(mediaType: Option<string>)
    ensures OrJson(mediaType) == if mediaType in {None, Some("")} then "application/json" else mediaType.value
    ensures OrJson(Some(OrJson(mediaType))) == OrJson(mediaType)
  {}

  /**
   The replay repeats the status, the media type unless there was none, all headers but the four that belong to
   the connection or the session, and the body exactly if it is UTF-8 text.
   */
  lemma ReplayRepeatsAnswer(c: Config, request: Request, response: Response)
    requires DecodesUtf8(c)
    ensures var replay := ReplayOf(EntryOf(c, request, response));
            && replay.status == response.status
            && (replay.body == response.body <==> exists s: string :: response.body == Utf8(s))
            && replay.mediaType.Some?
            && replay.mediaType.value == (if response.mediaType in {None, Some("")} then "application/json"
                                          else response.mediaType.value)
            && replay.headers == KeptHeaders(response.headers)["Idempotency-Replayed" := "true"]
  {
    MediaTypeKept(response.mediaType);
    assert EntryOf(c, request, response).headers == KeptHeaders(response.headers);
    if s: string :| response.body == Utf8(s) {
      assert c.decode(Utf8(s)) == s;
    }
  }

  /* ---------- Where a replay comes from ---------- */

  /** The entry was stored by one of the first `n` calls, under its tenant and key. */
  ghost predicate Source(c: Config, calls: seq<Call>, n: nat, i: nat, key: string, entry: (real, Entry))
    requires n <= |calls|
  {
    i < n && Succeeded(c, calls, i) && key == KeyOf(calls[i].request) && entry == Stored(c, calls[i])
  }

  lemma {:induction false} EntryHasSource(c: Config, calls: seq<Call>, n: nat, key: string) returns (i: nat)
    requires n <= |calls| && key in After(c, calls, n)
    ensures Source(c, calls, n, i, key, After(c, calls, n)[key])
  {
    var before, call := After(c, calls, n - 1), calls[n - 1];
    if Stores(c, before, call) && key == KeyOf(call.request) {
      i := n - 1;
    } else {
      i := EntryHasSource(c, calls, n - 1, key);
    }
  }

  /**
   A keyed request that does not reach the handler is answered from an earlier success of the same tenant
   and the same key which has not expired: by its replay, or by a conflict if the bodies differ.
   */
  lemma AnswersStayWithTenant(c: Config, calls: seq<Call>, j: nat) returns (i: nat)
    requires j < |calls| && IsKeyed(c, calls[j].request) && !OutcomeOf(c, calls, j).called
    ensures i < j && Succeeded(c, calls, i) && calls[j].now < Expiry(c, calls[i])
    ensures TenantName(calls[i].request.tenant) == TenantName(calls[j].request.tenant)
    ensures Strip(calls[i].request.header) == Strip(calls[j].request.header)
    ensures OutcomeOf(c, calls, j).reply == ReplayOfCall(c, calls[i]) ||
            (OutcomeOf(c, calls, j).reply == CONFLICT && calls[i].request.body != calls[j].request.body)
  {
    var key := KeyOf(calls[j].request);
    i := EntryHasSource(c, calls, j, key);
    ScopedKeyInjective(TenantName(calls[i].request.tenant), Strip(calls[i].request.header),
                       TenantName(calls[j].request.tenant), Strip(calls[j].request.header));
  }

  /* ---------- Requests that overlap ---------- */

  /**
   What a keyed request does to the store when requests overlap: it asks once, and stores the handler's
   success later. Anything may come in between.
   */
  datatype Event =
    | Ask(request: Request, time: real)
    | Keep(request: Request, response: Response, time: real)

  ghost predicate EventAt(c: Config, datas: seq<Data>, events: seq<Event>, i: nat) {
    && i < |events| && i + 1 < |datas| && IsKeyed(c, events[i].request)
    && datas[i + 1] ==
       match events[i]
       case Ask(r, now) => Lookup(datas[i], KeyOf(r), now).0
       case Keep(r, response, later) => Insert(datas[i], KeyOf(r), EntryOf(c, r, response), c.ttlSeconds, later)
  }

  ghost predicate Overlapping(c: Config, datas: seq<Data>, events: seq<Event>) {
    && |datas| == |events| + 1 && datas[0] == map[]
    && (forall i :: 0 <= i < |events| ==> EventAt(c, datas, events, i))
    && (forall i, j :: 0 <= i < j < |events| ==> events[i].time <= events[j].time)
  }

  /** Event `i` stored an answer for the key, which expires at the given time. */
  ghost predicate KeptAt(c: Config, events: seq<Event>, i: nat, key: string, expiry: real) {
    && i < |events| && events[i].Keep? && KeyOf(events[i].request) == key
    && events[i].time + Lifetime(c.ttlSeconds) == expiry
  }

  /** Until it expires a stored answer is there, or one that was stored after it. */
  lemma {:induction false} KeptUntilExpiry(c: Config, datas: seq<Data>, events: seq<Event>, i: nat, n: nat, key: string,
                                           expiry: real)
    requires Overlapping(c, datas, events) && i < n < |datas| && KeptAt(c, events, i, key, expiry)
    requires events[n - 1].time < expiry
    ensures key in datas[n] && datas[n][key].0 >= expiry
    decreases n
  {
    assert EventAt(c, datas, events, n - 1);
    if i < n - 1 {
      KeptUntilExpiry(c, datas, events, i, n - 1, key, expiry);
    }
  }

  /** What is in the store was kept by the last event that stored something for the key. */
  lemma {:induction false} LastKept(c: Config, datas: seq<Data>, events: seq<Event>, n: nat, key: string)
    returns (i: nat)
    requires Overlapping(c, datas, events) && n < |datas| && key in datas[n]
    ensures i < n && KeptAt(c, events, i, key, datas[n][key].0)
    ensures datas[n][key].1 == EntryOf(c, events[i].request, events[i].response)
    ensures forall j :: i < j < n && events[j].Keep? ==> KeyOf(events[j].request) != key
  {
    i := n - 1;
    assert EventAt(c, datas, events, i);
    if !(events[i].Keep? && KeyOf(events[i].request) == key) {
      i := LastKept(c, datas, events, n - 1, key);
    }
  }

  /** Nothing unexpired has been stored for the key before event `n`. */
  ghost predicate NothingKept(c: Config, events: seq<Event>, n: nat, key: string, now: real) {
    forall i: nat, expiry: real :: i < n && KeptAt(c, events, i, key, expiry) ==> expiry <= now
  }

  /** What becomes of the request that asks in event `n`, whatever the handler would answer. */
  function AskOutcome(c: Config, data: Data, ask: Event, answer: Option<Response>, later: real): Outcome
    requires ask.Ask?
  {
    Handle(c, data, Call(ask.request, ask.time, answer, later)).1
  }

  lemma FreshUnlessNothingKept(c: Config, datas: seq<Data>, events: seq<Event>, n: nat)
    requires Overlapping(c, datas, events) && n < |events| && events[n].Ask?
    ensures Fresh(datas[n], KeyOf(events[n].request), events[n].time) <==>
            !NothingKept(c, events, n, KeyOf(events[n].request), events[n].time)
  {
    var key, now := KeyOf(events[n].request), events[n].time;
    if Fresh(datas[n], key, now) {
      var i := LastKept(c, datas, events, n, key);
      assert KeptAt(c, events, i, key, datas[n][key].0);
    }
    forall i: nat, expiry: real | i < n && KeptAt(c, events, i, key, expiry) && now < expiry
      ensures Fresh(datas[n], key, now)
    {
      KeptUntilExpiry(c, datas, events, i, n, key, expiry);
    }
  }

  /**
   However requests overlap, the handler is called for a keyed request if and only if no success of its tenant
   and key that has not expired was stored before it asked. That one is under way does not keep it back.
   */
  lemma ReachesHandlerUnlessKept(c: Config, datas: seq<Data>, events: seq<Event>, n: nat, answer: Option<Response>,
                                 later: real)
    requires Overlapping(c, datas, events) && n < |events| && events[n].Ask?
    ensures AskOutcome(c, datas[n], events[n], answer, later).called <==>
            NothingKept(c, events, n, KeyOf(events[n].request), events[n].time)
  {
    assert EventAt(c, datas, events, n);
    FreshUnlessNothingKept(c, datas, events, n);
  }

  /** A request for which the handler is not called is answered from the success that was stored last. */
  lemma OverlappingAnswer(c: Config, datas: seq<Data>, events: seq<Event>, n: nat, answer: Option<Response>,
                          later: real)
    returns (i: nat)
    requires Overlapping(c, datas, events) && n < |events| && events[n].Ask?
    requires !AskOutcome(c, datas[n], events[n], answer, later).called
    ensures i < n && events[i].Keep? && KeyOf(events[i].request) == KeyOf(events[n].request)
    ensures forall j :: i < j < n && events[j].Keep? ==> KeyOf(events[j].request) != KeyOf(events[n].request)
    ensures AskOutcome(c, datas[n], events[n], answer, later).reply ==
            if BodyHash(c, events[n].request.body) == BodyHash(c, events[i].request.body)
            then Answer(ReplayOf(EntryOf(c, events[i].request, events[i].response))) else CONFLICT
  {
    assert EventAt(c, datas, events, n);
    i := LastKept(c, datas, events, n, KeyOf(events[n].request));
  }

  /** For two requests with one key that both ask before either has stored its answer the handler is called twice. */
  lemma BothReachHandler(c: Config, r: Request, time: real, answer: Option<Response>, later: real)
    returns (datas: seq<Data>, events: seq<Event>)
    requires IsKeyed(c, r)
    ensures Overlapping(c, datas, events) && events == [Ask(r, time), Ask(r, time)]
    ensures AskOutcome(c, datas[0], events[0], answer, later).called
    ensures AskOutcome(c, datas[1], events[1], answer, later).called
  {
    datas, events := [map[], map[], map[]], [Ask(r, time), Ask(r, time)];
    var empty: Data := map[];
    assert empty - {KeyOf(r)} == empty;
    assert EventAt(c, datas, events, 0) && EventAt(c, datas, events, 1);
  }
}
