/**
 The verifier's cache of public keys (verifier/app/main.py): at most 64 entries that live for a while, in
 front of the key registry. Requests interleave between looking a key up and storing the registry's reply.
 */
module KeyCache {
  import opened Wrappers

  /** `loads` says whether a PEM loads as an Ed25519 key; `strip` and `lower` are Python's. */
  datatype Settings = Settings(publicKeyPem: string, signingKeyId: string, ttlSeconds: int,
                               strip: string -> string, lower: string -> string, loads: string -> bool)

  datatype CachedPublicKey = CachedPublicKey(pem: string, expiresAt: real)

  type Cache = map<string, CachedPublicKey>

  const MAX_ENTRIES := 64

  /** What the registry sends back. */
  datatype Body = NotJson | NotObject | Fields(pem: Option<string>, algorithm: Option<string>)

  datatype Reply = Unreachable | Http(status: int, body: Body)

  datatype Result = Pem(pem: string) | Failed(status: int)

  /** `_static_public_key_for` */
  function StaticPublicKeyFor(s: Settings, keyId: string): Option<string> {
    var pem := s.strip(s.publicKeyPem);
    if pem != "" && keyId == s.signingKeyId then Some(pem) else None
  }

  /** What a reply comes to: the PEM as the registry sent it, or the error the client gets. */
  function Accepted(s: Settings, reply: Reply): Result {
    match reply
    case Unreachable => Failed(503)
    case Http(status, body) =>
      if status == 404 then Failed(422)
      else if status >= 400 then Failed(502)
      else
        match body
        case NotJson => Failed(502)
        case NotObject => Failed(502)
        case Fields(pem, algorithm) =>
          if pem.None? || s.strip(pem.value) == "" then Failed(502)
          else if algorithm.Some? && s.lower(algorithm.value) != "ed25519" then Failed(502)
          else if !s.loads(pem.value) then Failed(503)
          else Pem(pem.value)
  }

  function Lifetime(s: Settings): (t: real)
    ensures t >= 60.0
  {
    (if s.ttlSeconds > 60 then s.ttlSeconds else 60) as real
  }

  /** The entry is there and has not expired. */
  predicate Fresh(cache: Cache, keyId: string, now: real) {
    keyId in cache && now < cache[keyId].expiresAt
  }

  /** No entry expires before that of `keyId`. */
  predicate IsOldest(cache: Cache, keyId: string) {
    keyId in cache && forall k :: k in cache ==> cache[keyId].expiresAt <= cache[k].expiresAt
  }

  /** The cache after `_cache_get`. */
  function Looked(cache: Cache, keyId: string, now: real): Cache {
    if Fresh(cache, keyId, now) then cache else cache - {keyId}
  }

  /** The cache after `_cache_put`: a full one has first lost `evicted`. */
  function Stored(s: Settings, cache: Cache, evicted: string, keyId: string, pem: string, now: real): Cache {
    (if |cache| >= MAX_ENTRIES then cache - {evicted} else cache)
    [keyId := CachedPublicKey(pem, now + Lifetime(s))]
  }

  class PublicKeys {
    const s: Settings
    var cache: Cache

    constructor (s: Settings)
      ensures this.s == s && cache == map[]
    {
      this.s := s;
      cache := map[];
    }

    /** `_cache_get` */
    method CacheGet(keyId: string, now: real) returns (pem: Option<string>)
      modifies this`cache
      ensures cache == Looked(old(cache), keyId, now)
      ensures pem == if Fresh(old(cache), keyId, now) then Some(old(cache)[keyId].pem) else None
    {
      if keyId !in cache {
        assert cache - {keyId} == cache;
        return None;
      }
      var cached := cache[keyId];
      if cached.expiresAt <= now {
        cache := cache - {keyId};
        return None;
      }
      return Some(cached.pem);
    }

    method OldestKey() returns (oldest: string)
      requires cache != map[]
      ensures IsOldest(cache, oldest)
    {
      oldest :| oldest in cache;
      var rest := cache.Keys;
      while rest != {}
        invariant rest <= cache.Keys && oldest in cache
        invariant forall k :: k in cache && k !in rest ==> cache[oldest].expiresAt <= cache[k].expiresAt
        decreases |rest|
      {
        var k :| k in rest;
        if cache[k].expiresAt < cache[oldest].expiresAt {
          oldest := k;
        }
        rest := rest - {k};
      }
    }

    /** `_cache_put` */
    method CachePut(keyId: string, pem: string, now: real) returns (evicted: string)
      modifies this`cache
      ensures |old(cache)| >= 64 ==> IsOldest(old(cache), evicted)
      ensures cache == (if |old(cache)| >= 64 then old(cache) - {evicted} else old(cache))[keyId :=
                         CachedPublicKey(pem, now + (if s.ttlSeconds > 60 then s.ttlSeconds else 60) as real)]
      ensures cache == Stored(s, old(cache), evicted, keyId, pem, now)
    {
      evicted := "";
      if |cache| >= MAX_ENTRIES {
        evicted := OldestKey();
        cache := cache - {evicted};
      }
      var ttl := if s.ttlSeconds > 60 then s.ttlSeconds else 60;
      cache := cache[keyId := CachedPublicKey(pem, now + ttl as real)];
    }

    /** `_resolve_public_key_pem` up to the request to the registry: `None` if it has to be sent. */
    method BeginResolve(keyId: string, now: real) returns (pem: Option<string>)
      modifies this`cache
      ensures (cache, pem) == Begun(s, old(cache), keyId, now)
      ensures keyId == s.signingKeyId && s.strip(s.publicKeyPem) != "" ==>
                pem == Some(s.strip(s.publicKeyPem)) && cache == old(cache)
      ensures keyId != s.signingKeyId || s.strip(s.publicKeyPem) == "" ==>
                if keyId in old(cache) && now < old(cache)[keyId].expiresAt
                then pem == Some(old(cache)[keyId].pem) && cache == old(cache)
                else pem == None && cache == old(cache) - {keyId}
    {
      pem := StaticPublicKeyFor(s, keyId);
      if pem.Some? {
        return;
      }
      pem := CacheGet(keyId, now);
    }

    /** The rest of `_resolve_public_key_pem`, when the registry has replied. */
    method FinishResolve(keyId: string, reply: Reply, now: real) returns (result: Result, evicted: string)
      modifies this`cache
      ensures result == Accepted(s, reply)
      ensures result.Pem? <==> && reply.Http? && reply.status < 400 && reply.body.Fields?
                               && reply.body.pem.Some? && s.strip(reply.body.pem.value) != ""
                               && s.loads(reply.body.pem.value)
                               && (reply.body.algorithm.Some? ==> s.lower(reply.body.algorithm.value) == "ed25519")
      ensures result.Pem? ==> result.pem == reply.body.pem.value
      ensures result.Failed? ==> result.status in {422, 502, 503}
      ensures result == Failed(422) <==> reply.Http? && reply.status == 404
      ensures result == Failed(503) <==>
                || reply.Unreachable?
                || (&& reply.status < 400 && reply.body.Fields?
                    && reply.body.pem.Some? && s.strip(reply.body.pem.value) != ""
                    && (reply.body.algorithm.Some? ==> s.lower(reply.body.algorithm.value) == "ed25519")
                    && !s.loads(reply.body.pem.value))
      ensures result.Pem? ==> keyId in cache && cache[keyId].pem == result.pem &&
                              cache[keyId].expiresAt == now + (if s.ttlSeconds > 60 then s.ttlSeconds else 60) as real
      ensures result.Pem? && |old(cache)| >= MAX_ENTRIES ==> IsOldest(old(cache), evicted)
      ensures cache == if result.Pem? then Stored(s, old(cache), evicted, keyId, result.pem, now) else old(cache)
    {
      evicted := "";
      if reply.Unreachable? {
        return Failed(503), evicted;
      }
      if reply.status == 404 {
        return Failed(422), evicted;
      }
      if reply.status >= 400 {
        return Failed(502), evicted;
      }
      if !reply.body.Fields? {
        return Failed(502), evicted;
      }
      var publicKeyPem, algorithm := reply.body.pem, reply.body.algorithm;
      if publicKeyPem.None? || s.strip(publicKeyPem.value) == "" {
        return Failed(502), evicted;
      }
      if algorithm.Some? && s.lower(algorithm.value) != "ed25519" {
        return Failed(502), evicted;
      }
      if !s.loads(publicKeyPem.value) {
        return Failed(503), evicted;
      }
      evicted := CachePut(keyId, publicKeyPem.value, now);
      return Pem(publicKeyPem.value), evicted;
    }
  }

  function Begun(s: Settings, cache: Cache, keyId: string, now: real): (Cache, Option<string>) {
    var pinned := StaticPublicKeyFor(s, keyId);
    if pinned.Some? then (cache, pinned)
    else (Looked(cache, keyId, now), if Fresh(cache, keyId, now) then Some(cache[keyId].pem) else None)
  }

  /* ---------- Runs ---------- */

  /**
   What a request does between two waits: it begins, or it finishes with the reply the registry gave at
   time `served`. `evicted` is the entry a full cache loses.
   */
  datatype Op =
    | Begin(keyId: string, now: real)
    | Finish(keyId: string, reply: Reply, served: real, now: real, evicted: string)

  ghost predicate Next(s: Settings, cache: Cache, op: Op, after: Cache) {
    match op
    case Begin(keyId, now) => after == Begun(s, cache, keyId, now).0
    case Finish(keyId, reply, _, now, evicted) =>
      StaticPublicKeyFor(s, keyId).None? &&
      if Accepted(s, reply).Pem?
      then (|cache| >= MAX_ENTRIES ==> IsOldest(cache, evicted))
           && after == Stored(s, cache, evicted, keyId, Accepted(s, reply).pem, now)
      else after == cache
  }

  ghost predicate StepAt(s: Settings, caches: seq<Cache>, ops: seq<Op>, i: nat) {
    i < |ops| && i + 1 < |caches| && Next(s, caches[i], ops[i], caches[i + 1])
  }

  ghost predicate Run(s: Settings, caches: seq<Cache>, ops: seq<Op>) {
    && |caches| == |ops| + 1 && caches[0] == map[]
    && forall i :: 0 <= i < |ops| ==> StepAt(s, caches, ops, i)
  }

  /** What the client gets from the operation, if it is answered by it. */
  function Answered(s: Settings, cache: Cache, op: Op): Option<string> {
    match op
    case Begin(keyId, now) => Begun(s, cache, keyId, now).1
    case Finish(_, reply, _, _, _) => if Accepted(s, reply).Pem? then Some(Accepted(s, reply).pem) else None
  }

  lemma RemovedSize(cache: Cache, k: string)
    ensures |cache - {k}| <= |cache| && (k in cache ==> |cache - {k}| == |cache| - 1)
  {
    assert (cache - {k}).Keys == cache.Keys - {k};
    assert |(cache - {k}).Keys| == |cache - {k}| && |cache.Keys| == |cache|;
  }

  lemma AddedSize(cache: Cache, k: string, v: CachedPublicKey)
    ensures |cache[k := v]| <= |cache| + 1
  {
    assert cache[k := v].Keys == cache.Keys + {k};
    assert |cache.Keys| == |cache| && |cache[k := v].Keys| == |cache[k := v]|;
  }

  lemma StoredSize(s: Settings, cache: Cache, evicted: string, keyId: string, pem: string, now: real)
    requires |cache| <= MAX_ENTRIES && (|cache| >= MAX_ENTRIES ==> evicted in cache)
    ensures |Stored(s, cache, evicted, keyId, pem, now)| <= MAX_ENTRIES
  {
    RemovedSize(cache, evicted);
    AddedSize(if |cache| >= MAX_ENTRIES then cache - {evicted} else cache, keyId,
              CachedPublicKey(pem, now + Lifetime(s)));
  }

  /** The cache never holds more than 64 keys. */
  lemma {:induction false} CacheStaysSmall(s: Settings, caches: seq<Cache>, ops: seq<Op>, n: nat)
    requires Run(s, caches, ops) && n < |caches|
    ensures |caches[n]| <= 64
  {
    if n > 0 {
      CacheStaysSmall(s, caches, ops, n - 1);
      var cache, op := caches[n - 1], ops[n - 1];
      assert StepAt(s, caches, ops, n - 1);
      match op
      case Begin(keyId, _) => RemovedSize(cache, keyId);
      case Finish(keyId, reply, _, now, evicted) =>
        if Accepted(s, reply).Pem? {
          StoredSize(s, cache, evicted, keyId, Accepted(s, reply).pem, now);
        }
    }
  }

  /** Operation `i` stored the entry. */
  ghost predicate Source(s: Settings, ops: seq<Op>, n: nat, i: nat, keyId: string, entry: CachedPublicKey) {
    && i < n <= |ops| && ops[i].Finish? && ops[i].keyId == keyId
    && Accepted(s, ops[i].reply) == Pem(entry.pem) && entry.expiresAt == ops[i].now + Lifetime(s)
  }

  predicate StoresKey(s: Settings, op: Op, keyId: string) {
    op.Finish? && op.keyId == keyId && Accepted(s, op.reply).Pem?
  }

  /** An entry was there before the step, or the step stored it. */
  lemma EntryStep(s: Settings, cache: Cache, op: Op, after: Cache, keyId: string)
    requires Next(s, cache, op, after) && keyId in after
    ensures if StoresKey(s, op, keyId)
            then after[keyId] == CachedPublicKey(Accepted(s, op.reply).pem, op.now + Lifetime(s))
            else keyId in cache && after[keyId] == cache[keyId]
  {}

  lemma {:induction false} EntryHasSource(s: Settings, caches: seq<Cache>, ops: seq<Op>, n: nat, keyId: string)
    returns (i: nat)
    requires Run(s, caches, ops) && n < |caches| && keyId in caches[n]
    ensures Source(s, ops, n, i, keyId, caches[n][keyId])
  {
    i := n - 1;
    assert StepAt(s, caches, ops, i);
    EntryStep(s, caches[i], ops[i], caches[n], keyId);
    if !StoresKey(s, ops[i], keyId) {
      i := EntryHasSource(s, caches, ops, n - 1, keyId);
    }
  }

  /**
   Every PEM handed out is the pinned one if the identifier is the configured one, and otherwise one the
   registry sent for that identifier, received by this request or less than the lifetime ago.
   */
  lemma AnswersComeFromRegistry(s: Settings, caches: seq<Cache>, ops: seq<Op>, n: nat) returns (i: nat)
    requires Run(s, caches, ops) && n < |ops| && Answered(s, caches[n], ops[n]).Some?
    ensures var pinned, pem := StaticPublicKeyFor(s, ops[n].keyId), Answered(s, caches[n], ops[n]).value;
            if pinned.Some? then pem == pinned.value
            else
              && i <= n && ops[i].Finish? && ops[i].keyId == ops[n].keyId
              && Accepted(s, ops[i].reply) == Pem(pem) && ops[n].now < ops[i].now + Lifetime(s)
  {
    i := n;
    assert StepAt(s, caches, ops, n);
    if ops[n].Begin? && StaticPublicKeyFor(s, ops[n].keyId).None? {
      i := EntryHasSource(s, caches, ops, n, ops[n].keyId);
    }
  }

  /** What the registry serves, by identifier and time. */
  type Registry = (string, real) -> Option<string>

  ghost predicate RepliesAreGenuine(s: Settings, ops: seq<Op>, registry: Registry) {
    forall i :: 0 <= i < |ops| && ops[i].Finish? && Accepted(s, ops[i].reply).Pem? ==>
                  registry(ops[i].keyId, ops[i].served) == Some(Accepted(s, ops[i].reply).pem)
  }

  ghost predicate NeverChanges(registry: Registry, keyId: string, pem: string) {
    forall t: real :: registry(keyId, t) in {None, Some(pem)}
  }

  /** If the registry never changes a key, the cache cannot be told from the registry. */
  lemma CacheIsTransparent(s: Settings, caches: seq<Cache>, ops: seq<Op>, registry: Registry, n: nat, pem: string)
    requires Run(s, caches, ops) && RepliesAreGenuine(s, ops, registry)
    requires n < |ops| && Answered(s, caches[n], ops[n]).Some?
    requires NeverChanges(registry, ops[n].keyId, pem)
    ensures var pinned := StaticPublicKeyFor(s, ops[n].keyId);
            Answered(s, caches[n], ops[n]).value == if pinned.Some? then pinned.value else pem
  {
    var i := AnswersComeFromRegistry(s, caches, ops, n);
    if StaticPublicKeyFor(s, ops[n].keyId).None? {
      assert registry(ops[i].keyId, ops[i].served) in {None, Some(pem)};
    }
  }

  /** An entry that has not expired is lost only as the earliest to expire of a full cache, or replaced. */
  lemma FreshEntriesStay(s: Settings, caches: seq<Cache>, ops: seq<Op>, n: nat, keyId: string)
    requires Run(s, caches, ops) && n < |ops| && Fresh(caches[n], keyId, ops[n].now)
    ensures || (keyId in caches[n + 1] &&
                (ops[n].keyId != keyId || ops[n].Begin? ==> caches[n + 1][keyId] == caches[n][keyId]))
            || (ops[n].Finish? && |caches[n]| >= MAX_ENTRIES && IsOldest(caches[n], keyId))
  {
    assert StepAt(s, caches, ops, n);
  }
}
