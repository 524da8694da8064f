/**
 Secrets redaction over JSON trees (backend/app/middleware/secrets_redaction.py): values under sensitive
 keys are replaced, strings are scrubbed, and nothing below the depth guard survives.
 */
module Redaction {
  import opened Json
  import opened Wrappers

  const REDACTED := "[REDACTED]"
  const MAX_DEPTH := 16

  const SENSITIVE_KEYS: seq<string> := [
    "password", "passphrase", "secret", "token", "api_key", "apikey", "authorization", "cookie", "set-cookie",
    "private_key", "private_key_pem", "signing_key", "client_secret", "aws_secret", "aws_secret_access_key",
    "stripe_key", "stripe_secret_key", "stripe_publishable_key", "database_url", "credit_card", "card_number",
    "ssn", "ein", "session_id", "refresh_token", "access_token", "jwt"]

  const WHITELIST_KEYS: seq<string> := [
    "username", "user_id", "tenant_id", "request_id", "trace_id", "span_id", "service", "level", "timestamp",
    "event", "message", "status_code", "method", "path", "duration_ms", "ip", "ip_address", "logger"]

  predicate Contains(text: string, word: string) {
    word <= text || (text != [] && Contains(text[1..], word))
  }

  /** A key names a secret if some needle occurs in its lower-case form and that form is not whitelisted. */
  predicate NamesSecret(lower: string -> string, key: string) {
    lower(key) !in WHITELIST_KEYS && exists k :: 0 <= k < |SENSITIVE_KEYS| && Contains(lower(key), SENSITIVE_KEYS[k])
  }

  /** `_is_sensitive_key` */
  method IsSensitiveKey(lower: string -> string, key: string) returns (r: bool)
    ensures r <==> NamesSecret(lower, key)
  {
    var lowered := lower(key);
    if lowered in WHITELIST_KEYS {
      return false;
    }
    for k := 0 to |SENSITIVE_KEYS|
      invariant forall j :: 0 <= j < k ==> !Contains(lowered, SENSITIVE_KEYS[j])
    {
      if Contains(lowered, SENSITIVE_KEYS[k]) {
        return true;
      }
    }
    return false;
  }

  /**
   The rules of a redaction. Three are left to Python: `str.lower`, the regular-expression sweep and the
   e-mail mask.
   */
  datatype Rules = Rules(lower: string -> string, sweep: string -> string, maskEmail: string -> string,
                         sensitive: string -> bool)

  /** The rules the middleware goes by. */
  function SecretRules(lower: string -> string, sweep: string -> string, maskEmail: string -> string): Rules {
    Rules(lower, sweep, maskEmail, key => NamesSecret(lower, key))
  }

  /** What `_walk` makes of a tree found at `depth` under the key `hint`. */
  function Walk(rules: Rules, node: Json, depth: nat, hint: Option<string>): Json
    decreases node
  {
    if depth > MAX_DEPTH then Str(REDACTED)
    else
      match node
      case Obj(members) =>
        Obj(seq(|members|, i requires 0 <= i < |members| =>
              Member(members[i].key, WalkValue(rules, members[i], depth))))
      case Arr(items) => Arr(seq(|items|, i requires 0 <= i < |items| => Walk(rules, items[i], depth + 1, hint)))
      case Str(s) =>
        Str(if hint.Some? && hint.value != "" && rules.lower(hint.value) == "email" then rules.maskEmail(s)
            else rules.sweep(s))
      case _ => node
  }

  function WalkValue(rules: Rules, m: Member, depth: nat): Json
    decreases m
  {
    if rules.sensitive(m.key) then Str(REDACTED) else Walk(rules, m.val, depth + 1, Some(m.key))
  }

  /** The loop of `_walk` that fills the new dictionary. */
  method WalkMembers(lower: string -> string, sweep: string -> string, maskEmail: string -> string,
                     members: seq<Member>, depth: nat)
    returns (out: seq<Member>)
    ensures |out| == |members|
    ensures forall j :: 0 <= j < |members| ==>
              out[j] == Member(members[j].key, WalkValue(SecretRules(lower, sweep, maskEmail), members[j], depth))
    decreases members
  {
    ghost var rules := SecretRules(lower, sweep, maskEmail);
    out := [];
    for i := 0 to |members|
      invariant |out| == i
      invariant forall j :: 0 <= j < i ==> out[j] == Member(members[j].key, WalkValue(rules, members[j], depth))
    {
      var m := members[i];
      var sensitive := IsSensitiveKey(lower, m.key);
      if sensitive {
        out := out + [Member(m.key, Str(REDACTED))];
      } else {
        var value := WalkNode(lower, sweep, maskEmail, m.val, depth + 1, Some(m.key));
        out := out + [Member(m.key, value)];
      }
    }
  }

  /** The comprehension of `_walk` that rebuilds a list. */
  method WalkItems(lower: string -> string, sweep: string -> string, maskEmail: string -> string,
                   items: seq<Json>, depth: nat, hint: Option<string>)
    returns (rebuilt: seq<Json>)
    ensures |rebuilt| == |items|
    ensures forall j :: 0 <= j < |items| ==>
              rebuilt[j] == Walk(SecretRules(lower, sweep, maskEmail), items[j], depth + 1, hint)
    decreases items
  {
    ghost var rules := SecretRules(lower, sweep, maskEmail);
    rebuilt := [];
    for i := 0 to |items|
      invariant |rebuilt| == i
      invariant forall j :: 0 <= j < i ==> rebuilt[j] == Walk(rules, items[j], depth + 1, hint)
    {
      var item := WalkNode(lower, sweep, maskEmail, items[i], depth + 1, hint);
      rebuilt := rebuilt + [item];
    }
  }

  /** `_walk` */
  method WalkNode(lower: string -> string, sweep: string -> string, maskEmail: string -> string,
                  node: Json, depth: nat, hint: Option<string>)
    returns (r: Json)
    ensures r == Walk(SecretRules(lower, sweep, maskEmail), node, depth, hint)
    decreases node
  {
    if depth > MAX_DEPTH {
      return Str(REDACTED);
    }
    match node
    case Obj(members) =>
      var out := WalkMembers(lower, sweep, maskEmail, members, depth);
      r := Obj(out);
    case Arr(items) =>
      var rebuilt := WalkItems(lower, sweep, maskEmail, items, depth, hint);
      r := Arr(rebuilt);
    case Str(text) =>
      if hint.Some? && hint.value != "" && lower(hint.value) == "email" {
        r := Str(maskEmail(text));
      } else {
        r := Str(sweep(text));
      }
    case _ => r := node;
  }

  /** `redact_secrets` */
  function RedactSecrets(rules: Rules, payload: Json): Json {
    Walk(rules, payload, 0, None)
  }

  /** The value a member has in the redacted dictionary. */
  lemma WalkMember(rules: Rules, members: seq<Member>, depth: nat, hint: Option<string>, i: nat)
    requires depth <= MAX_DEPTH && i < |members|
    ensures var r := Walk(rules, Obj(members), depth, hint);
            && r.Obj? && |r.members| == |members| && r.members[i].key == members[i].key
            && r.members[i].val == if rules.sensitive(members[i].key) then Str(REDACTED)
                                   else Walk(rules, members[i].val, depth + 1, Some(members[i].key))
  {
    assert Walk(rules, Obj(members), depth, hint).members[i] ==
           Member(members[i].key, WalkValue(rules, members[i], depth));
  }

  /** A word that occurs in a text. */
  lemma {:induction false} Occurs(before: string, word: string, rest: string)
    ensures Contains(before + word + rest, word)
  {
    if before == "" {
      assert before + word + rest == word + rest;
    } else {
      assert (before + word + rest)[1..] == before[1..] + word + rest;
      Occurs(before[1..], word, rest);
    }
  }

  /** What a needle of the list does: every key that holds it, whatever stands around it, unless whitelisted. */
  lemma NeedleInKey(lower: string -> string, key: string, k: nat, before: string, rest: string)
    requires k < |SENSITIVE_KEYS| && lower(key) == before + SENSITIVE_KEYS[k] + rest && lower(key) !in WHITELIST_KEYS
    ensures NamesSecret(lower, key)
  {
    Occurs(before, SENSITIVE_KEYS[k], rest);
  }

  lemma WordIsNeedle(word: string) returns (k: nat)
    requires word in {"password", "passphrase", "secret", "token", "api_key", "apikey", "authorization", "cookie",
                      "private_key", "signing_key", "stripe_key", "stripe_publishable_key", "database_url",
                      "credit_card", "card_number", "ssn", "ein", "session_id", "jwt"}
    ensures k < |SENSITIVE_KEYS| && SENSITIVE_KEYS[k] == word
  {
    k := if word == "password" then 0
         else if word == "passphrase" then 1
         else if word == "secret" then 2
         else if word == "token" then 3
         else if word == "api_key" then 4
         else if word == "apikey" then 5
         else if word == "authorization" then 6
         else if word == "cookie" then 7
         else if word == "private_key" then 9
         else if word == "signing_key" then 11
         else if word == "stripe_key" then 15
         else if word == "stripe_publishable_key" then 17
         else if word == "database_url" then 18
         else if word == "credit_card" then 19
         else if word == "card_number" then 20
         else if word == "ssn" then 21
         else if word == "ein" then 22
         else if word == "session_id" then 23
         else 26;
  }

  /** Keys that hold a word for a secret are sensitive, whatever stands around it; those on the whitelist are not. */
  lemma SecretsHaveNames(lower: string -> string, key: string, before: string, rest: string, word: string)
    requires word in {"password", "passphrase", "secret", "token", "api_key", "apikey", "authorization", "cookie",
                      "private_key", "signing_key", "stripe_key", "stripe_publishable_key", "database_url",
                      "credit_card", "card_number", "ssn", "ein", "session_id", "jwt"}
    requires lower(key) == before + word + rest
    ensures NamesSecret(lower, key) <==>
            lower(key) !in {"username", "user_id", "tenant_id", "request_id", "trace_id", "span_id", "service", "level",
                            "timestamp", "event", "message", "status_code", "method", "path", "duration_ms", "ip",
                            "ip_address", "logger"}
  {
    var k := WordIsNeedle(word);
    if lower(key) !in WHITELIST_KEYS {
      NeedleInKey(lower, key, k, before, rest);
    }
  }

  lemma {:induction false} LongWordsDoNotOccur(text: string, word: string)
    requires |word| > |text|
    ensures !Contains(text, word)
  {
    if text != "" {
      LongWordsDoNotOccur(text[1..], word);
    }
  }

  /** A key too short for any word for a secret is none. */
  lemma ShortKeysAreOpen(lower: string -> string, key: string)
    requires |lower(key)| < 3
    ensures !NamesSecret(lower, key)
  {
    forall k | 0 <= k < |SENSITIVE_KEYS|
      ensures !Contains(lower(key), SENSITIVE_KEYS[k])
    {
      LongWordsDoNotOccur(lower(key), SENSITIVE_KEYS[k]);
    }
  }

  /** An e-mail address is masked under the key for it, in whatever case; every other text is swept. */
  lemma EmailIsMasked(rules: Rules, key: string, text: string, depth: nat, hint: Option<string>)
    requires depth < 16 && !rules.sensitive(key)
    ensures Walk(rules, Obj([Member(key, Str(text))]), depth, hint) ==
            Obj([Member(key, Str(if key != "" && rules.lower(key) == "email" then rules.maskEmail(text)
                                 else rules.sweep(text)))])
    ensures Walk(rules, Str(text), 17, hint) == Str("[REDACTED]")
  {
    WalkMember(rules, [Member(key, Str(text))], depth, hint, 0);
  }

  /* ---------- Non-interference ---------- */

  /** The two trees differ at most under sensitive keys, and in the order of members. */
  ghost predicate SameButSecrets(rules: Rules, v: Json, w: Json) {
    match (v, w)
    case (Arr(xs), Arr(ys)) => |xs| == |ys| && forall i :: 0 <= i < |xs| ==> SameButSecrets(rules, xs[i], ys[i])
    case (Obj(ms), Obj(ns)) =>
      && (forall i :: 0 <= i < |ms| ==> MatchedButSecrets(rules, ms[i], ns))
      && (forall j :: 0 <= j < |ns| ==> Named(ns[j].key, ms))
    case (Arr(_), _) => false
    case (Obj(_), _) => false
    case _ => v == w
  }

  ghost predicate MatchedButSecrets(rules: Rules, m: Member, members: seq<Member>) {
    exists j :: 0 <= j < |members| && members[j].key == m.key
                && (rules.sensitive(m.key) || SameButSecrets(rules, m.val, members[j].val))
  }

  /** What lies under sensitive keys does not influence the redacted tree. */
  lemma {:induction false} RedactionHidesSecrets(rules: Rules, v: Json, w: Json, depth: nat, hint: Option<string>)
    requires SameButSecrets(rules, v, w)
    ensures SameValue(Walk(rules, v, depth, hint), Walk(rules, w, depth, hint))
    decreases v, 1
  {
    if depth <= MAX_DEPTH {
      var r, q := Walk(rules, v, depth, hint), Walk(rules, w, depth, hint);
      match (v, w)
      case (Arr(xs), Arr(ys)) =>
        forall i | 0 <= i < |xs|
          ensures SameValue(r.items[i], q.items[i])
        {
          RedactionHidesSecrets(rules, xs[i], ys[i], depth + 1, hint);
        }
      case (Obj(ms), Obj(ns)) =>
        forall i | 0 <= i < |ms|
          ensures Matched(r.members[i], q.members)
        {
          assert MatchedButSecrets(rules, ms[i], ns);
          MemberHidesSecrets(rules, ms, ns, i, depth, hint);
        }
        forall j | 0 <= j < |ns|
          ensures Named(q.members[j].key, r.members)
        {
          assert Named(ns[j].key, ms);
          NameSurvives(rules, ms, ns, j, depth, hint);
        }
      case _ =>
    }
  }

  lemma {:induction false} MemberHidesSecrets(rules: Rules, ms: seq<Member>, ns: seq<Member>, i: nat, depth: nat,
                                              hint: Option<string>)
    requires depth <= MAX_DEPTH && i < |ms| && MatchedButSecrets(rules, ms[i], ns)
    ensures Matched(Walk(rules, Obj(ms), depth, hint).members[i], Walk(rules, Obj(ns), depth, hint).members)
    decreases Obj(ms), 0
  {
    var r, q := Walk(rules, Obj(ms), depth, hint), Walk(rules, Obj(ns), depth, hint);
    var j :| 0 <= j < |ns| && ns[j].key == ms[i].key
             && (rules.sensitive(ms[i].key) || SameButSecrets(rules, ms[i].val, ns[j].val));
    if !rules.sensitive(ms[i].key) {
      RedactionHidesSecrets(rules, ms[i].val, ns[j].val, depth + 1, Some(ms[i].key));
    }
    WalkMember(rules, ms, depth, hint, i);
    WalkMember(rules, ns, depth, hint, j);
    assert q.members[j].key == r.members[i].key && SameValue(r.members[i].val, q.members[j].val);
  }

  lemma NameSurvives(rules: Rules, ms: seq<Member>, ns: seq<Member>, j: nat, depth: nat, hint: Option<string>)
    requires depth <= MAX_DEPTH && j < |ns| && Named(ns[j].key, ms)
    ensures Named(Walk(rules, Obj(ns), depth, hint).members[j].key, Walk(rules, Obj(ms), depth, hint).members)
  {
    var i :| 0 <= i < |ms| && ms[i].key == ns[j].key;
    WalkMember(rules, ms, depth, hint, i);
    WalkMember(rules, ns, depth, hint, j);
    assert Walk(rules, Obj(ms), depth, hint).members[i].key == ns[j].key;
  }

  lemma {:induction false} RedactionKeepsWellFormed(rules: Rules, v: Json, depth: nat, hint: Option<string>)
    requires WellFormed(v)
    ensures WellFormed(Walk(rules, v, depth, hint))
    decreases v
  {
    if depth <= MAX_DEPTH {
      var r := Walk(rules, v, depth, hint);
      match v
      case Arr(items) =>
        forall i | 0 <= i < |items|
          ensures WellFormed(r.items[i])
        {
          RedactionKeepsWellFormed(rules, items[i], depth + 1, hint);
        }
      case Obj(members) =>
        forall i | 0 <= i < |members|
          ensures WellFormed(r.members[i].val)
        {
          WalkMember(rules, members, depth, hint, i);
          if !rules.sensitive(members[i].key) {
            RedactionKeepsWellFormed(rules, members[i].val, depth + 1, Some(members[i].key));
          }
        }
      case _ =>
    }
  }

  /* ---------- Shape ---------- */

  function Max(x: nat, y: nat): nat {
    if x > y then x else y
  }

  /** Nesting depth: a scalar has none. */
  function Height(v: Json): nat {
    match v
    case Arr(items) => 1 + ItemsHeight(items)
    case Obj(members) => 1 + MembersHeight(members)
    case _ => 0
  }

  function ItemsHeight(items: seq<Json>): nat {
    if items == [] then 0 else Max(Height(items[0]), ItemsHeight(items[1..]))
  }

  function MembersHeight(members: seq<Member>): nat {
    if members == [] then 0 else Max(Height(members[0].val), MembersHeight(members[1..]))
  }

  lemma {:induction false} ItemsHeightBound(items: seq<Json>, h: nat)
    requires forall i :: 0 <= i < |items| ==> Height(items[i]) <= h
    ensures ItemsHeight(items) <= h
  {
    if items != [] {
      ItemsHeightBound(items[1..], h);
    }
  }

  lemma {:induction false} MembersHeightBound(members: seq<Member>, h: nat)
    requires forall i :: 0 <= i < |members| ==> Height(members[i].val) <= h
    ensures MembersHeight(members) <= h
  {
    if members != [] {
      MembersHeightBound(members[1..], h);
    }
  }

  /** However deep the payload, the redacted tree nests no deeper than the guard allows. */
  lemma {:induction false} DepthIsGuarded(rules: Rules, v: Json, depth: nat, hint: Option<string>)
    requires depth <= 17
    ensures Height(Walk(rules, v, depth, hint)) <= 17 - depth
    decreases v
  {
    if depth <= MAX_DEPTH {
      var r := Walk(rules, v, depth, hint);
      match v
      case Arr(items) =>
        forall i | 0 <= i < |items|
          ensures Height(r.items[i]) <= MAX_DEPTH - depth
        {
          DepthIsGuarded(rules, items[i], depth + 1, hint);
        }
        ItemsHeightBound(r.items, MAX_DEPTH - depth);
      case Obj(members) =>
        forall i | 0 <= i < |members|
          ensures Height(r.members[i].val) <= MAX_DEPTH - depth
        {
          WalkMember(rules, members, depth, hint, i);
          if !rules.sensitive(members[i].key) {
            DepthIsGuarded(rules, members[i].val, depth + 1, Some(members[i].key));
          }
        }
        MembersHeightBound(r.members, MAX_DEPTH - depth);
      case _ =>
    }
  }

  /* Paths from the root, by child number. */

  function Arity(v: Json): nat {
    match v
    case Arr(items) => |items|
    case Obj(members) => |members|
    case _ => 0
  }

  function Child(v: Json, i: nat): Json
    requires i < Arity(v)
  {
    match v
    case Arr(items) => items[i]
    case Obj(members) => members[i].val
  }

  predicate Reaches(v: Json, path: seq<nat>) {
    path == [] || (path[0] < Arity(v) && Reaches(Child(v, path[0]), path[1..]))
  }

  function At(v: Json, path: seq<nat>): Json
    requires Reaches(v, path)
  {
    if path == [] then v else At(Child(v, path[0]), path[1..])
  }

  predicate SecretChild(rules: Rules, v: Json, i: nat)
    requires i < Arity(v)
  {
    v.Obj? && rules.sensitive(v.members[i].key)
  }

  /** No step of the path goes through a sensitive key. */
  predicate Open(rules: Rules, v: Json, path: seq<nat>)
    requires Reaches(v, path)
  {
    path == [] || (!SecretChild(rules, v, path[0]) && Open(rules, Child(v, path[0]), path[1..]))
  }

  /** Same kind of node, same keys in the same places, or as many items; scalars other than strings are equal. */
  predicate SameFrame(v: Json, w: Json) {
    match (v, w)
    case (Obj(ms), Obj(ns)) => |ms| == |ns| && forall i :: 0 <= i < |ms| ==> ms[i].key == ns[i].key
    case (Arr(xs), Arr(ys)) => |xs| == |ys|
    case (Str(_), Str(_)) => true
    case (Obj(_), _) => false
    case (Arr(_), _) => false
    case (Str(_), _) => false
    case _ => v == w
  }

  /** Outside replaced subtrees every key, every list length and every other scalar is kept. */
  lemma {:induction false} RedactionKeepsFrame(rules: Rules, v: Json, depth: nat, hint: Option<string>, path: seq<nat>)
    requires Reaches(v, path) && Open(rules, v, path) && depth + |path| <= 16
    ensures Reaches(Walk(rules, v, depth, hint), path)
    ensures SameFrame(At(v, path), At(Walk(rules, v, depth, hint), path))
    decreases |path|
  {
    if path != [] {
      var i := path[0];
      var next := if v.Obj? then Some(v.members[i].key) else hint;
      if v.Obj? {
        WalkMember(rules, v.members, depth, hint, i);
      }
      assert Child(Walk(rules, v, depth, hint), i) == Walk(rules, Child(v, i), depth + 1, next);
      RedactionKeepsFrame(rules, Child(v, i), depth + 1, next, path[1..]);
    }
  }

  /** Whatever a sensitive key held is gone, wherever the key is. */
  lemma {:induction false} SecretsAreReplaced(rules: Rules, v: Json, depth: nat, hint: Option<string>, path: seq<nat>,
                                              i: nat)
    requires Reaches(v, path) && Open(rules, v, path) && depth + |path| <= 16
    requires i < Arity(At(v, path)) && SecretChild(rules, At(v, path), i)
    ensures Reaches(Walk(rules, v, depth, hint), path)
    ensures i < Arity(At(Walk(rules, v, depth, hint), path))
    ensures Child(At(Walk(rules, v, depth, hint), path), i) == Str("[REDACTED]")
    decreases |path|
  {
    if path != [] {
      var next := if v.Obj? then Some(v.members[path[0]].key) else hint;
      if v.Obj? {
        WalkMember(rules, v.members, depth, hint, path[0]);
      }
      assert Child(Walk(rules, v, depth, hint), path[0]) == Walk(rules, Child(v, path[0]), depth + 1, next);
      SecretsAreReplaced(rules, Child(v, path[0]), depth + 1, next, path[1..], i);
    }
  }
}
