/**
 Refresh-token rotation (backend/app/services/auth_service.py): refresh and logout requests that interleave
 step by step over the denylist, whose unique index on `jti` is all that orders them.
 */
module RefreshTokens {
  import opened Wrappers

  /** What a refresh token asserts, as far as it decodes; a claim that is absent is `None`. */
  datatype Claims = Claims(jti: Option<string>, sub: string, tenant: Option<string>)

  /** An issued token. A family is named by the token its login issued; `parent` was exchanged for it. */
  datatype Token = Token(user: string, tenant: string, family: string, parent: Option<string>)

  datatype Kind = Refresh | Logout

  /** How far a request has come. `Inserted`: its denylist row is flushed and not yet committed. */
  datatype Phase = Begun | NotListed | UserActive | IsMember | Inserted(child: string)

  datatype Request = Request(kind: Kind, jti: string, user: string, tenant: string, phase: Phase)

  datatype Reply =
    | Exchanged(used: string, child: string)
    | LoggedOut(jti: string)
    | InvalidToken
    | UserInactive
    | NoMembership

  /**
   `revoked` lists the tokens put on the denylist in the order of the commits, `replies` what was answered so
   far. `gone` are the users and tenants that were deleted, and their denylist rows with them.
   */
  datatype Db = Db(tokens: map<string, Token>, revoked: seq<string>, active: set<string>,
                   members: set<(string, string)>, gone: set<string>, requests: map<int, Request>, replies: seq<Reply>)

  datatype Step =
    | Login(user: string, tenant: string, jti: string)
    | SetActive(user: string, on: bool)
    | SetMember(user: string, tenant: string, on: bool)
    | Delete(id: string)
    | Begin(r: int, kind: Kind, presented: Option<Claims>)
    | CheckDenylist(r: int, seen: nat)
    | CheckUser(r: int)
    | CheckMember(r: int)
    | Insert(r: int, child: string)
    | Commit(r: int)
    | Abort(r: int)

  const EMPTY: Db := Db(map[], [], {}, {}, {}, map[], [])

  /** The token decodes and carries a `jti` and a tenant. */
  predicate Acceptable(presented: Option<Claims>) {
    && presented.Some?
    && presented.value.jti.Some? && presented.value.jti.value != ""
    && presented.value.tenant.Some? && presented.value.tenant.value != ""
  }

  /** A signed token with a `jti` and a tenant is one the service issued. */
  predicate Genuine(db: Db, presented: Option<Claims>) {
    Acceptable(presented) ==>
      var c := presented.value;
      c.jti.value in db.tokens && Belongs(db.tokens[c.jti.value], c.sub, c.tenant.value)
  }

  predicate Belongs(t: Token, user: string, tenant: string) {
    t.user == user && t.tenant == tenant
  }

  predicate At(db: Db, r: int, kind: Kind, phase: Phase) {
    r in db.requests && db.requests[r].kind == kind && db.requests[r].phase == phase
  }

  predicate Pending(db: Db, r: int) {
    r in db.requests && db.requests[r].phase.Inserted?
  }

  /** Another open transaction has inserted this `jti`: the insert waits for it to end. */
  ghost predicate HeldByOther(db: Db, r: int, jti: string) {
    exists u :: u != r && Pending(db, u) && db.requests[u].jti == jti
  }

  /** Random identifiers do not repeat. */
  ghost predicate Fresh(db: Db, jti: string) {
    && jti != "" && jti !in db.tokens
    && forall u :: Pending(db, u) ==> db.requests[u].phase.child != jti
  }

  predicate ReadyToInsert(db: Db, r: int) {
    At(db, r, Refresh, IsMember) || At(db, r, Logout, NotListed)
  }

  ghost predicate Enabled(db: Db, step: Step) {
    match step
    case Login(user, tenant, jti) => Fresh(db, jti) && user !in db.gone && tenant !in db.gone
    case SetActive(user, on) => on ==> user !in db.gone
    case SetMember(user, tenant, on) => on ==> user !in db.gone && tenant !in db.gone
    case Delete(id) => forall r :: Pending(db, r) ==> db.requests[r].user != id && db.requests[r].tenant != id
    case Begin(r, _, presented) => r !in db.requests && Genuine(db, presented)
    case CheckDenylist(r, seen) => r in db.requests && db.requests[r].phase.Begun? && seen <= |db.revoked|
    case CheckUser(r) => At(db, r, Refresh, NotListed)
    case CheckMember(r) => At(db, r, Refresh, UserActive)
    case Insert(r, child) => ReadyToInsert(db, r) && !HeldByOther(db, r, db.requests[r].jti) && Fresh(db, child)
    case Commit(r) => Pending(db, r)
    case Abort(r) => r in db.requests
  }

  function Answer(db: Db, r: int, reply: Reply): Db {
    db.(requests := db.requests - {r}, replies := db.replies + [reply])
  }

  function Advance(db: Db, r: int, phase: Phase): Db
    requires r in db.requests
  {
    db.(requests := db.requests[r := db.requests[r].(phase := phase)])
  }

  function Child(db: Db, q: Request): Token
    requires q.jti in db.tokens
  {
    Token(q.user, q.tenant, db.tokens[q.jti].family, Some(q.jti))
  }

  /** A logout commits its denylist row. */
  function Revoke(db: Db, r: int): Db
    requires r in db.requests
  {
    var q := db.requests[r];
    Answer(db.(revoked := db.revoked + [q.jti]), r, LoggedOut(q.jti))
  }

  /** A refresh commits its denylist row, and its client gets the new token. */
  function Exchange(db: Db, r: int): Db
    requires Pending(db, r) && db.requests[r].jti in db.tokens
  {
    var q := db.requests[r];
    Answer(db.(revoked := db.revoked + [q.jti], tokens := db.tokens[q.phase.child := Child(db, q)]),
           r, Exchanged(q.jti, q.phase.child))
  }

  /** A replayed refresh is refused; a replayed logout has already got what it asked for. */
  function OnListed(q: Request): Reply {
    if q.kind == Logout then LoggedOut(q.jti) else InvalidToken
  }

  /** The user or the tenant of the token is deleted: it has no denylist row, and none can be inserted. */
  predicate IsGone(db: Db, user: string, tenant: string) {
    user in db.gone || tenant in db.gone
  }

  /** The read, or the insert, finds the token on the denylist. */
  predicate Listed(db: Db, q: Request, revoked: seq<string>) {
    q.jti in revoked && !IsGone(db, q.user, q.tenant)
  }

  ghost predicate Proper(db: Db) {
    forall r :: r in db.requests ==> db.requests[r].jti in db.tokens
  }

  /**
   A read of the denylist sees a prefix of the commits: all of them under READ COMMITTED, those before its
   snapshot under stricter isolation. An insert fails on the unique index, or on the foreign key if the user or
   the tenant is deleted; a deletion waits for the inserts that refer to what it deletes. The new token reaches
   the client when the transaction commits.
   */
  ghost function Apply(db: Db, step: Step): Db
    requires Enabled(db, step) && Proper(db)
  {
    match step
    case Login(user, tenant, jti) => db.(tokens := db.tokens[jti := Token(user, tenant, jti, None)])
    case SetActive(user, on) => db.(active := if on then db.active + {user} else db.active - {user})
    case SetMember(user, tenant, on) =>
      db.(members := if on then db.members + {(user, tenant)} else db.members - {(user, tenant)})
    case Delete(id) =>
      db.(gone := db.gone + {id}, active := db.active - {id},
          members := set m | m in db.members && m.0 != id && m.1 != id)
    case Begin(r, kind, presented) =>
      if !Acceptable(presented) then Answer(db, r, InvalidToken)
      else
        var c := presented.value;
        db.(requests := db.requests[r := Request(kind, c.jti.value, c.sub, c.tenant.value, Begun)])
    case CheckDenylist(r, seen) =>
      var q := db.requests[r];
      if Listed(db, q, db.revoked[..seen]) then Answer(db, r, OnListed(q)) else Advance(db, r, NotListed)
    case CheckUser(r) =>
      if db.requests[r].user in db.active then Advance(db, r, UserActive) else Answer(db, r, UserInactive)
    case CheckMember(r) =>
      var q := db.requests[r];
      if (q.user, q.tenant) in db.members then Advance(db, r, IsMember) else Answer(db, r, NoMembership)
    case Insert(r, child) =>
      var q := db.requests[r];
      if q.jti in db.revoked || IsGone(db, q.user, q.tenant) then Answer(db, r, OnListed(q))
      else Advance(db, r, Inserted(child))
    case Commit(r) => if db.requests[r].kind == Logout then Revoke(db, r) else Exchange(db, r)
    case Abort(r) => db.(requests := db.requests - {r})
  }

  /* ---------- The invariant ---------- */

  ghost predicate Honest(db: Db, q: Request) {
    q.jti in db.tokens && Belongs(db.tokens[q.jti], q.user, q.tenant)
  }

  ghost predicate RequestsHonest(db: Db) {
    forall r :: r in db.requests ==> Honest(db, db.requests[r])
  }

  /** Pending inserts are of tokens nobody else has revoked or is revoking, and bear unused identifiers. */
  ghost predicate PendingApart(db: Db) {
    && (forall r :: Pending(db, r) ==>
          && db.requests[r].jti !in db.revoked && !IsGone(db, db.requests[r].user, db.requests[r].tenant)
          && db.requests[r].phase.child !in db.tokens && db.requests[r].phase.child != "")
    && (forall r, u :: Pending(db, r) && Pending(db, u) && r != u ==>
          && db.requests[r].jti != db.requests[u].jti
          && db.requests[r].phase.child != db.requests[u].phase.child)
  }

  ghost predicate RevokedOnce(db: Db) {
    && (forall i, j :: 0 <= i < j < |db.revoked| ==> db.revoked[i] != db.revoked[j])
    && (forall j :: j in db.revoked ==> j in db.tokens)
  }

  /** A token belongs to the user and tenant of its family's login, and its parent was revoked for it. */
  ghost predicate GoodToken(db: Db, j: string) {
    j in db.tokens &&
    var t := db.tokens[j];
    && t.family in db.tokens && Belongs(db.tokens[t.family], t.user, t.tenant)
    && (t.parent.None? <==> t.family == j)
    && (t.parent.Some? ==>
          && t.parent.value in db.revoked && Exchanged(t.parent.value, j) in db.replies
          && SameFamily(db, t.parent.value, j))
  }

  ghost predicate Lineage(db: Db) {
    forall j {:trigger GoodToken(db, j)} :: j in db.tokens ==> GoodToken(db, j)
  }

  ghost predicate SameFamily(db: Db, j: string, k: string) {
    j in db.tokens && k in db.tokens && db.tokens[j].family == db.tokens[k].family
  }

  ghost predicate Live(db: Db, j: string) {
    j in db.tokens && j !in db.revoked
  }

  ghost predicate OneLivePerFamily(db: Db) {
    forall j, k :: Live(db, j) && Live(db, k) && SameFamily(db, j, k) ==> j == k
  }

  ghost predicate GoodReply(db: Db, a: Reply) {
    match a
    case Exchanged(used, child) => used in db.revoked && child in db.tokens && db.tokens[child].parent == Some(used)
    case LoggedOut(jti) => jti in db.revoked || IsGoneToken(db, jti)
    case _ => true
  }

  ghost predicate IsGoneToken(db: Db, jti: string) {
    jti in db.tokens && IsGone(db, db.tokens[jti].user, db.tokens[jti].tenant)
  }

  ghost predicate SameExchange(a: Reply, b: Reply) {
    a.Exchanged? && b.Exchanged? && a.used == b.used
  }

  ghost predicate RepliesSound(db: Db) {
    && (forall a :: a in db.replies ==> GoodReply(db, a))
    && (forall i, j :: 0 <= i < j < |db.replies| ==> !SameExchange(db.replies[i], db.replies[j]))
  }

  ghost predicate Inv(db: Db) {
    && RequestsHonest(db) && PendingApart(db) && RevokedOnce(db)
    && Lineage(db) && OneLivePerFamily(db) && RepliesSound(db)
  }

  ghost predicate Extends(db: Db, next: Db) {
    && db.revoked <= next.revoked && db.replies <= next.replies && db.gone <= next.gone
    && forall j :: j in db.tokens ==> j in next.tokens && next.tokens[j] == db.tokens[j]
  }

  /* ---------- Every step keeps it ---------- */

  /** No token is issued or revoked, and the answer, if any, promises nothing new. */
  ghost predicate Quiet(db: Db, next: Db) {
    && next.tokens == db.tokens && next.revoked == db.revoked && db.gone <= next.gone
    && (next.replies == db.replies
        || exists a :: next.replies == db.replies + [a] && !a.Exchanged? && GoodReply(db, a))
  }

  predicate IsQuiet(step: Step) {
    !step.Login? && !step.Commit?
  }

  lemma QuietSteps(db: Db, step: Step)
    requires Enabled(db, step) && RequestsHonest(db) && IsQuiet(step)
    ensures Proper(db) && Quiet(db, Apply(db, step))
  {
    assert forall r :: r in db.requests ==> Honest(db, db.requests[r]);
    var next := Apply(db, step);
    if |next.replies| > |db.replies| {
      var a := next.replies[|db.replies|];
      assert next.replies == db.replies + [a] && GoodReply(db, a);
    }
  }

  ghost predicate InvTokens(db: Db) {
    RevokedOnce(db) && Lineage(db) && OneLivePerFamily(db) && RepliesSound(db)
  }

  lemma ReplyStaysGood(db: Db, next: Db, a: Reply)
    requires Extends(db, next) && GoodReply(db, a)
    ensures GoodReply(next, a)
  {}

  lemma TokenStaysGood(db: Db, next: Db, j: string)
    requires Extends(db, next) && j in db.tokens && GoodToken(db, j)
    ensures GoodToken(next, j)
  {}

  /** One more reply: sound if it is good and repeats no exchange. */
  lemma OneMoreReply(db: Db, next: Db, a: Reply)
    requires RepliesSound(db) && Extends(db, next) && next.replies == db.replies + [a] && GoodReply(next, a)
    requires a.Exchanged? ==> a.used !in db.revoked
    ensures RepliesSound(next)
  {
    forall b | b in next.replies
      ensures GoodReply(next, b)
    {
      if b in db.replies {
        ReplyStaysGood(db, next, b);
      }
    }
    forall i, j | 0 <= i < j < |next.replies|
      ensures !SameExchange(next.replies[i], next.replies[j])
    {
      assert next.replies[i] in db.replies && GoodReply(db, next.replies[i]);
      if j < |db.replies| {
        assert !SameExchange(db.replies[i], db.replies[j]);
      }
    }
  }

  lemma QuietKeeps(db: Db, next: Db)
    requires InvTokens(db) && Quiet(db, next)
    ensures InvTokens(next) && Extends(db, next)
  {
    forall j | j in next.tokens
      ensures GoodToken(next, j)
    {
      TokenStaysGood(db, next, j);
    }
    forall j, k | Live(next, j) && Live(next, k) && SameFamily(next, j, k)
      ensures j == k
    {
      assert Live(db, j) && Live(db, k) && SameFamily(db, j, k);
    }
    if next.replies != db.replies {
      var a :| next.replies == db.replies + [a] && !a.Exchanged? && GoodReply(db, a);
      OneMoreReply(db, next, a);
    } else {
      assert forall a :: GoodReply(db, a) ==> GoodReply(next, a);
    }
  }

  lemma OneMoreToken(db: Db, next: Db, child: string)
    requires Lineage(db) && Extends(db, next) && GoodToken(next, child)
    requires forall j :: j in next.tokens ==> j in db.tokens || j == child
    ensures Lineage(next)
  {
    forall j | j in next.tokens
      ensures GoodToken(next, j)
    {
      if j in db.tokens {
        assert GoodToken(db, j);
        TokenStaysGood(db, next, j);
      }
    }
  }

  lemma LoginKeepsOneLive(db: Db, next: Db, user: string, tenant: string, jti: string)
    requires Lineage(db) && OneLivePerFamily(db) && jti !in db.tokens
    requires next == db.(tokens := db.tokens[jti := Token(user, tenant, jti, None)])
    ensures OneLivePerFamily(next)
  {
    forall j, k | Live(next, j) && Live(next, k) && SameFamily(next, j, k)
      ensures j == k
    {
      assert j != jti ==> Live(db, j) && GoodToken(db, j);
      assert k != jti ==> Live(db, k) && GoodToken(db, k);
      assert j != jti && k != jti ==> SameFamily(db, j, k);
    }
  }

  lemma LoginKeeps(db: Db, next: Db, user: string, tenant: string, jti: string)
    requires InvTokens(db) && jti !in db.tokens
    requires next == db.(tokens := db.tokens[jti := Token(user, tenant, jti, None)])
    ensures InvTokens(next) && Extends(db, next)
  {
    OneMoreToken(db, next, jti);
    LoginKeepsOneLive(db, next, user, tenant, jti);
    forall a | a in next.replies
      ensures GoodReply(next, a)
    {
      ReplyStaysGood(db, next, a);
    }
  }

  lemma RevokeKeeps(db: Db, r: int)
    requires InvTokens(db) && Pending(db, r) && Honest(db, db.requests[r]) && db.requests[r].jti !in db.revoked
    ensures InvTokens(Revoke(db, r)) && Extends(db, Revoke(db, r))
  {
    var next, jti := Revoke(db, r), db.requests[r].jti;
    assert next.revoked[|db.revoked|] == jti;
    forall j | j in next.tokens
      ensures GoodToken(next, j)
    {
      TokenStaysGood(db, next, j);
    }
    forall j, k | Live(next, j) && Live(next, k) && SameFamily(next, j, k)
      ensures j == k
    {
      assert Live(db, j) && Live(db, k) && SameFamily(db, j, k);
    }
    OneMoreReply(db, next, LoggedOut(jti));
  }

  /** After an exchange the new token is the only live one of its family. */
  lemma ExchangeKeepsOneLive(db: Db, r: int)
    requires OneLivePerFamily(db) && Pending(db, r) && Honest(db, db.requests[r])
    requires db.requests[r].jti !in db.revoked && db.requests[r].phase.child !in db.tokens
    ensures OneLivePerFamily(Exchange(db, r))
  {
    var next, jti, child := Exchange(db, r), db.requests[r].jti, db.requests[r].phase.child;
    assert next.revoked[|db.revoked|] == jti;
    assert Live(db, jti);
    forall j, k | Live(next, j) && Live(next, k) && SameFamily(next, j, k)
      ensures j == k
    {
      assert j != child ==> Live(db, j);
      assert k != child ==> Live(db, k);
      assert j != child && k != child ==> SameFamily(db, j, k);
      assert j != child && k == child ==> SameFamily(db, j, jti);
      assert j == child && k != child ==> SameFamily(db, k, jti);
    }
  }

  lemma ExchangeKeeps(db: Db, r: int)
    requires InvTokens(db) && Pending(db, r) && Honest(db, db.requests[r])
    requires db.requests[r].jti !in db.revoked && db.requests[r].phase.child !in db.tokens
    ensures InvTokens(Exchange(db, r)) && Extends(db, Exchange(db, r))
  {
    var next, jti, child := Exchange(db, r), db.requests[r].jti, db.requests[r].phase.child;
    assert next.revoked[|db.revoked|] == jti;
    assert next.replies[|db.replies|] == Exchanged(jti, child);
    ExchangeKeepsOneLive(db, r);
    assert GoodToken(db, jti);
    OneMoreToken(db, next, child);
    OneMoreReply(db, next, Exchanged(jti, child));
  }

  lemma StepKeepsTokens(db: Db, step: Step)
    requires Inv(db) && Enabled(db, step)
    ensures Proper(db) && InvTokens(Apply(db, step)) && Extends(db, Apply(db, step))
  {
    assert Proper(db);
    match step
    case Login(user, tenant, jti) => LoginKeeps(db, Apply(db, step), user, tenant, jti);
    case Commit(r) =>
      assert Honest(db, db.requests[r]);
      if db.requests[r].kind == Logout {
        RevokeKeeps(db, r);
      } else {
        ExchangeKeeps(db, r);
      }
    case _ =>
      QuietSteps(db, step);
      QuietKeeps(db, Apply(db, step));
  }

  lemma RequestsStayHonest(db: Db, step: Step)
    requires RequestsHonest(db) && Enabled(db, step) && Proper(db) && Extends(db, Apply(db, step))
    ensures RequestsHonest(Apply(db, step))
  {
    var next := Apply(db, step);
    forall r | r in next.requests
      ensures Honest(next, next.requests[r])
    {
      if r in db.requests {
        assert Honest(db, db.requests[r]);
      }
    }
  }

  /** A pending insert was pending before, or is the one just made. */
  lemma PendingBefore(db: Db, step: Step, r: int)
    requires Enabled(db, step) && Proper(db) && Pending(Apply(db, step), r)
    ensures var next := Apply(db, step);
            if step.Insert? && step.r == r
            then next.requests[r].phase.child == step.child && r in db.requests
                 && next.requests[r] == db.requests[r].(phase := Inserted(step.child))
                 && db.requests[r].jti !in db.revoked && !IsGone(next, db.requests[r].user, db.requests[r].tenant)
            else Pending(db, r) && next.requests[r] == db.requests[r] && (step.Commit? ==> step.r != r)
                 && (!IsGone(db, db.requests[r].user, db.requests[r].tenant)
                     ==> !IsGone(next, db.requests[r].user, db.requests[r].tenant))
  {}

  lemma PendingStayApart(db: Db, step: Step)
    requires PendingApart(db) && Enabled(db, step) && Proper(db)
    ensures PendingApart(Apply(db, step))
  {
    var next := Apply(db, step);
    forall r | Pending(next, r)
      ensures next.requests[r].jti !in next.revoked && !IsGone(next, next.requests[r].user, next.requests[r].tenant)
      ensures next.requests[r].phase.child !in next.tokens && next.requests[r].phase.child != ""
    {
      PendingBefore(db, step, r);
    }
    forall r, u | Pending(next, r) && Pending(next, u) && r != u
      ensures next.requests[r].jti != next.requests[u].jti
      ensures next.requests[r].phase.child != next.requests[u].phase.child
    {
      PendingBefore(db, step, r);
      PendingBefore(db, step, u);
    }
  }

  lemma StepKeepsInv(db: Db, step: Step)
    requires Inv(db) && Enabled(db, step)
    ensures Proper(db) && Inv(Apply(db, step)) && Extends(db, Apply(db, step))
  {
    StepKeepsTokens(db, step);
    RequestsStayHonest(db, step);
    PendingStayApart(db, step);
  }

  /* ---------- Runs ---------- */

  ghost predicate Next(db: Db, step: Step, next: Db) {
    Enabled(db, step) && Proper(db) && next == Apply(db, step)
  }

  ghost predicate StepAt(dbs: seq<Db>, steps: seq<Step>, i: nat) {
    i < |steps| && i + 1 < |dbs| && Next(dbs[i], steps[i], dbs[i + 1])
  }

  ghost predicate Behaviour(dbs: seq<Db>, steps: seq<Step>) {
    && |dbs| == |steps| + 1 && dbs[0] == EMPTY
    && forall i :: 0 <= i < |steps| ==> StepAt(dbs, steps, i)
  }

  lemma {:induction false} EveryStateIsSound(dbs: seq<Db>, steps: seq<Step>, i: nat)
    requires Behaviour(dbs, steps) && i < |dbs|
    ensures Inv(dbs[i])
  {
    if i > 0 {
      EveryStateIsSound(dbs, steps, i - 1);
      assert StepAt(dbs, steps, i - 1);
      StepKeepsInv(dbs[i - 1], steps[i - 1]);
    }
  }

  lemma {:induction false} HistoryGrows(dbs: seq<Db>, steps: seq<Step>, i: nat, j: nat)
    requires Behaviour(dbs, steps) && i <= j < |dbs|
    ensures Extends(dbs[i], dbs[j])
    decreases j
  {
    if i < j {
      HistoryGrows(dbs, steps, i, j - 1);
      EveryStateIsSound(dbs, steps, j - 1);
      assert StepAt(dbs, steps, j - 1);
      StepKeepsInv(dbs[j - 1], steps[j - 1]);
    }
  }

  /** An exchange in a step's answer is of a token that was not revoked, of a user and a tenant that are there. */
  lemma NewExchange(db: Db, step: Step, n: nat)
    requires PendingApart(db) && RequestsHonest(db) && Enabled(db, step) && Proper(db)
    requires |db.replies| <= n < |Apply(db, step).replies| && Apply(db, step).replies[n].Exchanged?
    ensures Apply(db, step).replies[n].used !in db.revoked && !IsGoneToken(db, Apply(db, step).replies[n].used)
  {
    assert step.Commit? && Pending(db, step.r) && Honest(db, db.requests[step.r]);
  }

  /** A new token that is not of a login is of the user and tenant of a refresh that was pending. */
  lemma NewToken(db: Db, step: Step, k: string)
    requires Enabled(db, step) && Proper(db)
    requires k in Apply(db, step).tokens && k !in db.tokens && Apply(db, step).tokens[k].parent.Some?
    ensures step.Commit? && Pending(db, step.r) && db.requests[step.r].kind == Refresh
    ensures Belongs(Apply(db, step).tokens[k], db.requests[step.r].user, db.requests[step.r].tenant)
  {}

  /** Whatever is interleaved, a refresh token is exchanged at most once. */
  lemma ExchangedAtMostOnce(dbs: seq<Db>, steps: seq<Step>, i: nat, m: nat, n: nat)
    requires Behaviour(dbs, steps) && i < |dbs| && m < n < |dbs[i].replies|
    requires dbs[i].replies[m].Exchanged? && dbs[i].replies[n].Exchanged?
    ensures dbs[i].replies[m].used != dbs[i].replies[n].used
  {
    EveryStateIsSound(dbs, steps, i);
    assert !SameExchange(dbs[i].replies[m], dbs[i].replies[n]);
  }

  /** Once its revocation has committed, a token is never exchanged, by requests in flight at the time included. */
  lemma RevokedIsNeverExchanged(dbs: seq<Db>, steps: seq<Step>, i: nat, j: nat, jti: string, n: nat)
    requires Behaviour(dbs, steps) && i <= j < |dbs| && jti in dbs[i].revoked
    requires |dbs[i].replies| <= n < |dbs[j].replies| && dbs[j].replies[n].Exchanged?
    ensures dbs[j].replies[n].used != jti
    decreases j
  {
    if i < j {
      EveryStateIsSound(dbs, steps, j - 1);
      HistoryGrows(dbs, steps, i, j - 1);
      var before, step := dbs[j - 1], steps[j - 1];
      assert StepAt(dbs, steps, j - 1);
      StepKeepsInv(before, step);
      if n < |before.replies| {
        RevokedIsNeverExchanged(dbs, steps, i, j - 1, jti, n);
      } else {
        NewExchange(before, step, n);
      }
    }
  }

  /** At any moment a login's family has at most one refresh token that is not revoked. */
  lemma FamilyHasOneLiveToken(dbs: seq<Db>, steps: seq<Step>, i: nat, j: string, k: string)
    requires Behaviour(dbs, steps) && i < |dbs| && Live(dbs[i], j) && Live(dbs[i], k) && SameFamily(dbs[i], j, k)
    ensures j == k
  {
    EveryStateIsSound(dbs, steps, i);
  }

  /** A token that was not issued at login replaced a revoked one, and keeps its login's user and tenant. */
  lemma TokensKeepUserAndTenant(dbs: seq<Db>, steps: seq<Step>, i: nat, j: string)
    requires Behaviour(dbs, steps) && i < |dbs| && j in dbs[i].tokens
    ensures var db, t := dbs[i], dbs[i].tokens[j];
            && t.family in db.tokens && Belongs(db.tokens[t.family], t.user, t.tenant)
            && (t.parent.None? <==> t.family == j)
            && (t.parent.Some? ==> t.parent.value in db.revoked && Exchanged(t.parent.value, j) in db.replies)
  {
    EveryStateIsSound(dbs, steps, i);
    assert GoodToken(dbs[i], j);
  }

  /**
   A logout that was answered with success has put the token on the denylist for good, unless its user or tenant
   is deleted.
   */
  lemma LogoutIsListed(dbs: seq<Db>, steps: seq<Step>, i: nat, j: nat, jti: string)
    requires Behaviour(dbs, steps) && i <= j < |dbs| && LoggedOut(jti) in dbs[i].replies
    ensures jti in dbs[j].revoked || IsGoneToken(dbs[j], jti)
  {
    EveryStateIsSound(dbs, steps, i);
    HistoryGrows(dbs, steps, i, j);
    assert GoodReply(dbs[i], LoggedOut(jti));
  }

  /** In either case the token is never exchanged again. */
  lemma LogoutIsEffective(dbs: seq<Db>, steps: seq<Step>, i: nat, j: nat, jti: string, n: nat)
    requires Behaviour(dbs, steps) && i <= j < |dbs| && LoggedOut(jti) in dbs[i].replies
    requires |dbs[i].replies| <= n < |dbs[j].replies| && dbs[j].replies[n].Exchanged?
    ensures dbs[j].replies[n].used != jti
    decreases j
  {
    if i < j {
      var before, step := dbs[j - 1], steps[j - 1];
      EveryStateIsSound(dbs, steps, j - 1);
      HistoryGrows(dbs, steps, i, j - 1);
      assert StepAt(dbs, steps, j - 1);
      StepKeepsInv(before, step);
      if n < |before.replies| {
        LogoutIsEffective(dbs, steps, i, j - 1, jti, n);
      } else {
        NewExchange(before, step, n);
        LogoutIsListed(dbs, steps, i, j - 1, jti);
      }
    }
  }

  /**
   A token is put out of use by the commit of a request that presented that very token, and by nothing else:
   a replayed token is refused, and the live token of its family stays.
   */
  lemma OnlyItsOwnRequestRevokes(dbs: seq<Db>, steps: seq<Step>, i: nat, j: string)
    requires Behaviour(dbs, steps) && i < |steps| && Live(dbs[i], j) && !Live(dbs[i + 1], j)
    ensures steps[i].Commit? && Pending(dbs[i], steps[i].r) && dbs[i].requests[steps[i].r].jti == j
    ensures steps[i].r !in dbs[i + 1].requests
    ensures forall k :: Live(dbs[i], k) && k != j ==> Live(dbs[i + 1], k)
  {
    EveryStateIsSound(dbs, steps, i);
    assert StepAt(dbs, steps, i);
    StepKeepsInv(dbs[i], steps[i]);
    if !steps[i].Commit? && !steps[i].Login? {
      QuietSteps(dbs[i], steps[i]);
    }
  }

  /* ---------- Users who are shut out ---------- */

  datatype Bar = Disabled | NotAMember

  predicate PastCheck(q: Request, bar: Bar) {
    q.kind == Refresh && (q.phase.IsMember? || q.phase.Inserted? || (bar == Disabled && q.phase.UserActive?))
  }

  /** The user is disabled, or no member of the tenant, and no request has slipped past that check. */
  ghost predicate Barred(db: Db, user: string, tenant: string, bar: Bar) {
    && (bar == Disabled ==> user !in db.active)
    && (bar == NotAMember ==> (user, tenant) !in db.members)
    && forall r :: r in db.requests && PastCheck(db.requests[r], bar) ==>
                     db.requests[r].user != user || db.requests[r].tenant != tenant
  }

  predicate Reinstates(step: Step, user: string, tenant: string, bar: Bar) {
    match bar
    case Disabled => step == SetActive(user, true)
    case NotAMember => step == SetMember(user, tenant, true)
  }

  lemma StepKeepsBarred(db: Db, step: Step, user: string, tenant: string, bar: Bar)
    requires Enabled(db, step) && Proper(db) && Barred(db, user, tenant, bar) && !Reinstates(step, user, tenant, bar)
    ensures Barred(Apply(db, step), user, tenant, bar)
  {
    var next := Apply(db, step);
    forall r | r in next.requests && PastCheck(next.requests[r], bar)
      ensures next.requests[r].user != user || next.requests[r].tenant != tenant
    {
      if r in db.requests && next.requests[r] != db.requests[r] && !PastCheck(db.requests[r], bar) {
        assert step == CheckUser(r) || step == CheckMember(r);
      }
    }
  }

  /** The tokens issued by exchanges from state `i` to state `j` are of other users or tenants. */
  lemma {:induction false} BarredGetsNoToken(dbs: seq<Db>, steps: seq<Step>, i: nat, j: nat, user: string,
                                             tenant: string,
                                             bar: Bar, k: string)
    requires Behaviour(dbs, steps) && i <= j < |dbs| && Barred(dbs[i], user, tenant, bar)
    requires forall n :: i <= n < j ==> !Reinstates(steps[n], user, tenant, bar)
    requires k in dbs[j].tokens && k !in dbs[i].tokens && dbs[j].tokens[k].parent.Some?
    ensures !Belongs(dbs[j].tokens[k], user, tenant)
    decreases j
  {
    var before, step := dbs[j - 1], steps[j - 1];
    assert StepAt(dbs, steps, j - 1);
    EveryStateIsSound(dbs, steps, j - 1);
    StepKeepsInv(before, step);
    if k in before.tokens {
      BarredGetsNoToken(dbs, steps, i, j - 1, user, tenant, bar, k);
    } else {
      StaysBarred(dbs, steps, i, j - 1, user, tenant, bar);
      NewToken(before, step, k);
      assert PastCheck(before.requests[step.r], bar);
    }
  }

  lemma {:induction false} StaysBarred(dbs: seq<Db>, steps: seq<Step>, i: nat, j: nat, user: string, tenant: string,
                                       bar: Bar)
    requires Behaviour(dbs, steps) && i <= j < |dbs| && Barred(dbs[i], user, tenant, bar)
    requires forall n :: i <= n < j ==> !Reinstates(steps[n], user, tenant, bar)
    ensures Barred(dbs[j], user, tenant, bar)
    decreases j
  {
    if i < j {
      StaysBarred(dbs, steps, i, j - 1, user, tenant, bar);
      assert StepAt(dbs, steps, j - 1);
      StepKeepsBarred(dbs[j - 1], steps[j - 1], user, tenant, bar);
    }
  }

  /* ---------- Requests that run alone ---------- */

  /** What `refresh` does when nothing happens in between. */
  function RefreshAlone(db: Db, presented: Option<Claims>, child: string): (r: (Db, Reply))
    requires Genuine(db, presented)
  {
    if !Acceptable(presented) then (Replied(db, InvalidToken), InvalidToken)
    else
      var c := presented.value;
      var jti, tenant := c.jti.value, c.tenant.value;
      if jti in db.revoked && !IsGone(db, c.sub, tenant) then (Replied(db, InvalidToken), InvalidToken)
      else if c.sub !in db.active then (Replied(db, UserInactive), UserInactive)
      else if (c.sub, tenant) !in db.members then (Replied(db, NoMembership), NoMembership)
      else if IsGone(db, c.sub, tenant) then (Replied(db, InvalidToken), InvalidToken)
      else
        var issued := Token(c.sub, tenant, db.tokens[jti].family, Some(jti));
        (Replied(db.(revoked := db.revoked + [jti], tokens := db.tokens[child := issued]), Exchanged(jti, child)),
         Exchanged(jti, child))
  }

  /** What `revoke_refresh_token` does when nothing happens in between. */
  function LogoutAlone(db: Db, presented: Option<Claims>): (r: (Db, Reply)) {
    if !Acceptable(presented) then (Replied(db, InvalidToken), InvalidToken)
    else
      var jti := presented.value.jti.value;
      var gone := IsGone(db, presented.value.sub, presented.value.tenant.value);
      var after := if jti in db.revoked || gone then db else db.(revoked := db.revoked + [jti]);
      (Replied(after, LoggedOut(jti)), LoggedOut(jti))
  }

  function Replied(db: Db, a: Reply): Db {
    db.(replies := db.replies + [a])
  }

  /** The steps lead from one state to the other. */
  ghost predicate Leads(db: Db, steps: seq<Step>, last: Db)
    decreases |steps|
  {
    if steps == [] then last == db
    else Enabled(db, steps[0]) && Proper(db) && Leads(Apply(db, steps[0]), steps[1..], last)
  }

  lemma LeadsOn(db: Db, step: Step, rest: seq<Step>, last: Db)
    requires Enabled(db, step) && Proper(db) && Leads(Apply(db, step), rest, last)
    requires NoAborts(rest) && !step.Abort?
    ensures Leads(db, [step] + rest, last) && NoAborts([step] + rest)
  {
    assert ([step] + rest)[1..] == rest;
  }

  /** What is left to a request that has passed its checks: the insert, and the commit if that succeeds. */
  lemma InsertRun(db: Db, r: int, child: string) returns (steps: seq<Step>)
    requires Proper(db) && ReadyToInsert(db, r) && Fresh(db, child) && db.requests.Keys == {r}
    ensures var d := Apply(db, Insert(r, child));
            NoAborts(steps) && Leads(db, steps, if r in d.requests then Apply(d, Commit(r)) else d)
  {
    var d := Apply(db, Insert(r, child));
    if r in d.requests {
      LeadsOn(d, Commit(r), [], Apply(d, Commit(r)));
      LeadsOn(db, Insert(r, child), [Commit(r)], Apply(d, Commit(r)));
      steps := [Insert(r, child)] + [Commit(r)];
    } else {
      LeadsOn(db, Insert(r, child), [], d);
      steps := [Insert(r, child)] + [];
    }
  }

  ghost predicate NoAborts(steps: seq<Step>) {
    forall i :: 0 <= i < |steps| ==> !steps[i].Abort?
  }

  /** The steps are those of one request that begins, is not aborted, and ends with the answer. */
  ghost predicate Finishes(db: Db, steps: seq<Step>, last: Db, r: int, kind: Kind, presented: Option<Claims>,
                           answer: Reply) {
    && Leads(db, steps, last) && steps != [] && steps[0] == Begin(r, kind, presented)
    && NoAborts(steps)
    && r !in last.requests && last.replies == db.replies + [answer]
  }

  /** The lone request under way. */
  function Underway(db: Db, r: int, kind: Kind, c: Claims, phase: Phase): Db
    requires Acceptable(Some(c))
  {
    db.(requests := map[r := Request(kind, c.jti.value, c.sub, c.tenant.value, phase)])
  }

  lemma UnderwayIs(db: Db, r: int, kind: Kind, c: Claims, phase: Phase, next: Phase, answer: Reply, child: string)
    requires db.requests == map[] && Acceptable(Some(c)) && Genuine(db, Some(c)) && Fresh(db, child)
    ensures Proper(Underway(db, r, kind, c, phase))
    ensures !phase.Inserted? ==> Fresh(Underway(db, r, kind, c, phase), child)
    ensures Advance(Underway(db, r, kind, c, phase), r, next) == Underway(db, r, kind, c, next)
    ensures Answer(Underway(db, r, kind, c, phase), r, answer) == Replied(db, answer)
  {
    assert map[r := Underway(db, r, kind, c, phase).requests[r]] - {r} == map[];
  }

  /** The request from the check of the membership on. */
  lemma MemberRun(db: Db, r: int, c: Claims, child: string) returns (steps: seq<Step>)
    requires db.requests == map[] && Acceptable(Some(c)) && Genuine(db, Some(c)) && Fresh(db, child)
    requires !(c.jti.value in db.revoked && !IsGone(db, c.sub, c.tenant.value)) && c.sub in db.active
    ensures NoAborts(steps)
    ensures Leads(Underway(db, r, Refresh, c, UserActive), steps, RefreshAlone(db, Some(c), child).0)
  {
    var last := RefreshAlone(db, Some(c), child).0;
    var d3, d4 := Underway(db, r, Refresh, c, UserActive), Underway(db, r, Refresh, c, IsMember);
    UnderwayIs(db, r, Refresh, c, UserActive, IsMember, NoMembership, child);
    if (c.sub, c.tenant.value) in db.members {
      UnderwayIs(db, r, Refresh, c, IsMember, Inserted(child), InvalidToken, child);
      steps := InsertRun(d4, r, child);
    } else {
      steps := [];
    }
    LeadsOn(d3, CheckMember(r), steps, last);
    steps := [CheckMember(r)] + steps;
  }

  /** The request from the denylist on. */
  lemma CheckedRun(db: Db, r: int, c: Claims, child: string) returns (steps: seq<Step>)
    requires db.requests == map[] && Acceptable(Some(c)) && Genuine(db, Some(c)) && Fresh(db, child)
    ensures NoAborts(steps)
    ensures Leads(Underway(db, r, Refresh, c, Begun), steps, RefreshAlone(db, Some(c), child).0)
  {
    var last := RefreshAlone(db, Some(c), child).0;
    var d1, d2 := Underway(db, r, Refresh, c, Begun), Underway(db, r, Refresh, c, NotListed);
    UnderwayIs(db, r, Refresh, c, Begun, NotListed, InvalidToken, child);
    UnderwayIs(db, r, Refresh, c, NotListed, UserActive, UserInactive, child);
    assert db.revoked[..|db.revoked|] == db.revoked;
    steps := [];
    if !(c.jti.value in db.revoked && !IsGone(db, c.sub, c.tenant.value)) {
      if c.sub in db.active {
        steps := MemberRun(db, r, c, child);
      }
      LeadsOn(d2, CheckUser(r), steps, last);
      steps := [CheckUser(r)] + steps;
    }
    LeadsOn(d1, CheckDenylist(r, |db.revoked|), steps, last);
    steps := [CheckDenylist(r, |db.revoked|)] + steps;
  }

  /** The lone request is one of the interleavings: its steps, one after the other, come to the same. */
  lemma RefreshAloneIsARun(db: Db, r: int, presented: Option<Claims>, child: string) returns (steps: seq<Step>)
    requires db.requests == map[] && Genuine(db, presented) && Fresh(db, child)
    ensures var (last, answer) := RefreshAlone(db, presented, child);
            Finishes(db, steps, last, r, Refresh, presented, answer)
  {
    steps := [];
    if Acceptable(presented) {
      steps := CheckedRun(db, r, presented.value, child);
      assert Apply(db, Begin(r, Refresh, presented)) == Underway(db, r, Refresh, presented.value, Begun);
    }
    LeadsOn(db, Begin(r, Refresh, presented), steps, RefreshAlone(db, presented, child).0);
    steps := [Begin(r, Refresh, presented)] + steps;
  }

  lemma LogoutRun(db: Db, r: int, c: Claims, child: string) returns (steps: seq<Step>)
    requires db.requests == map[] && Acceptable(Some(c)) && Genuine(db, Some(c)) && Fresh(db, child)
    ensures NoAborts(steps)
    ensures Leads(Underway(db, r, Logout, c, Begun), steps, LogoutAlone(db, Some(c)).0)
  {
    var last := LogoutAlone(db, Some(c)).0;
    var d1, d2 := Underway(db, r, Logout, c, Begun), Underway(db, r, Logout, c, NotListed);
    UnderwayIs(db, r, Logout, c, Begun, NotListed, LoggedOut(c.jti.value), child);
    UnderwayIs(db, r, Logout, c, NotListed, Inserted(child), LoggedOut(c.jti.value), child);
    assert db.revoked[..|db.revoked|] == db.revoked;
    steps := [];
    if !(c.jti.value in db.revoked && !IsGone(db, c.sub, c.tenant.value)) {
      steps := InsertRun(d2, r, child);
    }
    LeadsOn(d1, CheckDenylist(r, |db.revoked|), steps, last);
    steps := [CheckDenylist(r, |db.revoked|)] + steps;
  }

  lemma LogoutAloneIsARun(db: Db, r: int, presented: Option<Claims>, child: string) returns (steps: seq<Step>)
    requires db.requests == map[] && Genuine(db, presented) && Fresh(db, child)
    ensures var (last, answer) := LogoutAlone(db, presented);
            Finishes(db, steps, last, r, Logout, presented, answer)
  {
    steps := [];
    if Acceptable(presented) {
      steps := LogoutRun(db, r, presented.value, child);
      assert Apply(db, Begin(r, Logout, presented)) == Underway(db, r, Logout, presented.value, Begun);
    }
    LeadsOn(db, Begin(r, Logout, presented), steps, LogoutAlone(db, presented).0);
    steps := [Begin(r, Logout, presented)] + steps;
  }

  /** The token does not decode, or lacks its `jti` or its tenant. */
  predicate NamesNoToken(presented: Option<Claims>) {
    presented.None? || presented.value.jti in {None, Some("")} || presented.value.tenant in {None, Some("")}
  }

  /** The answer to a refresh token that names itself and its tenant, by the first check that fails. */
  function RefreshReply(revoked: seq<string>, active: set<string>, members: set<(string, string)>, jti: string,
                        user: string, tenant: string, child: string): Reply {
    if jti in revoked then InvalidToken
    else if user !in active then UserInactive
    else if (user, tenant) !in members then NoMembership
    else Exchanged(jti, child)
  }

  /** `refresh` and `revoke_refresh_token` over the tables they read and insert into. */
  class AuthService {
    var tokens: map<string, Token>
    var revoked: seq<string>
    var active: set<string>
    var members: set<(string, string)>
    var replies: seq<Reply>

    constructor ()
      ensures Current() == EMPTY
    {
      tokens, revoked, active, members, replies := map[], [], {}, {}, [];
    }

    function Current(): Db
      reads this
    {
      Db(tokens, revoked, active, members, {}, map[], replies)
    }

    method Refresh(presented: Option<Claims>, child: string) returns (reply: Reply)
      requires Genuine(Current(), presented)
      modifies this
      ensures (Current(), reply) == RefreshAlone(old(Current()), presented, child)
      ensures replies == old(replies) + [reply] && active == old(active) && members == old(members)
      ensures NamesNoToken(presented) ==> reply == InvalidToken
      ensures !NamesNoToken(presented) ==>
                var jti, user, tenant := presented.value.jti.value, presented.value.sub, presented.value.tenant.value;
                reply == if jti in old(revoked) then InvalidToken
                         else if user !in active then UserInactive
                         else if (user, tenant) !in members then NoMembership
                         else Exchanged(jti, child)
      ensures reply.Exchanged? ==>
                && presented.Some? && presented.value.jti.Some? && presented.value.tenant.Some?
                && presented.value.jti.value in old(tokens)
                && revoked == old(revoked) + [presented.value.jti.value]
                && tokens == old(tokens)[child := Token(presented.value.sub, presented.value.tenant.value,
                                                        old(tokens)[presented.value.jti.value].family,
                                                        presented.value.jti)]
      ensures !reply.Exchanged? ==> revoked == old(revoked) && tokens == old(tokens)
    {
      reply := Exchange(presented, child);
      replies := replies + [reply];
    }

    method Exchange(presented: Option<Claims>, child: string) returns (reply: Reply)
      requires Genuine(Current(), presented)
      modifies this`revoked, this`tokens
      ensures (Current().(replies := replies + [reply]), reply) == RefreshAlone(old(Current()), presented, child)
      ensures NamesNoToken(presented) ==> reply == InvalidToken
      ensures !NamesNoToken(presented) ==>
                reply == RefreshReply(old(revoked), active, members, presented.value.jti.value, presented.value.sub,
                                      presented.value.tenant.value, child)
      ensures reply.Exchanged? ==>
                && presented.Some? && presented.value.jti.Some? && presented.value.tenant.Some?
                && presented.value.jti.value in old(tokens)
                && revoked == old(revoked) + [presented.value.jti.value]
                && tokens == old(tokens)[child := Token(presented.value.sub, presented.value.tenant.value,
                                                        old(tokens)[presented.value.jti.value].family,
                                                        presented.value.jti)]
      ensures !reply.Exchanged? ==> revoked == old(revoked) && tokens == old(tokens)
    {
      if presented.None? || presented.value.jti in {None, Some("")} || presented.value.tenant in {None, Some("")} {
        return InvalidToken;
      }
      var jti, user, tenant := presented.value.jti.value, presented.value.sub, presented.value.tenant.value;
      if jti in revoked {
        return InvalidToken;
      }
      if user !in active {
        return UserInactive;
      }
      if (user, tenant) !in members {
        return NoMembership;
      }
      revoked := revoked + [jti];
      tokens := tokens[child := Token(user, tenant, tokens[jti].family, Some(jti))];
      return Exchanged(jti, child);
    }

    method RevokeRefreshToken(presented: Option<Claims>) returns (reply: Reply)
      modifies this`revoked, this`replies
      ensures (Current(), reply) == LogoutAlone(old(Current()), presented)
      ensures replies == old(replies) + [reply]
      ensures NamesNoToken(presented) ==> reply == InvalidToken && revoked == old(revoked)
      ensures !NamesNoToken(presented) ==>
                var jti := presented.value.jti.value;
                && reply == LoggedOut(jti) && jti in revoked
                && revoked == old(revoked) + if jti in old(revoked) then [] else [jti]
    {
      if !Acceptable(presented) {
        reply := InvalidToken;
      } else {
        var jti := presented.value.jti.value;
        if jti !in revoked {
          revoked := revoked + [jti];
        }
        reply := LoggedOut(jti);
      }
      replies := replies + [reply];
    }
  }
}
