/**
 The nightly digest chain over `audit_logs` (backend/app/services/audit_hash_service.py): one digest per
 tenant and UTC day, each over the day's rows and the digest of the day before.
 */
module AuditDigest {
  import opened Wrappers
  import opened Json
  import opened Text
  import opened Calendar
  import opened AuditTrail
  import opened AuditExport
  import CanonicalIdentity
  import CanonicalJson
  import CanonicalText
  import HashedText
  import KeyedSort
  import Tables
  import CanonicalScheme

  /** A row of `audit_hash_digests`. */
  datatype DigestRow = DigestRow(digest: string, prev: string, rowCount: nat)

  /** A digest that a worker has computed and not recorded yet. */
  datatype Pending = Pending(tenantId: string, d: InnerDay, row: DigestRow)

  datatype State = State(logs: seq<Log>, digests: map<(string, Day), DigestRow>, pending: map<int, Pending>)

  /** Days with a day before and a day after; on the others the date arithmetic overflows. */
  type InnerDay = d: Day | d != FIRST_DAY && d != LAST_DAY witness Date(1970, 1, 1)

  /** `row_to_dict` */
  function RowToDict(r: Log): Json {
    Obj(RowMembers(r))
  }

  function RowMembers(r: Log): seq<Member> {
    [ Member("id", Str(r.id)),
      Member("tenant_id", OptionalStr(r.tenantId)),
      Member("actor_user_id", OptionalStr(r.actorUserId)),
      Member("action", Str(r.action)),
      Member("resource_type", Str(r.resourceType)),
      Member("resource_id", OptionalStr(r.resourceId)),
      Member("metadata_json", r.metadata),
      Member("ip_address", OptionalStr(r.ipAddress)),
      Member("occurred_at", Str(Iso(r.occurredAt))) ]
  }

  /** `_load_day_rows`: the rows in the window of the day. */
  function DayRows(logs: seq<Log>, tenantId: string, d: InnerDay): seq<Log> {
    Tables.Select(logs, (r: Log) => r.tenantId == Some(tenantId) && InDayWindow(r.occurredAt, d), LogKey)
  }

  /** `_prev_digest_for` */
  function PrevDigestFor(digests: map<(string, Day), DigestRow>, tenantId: string, d: InnerDay): string {
    if (tenantId, PreviousDay(d)) in digests then digests[(tenantId, PreviousDay(d))].digest else ""
  }

  function Dicts(rows: seq<Log>): (r: seq<Json>)
    ensures |r| == |rows|
  {
    seq(|rows|, i requires 0 <= i < |rows| => RowToDict(rows[i]))
  }

  function DigestPayload(rows: seq<Log>, prev: string): Json {
    Obj([Member("prev", Str(prev)), Member("rows", Arr(Dicts(rows)))])
  }

  /** What is hashed for a day; `None` where the encoder refuses a row. */
  function DigestPreimage(s: Scheme, rows: seq<Log>, prev: string): Option<Bytes> {
    s.canon(DigestPayload(rows, prev))
  }

  /** `compute_daily_digest`; `None` where `_digest_rows` raises. */
  function ComputeDailyDigest(s: Scheme, st: State, tenantId: string, d: InnerDay): Option<DigestRow> {
    var rows := DayRows(st.logs, tenantId, d);
    var prev := PrevDigestFor(st.digests, tenantId, d);
    match DigestPreimage(s, rows, prev)
    case None => None
    case Some(x) => Some(DigestRow(Hex(s.sha(x)), prev, |rows|))
  }

  function Ensure(s: Scheme, st: State, tenantId: string, d: InnerDay): State {
    if (tenantId, d) in st.digests then st
    else
      match ComputeDailyDigest(s, st, tenantId, d)
      case None => st
      case Some(row) => st.(digests := st.digests[(tenantId, d) := row])
  }

  datatype Outcome = Verified(row: DigestRow) | Missing | Mismatch | Raised

  predicate Recomputes(s: Scheme, st: State, tenantId: string, d: InnerDay)
    requires (tenantId, d) in st.digests
  {
    var stored, now := st.digests[(tenantId, d)], ComputeDailyDigest(s, st, tenantId, d);
    now.Some? && now.value.digest == stored.digest && now.value.prev == stored.prev
  }

  function Verify(s: Scheme, st: State, tenantId: string, d: InnerDay): Outcome {
    if (tenantId, d) !in st.digests then Missing
    else if ComputeDailyDigest(s, st, tenantId, d).None? then Raised
    else if Recomputes(s, st, tenantId, d) then Verified(st.digests[(tenantId, d)])
    else Mismatch
  }

  /* ---------- The service ---------- */

  class DigestService {
    const s: Scheme
    var logs: seq<Log>
    var digests: map<(string, Day), DigestRow>

    function Current(): State
      reads this
    {
      State(logs, digests, map[])
    }

    constructor (s: Scheme, logs: seq<Log>)
      ensures this.s == s && Current() == State(logs, map[], map[])
    {
      this.s := s;
      this.logs := logs;
      digests := map[];
    }

    /**
     `ensure_daily_digest`: a digest that is there is returned untouched; `None` where computing one raises.
     `rival` is the row that another worker has inserted between the look and the insert, if one has; the unique
     index lets it win.
     */
    method EnsureDailyDigest(tenantId: string, d: InnerDay, rival: Option<DigestRow>) returns (row: Option<DigestRow>)
      modifies this`digests
      ensures logs == old(logs)
      ensures row.None? <==> (tenantId, d) !in old(digests) && ComputeDailyDigest(s, old(Current()), tenantId, d).None?
      ensures row.Some? ==> (tenantId, d) in digests && row.value == digests[(tenantId, d)]
      ensures (tenantId, d) in old(digests) ==> digests == old(digests)
      ensures row.None? ==> digests == old(digests)
      ensures row.Some? ==> digests - {(tenantId, d)} == old(digests) - {(tenantId, d)}
      ensures row.Some? && (tenantId, d) !in old(digests) && rival.Some? ==> row == rival
      ensures row.Some? && (tenantId, d) !in old(digests) && rival.None? && ProperLogs(logs) &&
              s == CanonicalScheme.RfcChain(s.sha) ==>
                IsComputed(s.sha, old(Current()), tenantId, d, row.value)
      ensures Current() == if (tenantId, d) !in old(digests) && rival.Some? && row.Some?
                           then old(Current()).(digests := old(digests)[(tenantId, d) := rival.value])
                           else Ensure(s, old(Current()), tenantId, d)
    {
      if (tenantId, d) in digests {
        return Some(digests[(tenantId, d)]);
      }
      row := ComputeDailyDigest(s, State(logs, digests, map[]), tenantId, d);
      if row.None? {
        return None;
      }
      if s == CanonicalScheme.RfcChain(s.sha) && ProperLogs(logs) {
        ComputedCoversDay(s, Current(), tenantId, d);
      }
      if rival.Some? {
        digests := digests[(tenantId, d) := rival.value];
        return Some(digests[(tenantId, d)]);
      }
      digests := digests[(tenantId, d) := row.value];
    }

    /** `verify_daily_digest` */
    method VerifyDailyDigest(tenantId: string, d: InnerDay) returns (r: Outcome)
      ensures r == Verify(s, Current(), tenantId, d)
      ensures r == Missing <==> (tenantId, d) !in digests
      ensures r.Verified? ==> r.row == digests[(tenantId, d)]
      ensures (r.Verified? || r == Mismatch) && ProperLogs(logs) && s == CanonicalScheme.RfcChain(s.sha) ==>
                exists now :: IsComputed(s.sha, Current(), tenantId, d, now) &&
                              (r.Verified? <==> now.digest == digests[(tenantId, d)].digest &&
                                                now.prev == digests[(tenantId, d)].prev)
    {
      if (tenantId, d) !in digests {
        return Missing;
      }
      var stored := digests[(tenantId, d)];
      var recomputed := ComputeDailyDigest(s, State(logs, digests, map[]), tenantId, d);
      if recomputed.None? {
        return Raised;
      }
      if s == CanonicalScheme.RfcChain(s.sha) && ProperLogs(logs) {
        ComputedCoversDay(s, Current(), tenantId, d);
      }
      if recomputed.value.digest != stored.digest || recomputed.value.prev != stored.prev {
        return Mismatch;
      }
      return Verified(stored);
    }
  }

  /* ---------- Runs ---------- */

  /** Workers compute a day's digest and record it later; anything may come in between. */
  datatype Op =
    | AddLog(r: Log)
    | Compute(worker: int, tenantId: string, d: InnerDay)
    | Record(worker: int)

  function Apply(s: Scheme, st: State, op: Op): State {
    match op
    case AddLog(r) => st.(logs := st.logs + [r])
    case Compute(worker, tenantId, d) =>
      if (tenantId, d) in st.digests || ComputeDailyDigest(s, st, tenantId, d).None? then st
      else st.(pending := st.pending[worker := Pending(tenantId, d, ComputeDailyDigest(s, st, tenantId, d).value)])
    case Record(worker) =>
      if worker !in st.pending then st
      else
        var p := st.pending[worker];
        var done := st.(pending := st.pending - {worker});
        if (p.tenantId, p.d) in st.digests then done
        else done.(digests := st.digests[(p.tenantId, p.d) := p.row])
  }

  /** The step records this day for the first time. */
  predicate RecordsDay(st: State, op: Op, tenantId: string, d: Day) {
    && op.Record? && op.worker in st.pending
    && st.pending[op.worker].tenantId == tenantId && st.pending[op.worker].d == d
    && (tenantId, d) !in st.digests
  }

  /** Somebody has computed the day's digest, and the day is not recorded yet. */
  ghost predicate IsPending(st: State, tenantId: string, d: Day) {
    && (tenantId, d) !in st.digests
    && exists w :: w in st.pending && st.pending[w].tenantId == tenantId && st.pending[w].d == d
  }

  /** The day's rows are frozen as soon as its digest is computed. */
  ghost predicate Frozen(st: State, op: Op) {
    op.AddLog? && op.r.tenantId.Some? ==>
      && (op.r.tenantId.value, op.r.occurredAt.date) !in st.digests
      && !IsPending(st, op.r.tenantId.value, op.r.occurredAt.date)
  }

  /** A day is not recorded for the first time once the digest of the day that follows it is computed. */
  ghost predicate InOrder(st: State, op: Op) {
    forall t: string, d: InnerDay :: RecordsDay(st, op, t, d) ==>
      (t, NextDay(d)) !in st.digests && !IsPending(st, t, NextDay(d))
  }

  ghost predicate AllVerify(s: Scheme, st: State) {
    forall t: string, d: InnerDay :: (t, d) in st.digests ==> IsVerified(s, st, t, d)
  }

  /** The worker's digest is still that of the day, unless the day is recorded. */
  predicate IsCurrent(s: Scheme, st: State, p: Pending) {
    (p.tenantId, p.d) in st.digests || ComputeDailyDigest(s, st, p.tenantId, p.d) == Some(p.row)
  }

  ghost predicate AllCurrent(s: Scheme, st: State) {
    forall w :: w in st.pending ==> IsCurrent(s, st, st.pending[w])
  }

  function Replay(s: Scheme, st: State, ops: seq<Op>): State
    decreases |ops|
  {
    if ops == [] then st else Replay(s, Apply(s, st, ops[0]), ops[1..])
  }

  ghost predicate Disciplined(s: Scheme, st: State, ops: seq<Op>)
    decreases |ops|
  {
    ops == [] || (Frozen(st, ops[0]) && InOrder(st, ops[0]) && Disciplined(s, Apply(s, st, ops[0]), ops[1..]))
  }

  lemma {:induction false} WhereAppend(logs: seq<Log>, r: Log, p: Log -> bool)
    ensures Tables.Where(logs + [r], p) == Tables.Where(logs, p) + if p(r) then [r] else []
  {
    if logs == [] {
      assert logs + [r] == [r];
      assert [r][1..] == [];
    } else {
      assert (logs + [r])[1..] == logs[1..] + [r];
      WhereAppend(logs[1..], r, p);
    }
  }

  /** A row of another tenant or day leaves the day's rows alone. */
  lemma OtherRowsDoNotMatter(logs: seq<Log>, r: Log, tenantId: string, d: InnerDay)
    requires r.tenantId != Some(tenantId) || r.occurredAt.date != d
    ensures DayRows(logs + [r], tenantId, d) == DayRows(logs, tenantId, d)
  {
    var p := (x: Log) => x.tenantId == Some(tenantId) && InDayWindow(x.occurredAt, d);
    WindowsTile(r.occurredAt, d);
    WhereAppend(logs, r, p);
    assert Tables.Where(logs + [r], p) == Tables.Where(logs, p);
  }

  /** Neither the day's rows nor its predecessor's digest change, so neither does what is computed. */
  lemma SameDaySameDigest(s: Scheme, st: State, op: Op, t: string, d: InnerDay)
    requires op.AddLog? ==> op.r.tenantId != Some(t) || op.r.occurredAt.date != d
    requires !RecordsDay(st, op, t, PreviousDay(d))
    ensures ComputeDailyDigest(s, Apply(s, st, op), t, d) == ComputeDailyDigest(s, st, t, d)
  {
    if op.AddLog? {
      OtherRowsDoNotMatter(st.logs, op.r, t, d);
    }
  }

  lemma StepKeepsDay(s: Scheme, st: State, op: Op, t: string, d: InnerDay)
    requires AllVerify(s, st) && AllCurrent(s, st) && Frozen(st, op) && InOrder(st, op)
    requires (t, d) in Apply(s, st, op).digests
    ensures IsVerified(s, Apply(s, st, op), t, d)
  {
    NextOfPrevious(d);
    if (t, d) in st.digests {
      assert IsVerified(s, st, t, d);
      if d != FIRST_DAY && PreviousDay(d) != FIRST_DAY {
        assert !RecordsDay(st, op, t, PreviousDay(d));
      }
      SameDaySameDigest(s, st, op, t, d);
    } else {
      assert RecordsDay(st, op, t, d) && IsCurrent(s, st, st.pending[op.worker]);
      assert PreviousDay(d) != d;
      SameDaySameDigest(s, st, op, t, d);
    }
  }

  lemma StepKeepsPending(s: Scheme, st: State, op: Op, w: int)
    requires AllCurrent(s, st) && Frozen(st, op) && InOrder(st, op) && w in Apply(s, st, op).pending
    ensures IsCurrent(s, Apply(s, st, op), Apply(s, st, op).pending[w])
  {
    var p := Apply(s, st, op).pending[w];
    NextOfPrevious(p.d);
    if w in st.pending && st.pending[w] == p {
      assert IsCurrent(s, st, p);
      if (p.tenantId, p.d) !in st.digests {
        assert IsPending(st, p.tenantId, p.d);
        assert !RecordsDay(st, op, p.tenantId, PreviousDay(p.d));
        SameDaySameDigest(s, st, op, p.tenantId, p.d);
      }
    } else {
      SameDaySameDigest(s, st, op, p.tenantId, p.d);
    }
  }

  lemma StepKeepsVerified(s: Scheme, st: State, op: Op)
    requires AllVerify(s, st) && AllCurrent(s, st) && Frozen(st, op) && InOrder(st, op)
    ensures AllVerify(s, Apply(s, st, op)) && AllCurrent(s, Apply(s, st, op))
  {
    var after := Apply(s, st, op);
    forall t: string, d: InnerDay | (t, d) in after.digests
      ensures IsVerified(s, after, t, d)
    {
      StepKeepsDay(s, st, op, t, d);
    }
    forall w | w in after.pending
      ensures IsCurrent(s, after, after.pending[w])
    {
      StepKeepsPending(s, st, op, w);
    }
  }

  /**
   If no day is recorded once the next day's digest is computed, and the rows of a day are frozen from the
   computing of its digest on, every recorded day verifies after every run, however the workers overlap.
   */
  lemma {:induction false} DisciplinedRunsVerify(s: Scheme, st: State, ops: seq<Op>)
    requires AllVerify(s, st) && AllCurrent(s, st) && Disciplined(s, st, ops)
    ensures AllVerify(s, Replay(s, st, ops)) && AllCurrent(s, Replay(s, st, ops))
    decreases |ops|
  {
    if ops != [] {
      StepKeepsVerified(s, st, ops[0]);
      DisciplinedRunsVerify(s, Apply(s, st, ops[0]), ops[1..]);
    }
  }

  /** Ensuring a day at once is computing and recording it with nothing in between. */
  lemma EnsureIsComputeAndRecord(s: Scheme, st: State, worker: int, t: string, d: InnerDay)
    requires worker !in st.pending
    ensures Apply(s, Apply(s, st, Compute(worker, t, d)), Record(worker)) == Ensure(s, st, t, d)
  {
    var after := Apply(s, st, Compute(worker, t, d));
    if worker in after.pending {
      assert after.pending - {worker} == st.pending;
    }
  }

  /** Ensuring a recorded day again changes nothing, and ensuring a new one changes no recorded row. */
  lemma EnsureIsIdempotent(s: Scheme, st: State, t: string, d: InnerDay, u: string, e: Day)
    ensures Ensure(s, Ensure(s, st, t, d), t, d) == Ensure(s, st, t, d)
    ensures (u, e) in st.digests ==>
              (u, e) in Ensure(s, st, t, d).digests && Ensure(s, st, t, d).digests[(u, e)] == st.digests[(u, e)]
  {}

  lemma HexOfDigest(s: Scheme, x: Bytes)
    ensures Hex(s.sha(x)) != ""
  {}

  /** A digest that was computed is never empty. */
  ghost predicate ProperPending(st: State) {
    forall w :: w in st.pending ==> st.pending[w].row.digest != ""
  }

  lemma PendingStaysProper(s: Scheme, st: State, op: Op)
    requires ProperPending(st)
    ensures ProperPending(Apply(s, st, op))
  {
    if op.Compute? && ComputeDailyDigest(s, st, op.tenantId, op.d).Some? {
      var rows, prev := DayRows(st.logs, op.tenantId, op.d), PrevDigestFor(st.digests, op.tenantId, op.d);
      HexOfDigest(s, DigestPreimage(s, rows, prev).value);
    }
  }

  /**
   The order matters: recording a day after the day that follows it makes the following day fail its
   verification, though no row was touched.
   */
  lemma LatePredecessorBreaksVerification(s: Scheme, st: State, op: Op, t: string, d: InnerDay)
    requires NextDay(d) != LAST_DAY && ProperPending(st) && RecordsDay(st, op, t, d)
    requires IsVerified(s, st, t, NextDay(d))
    ensures var after := Apply(s, st, op);
            Verify(s, after, t, NextDay(d)) ==
            if ComputeDailyDigest(s, after, t, NextDay(d)).Some? then Mismatch else Raised
  {
    PreviousOfNext(d);
    assert st.pending[op.worker].row.digest != "";
  }

  /** What a step does to a verified day: it keeps verifying if and only if its predecessor is not recorded late. */
  lemma VerifiedUnlessPredecessorIsLate(s: Scheme, st: State, t: string, d: InnerDay, op: Op)
    requires ProperPending(st) && (t, d) in st.digests && IsVerified(s, st, t, d) && Frozen(st, op)
    ensures IsVerified(s, Apply(s, st, op), t, d) <==> !RecordsDay(st, op, t, PreviousDay(d))
  {
    NextOfPrevious(d);
    if RecordsDay(st, op, t, PreviousDay(d)) {
      LatePredecessorBreaksVerification(s, st, op, t, st.pending[op.worker].d);
    } else {
      SameDaySameDigest(s, st, op, t, d);
    }
  }

  /**
   Recording in ascending order is not enough: a worker that computed day `d` before the day before it was
   recorded, and records it afterwards, leaves a day that does not verify.
   */
  lemma EarlyComputingBreaksVerification(s: Scheme, st: State, t: string, d: InnerDay)
    requires NextDay(d) != LAST_DAY && st.pending == map[]
    requires (t, d) !in st.digests && (t, NextDay(d)) !in st.digests
    requires ComputeDailyDigest(s, st, t, d).Some? && ComputeDailyDigest(s, st, t, NextDay(d)).Some?
    ensures var ops := [Compute(1, t, NextDay(d)), Compute(2, t, d), Record(2), Record(1)];
            var end := Apply(s, Apply(s, Apply(s, Apply(s, st, ops[0]), ops[1]), ops[2]), ops[3]);
            (t, d) in end.digests && (t, NextDay(d)) in end.digests && !IsVerified(s, end, t, NextDay(d))
  {
    PreviousOfNext(d);
    var next, own := ComputeDailyDigest(s, st, t, NextDay(d)).value, ComputeDailyDigest(s, st, t, d).value;
    var s1 := Apply(s, st, Compute(1, t, NextDay(d)));
    var s2 := Apply(s, s1, Compute(2, t, d));
    assert s1 == st.(pending := map[1 := Pending(t, NextDay(d), next)]);
    PendingStaysProper(s, s1, Compute(2, t, d));
    assert s2 == s1.(pending := s1.pending[2 := Pending(t, d, own)]);
    RecordBoth(s, s2, t, d, next, own);
  }

  lemma RecordBoth(s: Scheme, st: State, t: string, d: InnerDay, next: DigestRow, own: DigestRow)
    requires NextDay(d) != LAST_DAY && (t, d) !in st.digests && (t, NextDay(d)) !in st.digests
    requires st.pending == map[1 := Pending(t, NextDay(d), next), 2 := Pending(t, d, own)]
    requires own.digest != "" && next.prev == ""
    ensures var end := Apply(s, Apply(s, st, Record(2)), Record(1));
            (t, d) in end.digests && (t, NextDay(d)) in end.digests && !IsVerified(s, end, t, NextDay(d))
  {
    PreviousOfNext(d);
    var s3 := Apply(s, st, Record(2));
    assert s3.pending == map[1 := Pending(t, NextDay(d), next)];
    var s4 := Apply(s, s3, Record(1));
    assert s4.digests[(t, NextDay(d))].prev == "";
    assert PrevDigestFor(s4.digests, t, NextDay(d)) == own.digest;
  }

  /* ---------- What equal digests are evidence of ---------- */

  ghost predicate ProperLog(r: Log) {
    WellFormed(r.metadata)
  }

  ghost predicate ProperLogs(logs: seq<Log>) {
    forall r :: r in logs ==> ProperLog(r)
  }

  ghost predicate SameLog(r: Log, q: Log) {
    r.(metadata := Null) == q.(metadata := Null) && SameValue(r.metadata, q.metadata)
  }

  ghost predicate SameLogs(rows: seq<Log>, others: seq<Log>) {
    |rows| == |others| && forall i :: 0 <= i < |rows| ==> SameLog(rows[i], others[i])
  }

  lemma RowKeysUnique(r: Log)
    ensures UniqueKeys(RowMembers(r))
  {
    var ms := RowMembers(r);
    forall i, j | 0 <= i < j < |ms|
      ensures ms[i].key != ms[j].key
    {
      assert KeyTag(ms[i].key) != KeyTag(ms[j].key);
    }
  }

  lemma SameNine(ms: seq<Member>, ns: seq<Member>)
    requires |ms| == |ns| == 9
    ensures SameMembers(ms, ns) <==>
            && SameValue(ms[0].val, ns[0].val) && SameValue(ms[1].val, ns[1].val) && SameValue(ms[2].val, ns[2].val)
            && SameValue(ms[3].val, ns[3].val) && SameValue(ms[4].val, ns[4].val) && SameValue(ms[5].val, ns[5].val)
            && SameValue(ms[6].val, ns[6].val) && SameValue(ms[7].val, ns[7].val) && SameValue(ms[8].val, ns[8].val)
  {}

  lemma FieldsIdentifyLog(r: Log, q: Log)
    ensures SameLog(r, q) <==>
            && SameValue(Str(r.id), Str(q.id)) && SameValue(OptionalStr(r.tenantId), OptionalStr(q.tenantId))
            && SameValue(OptionalStr(r.actorUserId), OptionalStr(q.actorUserId))
            && SameValue(Str(r.action), Str(q.action)) && SameValue(Str(r.resourceType), Str(q.resourceType))
            && SameValue(OptionalStr(r.resourceId), OptionalStr(q.resourceId))
            && SameValue(r.metadata, q.metadata)
            && SameValue(OptionalStr(r.ipAddress), OptionalStr(q.ipAddress))
            && SameValue(Str(Iso(r.occurredAt)), Str(Iso(q.occurredAt)))
  {
    OptionalSame(r.tenantId, q.tenantId);
    OptionalSame(r.actorUserId, q.actorUserId);
    OptionalSame(r.resourceId, q.resourceId);
    OptionalSame(r.ipAddress, q.ipAddress);
    TextSame(r.id, q.id);
    TextSame(r.action, q.action);
    TextSame(r.resourceType, q.resourceType);
    TextSame(Iso(r.occurredAt), Iso(q.occurredAt));
    if Iso(r.occurredAt) == Iso(q.occurredAt) {
      IsoInjective(r.occurredAt, q.occurredAt);
    }
  }

  lemma RowKeys(r: Log, q: Log)
    ensures forall i :: 0 <= i < 9 ==> RowMembers(r)[i].key == RowMembers(q)[i].key
  {}

  lemma DictIdentifiesLog(r: Log, q: Log)
    ensures SameValue(RowToDict(r), RowToDict(q)) <==> SameLog(r, q)
  {
    var ms, ns := RowMembers(r), RowMembers(q);
    RowKeysUnique(r);
    RowKeys(r, q);
    SameKeysCompare(ms, ns);
    SameRowMembers(r, q);
  }

  lemma SameRowMembers(r: Log, q: Log)
    ensures SameMembers(RowMembers(r), RowMembers(q)) <==> SameLog(r, q)
  {
    SameNine(RowMembers(r), RowMembers(q));
    FieldsIdentifyLog(r, q);
  }

  lemma DictsIdentifyLogs(rows: seq<Log>, others: seq<Log>)
    ensures SameValue(Arr(Dicts(rows)), Arr(Dicts(others))) <==> SameLogs(rows, others)
  {
    if |rows| == |others| {
      forall i | 0 <= i < |rows|
        ensures SameValue(Dicts(rows)[i], Dicts(others)[i]) <==> SameLog(rows[i], others[i])
      {
        DictIdentifiesLog(rows[i], others[i]);
      }
    }
  }

  lemma PayloadIdentifiesDay(rows: seq<Log>, prev: string, others: seq<Log>, otherPrev: string)
    ensures SameValue(DigestPayload(rows, prev), DigestPayload(others, otherPrev)) <==>
            prev == otherPrev && SameLogs(rows, others)
  {
    var ms := [Member("prev", Str(prev)), Member("rows", Arr(Dicts(rows)))];
    var ns := [Member("prev", Str(otherPrev)), Member("rows", Arr(Dicts(others)))];
    SameKeysCompare(ms, ns);
    DictsIdentifyLogs(rows, others);
    assert SameMembers(ms, ns) <==> SameValue(ms[0].val, ns[0].val) && SameValue(ms[1].val, ns[1].val);
  }

  lemma PayloadWellFormed(rows: seq<Log>, prev: string)
    requires forall i :: 0 <= i < |rows| ==> ProperLog(rows[i])
    ensures WellFormed(DigestPayload(rows, prev))
  {
    var items := Dicts(rows);
    forall i | 0 <= i < |items|
      ensures WellFormed(items[i])
    {
      RowKeysUnique(rows[i]);
    }
    assert WellFormed(Arr(items));
  }

  /* ---------- What a digest covers, said of the text that is hashed ---------- */

  lemma RowHasName(r: Log, name: string)
    ensures Named(name, RowMembers(r)) <==> HashedText.IsLogName(name)
  {
    var ms := RowMembers(r);
    if HashedText.IsLogName(name) {
      assert ms[0].key == name || ms[1].key == name || ms[2].key == name || ms[3].key == name || ms[4].key == name ||
             ms[5].key == name || ms[6].key == name || ms[7].key == name || ms[8].key == name;
    }
  }

  lemma RowHolds(r: Log, holds: Member -> bool)
    ensures HashedText.HoldsLog(holds, r) <==> forall i :: 0 <= i < |RowMembers(r)| ==> holds(RowMembers(r)[i])
  {
    var ms := RowMembers(r);
    if HashedText.HoldsLog(holds, r) {
      forall i | 0 <= i < |ms|
        ensures holds(ms[i])
      {}
    }
    if forall i :: 0 <= i < |ms| ==> holds(ms[i]) {
      assert holds(ms[0]) && holds(ms[1]) && holds(ms[2]) && holds(ms[3]) && holds(ms[4]);
      assert holds(ms[5]) && holds(ms[6]) && holds(ms[7]) && holds(ms[8]);
    }
  }

  /** A value equals the row's dictionary exactly if it names its columns. */
  lemma DictNamesLog(r: Log, v: Json)
    ensures SameValue(RowToDict(r), v) <==> HashedText.NamesLog(v, r)
  {
    if v.Obj? {
      forall i | 0 <= i < |v.members|
        ensures Named(v.members[i].key, RowMembers(r)) <==> HashedText.IsLogName(v.members[i].key)
      {
        RowHasName(r, v.members[i].key);
      }
      RowHolds(r, (m: Member) => Matched(m, v.members));
      HashedText.CompareMembers(RowMembers(r), v.members);
    }
  }

  lemma DictsNameLogs(rows: seq<Log>, v: Json)
    ensures SameValue(Arr(Dicts(rows)), v) <==> HashedText.NamesLogs(v, rows)
  {
    if v.Arr? && |v.items| == |rows| {
      forall i | 0 <= i < |rows|
        ensures SameValue(Dicts(rows)[i], v.items[i]) <==> HashedText.NamesLog(v.items[i], rows[i])
      {
        DictNamesLog(rows[i], v.items[i]);
      }
    }
  }

  lemma RowsMatched(rows: seq<Log>, ns: seq<Member>)
    ensures Matched(Member("rows", Arr(Dicts(rows))), ns) <==> HashedText.HoldsRows(ns, rows)
  {
    forall i | 0 <= i < |ns|
      ensures SameValue(Arr(Dicts(rows)), ns[i].val) <==> HashedText.NamesLogs(ns[i].val, rows)
    {
      DictsNameLogs(rows, ns[i].val);
    }
  }

  lemma TwoNames(x: Json, y: Json, ns: seq<Member>)
    ensures (forall j :: 0 <= j < |ns| ==> Named(ns[j].key, [Member("prev", x), Member("rows", y)])) <==>
            (forall j :: 0 <= j < |ns| ==> ns[j].key in ["prev", "rows"])
  {
    var ms := [Member("prev", x), Member("rows", y)];
    forall j | 0 <= j < |ns|
      ensures Named(ns[j].key, ms) <==> ns[j].key in ["prev", "rows"]
    {
      assert ms[0].key == "prev" && ms[1].key == "rows";
    }
  }

  lemma PayloadNamesDay(t: string, v: Json, prev: string, rows: seq<Log>)
    ensures HashedText.NamesDay(t, v, prev, rows) <==>
            HashedText.IsTextOf(t, v) && SameValue(DigestPayload(rows, prev), v)
  {
    if v.Obj? {
      var ms := [Member("prev", Str(prev)), Member("rows", Arr(Dicts(rows)))];
      HashedText.CompareMembers(ms, v.members);
      TwoNames(Str(prev), Arr(Dicts(rows)), v.members);
      RowsMatched(rows, v.members);
      assert (forall i :: 0 <= i < |ms| ==> Matched(ms[i], v.members)) <==>
             Matched(ms[0], v.members) && Matched(ms[1], v.members);
    }
  }

  /** The day's payload is printed as a text that names its rows, and no other text does. */
  lemma DigestTextNamesDay(t: string, prev: string, rows: seq<Log>)
    requires forall i :: 0 <= i < |rows| ==> ProperLog(rows[i])
    ensures HashedText.IsDayText(t, prev, rows) <==> t == CanonicalJson.Encode(DigestPayload(rows, prev))
  {
    var payload := DigestPayload(rows, prev);
    PayloadWellFormed(rows, prev);
    var w := HashedText.EncodedReadsBack(payload);
    PayloadNamesDay(CanonicalJson.Encode(payload), w, prev, rows);
    forall v | HashedText.NamesDay(t, v, prev, rows)
      ensures t == CanonicalJson.Encode(payload)
    {
      PayloadNamesDay(t, v, prev, rows);
      CanonicalIdentity.EncodeIdentifiesValue(payload, v);
      CanonicalText.TextIsUnique(v, t);
    }
  }

  /** SHA-256 of a text that names the digest of the day before and the rows. */
  ghost predicate IsDigestOf(sha: Bytes -> Digest, digest: string, prev: string, rows: seq<Log>, t: string) {
    HashedText.IsDayText(t, prev, rows) && digest == Hex(sha(Utf8(t)))
  }

  /** The digest of the day before, or the empty text if there is none. */
  predicate IsPrevious(digests: map<(string, Day), DigestRow>, tenantId: string, d: InnerDay, prev: string) {
    if (tenantId, PreviousDay(d)) in digests then prev == digests[(tenantId, PreviousDay(d))].digest else prev == ""
  }

  /** The rows of a tenant and a date, by time and then by identifier. */
  ghost predicate AreDayRows(logs: seq<Log>, tenantId: string, d: Day, rows: seq<Log>) {
    && (forall r :: r in rows <==> r in logs && r.tenantId == Some(tenantId) && r.occurredAt.date == d)
    && KeyedSort.Ascending(rows, LogKey) && (UniqueIds(logs) ==> KeyedSort.StrictlyAscending(rows, LogKey))
  }

  lemma DayRowsAreDayRows(logs: seq<Log>, t: string, d: InnerDay)
    ensures AreDayRows(logs, t, d, DayRows(logs, t, d))
  {
    var p := (r: Log) => r.tenantId == Some(t) && InDayWindow(r.occurredAt, d);
    forall r
      ensures r in DayRows(logs, t, d) <==> r in logs && r.tenantId == Some(t) && r.occurredAt.date == d
    {
      Tables.SelectKeeps(logs, p, LogKey, r);
      WindowsTile(r.occurredAt, d);
    }
    KeyedSort.SortAscends(Tables.Where(logs, p), LogKey);
    if UniqueIds(logs) {
      UniqueIdsUniqueKeys(logs, p);
      Tables.SelectStrict(logs, p, LogKey);
    }
  }

  /** A digest row as the service computes it: of the day's rows and the digest of the day before. */
  ghost predicate CoversDay(sha: Bytes -> Digest, st: State, tenantId: string, d: InnerDay, row: DigestRow,
                            rows: seq<Log>, t: string) {
    && AreDayRows(st.logs, tenantId, d, rows) && row.rowCount == |rows|
    && IsPrevious(st.digests, tenantId, d, row.prev) && IsDigestOf(sha, row.digest, row.prev, rows, t)
  }

  /** The row is what the service makes of the day's rows and the digest of the day before. */
  ghost predicate IsComputed(sha: Bytes -> Digest, st: State, tenantId: string, d: InnerDay, row: DigestRow) {
    exists rows, t :: CoversDay(sha, st, tenantId, d, row, rows, t)
  }

  lemma ComputedCoversDay(s: Scheme, st: State, tenantId: string, d: InnerDay)
    requires s == CanonicalScheme.RfcChain(s.sha) && ProperLogs(st.logs)
    requires ComputeDailyDigest(s, st, tenantId, d).Some?
    ensures IsComputed(s.sha, st, tenantId, d, ComputeDailyDigest(s, st, tenantId, d).value)
  {
    var row := ComputeDailyDigest(s, st, tenantId, d).value;
    var rows := DayRows(st.logs, tenantId, d);
    var t := CanonicalJson.Encode(DigestPayload(rows, row.prev));
    DayRowsProper(st.logs, tenantId, d);
    DayRowsAreDayRows(st.logs, tenantId, d);
    DigestTextNamesDay(t, row.prev, rows);
    assert CoversDay(s.sha, st, tenantId, d, row, rows, t);
  }

  lemma DictEncodesWhen(r: Log, takes: int -> bool)
    ensures AllInts(RowToDict(r), takes) <==> AllInts(r.metadata, takes)
  {
    var ms := RowMembers(r);
    forall i | 0 <= i < |ms| && i != 6
      ensures AllInts(ms[i].val, takes)
    {
      assert ms[i].val.Null? || ms[i].val.Str?;
    }
    assert ms[6].val == r.metadata;
  }

  lemma PayloadEncodesWhen(rows: seq<Log>, prev: string, takes: int -> bool)
    ensures AllInts(DigestPayload(rows, prev), takes) <==> forall r :: r in rows ==> AllInts(r.metadata, takes)
  {
    var ms := [Member("prev", Str(prev)), Member("rows", Arr(Dicts(rows)))];
    assert AllInts(Obj(ms), takes) <==> AllInts(ms[0].val, takes) && AllInts(ms[1].val, takes);
    forall i | 0 <= i < |rows|
      ensures AllInts(Dicts(rows)[i], takes) <==> AllInts(rows[i].metadata, takes)
    {
      DictEncodesWhen(rows[i], takes);
    }
    assert AllInts(Arr(Dicts(rows)), takes) <==> forall i :: 0 <= i < |rows| ==> AllInts(Dicts(rows)[i], takes);
  }

  /** A day can be computed exactly if a double holds every integer in the metadata of its rows. */
  lemma ComputesWhen(sha: Bytes -> Digest, st: State, tenantId: string, d: InnerDay)
    ensures ComputeDailyDigest(CanonicalScheme.RfcChain(sha), st, tenantId, d).Some? <==>
            forall r :: r in st.logs && r.tenantId == Some(tenantId) && r.occurredAt.date == d ==>
              AllInts(r.metadata, CanonicalJson.IsSafe)
  {
    DayRowsAreDayRows(st.logs, tenantId, d);
    PayloadEncodesWhen(DayRows(st.logs, tenantId, d), PrevDigestFor(st.digests, tenantId, d), CanonicalJson.IsSafe);
  }

  lemma DayRowsProper(logs: seq<Log>, t: string, d: InnerDay)
    requires ProperLogs(logs)
    ensures forall i :: 0 <= i < |DayRows(logs, t, d)| ==> ProperLog(DayRows(logs, t, d)[i])
  {
    var rows := DayRows(logs, t, d);
    forall i | 0 <= i < |rows|
      ensures ProperLog(rows[i])
    {
      Tables.SelectKeeps(logs, (r: Log) => r.tenantId == Some(t) && InDayWindow(r.occurredAt, d), LogKey, rows[i]);
    }
  }

  /** The bytes a recorded day hashed, as far as the current rows tell. */
  function DayPreimage(s: Scheme, st: State, t: string, d: InnerDay): Bytes {
    match DigestPreimage(s, DayRows(st.logs, t, d), PrevDigestFor(st.digests, t, d))
    case Some(x) => x
    case None => []
  }

  /** Two verified days with one digest have the same rows and the same predecessor, or show a collision. */
  lemma SameDigestSameDay(s: Scheme, st: State, a: string, d: InnerDay, tt: State, b: string, e: InnerDay)
    requires Canonical(s) && ProperLogs(st.logs) && ProperLogs(tt.logs)
    requires Verify(s, st, a, d).Verified? && Verify(s, tt, b, e).Verified?
    requires st.digests[(a, d)].digest == tt.digests[(b, e)].digest
    ensures || Collision(s, DayPreimage(s, st, a, d), DayPreimage(s, tt, b, e))
            || (&& PrevDigestFor(st.digests, a, d) == PrevDigestFor(tt.digests, b, e)
                && SameLogs(DayRows(st.logs, a, d), DayRows(tt.logs, b, e)))
  {
    var x, y := DayPreimage(s, st, a, d), DayPreimage(s, tt, b, e);
    HexInjective(s.sha(x), s.sha(y));
    DayRowsProper(st.logs, a, d);
    DayRowsProper(tt.logs, b, e);
    PayloadWellFormed(DayRows(st.logs, a, d), PrevDigestFor(st.digests, a, d));
    PayloadWellFormed(DayRows(tt.logs, b, e), PrevDigestFor(tt.digests, b, e));
    PayloadIdentifiesDay(DayRows(st.logs, a, d), PrevDigestFor(st.digests, a, d),
                         DayRows(tt.logs, b, e), PrevDigestFor(tt.digests, b, e));
  }

  ghost predicate Follows(days: seq<InnerDay>, i: nat)
    requires i < |days|
  {
    i > 0 ==> PreviousDay(days[i]) == days[i - 1]
  }

  ghost predicate IsVerified(s: Scheme, st: State, t: string, d: InnerDay) {
    Verify(s, st, t, d).Verified?
  }

  /** The days follow one another and all verify. */
  ghost predicate VerifiedDays(s: Scheme, st: State, t: string, days: seq<InnerDay>) {
    forall i :: 0 <= i < |days| ==> Follows(days, i) && IsVerified(s, st, t, days[i])
  }

  lemma FirstDaysVerified(s: Scheme, st: State, t: string, days: seq<InnerDay>)
    requires days != [] && VerifiedDays(s, st, t, days)
    ensures VerifiedDays(s, st, t, days[..|days| - 1])
  {
    var before := days[..|days| - 1];
    forall i | 0 <= i < |before|
      ensures Follows(before, i) && IsVerified(s, st, t, before[i])
    {
      assert Follows(days, i) && IsVerified(s, st, t, days[i]);
    }
  }

  ghost predicate SameDay(st: State, a: string, tt: State, b: string, d: InnerDay) {
    SameLogs(DayRows(st.logs, a, d), DayRows(tt.logs, b, d))
  }

  ghost predicate DayCollision(s: Scheme, st: State, a: string, tt: State, b: string, d: InnerDay) {
    Collision(s, DayPreimage(s, st, a, d), DayPreimage(s, tt, b, d))
  }

  /** Both have recorded the day, with one digest. */
  ghost predicate SameDigest(st: State, a: string, tt: State, b: string, d: InnerDay) {
    (a, d) in st.digests && (b, d) in tt.digests && st.digests[(a, d)].digest == tt.digests[(b, d)].digest
  }

  lemma LastDay(s: Scheme, st: State, a: string, tt: State, b: string, days: seq<InnerDay>)
    requires Canonical(s) && ProperLogs(st.logs) && ProperLogs(tt.logs)
    requires days != [] && VerifiedDays(s, st, a, days) && VerifiedDays(s, tt, b, days)
    requires SameDigest(st, a, tt, b, days[|days| - 1])
    ensures var d := days[|days| - 1];
            || DayCollision(s, st, a, tt, b, d)
            || (&& SameDay(st, a, tt, b, d)
                && (|days| > 1 ==> SameDigest(st, a, tt, b, days[|days| - 2])))
  {
    var k := |days| - 1;
    assert Follows(days, k) && IsVerified(s, st, a, days[k]) && IsVerified(s, tt, b, days[k]);
    SameDigestSameDay(s, st, a, days[k], tt, b, days[k]);
    if k > 0 {
      assert IsVerified(s, st, a, days[k - 1]) && IsVerified(s, tt, b, days[k - 1]);
    }
  }

  ghost predicate SameDays(st: State, a: string, tt: State, b: string, days: seq<InnerDay>) {
    forall i :: 0 <= i < |days| ==> SameDay(st, a, tt, b, days[i])
  }

  lemma OneMoreSameDay(st: State, a: string, tt: State, b: string, days: seq<InnerDay>)
    requires days != [] && SameDays(st, a, tt, b, days[..|days| - 1])
    requires SameDay(st, a, tt, b, days[|days| - 1])
    ensures SameDays(st, a, tt, b, days)
  {
    var before := days[..|days| - 1];
    forall i | 0 <= i < |days|
      ensures SameDay(st, a, tt, b, days[i])
    {
      if i < |before| {
        assert SameDay(st, a, tt, b, before[i]);
      }
    }
  }

  ghost predicate SomeDayCollides(s: Scheme, st: State, a: string, tt: State, b: string, days: seq<InnerDay>) {
    exists i :: 0 <= i < |days| && DayCollision(s, st, a, tt, b, days[i])
  }

  lemma OneMoreColliding(s: Scheme, st: State, a: string, tt: State, b: string, days: seq<InnerDay>)
    requires days != [] && SomeDayCollides(s, st, a, tt, b, days[..|days| - 1])
    ensures SomeDayCollides(s, st, a, tt, b, days)
  {
    var before := days[..|days| - 1];
    var i :| 0 <= i < |before| && DayCollision(s, st, a, tt, b, before[i]);
    assert days[i] == before[i];
  }

  /**
   Two verified runs of the same consecutive days whose last digests are equal have the same rows on every
   one of the days; otherwise a pair of digested days collides.
   */
  lemma {:induction false} DigestChainEvidence(s: Scheme, st: State, a: string, tt: State, b: string,
                                               days: seq<InnerDay>)
    requires Canonical(s) && ProperLogs(st.logs) && ProperLogs(tt.logs)
    requires days != [] && VerifiedDays(s, st, a, days) && VerifiedDays(s, tt, b, days)
    requires SameDigest(st, a, tt, b, days[|days| - 1])
    ensures SomeDayCollides(s, st, a, tt, b, days) || SameDays(st, a, tt, b, days)
    decreases |days|
  {
    LastDay(s, st, a, tt, b, days);
    var before, d := days[..|days| - 1], days[|days| - 1];
    if !DayCollision(s, st, a, tt, b, d) {
      if before != [] {
        FirstDaysVerified(s, st, a, days);
        FirstDaysVerified(s, tt, b, days);
        DigestChainEvidence(s, st, a, tt, b, before);
        if SomeDayCollides(s, st, a, tt, b, before) {
          OneMoreColliding(s, st, a, tt, b, days);
        } else {
          OneMoreSameDay(st, a, tt, b, days);
        }
      } else {
        OneMoreSameDay(st, a, tt, b, days);
      }
    }
  }

  /** A row added to a verified day afterwards is noticed, unless it leads to a collision. */
  lemma LateRowIsNoticed(s: Scheme, st: State, t: string, d: InnerDay, r: Log)
    requires Canonical(s) && ProperLogs(st.logs) && ProperLog(r)
    requires Verify(s, st, t, d).Verified? && r.tenantId == Some(t) && r.occurredAt.date == d
    ensures var after := Apply(s, st, AddLog(r));
            || Verify(s, after, t, d) == Mismatch
            || (Verify(s, after, t, d) == Raised && ComputeDailyDigest(s, after, t, d).None?)
            || Collision(s, DayPreimage(s, st, t, d), DayPreimage(s, after, t, d))
  {
    var after := Apply(s, st, AddLog(r));
    var p := (x: Log) => x.tenantId == Some(t) && InDayWindow(x.occurredAt, d);
    WindowsTile(r.occurredAt, d);
    WhereAppend(st.logs, r, p);
    assert |DayRows(after.logs, t, d)| == |DayRows(st.logs, t, d)| + 1;
    if Verify(s, after, t, d).Verified? {
      SameDigestSameDay(s, st, t, d, after, t, d);
    }
  }
}
