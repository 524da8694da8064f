/**
 Email verification codes (backend/app/services/email_verification_service.py): issuing them under an hourly
 limit and verifying them under a cap on attempts, for requests that are handled one after the other.
 */
module EmailCodes {
  import opened Wrappers
  import opened Text
  import opened AuditTrail

  /** Instants are counted in microseconds. */
  type Time = int

  const HOUR: Time := 3_600_000_000

  const MINUTE: Time := 60_000_000

  /** `strip` and `lower` are Python's. */
  datatype Config = Config(sha: Bytes -> Digest, strip: string -> string, lower: string -> string, secretKey: string,
                           maxCodesPerHour: int, maxAttempts: int, ttlMinutes: int)

  datatype Record = Record(tenantId: Option<string>, email: string, codeHash: string, expiresAt: Time, attempts: nat,
                           consumedAt: Option<Time>, createdAt: Time)

  function Normalized(c: Config, email: string): string {
    c.lower(c.strip(email))
  }

  function Pepper(c: Config): string {
    if c.secretKey != "" then c.secretKey else "once-pepper"
  }

  /** `hash_code`; `None` where it raises. */
  function HashCode(c: Config, code: string): Option<string> {
    if code == "" then None else Some(Hex(c.sha(Utf8(code + Pepper(c)))))
  }

  const CODE_LENGTH := 6

  /** A six-digit code, leading zeros included. */
  function CodeText(n: nat): (s: string)
    ensures |s| == CODE_LENGTH
  {
    Padded(n, CODE_LENGTH)
  }

  /* ---------- Issuing ---------- */

  predicate InWindow(r: Record, email: string, from: Time, to: Time) {
    r.email == email && from <= r.createdAt <= to
  }

  ghost function Within(records: seq<Record>, email: string, from: Time, to: Time): set<int> {
    set i | 0 <= i < |records| && InWindow(records[i], email, from, to)
  }

  predicate IsSince(r: Record, email: string, cutoff: Time) {
    r.email == email && r.createdAt >= cutoff
  }

  ghost function Since(records: seq<Record>, email: string, cutoff: Time): set<int> {
    set i | 0 <= i < |records| && IsSince(records[i], email, cutoff)
  }

  datatype Outcome =
    | Issued(index: nat, code: string, expiresAt: Time)
    | RateLimited
    | Invalid
    | AttemptsExhausted
    | BadCode
    | Consumed(index: nat)

  ghost predicate MayIssue(c: Config, records: seq<Record>, email: string, now: Time) {
    |Since(records, email, now - HOUR)| < c.maxCodesPerHour
  }

  function NewRecord(c: Config, email: string, tenantId: Option<string>, n: nat, later: Time, stamp: Time): Record {
    Record(tenantId, email, HashCode(c, CodeText(n)).value, later + c.ttlMinutes * MINUTE, 0, None, stamp)
  }

  /** Python's number format `06d`. */
  ghost predicate IsSixDigits(n: nat, code: string) {
    |code| == 6 && AllDigits(code) && NatValue(code) == n
  }

  lemma CodeIsDecimal(n: nat)
    ensures n < 1_000_000 ==> IsSixDigits(n, CodeText(n))
  {
    if n < 1_000_000 {
      SixDigits();
      PaddedValue(n, CODE_LENGTH);
    }
  }

  lemma SixDigits()
    ensures Pow10(CODE_LENGTH) == 1_000_000
  {
    assert Pow10(2) == 100;
    assert Pow10(4) == 10_000;
  }

  /** The hash of a code: SHA-256 of the code and the secret key, in hexadecimal. */
  predicate IsCodeHash(c: Config, code: string, hash: string) {
    code != "" && hash == Hex(c.sha(Utf8(code + (if c.secretKey == "" then "once-pepper" else c.secretKey))))
  }

  /** A row as it is issued: unconsumed, without attempts, good for the configured minutes. */
  ghost predicate IsNewRecord(c: Config, email: string, tenantId: Option<string>, n: nat, code: string, later: Time,
                              stamp: Time, r: Record) {
    && r.email == c.lower(c.strip(email)) && r.tenantId == tenantId && r.createdAt == stamp
    && r.attempts == 0 && r.consumedAt == None && r.expiresAt == later + c.ttlMinutes * 60_000_000
    && (n < 1_000_000 ==> IsSixDigits(n, code)) && IsCodeHash(c, code, r.codeHash)
  }

  /* ---------- Verifying ---------- */

  predicate IsCandidate(r: Record, email: string, tenantId: Option<string>) {
    r.email == email && r.consumedAt.None? && (tenantId.Some? ==> r.tenantId == tenantId)
  }

  /** `_latest_unconsumed`: one of the newest candidates; the query does not say which of several. */
  predicate IsLatest(records: seq<Record>, email: string, tenantId: Option<string>, pick: Option<nat>) {
    match pick
    case None => forall i :: 0 <= i < |records| ==> !IsCandidate(records[i], email, tenantId)
    case Some(k) =>
      && k < |records| && IsCandidate(records[k], email, tenantId)
      && forall i :: 0 <= i < |records| && IsCandidate(records[i], email, tenantId) ==>
                       records[i].createdAt <= records[k].createdAt
  }

  /** The submitted code is compared with the record's, which costs the record one attempt. */
  predicate Guesses(c: Config, r: Record, now: Time) {
    now < r.expiresAt && r.attempts < c.maxAttempts
  }

  predicate Matches(c: Config, r: Record, submitted: string) {
    HashCode(c, c.strip(submitted)) == Some(r.codeHash)
  }

  function AfterGuess(c: Config, r: Record, submitted: string, later: Time): Record {
    r.(attempts := r.attempts + 1, consumedAt := if Matches(c, r, submitted) then Some(later) else r.consumedAt)
  }

  function VerifyAt(c: Config, records: seq<Record>, pick: Option<nat>, submitted: string, now: Time, later: Time)
    : (seq<Record>, Outcome)
    requires pick.Some? ==> pick.value < |records|
  {
    if pick.None? then (records, Invalid)
    else
      var k := pick.value;
      var r := records[k];
      if r.expiresAt <= now then (records, Invalid)
      else if r.attempts >= c.maxAttempts then (records, AttemptsExhausted)
      else
        (records[k := AfterGuess(c, r, submitted, later)],
         if c.strip(submitted) == "" then BadCode else if Matches(c, r, submitted) then Consumed(k) else Invalid)
  }

  /** What verifying a code does to the row it is checked against, and what it answers. */
  predicate IsVerified(c: Config, before: Record, after: Record, index: nat, code: string, now: Time, later: Time,
                       outcome: Outcome) {
    if before.expiresAt <= now then outcome == Invalid && after == before
    else if before.attempts >= c.maxAttempts then outcome == AttemptsExhausted && after == before
    else if code == "" then outcome == BadCode && after == before.(attempts := before.attempts + 1)
    else if IsCodeHash(c, code, before.codeHash) then
      outcome == Consumed(index) && after == before.(attempts := before.attempts + 1, consumedAt := Some(later))
    else outcome == Invalid && after == before.(attempts := before.attempts + 1)
  }

  /* ---------- The service ---------- */

  class EmailVerificationService {
    const c: Config
    var records: seq<Record>

    constructor (c: Config)
      ensures this.c == c && records == []
    {
      this.c := c;
      records := [];
    }

    method CountCodesInLastHour(email: string, now: Time) returns (count: nat)
      ensures count == |Since(records, email, now - HOUR)|
      ensures count == |set i | 0 <= i < |records| && records[i].email == email &&
                                now - 3_600_000_000 <= records[i].createdAt|
    {
      count := 0;
      for i := 0 to |records|
        invariant count == |Since(records[..i], email, now - HOUR)|
      {
        OneMore(records[..i], records[i], email, now - HOUR);
        assert records[..i + 1] == records[..i] + [records[i]];
        if records[i].email == email && records[i].createdAt >= now - HOUR {
          count := count + 1;
        }
      }
      assert records[..|records|] == records;
      assert (set i | 0 <= i < |records| && records[i].email == email && now - 3_600_000_000 <= records[i].createdAt)
          == Since(records, email, now - HOUR);
    }

    /** The clock is read for the count and again for the expiry; the database stamps the row. */
    method IssueCode(email: string, tenantId: Option<string>, n: nat, now: Time, later: Time, stamp: Time)
      returns (outcome: Outcome)
      modifies this`records
      ensures var e := Normalized(c, email);
              if MayIssue(c, old(records), e, now)
              then records == old(records) + [NewRecord(c, e, tenantId, n, later, stamp)]
                   && outcome == Issued(|old(records)|, CodeText(n), later + c.ttlMinutes * MINUTE)
              else records == old(records) && outcome == RateLimited
      ensures outcome == RateLimited <==>
              |set i | 0 <= i < |old(records)| && old(records)[i].email == Normalized(c, email) &&
                       now - 3_600_000_000 <= old(records)[i].createdAt| >= c.maxCodesPerHour
      ensures outcome != RateLimited ==>
                && outcome.Issued? && outcome.index == |old(records)| && |records| == |old(records)| + 1
                && records[..|old(records)|] == old(records)
                && IsNewRecord(c, email, tenantId, n, outcome.code, later, stamp, records[|old(records)|])
                && outcome.expiresAt == records[|old(records)|].expiresAt
    {
      var normalized := Normalized(c, email);
      var recent := CountCodesInLastHour(normalized, now);
      if recent >= c.maxCodesPerHour {
        return RateLimited;
      }
      var code := CodeText(n);
      CodeIsDecimal(n);
      var expiresAt := later + c.ttlMinutes * MINUTE;
      outcome := Issued(|records|, code, expiresAt);
      records := records + [Record(tenantId, normalized, HashCode(c, code).value, expiresAt, 0, None, stamp)];
    }

    method LatestUnconsumed(email: string, tenantId: Option<string>) returns (pick: Option<nat>)
      ensures IsLatest(records, email, tenantId, pick)
      ensures pick.Some? ==> && pick.value < |records| && records[pick.value].email == email
                             && records[pick.value].consumedAt == None
                             && (tenantId != None ==> records[pick.value].tenantId == tenantId)
      ensures forall r :: r in records && r.email == email && r.consumedAt == None &&
                          (tenantId == None || r.tenantId == tenantId) ==>
                            pick.Some? && r.createdAt <= records[pick.value].createdAt
    {
      pick := None;
      for i := 0 to |records|
        invariant IsLatest(records[..i], email, tenantId, pick)
      {
        var r := records[i];
        if IsCandidate(r, email, tenantId) && (pick.None? || records[pick.value].createdAt < r.createdAt) {
          pick := Some(i);
        }
      }
      assert records[..|records|] == records;
    }

    method VerifyCode(email: string, tenantId: Option<string>, submitted: string, now: Time, later: Time)
      returns (pick: Option<nat>, outcome: Outcome)
      modifies this`records
      ensures IsLatest(old(records), Normalized(c, email), tenantId, pick)
      ensures (records, outcome) == VerifyAt(c, old(records), pick, submitted, now, later)
      ensures pick == None ==> outcome == Invalid && records == old(records)
      ensures pick.Some? ==>
                && pick.value < |old(records)| && |records| == |old(records)|
                && (forall i :: 0 <= i < |records| && i != pick.value ==> records[i] == old(records)[i])
                && IsVerified(c, old(records)[pick.value], records[pick.value], pick.value, c.strip(submitted), now,
                              later, outcome)
    {
      pick := LatestUnconsumed(Normalized(c, email), tenantId);
      if pick.None? {
        return pick, Invalid;
      }
      var k := pick.value;
      var record := records[k];
      if record.expiresAt <= now {
        return pick, Invalid;
      }
      if record.attempts >= c.maxAttempts {
        return pick, AttemptsExhausted;
      }
      record := record.(attempts := record.attempts + 1);
      records := records[k := record];
      var submittedHash := HashCode(c, c.strip(submitted));
      if submittedHash.None? {
        return pick, BadCode;
      }
      if submittedHash.value != record.codeHash {
        return pick, Invalid;
      }
      records := records[k := record.(consumedAt := Some(later))];
      assert records == old(records)[k := AfterGuess(c, old(records)[k], submitted, later)];
      return pick, Consumed(k);
    }
  }

  /* ---------- Counting ---------- */

  lemma SubsetSize(a: set<int>, b: set<int>)
    requires a <= b
    ensures |a| <= |b|
  {
    assert b == a + (b - a);
  }

  lemma OneMore(records: seq<Record>, r: Record, email: string, cutoff: Time)
    ensures |Since(records + [r], email, cutoff)| ==
            |Since(records, email, cutoff)| + if IsSince(r, email, cutoff) then 1 else 0
  {
    var before, after := Since(records, email, cutoff), Since(records + [r], email, cutoff);
    assert after == before + if IsSince(r, email, cutoff) then {|records|} else {};
  }

  lemma OneMoreWithin(records: seq<Record>, r: Record, email: string, from: Time, to: Time)
    ensures |Within(records + [r], email, from, to)| ==
            |Within(records, email, from, to)| + if InWindow(r, email, from, to) then 1 else 0
  {
    var before, after := Within(records, email, from, to), Within(records + [r], email, from, to);
    assert after == before + if InWindow(r, email, from, to) then {|records|} else {};
  }

  /* ---------- Runs ---------- */

  /**
   A call with what it meets: the clocks, the database's time stamp, the row the query picks, and whether
   the caller keeps the changes or rolls them back.
   */
  datatype Op =
    | Issue(email: string, tenantId: Option<string>, n: nat, now: Time, later: Time, stamp: Time, kept: bool)
    | Verify(email: string, tenantId: Option<string>, submitted: string, now: Time, later: Time,
             pick: Option<nat>, kept: bool)

  ghost predicate Enabled(c: Config, records: seq<Record>, op: Op) {
    match op
    case Issue(_, _, n, _, _, _, _) => n < Pow10(CODE_LENGTH)
    case Verify(email, tenantId, _, _, _, pick, _) => IsLatest(records, Normalized(c, email), tenantId, pick)
  }

  ghost function Do(c: Config, records: seq<Record>, op: Op): (seq<Record>, Outcome)
    requires Enabled(c, records, op)
  {
    match op
    case Issue(email, tenantId, n, now, later, stamp, _) =>
      var e := Normalized(c, email);
      if MayIssue(c, records, e, now)
      then (records + [NewRecord(c, e, tenantId, n, later, stamp)],
            Issued(|records|, CodeText(n), later + c.ttlMinutes * MINUTE))
      else (records, RateLimited)
    case Verify(_, _, submitted, now, later, pick, _) => VerifyAt(c, records, pick, submitted, now, later)
  }

  ghost predicate Next(c: Config, records: seq<Record>, op: Op, after: seq<Record>) {
    Enabled(c, records, op) && after == if op.kept then Do(c, records, op).0 else records
  }

  ghost predicate StepAt(c: Config, tables: seq<seq<Record>>, ops: seq<Op>, i: nat) {
    i < |ops| && i + 1 < |tables| && Next(c, tables[i], ops[i], tables[i + 1])
  }

  /** `tables[i]` are the rows before operation `i`. */
  ghost predicate Run(c: Config, tables: seq<seq<Record>>, ops: seq<Op>) {
    && |tables| == |ops| + 1 && tables[0] == []
    && forall i :: 0 <= i < |ops| ==> StepAt(c, tables, ops, i)
  }

  function Cap(n: int): nat {
    if n > 0 then n else 0
  }

  /** A row is stamped at most `lag` before the clock its code was counted by. */
  ghost predicate StampsLagAtMost(ops: seq<Op>, lag: Time) {
    forall i :: 0 <= i < |ops| && ops[i].Issue? ==> ops[i].stamp >= ops[i].now - lag
  }

  lemma IssueKeepsLimit(c: Config, records: seq<Record>, r: Record, now: Time, lag: Time, email: string, from: Time,
                        to: Time)
    requires to - from <= HOUR - lag && r.createdAt >= now - lag
    requires MayIssue(c, records, r.email, now)
    requires |Within(records, email, from, to)| <= Cap(c.maxCodesPerHour)
    ensures |Within(records + [r], email, from, to)| <= Cap(c.maxCodesPerHour)
  {
    OneMoreWithin(records, r, email, from, to);
    if InWindow(r, email, from, to) {
      SubsetSize(Within(records, email, from, to), Since(records, email, now - HOUR));
    }
  }

  lemma VerifyKeepsWindow(c: Config, records: seq<Record>, pick: Option<nat>, submitted: string, now: Time, later: Time,
                          email: string, from: Time, to: Time)
    requires pick.Some? ==> pick.value < |records|
    ensures Within(VerifyAt(c, records, pick, submitted, now, later).0, email, from, to) ==
            Within(records, email, from, to)
  {
    var after := VerifyAt(c, records, pick, submitted, now, later).0;
    assert forall i :: 0 <= i < |records| ==>
             InWindow(after[i], email, from, to) == InWindow(records[i], email, from, to);
  }

  /**
   The hourly limit slides: if rows are stamped at most `lag` before their count, every closed interval no
   longer than an hour less `lag` holds at most the configured number of codes for the address.
   */
  lemma {:induction false} SlidingLimit(c: Config, tables: seq<seq<Record>>, ops: seq<Op>, i: nat, lag: Time,
                                        email: string, from: Time, to: Time)
    requires Run(c, tables, ops) && i < |tables| && StampsLagAtMost(ops, lag) && to - from <= HOUR - lag
    ensures |Within(tables[i], email, from, to)| <= Cap(c.maxCodesPerHour)
  {
    if i > 0 {
      var before, op := tables[i - 1], ops[i - 1];
      SlidingLimit(c, tables, ops, i - 1, lag, email, from, to);
      assert StepAt(c, tables, ops, i - 1);
      match op
      case Issue(_, tenantId, n, now, later, stamp, kept) =>
        var e := Normalized(c, op.email);
        if kept && MayIssue(c, before, e, now) {
          IssueKeepsLimit(c, before, NewRecord(c, e, tenantId, n, later, stamp), now, lag, email, from, to);
        }
      case Verify(_, _, submitted, now, later, pick, _) =>
        VerifyKeepsWindow(c, before, pick, submitted, now, later, email, from, to);
    } else {
      assert Within([], email, from, to) == {};
    }
  }

  /* ---------- The limit is no better than that ---------- */

  ghost predicate ClockRises(ops: seq<Op>) {
    forall i, j :: 0 <= i < j < |ops| ==> ops[i].now <= ops[j].now
  }

  /** The codes one address is issued at time 0. */
  function Copies(r: Record, i: nat): (rs: seq<Record>)
    ensures |rs| == i && forall j :: 0 <= j < i ==> rs[j] == r
  {
    seq(i, _ => r)
  }

  lemma FewRows(records: seq<Record>, email: string, cutoff: Time)
    ensures |Since(records, email, cutoff)| <= |records|
  {
    if records == [] {
      assert Since(records, email, cutoff) == {};
    } else {
      var front, last := records[..|records| - 1], records[|records| - 1];
      FewRows(front, email, cutoff);
      OneMore(front, last, email, cutoff);
      assert front + [last] == records;
    }
  }

  lemma OldRowsDoNotCount(records: seq<Record>, email: string, cutoff: Time)
    requires forall i :: 0 <= i < |records| ==> records[i].createdAt < cutoff
    ensures Since(records, email, cutoff) == {}
  {}

  lemma IssueAtOnce(c: Config, email: string, r: Record, i: nat)
    requires r == NewRecord(c, Normalized(c, email), None, 0, 0, 0) && i < c.maxCodesPerHour
    ensures Next(c, Copies(r, i), Issue(email, None, 0, 0, 0, 0, true), Copies(r, i + 1))
  {
    FewRows(Copies(r, i), Normalized(c, email), 0 - HOUR);
    assert Copies(r, i) + [r] == Copies(r, i + 1);
  }

  lemma IssueLater(c: Config, email: string, r: Record, i: nat, stamp: Time)
    requires r.createdAt == 0 && c.maxCodesPerHour >= 1
    ensures Next(c, Copies(r, i), Issue(email, None, 0, HOUR + 1, HOUR + 1, stamp, true),
                 Copies(r, i) + [NewRecord(c, Normalized(c, email), None, 0, HOUR + 1, stamp)])
  {
    OldRowsDoNotCount(Copies(r, i), Normalized(c, email), 1);
  }

  lemma {:induction false} AllWithin(records: seq<Record>, email: string, from: Time, to: Time)
    requires forall i :: 0 <= i < |records| ==> InWindow(records[i], email, from, to)
    ensures |Within(records, email, from, to)| == |records|
  {
    if records == [] {
      assert Within(records, email, from, to) == {};
    } else {
      var front, last := records[..|records| - 1], records[|records| - 1];
      AllWithin(front, email, from, to);
      OneMoreWithin(front, last, email, from, to);
      assert front + [last] == records;
    }
  }

  /** All the codes of an hour at time 0, and one more when they have left the hour that is counted. */
  lemma Burst(c: Config, email: string, stamp: Time, r: Record, last: Record)
    returns (tables: seq<seq<Record>>, ops: seq<Op>)
    requires c.maxCodesPerHour >= 1
    requires r == NewRecord(c, Normalized(c, email), None, 0, 0, 0)
    requires last == NewRecord(c, Normalized(c, email), None, 0, HOUR + 1, stamp)
    ensures var m := c.maxCodesPerHour;
            && Run(c, tables, ops) && |ops| == m + 1 && tables[m + 1] == Copies(r, m) + [last]
            && (forall i :: 0 <= i < m ==> ops[i] == Issue(email, None, 0, 0, 0, 0, true))
            && ops[m] == Issue(email, None, 0, HOUR + 1, HOUR + 1, stamp, true)
  {
    var m := c.maxCodesPerHour;
    ops := seq(m, _ => Issue(email, None, 0, 0, 0, 0, true)) + [Issue(email, None, 0, HOUR + 1, HOUR + 1, stamp, true)];
    tables := seq(m + 1, i requires 0 <= i <= m => Copies(r, i)) + [Copies(r, m) + [last]];
    forall i | 0 <= i < |ops|
      ensures StepAt(c, tables, ops, i)
    {
      if i < m {
        IssueAtOnce(c, email, r, i);
      } else {
        IssueLater(c, email, r, m, stamp);
      }
    }
    assert tables[0] == [];
  }

  lemma BurstLags(email: string, ops: seq<Op>, m: nat, stamp: Time, lag: Time)
    requires |ops| == m + 1 && (forall i :: 0 <= i < m ==> ops[i] == Issue(email, None, 0, 0, 0, 0, true))
    requires ops[m] == Issue(email, None, 0, HOUR + 1, HOUR + 1, stamp, true)
    requires 0 <= lag && stamp == if HOUR + 1 - lag > 0 then HOUR + 1 - lag else 0
    ensures StampsLagAtMost(ops, lag) && ClockRises(ops)
  {}

  /**
   The interval cannot be longer: with stamps `lag` behind, all the codes of an hour and one more fit into an
   hour less `lag` and a microsecond. A database that stamps rows with the start of the transaction, before
   the count, is such a case.
   */
  lemma LongerIntervalsExceedLimit(c: Config, email: string, lag: Time, width: Time)
    returns (tables: seq<seq<Record>>, ops: seq<Op>)
    requires c.maxCodesPerHour >= 1 && 0 <= lag && 0 <= width && width > HOUR - lag
    ensures Run(c, tables, ops) && |ops| == c.maxCodesPerHour + 1 && StampsLagAtMost(ops, lag) && ClockRises(ops)
    ensures |Within(tables[|ops|], Normalized(c, email), 0, width)| == c.maxCodesPerHour + 1
  {
    var e, m := Normalized(c, email), c.maxCodesPerHour;
    var stamp := if HOUR + 1 - lag > 0 then HOUR + 1 - lag else 0;
    var r, last := NewRecord(c, e, None, 0, 0, 0), NewRecord(c, e, None, 0, HOUR + 1, stamp);
    tables, ops := Burst(c, email, stamp, r, last);
    BurstLags(email, ops, m, stamp, lag);
    AllWithin(Copies(r, m) + [last], e, 0, width);
  }

  /** In one run, at one moment, the address has no more codes in the interval than configured. */
  ghost predicate LimitObeyed(c: Config, tables: seq<seq<Record>>, ops: seq<Op>, lag: Time, width: Time,
                              i: nat, email: string, from: Time)
  {
    Run(c, tables, ops) && StampsLagAtMost(ops, lag) && ClockRises(ops) && i < |tables| ==>
      |Within(tables[i], email, from, from + width)| <= Cap(c.maxCodesPerHour)
  }

  ghost predicate LimitHolds(c: Config, lag: Time, width: Time) {
    forall tables: seq<seq<Record>>, ops: seq<Op>, i: nat, email: string, from: Time ::
      LimitObeyed(c, tables, ops, lag, width, i, email, from)
  }

  /**
   The length of interval for which the limit holds in every run, exactly: an hour less the lag of the stamps.
   Only without any lag is it the hour that is promised.
   */
  lemma LimitIsExact(c: Config, lag: Time, width: Time)
    requires c.maxCodesPerHour >= 1 && lag >= 0 && width >= 0
    ensures LimitHolds(c, lag, width) <==> width <= HOUR - lag
  {
    if width <= HOUR - lag {
      forall tables: seq<seq<Record>>, ops: seq<Op>, i: nat, email: string, from: Time
        ensures LimitObeyed(c, tables, ops, lag, width, i, email, from)
      {
        if Run(c, tables, ops) && StampsLagAtMost(ops, lag) && i < |tables| {
          SlidingLimit(c, tables, ops, i, lag, email, from, from + width);
        }
      }
    } else {
      var tables, ops := LongerIntervalsExceedLimit(c, "", lag, width);
      assert !LimitObeyed(c, tables, ops, lag, width, |ops|, Normalized(c, ""), 0);
    }
  }
}
