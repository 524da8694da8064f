/**
 E-mail verification codes when requests overlap (backend/app/services/email_verification_service.py): a request
 reads the rows, and writes what it made of them in a later step. Rows have no lock and no version, so what is
 written rests on what was read.
 */
module EmailOverlap {
  import opened Wrappers
  import opened Text
  import opened EmailCodes
  import EmailGuesses

  /** What a request that has read is about to write: an attempt at record `k`, or a new code. */
  datatype Pending =
    | Guess(k: nat, attempts: nat, right: bool)
    | Code(email: string, tenantId: Option<string>, n: nat, now: Time)

  datatype State = State(records: seq<Record>, pending: map<int, Pending>)

  /** `Ask` is what `verify_code` reads and compares, `Count` what `issue_code` counts; `Settle` ends either. */
  datatype Event =
    | Ask(w: int, email: string, tenantId: Option<string>, submitted: string, now: Time, pick: Option<nat>)
    | Count(w: int, email: string, tenantId: Option<string>, n: nat, now: Time)
    | Settle(w: int, later: Time, stamp: Time, kept: bool)

  const EMPTY: State := State([], map[])

  ghost predicate Ready(c: Config, st: State, e: Event) {
    match e
    case Ask(w, email, tenantId, _, _, pick) =>
      w !in st.pending && IsLatest(st.records, Normalized(c, email), tenantId, pick)
    case Count(w, _, _, n, _) => w !in st.pending && n < Pow10(CODE_LENGTH)
    case Settle(_, _, _, _) => true
  }

  /** The rows once the request's changes are committed. */
  function Written(c: Config, records: seq<Record>, p: Pending, later: Time, stamp: Time): seq<Record> {
    match p
    case Guess(k, attempts, right) =>
      if k >= |records| then records
      else
        records[k := records[k].(attempts := attempts + 1,
                                 consumedAt := if right then Some(later) else records[k].consumedAt)]
    case Code(email, tenantId, n, _) => records + [NewRecord(c, email, tenantId, n, later, stamp)]
  }

  ghost function Apply(c: Config, st: State, e: Event): State
    requires Ready(c, st, e)
  {
    match e
    case Ask(w, _, _, submitted, now, pick) =>
      if pick.None? || !Guesses(c, st.records[pick.value], now) then st
      else
        var r := st.records[pick.value];
        st.(pending := st.pending[w := Guess(pick.value, r.attempts, Matches(c, r, submitted))])
    case Count(w, email, tenantId, n, now) =>
      if !MayIssue(c, st.records, Normalized(c, email), now) then st
      else st.(pending := st.pending[w := Code(Normalized(c, email), tenantId, n, now)])
    case Settle(w, later, stamp, kept) =>
      if w !in st.pending then st
      else State(if kept then Written(c, st.records, st.pending[w], later, stamp) else st.records, st.pending - {w})
  }

  ghost predicate EventAt(c: Config, sts: seq<State>, es: seq<Event>, i: nat) {
    i < |es| && i + 1 < |sts| && Ready(c, sts[i], es[i]) && sts[i + 1] == Apply(c, sts[i], es[i])
  }

  ghost predicate Overlapping(c: Config, sts: seq<State>, es: seq<Event>) {
    && |sts| == |es| + 1 && sts[0] == EMPTY
    && forall i :: 0 <= i < |es| ==> EventAt(c, sts, es, i)
  }

  /* ---------- Requests that do not overlap ---------- */

  function First(op: Op): Event {
    match op
    case Issue(email, tenantId, n, now, _, _, _) => Count(0, email, tenantId, n, now)
    case Verify(email, tenantId, submitted, now, _, pick, _) => Ask(0, email, tenantId, submitted, now, pick)
  }

  function Second(op: Op): Event {
    Settle(0, op.later, if op.Issue? then op.stamp else 0, op.kept)
  }

  /** A request whose two steps have nothing in between does what it does alone. */
  lemma OneAfterTheOther(c: Config, records: seq<Record>, op: Op, after: seq<Record>)
    requires Next(c, records, op, after)
    ensures Ready(c, State(records, map[]), First(op))
    ensures Apply(c, Apply(c, State(records, map[]), First(op)), Second(op)) == State(after, map[])
  {
    var st := Apply(c, State(records, map[]), First(op));
    if 0 in st.pending {
      assert st.pending - {0} == map[];
    }
  }

  ghost function StateOf(c: Config, tables: seq<seq<Record>>, ops: seq<Op>, j: nat): State
    requires Run(c, tables, ops) && j <= 2 * |ops|
  {
    if j % 2 == 0 then State(tables[j / 2], map[])
    else
      assert EmailCodes.StepAt(c, tables, ops, j / 2);
      Apply(c, State(tables[j / 2], map[]), First(ops[j / 2]))
  }

  function EventOf(ops: seq<Op>, j: nat): Event
    requires j < 2 * |ops|
  {
    if j % 2 == 0 then First(ops[j / 2]) else Second(ops[j / 2])
  }

  /** Requests that are handled one after the other are a case of requests that may overlap. */
  lemma SequentialRunsOverlapNowhere(c: Config, tables: seq<seq<Record>>, ops: seq<Op>)
    returns (sts: seq<State>, es: seq<Event>)
    requires Run(c, tables, ops)
    ensures Overlapping(c, sts, es) && |es| == 2 * |ops|
    ensures forall j :: 0 <= j < |sts| ==> sts[j] == StateOf(c, tables, ops, j)
    ensures forall j :: 0 <= j < |es| ==> es[j] == EventOf(ops, j)
  {
    sts := seq(2 * |ops| + 1, j requires 0 <= j <= 2 * |ops| => StateOf(c, tables, ops, j));
    es := seq(2 * |ops|, j requires 0 <= j < 2 * |ops| => EventOf(ops, j));
    forall j | 0 <= j < |es|
      ensures EventAt(c, sts, es, j)
    {
      var i := j / 2;
      assert EmailCodes.StepAt(c, tables, ops, i);
      OneAfterTheOther(c, tables[i], ops[i], tables[i + 1]);
      if j % 2 == 0 {
        assert (j + 1) / 2 == i && (j + 1) % 2 == 1;
      } else {
        assert (j + 1) / 2 == i + 1 && (j + 1) % 2 == 0;
      }
    }
  }

  /* ---------- Policies ---------- */

  /** Event `i` compares a code with record `k`. */
  ghost predicate AsksAt(c: Config, sts: seq<State>, es: seq<Event>, i: nat, k: nat) {
    && i < |es| && i < |sts| && es[i].Ask? && es[i].pick == Some(k) && k < |sts[i].records|
    && Guesses(c, sts[i].records[k], es[i].now)
  }

  ghost predicate WrongAt(c: Config, sts: seq<State>, es: seq<Event>, i: nat, k: nat) {
    AsksAt(c, sts, es, i, k) && !Matches(c, sts[i].records[k], es[i].submitted)
  }

  /** How many of the first `n` events compare a wrong code with record `k`. */
  ghost function WrongBefore(c: Config, sts: seq<State>, es: seq<Event>, n: nat, k: nat): nat {
    if n == 0 then 0 else WrongBefore(c, sts, es, n - 1, k) + if WrongAt(c, sts, es, n - 1, k) then 1 else 0
  }

  predicate GuessesAt(st: State, w: int, k: nat) {
    w in st.pending && st.pending[w].Guess? && st.pending[w].k == k
  }

  predicate Issues(st: State, w: int, email: string) {
    w in st.pending && st.pending[w].Code? && st.pending[w].email == email
  }

  /** Verifications of one record do not overlap. */
  ghost predicate SerialGuesses(c: Config, sts: seq<State>, es: seq<Event>) {
    forall i: nat, k: nat :: AsksAt(c, sts, es, i, k) ==> forall w :: !GuessesAt(sts[i], w, k)
  }

  /** A refused verification is about to be kept or rolled back. */
  ghost predicate RefusalAt(sts: seq<State>, es: seq<Event>, i: nat) {
    && i < |es| && i < |sts| && es[i].Settle? && es[i].w in sts[i].pending
    && sts[i].pending[es[i].w].Guess? && !sts[i].pending[es[i].w].right
  }

  ghost predicate TreatsRefusals(sts: seq<State>, es: seq<Event>, keeps: bool) {
    forall i: nat :: RefusalAt(sts, es, i) ==> es[i].kept == keeps
  }

  predicate InTime(e: Event, f: Event) {
    e.Settle? || f.Settle? || e.now <= f.now
  }

  ghost predicate Rising(es: seq<Event>) {
    forall i, j :: 0 <= i < j < |es| ==> InTime(es[i], es[j])
  }

  /* ---------- The cap on attempts ---------- */

  function AttemptsOf(st: State, k: nat): nat {
    if k < |st.records| then st.records[k].attempts else 0
  }

  /** The guesses under way at record `k`: at most one, made on the attempts as they are. */
  ghost predicate OneGuess(c: Config, st: State, k: nat) {
    && (forall w, u :: GuessesAt(st, w, k) && GuessesAt(st, u, k) ==> w == u)
    && (forall w :: GuessesAt(st, w, k) ==>
          k < |st.records| && st.pending[w].attempts == AttemptsOf(st, k) < c.maxAttempts)
  }

  ghost predicate WrongPending(st: State, k: nat) {
    exists w :: GuessesAt(st, w, k) && !st.pending[w].right
  }

  /** `wrong` comparisons so far are paid for, but for the one under way. */
  ghost predicate PaidFor(c: Config, st: State, k: nat, wrong: nat) {
    && OneGuess(c, st, k) && AttemptsOf(st, k) <= Cap(c.maxAttempts)
    && wrong <= AttemptsOf(st, k) + if WrongPending(st, k) then 1 else 0
  }

  lemma AskKeepsPaid(c: Config, st: State, e: Event, k: nat, wrong: nat)
    requires Ready(c, st, e) && e.Ask? && PaidFor(c, st, k, wrong)
    requires e.pick == Some(k) && Guesses(c, st.records[k], e.now) ==> forall w :: !GuessesAt(st, w, k)
    ensures PaidFor(c, Apply(c, st, e), k,
                    wrong + if e.pick == Some(k) && Guesses(c, st.records[k], e.now)
                               && !Matches(c, st.records[k], e.submitted) then 1 else 0)
  {
    var after := Apply(c, st, e);
    if e.pick == Some(k) && Guesses(c, st.records[k], e.now) {
      forall w | GuessesAt(after, w, k)
        ensures w == e.w
      {
        assert !GuessesAt(st, w, k);
      }
      assert GuessesAt(after, e.w, k);
    } else {
      assert forall w :: GuessesAt(after, w, k) ==> GuessesAt(st, w, k);
      if WrongPending(st, k) {
        var w :| GuessesAt(st, w, k) && !st.pending[w].right;
        assert GuessesAt(after, w, k);
      }
    }
  }

  lemma CountKeepsPaid(c: Config, st: State, e: Event, k: nat, wrong: nat)
    requires Ready(c, st, e) && e.Count? && PaidFor(c, st, k, wrong)
    ensures PaidFor(c, Apply(c, st, e), k, wrong)
  {
    var after := Apply(c, st, e);
    assert forall w :: GuessesAt(after, w, k) <==> GuessesAt(st, w, k);
    if WrongPending(st, k) {
      var w :| GuessesAt(st, w, k) && !st.pending[w].right;
      assert GuessesAt(after, w, k);
    }
  }

  lemma SettleKeepsPaid(c: Config, st: State, e: Event, k: nat, wrong: nat)
    requires Ready(c, st, e) && e.Settle? && PaidFor(c, st, k, wrong)
    requires GuessesAt(st, e.w, k) && !st.pending[e.w].right ==> e.kept
    ensures PaidFor(c, Apply(c, st, e), k, wrong)
  {
    var after := Apply(c, st, e);
    assert forall w :: GuessesAt(after, w, k) <==> GuessesAt(st, w, k) && w != e.w;
    if GuessesAt(st, e.w, k) {
      assert forall w :: !GuessesAt(after, w, k);
      assert AttemptsOf(after, k) == AttemptsOf(st, k) + if e.kept then 1 else 0;
    } else {
      assert AttemptsOf(after, k) == AttemptsOf(st, k);
      if WrongPending(st, k) {
        var w :| GuessesAt(st, w, k) && !st.pending[w].right;
        assert GuessesAt(after, w, k);
      }
    }
  }

  lemma {:induction false} SerialGuessesArePaid(c: Config, sts: seq<State>, es: seq<Event>, n: nat, k: nat)
    requires Overlapping(c, sts, es) && SerialGuesses(c, sts, es) && TreatsRefusals(sts, es, true) && n < |sts|
    ensures PaidFor(c, sts[n], k, WrongBefore(c, sts, es, n, k))
  {
    if n > 0 {
      var st, e := sts[n - 1], es[n - 1];
      SerialGuessesArePaid(c, sts, es, n - 1, k);
      assert EventAt(c, sts, es, n - 1);
      match e
      case Ask(_, _, _, _, now, pick) =>
        if pick == Some(k) && Guesses(c, st.records[k], now) {
          assert AsksAt(c, sts, es, n - 1, k);
        }
        AskKeepsPaid(c, st, e, k, WrongBefore(c, sts, es, n - 1, k));
      case Count(_, _, _, _, _) => CountKeepsPaid(c, st, e, k, WrongBefore(c, sts, es, n - 1, k));
      case Settle(_, _, _, _) =>
        assert GuessesAt(st, e.w, k) && !st.pending[e.w].right ==> RefusalAt(sts, es, n - 1);
        SettleKeepsPaid(c, st, e, k, WrongBefore(c, sts, es, n - 1, k));
    }
  }

  lemma SerialGuessesAreCapped(c: Config, sts: seq<State>, es: seq<Event>, n: nat, k: nat)
    requires Overlapping(c, sts, es) && SerialGuesses(c, sts, es) && TreatsRefusals(sts, es, true) && n < |sts|
    ensures WrongBefore(c, sts, es, n, k) <= Cap(c.maxAttempts)
  {
    SerialGuessesArePaid(c, sts, es, n, k);
    if WrongPending(sts[n], k) {
      var w :| GuessesAt(sts[n], w, k) && !sts[n].pending[w].right;
    }
  }

  /* ---------- Overlapping verifications ---------- */

  /** The requests numbered from `lo` to below `hi` are about to write the same. */
  function Waiting(p: Pending, lo: int, hi: int): map<int, Pending> {
    map w: int | lo <= w < hi && IsIn(w, lo, hi) :: p
  }

  predicate IsIn(w: int, lo: int, hi: int) {
    lo <= w < hi
  }

  /** One code is issued, `m` requests read it with the same submission, and all of them settle. */
  ghost function BurstState(c: Config, r: Record, settled: Record, code: Pending, guess: Pending, m: nat,
                            j: nat): State {
    if j == 0 then EMPTY
    else if j == 1 then State([], map[0 := code])
    else if j <= m + 2 then State([r], Waiting(guess, 0, j - 2))
    else State([settled], Waiting(guess, j - m - 2, m))
  }

  function BurstEvent(email: string, submitted: string, m: nat, j: nat): Event {
    if j == 0 then Count(0, email, None, 0, 0)
    else if j == 1 then Settle(0, 0, 0, true)
    else if j < m + 2 then Ask(j - 2, email, None, submitted, 0, Some(0))
    else Settle(j - m - 2, 0, 0, true)
  }

  lemma BurstIssues(c: Config, email: string, r: Record, code: Pending)
    requires EmailGuesses.Usable(c) && r == NewRecord(c, Normalized(c, email), None, 0, 0, 0)
    requires code == Code(Normalized(c, email), None, 0, 0)
    ensures Ready(c, EMPTY, Count(0, email, None, 0, 0))
    ensures Apply(c, EMPTY, Count(0, email, None, 0, 0)) == State([], map[0 := code])
    ensures Apply(c, State([], map[0 := code]), Settle(0, 0, 0, true)) == State([r], map[])
  {
    assert Since([], Normalized(c, email), 0 - HOUR) == {};
    assert map[0 := code] - {0} == map[];
  }

  lemma BurstAsks(c: Config, email: string, submitted: string, r: Record, guess: Pending, i: nat)
    requires EmailGuesses.Usable(c) && r == NewRecord(c, Normalized(c, email), None, 0, 0, 0)
    requires guess == Guess(0, 0, Matches(c, r, submitted))
    ensures Guesses(c, r, 0) && Ready(c, State([r], Waiting(guess, 0, i)), Ask(i, email, None, submitted, 0, Some(0)))
    ensures Apply(c, State([r], Waiting(guess, 0, i)), Ask(i, email, None, submitted, 0, Some(0))) ==
            State([r], Waiting(guess, 0, i + 1))
  {
    assert IsCandidate(r, Normalized(c, email), None);
    assert Waiting(guess, 0, i)[i := guess] == Waiting(guess, 0, i + 1);
  }

  lemma BurstSettles(c: Config, r: Record, guess: Pending, settled: Record, i: nat, m: nat, row: Record)
    requires guess.Guess? && guess.k == 0 && guess.attempts == 0 && r.consumedAt.None? && i < m
    requires settled == r.(attempts := 1, consumedAt := if guess.right then Some(0) else None)
    requires row == r || row == settled
    ensures Apply(c, State([row], Waiting(guess, i, m)), Settle(i, 0, 0, true)) ==
            State([settled], Waiting(guess, i + 1, m))
  {
    assert Waiting(guess, i, m) - {i} == Waiting(guess, i + 1, m);
    assert [row][0 := settled] == [settled];
  }

  lemma BurstStep(c: Config, email: string, submitted: string, m: nat, r: Record, settled: Record, code: Pending,
                  guess: Pending, j: nat)
    requires EmailGuesses.Usable(c) && r == NewRecord(c, Normalized(c, email), None, 0, 0, 0) && j < 2 * m + 2
    requires code == Code(Normalized(c, email), None, 0, 0) && guess == Guess(0, 0, Matches(c, r, submitted))
    requires settled == r.(attempts := 1, consumedAt := if guess.right then Some(0) else None)
    ensures var st, e := BurstState(c, r, settled, code, guess, m, j), BurstEvent(email, submitted, m, j);
            Ready(c, st, e) && Apply(c, st, e) == BurstState(c, r, settled, code, guess, m, j + 1)
  {
    if j < 2 {
      BurstIssues(c, email, r, code);
      assert Waiting(guess, 0, 0) == map[];
    } else if j < m + 2 {
      BurstAsks(c, email, submitted, r, guess, j - 2);
    } else {
      BurstSettles(c, r, guess, settled, j - m - 2, m, BurstState(c, r, settled, code, guess, m, j).records[0]);
    }
  }

  lemma Burst(c: Config, email: string, submitted: string, m: nat, r: Record) returns (sts: seq<State>, es: seq<Event>)
    requires EmailGuesses.Usable(c) && r == NewRecord(c, Normalized(c, email), None, 0, 0, 0)
    ensures Overlapping(c, sts, es) && |es| == 2 * m + 2 && Guesses(c, r, 0)
    ensures forall j :: 0 <= j < |es| ==> es[j] == BurstEvent(email, submitted, m, j)
    ensures var right := Matches(c, r, submitted);
            var settled := r.(attempts := 1, consumedAt := if right then Some(0) else None);
            var code := Code(Normalized(c, email), None, 0, 0);
            forall j :: 0 <= j < |sts| ==> sts[j] == BurstState(c, r, settled, code, Guess(0, 0, right), m, j)
  {
    var right := Matches(c, r, submitted);
    var settled := r.(attempts := 1, consumedAt := if right then Some(0) else None);
    var code, guess := Code(Normalized(c, email), None, 0, 0), Guess(0, 0, right);
    sts := seq(2 * m + 3, j requires 0 <= j => BurstState(c, r, settled, code, guess, m, j));
    es := seq(2 * m + 2, j requires 0 <= j => BurstEvent(email, submitted, m, j));
    BurstAsks(c, email, submitted, r, guess, 0);
    forall j | 0 <= j < |es|
      ensures EventAt(c, sts, es, j)
    {
      BurstStep(c, email, submitted, m, r, settled, code, guess, j);
    }
  }

  lemma {:induction false} WrongAsksCounted(c: Config, sts: seq<State>, es: seq<Event>, n: nat, m: nat)
    requires 2 <= n <= m + 2
    requires !WrongAt(c, sts, es, 0, 0) && !WrongAt(c, sts, es, 1, 0)
    requires forall i :: 2 <= i < m + 2 ==> WrongAt(c, sts, es, i, 0)
    ensures WrongBefore(c, sts, es, n, 0) == n - 2
  {
    if n > 2 {
      WrongAsksCounted(c, sts, es, n - 1, m);
    } else {
      assert WrongBefore(c, sts, es, 1, 0) == 0;
    }
  }

  /**
   Overlapping verifications escape the cap though every refusal is kept: for every `m` there is a run in which
   one code is compared with `m` wrong ones and ends up with one attempt.
   */
  lemma UnlimitedOverlappingGuesses(c: Config, email: string, wrong: string, m: nat)
    returns (sts: seq<State>, es: seq<Event>)
    requires EmailGuesses.Usable(c) && EmailGuesses.IsWrong(c, wrong) && m > 0
    ensures Overlapping(c, sts, es) && TreatsRefusals(sts, es, true) && Rising(es) && |es| == 2 * m + 2
    ensures WrongBefore(c, sts, es, m + 2, 0) == m
    ensures AttemptsOf(sts[|es|], 0) == 1 && sts[|es|].pending == map[]
  {
    var r := NewRecord(c, Normalized(c, email), None, 0, 0, 0);
    sts, es := Burst(c, email, wrong, m, r);
    assert !Matches(c, r, wrong);
    forall i | 2 <= i < m + 2
      ensures WrongAt(c, sts, es, i, 0)
    {
      assert sts[i].records == [r] && es[i] == Ask(i - 2, email, None, wrong, 0, Some(0));
    }
    WrongAsksCounted(c, sts, es, m + 2, m);
  }

  /** Two overlapping verifications with the right code are both accepted. */
  lemma BothAccepted(c: Config, email: string, right: string) returns (sts: seq<State>, es: seq<Event>)
    requires EmailGuesses.Usable(c) && !EmailGuesses.IsWrong(c, right)
    ensures Overlapping(c, sts, es) && |es| == 6 && Rising(es)
    ensures AsksAt(c, sts, es, 2, 0) && Matches(c, sts[2].records[0], es[2].submitted)
    ensures AsksAt(c, sts, es, 3, 0) && Matches(c, sts[3].records[0], es[3].submitted)
    ensures es[4].Settle? && es[4].kept && es[5].Settle? && es[5].kept && sts[6].pending == map[]
  {
    var r := NewRecord(c, Normalized(c, email), None, 0, 0, 0);
    sts, es := Burst(c, email, right, 2, r);
    assert Matches(c, r, right);
    assert sts[2].records == [r] && sts[3].records == [r];
  }

  lemma {:induction false} ConsumedStays(c: Config, sts: seq<State>, es: seq<Event>, i: nat, j: nat, k: nat)
    requires Overlapping(c, sts, es) && i <= j < |sts| && k < |sts[i].records| && sts[i].records[k].consumedAt.Some?
    ensures k < |sts[j].records| && sts[j].records[k].consumedAt.Some?
    decreases j
  {
    if i < j {
      ConsumedStays(c, sts, es, i, j - 1, k);
      assert EventAt(c, sts, es, j - 1);
    }
  }

  /** Once an acceptance is committed the code is not even compared again; only requests that read before may pass. */
  lemma NoGuessAfterAcceptance(c: Config, sts: seq<State>, es: seq<Event>, i: nat, j: nat, k: nat)
    requires Overlapping(c, sts, es) && i < j < |es| && k < |sts[i].records|
    requires es[i].Settle? && es[i].kept && GuessesAt(sts[i], es[i].w, k) && sts[i].pending[es[i].w].right
    ensures !AsksAt(c, sts, es, j, k)
  {
    assert EventAt(c, sts, es, i) && EventAt(c, sts, es, j);
    ConsumedStays(c, sts, es, i + 1, j, k);
  }

  /* ---------- Who the cap holds for ---------- */

  /** A sequential run in which refusals are rolled back is one of such a caller that lets nothing overlap. */
  lemma SequentialRefusals(c: Config, tables: seq<seq<Record>>, ops: seq<Op>, sts: seq<State>, es: seq<Event>)
    requires Run(c, tables, ops) && EmailGuesses.TreatsRefusals(c, tables, ops, false)
    requires |es| == 2 * |ops| && |sts| == 2 * |ops| + 1
    requires forall j :: 0 <= j < |sts| ==> sts[j] == StateOf(c, tables, ops, j)
    requires forall j :: 0 <= j < |es| ==> es[j] == EventOf(ops, j)
    ensures SerialGuesses(c, sts, es) && TreatsRefusals(sts, es, false)
  {
    forall i: nat, k: nat | AsksAt(c, sts, es, i, k)
      ensures forall w :: !GuessesAt(sts[i], w, k)
    {
      assert i % 2 == 0;
    }
    forall i: nat | RefusalAt(sts, es, i)
      ensures !es[i].kept
    {
      assert i % 2 == 1;
      assert EmailCodes.StepAt(c, tables, ops, i / 2);
      var op := ops[i / 2];
      assert EmailGuesses.WrongAt(c, tables, ops, i / 2, op.pick.value);
    }
  }

  lemma SequentialWrongAt(c: Config, tables: seq<seq<Record>>, ops: seq<Op>, sts: seq<State>, es: seq<Event>,
                          i: nat, k: nat)
    requires Run(c, tables, ops) && |es| == 2 * |ops| && |sts| == 2 * |ops| + 1 && i < |ops|
    requires sts[2 * i] == StateOf(c, tables, ops, 2 * i) && es[2 * i] == EventOf(ops, 2 * i)
    requires EmailGuesses.WrongAt(c, tables, ops, i, k)
    ensures WrongAt(c, sts, es, 2 * i, k)
  {
    assert (2 * i) / 2 == i && (2 * i) % 2 == 0;
  }

  ghost predicate EvenWrong(c: Config, sts: seq<State>, es: seq<Event>, i: nat, k: nat) {
    WrongAt(c, sts, es, 2 * i, k)
  }

  lemma {:induction false} EvenWrongsCounted(c: Config, sts: seq<State>, es: seq<Event>, n: nat, m: nat, k: nat)
    requires 1 <= n <= m && forall i :: 1 <= i < m ==> EvenWrong(c, sts, es, i, k)
    ensures WrongBefore(c, sts, es, 2 * n, k) >= n - 1
  {
    if n > 1 {
      EvenWrongsCounted(c, sts, es, n - 1, m, k);
      assert EvenWrong(c, sts, es, n - 1, k);
      assert WrongBefore(c, sts, es, 2 * n - 1, k) >= n - 1;
    }
  }

  /** If every operation but the first compares a wrong code, so do as many events. */
  lemma SequentialWrongs(c: Config, tables: seq<seq<Record>>, ops: seq<Op>, sts: seq<State>, es: seq<Event>, k: nat)
    requires Run(c, tables, ops) && |es| == 2 * |ops| && |sts| == 2 * |ops| + 1 && ops != []
    requires forall j :: 0 <= j < |sts| ==> sts[j] == StateOf(c, tables, ops, j)
    requires forall j :: 0 <= j < |es| ==> es[j] == EventOf(ops, j)
    requires forall i :: 1 <= i < |ops| ==> EmailGuesses.WrongAt(c, tables, ops, i, k)
    ensures WrongBefore(c, sts, es, 2 * |ops|, k) >= |ops| - 1
  {
    forall i | 1 <= i < |ops|
      ensures EvenWrong(c, sts, es, i, k)
    {
      SequentialWrongAt(c, tables, ops, sts, es, i, k);
    }
    EvenWrongsCounted(c, sts, es, |ops|, |ops|, k);
  }

  lemma SequentialRises(ops: seq<Op>, es: seq<Event>)
    requires ClockRises(ops) && |es| == 2 * |ops| && forall j :: 0 <= j < |es| ==> es[j] == EventOf(ops, j)
    ensures Rising(es)
  {
    forall i, j | 0 <= i < j < |es|
      ensures InTime(es[i], es[j])
    {
      assert i % 2 == 0 && j % 2 == 0 ==> i / 2 < j / 2;
    }
  }

  ghost predicate CapObeyed(c: Config, keeps: bool, serial: bool, sts: seq<State>, es: seq<Event>, n: nat, k: nat) {
    && Overlapping(c, sts, es) && Rising(es) && TreatsRefusals(sts, es, keeps)
    && (serial ==> SerialGuesses(c, sts, es)) && n < |sts|
    ==> WrongBefore(c, sts, es, n, k) <= Cap(c.maxAttempts)
  }

  /** In every run of such callers no record is ever compared with more wrong codes than the cap. */
  ghost predicate CapHolds(c: Config, keeps: bool, serial: bool) {
    forall sts: seq<State>, es: seq<Event>, n: nat, k: nat :: CapObeyed(c, keeps, serial, sts, es, n, k)
  }

  lemma RolledBackRunExceedsCap(c: Config, wrong: string) returns (sts: seq<State>, es: seq<Event>)
    requires EmailGuesses.Usable(c) && EmailGuesses.IsWrong(c, wrong)
    ensures Overlapping(c, sts, es) && Rising(es) && SerialGuesses(c, sts, es) && TreatsRefusals(sts, es, false)
    ensures WrongBefore(c, sts, es, |es|, 0) > Cap(c.maxAttempts)
  {
    var tables, ops := EmailGuesses.UnlimitedGuesses(c, "", wrong, c.maxAttempts + 1);
    sts, es := SequentialRunsOverlapNowhere(c, tables, ops);
    SequentialRefusals(c, tables, ops, sts, es);
    SequentialWrongs(c, tables, ops, sts, es, 0);
    SequentialRises(ops, es);
  }

  lemma OverlapExceedsCap(c: Config, keeps: bool, wrong: string)
    requires EmailGuesses.Usable(c) && EmailGuesses.IsWrong(c, wrong)
    ensures !CapHolds(c, keeps, false)
  {
    if keeps {
      var m := c.maxAttempts + 1;
      var sts, es := UnlimitedOverlappingGuesses(c, "", wrong, m);
      assert !CapObeyed(c, true, false, sts, es, m + 2, 0);
    } else {
      var sts, es := RolledBackRunExceedsCap(c, wrong);
      assert !CapObeyed(c, false, false, sts, es, |es|, 0);
    }
  }

  /**
   The cap holds if and only if callers keep the changes of refused verifications and let no two verifications of
   one record overlap.
   */
  lemma CapIsExact(c: Config, keeps: bool, serial: bool, wrong: string)
    requires EmailGuesses.Usable(c) && EmailGuesses.IsWrong(c, wrong)
    ensures CapHolds(c, keeps, serial) <==> keeps && serial
  {
    if keeps && serial {
      forall sts: seq<State>, es: seq<Event>, n: nat, k: nat
        ensures CapObeyed(c, keeps, serial, sts, es, n, k)
      {
        if Overlapping(c, sts, es) && SerialGuesses(c, sts, es) && TreatsRefusals(sts, es, true) && n < |sts| {
          SerialGuessesAreCapped(c, sts, es, n, k);
        }
      }
    } else if serial {
      var sts, es := RolledBackRunExceedsCap(c, wrong);
      assert !CapObeyed(c, keeps, serial, sts, es, |es|, 0);
    } else {
      OverlapExceedsCap(c, keeps, wrong);
    }
  }
}
