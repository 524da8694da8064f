/**
 Guessing and consuming e-mail verification codes (`verify_code` in
 backend/app/services/email_verification_service.py): what the cap on attempts bounds, and for which callers.
 */
module EmailGuesses {
  import opened Wrappers
  import opened Text
  import opened EmailCodes

  /** Operation `i` compares a code with record `k`, whether or not its changes are kept. */
  ghost predicate GuessAt(c: Config, tables: seq<seq<Record>>, ops: seq<Op>, i: nat, k: nat)
    requires Run(c, tables, ops) && i < |ops|
  {
    ops[i].Verify? && ops[i].pick == Some(k) && k < |tables[i]| && Guesses(c, tables[i][k], ops[i].now)
  }

  ghost function GuessesBefore(c: Config, tables: seq<seq<Record>>, ops: seq<Op>, n: nat, k: nat): set<int>
    requires Run(c, tables, ops) && n <= |ops|
  {
    set i | 0 <= i < n && GuessAt(c, tables, ops, i, k)
  }

  ghost function KeptBefore(c: Config, tables: seq<seq<Record>>, ops: seq<Op>, n: nat, k: nat): set<int>
    requires Run(c, tables, ops) && n <= |ops|
  {
    set i | 0 <= i < n && GuessAt(c, tables, ops, i, k) && ops[i].kept
  }

  /** Comparisons whose changes the caller rolled back. */
  ghost function LostBefore(c: Config, tables: seq<seq<Record>>, ops: seq<Op>, n: nat, k: nat): set<int>
    requires Run(c, tables, ops) && n <= |ops|
  {
    set i | 0 <= i < n && GuessAt(c, tables, ops, i, k) && !ops[i].kept
  }

  /** What operation `n` does to record `k`. */
  lemma RecordStep(c: Config, tables: seq<seq<Record>>, ops: seq<Op>, n: nat, k: nat)
    requires Run(c, tables, ops) && n < |ops|
    ensures |tables[n]| <= |tables[n + 1]|
    ensures k < |tables[n]| ==>
              tables[n + 1][k] == if GuessAt(c, tables, ops, n, k) && ops[n].kept
                                  then AfterGuess(c, tables[n][k], ops[n].submitted, ops[n].later)
                                  else tables[n][k]
    ensures |tables[n]| <= k < |tables[n + 1]| ==>
              && k == |tables[n]| && ops[n].Issue? && ops[n].kept
              && tables[n + 1][k] == NewRecord(c, Normalized(c, ops[n].email), ops[n].tenantId, ops[n].n,
                                               ops[n].later, ops[n].stamp)
  {
    assert StepAt(c, tables, ops, n);
  }

  lemma KeptStep(c: Config, tables: seq<seq<Record>>, ops: seq<Op>, n: nat, k: nat)
    requires Run(c, tables, ops) && n < |ops|
    ensures |KeptBefore(c, tables, ops, n + 1, k)| ==
            |KeptBefore(c, tables, ops, n, k)| + if GuessAt(c, tables, ops, n, k) && ops[n].kept then 1 else 0
  {
    assert KeptBefore(c, tables, ops, n + 1, k) ==
           KeptBefore(c, tables, ops, n, k) + if GuessAt(c, tables, ops, n, k) && ops[n].kept then {n} else {};
  }

  function AttemptsOf(records: seq<Record>, k: nat): nat {
    if k < |records| then records[k].attempts else 0
  }

  /** The attempts of a record count the kept comparisons, and never exceed the cap. */
  lemma {:induction false} AttemptsCountKept(c: Config, tables: seq<seq<Record>>, ops: seq<Op>, n: nat, k: nat)
    requires Run(c, tables, ops) && n <= |ops|
    ensures AttemptsOf(tables[n], k) == |KeptBefore(c, tables, ops, n, k)| <= Cap(c.maxAttempts)
  {
    if n > 0 {
      AttemptsCountKept(c, tables, ops, n - 1, k);
      RecordStep(c, tables, ops, n - 1, k);
      KeptStep(c, tables, ops, n - 1, k);
    }
  }

  /**
   Counting every comparison ever made with a record: as many as its attempts and those that were rolled back.
   The cap bounds the attempts, and nothing bounds the others.
   */
  lemma AttemptsCountGuesses(c: Config, tables: seq<seq<Record>>, ops: seq<Op>, n: nat, k: nat)
    requires Run(c, tables, ops) && n <= |ops|
    ensures |GuessesBefore(c, tables, ops, n, k)| == AttemptsOf(tables[n], k) + |LostBefore(c, tables, ops, n, k)|
    ensures AttemptsOf(tables[n], k) <= Cap(c.maxAttempts)
  {
    AttemptsCountKept(c, tables, ops, n, k);
    var kept, lost := KeptBefore(c, tables, ops, n, k), LostBefore(c, tables, ops, n, k);
    assert GuessesBefore(c, tables, ops, n, k) == kept + lost;
    assert kept !! lost;
  }

  /* ---------- Who the cap holds for ---------- */

  /** Operation `i` compares a wrong code with record `k`. */
  ghost predicate WrongAt(c: Config, tables: seq<seq<Record>>, ops: seq<Op>, i: nat, k: nat)
    requires Run(c, tables, ops) && i < |ops|
  {
    GuessAt(c, tables, ops, i, k) && !Matches(c, tables[i][k], ops[i].submitted)
  }

  ghost function WrongBefore(c: Config, tables: seq<seq<Record>>, ops: seq<Op>, n: nat, k: nat): set<int>
    requires Run(c, tables, ops) && n <= |ops|
  {
    set i | 0 <= i < n && WrongAt(c, tables, ops, i, k)
  }

  /** The caller keeps the changes of every refused verification, or rolls all of them back. */
  ghost predicate TreatsRefusals(c: Config, tables: seq<seq<Record>>, ops: seq<Op>, keeps: bool)
    requires Run(c, tables, ops)
  {
    forall i: nat, k: nat :: i < |ops| && WrongAt(c, tables, ops, i, k) ==> ops[i].kept == keeps
  }

  lemma KeptRefusalsAreCapped(c: Config, tables: seq<seq<Record>>, ops: seq<Op>, n: nat, k: nat)
    requires Run(c, tables, ops) && n <= |ops| && TreatsRefusals(c, tables, ops, true)
    ensures |WrongBefore(c, tables, ops, n, k)| <= Cap(c.maxAttempts)
  {
    AttemptsCountKept(c, tables, ops, n, k);
    forall i | i in WrongBefore(c, tables, ops, n, k)
      ensures i in KeptBefore(c, tables, ops, n, k)
    {
      assert WrongAt(c, tables, ops, i, k);
    }
    SubsetSize(WrongBefore(c, tables, ops, n, k), KeptBefore(c, tables, ops, n, k));
  }

  /**
   A caller that rolls refusals back never uses up an attempt: until a record is consumed it has none, in
   every run, so no verification is ever answered with exhausted attempts.
   */
  lemma {:induction false} RolledBackRefusalsCostNothing(c: Config, tables: seq<seq<Record>>, ops: seq<Op>,
                                                         n: nat, k: nat)
    requires Run(c, tables, ops) && n <= |ops| && TreatsRefusals(c, tables, ops, false)
    requires k < |tables[n]| && tables[n][k].consumedAt.None?
    ensures tables[n][k].attempts == 0
  {
    RecordStep(c, tables, ops, n - 1, k);
    if k < |tables[n - 1]| {
      assert GuessAt(c, tables, ops, n - 1, k) && ops[n - 1].kept ==> !WrongAt(c, tables, ops, n - 1, k);
      RolledBackRefusalsCostNothing(c, tables, ops, n - 1, k);
    }
  }

  function OneTo(m: nat): set<int> {
    if m == 0 then {} else OneTo(m - 1) + {m}
  }

  lemma {:induction false} OneToHolds(m: nat)
    ensures |OneTo(m)| == m && forall i :: i in OneTo(m) <==> 1 <= i <= m
  {
    if m > 0 {
      OneToHolds(m - 1);
    }
  }

  /** A code that does not pass for the code 000000. */
  ghost predicate IsWrong(c: Config, wrong: string) {
    HashCode(c, c.strip(wrong)) != HashCode(c, CodeText(0))
  }

  /** The configuration issues codes that are valid for a while and allow a guess. */
  predicate Usable(c: Config) {
    c.maxCodesPerHour >= 1 && c.ttlMinutes >= 1 && c.maxAttempts >= 1
  }

  lemma RefusedStep(c: Config, email: string, r: Record, wrong: string)
    requires Usable(c) && IsWrong(c, wrong) && r == NewRecord(c, Normalized(c, email), None, 0, 0, 0)
    ensures Guesses(c, r, 0) && !Matches(c, r, wrong)
    ensures Next(c, [r], Verify(email, None, wrong, 0, 0, Some(0), false), [r])
  {
    assert IsCandidate(r, Normalized(c, email), None);
  }

  /** One code is issued and then compared with the wrong one, over and over. */
  lemma GuessingRun(c: Config, email: string, wrong: string, m: nat, r: Record)
    returns (tables: seq<seq<Record>>, ops: seq<Op>)
    requires Usable(c) && IsWrong(c, wrong) && r == NewRecord(c, Normalized(c, email), None, 0, 0, 0)
    ensures Run(c, tables, ops) && |ops| == m + 1 && ops[0] == Issue(email, None, 0, 0, 0, 0, true)
    ensures forall i :: 1 <= i <= m ==> ops[i] == Verify(email, None, wrong, 0, 0, Some(0), false)
    ensures forall i :: 1 <= i <= m + 1 ==> tables[i] == [r]
  {
    ops := [Issue(email, None, 0, 0, 0, 0, true)] + seq(m, _ => Verify(email, None, wrong, 0, 0, Some(0), false));
    tables := [[]] + seq(m + 1, _ => [r]);
    IssueAtOnce(c, email, r, 0);
    assert Copies(r, 0) == [] && Copies(r, 1) == [r];
    forall i | 0 <= i < |ops|
      ensures StepAt(c, tables, ops, i)
    {
      if i > 0 {
        RefusedStep(c, email, r, wrong);
      }
    }
  }

  /**
   For such a caller wrong guesses are unlimited: for every `m` there is a run in which one code is compared
   with `m` wrong ones and its row is as it was issued.
   */
  lemma UnlimitedGuesses(c: Config, email: string, wrong: string, m: nat)
    returns (tables: seq<seq<Record>>, ops: seq<Op>)
    requires Usable(c) && IsWrong(c, wrong)
    ensures Run(c, tables, ops) && |ops| == m + 1 && ClockRises(ops) && TreatsRefusals(c, tables, ops, false)
    ensures |WrongBefore(c, tables, ops, m + 1, 0)| == m && tables[m + 1] == tables[1] && |tables[1]| == 1
    ensures forall i :: 1 <= i <= m ==> WrongAt(c, tables, ops, i, 0)
  {
    var r := NewRecord(c, Normalized(c, email), None, 0, 0, 0);
    tables, ops := GuessingRun(c, email, wrong, m, r);
    RefusedStep(c, email, r, wrong);
    forall i | 0 <= i < m + 1
      ensures WrongAt(c, tables, ops, i, 0) <==> 1 <= i
    {
      assert i > 0 ==> tables[i] == [r];
    }
    OneToHolds(m);
    assert WrongBefore(c, tables, ops, m + 1, 0) == OneTo(m);
  }

  ghost predicate CapObeyed(c: Config, keeps: bool, tables: seq<seq<Record>>, ops: seq<Op>, n: nat, k: nat) {
    Run(c, tables, ops) && ClockRises(ops) && TreatsRefusals(c, tables, ops, keeps) && n <= |ops| ==>
      |WrongBefore(c, tables, ops, n, k)| <= Cap(c.maxAttempts)
  }

  /** In every run of such a caller no record is ever compared with more wrong codes than the cap. */
  ghost predicate CapHolds(c: Config, keeps: bool) {
    forall tables: seq<seq<Record>>, ops: seq<Op>, n: nat, k: nat :: CapObeyed(c, keeps, tables, ops, n, k)
  }

  /** The cap holds for a caller if and only if it keeps the changes of refused verifications. */
  lemma CapHoldsIfRefusalsAreKept(c: Config, keeps: bool, wrong: string)
    requires Usable(c) && IsWrong(c, wrong)
    ensures CapHolds(c, keeps) <==> keeps
  {
    if keeps {
      forall tables: seq<seq<Record>>, ops: seq<Op>, n: nat, k: nat
        ensures CapObeyed(c, keeps, tables, ops, n, k)
      {
        if Run(c, tables, ops) && TreatsRefusals(c, tables, ops, keeps) && n <= |ops| {
          KeptRefusalsAreCapped(c, tables, ops, n, k);
        }
      }
    } else {
      var m := c.maxAttempts + 1;
      var tables, ops := UnlimitedGuesses(c, "", wrong, m);
      assert !CapObeyed(c, keeps, tables, ops, m + 1, 0);
    }
  }

  /* ---------- Consumption ---------- */

  /** Once consumed, a record stays as it is. */
  lemma {:induction false} ConsumedStays(c: Config, tables: seq<seq<Record>>, ops: seq<Op>, i: nat, j: nat, k: nat)
    requires Run(c, tables, ops) && i <= j <= |ops| && k < |tables[i]| && tables[i][k].consumedAt.Some?
    ensures k < |tables[j]| && tables[j][k] == tables[i][k]
    decreases j
  {
    if i < j {
      ConsumedStays(c, tables, ops, i, j - 1, k);
      RecordStep(c, tables, ops, j - 1, k);
      assert StepAt(c, tables, ops, j - 1);
    }
  }

  /** Operation `i` accepts record `k`, whether or not the acceptance is kept. */
  ghost predicate AcceptsAt(c: Config, tables: seq<seq<Record>>, ops: seq<Op>, i: nat, k: nat)
    requires Run(c, tables, ops) && i < |ops|
  {
    StepAt(c, tables, ops, i) && Do(c, tables[i], ops[i]).1 == Consumed(k)
  }

  /** A code is accepted at most once, unless the acceptance is rolled back; then the table is as before. */
  lemma ConsumedAtMostOnce(c: Config, tables: seq<seq<Record>>, ops: seq<Op>, i: nat, j: nat, k: nat)
    requires Run(c, tables, ops) && i < j < |ops| && AcceptsAt(c, tables, ops, i, k)
    ensures if ops[i].kept then !AcceptsAt(c, tables, ops, j, k) else tables[i + 1] == tables[i]
  {
    if ops[i].kept {
      ConsumedStays(c, tables, ops, i + 1, j, k);
    }
  }

  /* ---------- Whose code is accepted ---------- */

  /** Operation `i` issued record `k`. */
  ghost predicate IssuedBy(c: Config, tables: seq<seq<Record>>, ops: seq<Op>, i: nat, k: nat, r: Record)
    requires Run(c, tables, ops)
  {
    i < |ops| && ops[i].Issue? && ops[i].kept && |tables[i]| == k && ops[i].n < Pow10(CODE_LENGTH) &&
    var r0 := NewRecord(c, Normalized(c, ops[i].email), ops[i].tenantId, ops[i].n, ops[i].later, ops[i].stamp);
    r.(attempts := 0, consumedAt := None) == r0
  }

  lemma {:induction false} RecordWasIssued(c: Config, tables: seq<seq<Record>>, ops: seq<Op>, n: nat, k: nat)
    returns (i: nat)
    requires Run(c, tables, ops) && n <= |ops| && k < |tables[n]|
    ensures i < n && IssuedBy(c, tables, ops, i, k, tables[n][k])
  {
    RecordStep(c, tables, ops, n - 1, k);
    if k < |tables[n - 1]| {
      i := RecordWasIssued(c, tables, ops, n - 1, k);
    } else {
      assert StepAt(c, tables, ops, n - 1);
      i := n - 1;
    }
  }

  lemma CodesApart(c: Config, code: string, other: string)
    requires HashCode(c, code).Some? && HashCode(c, code) == HashCode(c, other)
    ensures code == other || (Utf8(code + Pepper(c)) != Utf8(other + Pepper(c))
                              && c.sha(Utf8(code + Pepper(c))) == c.sha(Utf8(other + Pepper(c))))
  {
    HexInjective(c.sha(Utf8(code + Pepper(c))), c.sha(Utf8(other + Pepper(c))));
    if Utf8(code + Pepper(c)) == Utf8(other + Pepper(c)) {
      Utf8Injective(code + Pepper(c), other + Pepper(c));
      var n := |Pepper(c)|;
      assert |code| == |other|;
      assert code == (code + Pepper(c))[..|code|] && other == (other + Pepper(c))[..|other|];
    }
  }

  /**
   A code is accepted only for the address and tenant it was issued to, before it expires, and only if it is
   the code that was sent, unless two codes collide.
   */
  lemma AcceptedCodeWasIssued(c: Config, tables: seq<seq<Record>>, ops: seq<Op>, j: nat, k: nat) returns (i: nat)
    requires Run(c, tables, ops) && j < |ops| && AcceptsAt(c, tables, ops, j, k)
    ensures i < j && ops[i].Issue? && ops[i].kept && ops[j].Verify?
    ensures Normalized(c, ops[i].email) == Normalized(c, ops[j].email)
    ensures ops[j].tenantId.Some? ==> ops[i].tenantId == ops[j].tenantId
    ensures ops[j].now < ops[i].later + c.ttlMinutes * MINUTE
    ensures var sent, given := CodeText(ops[i].n), c.strip(ops[j].submitted);
            sent == given || c.sha(Utf8(sent + Pepper(c))) == c.sha(Utf8(given + Pepper(c)))
  {
    i := RecordWasIssued(c, tables, ops, j, k);
    var sent, given := CodeText(ops[i].n), c.strip(ops[j].submitted);
    assert Some(tables[j][k].codeHash) == HashCode(c, sent);
    CodesApart(c, sent, given);
  }
}
