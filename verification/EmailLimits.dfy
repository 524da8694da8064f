/**
 The hourly limit on e-mail verification codes when requests overlap
 (backend/app/services/email_verification_service.py): a request counts the codes of the last hour and inserts
 its own in a later step.
 */
module EmailLimits {
  import opened Wrappers
  import opened EmailCodes
  import opened EmailOverlap

  /** Event `i` inserts the code that a request has counted for. */
  ghost predicate InsertsAt(sts: seq<State>, es: seq<Event>, i: nat) {
    i < |es| && i < |sts| && es[i].Settle? && es[i].w in sts[i].pending && sts[i].pending[es[i].w].Code?
  }

  /** A row is stamped at most `lag` before the clock its code was counted by. */
  ghost predicate StampsLag(sts: seq<State>, es: seq<Event>, lag: Time) {
    forall i: nat :: InsertsAt(sts, es, i) ==> es[i].stamp >= sts[i].pending[es[i].w].now - lag
  }

  /** Event `i` counts the codes of the address and finds that one more may be issued. */
  ghost predicate CountsAt(c: Config, sts: seq<State>, es: seq<Event>, i: nat) {
    i < |es| && i < |sts| && es[i].Count? && MayIssue(c, sts[i].records, Normalized(c, es[i].email), es[i].now)
  }

  /** Requests for codes for one address do not overlap. */
  ghost predicate SerialIssues(c: Config, sts: seq<State>, es: seq<Event>) {
    forall i: nat :: CountsAt(c, sts, es, i) ==> forall w :: !Issues(sts[i], w, Normalized(c, es[i].email))
  }

  /** What a request has counted is still so when nobody else issues codes for the address. */
  ghost predicate StillCounts(c: Config, st: State) {
    && (forall w, u, e :: Issues(st, w, e) && Issues(st, u, e) ==> w == u)
    && (forall w, e :: Issues(st, w, e) ==> MayIssue(c, st.records, e, st.pending[w].now))
  }

  lemma GuessKeepsRows(c: Config, records: seq<Record>, p: Pending, later: Time, stamp: Time, email: string,
                       from: Time, to: Time)
    requires p.Guess?
    ensures Since(Written(c, records, p, later, stamp), email, from) == Since(records, email, from)
    ensures Within(Written(c, records, p, later, stamp), email, from, to) == Within(records, email, from, to)
  {
    var after := Written(c, records, p, later, stamp);
    assert forall i :: 0 <= i < |records| ==> IsSince(after[i], email, from) == IsSince(records[i], email, from);
    assert forall i :: 0 <= i < |records| ==>
             InWindow(after[i], email, from, to) == InWindow(records[i], email, from, to);
  }

  lemma OtherCodeKeepsCount(c: Config, records: seq<Record>, p: Pending, later: Time, stamp: Time, email: string,
                            cutoff: Time)
    requires p.Code? && p.email != email
    ensures |Since(Written(c, records, p, later, stamp), email, cutoff)| == |Since(records, email, cutoff)|
  {
    OneMore(records, NewRecord(c, p.email, p.tenantId, p.n, later, stamp), email, cutoff);
  }

  lemma SettleKeepsCounts(c: Config, st: State, e: Event)
    requires Ready(c, st, e) && e.Settle? && StillCounts(c, st)
    ensures StillCounts(c, Apply(c, st, e))
  {
    var after := Apply(c, st, e);
    forall w, email | Issues(after, w, email)
      ensures Issues(st, w, email) && MayIssue(c, after.records, email, after.pending[w].now)
    {
      assert Issues(st, w, email);
      if e.w in st.pending && e.kept {
        var p := st.pending[e.w];
        if p.Guess? {
          GuessKeepsRows(c, st.records, p, e.later, e.stamp, email, st.pending[w].now - HOUR, 0);
        } else {
          assert Issues(st, e.w, p.email) && w != e.w;
          OtherCodeKeepsCount(c, st.records, p, e.later, e.stamp, email, st.pending[w].now - HOUR);
        }
      }
    }
  }

  lemma StepKeepsCounts(c: Config, sts: seq<State>, es: seq<Event>, i: nat)
    requires Overlapping(c, sts, es) && SerialIssues(c, sts, es) && i < |es| && StillCounts(c, sts[i])
    ensures StillCounts(c, sts[i + 1])
  {
    assert EventAt(c, sts, es, i);
    var st, after, e := sts[i], sts[i + 1], es[i];
    if e.Settle? {
      SettleKeepsCounts(c, st, e);
    } else {
      forall w, email | Issues(after, w, email)
        ensures if CountsAt(c, sts, es, i) && w == e.w then email == Normalized(c, e.email) else Issues(st, w, email)
        ensures MayIssue(c, after.records, email, after.pending[w].now)
      {
        assert w != e.w ==> Issues(st, w, email);
      }
      if CountsAt(c, sts, es, i) {
        assert forall w :: !Issues(st, w, Normalized(c, e.email));
      }
    }
  }

  lemma {:induction false} CountsStillHold(c: Config, sts: seq<State>, es: seq<Event>, n: nat)
    requires Overlapping(c, sts, es) && SerialIssues(c, sts, es) && n < |sts|
    ensures StillCounts(c, sts[n])
  {
    if n > 0 {
      CountsStillHold(c, sts, es, n - 1);
      StepKeepsCounts(c, sts, es, n - 1);
    }
  }

  /** If requests for one address do not overlap the limit slides as it does for requests one after the other. */
  lemma {:induction false} SerialLimit(c: Config, sts: seq<State>, es: seq<Event>, n: nat, lag: Time, email: string,
                                       from: Time, to: Time)
    requires Overlapping(c, sts, es) && SerialIssues(c, sts, es) && StampsLag(sts, es, lag)
    requires n < |sts| && to - from <= HOUR - lag
    ensures |Within(sts[n].records, email, from, to)| <= Cap(c.maxCodesPerHour)
  {
    if n == 0 {
      assert Within([], email, from, to) == {};
    } else {
      var st, e := sts[n - 1], es[n - 1];
      SerialLimit(c, sts, es, n - 1, lag, email, from, to);
      CountsStillHold(c, sts, es, n - 1);
      assert EventAt(c, sts, es, n - 1);
      if e.Settle? && e.w in st.pending && e.kept {
        var p := st.pending[e.w];
        if p.Guess? {
          GuessKeepsRows(c, st.records, p, e.later, e.stamp, email, from, to);
        } else {
          assert InsertsAt(sts, es, n - 1) && Issues(st, e.w, p.email);
          var r := NewRecord(c, p.email, p.tenantId, p.n, e.later, e.stamp);
          IssueKeepsLimit(c, st.records, r, p.now, lag, email, from, to);
        }
      }
    }
  }

  /* ---------- Overlapping requests for codes ---------- */

  /** `m` requests count before any of them inserts. */
  ghost function RushState(r: Record, code: Pending, m: nat, j: nat): State {
    if j <= m then State([], Waiting(code, 0, j)) else State(Copies(r, j - m), Waiting(code, j - m, m))
  }

  function RushEvent(email: string, m: nat, j: nat): Event {
    if j < m then Count(j, email, None, 0, 0) else Settle(j - m, 0, 0, true)
  }

  lemma RushStep(c: Config, email: string, m: nat, r: Record, code: Pending, j: nat)
    requires c.maxCodesPerHour >= 1 && j < 2 * m && r == NewRecord(c, Normalized(c, email), None, 0, 0, 0)
    requires code == Code(Normalized(c, email), None, 0, 0)
    ensures Ready(c, RushState(r, code, m, j), RushEvent(email, m, j))
    ensures Apply(c, RushState(r, code, m, j), RushEvent(email, m, j)) == RushState(r, code, m, j + 1)
  {
    if j < m {
      assert Since([], Normalized(c, email), 0 - HOUR) == {};
      assert Waiting(code, 0, j)[j := code] == Waiting(code, 0, j + 1);
    } else {
      assert Copies(r, 0) == [];
      assert Copies(r, j - m) + [r] == Copies(r, j - m + 1);
      assert Waiting(code, j - m, m) - {j - m} == Waiting(code, j - m + 1, m);
    }
  }

  /** Overlapping requests escape the limit: for every `m` there is a run that issues `m` codes in one instant. */
  lemma UnlimitedOverlappingIssues(c: Config, email: string, m: nat) returns (sts: seq<State>, es: seq<Event>)
    requires c.maxCodesPerHour >= 1
    ensures Overlapping(c, sts, es) && StampsLag(sts, es, 0) && Rising(es) && |es| == 2 * m
    ensures |Within(sts[|es|].records, Normalized(c, email), 0, 0)| == m
  {
    var r := NewRecord(c, Normalized(c, email), None, 0, 0, 0);
    var code := Code(Normalized(c, email), None, 0, 0);
    sts := seq(2 * m + 1, j requires 0 <= j => RushState(r, code, m, j));
    es := seq(2 * m, j requires 0 <= j => RushEvent(email, m, j));
    assert Waiting(code, 0, 0) == map[];
    forall j | 0 <= j < |es|
      ensures EventAt(c, sts, es, j)
    {
      RushStep(c, email, m, r, code, j);
    }
    assert sts[2 * m].records == Copies(r, m);
    AllWithin(Copies(r, m), Normalized(c, email), 0, 0);
  }

  /** A sequential run is one in which requests for codes do not overlap. */
  lemma SequentialIssues(c: Config, tables: seq<seq<Record>>, ops: seq<Op>, sts: seq<State>, es: seq<Event>, lag: Time)
    requires Run(c, tables, ops) && StampsLagAtMost(ops, lag) && |es| == 2 * |ops| && |sts| == 2 * |ops| + 1
    requires forall j :: 0 <= j < |sts| ==> sts[j] == StateOf(c, tables, ops, j)
    requires forall j :: 0 <= j < |es| ==> es[j] == EventOf(ops, j)
    ensures SerialIssues(c, sts, es) && StampsLag(sts, es, lag)
  {
    forall i: nat | CountsAt(c, sts, es, i)
      ensures forall w :: !Issues(sts[i], w, Normalized(c, es[i].email))
    {
      assert i % 2 == 0;
    }
    forall i: nat | InsertsAt(sts, es, i)
      ensures es[i].stamp >= sts[i].pending[es[i].w].now - lag
    {
      assert i % 2 == 1;
      assert EmailCodes.StepAt(c, tables, ops, i / 2);
    }
  }

  lemma LongIntervalExceeds(c: Config, lag: Time, width: Time) returns (sts: seq<State>, es: seq<Event>)
    requires c.maxCodesPerHour >= 1 && 0 <= lag && 0 <= width && width > HOUR - lag
    ensures Overlapping(c, sts, es) && Rising(es) && SerialIssues(c, sts, es) && StampsLag(sts, es, lag)
    ensures |Within(sts[|es|].records, Normalized(c, ""), 0, width)| > Cap(c.maxCodesPerHour)
  {
    var tables, ops := LongerIntervalsExceedLimit(c, "", lag, width);
    sts, es := SequentialRunsOverlapNowhere(c, tables, ops);
    SequentialIssues(c, tables, ops, sts, es, lag);
    SequentialRises(ops, es);
    assert sts[2 * |ops|] == StateOf(c, tables, ops, 2 * |ops|);
  }

  ghost predicate LimitObeyed(c: Config, lag: Time, width: Time, serial: bool, sts: seq<State>, es: seq<Event>,
                              n: nat, email: string, from: Time)
  {
    && Overlapping(c, sts, es) && Rising(es) && StampsLag(sts, es, lag)
    && (serial ==> SerialIssues(c, sts, es)) && n < |sts|
    ==> |Within(sts[n].records, email, from, from + width)| <= Cap(c.maxCodesPerHour)
  }

  ghost predicate LimitHolds(c: Config, lag: Time, width: Time, serial: bool) {
    forall sts: seq<State>, es: seq<Event>, n: nat, email: string, from: Time ::
      LimitObeyed(c, lag, width, serial, sts, es, n, email, from)
  }

  lemma SubWindow(records: seq<Record>, email: string, from: Time, to: Time, wide: Time)
    requires to <= wide
    ensures |Within(records, email, from, to)| <= |Within(records, email, from, wide)|
  {
    SubsetSize(Within(records, email, from, to), Within(records, email, from, wide));
  }

  lemma OverlapExceedsLimit(c: Config, lag: Time, width: Time)
    requires c.maxCodesPerHour >= 1 && lag >= 0 && width >= 0
    ensures !LimitHolds(c, lag, width, false)
  {
    var m := c.maxCodesPerHour + 1;
    var sts, es := UnlimitedOverlappingIssues(c, "", m);
    SubWindow(sts[|es|].records, Normalized(c, ""), 0, 0, width);
    assert forall i: nat :: InsertsAt(sts, es, i) ==> es[i].stamp >= sts[i].pending[es[i].w].now - 0;
    assert !LimitObeyed(c, lag, width, false, sts, es, |es|, Normalized(c, ""), 0);
  }

  /**
   The limit holds in every run for intervals of a given length if and only if requests for codes for one address
   do not overlap and the length is at most an hour less the lag of the stamps.
   */
  lemma LimitIsExact(c: Config, lag: Time, width: Time, serial: bool)
    requires c.maxCodesPerHour >= 1 && lag >= 0 && width >= 0
    ensures LimitHolds(c, lag, width, serial) <==> serial && width <= HOUR - lag
  {
    if !serial {
      OverlapExceedsLimit(c, lag, width);
    } else if width <= HOUR - lag {
      forall sts: seq<State>, es: seq<Event>, n: nat, email: string, from: Time
        ensures LimitObeyed(c, lag, width, serial, sts, es, n, email, from)
      {
        if Overlapping(c, sts, es) && StampsLag(sts, es, lag) && SerialIssues(c, sts, es) && n < |sts| {
          SerialLimit(c, sts, es, n, lag, email, from, from + width);
        }
      }
    } else {
      var sts, es := LongIntervalExceeds(c, lag, width);
      assert !LimitObeyed(c, lag, width, serial, sts, es, |es|, Normalized(c, ""), 0);
    }
  }
}
