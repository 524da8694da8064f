/**
 One session appending to the audit trail on its own (`record_audit_event` in
 backend/app/services/audit_logger.py): redact, read the tail, hash, insert.
 */
module AuditSession {
  import opened Wrappers
  import opened Json
  import opened AuditTrail
  import opened AuditChain
  import opened AuditAppend
  import CanonicalScheme
  import HashedText
  import Redaction

  /**
   The event as it is stored, with the dictionary that its payload makes redacted; `None` where making one
   raises.
   */
  function Stored(rules: Redaction.Rules, e: Event): Option<Event> {
    match Summary(e.payload)
    case None => None
    case Some(summary) => Some(e.(payload := Redaction.RedactSecrets(rules, summary)))
  }

  lemma {:induction false} DictIsEmptyOnlyForEmpty(items: seq<Json>)
    ensures items != [] && DictOf(items).Some? ==> DictOf(items).value != []
  {}

  lemma SummaryIsDictionary(payload: Json)
    ensures Summary(payload).Some? ==>
              Summary(payload).value == Null || (Summary(payload).value.Obj? && Summary(payload).value.members != [])
  {
    if payload.Arr? {
      DictIsEmptyOnlyForEmpty(payload.items);
    }
  }

  /** What is stored is hashed as it is. */
  lemma StoredPayload(rules: Redaction.Rules, e: Event)
    requires Stored(rules, e).Some?
    ensures var f := Stored(rules, e).value;
            Summary(f.payload) == Some(f.payload) && f.payload == Redaction.RedactSecrets(rules, PayloadJson(e.payload))
  {
    SummaryIsDictionary(e.payload);
  }

  lemma StoredIsProper(rules: Redaction.Rules, e: Event)
    requires ProperEvent(e) && Stored(rules, e).Some?
    ensures ProperEvent(Stored(rules, e).value)
  {
    PayloadWellFormed(e.payload);
    Redaction.RedactionKeepsWellFormed(rules, Summary(e.payload).value, 0, None);
  }

  /** A dictionary is stored redacted, and what counts as false is stored as no value; nothing else is touched. */
  lemma WhatIsStored(rules: Redaction.Rules, e: Event)
    requires Stored(rules, e).Some?
    ensures var f := Stored(rules, e).value;
            && f == e.(payload := f.payload)
            && (e.payload in {Null, Bool(false), Num(0), Str(""), Arr([]), Obj([])} ==> f.payload == Null)
            && (e.payload.Obj? && e.payload.members != [] ==> f.payload == Redaction.RedactSecrets(rules, e.payload))
  {}

  /** With the backend's encoder: the row holds the hash of a text that names the columns of its event. */
  ghost predicate NamesItsEvent(s: Scheme, r: Row) {
    s == CanonicalScheme.RfcChain(s.sha) ==> exists t :: HashedText.IsHashOf(s.sha, r.thisHash, r.prevHash, r.core, t)
  }

  lemma HashedRowNamesItsEvent(s: Scheme, r: Row)
    requires ProperEvent(r.core) && HashIsCorrect(s, r)
    ensures NamesItsEvent(s, r)
  {
    if s == CanonicalScheme.RfcChain(s.sha) {
      HashedText.HashNamesEvent(s.sha, r);
    }
  }

  /** Two events that differ only in what the dictionaries of their payloads hold under sensitive keys. */
  ghost predicate SameButSecrets(rules: Redaction.Rules, e: Event, f: Event) {
    && e.(payload := Null) == f.(payload := Null)
    && Summary(e.payload).Some? == Summary(f.payload).Some?
    && Redaction.SameButSecrets(rules, PayloadJson(e.payload), PayloadJson(f.payload))
  }

  /** Secrets do not reach the chain: the two events are both hashed, and alike after any row, or neither is. */
  lemma SecretsDoNotReachTheHash(s: Scheme, rules: Redaction.Rules, prev: string, e: Event, f: Event)
    requires Canonical(s) && ProperEvent(e) && ProperEvent(f) && SameButSecrets(rules, e, f)
    ensures Stored(rules, e).Some? <==> Stored(rules, f).Some?
    ensures Stored(rules, e).Some? ==>
              ComputeChainHash(s, prev, Stored(rules, e).value) == ComputeChainHash(s, prev, Stored(rules, f).value)
  {
    if Stored(rules, e).Some? {
      Redaction.RedactionHidesSecrets(rules, PayloadJson(e.payload), PayloadJson(f.payload), 0, None);
      StoredIsProper(rules, e);
      StoredIsProper(rules, f);
      StoredPayload(rules, e);
      StoredPayload(rules, f);
      SameEventSameBytes(s, Stored(rules, e).value, Stored(rules, f).value);
    }
  }

  class Session {
    const s: Scheme
    const rules: Redaction.Rules
    /** The `audit_trail` table as this session sees it. */
    var table: seq<Row>

    ghost predicate Valid()
      reads this
    {
      GoodCommitted(s, table)
    }

    constructor (s: Scheme, lower: string -> string, sweep: string -> string, maskEmail: string -> string)
      ensures Valid() && table == [] && this.s == s && rules == Redaction.SecretRules(lower, sweep, maskEmail)
    {
      this.s := s;
      this.rules := Redaction.SecretRules(lower, sweep, maskEmail);
      table := [];
    }

    /**
     `record_audit_event`, alone on the table: whatever it answers, every tenant's chain verifies afterwards. It
     answers with the redacted event, appended right after the tenant's last row, if the payload makes a
     dictionary, what is stored encodes and neither its identifier nor its hash is taken, and with nothing
     otherwise.
     */
    method RecordAuditEvent(event: Event, notes: Annotations) returns (row: Option<Row>)
      requires Valid() && ProperEvent(event)
      modifies this
      ensures Valid() && forall t :: VerifiesCleanly(s, table, t, 1, None)
      ensures table == old(table) + if row.Some? then [row.value] else []
      ensures row == match Stored(rules, event)
                     case None => None
                     case Some(e) => Appended(s, old(table), e, notes)
      ensures row.Some? ==> row.value.position == |TenantRows(old(table), event.tenantId)| + 1
      ensures row.Some? ==> row.value.core == event.(payload := row.value.core.payload) && row.value.notes == notes
      ensures row.Some? && event.payload in {Null, Bool(false), Num(0), Str(""), Arr([]), Obj([])} ==>
                row.value.core.payload == Null
      ensures row.Some? && event.payload.Obj? && event.payload.members != [] ==>
                row.value.core.payload == Redaction.RedactSecrets(rules, event.payload)
      ensures row.Some? ==> NamesItsEvent(s, row.value)
      ensures row.Some? <==>
              Stored(rules, event).Some? && CanAppend(s, old(table), Stored(rules, event).value, notes)
    {
      row := None;
      var stored := Stored(rules, event);
      if stored.Some? {
        WhatIsStored(rules, event);
        AloneAppends(s, table, stored.value, notes);
        StoredIsProper(rules, event);
        row := Insert(stored.value, notes);
        if row.Some? {
          AppendKeepsGood(s, old(table), stored.value, notes);
        }
      }
      assert row.None? ==> table == old(table);
      forall t
        ensures VerifiesCleanly(s, table, t, 1, None)
      {
        GoodTableVerifies(s, table, t);
      }
    }

    /**
     Read the tail, hash, insert; any failure is swallowed. The row holds what it was given, and the hash of a
     text that names the event's columns.
     */
    method Insert(core: Event, notes: Annotations) returns (row: Option<Row>)
      modifies this
      ensures row == Appended(s, old(table), core, notes)
      ensures table == old(table) + if row.Some? then [row.value] else []
      ensures row.Some? ==> row.value.core == core && row.value.notes == notes
      ensures row.Some? && ProperEvent(core) ==> NamesItsEvent(s, row.value)
    {
      var (prev, position) := Tail(s, table, core.tenantId);
      var hash := ComputeChainHash(s, prev, core);
      if hash.None? {
        return None;
      }
      var r := Row(core, notes, prev, hash.value, position);
      if KeyTaken(table, r) {
        return None;
      }
      if ProperEvent(core) {
        HashedRowNamesItsEvent(s, r);
      }
      table := table + [r];
      return Some(r);
    }
  }
}
