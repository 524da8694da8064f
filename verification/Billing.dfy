/**
 The billing projection (backend/app/services/billing_service.py and billing_webhooks.py): subscriptions
 driven by payment webhooks, by pausing and resuming, and by sweeps that end the grace period.
 */
module Billing {
  import opened Wrappers

  datatype Status = Incomplete | Trialing | Active | PastDue | Canceled | Unpaid | Paused

  /** `ALLOWED_TRANSITIONS` */
  function AllowedTransitions(from: Status): set<Status> {
    match from
    case Incomplete => {Trialing, Active, Canceled, Incomplete}
    case Trialing => {Active, PastDue, Canceled, Trialing}
    case Active => {PastDue, Canceled, Paused, Unpaid, Active}
    case PastDue => {Active, Unpaid, Canceled, PastDue}
    case Unpaid => {Active, Canceled, Unpaid}
    case Paused => {Active, Canceled, Paused}
    case Canceled => {Canceled}
  }

  predicate IsAllowedTransition(from: Status, to: Status) {
    to in AllowedTransitions(from)
  }

  /** Instants are counted in microseconds. */
  type Time = int

  const DAY: Time := 86_400_000_000

  datatype Subscription = Subscription(tenantId: string, status: Status, pastDueSince: Option<Time>,
                                       canceledAt: Option<Time>, setupPaid: bool)

  /**
   Subscriptions by their Stripe identifier, `is_active` by tenant, and the tenant of each Stripe customer.
   An identifier that is missing in an event is the empty string, as the handlers treat both alike.
   */
  datatype Projection = Projection(subs: map<string, Subscription>, tenants: map<string, bool>,
                                   customers: map<string, string>)

  datatype InvoiceKind = Paid | PaymentFailed | ActionRequired | OtherInvoice

  /**
   `SetFlag` stands for the writes of `is_active` outside billing: onboarding sets it when an address is
   verified (backend/app/api/v1/onboarding.py).
   */
  datatype Op =
    | CheckoutCompleted(tenant: string, customer: string, sub: string)
    | SubscriptionChanged(sub: string, customer: string, status: Option<Status>, canceledAt: Option<Time>)
    | SubscriptionDeleted(sub: string, customer: string, canceledAt: Option<Time>)
    | Invoice(kind: InvoiceKind, invoice: string, customer: string, sub: string)
    | Pause(sub: string)
    | Resume(sub: string)
    | Sweep(sub: string, at: Option<Time>, days: int)
    | SetFlag(tenant: string, on: bool)

  /* ---------- What each operation does ---------- */

  /** `_apply_tenant_gating` */
  function Gate(tenants: map<string, bool>, tenantId: string, status: Status): map<string, bool> {
    if tenantId !in tenants || Decision(status).None? then tenants else tenants[tenantId := Decision(status).value]
  }

  /** What a status decides about `is_active`, if anything. */
  function Decision(status: Status): Option<bool> {
    match status
    case Canceled => Some(false)
    case Active => Some(true)
    case Trialing => Some(true)
    case _ => None
  }

  /** The row after `transition_status` at clock `now`. */
  function Moved(sub: Subscription, to: Status, now: Time): Subscription {
    sub.(status := to,
         pastDueSince := if to == PastDue && sub.status != PastDue then Some(now)
                         else if to == Active then None
                         else sub.pastDueSince,
         canceledAt := if to == Canceled && sub.canceledAt.None? then Some(now) else sub.canceledAt)
  }

  function Put(p: Projection, k: string, sub: Subscription): Projection {
    p.(subs := p.subs[k := sub], tenants := Gate(p.tenants, sub.tenantId, sub.status))
  }

  function Transition(p: Projection, k: string, to: Status, now: Time): Projection
    requires k in p.subs
  {
    Put(p, k, Moved(p.subs[k], to, now))
  }

  function NewSubscription(tenantId: string): Subscription {
    Subscription(tenantId, Incomplete, None, None, false)
  }

  /** The row an upsert starts from. */
  function RowFor(p: Projection, k: string, tenantId: string): Subscription {
    if k in p.subs then p.subs[k] else NewSubscription(tenantId)
  }

  /** The row after `upsert_subscription_from_stripe`. */
  function Upserted(row: Subscription, status: Status, canceledAt: Option<Time>, now: Time): Subscription {
    var stamped := if canceledAt.Some? then row.(canceledAt := canceledAt) else row;
    if status == row.status then stamped else Moved(stamped, status, now)
  }

  function Upsert(p: Projection, tenantId: string, k: string, status: Status, canceledAt: Option<Time>,
                  now: Time): Projection {
    Put(p, k, Upserted(RowFor(p, k, tenantId), status, canceledAt, now))
  }

  /** The customer identifier is another tenant's: the unique index makes the insert raise. */
  predicate CustomerTaken(p: Projection, tenantId: string, customer: string) {
    customer in p.customers && p.customers[customer] != tenantId
  }

  function WithCustomer(p: Projection, tenantId: string, customer: string): Projection {
    p.(customers := (map c | c in p.customers && p.customers[c] != tenantId :: p.customers[c])[customer := tenantId])
  }

  /** A row for a tenant that does not exist: the foreign key makes the insert raise. */
  predicate TenantMissing(p: Projection, tenantId: string, isNew: bool) {
    isNew && tenantId !in p.tenants
  }

  /** The checkout raises: the customer is another tenant's, or a row would be inserted for a tenant there is not. */
  predicate CheckoutRaises(p: Projection, tenant: string, customer: string, sub: string) {
    tenant != "" &&
    (|| (customer != "" && (CustomerTaken(p, tenant, customer) || TenantMissing(p, tenant, customer !in p.customers)))
     || (sub != "" && TenantMissing(p, tenant, sub !in p.subs)))
  }

  function AfterCheckout(p: Projection, tenant: string, customer: string, sub: string, now: Time): Projection {
    if tenant == "" || CheckoutRaises(p, tenant, customer, sub) then p
    else
      var q := if customer != "" then WithCustomer(p, tenant, customer) else p;
      if sub == "" then q
      else
        var r := Upsert(q, tenant, sub, Active, None, now);
        r.(subs := r.subs[sub := r.subs[sub].(setupPaid := true)])
  }

  /** `_resolve_tenant_id` */
  function TenantOf(p: Projection, customer: string): string {
    if customer != "" && customer in p.customers then p.customers[customer] else ""
  }

  /** The tenant a subscription event is about: its customer's, or that of the row there is. */
  function EventTenant(p: Projection, sub: string, customer: string): string {
    if TenantOf(p, customer) != "" then TenantOf(p, customer)
    else if sub in p.subs then p.subs[sub].tenantId
    else ""
  }

  function AfterSubscriptionEvent(p: Projection, sub: string, customer: string, status: Status,
                                  canceledAt: Option<Time>, now: Time): Projection {
    var tenant := EventTenant(p, sub, customer);
    if sub == "" || tenant == "" || TenantMissing(p, tenant, sub !in p.subs) then p
    else Upsert(p, tenant, sub, status, canceledAt, now)
  }

  function InvoiceStatus(kind: InvoiceKind): Option<Status> {
    match kind
    case Paid => Some(Active)
    case PaymentFailed => Some(PastDue)
    case ActionRequired => Some(PastDue)
    case OtherInvoice => None
  }

  function AfterInvoice(p: Projection, kind: InvoiceKind, invoice: string, customer: string, sub: string,
                        now: Time): Projection {
    if invoice == "" || TenantOf(p, customer) == "" || sub == "" || sub !in p.subs || InvoiceStatus(kind).None? then p
    else Transition(p, sub, InvoiceStatus(kind).value, now)
  }

  predicate GraceIsOver(sub: Subscription, now: Time, days: int) {
    sub.status == PastDue && sub.pastDueSince.Some? && now >= sub.pastDueSince.value + days * DAY
  }

  function ClockOr(at: Option<Time>, now: Time): Time {
    if at.Some? then at.value else now
  }

  function Apply(p: Projection, op: Op, now: Time): Projection {
    match op
    case CheckoutCompleted(tenant, customer, sub) => AfterCheckout(p, tenant, customer, sub, now)
    case SubscriptionChanged(sub, customer, status, canceledAt) =>
      AfterSubscriptionEvent(p, sub, customer, if status.Some? then status.value else Incomplete, canceledAt, now)
    case SubscriptionDeleted(sub, customer, canceledAt) =>
      AfterSubscriptionEvent(p, sub, customer, Canceled, canceledAt, now)
    case Invoice(kind, invoice, customer, sub) => AfterInvoice(p, kind, invoice, customer, sub, now)
    case Pause(sub) =>
      if sub in p.subs && IsAllowedTransition(p.subs[sub].status, Paused) then Transition(p, sub, Paused, now) else p
    case Resume(sub) =>
      if sub in p.subs && IsAllowedTransition(p.subs[sub].status, Active) then Transition(p, sub, Active, now) else p
    case Sweep(sub, at, days) =>
      if sub in p.subs && GraceIsOver(p.subs[sub], ClockOr(at, now), days) then Transition(p, sub, Unpaid, now) else p
    case SetFlag(tenant, on) => if tenant in p.tenants then p.(tenants := p.tenants[tenant := on]) else p
  }

  /** The tenant a subscription event is billed to: that of the customer, or else that of the subscription. */
  function BilledTenant(p: Projection, sub: string, customer: string): Option<string> {
    if customer != "" && customer in p.customers && p.customers[customer] != "" then Some(p.customers[customer])
    else if sub in p.subs && p.subs[sub].tenantId != "" then Some(p.subs[sub].tenantId)
    else None
  }

  /** From where each status may be reached. */
  lemma WhereStatusesComeFrom(from: Status, to: Status)
    ensures IsAllowedTransition(from, to) <==>
            from in match to
                    case Incomplete => {Incomplete}
                    case Trialing => {Incomplete, Trialing}
                    case Active => {Incomplete, Trialing, Active, PastDue, Unpaid, Paused}
                    case PastDue => {Trialing, Active, PastDue}
                    case Canceled => {Incomplete, Trialing, Active, PastDue, Unpaid, Paused, Canceled}
                    case Unpaid => {Active, PastDue, Unpaid}
                    case Paused => {Active, Paused}
  {}

  /* ---------- The service ---------- */

  class BillingService {
    var subs: map<string, Subscription>
    var tenants: map<string, bool>
    var customers: map<string, string>

    constructor (tenants: map<string, bool>)
      ensures Current() == Projection(map[], tenants, map[])
    {
      this.subs, this.tenants, this.customers := map[], tenants, map[];
    }

    function Current(): Projection
      reads this
    {
      Projection(subs, tenants, customers)
    }

    method ApplyTenantGating(tenantId: string, status: Status)
      modifies this`tenants
      ensures tenants == Gate(old(tenants), tenantId, status)
      ensures tenants == if tenantId !in old(tenants) || status !in {Active, Trialing, Canceled} then old(tenants)
                         else old(tenants)[tenantId := status != Canceled]
    {
      if tenantId !in tenants {
        return;
      }
      if status == Canceled {
        tenants := tenants[tenantId := false];
      } else if status in {Active, Trialing} {
        tenants := tenants[tenantId := true];
      }
    }

    /** `transition_status`; a strict call raises on a transition that is not allowed. */
    method TransitionStatus(k: string, to: Status, strict: bool, now: Time) returns (raised: bool)
      requires k in subs
      modifies this`subs, this`tenants
      ensures raised <==> strict && !IsAllowedTransition(old(subs)[k].status, to)
      ensures Current() == if raised then old(Current()) else Transition(old(Current()), k, to, now)
      ensures !raised ==>
                var row := old(subs)[k];
                subs == old(subs)[k := Subscription(
                  row.tenantId, to,
                  if to == PastDue && row.status != PastDue then Some(now)
                  else if to == Active then None
                  else row.pastDueSince,
                  if to == Canceled && row.canceledAt.None? then Some(now) else row.canceledAt, row.setupPaid)]
    {
      var row := subs[k];
      if to !in AllowedTransitions(row.status) && strict {
        return true;
      }
      var previous := row.status;
      row := row.(status := to);
      if to == PastDue && previous != PastDue {
        row := row.(pastDueSince := Some(now));
      }
      if to == Active {
        row := row.(pastDueSince := None);
      }
      if to == Canceled && row.canceledAt.None? {
        row := row.(canceledAt := Some(now));
      }
      subs := subs[k := row];
      ApplyTenantGating(row.tenantId, to);
      return false;
    }

    method ApplyGracePeriod(k: string, at: Option<Time>, days: int, now: Time)
      requires k in subs
      modifies this`subs, this`tenants
      ensures Current() == Apply(old(Current()), Sweep(k, at, days), now)
      ensures k in subs && subs[k].status ==
              var row, clock := old(subs)[k], if at.Some? then at.value else now;
              if row.status == PastDue && row.pastDueSince.Some? &&
                 clock >= row.pastDueSince.value + days * 86_400_000_000
              then Unpaid else row.status
    {
      if subs[k].status != PastDue {
        return;
      }
      if subs[k].pastDueSince.None? {
        return;
      }
      var effective := if at.Some? then at.value else now;
      var boundary := subs[k].pastDueSince.value + days * DAY;
      if effective >= boundary {
        var _ := TransitionStatus(k, Unpaid, false, now);
      }
    }

    method PauseSubscription(k: string, now: Time) returns (raised: bool)
      requires k in subs
      modifies this`subs, this`tenants
      ensures raised <==> old(subs)[k].status !in {Active, Paused}
      ensures Current() == Apply(old(Current()), Pause(k), now)
      ensures k in subs && subs[k].status == if raised then old(subs)[k].status else Paused
    {
      raised := TransitionStatus(k, Paused, true, now);
    }

    method ResumeSubscription(k: string, now: Time) returns (raised: bool)
      requires k in subs
      modifies this`subs, this`tenants
      ensures raised <==> old(subs)[k].status == Canceled
      ensures Current() == Apply(old(Current()), Resume(k), now)
      ensures k in subs && subs[k].status == if raised then old(subs)[k].status else Active
    {
      raised := TransitionStatus(k, Active, true, now);
    }

    method UpsertSubscriptionFromStripe(tenantId: string, k: string, status: Status, canceledAt: Option<Time>,
                                        now: Time)
      modifies this`subs, this`tenants
      ensures Current() == Upsert(old(Current()), tenantId, k, status, canceledAt, now)
      ensures k in subs && subs[k].status == status
      ensures subs[k].tenantId == if k in old(subs) then old(subs)[k].tenantId else tenantId
      ensures canceledAt.Some? ==> subs[k].canceledAt == canceledAt
      ensures k !in old(subs) ==>
                && subs[k].pastDueSince == (if status == PastDue then Some(now) else None) && !subs[k].setupPaid
                && (canceledAt.None? ==> subs[k].canceledAt == if status == Canceled then Some(now) else None)
    {
      var row := if k in subs then subs[k] else NewSubscription(tenantId);
      if canceledAt.Some? {
        row := row.(canceledAt := canceledAt);
      }
      subs := subs[k := row];
      if status != row.status {
        ghost var middle := Current();
        var _ := TransitionStatus(k, status, false, now);
        assert subs == middle.subs[k := Moved(row, status, now)] == old(subs)[k := Moved(row, status, now)];
      } else {
        ApplyTenantGating(row.tenantId, row.status);
      }
    }

    method HandleCheckoutCompleted(tenant: string, customer: string, sub: string, now: Time) returns (raised: bool)
      modifies this
      ensures raised <==> CheckoutRaises(old(Current()), tenant, customer, sub)
      ensures Current() == Apply(old(Current()), CheckoutCompleted(tenant, customer, sub), now)
      ensures tenant == "" || raised ==> Current() == old(Current())
      ensures tenant != "" && !raised && customer != "" ==> customer in customers && customers[customer] == tenant
      ensures tenant != "" && !raised && sub != "" ==>
                && sub in subs && subs[sub].status == Active && subs[sub].setupPaid
                && subs[sub].tenantId == (if sub in old(subs) then old(subs)[sub].tenantId else tenant)
    {
      if tenant == "" {
        return false;
      }
      if customer != "" {
        if customer in customers && customers[customer] != tenant {
          return true;
        }
        if customer !in customers && tenant !in tenants {
          return true;
        }
      }
      if sub != "" && sub !in subs && tenant !in tenants {
        return true;
      }
      if customer != "" {
        customers := (map c | c in customers && customers[c] != tenant :: customers[c])[customer := tenant];
      }
      if sub != "" {
        UpsertSubscriptionFromStripe(tenant, sub, Active, None, now);
        subs := subs[sub := subs[sub].(setupPaid := true)];
      }
      return false;
    }

    method HandleSubscriptionEvent(deleted: bool, sub: string, customer: string, status: Option<Status>,
                                   canceledAt: Option<Time>, now: Time)
      returns (raised: bool)
      modifies this`subs, this`tenants
      ensures raised <==> && sub != "" && EventTenant(old(Current()), sub, customer) != ""
                          && TenantMissing(old(Current()), EventTenant(old(Current()), sub, customer),
                                           sub !in old(subs))
      ensures !raised && sub != "" && BilledTenant(old(Current()), sub, customer).Some? ==>
                && sub in subs
                && subs[sub].status == (if deleted then Canceled else if status.Some? then status.value else Incomplete)
                && subs[sub].tenantId == (if sub in old(subs) then old(subs)[sub].tenantId
                                          else BilledTenant(old(Current()), sub, customer).value)
      ensures sub == "" || BilledTenant(old(Current()), sub, customer).None? ==> Current() == old(Current())
      ensures Current() == Apply(old(Current()),
                                 if deleted then SubscriptionDeleted(sub, customer, canceledAt)
                                 else SubscriptionChanged(sub, customer, status, canceledAt), now)
    {
      if sub == "" {
        return false;
      }
      var tenant := TenantOf(Current(), customer);
      if tenant == "" && sub in subs {
        tenant := subs[sub].tenantId;
      }
      if tenant == "" {
        return false;
      }
      if sub !in subs && tenant !in tenants {
        return true;
      }
      var target := if status.Some? then status.value else Incomplete;
      if deleted {
        target := Canceled;
      }
      UpsertSubscriptionFromStripe(tenant, sub, target, canceledAt, now);
      return false;
    }

    method HandleInvoiceEvent(kind: InvoiceKind, invoice: string, customer: string, sub: string, now: Time)
      modifies this`subs, this`tenants
      ensures Current() == Apply(old(Current()), Invoice(kind, invoice, customer, sub), now)
      ensures kind == OtherInvoice || invoice == "" || customer !in old(customers) || sub !in old(subs) ==>
                Current() == old(Current())
      ensures invoice != "" && customer != "" && customer in old(customers) && old(customers)[customer] != "" &&
              sub != "" && sub in old(subs) ==>
                && sub in subs
                && (kind == Paid ==> subs[sub].status == Active && subs[sub].pastDueSince == None)
                && (kind == PaymentFailed || kind == ActionRequired ==>
                      && subs[sub].status == PastDue
                      && (old(subs)[sub].status != PastDue ==> subs[sub].pastDueSince == Some(now))
                      && (old(subs)[sub].status == PastDue ==> subs[sub].pastDueSince == old(subs)[sub].pastDueSince))
    {
      if invoice == "" || TenantOf(Current(), customer) == "" {
        return;
      }
      if sub != "" && sub in subs {
        if kind == Paid {
          var _ := TransitionStatus(sub, Active, false, now);
        } else if kind in {PaymentFailed, ActionRequired} {
          var _ := TransitionStatus(sub, PastDue, false, now);
        }
      }
    }
  }

  /* ---------- One step ---------- */

  predicate HasStatus(p: Projection, k: string, status: Status) {
    k in p.subs && p.subs[k].status == status
  }

  /** The row is as its status demands. */
  predicate GoodRow(sub: Subscription) {
    && (sub.status == PastDue ==> sub.pastDueSince.Some?)
    && (sub.status == Active ==> sub.pastDueSince.None?)
    && (sub.status == Canceled ==> sub.canceledAt.Some?)
  }

  ghost predicate GoodRows(p: Projection) {
    forall k :: k in p.subs ==> GoodRow(p.subs[k])
  }

  /** What one operation at clock `now` may do to a row it writes. */
  predicate RowStep(before: Subscription, after: Subscription, now: Time) {
    && after.tenantId == before.tenantId
    && (after.status == PastDue ==>
          after.pastDueSince == if before.status == PastDue then before.pastDueSince else Some(now))
    && (after.status == Active ==>
          after.pastDueSince.None? || (before.status == Active && after.pastDueSince == before.pastDueSince))
    && (before.canceledAt.Some? ==> after.canceledAt.Some?)
    && (after.status == Canceled ==> before.status == Canceled || after.canceledAt.Some?)
  }

  /** The row an operation writes: its key, its tenant and the status it gets. */
  datatype Write = Write(sub: string, tenantId: string, status: Status)

  function EventWrite(p: Projection, sub: string, customer: string, status: Status): Option<Write> {
    var tenant := EventTenant(p, sub, customer);
    if sub == "" || tenant == "" || TenantMissing(p, tenant, sub !in p.subs) then None
    else Some(Write(sub, RowFor(p, sub, tenant).tenantId, status))
  }

  /** What the operation will write, told from the projection before it. */
  function WriteOf(p: Projection, op: Op, now: Time): Option<Write> {
    match op
    case CheckoutCompleted(tenant, customer, sub) =>
      if tenant == "" || sub == "" || CheckoutRaises(p, tenant, customer, sub) then None
      else Some(Write(sub, RowFor(p, sub, tenant).tenantId, Active))
    case SubscriptionChanged(sub, customer, status, _) =>
      EventWrite(p, sub, customer, if status.Some? then status.value else Incomplete)
    case SubscriptionDeleted(sub, customer, _) => EventWrite(p, sub, customer, Canceled)
    case Invoice(kind, invoice, customer, sub) =>
      if invoice == "" || TenantOf(p, customer) == "" || sub == "" || sub !in p.subs || InvoiceStatus(kind).None?
      then None
      else Some(Write(sub, p.subs[sub].tenantId, InvoiceStatus(kind).value))
    case Pause(sub) =>
      if sub in p.subs && IsAllowedTransition(p.subs[sub].status, Paused)
      then Some(Write(sub, p.subs[sub].tenantId, Paused)) else None
    case Resume(sub) =>
      if sub in p.subs && IsAllowedTransition(p.subs[sub].status, Active)
      then Some(Write(sub, p.subs[sub].tenantId, Active)) else None
    case Sweep(sub, at, days) =>
      if sub in p.subs && GraceIsOver(p.subs[sub], ClockOr(at, now), days)
      then Some(Write(sub, p.subs[sub].tenantId, Unpaid)) else None
    case SetFlag(_, _) => None
  }

  /** The tenant and the flag an operation decides, if it decides. */
  function DecisionOf(p: Projection, op: Op, now: Time): Option<(string, bool)> {
    if op.SetFlag? then Some((op.tenant, op.on))
    else
      match WriteOf(p, op, now)
      case None => None
      case Some(w) => if Decision(w.status).Some? then Some((w.tenantId, Decision(w.status).value)) else None
  }

  function WithFlag(tenants: map<string, bool>, d: Option<(string, bool)>): map<string, bool> {
    if d.None? || d.value.0 !in tenants then tenants else tenants[d.value.0 := d.value.1]
  }

  predicate Wrote(p: Projection, q: Projection, w: Write, now: Time) {
    && p.subs - {w.sub} == q.subs - {w.sub}
    && w.sub in q.subs && q.subs[w.sub].status == w.status && q.subs[w.sub].tenantId == w.tenantId
    && RowStep(RowFor(p, w.sub, w.tenantId), q.subs[w.sub], now)
  }

  lemma PutWrites(p: Projection, k: string, row: Subscription, now: Time)
    requires RowStep(RowFor(p, k, row.tenantId), row, now)
    ensures Wrote(p, Put(p, k, row), Write(k, row.tenantId, row.status), now)
  {
    assert p.subs - {k} == Put(p, k, row).subs - {k};
  }

  lemma UpsertWrites(p: Projection, tenant: string, k: string, status: Status, canceledAt: Option<Time>, now: Time)
    ensures var q := Upsert(p, tenant, k, status, canceledAt, now);
            && Wrote(p, q, Write(k, RowFor(p, k, tenant).tenantId, status), now)
            && q.tenants == Gate(p.tenants, RowFor(p, k, tenant).tenantId, status)
  {
    PutWrites(p, k, Upserted(RowFor(p, k, tenant), status, canceledAt, now), now);
  }

  lemma CheckoutWrites(p: Projection, tenant: string, customer: string, sub: string, now: Time)
    requires WriteOf(p, CheckoutCompleted(tenant, customer, sub), now).Some?
    ensures var q, t := AfterCheckout(p, tenant, customer, sub, now), RowFor(p, sub, tenant).tenantId;
            Wrote(p, q, Write(sub, t, Active), now) && q.tenants == Gate(p.tenants, t, Active)
  {
    var r := if customer != "" then WithCustomer(p, tenant, customer) else p;
    UpsertWrites(r, tenant, sub, Active, None, now);
    assert r.subs - {sub} == AfterCheckout(p, tenant, customer, sub, now).subs - {sub};
  }

  /** Every operation writes what was told beforehand, and nothing else; the flags follow. */
  lemma StepWrites(p: Projection, op: Op, now: Time)
    ensures var q := Apply(p, op, now);
            && (match WriteOf(p, op, now)
                case None => q.subs == p.subs
                case Some(w) => Wrote(p, q, w, now))
            && q.tenants == WithFlag(p.tenants, DecisionOf(p, op, now))
  {
    match op
    case CheckoutCompleted(tenant, customer, sub) =>
      if WriteOf(p, op, now).Some? {
        CheckoutWrites(p, tenant, customer, sub, now);
      }
    case SubscriptionChanged(sub, customer, status, canceledAt) =>
      var to := if status.Some? then status.value else Incomplete;
      UpsertWrites(p, EventTenant(p, sub, customer), sub, to, canceledAt, now);
    case SubscriptionDeleted(sub, customer, canceledAt) =>
      UpsertWrites(p, EventTenant(p, sub, customer), sub, Canceled, canceledAt, now);
    case SetFlag(_, _) =>
    case _ =>
      if WriteOf(p, op, now).Some? {
        PutWrites(p, op.sub, Moved(p.subs[op.sub], WriteOf(p, op, now).value.status, now), now);
      }
  }

  predicate WritesRow(p: Projection, op: Op, now: Time, k: string) {
    WriteOf(p, op, now).Some? && WriteOf(p, op, now).value.sub == k
  }

  /** A row after a step was written by it, or is the row before. */
  lemma RowAfter(p: Projection, op: Op, now: Time, k: string)
    requires k in Apply(p, op, now).subs
    ensures var row := Apply(p, op, now).subs[k];
            if WritesRow(p, op, now, k)
            then WriteOf(p, op, now) == Some(Write(k, row.tenantId, row.status))
                 && RowStep(RowFor(p, k, row.tenantId), row, now)
            else k in p.subs && row == p.subs[k]
  {
    StepWrites(p, op, now);
    if WriteOf(p, op, now).Some? && !WritesRow(p, op, now, k) {
      var w := WriteOf(p, op, now).value;
      assert k in p.subs - {w.sub} && (p.subs - {w.sub})[k] == (Apply(p, op, now).subs - {w.sub})[k];
    }
  }

  lemma RowStays(p: Projection, op: Op, now: Time, k: string)
    requires k in p.subs
    ensures k in Apply(p, op, now).subs && Apply(p, op, now).subs[k].tenantId == p.subs[k].tenantId
  {
    StepWrites(p, op, now);
    if WriteOf(p, op, now).Some? && !WritesRow(p, op, now, k) {
      var w := WriteOf(p, op, now).value;
      assert k in p.subs - {w.sub};
    }
    RowAfter(p, op, now, k);
  }

  /* ---------- Runs ---------- */

  datatype Timed = Timed(op: Op, now: Time)

  ghost predicate StepAt(ps: seq<Projection>, ops: seq<Timed>, i: nat) {
    i < |ops| && i + 1 < |ps| && ps[i + 1] == Apply(ps[i], ops[i].op, ops[i].now)
  }

  /** `ps[i]` is the projection after the first `i` operations, from one without subscriptions. */
  ghost predicate Run(ps: seq<Projection>, ops: seq<Timed>) {
    && |ps| == |ops| + 1 && ps[0].subs == map[]
    && forall i :: 0 <= i < |ops| ==> StepAt(ps, ops, i)
  }

  /** In every run, past-due rows carry a start, active ones carry none and canceled ones a cancellation. */
  lemma {:induction false} RowsStayGood(ps: seq<Projection>, ops: seq<Timed>, n: nat)
    requires Run(ps, ops) && n < |ps|
    ensures GoodRows(ps[n])
  {
    if n > 0 {
      RowsStayGood(ps, ops, n - 1);
      assert StepAt(ps, ops, n - 1);
      forall k | k in ps[n].subs
        ensures GoodRow(ps[n].subs[k])
      {
        RowAfter(ps[n - 1], ops[n - 1].op, ops[n - 1].now, k);
      }
    }
  }

  lemma PastDueStep(ps: seq<Projection>, ops: seq<Timed>, n: nat, k: string)
    requires Run(ps, ops) && 0 < n < |ps| && HasStatus(ps[n], k, PastDue)
    ensures var before, row := ps[n - 1], ps[n].subs[k];
            row.pastDueSince ==
            if HasStatus(before, k, PastDue) then before.subs[k].pastDueSince else Some(ops[n - 1].now)
  {
    assert StepAt(ps, ops, n - 1);
    RowAfter(ps[n - 1], ops[n - 1].op, ops[n - 1].now, k);
  }

  ghost predicate PastDueAfter(ps: seq<Projection>, ops: seq<Timed>, i: nat, k: string)
    requires i < |ps|
  {
    HasStatus(ps[i], k, PastDue)
  }

  /** Operation `m` began the unbroken time past due that lasts until after operation `n`. */
  ghost predicate Spell(ps: seq<Projection>, ops: seq<Timed>, m: nat, n: nat, k: string)
    requires n < |ps|
  {
    m < n && !PastDueAfter(ps, ops, m, k) && forall i :: m < i <= n ==> PastDueAfter(ps, ops, i, k)
  }

  lemma SpellGoesOn(ps: seq<Projection>, ops: seq<Timed>, m: nat, n: nat, k: string)
    requires 0 < n < |ps| && Spell(ps, ops, m, n - 1, k) && PastDueAfter(ps, ops, n, k)
    ensures Spell(ps, ops, m, n, k)
  {}

  lemma SpellBegins(ps: seq<Projection>, ops: seq<Timed>, n: nat, k: string)
    requires 0 < n < |ps| && !PastDueAfter(ps, ops, n - 1, k) && PastDueAfter(ps, ops, n, k)
    ensures Spell(ps, ops, n - 1, n, k)
  {}

  /** `past_due_since` is the time of the operation that began the current spell, whatever happened before. */
  lemma {:induction false} PastDueSinceIsSpellStart(ps: seq<Projection>, ops: seq<Timed>, n: nat, k: string)
    returns (m: nat)
    requires Run(ps, ops) && n < |ps| && HasStatus(ps[n], k, PastDue)
    ensures Spell(ps, ops, m, n, k) && ps[n].subs[k].pastDueSince == Some(ops[m].now)
  {
    PastDueStep(ps, ops, n, k);
    if HasStatus(ps[n - 1], k, PastDue) {
      m := PastDueSinceIsSpellStart(ps, ops, n - 1, k);
      SpellGoesOn(ps, ops, m, n, k);
    } else {
      m := n - 1;
      SpellBegins(ps, ops, n, k);
    }
  }

  /**
   A sweep moves a past-due subscription to unpaid exactly if the grace period has passed since the current
   spell began; otherwise it leaves it past due.
   */
  lemma SweepWaitsForGrace(ps: seq<Projection>, ops: seq<Timed>, n: nat, k: string, at: Option<Time>, days: int)
    returns (m: nat)
    requires Run(ps, ops) && n < |ops| && HasStatus(ps[n], k, PastDue)
    requires ops[n].op == Sweep(k, at, days)
    ensures Spell(ps, ops, m, n, k)
    ensures HasStatus(ps[n + 1], k,
                      if ClockOr(at, ops[n].now) >= ops[m].now + days * DAY then Unpaid else PastDue)
  {
    m := PastDueSinceIsSpellStart(ps, ops, n, k);
    assert StepAt(ps, ops, n);
  }

  predicate ByOperator(op: Op) {
    op.Pause? || op.Resume? || op.Sweep?
  }

  /** Pausing, resuming and sweeping create no subscription and move along allowed transitions only. */
  lemma OperatorStepsAreAllowed(p: Projection, op: Op, now: Time, k: string)
    requires ByOperator(op) && k in Apply(p, op, now).subs
    ensures k in p.subs && IsAllowedTransition(p.subs[k].status, Apply(p, op, now).subs[k].status)
  {}

  /** Such runs never leave `canceled`. */
  lemma {:induction false} OperatorsNeverLeaveCanceled(ps: seq<Projection>, ops: seq<Timed>, i: nat, n: nat, k: string)
    requires Run(ps, ops) && i <= n < |ps| && HasStatus(ps[i], k, Canceled)
    requires forall j :: i <= j < n ==> ByOperator(ops[j].op)
    ensures HasStatus(ps[n], k, Canceled)
    decreases n
  {
    if i < n {
      OperatorsNeverLeaveCanceled(ps, ops, i, n - 1, k);
      assert StepAt(ps, ops, n - 1);
    }
  }

  /** `canceled` is final for everything but webhooks: it is left exactly by one that writes another status. */
  lemma CanceledIsLeftByWebhooks(p: Projection, op: Op, now: Time, k: string)
    requires HasStatus(p, k, Canceled)
    ensures k in Apply(p, op, now).subs
    ensures Apply(p, op, now).subs[k].status != Canceled <==>
            !ByOperator(op) && WritesRow(p, op, now, k) && WriteOf(p, op, now).value.status != Canceled
  {
    RowStays(p, op, now, k);
    RowAfter(p, op, now, k);
  }

  /* ---------- The tenant flag ---------- */

  ghost predicate FlagMatches(p: Projection, k: string) {
    k in p.subs && p.subs[k].tenantId in p.tenants && Decision(p.subs[k].status).Some? ==>
      p.tenants[p.subs[k].tenantId] == Decision(p.subs[k].status).value
  }

  /** The operation decides against subscription `k`, and does not write it. */
  predicate Contradicts(p: Projection, op: Op, now: Time, k: string)
    requires k in p.subs && Decision(p.subs[k].status).Some?
  {
    && !WritesRow(p, op, now, k)
    && DecisionOf(p, op, now) == Some((p.subs[k].tenantId, !Decision(p.subs[k].status).value))
  }

  /**
   One step: a flag that matches a deciding status still does afterwards, if and only if the operation does
   not write another row of the tenant with the opposite decision, nor sets the flag to it.
   */
  lemma MatchStep(p: Projection, op: Op, now: Time, k: string)
    requires k in p.subs && p.subs[k].tenantId in p.tenants && Decision(p.subs[k].status).Some? && FlagMatches(p, k)
    ensures FlagMatches(Apply(p, op, now), k) <==> !Contradicts(p, op, now, k)
  {
    StepWrites(p, op, now);
    RowStays(p, op, now, k);
    RowAfter(p, op, now, k);
  }

  /** Active and trialing turn the flag on, also if it was off; canceled turns it off; nothing else touches it. */
  lemma DecisionsOfStatuses(tenants: map<string, bool>, t: string, status: Status)
    requires t in tenants
    ensures status in {Active, Trialing} ==> Gate(tenants, t, status)[t] && Decision(status) == Some(true)
    ensures status == Canceled ==> !Gate(tenants, t, status)[t] && Decision(status) == Some(false)
    ensures status !in {Active, Trialing, Canceled} ==> Gate(tenants, t, status) == tenants && Decision(status) == None
  {}

  ghost predicate DecidesAt(ps: seq<Projection>, ops: seq<Timed>, i: nat, t: string, flag: bool) {
    i < |ops| && i < |ps| && DecisionOf(ps[i], ops[i].op, ops[i].now) == Some((t, flag))
  }

  ghost predicate WritesAt(ps: seq<Projection>, ops: seq<Timed>, i: nat, k: string) {
    i < |ops| && i < |ps| && WritesRow(ps[i], ops[i].op, ops[i].now, k)
  }

  /** Nothing decides about the tenant from operation `m` on, and before it the flag was decided or is the first. */
  ghost predicate HasReason(ps: seq<Projection>, ops: seq<Timed>, m: nat, n: nat, t: string, flag: bool) {
    && m <= n && (if m == 0 then |ps| > 0 && t in ps[0].tenants && ps[0].tenants[t] == flag
                  else DecidesAt(ps, ops, m - 1, t, flag))
    && forall i, f :: m <= i < n ==> !DecidesAt(ps, ops, i, t, f)
  }

  lemma FlagStep(ps: seq<Projection>, ops: seq<Timed>, n: nat, t: string, flag: bool)
    requires Run(ps, ops) && n < |ops| && t in ps[n].tenants
    ensures t in ps[n + 1].tenants
    ensures DecidesAt(ps, ops, n, t, flag) ==> ps[n + 1].tenants[t] == flag
    ensures ps[n + 1].tenants[t] != ps[n].tenants[t] ==> DecidesAt(ps, ops, n, t, ps[n + 1].tenants[t])
  {
    assert StepAt(ps, ops, n);
    StepWrites(ps[n], ops[n].op, ops[n].now);
  }

  /** A tenant's flag is what the last operation that decides about it decided, or the initial one if none did. */
  lemma {:induction false} FlagHasReason(ps: seq<Projection>, ops: seq<Timed>, n: nat, t: string) returns (m: nat)
    requires Run(ps, ops) && n < |ps| && t in ps[0].tenants
    ensures t in ps[n].tenants && HasReason(ps, ops, m, n, t, ps[n].tenants[t])
  {
    m := 0;
    if n > 0 {
      m := FlagHasReason(ps, ops, n - 1, t);
      FlagStep(ps, ops, n - 1, t, true);
      FlagStep(ps, ops, n - 1, t, false);
      var flag := ps[n].tenants[t];
      if DecidesAt(ps, ops, n - 1, t, flag) {
        m := n;
      }
    }
  }

  /** A row there is was written, with its tenant and status, by the last operation that wrote it. */
  lemma {:induction false} StatusWasWritten(ps: seq<Projection>, ops: seq<Timed>, n: nat, k: string) returns (w: nat)
    requires Run(ps, ops) && n < |ps| && k in ps[n].subs
    ensures w < n
    ensures WriteOf(ps[w], ops[w].op, ops[w].now) == Some(Write(k, ps[n].subs[k].tenantId, ps[n].subs[k].status))
    ensures forall i :: w < i < n ==> !WritesAt(ps, ops, i, k)
  {
    w := n - 1;
    assert StepAt(ps, ops, w);
    RowAfter(ps[w], ops[w].op, ops[w].now, k);
    if !WritesAt(ps, ops, w, k) {
      w := StatusWasWritten(ps, ops, n - 1, k);
    }
  }

  lemma {:induction false} TenantsStay(ps: seq<Projection>, ops: seq<Timed>, n: nat)
    requires Run(ps, ops) && n < |ps|
    ensures ps[n].tenants.Keys == ps[0].tenants.Keys
  {
    if n > 0 {
      TenantsStay(ps, ops, n - 1);
      assert StepAt(ps, ops, n - 1);
      StepWrites(ps[n - 1], ops[n - 1].op, ops[n - 1].now);
    }
  }

  lemma NewRowHasTenant(p: Projection, op: Op, now: Time)
    requires WriteOf(p, op, now).Some? && WriteOf(p, op, now).value.sub !in p.subs
    ensures WriteOf(p, op, now).value.tenantId in p.tenants
  {}

  /** A subscription's tenant is one of those there are. */
  lemma {:induction false} TenantExists(ps: seq<Projection>, ops: seq<Timed>, n: nat, k: string)
    requires Run(ps, ops) && n < |ps| && k in ps[n].subs
    ensures ps[n].subs[k].tenantId in ps[0].tenants
  {
    var p, op, now := ps[n - 1], ops[n - 1].op, ops[n - 1].now;
    assert StepAt(ps, ops, n - 1);
    RowAfter(p, op, now, k);
    TenantsStay(ps, ops, n - 1);
    if k in p.subs {
      TenantExists(ps, ops, n - 1, k);
      RowStays(p, op, now, k);
    } else {
      NewRowHasTenant(p, op, now);
    }
  }

  /** Operation `i` decides against the flag, and nothing decides for it afterwards. */
  ghost predicate Overrules(ps: seq<Projection>, ops: seq<Timed>, i: nat, n: nat, t: string, flag: bool) {
    && i < n && DecidesAt(ps, ops, i, t, !flag)
    && forall j :: i < j < n ==> !DecidesAt(ps, ops, j, t, flag)
  }

  ghost predicate Overruled(ps: seq<Projection>, ops: seq<Timed>, n: nat, t: string, flag: bool) {
    exists i: nat :: Overrules(ps, ops, i, n, t, flag)
  }

  lemma ReasonIsNotOverruled(ps: seq<Projection>, ops: seq<Timed>, m: nat, n: nat, t: string, flag: bool)
    requires HasReason(ps, ops, m, n, t, flag)
    ensures !Overruled(ps, ops, n, t, flag)
    ensures m > 0 ==> Overruled(ps, ops, n, t, !flag)
  {
    if m > 0 {
      assert Overrules(ps, ops, m - 1, n, t, !flag);
    }
  }

  /**
   Any number of subscriptions: the flag follows a deciding status if and only if every opposite decision
   about the tenant has been followed by one for it.
   */
  lemma FlagMatchesUnlessOverruled(ps: seq<Projection>, ops: seq<Timed>, n: nat, k: string)
    requires Run(ps, ops) && n < |ps| && k in ps[n].subs && Decision(ps[n].subs[k].status).Some?
    ensures FlagMatches(ps[n], k) <==>
            !Overruled(ps, ops, n, ps[n].subs[k].tenantId, Decision(ps[n].subs[k].status).value)
  {
    var t, flag := ps[n].subs[k].tenantId, Decision(ps[n].subs[k].status).value;
    TenantExists(ps, ops, n, k);
    var m := FlagHasReason(ps, ops, n, t);
    var w := StatusWasWritten(ps, ops, n, k);
    assert DecidesAt(ps, ops, w, t, flag);
    ReasonIsNotOverruled(ps, ops, m, n, t, ps[n].tenants[t]);
    assert m > w;
  }

  /** What overrules a subscription is a write of another one, or of the flag itself. */
  lemma OverruledByAnother(ps: seq<Projection>, ops: seq<Timed>, i: nat, n: nat, k: string)
    requires Run(ps, ops) && n < |ps| && k in ps[n].subs && Decision(ps[n].subs[k].status).Some?
    requires Overrules(ps, ops, i, n, ps[n].subs[k].tenantId, Decision(ps[n].subs[k].status).value)
    ensures !WritesAt(ps, ops, i, k)
  {
    var w := StatusWasWritten(ps, ops, n, k);
    assert DecidesAt(ps, ops, w, ps[n].subs[k].tenantId, Decision(ps[n].subs[k].status).value);
  }

  ghost predicate OnlySubscription(p: Projection, k: string) {
    k in p.subs && forall j :: j in p.subs && p.subs[j].tenantId == p.subs[k].tenantId ==> j == k
  }

  lemma {:induction false} RowPersists(ps: seq<Projection>, ops: seq<Timed>, i: nat, n: nat, k: string)
    requires Run(ps, ops) && i <= n < |ps| && k in ps[i].subs
    ensures k in ps[n].subs && ps[n].subs[k].tenantId == ps[i].subs[k].tenantId
    decreases n
  {
    if i < n {
      RowPersists(ps, ops, i, n - 1, k);
      assert StepAt(ps, ops, n - 1);
      RowStays(ps[n - 1], ops[n - 1].op, ops[n - 1].now, k);
    }
  }

  lemma OnlyFlagWritesOverrule(ps: seq<Projection>, ops: seq<Timed>, i: nat, n: nat, k: string)
    requires Run(ps, ops) && n < |ps| && OnlySubscription(ps[n], k) && Decision(ps[n].subs[k].status).Some?
    requires Overrules(ps, ops, i, n, ps[n].subs[k].tenantId, Decision(ps[n].subs[k].status).value)
    ensures ops[i].op.SetFlag?
  {
    OverruledByAnother(ps, ops, i, n, k);
    if !ops[i].op.SetFlag? {
      var w := WriteOf(ps[i], ops[i].op, ops[i].now).value;
      assert StepAt(ps, ops, i);
      StepWrites(ps[i], ops[i].op, ops[i].now);
      RowPersists(ps, ops, i + 1, n, w.sub);
    }
  }

  /** For a tenant with one subscription the flag follows every deciding status, unless it was set from outside. */
  lemma SingleSubscriptionDecides(ps: seq<Projection>, ops: seq<Timed>, n: nat, k: string)
    requires Run(ps, ops) && n < |ps| && OnlySubscription(ps[n], k) && Decision(ps[n].subs[k].status).Some?
    ensures var t, flag := ps[n].subs[k].tenantId, Decision(ps[n].subs[k].status).value;
            FlagMatches(ps[n], k) <==> !exists i: nat :: Overrules(ps, ops, i, n, t, flag) && ops[i].op.SetFlag?
  {
    var t, flag := ps[n].subs[k].tenantId, Decision(ps[n].subs[k].status).value;
    FlagMatchesUnlessOverruled(ps, ops, n, k);
    forall i: nat | Overrules(ps, ops, i, n, t, flag)
      ensures ops[i].op.SetFlag?
    {
      OnlyFlagWritesOverrule(ps, ops, i, n, k);
    }
  }

  /** One tenant whose checkouts gave it the given subscriptions, all active. */
  ghost predicate AcmeHas(p: Projection, subs: set<string>) {
    && p.customers == map["cus" := "acme"] && p.tenants == map["acme" := true] && p.subs.Keys == subs
    && forall k :: k in subs ==> p.subs[k] == Subscription("acme", Active, None, None, true)
  }

  lemma AcmeChecksOut(p: Projection, subs: set<string>, k: string, now: Time)
    requires AcmeHas(p, subs) && k !in subs && k != ""
    ensures AcmeHas(Apply(p, CheckoutCompleted("acme", "cus", k), now), subs + {k})
  {
    var q := Apply(p, CheckoutCompleted("acme", "cus", k), now);
    assert q.customers == map["cus" := "acme"];
    assert q.tenants == p.tenants;
  }

  lemma AcmeStarts(k: string, now: Time)
    requires k != ""
    ensures AcmeHas(Apply(ACME, CheckoutCompleted("acme", "cus", k), now), {k})
  {
    assert WithCustomer(ACME, "acme", "cus").customers == map["cus" := "acme"];
  }

  lemma AcmeEnds(p: Projection, subs: set<string>, k: string, now: Time)
    requires AcmeHas(p, subs) && k in subs && k != ""
    ensures var q := Apply(p, SubscriptionDeleted(k, "cus", None), now);
            q.tenants == map["acme" := false] && forall j :: j in subs && j != k ==> HasStatus(q, j, Active)
  {
    assert TenantOf(p, "cus") == "acme" && k in p.subs;
    assert forall j :: j in subs ==> j in p.subs;
  }

  const ACME: Projection := Projection(map[], map["acme" := true], map[])

  /**
   With two subscriptions it need not: a tenant checks out twice, the old subscription ends, and the tenant
   is shut out though its new one is active.
   */
  lemma OldSubscriptionShutsOutTenant(now: Time)
    ensures var p1 := Apply(ACME, CheckoutCompleted("acme", "cus", "old"), now);
            var p2 := Apply(p1, CheckoutCompleted("acme", "cus", "new"), now);
            var p3 := Apply(p2, SubscriptionDeleted("old", "cus", None), now);
            HasStatus(p3, "new", Active) && p3.tenants == map["acme" := false]
  {
    var p1 := Apply(ACME, CheckoutCompleted("acme", "cus", "old"), now);
    AcmeStarts("old", now);
    AcmeChecksOut(p1, {"old"}, "new", now);
    AcmeEnds(Apply(p1, CheckoutCompleted("acme", "cus", "new"), now), {"old", "new"}, "old", now);
  }
}
