/**
 Payments and accounts: the compare-and-set statements of the payment repository and the
 transaction that creates a Pro account and settles its payment together.
 */
module Payments {
  import opened Options
  import opened Histories

  type PaymentId = nat
  type AccountId = nat
  type JobId = nat

  datatype Status = Pending | Completed | Refunded
  datatype Product = ProTier | Fixpack | Subscription
  datatype Tier = Free | Pro

  datatype Payment = Payment(
    accountId: Option<AccountId>,
    provider: string,
    externalRef: Option<string>,
    status: Status,
    product: Product,
    chatId: Option<string>,
    providerPaymentId: Option<string>,
    fixpackJobId: Option<JobId>,
    keyDelivered: bool)

  type Rows = map<PaymentId, Payment>

  datatype Books = Books(payments: Rows, accounts: map<AccountId, Tier>)

  // ----- the unique indexes -----

  /** A row other than `id` holds this charge: writing it there violates the unique index. */
  predicate RefTaken(rows: Rows, id: PaymentId, provider: string, ref: Option<string>) {
    ref.Some? && exists other ::
      other in rows && other != id && rows[other].provider == provider && rows[other].externalRef == ref
  }

  predicate ProviderIdTaken(rows: Rows, id: PaymentId, pid: Option<string>) {
    pid.Some? && exists other :: other in rows && other != id && rows[other].providerPaymentId == pid
  }

  predicate IsCharge(rows: Rows, id: PaymentId, provider: string, ref: string) {
    id in rows && rows[id].provider == provider && rows[id].externalRef == Some(ref)
  }

  function Charges(rows: Rows, provider: string, ref: string): (ids: set<PaymentId>) {
    set id | id in rows && IsCharge(rows, id, provider, ref)
  }

  // ----- the Pro grant -----

  datatype Invoice = NoInvoice | Malformed | For(id: PaymentId)

  /** A confirmed charge; the last two are the ids the database would mint. */
  datatype Grant = Grant(provider: string, ref: string, invoice: Invoice, newAccount: AccountId, newPayment: PaymentId)

  /** Only `Granted` carries a plaintext key. */
  datatype GrantResult = Refused | Replayed(account: AccountId) | Granted(account: AccountId) | Failed

  /** Why the transaction stops before writing, or that it goes on to create the account. */
  datatype Decision = Refuse | Replay(account: AccountId) | Settle

  /** The row the transaction works on: the invoice, or the row that already carries the charge. */
  predicate ProRow(p: Payment, provider: string) {
    p.provider == provider && p.product.ProTier?
  }

  function DecideOn(b: Books, g: Grant, id: PaymentId): (d: Decision)
    requires id in b.payments
  {
    var p := b.payments[id];
    if !ProRow(p, g.provider) then Refuse
    else if p.status.Completed? then
      if p.accountId.None? || p.externalRef != Some(g.ref) then Refuse
      else if p.accountId.value !in b.accounts || b.accounts[p.accountId.value] != Pro then Refuse
      else Replay(p.accountId.value)
    else if !p.status.Pending? || p.accountId.Some? || !g.invoice.For? then Refuse
    else Settle
  }

  ghost function Decide(b: Books, g: Grant): Decision {
    if g.provider == "" || g.ref == "" || g.invoice.Malformed? then Refuse
    else if g.invoice.For? then
      var id := g.invoice.id;
      if id !in b.payments || !ProRow(b.payments[id], g.provider)
         || !(b.payments[id].externalRef == None || b.payments[id].externalRef == Some(g.ref))
         || RefTaken(b.payments, id, g.provider, Some(g.ref))
      then Refuse else DecideOn(b, g, id)
    else if Charges(b.payments, g.provider, g.ref) == {} then Settle
    else
      var id :| id in Charges(b.payments, g.provider, g.ref);
      DecideOn(b, g, id)
  }

  function SettledRow(g: Grant): (p: Payment) {
    Payment(Some(g.newAccount), g.provider, Some(g.ref), Completed, ProTier, None, None, None, false)
  }

  function Settled(b: Books, g: Grant): (r: Books)
    requires g.invoice.For? ==> g.invoice.id in b.payments
  {
    Books(
      if g.invoice.For?
      then b.payments[g.invoice.id :=
        b.payments[g.invoice.id].(status := Completed, accountId := Some(g.newAccount), externalRef := Some(g.ref))]
      else b.payments[g.newPayment := SettledRow(g)],
      b.accounts[g.newAccount := Pro])
  }

  /** The database mints ids that are not in use. */
  predicate FreshIds(b: Books, g: Grant) {
    g.newAccount !in b.accounts && (g.invoice.NoInvoice? ==> g.newPayment !in b.payments)
  }

  /** `faulty`: an SQL error, a lock timeout or a cancellation at any point of the transaction. */
  ghost function GrantOutcome(b: Books, g: Grant, faulty: bool): GrantResult {
    if faulty then Failed
    else match Decide(b, g)
      case Refuse => Refused
      case Replay(account) => Replayed(account)
      case Settle => if FreshIds(b, g) then Granted(g.newAccount) else Failed
  }

  // ----- the statements -----

  datatype Event =
    | CreateAccount(account: AccountId, tier: Tier)
    | Create(id: PaymentId, row: Payment)
    | GrantPro(grant: Grant, faulty: bool)
    | MarkCompleted(id: PaymentId, account: AccountId, ref: string)
    | MarkCompletedFixpack(id: PaymentId, ref: string, job: Option<JobId>)
    | MarkRefunded(id: PaymentId)
    | SetProviderPaymentId(id: PaymentId, pid: string)
    | LinkChat(id: PaymentId, chat: string)
    | ClaimKey(id: PaymentId)
    | ReleaseKey(id: PaymentId)

  /** The completion gate: the first completion, or the same charge arriving again. */
  predicate Completable(p: Payment, ref: string) {
    p.status.Pending? || (p.status.Completed? && p.externalRef == Some(ref))
  }

  /** Whether the statement writes the existing row it names. */
  predicate Writes(b: Books, e: Event)
    requires !e.CreateAccount? && !e.Create? && !e.GrantPro?
  {
    && e.id in b.payments
    && var p := b.payments[e.id];
    match e
    case MarkCompleted(id, account, ref) =>
      && (p.accountId == None || p.accountId == Some(account)) && Completable(p, ref)
      && account in b.accounts && !RefTaken(b.payments, id, p.provider, Some(ref))
    case MarkCompletedFixpack(id, ref, _) => Completable(p, ref) && !RefTaken(b.payments, id, p.provider, Some(ref))
    case MarkRefunded(_) => p.status.Completed?
    case SetProviderPaymentId(id, pid) => p.providerPaymentId == None && !ProviderIdTaken(b.payments, id, Some(pid))
    case LinkChat(_, chat) => p.chatId == None || p.chatId == Some(chat)
    case ClaimKey(_) => p.status.Completed? && !p.keyDelivered
    case ReleaseKey(_) => true
  }

  function Written(p: Payment, e: Event): (r: Payment)
    requires !e.CreateAccount? && !e.Create? && !e.GrantPro?
  {
    match e
    case MarkCompleted(_, account, ref) => p.(status := Completed, accountId := Some(account), externalRef := Some(ref))
    case MarkCompletedFixpack(_, ref, job) =>
      p.(status := Completed, externalRef := Some(ref), fixpackJobId := if job.Some? then job else p.fixpackJobId)
    case MarkRefunded(_) => p.(status := Refunded)
    case SetProviderPaymentId(_, pid) => p.(providerPaymentId := Some(pid))
    case LinkChat(_, chat) => p.(chatId := Some(chat))
    case ClaimKey(_) => p.(keyDelivered := true)
    case ReleaseKey(_) => p.(keyDelivered := false)
  }

  /** An insert the primary key, the foreign key or a unique index refuses raises and changes nothing. */
  predicate Insertable(b: Books, id: PaymentId, row: Payment) {
    && id !in b.payments
    && (row.accountId.Some? ==> row.accountId.value in b.accounts)
    && !RefTaken(b.payments, id, row.provider, row.externalRef)
    && !ProviderIdTaken(b.payments, id, row.providerPaymentId)
    && row.chatId == None && !row.keyDelivered
  }

  ghost function Apply(b: Books, e: Event): Books {
    match e
    case CreateAccount(account, tier) =>
      if account in b.accounts then b else b.(accounts := b.accounts[account := tier])
    case Create(id, row) => if Insertable(b, id, row) then b.(payments := b.payments[id := row]) else b
    case GrantPro(g, faulty) => if GrantOutcome(b, g, faulty).Granted? then Settled(b, g) else b
    case _ => if Writes(b, e) then b.(payments := b.payments[e.id := Written(b.payments[e.id], e)]) else b
  }

  ghost function After(h: History<Event>): Books {
    match h
    case Start => Books(map[], map[])
    case Then(past, e) => Apply(After(past), e)
  }

  // ----- what every run keeps -----

  ghost predicate BooksOk(b: Books) {
    && (forall id :: id in b.payments ==>
      !RefTaken(b.payments, id, b.payments[id].provider, b.payments[id].externalRef))
    && (forall id :: id in b.payments ==> !ProviderIdTaken(b.payments, id, b.payments[id].providerPaymentId))
  }

  /** Writing `row` at `id` when the indexes allow it keeps them. */
  lemma {:induction false} PutKeepsOk(b: Books, id: PaymentId, row: Payment, r: Books)
    requires BooksOk(b) && r.payments == b.payments[id := row]
    requires !RefTaken(b.payments, id, row.provider, row.externalRef)
    requires !ProviderIdTaken(b.payments, id, row.providerPaymentId)
    ensures BooksOk(r)
  {
    forall other | other in r.payments
      ensures !RefTaken(r.payments, other, r.payments[other].provider, r.payments[other].externalRef)
      ensures !ProviderIdTaken(r.payments, other, r.payments[other].providerPaymentId)
    {
      if other != id {
        assert !RefTaken(b.payments, other, b.payments[other].provider, b.payments[other].externalRef);
        assert !ProviderIdTaken(b.payments, other, b.payments[other].providerPaymentId);
      }
    }
  }

  /** What the transaction found when it goes on to settle. */
  lemma {:induction false} SettleFinds(b: Books, g: Grant)
    requires BooksOk(b) && Decide(b, g).Settle?
    ensures match g.invoice
            case For(id) =>
              && id in b.payments && ProRow(b.payments[id], g.provider) && b.payments[id].status.Pending?
              && b.payments[id].accountId == None
              && (b.payments[id].externalRef == None || b.payments[id].externalRef == Some(g.ref))
              && Charges(b.payments, g.provider, g.ref) <= {id}
            case _ => Charges(b.payments, g.provider, g.ref) == {}
  {
    if g.invoice.For? {
      forall other | other in Charges(b.payments, g.provider, g.ref) ensures other == g.invoice.id {
      }
    }
  }

  lemma {:induction false} ApplyKeepsOk(b: Books, e: Event, r: Books)
    requires BooksOk(b) && r == Apply(b, e)
    ensures BooksOk(r)
  {
    match e
    case CreateAccount(_, _) =>
    case Create(id, row) =>
      if Insertable(b, id, row) { PutKeepsOk(b, id, row, r); }
    case GrantPro(g, faulty) =>
      if GrantOutcome(b, g, faulty).Granted? {
        SettleFinds(b, g);
        assert forall other :: other in b.payments && IsCharge(b.payments, other, g.provider, g.ref)
                 ==> other in Charges(b.payments, g.provider, g.ref);
        if g.invoice.For? { PutKeepsOk(b, g.invoice.id, r.payments[g.invoice.id], r); }
        else { PutKeepsOk(b, g.newPayment, SettledRow(g), r); }
      }
    case _ =>
      if Writes(b, e) {
        assert !RefTaken(b.payments, e.id, b.payments[e.id].provider, b.payments[e.id].externalRef);
        PutKeepsOk(b, e.id, Written(b.payments[e.id], e), r);
      }
  }

  lemma {:induction false} ReachableOk(h: History<Event>)
    ensures BooksOk(After(h))
  {
    match h
    case Start =>
    case Then(past, e) =>
      ReachableOk(past);
      ApplyKeepsOk(After(past), e, After(h));
  }

  // ----- the history of one row -----

  function Stage(s: Status): (n: nat) {
    match s case Pending => 0 case Completed => 1 case Refunded => 2
  }

  ghost predicate WriteOnce<T>(was: Option<T>, now: Option<T>) {
    was.Some? ==> now == was
  }

  /** How a payment row may change over any number of statements. */
  ghost predicate Evolves(p: Payment, q: Payment) {
    && Stage(p.status) <= Stage(q.status)
    && q.provider == p.provider && q.product == p.product
    && WriteOnce(p.accountId, q.accountId)
    && WriteOnce(p.chatId, q.chatId)
    && WriteOnce(p.providerPaymentId, q.providerPaymentId)
    && (!p.status.Pending? ==> q.externalRef == p.externalRef)
  }

  lemma {:induction false} ApplyEvolves(b: Books, e: Event, id: PaymentId)
    requires BooksOk(b) && id in b.payments
    ensures id in Apply(b, e).payments && Evolves(b.payments[id], Apply(b, e).payments[id])
    ensures Stage(Apply(b, e).payments[id].status) <= Stage(b.payments[id].status) + 1
    ensures forall a :: a in b.accounts ==> a in Apply(b, e).accounts && Apply(b, e).accounts[a] == b.accounts[a]
  {
    if e.GrantPro? && Decide(b, e.grant).Settle? { SettleFinds(b, e.grant); }
  }

  /**
   Over every interleaving of writers a payment's status only moves pending, completed,
   refunded; its account, chat and provider ids are write-once, and so is its charge from completion on.
   */
  lemma {:induction false} RowsOnlyEvolve(later: History<Event>, earlier: History<Event>, id: PaymentId)
    requires Extends(later, earlier) && id in After(earlier).payments
    ensures id in After(later).payments && Evolves(After(earlier).payments[id], After(later).payments[id])
  {
    if later != earlier {
      RowsOnlyEvolve(later.past, earlier, id);
      ReachableOk(later.past);
      ApplyEvolves(After(later.past), later.last, id);
    }
  }

  // ----- at most one grant per charge and per invoice -----

  /** Grants of this charge that created an account and returned its plaintext key. */
  ghost function NewGrants(h: History<Event>, provider: string, ref: string): nat {
    match h
    case Start => 0
    case Then(past, e) =>
      NewGrants(past, provider, ref)
      + if e.GrantPro? && e.grant.provider == provider && e.grant.ref == ref
        && GrantOutcome(After(past), e.grant, e.faulty).Granted?
        then 1 else 0
  }

  ghost function InvoiceGrants(h: History<Event>, invoice: PaymentId): nat {
    match h
    case Start => 0
    case Then(past, e) =>
      InvoiceGrants(past, invoice)
      + if e.GrantPro? && e.grant.invoice == For(invoice) && GrantOutcome(After(past), e.grant, e.faulty).Granted?
        then 1 else 0
  }

  /** Payment `id` carries the charge and is no longer pending. */
  ghost predicate Closed(b: Books, id: PaymentId, provider: string, ref: string) {
    IsCharge(b.payments, id, provider, ref) && !b.payments[id].status.Pending?
  }

  /** A charge whose payment is closed never creates another account, whatever invoice is named. */
  lemma {:induction false} ClosedChargeIsNotGranted(b: Books, id: PaymentId, g: Grant, faulty: bool)
    requires BooksOk(b) && Closed(b, id, g.provider, g.ref)
    ensures !GrantOutcome(b, g, faulty).Granted?
  {
    assert id in Charges(b.payments, g.provider, g.ref);
    if Decide(b, g).Settle? { SettleFinds(b, g); }
  }

  /** The payment a winning grant settles. */
  function SettledId(g: Grant): (id: PaymentId) {
    if g.invoice.For? then g.invoice.id else g.newPayment
  }

  lemma {:induction false} GrantCloses(b: Books, g: Grant, faulty: bool)
    requires BooksOk(b) && GrantOutcome(b, g, faulty).Granted?
    ensures var r := Apply(b, GrantPro(g, faulty));
            && Closed(r, SettledId(g), g.provider, g.ref)
            && r.payments[SettledId(g)].status.Completed? && r.payments[SettledId(g)].product.ProTier?
            && r.payments[SettledId(g)].accountId == Some(g.newAccount)
            && g.newAccount !in b.accounts && r.accounts == b.accounts[g.newAccount := Pro]
  {
    SettleFinds(b, g);
  }

  lemma {:induction false} GrantedMeansClosed(h: History<Event>, provider: string, ref: string) returns (id: PaymentId)
    ensures NewGrants(h, provider, ref) <= 1
    ensures NewGrants(h, provider, ref) == 1 ==> Closed(After(h), id, provider, ref)
  {
    match h
    case Start => id := 0;
    case Then(past, e) =>
      ReachableOk(past);
      id := GrantedMeansClosed(past, provider, ref);
      if e.GrantPro? && e.grant.provider == provider && e.grant.ref == ref
        && GrantOutcome(After(past), e.grant, e.faulty).Granted? {
        if NewGrants(past, provider, ref) == 1 { ClosedChargeIsNotGranted(After(past), id, e.grant, e.faulty); }
        GrantCloses(After(past), e.grant, e.faulty);
        id := SettledId(e.grant);
      } else if NewGrants(past, provider, ref) == 1 {
        ApplyEvolves(After(past), e, id);
      }
  }

  /** Over any run a charge creates at most one account and hands out at most one plaintext key. */
  lemma {:induction false} OneAccountPerCharge(h: History<Event>, provider: string, ref: string)
    ensures NewGrants(h, provider, ref) <= 1
  {
    var _ := GrantedMeansClosed(h, provider, ref);
  }

  /** So does an invoice, whichever charges are confirmed against it. */
  lemma {:induction false} OneAccountPerInvoice(h: History<Event>, invoice: PaymentId)
    ensures InvoiceGrants(h, invoice) <= 1
    ensures InvoiceGrants(h, invoice) == 1 ==>
            invoice in After(h).payments && !After(h).payments[invoice].status.Pending?
  {
    match h
    case Start =>
    case Then(past, e) =>
      ReachableOk(past);
      OneAccountPerInvoice(past, invoice);
      if e.GrantPro? && e.grant.invoice == For(invoice) && GrantOutcome(After(past), e.grant, e.faulty).Granted? {
        SettleFinds(After(past), e.grant);
      } else if invoice in After(past).payments {
        ApplyEvolves(After(past), e, invoice);
      }
  }

  // ----- replays and refunds -----

  /** `id` is the only row carrying its charge. */
  lemma {:induction false} ChargeIsUnique(b: Books, id: PaymentId, provider: string, ref: string)
    requires BooksOk(b) && IsCharge(b.payments, id, provider, ref)
    ensures Charges(b.payments, provider, ref) == {id}
    ensures forall other :: other in b.payments && other != id ==> RefTaken(b.payments, other, provider, Some(ref))
  {
    assert !RefTaken(b.payments, id, provider, Some(ref));
  }

  /** A charge whose payment was refunded is refused from then on, whatever invoice is named. */
  lemma {:induction false} RefundedChargeIsRefused(h: History<Event>, earlier: History<Event>, id: PaymentId, g: Grant)
    requires Extends(h, earlier)
    requires IsCharge(After(earlier).payments, id, g.provider, g.ref) && After(earlier).payments[id].status.Refunded?
    ensures GrantOutcome(After(h), g, false).Refused?
  {
    RowsOnlyEvolve(h, earlier, id);
    ReachableOk(h);
    ChargeIsUnique(After(h), id, g.provider, g.ref);
  }

  lemma {:induction false} AccountsLast(later: History<Event>, earlier: History<Event>, account: AccountId)
    requires Extends(later, earlier) && account in After(earlier).accounts
    ensures account in After(later).accounts && After(later).accounts[account] == After(earlier).accounts[account]
  {
    if later != earlier {
      AccountsLast(later.past, earlier, account);
    }
  }

  /**
   After a grant, the same charge confirmed again, with the invoice it settled or with none,
   returns the account of the grant and no key, unless the payment has been refunded.
   */
  lemma {:induction false} ReplayReturnsSameAccount(h: History<Event>, past: History<Event>, g: Grant, faulty: bool,
                                                    again: Grant)
    requires GrantOutcome(After(past), g, faulty).Granted? && Extends(h, Then(past, GrantPro(g, faulty)))
    requires again.provider == g.provider && again.ref == g.ref
    requires again.invoice == NoInvoice || again.invoice == For(SettledId(g))
    ensures SettledId(g) in After(h).payments
    ensures GrantOutcome(After(h), again, false)
         == if After(h).payments[SettledId(g)].status.Completed? then Replayed(g.newAccount) else Refused
  {
    var granted := Then(past, GrantPro(g, faulty));
    ReachableOk(past);
    GrantCloses(After(past), g, faulty);
    RowsOnlyEvolve(h, granted, SettledId(g));
    AccountsLast(h, granted, g.newAccount);
    ReachableOk(h);
    ChargeIsUnique(After(h), SettledId(g), g.provider, g.ref);
    assert !RefTaken(After(h).payments, SettledId(g), g.provider, Some(g.ref));
  }

  // ----- key delivery -----

  /** `later` continues `earlier` without releasing the key claim of payment `id`. */
  ghost predicate NoRelease(later: History<Event>, earlier: History<Event>, id: PaymentId) {
    later == earlier || (later.Then? && later.last != ReleaseKey(id) && NoRelease(later.past, earlier, id))
  }

  lemma {:induction false} DeliveryStands(later: History<Event>, earlier: History<Event>, id: PaymentId)
    requires NoRelease(later, earlier, id)
    requires id in After(earlier).payments && After(earlier).payments[id].keyDelivered
    ensures id in After(later).payments && After(later).payments[id].keyDelivered
  {
    if later != earlier {
      DeliveryStands(later.past, earlier, id);
      ReachableOk(later.past);
      ApplyEvolves(After(later.past), later.last, id);
    }
  }

  /** Between two winning key claims on one payment there is a release. */
  lemma {:induction false} SecondClaimNeedsRelease(later: History<Event>, past: History<Event>, id: PaymentId)
    requires Writes(After(past), ClaimKey(id))
    requires NoRelease(later, Then(past, ClaimKey(id)), id)
    ensures !Writes(After(later), ClaimKey(id))
  {
    DeliveryStands(later, Then(past, ClaimKey(id)), id);
  }
}
