/** The payment repository, updating the payments and accounts tables in place. */
module PaymentTables {
  import opened Options
  import opened Histories
  import opened Payments

  /** Where a transaction breaks: on its way in, or after it has inserted the account. */
  datatype Fault = NoFault | Early | Late

  /** The row, None for a refusal, or the error of a unique index or foreign key. */
  datatype Completion = Done(row: Payment) | RefusedHere | Raised

  /** Whether a row was updated, or the error of a unique index. */
  datatype Update = Updated(any: bool) | UpdateRaised

  // ----- which confirmations are granted, on the rows alone -----

  ghost predicate Carries(p: Payment, provider: string, ref: string) {
    p.provider == provider && p.externalRef == Some(ref)
  }

  /** A charge nobody has been credited for: against an open Pro invoice, or against none. */
  ghost predicate FirstConfirmation(rows: Rows, g: Grant) {
    && g.provider != "" && g.ref != ""
    && match g.invoice
       case Malformed => false
       case NoInvoice => forall id :: id in rows ==> !Carries(rows[id], g.provider, g.ref)
       case For(id) =>
         && id in rows && rows[id].provider == g.provider && rows[id].product == ProTier
         && rows[id].status == Pending && rows[id].accountId == None
         && (rows[id].externalRef == None || rows[id].externalRef == Some(g.ref))
         && forall other :: other in rows && other != id ==> !Carries(rows[other], g.provider, g.ref)
  }

  /** Row `id` records the charge as completed for `account`, a Pro account, and is the invoice if one is named. */
  ghost predicate CreditedBy(b: Books, g: Grant, account: AccountId, id: PaymentId) {
    && id in b.payments && Carries(b.payments[id], g.provider, g.ref)
    && b.payments[id].product == ProTier && b.payments[id].status == Completed
    && b.payments[id].accountId == Some(account) && account in b.accounts && b.accounts[account] == Pro
    && (g.invoice == NoInvoice || g.invoice == For(id))
  }

  ghost predicate Credited(b: Books, g: Grant, account: AccountId) {
    g.provider != "" && g.ref != "" && exists id :: CreditedBy(b, g, account, id)
  }

  /** The transaction goes on to create an account exactly on a first confirmation. */
  lemma {:induction false} SettlesIff(b: Books, g: Grant)
    requires BooksOk(b)
    ensures Decide(b, g).Settle? <==> FirstConfirmation(b.payments, g)
  {
    forall id | id in b.payments
      ensures Carries(b.payments[id], g.provider, g.ref) <==> id in Charges(b.payments, g.provider, g.ref)
    {
    }
    if Decide(b, g).Settle? { SettleFinds(b, g); }
    if FirstConfirmation(b.payments, g) && g.invoice.For? {
      assert !RefTaken(b.payments, g.invoice.id, g.provider, Some(g.ref));
    }
  }

  /** It replays exactly a charge that is already credited. */
  lemma {:induction false} ReplaysIff(b: Books, g: Grant, account: AccountId)
    requires BooksOk(b)
    ensures Decide(b, g) == Replay(account) <==> Credited(b, g, account)
  {
    if Decide(b, g) == Replay(account) {
      ReplayFinds(b, g, account);
    } else if Credited(b, g, account) {
      var id :| CreditedBy(b, g, account, id);
      CreditedIsReplayed(b, g, account, id);
    }
  }

  /** Another row than `id` carries the charge. */
  ghost predicate CarriedElsewhere(rows: Rows, id: PaymentId, provider: string, ref: string) {
    exists other :: other in rows && other != id && Carries(rows[other], provider, ref)
  }

  lemma {:induction false} ReplayFinds(b: Books, g: Grant, account: AccountId)
    requires BooksOk(b) && Decide(b, g) == Replay(account)
    ensures Credited(b, g, account)
  {
    if g.invoice.For? {
      assert CreditedBy(b, g, account, g.invoice.id);
    } else {
      var id :| id in Charges(b.payments, g.provider, g.ref) && DecideOn(b, g, id) == Replay(account);
      assert CreditedBy(b, g, account, id);
    }
  }

  lemma {:induction false} CreditedIsReplayed(b: Books, g: Grant, account: AccountId, id: PaymentId)
    requires BooksOk(b) && g.provider != "" && g.ref != "" && CreditedBy(b, g, account, id)
    ensures Decide(b, g) == Replay(account)
  {
    assert id in Charges(b.payments, g.provider, g.ref);
    ChargeIsUnique(b, id, g.provider, g.ref);
    assert !RefTaken(b.payments, id, g.provider, Some(g.ref));
  }

  class PaymentRepository {
    var payments: Rows
    var accounts: map<AccountId, Tier>
    ghost var history: History<Event>

    ghost predicate Valid()
      reads this
    {
      After(history) == Books(payments, accounts)
    }

    ghost function Current(): Books
      reads this
    {
      Books(payments, accounts)
    }

    constructor ()
      ensures Valid() && history == Start
    {
      payments, accounts, history := map[], map[], Start;
    }

    /** Mints an account of any tier without a payment. */
    method CreateAccount(account: AccountId, tier: Tier) returns (created: bool)
      requires Valid()
      modifies this
      ensures Valid() && payments == old(payments)
      ensures history == Then(old(history), Event.CreateAccount(account, tier))
      ensures created <==> account !in old(accounts)
      ensures accounts == if created then old(accounts)[account := tier] else old(accounts)
    {
      history := Then(history, Event.CreateAccount(account, tier));
      created := account !in accounts;
      if created {
        accounts := accounts[account := tier];
      }
    }

    /** The reads of the grant transaction: what it may do about the invoice and the charge. */
    method Examine(g: Grant) returns (d: Decision)
      requires BooksOk(Current())
      ensures d == Decide(Current(), g)
      ensures d == Settle <==> FirstConfirmation(payments, g)
      ensures forall account :: d == Replay(account) <==> Credited(Current(), g, account)
    {
      SettlesIff(Current(), g);
      forall account ensures Decide(Current(), g) == Replay(account) <==> Credited(Current(), g, account) {
        ReplaysIff(Current(), g, account);
      }
      if g.provider == "" || g.ref == "" || g.invoice.Malformed? {
        return Refuse;
      }
      if g.invoice.For? {
        if g.invoice.id !in payments {
          return Refuse;
        }
        var invoice := payments[g.invoice.id];
        if invoice.provider != g.provider || !invoice.product.ProTier? {
          return Refuse;
        }
        if invoice.externalRef != None && invoice.externalRef != Some(g.ref) {
          return Refuse;
        }
      }
      var existing := Charges(payments, g.provider, g.ref);
      assert forall other :: other in payments && IsCharge(payments, other, g.provider, g.ref) ==> other in existing;
      if existing == {} {
        if g.invoice.NoInvoice? {
          return Settle;
        }
        d := ExamineRow(g, g.invoice.id);
      } else {
        var id :| id in existing;
        ChargeIsUnique(Current(), id, g.provider, g.ref);
        if g.invoice.For? && id != g.invoice.id {
          return Refuse;
        }
        d := ExamineRow(g, id);
      }
    }

    method ExamineRow(g: Grant, id: PaymentId) returns (d: Decision)
      requires id in payments
      ensures d == DecideOn(Current(), g, id)
    {
      var payment := payments[id];
      if payment.provider != g.provider || !payment.product.ProTier? {
        return Refuse;
      }
      if payment.status.Completed? {
        if payment.accountId == None || payment.externalRef != Some(g.ref) {
          return Refuse;
        }
        if payment.accountId.value !in accounts || accounts[payment.accountId.value] != Pro {
          return Refuse;
        }
        return Replay(payment.accountId.value);
      }
      if !payment.status.Pending? || payment.accountId != None || !g.invoice.For? {
        return Refuse;
      }
      d := Settle;
    }

    /**
     Creates a Pro account and settles its payment in one transaction. Whatever breaks, both
     tables are as before; only a new account comes with a key.
     */
    method GrantProAccount(g: Grant, fault: Fault) returns (r: GrantResult)
      requires Valid()
      modifies this
      ensures Valid()
      ensures var faulty := fault.Early? || (fault.Late? && Decide(old(Current()), g).Settle?);
              history == Then(old(history), GrantPro(g, faulty)) && r == GrantOutcome(old(Current()), g, faulty)
      // A first confirmation, and nothing else, creates the account and settles its payment.
      ensures r.Granted? <==> fault.NoFault? && FirstConfirmation(old(payments), g) && g.newAccount !in old(accounts)
                              && (g.invoice == NoInvoice ==> g.newPayment !in old(payments))
      ensures r.Granted? ==> r.account == g.newAccount && accounts == old(accounts)[g.newAccount := Pro]
      ensures r.Granted? && g.invoice.For? ==>
                payments == old(payments)[g.invoice.id := old(payments)[g.invoice.id].(
                  status := Completed, accountId := Some(g.newAccount), externalRef := Some(g.ref))]
      ensures r.Granted? && !g.invoice.For? ==>
                payments == old(payments)[g.newPayment :=
                  Payment(Some(g.newAccount), g.provider, Some(g.ref), Completed, ProTier, None, None, None, false)]
      // A charge that is already credited gets its account back; a fault or a clash of ids raises; the rest is refused.
      ensures forall account :: r == Replayed(account) <==> !fault.Early? && Credited(old(Current()), g, account)
      ensures r.Failed? <==> fault.Early? || (FirstConfirmation(old(payments), g)
                               && (fault.Late? || g.newAccount in old(accounts)
                                   || (g.invoice == NoInvoice && g.newPayment in old(payments))))
      ensures !r.Granted? ==> Current() == old(Current())
    {
      ghost var was := Current();
      ReachableOk(history);
      history := Then(history, GrantPro(g, fault.Early? || (fault.Late? && Decide(was, g).Settle?)));
      if fault.Early? {
        return Failed;
      }
      var d := Examine(g);
      if d.Refuse? {
        return Refused;
      }
      if d.Replay? {
        return Replayed(d.account);
      }
      SettleFinds(was, g);
      if g.newAccount in accounts {
        return Failed;
      }
      var savedPayments, savedAccounts := payments, accounts;
      accounts := accounts[g.newAccount := Pro];
      var settled := false;
      if !fault.Late? {
        if g.invoice.For? {
          var row := payments[g.invoice.id];
          settled := row.provider == g.provider && row.product.ProTier? && row.status.Pending? && row.accountId == None
                     && (row.externalRef == None || row.externalRef == Some(g.ref));
          if settled {
            payments := payments[g.invoice.id :=
              row.(status := Completed, accountId := Some(g.newAccount), externalRef := Some(g.ref))];
          }
          // The guard of the settling update cannot fail: the rows it reads were read under the same lock.
          assert settled;
        } else if g.newPayment !in payments {
          payments := payments[g.newPayment :=
            Payment(Some(g.newAccount), g.provider, Some(g.ref), Completed, ProTier, None, None, None, false)];
          settled := true;
        }
      }
      if !settled {
        payments, accounts := savedPayments, savedAccounts;
        return Failed;
      }
      r := Granted(g.newAccount);
    }

    method MarkCompleted(id: PaymentId, account: AccountId, ref: string) returns (r: Completion)
      requires Valid()
      modifies this
      ensures Valid() && accounts == old(accounts)
      ensures history == Then(old(history), Event.MarkCompleted(id, account, ref))
      ensures !r.Done? ==> payments == old(payments)
      // A refusal names a second charge, a second account or a refunded payment.
      ensures r.RefusedHere? <==>
                || id !in old(payments)
                || (old(payments)[id].status == Completed && old(payments)[id].externalRef != Some(ref))
                || old(payments)[id].status == Refunded
                || (old(payments)[id].accountId.Some? && old(payments)[id].accountId != Some(account))
      // The same charge for the same account arriving again changes nothing.
      ensures r.Done? && old(payments)[id].status.Completed? && old(payments)[id].accountId == Some(account) ==>
              payments == old(payments)
      ensures r.Done? ==>
                && r.row
                  == old(payments)[id].(status := Completed, accountId := Some(account), externalRef := Some(ref))
                && payments == old(payments)[id := r.row]
      // What is not refused raises exactly on an unknown account or a charge that another row carries.
      ensures !r.RefusedHere? ==>
                (r.Raised? <==> account !in old(accounts)
                                || CarriedElsewhere(old(payments), id, old(payments)[id].provider, ref))
    {
      history := Then(history, Event.MarkCompleted(id, account, ref));
      if id !in payments {
        return RefusedHere;
      }
      var p := payments[id];
      if !((p.accountId == None || p.accountId == Some(account))
           && (p.status.Pending? || (p.status.Completed? && p.externalRef == Some(ref)))) {
        return RefusedHere;
      }
      var clash := set other | other in payments && other != id && IsCharge(payments, other, p.provider, ref);
      if account !in accounts || clash != {} {
        assert clash != {} ==> RefTaken(payments, id, p.provider, Some(ref)) by {
          if clash != {} { var other :| other in clash; }
        }
        return Raised;
      }
      assert !RefTaken(payments, id, p.provider, Some(ref)) by {
        forall other | other in payments && other != id ensures !IsCharge(payments, other, p.provider, ref) {
          assert other !in clash;
        }
      }
      payments := payments[id := p.(status := Completed, accountId := Some(account), externalRef := Some(ref))];
      r := Done(payments[id]);
    }

    method MarkCompletedFixpack(id: PaymentId, ref: string, job: Option<JobId>) returns (r: Completion)
      requires Valid()
      modifies this
      ensures Valid() && accounts == old(accounts)
      ensures history == Then(old(history), Event.MarkCompletedFixpack(id, ref, job))
      ensures !r.Done? ==> payments == old(payments)
      ensures r.RefusedHere? <==>
                || id !in old(payments)
                || (old(payments)[id].status == Completed && old(payments)[id].externalRef != Some(ref))
                || old(payments)[id].status == Refunded
      // A retry without a job does not blank the link an earlier attempt wrote.
      ensures r.Done? ==>
                && r.row == old(payments)[id].(status := Completed, externalRef := Some(ref),
                              fixpackJobId := if job.Some? then job else old(payments)[id].fixpackJobId)
                && payments == old(payments)[id := r.row]
      ensures !r.RefusedHere? ==>
                (r.Raised? <==> CarriedElsewhere(old(payments), id, old(payments)[id].provider, ref))
    {
      history := Then(history, Event.MarkCompletedFixpack(id, ref, job));
      if id !in payments {
        return RefusedHere;
      }
      var p := payments[id];
      if !(p.status.Pending? || (p.status.Completed? && p.externalRef == Some(ref))) {
        return RefusedHere;
      }
      var clash := set other | other in payments && other != id && IsCharge(payments, other, p.provider, ref);
      if clash != {} {
        assert RefTaken(payments, id, p.provider, Some(ref)) by { var other :| other in clash; }
        return Raised;
      }
      assert !RefTaken(payments, id, p.provider, Some(ref)) by {
        forall other | other in payments && other != id ensures !IsCharge(payments, other, p.provider, ref) {
          assert other !in clash;
        }
      }
      payments := payments[id := p.(status := Completed, externalRef := Some(ref),
                                    fixpackJobId := if job.Some? then job else p.fixpackJobId)];
      r := Done(payments[id]);
    }

    /** Inserts an order; a charge or provider payment id that is already recorded raises. */
    method Create(id: PaymentId, row: Payment) returns (created: bool)
      requires Valid() && row.chatId == None && !row.keyDelivered
      modifies this
      ensures Valid() && accounts == old(accounts)
      ensures history == Then(old(history), Event.Create(id, row))
      ensures created <==>
                && id !in old(payments)
                && (row.accountId.Some? ==> row.accountId.value in old(accounts))
                && (row.externalRef.Some? ==>
                      forall other :: other in old(payments) ==>
                        !Carries(old(payments)[other], row.provider, row.externalRef.value))
                && (row.providerPaymentId.Some? ==>
                      forall other :: other in old(payments) ==>
                        old(payments)[other].providerPaymentId != row.providerPaymentId)
      ensures payments == if created then old(payments)[id := row] else old(payments)
    {
      history := Then(history, Event.Create(id, row));
      created := id !in payments
                 && (row.accountId.Some? ==> row.accountId.value in accounts)
                 && !RefTaken(payments, id, row.provider, row.externalRef)
                 && !ProviderIdTaken(payments, id, row.providerPaymentId);
      if created {
        payments := payments[id := row];
      }
    }

    /** False for a missing order or one that has its id; an id another order has raises. */
    method SetProviderPaymentId(id: PaymentId, pid: string) returns (r: Update)
      requires Valid()
      modifies this
      ensures Valid() && accounts == old(accounts)
      ensures history == Then(old(history), Event.SetProviderPaymentId(id, pid))
      ensures r == Updated(false) <==> id !in old(payments) || old(payments)[id].providerPaymentId.Some?
      ensures r != Updated(false) ==>
                (r == UpdateRaised <==>
                  exists other :: other in old(payments) && old(payments)[other].providerPaymentId == Some(pid))
      ensures payments == if r == Updated(true)
                          then old(payments)[id := old(payments)[id].(providerPaymentId := Some(pid))]
                          else old(payments)
    {
      history := Then(history, Event.SetProviderPaymentId(id, pid));
      if id !in payments || payments[id].providerPaymentId.Some? {
        return Updated(false);
      }
      if ProviderIdTaken(payments, id, Some(pid)) {
        return UpdateRaised;
      }
      payments := payments[id := payments[id].(providerPaymentId := Some(pid))];
      r := Updated(true);
    }

    method MarkRefunded(id: PaymentId) returns (r: Completion)
      requires Valid()
      modifies this
      ensures Valid() && accounts == old(accounts)
      ensures history == Then(old(history), Event.MarkRefunded(id))
      ensures r.Done? <==> id in old(payments) && old(payments)[id].status.Completed?
      ensures r.Done? ==> payments == old(payments)[id := old(payments)[id].(status := Refunded)]
      ensures !r.Done? ==> payments == old(payments)
    {
      history := Then(history, Event.MarkRefunded(id));
      if id !in payments || !payments[id].status.Completed? {
        return RefusedHere;
      }
      payments := payments[id := payments[id].(status := Refunded)];
      r := Done(payments[id]);
    }

    /** First link wins; the answer is whoever owns the payment now. */
    method LinkChat(id: PaymentId, chat: string) returns (owner: Option<string>)
      requires Valid()
      modifies this
      ensures Valid() && accounts == old(accounts)
      ensures history == Then(old(history), Event.LinkChat(id, chat))
      ensures id !in old(payments) ==> owner == None && payments == old(payments)
      ensures id in old(payments) ==>
                && owner == (if old(payments)[id].chatId.Some? then old(payments)[id].chatId else Some(chat))
                && payments == old(payments)[id := old(payments)[id].(chatId := owner)]
    {
      history := Then(history, Event.LinkChat(id, chat));
      if id !in payments {
        return None;
      }
      if payments[id].chatId == None || payments[id].chatId == Some(chat) {
        payments := payments[id := payments[id].(chatId := Some(chat))];
      }
      owner := payments[id].chatId;
    }

    method ClaimKeyDelivery(id: PaymentId) returns (won: bool)
      requires Valid()
      modifies this
      ensures Valid() && accounts == old(accounts)
      ensures history == Then(old(history), ClaimKey(id))
      ensures won <==> id in old(payments) && old(payments)[id].status.Completed? && !old(payments)[id].keyDelivered
      ensures won ==> payments == old(payments)[id := old(payments)[id].(keyDelivered := true)]
      ensures !won ==> payments == old(payments)
    {
      history := Then(history, ClaimKey(id));
      won := id in payments && payments[id].status.Completed? && !payments[id].keyDelivered;
      if won {
        payments := payments[id := payments[id].(keyDelivered := true)];
      }
    }

    method ReleaseKeyDelivery(id: PaymentId)
      requires Valid()
      modifies this
      ensures Valid() && accounts == old(accounts)
      ensures history == Then(old(history), ReleaseKey(id))
      ensures payments == if id in old(payments)
                          then old(payments)[id := old(payments)[id].(keyDelivered := false)]
                          else old(payments)
    {
      history := Then(history, ReleaseKey(id));
      if id in payments {
        payments := payments[id := payments[id].(keyDelivered := false)];
      }
    }
  }
}
