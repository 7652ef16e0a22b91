/**
 What the floor of the ledger's debits exists for (src/modules/accounting/ledger.service.ts): over any
 run of ledger calls, with holds placed in between that the balance covers, no account falls below
 its committed funds or, unless it may, below its minimum balance.
 */
module LedgerFunds {
  import opened Outcomes
  import opened LedgerModel
  import opened LedgerInvariants
  import BalanceRace

  ghost predicate AllFunded(accounts: map<string, Account>) {
    forall id :: id in accounts ==> BalanceRace.Funded(accounts[id])
  }

  /** What an account needs may fall, or rise to what its balance covers; a new account is funded. */
  ghost predicate Fits(db: Books, op: Op) {
    op.External? ==>
      forall id :: id in op.accounts ==>
        || BalanceRace.Needs(op.accounts[id]) <= op.accounts[id].balance
        || (id in db.accounts && BalanceRace.Needs(op.accounts[id]) <= BalanceRace.Needs(db.accounts[id]))
  }

  ghost predicate FittingRun(db: Books, ops: seq<Op>) {
    forall k :: 0 <= k < |ops| ==> Fits(Run(db, ops[..k]), ops[k])
  }

  /** A hold that the balance covers when it is placed fits. */
  lemma CoveredHoldFits(a: Account, amount: int)
    requires BalanceRace.Funded(a) && BalanceRace.CanHold(a, amount)
    ensures BalanceRace.Needs(a.(frozenSavings := a.frozenSavings + amount)) <= a.balance
  {
  }

  lemma ChangeKeepsFunded(accounts: map<string, Account>, tenantId: string, accountId: string, amount: int,
                          direction: Direction)
    requires AllFunded(accounts) && amount > 0
    requires ApplyBalanceChange(accounts, tenantId, accountId, amount, direction).Success?
    ensures AllFunded(ApplyBalanceChange(accounts, tenantId, accountId, amount, direction).value.accounts)
  {
    assert accountId in accounts && BalanceRace.Funded(accounts[accountId]);
  }

  lemma PostKeepsFunded(db: Books, op: Op)
    requires op.Post? && AllFunded(db.accounts)
    ensures AllFunded(Step(db, op).accounts)
  {
    hide FindReference, FindEntry, ApplyBalanceChange, ResolveGlCodes, GlConfigured, HasEntryNumber, AllFunded;
    var amount := Decimals.ToUnits(op.kes);
    if amount > 0 && ApplyBalanceChange(db.accounts, op.tenantId, op.accountId, amount, op.direction).Success? {
      ChangeKeepsFunded(db.accounts, op.tenantId, op.accountId, amount, op.direction);
    }
  }

  lemma TransferKeepsFunded(db: Books, op: Op)
    requires op.Transfer? && AllFunded(db.accounts)
    ensures AllFunded(Step(db, op).accounts)
  {
    hide FindReference, FindEntry, ApplyBalanceChange, ResolveGlCodes, GlConfigured, HasEntryNumber,
         HasReference, AllFunded;
    var amount := Decimals.ToUnits(op.kes);
    var from := ApplyBalanceChange(db.accounts, op.tenantId, op.source, amount, DEBIT);
    if amount > 0 && from.Success? {
      ChangeKeepsFunded(db.accounts, op.tenantId, op.source, amount, DEBIT);
      if ApplyBalanceChange(from.value.accounts, op.tenantId, op.destination, amount, CREDIT).Success? {
        ChangeKeepsFunded(from.value.accounts, op.tenantId, op.destination, amount, CREDIT);
      }
    }
  }

  lemma ReverseKeepsFunded(db: Books, op: Op)
    requires op.Reverse? && Valid(db) && AllFunded(db.accounts)
    ensures AllFunded(Step(db, op).accounts)
  {
    if op.original < |db.transactions| {
      assert RowOk(db.accounts, db.transactions[op.original]);
      hide Valid, RowOk, FindEntry, ApplyBalanceChange, HasReversal, HasEntryNumber, HasReference, AllFunded;
      var row := db.transactions[op.original];
      var direction := if row.balanceAfter >= row.balanceBefore then DEBIT else CREDIT;
      if ApplyBalanceChange(db.accounts, op.tenantId, row.accountId, row.amount, direction).Success? {
        ChangeKeepsFunded(db.accounts, op.tenantId, row.accountId, row.amount, direction);
      }
    }
  }

  lemma MatchKeepsFunded(db: Books, op: Op)
    requires op.Match? && MpesaOk(db) && AllFunded(db.accounts)
    ensures AllFunded(Step(db, op).accounts)
  {
    hide FindReference, ApplyBalanceChange, GlConfigured, HasEntryNumber, AllFunded;
    if op.mpesaId in db.mpesa {
      var amount := db.mpesa[op.mpesaId].amount;
      if ApplyBalanceChange(db.accounts, op.tenantId, op.accountId, amount, CREDIT).Success? {
        ChangeKeepsFunded(db.accounts, op.tenantId, op.accountId, amount, CREDIT);
      }
    }
  }

  lemma ExternalKeepsFunded(db: Books, op: Op)
    requires op.External? && AllFunded(db.accounts) && Fits(db, op)
    ensures AllFunded(Step(db, op).accounts)
  {
    forall id | id in Step(db, op).accounts
      ensures BalanceRace.Funded(Step(db, op).accounts[id])
    {
      assert id in db.accounts ==> BalanceRace.Funded(db.accounts[id]);
    }
  }

  lemma StepKeepsFunded(db: Books, op: Op)
    requires Valid(db) && AllFunded(db.accounts) && Fits(db, op)
    ensures AllFunded(Step(db, op).accounts)
  {
    hide Step, AllFunded, Fits;
    match op
    case Post(_, _, _, _, _, _) => PostKeepsFunded(db, op);
    case Transfer(_, _, _, _, _) => TransferKeepsFunded(db, op);
    case Reverse(_, _) => ReverseKeepsFunded(db, op);
    case Match(_, _, _) => MatchKeepsFunded(db, op);
    case External(_, _, _) => ExternalKeepsFunded(db, op);
  }

  lemma FittingPrefix(db: Books, ops: seq<Op>, n: nat)
    requires FittingRun(db, ops) && n < |ops|
    ensures FittingRun(db, ops[..n]) && Fits(Run(db, ops[..n]), ops[n])
  {
    hide Run, Fits;
    forall k | 0 <= k < n
      ensures ops[..n][..k] == ops[..k]
    {
    }
  }

  /**
   After any run of ledger calls from a funded opening, in which holds and policies change only as the
   balances allow, every account covers its committed funds and, unless it may go below it, its
   minimum balance.
   */
  lemma {:induction false} EveryAccountFunded(db: Books, ops: seq<Op>)
    requires Opening(db) && AllFunded(db.accounts) && FittingRun(db, ops)
    ensures AllFunded(Run(db, ops).accounts)
  {
    hide Step, AllFunded, Valid, Opening, FittingRun, Fits;
    if ops != [] {
      var n := |ops| - 1;
      FittingPrefix(db, ops, n);
      EveryAccountFunded(db, ops[..n]);
      RunKeepsValid(db, ops[..n]);
      StepKeepsFunded(Run(db, ops[..n]), ops[n]);
    }
  }
}
