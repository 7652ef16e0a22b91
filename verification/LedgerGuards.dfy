/**
 When a ledger call goes through (src/modules/accounting/ledger.service.ts and
 src/modules/accounting/accounting.service.ts): the exact guard of each, in terms of the rows that it
 finds. Together with `LedgerRecords`, which says what a call that goes through leaves behind.
 */
module LedgerGuards {
  import opened Decimals
  import opened Outcomes
  import opened LedgerModel
  import opened LedgerInvariants

  /**
   The tenant's account is active and, for a debit, covers its committed funds afterwards and its
   minimum balance; an account that may go below its minimum must not be negative before.
   */
  predicate CanMove(accounts: map<string, Account>, tenantId: string, accountId: string, amount: int,
                    direction: Direction) {
    && accountId in accounts && accounts[accountId].tenantId == tenantId && accounts[accountId].isActive
    && (direction == DEBIT ==>
          var a := accounts[accountId];
          && a.balance - amount >= a.lockedBalance + a.frozenSavings
          && (if a.allowsNegative then a.balance >= 0 else a.balance - amount >= a.minimumBalance))
  }

  predicate Unused(rows: seq<Transaction>, tenantId: string, reference: string) {
    forall i :: 0 <= i < |rows| ==> rows[i].tenantId != tenantId || rows[i].reference != reference
  }

  predicate UnusedNumber(entries: seq<JournalEntry>, tenantId: string, number: string) {
    forall e :: 0 <= e < |entries| ==> entries[e].tenantId != tenantId || entries[e].entryNumber != number
  }

  predicate Charted(db: Books, tenantId: string, codes: set<GlCode>) {
    tenantId in db.chart && codes <= db.chart[tenantId]
  }

  /** The codes that a posting of a journal type to an account needs. */
  predicate PostingCharted(db: Books, tenantId: string, journalType: JournalType, accountType: AccountType) {
    && Charted(db, tenantId, {if accountType == FOSA then FOSA_DEPOSITS else BOSA_DEPOSITS})
    && (journalType in {DEPOSIT, MPESA_DEPOSIT, WITHDRAWAL} ==> Charted(db, tenantId, {CASH}))
    && (journalType == FEE_CHARGE ==> Charted(db, tenantId, {FEE_INCOME}))
    && (journalType == LOAN_DISBURSEMENT ==> Charted(db, tenantId, {LOAN_RECEIVABLE}))
  }

  lemma CanMoveIff(accounts: map<string, Account>, tenantId: string, accountId: string, amount: int,
                   direction: Direction)
    ensures ApplyBalanceChange(accounts, tenantId, accountId, amount, direction).Success?
       <==> CanMove(accounts, tenantId, accountId, amount, direction)
  {
  }

  lemma UnusedIff(db: Books, tenantId: string, reference: string)
    ensures FindReference(db.transactions, tenantId, reference).None? <==> Unused(db.transactions, tenantId, reference)
    ensures !HasReference(db.transactions, tenantId, reference) <==> Unused(db.transactions, tenantId, reference)
    ensures !HasEntryNumber(db.entries, tenantId, reference) <==> UnusedNumber(db.entries, tenantId, reference)
  {
    var found := FindReference(db.transactions, tenantId, reference);
    if found.None? {
      assert forall k :: 0 <= k < |db.transactions| ==> !IsReference(db.transactions[k], tenantId, reference);
    } else {
      assert IsReference(db.transactions[found.value], tenantId, reference);
    }
    assert forall k :: 0 <= k < |db.transactions| ==>
      (IsReference(db.transactions[k], tenantId, reference)
       <==> db.transactions[k].tenantId == tenantId && db.transactions[k].reference == reference);
  }

  /** Exactly when a posting writes: five journal types can, on an account that can move, under a new reference. */
  lemma PostWritesIff(db: Books, op: Op)
    requires op.Post?
    ensures |Step(db, op).transactions| > |db.transactions| <==>
      && op.kes * 10000.0 >= 0.5 && Unused(db.transactions, op.tenantId, op.reference)
      && CanMove(db.accounts, op.tenantId, op.accountId, ToUnits(op.kes), op.direction)
      && op.journalType in {DEPOSIT, MPESA_DEPOSIT, WITHDRAWAL, FEE_CHARGE, LOAN_DISBURSEMENT}
      && PostingCharted(db, op.tenantId, op.journalType, db.accounts[op.accountId].accountType)
      && UnusedNumber(db.entries, op.tenantId, "JE-LEDGER-" + op.reference)
  {
    hide FindReference, FindEntry, HasReference, HasEntryNumber, ApplyBalanceChange, CanMove, Unused, UnusedNumber;
    UnusedIff(db, op.tenantId, op.reference);
    UnusedIff(db, op.tenantId, LedgerNumber(op.reference));
    CanMoveIff(db.accounts, op.tenantId, op.accountId, ToUnits(op.kes), op.direction);
    PositiveIff(op.kes);
    hide ToUnits;
    if CanMove(db.accounts, op.tenantId, op.accountId, ToUnits(op.kes), op.direction) {
      MovedType(db.accounts, op.tenantId, op.accountId, ToUnits(op.kes), op.direction);
    }
  }

  lemma MovedType(accounts: map<string, Account>, tenantId: string, accountId: string, amount: int,
                  direction: Direction)
    requires CanMove(accounts, tenantId, accountId, amount, direction)
    ensures ApplyBalanceChange(accounts, tenantId, accountId, amount, direction).Success?
    ensures ApplyBalanceChange(accounts, tenantId, accountId, amount, direction).value.accountType
         == accounts[accountId].accountType
  {
  }

  /** An amount is positive once rounded. */
  lemma PositiveIff(kes: real)
    ensures ToUnits(kes) > 0 <==> kes * 10000.0 >= 0.5
  {
  }

  /** The tenant has such an account and it is active. */
  predicate Reachable(accounts: map<string, Account>, tenantId: string, accountId: string) {
    accountId in accounts && accounts[accountId].tenantId == tenantId && accounts[accountId].isActive
  }

  lemma MoveRefusedFor(accounts: map<string, Account>, tenantId: string, accountId: string, amount: int,
                       direction: Direction)
    requires !CanMove(accounts, tenantId, accountId, amount, direction)
    ensures ApplyBalanceChange(accounts, tenantId, accountId, amount, direction)
         == Failure(if Reachable(accounts, tenantId, accountId) then InsufficientFunds else AccountNotFound)
  {
  }

  /** Why exactly a posting is refused, by the first check that it fails. */
  lemma PostRefusedFor(db: Books, op: Op)
    requires op.Post?
    ensures var isNew := op.kes * 10000.0 >= 0.5 && Unused(db.transactions, op.tenantId, op.reference);
      var moves := isNew && CanMove(db.accounts, op.tenantId, op.accountId, ToUnits(op.kes), op.direction);
      var typed := moves && op.journalType in {DEPOSIT, MPESA_DEPOSIT, WITHDRAWAL, FEE_CHARGE, LOAN_DISBURSEMENT};
      var charted := typed
        && PostingCharted(db, op.tenantId, op.journalType, db.accounts[op.accountId].accountType);
      && (Attempt(db, op) == Failure(AmountNotPositive) <==> op.kes * 10000.0 < 0.5)
      && (Attempt(db, op) == Failure(AccountNotFound) <==>
            isNew && !Reachable(db.accounts, op.tenantId, op.accountId))
      && (Attempt(db, op) == Failure(InsufficientFunds) <==>
            isNew && Reachable(db.accounts, op.tenantId, op.accountId) && !moves)
      && ((Attempt(db, op).Failure?
           && Attempt(db, op).error in {NoTransactionType, UnsupportedJournalType, NoCounterparty})
          <==> (moves && !typed))
      && (Attempt(db, op) == Failure(GlNotConfigured) <==> typed && !charted)
      && (Attempt(db, op) == Failure(UniqueViolation) <==>
            charted && !UnusedNumber(db.entries, op.tenantId, "JE-LEDGER-" + op.reference))
  {
    hide FindReference, FindEntry, HasReference, HasEntryNumber, ApplyBalanceChange, CanMove, Unused, UnusedNumber,
         Reachable;
    UnusedIff(db, op.tenantId, op.reference);
    UnusedIff(db, op.tenantId, LedgerNumber(op.reference));
    CanMoveIff(db.accounts, op.tenantId, op.accountId, ToUnits(op.kes), op.direction);
    PositiveIff(op.kes);
    hide ToUnits;
    if CanMove(db.accounts, op.tenantId, op.accountId, ToUnits(op.kes), op.direction) {
      MovedType(db.accounts, op.tenantId, op.accountId, ToUnits(op.kes), op.direction);
    } else {
      MoveRefusedFor(db.accounts, op.tenantId, op.accountId, ToUnits(op.kes), op.direction);
    }
    ReachableIfMoves(db.accounts, op.tenantId, op.accountId, ToUnits(op.kes), op.direction);
  }

  lemma ReachableIfMoves(accounts: map<string, Account>, tenantId: string, accountId: string, amount: int,
                         direction: Direction)
    ensures CanMove(accounts, tenantId, accountId, amount, direction) ==> Reachable(accounts, tenantId, accountId)
  {
  }

  /** Exactly when a transfer writes. */
  lemma TransferWritesIff(db: Books, op: Op)
    requires op.Transfer?
    ensures |Step(db, op).transactions| > |db.transactions| <==>
      && op.kes * 10000.0 >= 0.5 && op.source != op.destination
      && Unused(db.transactions, op.tenantId, op.reference + "-SRC")
      && Unused(db.transactions, op.tenantId, op.reference + "-DST")
      && CanMove(db.accounts, op.tenantId, op.source, ToUnits(op.kes), DEBIT)
      && CanMove(db.accounts, op.tenantId, op.destination, ToUnits(op.kes), CREDIT)
      && (forall id :: id in {op.source, op.destination} ==>
            Charted(db, op.tenantId, {if db.accounts[id].accountType == FOSA then FOSA_DEPOSITS else BOSA_DEPOSITS}))
      && UnusedNumber(db.entries, op.tenantId, "JE-LEDGER-" + op.reference)
  {
    hide FindReference, FindEntry, HasReference, HasEntryNumber, Unused, UnusedNumber;
    UnusedIff(db, op.tenantId, op.reference + "-SRC");
    UnusedIff(db, op.tenantId, op.reference + "-DST");
    UnusedIff(db, op.tenantId, LedgerNumber(op.reference));
    PositiveIff(op.kes);
    hide ToUnits;
  }

  /**
   Exactly when a reversal goes through, on sound books: the tenant's row is not reversed yet, has an
   entry of its own, as all rows but the destination legs of transfers have, its account can move
   back, and the reference and the number of the reversal are free.
   */
  lemma ReverseSucceedsIff(db: Books, op: Op)
    requires op.Reverse? && Valid(db)
    ensures Attempt(db, op).Success? <==>
      && op.original < |db.transactions|
      && var row := db.transactions[op.original];
        && row.tenantId == op.tenantId && row.status == COMPLETED && HasEntry(db.entries, op.original)
        && CanMove(db.accounts, op.tenantId, row.accountId, row.amount, if Movement(row) > 0 then DEBIT else CREDIT)
        && Unused(db.transactions, op.tenantId, row.reference + "-REVERSAL")
        && UnusedNumber(db.entries, op.tenantId, "JE-REVERSAL-" + row.reference)
  {
    hide Valid, FindEntry, HasReference, HasEntryNumber, ApplyBalanceChange, CanMove, Unused, UnusedNumber, HasEntry,
         HasReversal;
    if op.original < |db.transactions| && db.transactions[op.original].tenantId == op.tenantId {
      var row := db.transactions[op.original];
      RowMoves(db, op.original);
      EntryFoundIff(db, op.tenantId, op.original);
      UnusedIff(db, op.tenantId, row.reference + "-REVERSAL");
      UnusedIff(db, op.tenantId, "JE-REVERSAL-" + row.reference);
      CanMoveIff(db.accounts, op.tenantId, row.accountId, row.amount, if Movement(row) > 0 then DEBIT else CREDIT);
    }
  }

  lemma RowMoves(db: Books, i: nat)
    requires Valid(db) && i < |db.transactions|
    ensures Movement(db.transactions[i]) != 0
  {
    assert RowOk(db.accounts, db.transactions[i]);
  }

  /** On sound books the entry of a row is the one that is found, and that of a COMPLETED row is not reversed. */
  lemma EntryFoundIff(db: Books, tenantId: string, i: nat)
    requires Valid(db) && i < |db.transactions| && db.transactions[i].tenantId == tenantId
    ensures FindEntry(db.entries, tenantId, i).Some? <==> HasEntry(db.entries, i)
    ensures FindEntry(db.entries, tenantId, i).Some? ==>
      var e := FindEntry(db.entries, tenantId, i).value;
      && |db.entries[e].postings| == 1
      && (db.transactions[i].status == COMPLETED ==> !HasReversal(db.entries, tenantId, e))
  {
    if HasEntry(db.entries, i) {
      var e :| 0 <= e < |db.entries| && db.entries[e].transaction == i;
      assert EntryOk(db.transactions, db.entries[e]);
      assert IsEntryOf(db.entries[e], tenantId, i);
    }
    var found := FindEntry(db.entries, tenantId, i);
    if found.Some? {
      var e := found.value;
      assert EntryOk(db.transactions, db.entries[e]);
      if HasReversal(db.entries, tenantId, e) {
        var f :| 0 <= f < |db.entries| && db.entries[f].tenantId == tenantId && db.entries[f].reversalOf == Some(e);
        assert Reverses(db.transactions, db.entries[db.entries[f].reversalOf.value], db.entries[f]);
      }
    }
  }

  /** Exactly when a match goes through: a pending receipt of the tenant, an active account, and room for its entry. */
  lemma MatchSucceedsIff(db: Books, op: Op)
    requires op.Match?
    ensures Attempt(db, op).Success? <==>
      && op.mpesaId in db.mpesa && db.mpesa[op.mpesaId].tenantId == op.tenantId
      && db.mpesa[op.mpesaId].status == RECON_PENDING && db.mpesa[op.mpesaId].transaction == None
      && CanMove(db.accounts, op.tenantId, op.accountId, db.mpesa[op.mpesaId].amount, CREDIT)
      && (Unused(db.transactions, op.tenantId, "MPESA-RECON-" + op.mpesaId) ==>
            && Charted(db, op.tenantId, {CASH, MEMBER_SAVINGS})
            && UnusedNumber(db.entries, op.tenantId, "JE-MPESA-RECON-" + op.mpesaId))
  {
    hide FindReference, HasEntryNumber, Unused, UnusedNumber;
    UnusedIff(db, op.tenantId, "MPESA-RECON-" + op.mpesaId);
    UnusedIff(db, op.tenantId, "JE-MPESA-RECON-" + op.mpesaId);
  }
}
