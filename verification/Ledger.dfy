/**
 `LedgerService` (src/modules/accounting/ledger.service.ts) and `matchMpesaTransaction`
 (src/modules/accounting/accounting.service.ts) as they run: each method writes its tables one by
 one, and a failure part of the way rolls back what the transaction has written. Every method is
 proved to commit exactly what the functions of `LedgerModel` say.
 */
module Ledger {
  import opened Decimals
  import opened Outcomes
  import opened LedgerModel

  class LedgerService {
    var accounts: map<string, Account>
    var transactions: seq<Transaction>
    var entries: seq<JournalEntry>
    var mpesa: map<string, MpesaTransaction>
    var chart: map<string, set<GlCode>>

    constructor (accounts: map<string, Account>, mpesa: map<string, MpesaTransaction>, chart: map<string, set<GlCode>>)
      ensures Database() == Books(accounts, [], [], mpesa, chart)
    {
      this.accounts, transactions, entries, this.mpesa, this.chart := accounts, [], [], mpesa, chart;
    }

    function Database(): Books
      reads this
    {
      Books(accounts, transactions, entries, mpesa, chart)
    }

    /** What a call leaves behind: the committed books and its receipt, or the old books and its error. */
    ghost predicate Committed(before: Books, expected: Result<Commit, Error>, result: Result<Receipt, Error>)
      reads this
    {
      match expected
      case Success(commit) => Database() == commit.books && result == Success(commit.receipt)
      case Failure(error) => Database() == before && result == Failure(error)
    }

    /**
     The conditional update. A debit goes through exactly when it leaves the committed funds and, unless
     the account allows it, the minimum balance untouched; an account that allows it must not be negative.
     */
    method ApplyBalanceChange(tenantId: string, accountId: string, amount: int, direction: Direction)
      returns (result: Result<BalanceChange, Error>)
      modifies this`accounts
      ensures result == LedgerModel.ApplyBalanceChange(old(accounts), tenantId, accountId, amount, direction)
      ensures accounts == if result.Success? then result.value.accounts else old(accounts)
      ensures direction == DEBIT && accountId in old(accounts) ==>
        var a := old(accounts)[accountId];
        result.Success? <==>
          && a.tenantId == tenantId && a.isActive && a.balance - amount >= a.lockedBalance + a.frozenSavings
          && (if a.allowsNegative then a.balance >= 0 else a.balance - amount >= a.minimumBalance)
    {
      if accountId !in accounts || accounts[accountId].tenantId != tenantId || !accounts[accountId].isActive {
        return Failure(AccountNotFound);
      }
      var account := accounts[accountId];
      var balanceBefore := account.balance;
      var balanceAfter := balanceBefore + (if direction == CREDIT then amount else -amount);
      if direction == DEBIT {
        var committedFloor := account.lockedBalance + account.frozenSavings + amount;
        var policyFloor := if account.allowsNegative then 0 else account.minimumBalance + amount;
        if account.balance < Max(committedFloor, policyFloor) {
          return Failure(InsufficientFunds);
        }
      }
      accounts := accounts[accountId := account.(balance := balanceAfter, version := account.version + 1)];
      return Success(BalanceChange(accounts, balanceBefore, balanceAfter, account.accountType));
    }

    method PostEntry(tenantId: string, reference: string, journalType: JournalType, accountId: string, kes: real,
                     direction: Direction)
      returns (result: Result<Receipt, Error>)
      modifies this
      ensures Committed(old(Database()),
                        LedgerModel.PostEntry(old(Database()), tenantId, reference, journalType, accountId, kes,
                                              direction),
                        result)
    {
      hide FindReference, FindEntry, ToUnits, HasEntryNumber, GlConfigured, StatementType, ResolveGlCodes, LedgerNumber,
           LedgerModel.ApplyBalanceChange, DebitFloor;
      var amount := ToUnits(kes);
      if amount <= 0 {
        return Failure(AmountNotPositive);
      }
      var existing := FindReference(transactions, tenantId, reference);
      if existing.Some? {
        var existingEntry := FindEntry(entries, tenantId, existing.value);
        if existingEntry.None? {
          return Failure(Inconsistent);
        }
        return Success(EntryReceipt(existing.value, existingEntry.value, true));
      }

      var savedAccounts, savedTransactions := accounts, transactions;
      var change := ApplyBalanceChange(tenantId, accountId, amount, direction);
      if change.Failure? {
        return Failure(change.error);
      }
      var kind := StatementType(journalType);
      if kind.Failure? {
        accounts := savedAccounts;
        return Failure(kind.error);
      }
      var transaction := |transactions|;
      transactions := transactions + [
        Transaction(tenantId, accountId, kind.value, COMPLETED, amount, change.value.balanceBefore,
                    change.value.balanceAfter, reference, None)];
      var codes := ResolveGlCodes(change.value.accountType, journalType, direction, None);
      var refusal := CheckEntry(tenantId, codes, LedgerNumber(reference));
      if refusal.Some? {
        accounts, transactions := savedAccounts, savedTransactions;
        return Failure(refusal.value);
      }
      var entry := |entries|;
      entries := entries + [
        JournalEntry(tenantId, LedgerNumber(reference), journalType, transaction,
                     [Posting(codes.value.0, codes.value.1, amount)], None)];
      return Success(EntryReceipt(transaction, entry, false));
    }

    /** Why a journal entry cannot be written, if it cannot. */
    function CheckEntry(tenantId: string, codes: Result<(GlCode, GlCode), Error>, entryNumber: string)
      : (refusal: Option<Error>)
      reads this
      ensures refusal.None? <==>
        && codes.Success? && tenantId in chart && {codes.value.0, codes.value.1} <= chart[tenantId]
        && forall k :: 0 <= k < |entries| && entries[k].tenantId == tenantId ==> entries[k].entryNumber != entryNumber
      ensures codes.Failure? ==> refusal == Some(codes.error)
      ensures refusal == Some(UniqueViolation) && codes.Success? ==> HasEntryNumber(entries, tenantId, entryNumber)
    {
      if codes.Failure? then Some(codes.error)
      else if !GlConfigured(chart, tenantId, codes.value.0, codes.value.1) then Some(GlNotConfigured)
      else if HasEntryNumber(entries, tenantId, entryNumber) then Some(UniqueViolation)
      else None
    }

    method PostInternalTransfer(tenantId: string, source: string, destination: string, kes: real, reference: string)
      returns (result: Result<Receipt, Error>)
      modifies this
      ensures Committed(old(Database()),
                        LedgerModel.PostInternalTransfer(old(Database()), tenantId, source, destination, kes,
                                                         reference),
                        result)
    {
      hide FindReference, FindEntry, ToUnits, HasReference, HasEntryNumber, GlConfigured, ResolveGlCodes, LedgerNumber,
           LedgerModel.ApplyBalanceChange, DebitFloor;
      var amount := ToUnits(kes);
      if amount <= 0 {
        return Failure(AmountNotPositive);
      }
      if source == destination {
        return Failure(SelfTransfer);
      }
      var existingSrc := FindReference(transactions, tenantId, reference + "-SRC");
      if existingSrc.Some? {
        var existingDst := FindReference(transactions, tenantId, reference + "-DST");
        var existingEntry := FindEntry(entries, tenantId, existingSrc.value);
        if existingDst.None? || existingEntry.None? {
          return Failure(Inconsistent);
        }
        return Success(TransferReceipt(existingSrc.value, existingDst.value, existingEntry.value, true));
      }

      var savedAccounts, savedTransactions := accounts, transactions;
      var fromChange := ApplyBalanceChange(tenantId, source, amount, DEBIT);
      if fromChange.Failure? {
        return Failure(fromChange.error);
      }
      var toChange := ApplyBalanceChange(tenantId, destination, amount, CREDIT);
      if toChange.Failure? {
        accounts := savedAccounts;
        return Failure(toChange.error);
      }
      var from := |transactions|;
      transactions := transactions + [
        Transaction(tenantId, source, TxTransfer, COMPLETED, amount, fromChange.value.balanceBefore,
                    fromChange.value.balanceAfter, reference + "-SRC", None)];
      if HasReference(savedTransactions, tenantId, reference + "-DST") {
        accounts, transactions := savedAccounts, savedTransactions;
        return Failure(UniqueViolation);
      }
      transactions := transactions + [
        Transaction(tenantId, destination, TxTransfer, COMPLETED, amount, toChange.value.balanceBefore,
                    toChange.value.balanceAfter, reference + "-DST", Some(from))];
      transactions := transactions[from := transactions[from].(linked := Some(from + 1))];

      var codes := ResolveGlCodes(fromChange.value.accountType, TRANSFER, DEBIT, Some(toChange.value.accountType));
      var refusal := CheckEntry(tenantId, codes, LedgerNumber(reference));
      if refusal.Some? {
        accounts, transactions := savedAccounts, savedTransactions;
        return Failure(refusal.value);
      }
      var entry := |entries|;
      entries := entries + [
        JournalEntry(tenantId, LedgerNumber(reference), TRANSFER, from,
                     [Posting(codes.value.0, codes.value.1, amount)], None)];
      return Success(TransferReceipt(from, from + 1, entry, false));
    }

    method ReverseTransaction(tenantId: string, originalId: nat) returns (result: Result<Receipt, Error>)
      modifies this
      ensures Committed(old(Database()), LedgerModel.ReverseTransaction(old(Database()), tenantId, originalId), result)
    {
      if originalId >= |transactions| || transactions[originalId].tenantId != tenantId {
        return Failure(TransactionNotFound);
      }
      var original := transactions[originalId];
      if original.status == REVERSED {
        return Failure(AlreadyReversed);
      }
      var found := FindEntry(entries, tenantId, originalId);
      if found.None? {
        return Failure(Inconsistent);
      }
      var originalEntry := entries[found.value];
      if |originalEntry.postings| != 1 {
        return Failure(NotSinglePosting);
      }
      if HasReversal(entries, tenantId, found.value) {
        return Failure(AlreadyReversed);
      }

      var savedAccounts, savedTransactions := accounts, transactions;
      var originalWasCredit := original.balanceAfter >= original.balanceBefore;
      var change := ApplyBalanceChange(tenantId, original.accountId, original.amount,
                                       if originalWasCredit then DEBIT else CREDIT);
      if change.Failure? {
        return Failure(change.error);
      }
      var reversalReference := original.reference + "-REVERSAL";
      if HasReference(transactions, tenantId, reversalReference) {
        accounts := savedAccounts;
        return Failure(UniqueViolation);
      }
      var transaction := |transactions|;
      transactions := transactions + [
        Transaction(tenantId, original.accountId, TxReversal, COMPLETED, original.amount, change.value.balanceBefore,
                    change.value.balanceAfter, reversalReference, Some(originalId))];
      var posting := originalEntry.postings[0];
      var entryNumber := "JE-REVERSAL-" + original.reference;
      if HasEntryNumber(entries, tenantId, entryNumber) {
        accounts, transactions := savedAccounts, savedTransactions;
        return Failure(UniqueViolation);
      }
      var entry := |entries|;
      entries := entries + [
        JournalEntry(tenantId, entryNumber, REVERSAL, transaction,
                     [Posting(posting.credit, posting.debit, posting.amount)], Some(found.value))];
      transactions := transactions[originalId := original.(status := REVERSED)];
      return Success(EntryReceipt(transaction, entry, false));
    }

    method MatchMpesaTransaction(mpesaId: string, tenantId: string, accountId: string)
      returns (result: Result<Receipt, Error>)
      modifies this
      ensures Committed(old(Database()), LedgerModel.MatchMpesa(old(Database()), mpesaId, tenantId, accountId), result)
    {
      if mpesaId !in mpesa || mpesa[mpesaId].tenantId != tenantId
         || mpesa[mpesaId].status != RECON_PENDING || mpesa[mpesaId].transaction != None {
        return Failure(MpesaNotPending);
      }
      if accountId !in accounts || accounts[accountId].tenantId != tenantId || !accounts[accountId].isActive {
        return Failure(AccountNotFound);
      }
      var reference := "MPESA-RECON-" + mpesaId;
      var amount := mpesa[mpesaId].amount;
      var dup := FindReference(transactions, tenantId, reference);
      if dup.Some? {
        return Success(MatchReceipt(dup.value, true));
      }
      var savedAccounts, savedTransactions := accounts, transactions;
      var freshAccount := accounts[accountId];
      var balanceBefore := freshAccount.balance;
      var balanceAfter := balanceBefore + amount;
      accounts := accounts[accountId := freshAccount.(balance := balanceAfter, version := freshAccount.version + 1)];
      var ledgerTx := |transactions|;
      transactions := transactions + [
        Transaction(tenantId, accountId, TxDeposit, COMPLETED, amount, balanceBefore, balanceAfter, reference, None)];
      var entryNumber := "JE-MPESA-RECON-" + mpesaId;
      if !GlConfigured(chart, tenantId, CASH, MEMBER_SAVINGS) {
        accounts, transactions := savedAccounts, savedTransactions;
        return Failure(GlNotConfigured);
      }
      if HasEntryNumber(entries, tenantId, entryNumber) {
        accounts, transactions := savedAccounts, savedTransactions;
        return Failure(UniqueViolation);
      }
      entries := entries + [
        JournalEntry(tenantId, entryNumber, MPESA_DEPOSIT, ledgerTx, [Posting(CASH, MEMBER_SAVINGS, amount)], None)];
      mpesa := mpesa[mpesaId := mpesa[mpesaId].(status := MPESA_COMPLETED, transaction := Some(ledgerTx))];
      return Success(MatchReceipt(ledgerTx, false));
    }
  }
}
