/**
 The double-entry ledger (src/modules/accounting/ledger.service.ts): tables, and each database
 transaction as a function from the tables to the tables it commits.

 A row's id is its position in its table. The two unique indexes that the service relies on,
 Transaction(tenantId, reference) and JournalEntry(tenantId, entryNumber), are part of the model: an
 insert that violates one fails and its transaction commits nothing. References and entry numbers
 are strings, built with the same suffixes and prefixes as the service builds them.
 */
module LedgerModel {
  import opened Decimals
  import opened Outcomes

  // ---- Tables -------------------------------------------------------------------------

  datatype AccountType = FOSA | BOSA

  datatype Direction = DEBIT | CREDIT

  datatype JournalType =
    | DEPOSIT | MPESA_DEPOSIT | WITHDRAWAL | TRANSFER | DIVIDEND_PAYOUT | FEE_CHARGE | LOAN_DISBURSEMENT
    | LOAN_REPAYMENT | INTEREST_ACCRUAL | REVERSAL | MANUAL | FEE_REVERSAL

  datatype TransactionType =
    | TxDeposit | TxWithdrawal | TxTransfer | TxDividendPayout | TxFeeCharge | TxLoanDisbursement | TxReversal

  datatype TransactionStatus = COMPLETED | REVERSED

  /** Codes of the chart of accounts: 1000, 1300, 2000, 2300, 2400, 4000, 4200 and 4300. */
  datatype GlCode =
    | CASH | LOAN_RECEIVABLE | MEMBER_SAVINGS | FOSA_DEPOSITS | BOSA_DEPOSITS | INTEREST_INCOME | PENALTY_INCOME
    | FEE_INCOME

  datatype Account = Account(
    tenantId: string, accountType: AccountType, balance: int, minimumBalance: int, allowsNegative: bool,
    lockedBalance: int, frozenSavings: int, isActive: bool, version: nat)

  datatype Transaction = Transaction(
    tenantId: string, accountId: string, kind: TransactionType, status: TransactionStatus, amount: int,
    balanceBefore: int, balanceAfter: int, reference: string, linked: Option<nat>)

  datatype Posting = Posting(debit: GlCode, credit: GlCode, amount: int)

  datatype JournalEntry = JournalEntry(
    tenantId: string, entryNumber: string, journalType: JournalType, transaction: nat, postings: seq<Posting>,
    reversalOf: Option<nat>)

  datatype MpesaStatus = RECON_PENDING | MPESA_COMPLETED

  datatype MpesaTransaction = MpesaTransaction(
    tenantId: string, amount: int, status: MpesaStatus, transaction: Option<nat>)

  /** The whole database, as far as the ledger is concerned. `chart` holds each tenant's active GL codes. */
  datatype Books = Books(
    accounts: map<string, Account>, transactions: seq<Transaction>, entries: seq<JournalEntry>,
    mpesa: map<string, MpesaTransaction>, chart: map<string, set<GlCode>>)

  datatype Error =
    | AmountNotPositive | SelfTransfer | AccountNotFound | InsufficientFunds | NoTransactionType
    | NoCounterparty | UnsupportedJournalType | GlNotConfigured | UniqueViolation | Inconsistent
    | TransactionNotFound | AlreadyReversed | NotSinglePosting | MpesaNotPending

  // ---- Queries ------------------------------------------------------------------------

  predicate IsReference(row: Transaction, tenantId: string, reference: string) {
    row.tenantId == tenantId && row.reference == reference
  }

  predicate IsEntryOf(entry: JournalEntry, tenantId: string, transaction: nat) {
    entry.tenantId == tenantId && entry.transaction == transaction
  }

  /** The first row at or after `i` with this reference. */
  function FindReference(rows: seq<Transaction>, tenantId: string, reference: string, i: nat := 0): (r: Option<nat>)
    requires i <= |rows|
    ensures r.Some? ==> i <= r.value < |rows| && IsReference(rows[r.value], tenantId, reference)
    ensures r.None? ==> forall k :: i <= k < |rows| ==> !IsReference(rows[k], tenantId, reference)
    decreases |rows| - i
  {
    if i == |rows| then None
    else if IsReference(rows[i], tenantId, reference) then Some(i)
    else FindReference(rows, tenantId, reference, i + 1)
  }

  /** The first journal entry at or after `i` that references this transaction. */
  function FindEntry(entries: seq<JournalEntry>, tenantId: string, transaction: nat, i: nat := 0): (r: Option<nat>)
    requires i <= |entries|
    ensures r.Some? ==> i <= r.value < |entries| && IsEntryOf(entries[r.value], tenantId, transaction)
    ensures r.None? ==> forall k :: i <= k < |entries| ==> !IsEntryOf(entries[k], tenantId, transaction)
    decreases |entries| - i
  {
    if i == |entries| then None
    else if IsEntryOf(entries[i], tenantId, transaction) then Some(i)
    else FindEntry(entries, tenantId, transaction, i + 1)
  }

  predicate HasReversal(entries: seq<JournalEntry>, tenantId: string, entry: nat) {
    exists k :: 0 <= k < |entries| && entries[k].tenantId == tenantId && entries[k].reversalOf == Some(entry)
  }

  predicate HasEntryNumber(entries: seq<JournalEntry>, tenantId: string, entryNumber: string) {
    exists k :: 0 <= k < |entries| && entries[k].tenantId == tenantId && entries[k].entryNumber == entryNumber
  }

  predicate HasReference(rows: seq<Transaction>, tenantId: string, reference: string) {
    exists k :: 0 <= k < |rows| && IsReference(rows[k], tenantId, reference)
  }

  // ---- Balance changes ----------------------------------------------------------------

  datatype BalanceChange = BalanceChange(
    accounts: map<string, Account>, balanceBefore: int, balanceAfter: int, accountType: AccountType)

  /** The least balance from which `amount` may be debited. */
  function DebitFloor(a: Account, amount: int): int {
    Max(a.lockedBalance + a.frozenSavings + amount, if a.allowsNegative then 0 else a.minimumBalance + amount)
  }

  function Delta(direction: Direction, amount: int): int {
    if direction == CREDIT then amount else -amount
  }

  function ApplyBalanceChange(accounts: map<string, Account>, tenantId: string, accountId: string, amount: int,
                              direction: Direction): Result<BalanceChange, Error> {
    var found := accountId in accounts && accounts[accountId].tenantId == tenantId && accounts[accountId].isActive;
    :- Need(found, AccountNotFound);
    var a := accounts[accountId];
    :- Need(direction == CREDIT || a.balance >= DebitFloor(a, amount), InsufficientFunds);
    var after := a.balance + Delta(direction, amount);
    Success(BalanceChange(accounts[accountId := a.(balance := after, version := a.version + 1)],
                          a.balance, after, a.accountType))
  }

  // ---- GL codes -----------------------------------------------------------------------

  function MemberDepositsCode(accountType: AccountType): GlCode {
    if accountType == FOSA then FOSA_DEPOSITS else BOSA_DEPOSITS
  }

  function StatementType(journalType: JournalType): Result<TransactionType, Error> {
    match journalType
    case DEPOSIT => Success(TxDeposit)
    case MPESA_DEPOSIT => Success(TxDeposit)
    case WITHDRAWAL => Success(TxWithdrawal)
    case TRANSFER => Success(TxTransfer)
    case DIVIDEND_PAYOUT => Success(TxDividendPayout)
    case FEE_CHARGE => Success(TxFeeCharge)
    case LOAN_DISBURSEMENT => Success(TxLoanDisbursement)
    case _ => Failure(NoTransactionType)
  }

  function ResolveGlCodes(accountType: AccountType, journalType: JournalType, direction: Direction,
                          counterparty: Option<AccountType>): Result<(GlCode, GlCode), Error> {
    var own := MemberDepositsCode(accountType);
    match journalType
    case TRANSFER =>
      (match counterparty
       case None => Failure(NoCounterparty)
       case Some(other) =>
         if direction == CREDIT then Success((MemberDepositsCode(other), own))
         else Success((own, MemberDepositsCode(other))))
    case DEPOSIT => Success((CASH, own))
    case MPESA_DEPOSIT => Success((CASH, own))
    case WITHDRAWAL => Success((own, CASH))
    case LOAN_DISBURSEMENT => Success((LOAN_RECEIVABLE, own))
    case FEE_CHARGE => Success((own, FEE_INCOME))
    case _ => Failure(UnsupportedJournalType)
  }

  predicate GlConfigured(chart: map<string, set<GlCode>>, tenantId: string, debit: GlCode, credit: GlCode) {
    tenantId in chart && debit in chart[tenantId] && credit in chart[tenantId]
  }

  // ---- The four transactions ----------------------------------------------------------

  datatype Receipt =
    | EntryReceipt(transaction: nat, entry: nat, replayed: bool)
    | TransferReceipt(source: nat, destination: nat, entry: nat, replayed: bool)
    | MatchReceipt(transaction: nat, replayed: bool)
    | ExternalReceipt

  datatype Commit = Commit(books: Books, receipt: Receipt)

  function LedgerNumber(reference: string): string {
    "JE-LEDGER-" + reference
  }

  function PostEntry(db: Books, tenantId: string, reference: string, journalType: JournalType, accountId: string,
                     kes: real, direction: Direction): Result<Commit, Error> {
    var amount := ToUnits(kes);
    :- Need(amount > 0, AmountNotPositive);
    match FindReference(db.transactions, tenantId, reference)
    case Some(t) =>
      (match FindEntry(db.entries, tenantId, t)
       case None => Failure(Inconsistent)
       case Some(e) => Success(Commit(db, EntryReceipt(t, e, true))))
    case None =>
      var change :- ApplyBalanceChange(db.accounts, tenantId, accountId, amount, direction);
      var kind :- StatementType(journalType);
      var t := |db.transactions|;
      var row := Transaction(tenantId, accountId, kind, COMPLETED, amount, change.balanceBefore,
                             change.balanceAfter, reference, None);
      var (debit, credit) :- ResolveGlCodes(change.accountType, journalType, direction, None);
      :- Need(GlConfigured(db.chart, tenantId, debit, credit), GlNotConfigured);
      :- Need(!HasEntryNumber(db.entries, tenantId, LedgerNumber(reference)), UniqueViolation);
      var entry := JournalEntry(tenantId, LedgerNumber(reference), journalType, t,
                                [Posting(debit, credit, amount)], None);
      Success(Commit(
        db.(accounts := change.accounts, transactions := db.transactions + [row], entries := db.entries + [entry]),
        EntryReceipt(t, |db.entries|, false)))
  }

  function PostInternalTransfer(db: Books, tenantId: string, source: string, destination: string, kes: real,
                                reference: string): Result<Commit, Error> {
    var amount := ToUnits(kes);
    :- Need(amount > 0, AmountNotPositive);
    :- Need(source != destination, SelfTransfer);
    match FindReference(db.transactions, tenantId, reference + "-SRC")
    case Some(s) =>
      (match (FindReference(db.transactions, tenantId, reference + "-DST"), FindEntry(db.entries, tenantId, s))
       case (Some(d), Some(e)) => Success(Commit(db, TransferReceipt(s, d, e, true)))
       case _ => Failure(Inconsistent))
    case None =>
      var from :- ApplyBalanceChange(db.accounts, tenantId, source, amount, DEBIT);
      var to :- ApplyBalanceChange(from.accounts, tenantId, destination, amount, CREDIT);
      var s := |db.transactions|;
      var sourceRow := Transaction(tenantId, source, TxTransfer, COMPLETED, amount, from.balanceBefore,
                                   from.balanceAfter, reference + "-SRC", Some(s + 1));
      var destinationRow := Transaction(tenantId, destination, TxTransfer, COMPLETED, amount, to.balanceBefore,
                                        to.balanceAfter, reference + "-DST", Some(s));
      :- Need(!HasReference(db.transactions, tenantId, reference + "-DST"), UniqueViolation);
      var (debit, credit) :- ResolveGlCodes(from.accountType, TRANSFER, DEBIT, Some(to.accountType));
      :- Need(GlConfigured(db.chart, tenantId, debit, credit), GlNotConfigured);
      :- Need(!HasEntryNumber(db.entries, tenantId, LedgerNumber(reference)), UniqueViolation);
      var entry := JournalEntry(tenantId, LedgerNumber(reference), TRANSFER, s,
                                [Posting(debit, credit, amount)], None);
      Success(Commit(
        db.(accounts := to.accounts, transactions := db.transactions + [sourceRow, destinationRow],
            entries := db.entries + [entry]),
        TransferReceipt(s, s + 1, |db.entries|, false)))
  }

  function ReverseTransaction(db: Books, tenantId: string, original: nat): Result<Commit, Error> {
    var found := original < |db.transactions| && db.transactions[original].tenantId == tenantId;
    :- Need(found, TransactionNotFound);
    var row := db.transactions[original];
    :- Need(row.status != REVERSED, AlreadyReversed);
    match FindEntry(db.entries, tenantId, original)
    case None => Failure(Inconsistent)
    case Some(e) =>
      var originalEntry := db.entries[e];
      :- Need(|originalEntry.postings| == 1, NotSinglePosting);
      :- Need(!HasReversal(db.entries, tenantId, e), AlreadyReversed);
      var direction := if row.balanceAfter >= row.balanceBefore then DEBIT else CREDIT;
      var change :- ApplyBalanceChange(db.accounts, tenantId, row.accountId, row.amount, direction);
      var t := |db.transactions|;
      :- Need(!HasReference(db.transactions, tenantId, row.reference + "-REVERSAL"), UniqueViolation);
      var reversal := Transaction(tenantId, row.accountId, TxReversal, COMPLETED, row.amount, change.balanceBefore,
                                  change.balanceAfter, row.reference + "-REVERSAL", Some(original));
      var posting := originalEntry.postings[0];
      var entryNumber := "JE-REVERSAL-" + row.reference;
      :- Need(!HasEntryNumber(db.entries, tenantId, entryNumber), UniqueViolation);
      var entry := JournalEntry(tenantId, entryNumber, REVERSAL, t,
                                [Posting(posting.credit, posting.debit, posting.amount)], Some(e));
      Success(Commit(
        db.(accounts := change.accounts,
            transactions := db.transactions[original := row.(status := REVERSED)] + [reversal],
            entries := db.entries + [entry]),
        EntryReceipt(t, |db.entries|, false)))
  }

  /** `matchMpesaTransaction` (src/modules/accounting/accounting.service.ts). */
  function MatchMpesa(db: Books, mpesaId: string, tenantId: string, accountId: string): Result<Commit, Error> {
    var pending := mpesaId in db.mpesa && db.mpesa[mpesaId].tenantId == tenantId
                   && db.mpesa[mpesaId].status == RECON_PENDING && db.mpesa[mpesaId].transaction == None;
    :- Need(pending, MpesaNotPending);
    :- Need(accountId in db.accounts && db.accounts[accountId].tenantId == tenantId
            && db.accounts[accountId].isActive, AccountNotFound);
    var amount := db.mpesa[mpesaId].amount;
    var reference := "MPESA-RECON-" + mpesaId;
    match FindReference(db.transactions, tenantId, reference)
    case Some(t) => Success(Commit(db, MatchReceipt(t, true)))
    case None =>
      var change :- ApplyBalanceChange(db.accounts, tenantId, accountId, amount, CREDIT);
      var t := |db.transactions|;
      var row := Transaction(tenantId, accountId, TxDeposit, COMPLETED, amount, change.balanceBefore,
                             change.balanceAfter, reference, None);
      :- Need(GlConfigured(db.chart, tenantId, CASH, MEMBER_SAVINGS), GlNotConfigured);
      var entryNumber := "JE-MPESA-RECON-" + mpesaId;
      :- Need(!HasEntryNumber(db.entries, tenantId, entryNumber), UniqueViolation);
      var entry := JournalEntry(tenantId, entryNumber, MPESA_DEPOSIT, t,
                                [Posting(CASH, MEMBER_SAVINGS, amount)], None);
      Success(Commit(
        db.(accounts := change.accounts, transactions := db.transactions + [row], entries := db.entries + [entry],
            mpesa := db.mpesa[mpesaId := db.mpesa[mpesaId].(status := MPESA_COMPLETED, transaction := Some(t))]),
        MatchReceipt(t, false)))
  }

  // ---- Runs ---------------------------------------------------------------------------

  datatype Op =
    | Post(tenantId: string, reference: string, journalType: JournalType, accountId: string, kes: real,
           direction: Direction)
    | Transfer(tenantId: string, source: string, destination: string, kes: real, reference: string)
    | Reverse(tenantId: string, original: nat)
    | Match(mpesaId: string, tenantId: string, accountId: string)
    | External(accounts: map<string, Account>, mpesa: map<string, MpesaTransaction>, chart: map<string, set<GlCode>>)

  ghost predicate SameMoney(a: Account, b: Account) {
    a.tenantId == b.tenantId && a.accountType == b.accountType && a.balance == b.balance
  }

  /**
   What other services may do between ledger calls: open accounts with a zero balance, place and
   release holds, change policies, deactivate accounts, receive M-Pesa payments, configure the
   chart of accounts. They move no money.
   */
  ghost predicate MovesNoMoney(db: Books, op: Op)
    requires op.External?
  {
    && (forall id :: id in db.accounts ==> id in op.accounts && SameMoney(db.accounts[id], op.accounts[id]))
    && (forall id :: id in op.accounts && id !in db.accounts ==> op.accounts[id].balance == 0)
    && (forall id :: id in op.mpesa ==> op.mpesa[id].amount > 0)
  }

  /** One ledger call; a call that fails commits nothing. */
  ghost function Attempt(db: Books, op: Op): Result<Commit, Error> {
    match op
    case Post(tenantId, reference, journalType, accountId, kes, direction) =>
      PostEntry(db, tenantId, reference, journalType, accountId, kes, direction)
    case Transfer(tenantId, source, destination, kes, reference) =>
      PostInternalTransfer(db, tenantId, source, destination, kes, reference)
    case Reverse(tenantId, original) => ReverseTransaction(db, tenantId, original)
    case Match(mpesaId, tenantId, accountId) => MatchMpesa(db, mpesaId, tenantId, accountId)
    case External(accounts, mpesa, chart) =>
      if MovesNoMoney(db, op)
      then Success(Commit(db.(accounts := accounts, mpesa := mpesa, chart := chart), ExternalReceipt))
      else Failure(AccountNotFound)
  }

  ghost function Step(db: Books, op: Op): Books {
    match Attempt(db, op)
    case Success(commit) => commit.books
    case Failure(_) => db
  }

  ghost function Run(db: Books, ops: seq<Op>): Books {
    if ops == [] then db else Step(Run(db, ops[..|ops| - 1]), ops[|ops| - 1])
  }

  /** A ledger that nothing has been posted to. */
  ghost predicate Opening(db: Books) {
    && db.transactions == [] && db.entries == []
    && (forall id :: id in db.accounts ==> db.accounts[id].balance == 0)
    && (forall id :: id in db.mpesa ==> db.mpesa[id].amount > 0)
  }
}
