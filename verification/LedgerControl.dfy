/**
 GL control accounts: each tenant's net credit on the deposit-liability codes against the sum of
 its members' balances.
 */
module LedgerControl {
  import opened Outcomes
  import opened LedgerModel
  import opened LedgerInvariants

  // ---- Net credit and sums of balances ------------------------------------------------

  /** What one posting adds to the net credit of a code. */
  function NetOf(p: Posting, code: GlCode): int {
    (if p.credit == code then p.amount else 0) - (if p.debit == code then p.amount else 0)
  }

  ghost predicate SinglePostings(entries: seq<JournalEntry>) {
    forall e :: 0 <= e < |entries| ==> |entries[e].postings| == 1
  }

  function NetCredit(entries: seq<JournalEntry>, tenantId: string, code: GlCode): int
    requires SinglePostings(entries)
  {
    if entries == [] then 0
    else
      var last := entries[|entries| - 1];
      NetCredit(entries[..|entries| - 1], tenantId, code)
      + (if last.tenantId == tenantId then NetOf(last.postings[0], code) else 0)
  }

  /** The accounts of one tenant and type. */
  ghost function AccountsOf(accounts: map<string, Account>, tenantId: string, accountType: AccountType): set<string> {
    set id | id in accounts && accounts[id].tenantId == tenantId && accounts[id].accountType == accountType
  }

  ghost function SumOver(accounts: map<string, Account>, ids: set<string>): int
    requires ids <= accounts.Keys
  {
    if ids == {} then 0
    else
      var id :| id in ids;
      accounts[id].balance + SumOver(accounts, ids - {id})
  }

  ghost function SumBalances(accounts: map<string, Account>, tenantId: string, accountType: AccountType): int {
    SumOver(accounts, AccountsOf(accounts, tenantId, accountType))
  }

  lemma {:induction false} SumTakes(accounts: map<string, Account>, ids: set<string>, id: string)
    requires ids <= accounts.Keys && id in ids
    ensures SumOver(accounts, ids) == accounts[id].balance + SumOver(accounts, ids - {id})
    decreases |ids|
  {
    var first :| first in ids && SumOver(accounts, ids) == accounts[first].balance + SumOver(accounts, ids - {first});
    if first != id {
      SumTakes(accounts, ids - {first}, id);
      SumTakes(accounts, ids - {id}, first);
      assert ids - {first} - {id} == ids - {id} - {first};
    }
  }

  lemma {:induction false} SumSame(accounts: map<string, Account>, accounts': map<string, Account>, ids: set<string>)
    requires ids <= accounts.Keys && ids <= accounts'.Keys
    requires forall id :: id in ids ==> accounts[id].balance == accounts'[id].balance
    ensures SumOver(accounts, ids) == SumOver(accounts', ids)
    decreases |ids|
  {
    if ids != {} {
      var id :| id in ids;
      SumTakes(accounts, ids, id);
      SumTakes(accounts', ids, id);
      SumSame(accounts, accounts', ids - {id});
    }
  }

  lemma {:induction false} SumWithZeros(accounts: map<string, Account>, ids: set<string>, more: set<string>)
    requires ids <= more <= accounts.Keys
    requires forall id :: id in more && id !in ids ==> accounts[id].balance == 0
    ensures SumOver(accounts, more) == SumOver(accounts, ids)
    decreases |more|
  {
    if more != ids {
      var id :| id in more && id !in ids;
      SumTakes(accounts, more, id);
      SumWithZeros(accounts, ids, more - {id});
    }
  }

  /** Moving one account moves the sum of its tenant and type by as much, and no other sum. */
  lemma MoveMovesSum(accounts: map<string, Account>, row: Transaction, accounts': map<string, Account>,
                     tenantId: string, accountType: AccountType)
    requires Moves(accounts, row, accounts')
    ensures SumBalances(accounts', tenantId, accountType)
         == SumBalances(accounts, tenantId, accountType)
            + (if row.tenantId == tenantId && accounts[row.accountId].accountType == accountType
               then Movement(row) else 0)
  {
    var ids := AccountsOf(accounts, tenantId, accountType);
    assert AccountsOf(accounts', tenantId, accountType) == ids;
    if row.accountId in ids {
      SumTakes(accounts, ids, row.accountId);
      SumTakes(accounts', ids, row.accountId);
      SumSame(accounts, accounts', ids - {row.accountId});
    } else {
      SumSame(accounts, accounts', ids);
    }
  }

  // ---- The reconciliation account -----------------------------------------------------

  /** The type of the account that an entry's row moved. */
  function TypeOf(accounts: map<string, Account>, rows: seq<Transaction>, entry: JournalEntry): AccountType
    requires entry.transaction < |rows| && rows[entry.transaction].accountId in accounts
  {
    accounts[rows[entry.transaction].accountId].accountType
  }

  ghost predicate Typed(accounts: map<string, Account>, rows: seq<Transaction>, entries: seq<JournalEntry>) {
    forall e :: 0 <= e < |entries| ==>
      entries[e].transaction < |rows| && rows[entries[e].transaction].accountId in accounts
  }

  /** Net credit on 2000 (M-Pesa matches) whose rows moved accounts of the given type. */
  ghost function Recon(accounts: map<string, Account>, rows: seq<Transaction>, entries: seq<JournalEntry>,
                       tenantId: string, accountType: AccountType): int
    requires SinglePostings(entries) && Typed(accounts, rows, entries)
  {
    if entries == [] then 0
    else
      var last := entries[|entries| - 1];
      Recon(accounts, rows, entries[..|entries| - 1], tenantId, accountType)
      + (if last.tenantId == tenantId && TypeOf(accounts, rows, last) == accountType
         then NetOf(last.postings[0], MEMBER_SAVINGS) else 0)
  }

  lemma {:induction false} ReconSame(
      accounts: map<string, Account>, rows: seq<Transaction>, accounts': map<string, Account>, rows': seq<Transaction>,
      entries: seq<JournalEntry>, tenantId: string, accountType: AccountType)
    requires SinglePostings(entries) && Typed(accounts, rows, entries) && Typed(accounts', rows', entries)
    requires forall e :: 0 <= e < |entries| ==>
      TypeOf(accounts, rows, entries[e]) == TypeOf(accounts', rows', entries[e])
    ensures Recon(accounts, rows, entries, tenantId, accountType)
         == Recon(accounts', rows', entries, tenantId, accountType)
  {
    if entries != [] {
      var last := entries[|entries| - 1];
      assert TypeOf(accounts, rows, last) == TypeOf(accounts', rows', last);
      ReconSame(accounts, rows, accounts', rows', entries[..|entries| - 1], tenantId, accountType);
    }
  }

  lemma {:induction false} ReconIsNetCredit(accounts: map<string, Account>, rows: seq<Transaction>,
                                            entries: seq<JournalEntry>, tenantId: string)
    requires SinglePostings(entries) && Typed(accounts, rows, entries)
    ensures NetCredit(entries, tenantId, MEMBER_SAVINGS)
         == Recon(accounts, rows, entries, tenantId, FOSA) + Recon(accounts, rows, entries, tenantId, BOSA)
  {
    if entries != [] {
      ReconIsNetCredit(accounts, rows, entries[..|entries| - 1], tenantId);
    }
  }

  lemma ValidIsTyped(db: Books)
    requires Valid(db)
    ensures SinglePostings(db.entries) && Typed(db.accounts, db.transactions, db.entries)
  {
    forall e | 0 <= e < |db.entries|
      ensures |db.entries[e].postings| == 1 && db.entries[e].transaction < |db.transactions|
        && db.transactions[db.entries[e].transaction].accountId in db.accounts
    {
      assert EntryOk(db.transactions, db.entries[e]);
      assert RowOk(db.accounts, db.transactions[db.entries[e].transaction]);
    }
  }

  // ---- In step ------------------------------------------------------------------------

  /**
   The control accounts are in step: per tenant and account type, the sum of the balances is the
   net credit on the type's own code plus what M-Pesa matches credited to 2000 instead.
   */
  ghost predicate InStepFor(db: Books, tenantId: string, accountType: AccountType)
    requires Valid(db)
  {
    ValidIsTyped(db);
    SumBalances(db.accounts, tenantId, accountType)
    == NetCredit(db.entries, tenantId, MemberDepositsCode(accountType))
       + Recon(db.accounts, db.transactions, db.entries, tenantId, accountType)
  }

  ghost predicate InStep(db: Books)
    requires Valid(db)
  {
    forall tenantId, accountType :: InStepFor(db, tenantId, accountType)
  }

  /** What a posting adds on the control side of one account type, for a row of type `accountType`. */
  function ControlSide(accountType: AccountType, p: Posting, other: AccountType): int {
    NetOf(p, MemberDepositsCode(other)) + (if other == accountType then NetOf(p, MEMBER_SAVINGS) else 0)
  }

  /** What a row of type `accountType` adds to the sum of the balances of one account type. */
  function BalanceSide(accountType: AccountType, row: Transaction, other: AccountType): int {
    if other == accountType then Movement(row) else 0
  }

  /** A posting that credits the deposits of the account's type by exactly the row's movement. */
  ghost predicate Aligned(accountType: AccountType, row: Transaction, p: Posting) {
    forall other :: ControlSide(accountType, p, other) == BalanceSide(accountType, row, other)
  }

  lemma AppendedEntry(entries: seq<JournalEntry>, entry: JournalEntry, tenantId: string, code: GlCode)
    requires SinglePostings(entries) && |entry.postings| == 1
    ensures SinglePostings(entries + [entry])
    ensures NetCredit(entries + [entry], tenantId, code)
         == NetCredit(entries, tenantId, code)
            + (if entry.tenantId == tenantId then NetOf(entry.postings[0], code) else 0)
  {
    var all := entries + [entry];
    assert all[..|entries|] == entries;
  }

  lemma AppendedRecon(accounts: map<string, Account>, rows: seq<Transaction>, entries: seq<JournalEntry>,
                      entry: JournalEntry, tenantId: string, accountType: AccountType)
    requires SinglePostings(entries) && |entry.postings| == 1
    requires Typed(accounts, rows, entries + [entry])
    ensures SinglePostings(entries + [entry]) && Typed(accounts, rows, entries)
    ensures entry.transaction < |rows| && rows[entry.transaction].accountId in accounts
    ensures Recon(accounts, rows, entries + [entry], tenantId, accountType)
         == Recon(accounts, rows, entries, tenantId, accountType)
            + (if entry.tenantId == tenantId && TypeOf(accounts, rows, entry) == accountType
               then NetOf(entry.postings[0], MEMBER_SAVINGS) else 0)
  {
    var all := entries + [entry];
    assert forall e :: 0 <= e < |entries| ==> entries[e] == all[e];
    assert all[|entries|] == entry;
    assert all[..|entries|] == entries;
  }

  /** Recon over the old entries does not see what a change appended. */
  lemma ReconUnmoved(db: Books, db': Books, tenantId: string, other: AccountType)
    requires Valid(db) && Valid(db') && db.entries <= db'.entries && |db.transactions| <= |db'.transactions|
    requires forall i :: 0 <= i < |db.transactions| ==> db'.transactions[i].accountId == db.transactions[i].accountId
    requires forall id :: id in db.accounts ==>
      id in db'.accounts && db'.accounts[id].accountType == db.accounts[id].accountType
    ensures SinglePostings(db.entries) && Typed(db.accounts, db.transactions, db.entries)
    ensures Typed(db'.accounts, db'.transactions, db.entries)
    ensures Recon(db.accounts, db.transactions, db.entries, tenantId, other)
         == Recon(db'.accounts, db'.transactions, db.entries, tenantId, other)
  {
    ValidIsTyped(db);
    ReconSame(db.accounts, db.transactions, db'.accounts, db'.transactions, db.entries, tenantId, other);
  }

  lemma OneRowFacts(db: Books, db': Books, row: Transaction, entry: JournalEntry, original: Option<nat>)
    requires IsOneRow(db, db', row, entry, original)
    ensures Moves(db.accounts, row, db'.accounts) && row.accountId in db.accounts
    ensures db'.entries == db.entries + [entry] && |entry.postings| == 1 && entry.tenantId == row.tenantId
    ensures entry.transaction == |db.transactions| < |db'.transactions| && db'.transactions[|db.transactions|] == row
    ensures forall i :: 0 <= i < |db.transactions| ==> db'.transactions[i].accountId == db.transactions[i].accountId
    ensures forall id :: id in db.accounts ==>
      id in db'.accounts && db'.accounts[id].accountType == db.accounts[id].accountType
  {
  }

  /** How far one appended row and entry move one tenant's sum away from its control account. */
  lemma OneRowDrift(db: Books, db': Books, row: Transaction, entry: JournalEntry, original: Option<nat>,
                    tenantId: string, other: AccountType)
    requires Valid(db) && Valid(db') && IsOneRow(db, db', row, entry, original)
    requires InStepFor(db, tenantId, other)
    requires row.accountId in db.accounts && |entry.postings| == 1
    ensures var accountType := db.accounts[row.accountId].accountType;
      InStepFor(db', tenantId, other)
      <==> (row.tenantId == tenantId ==>
              ControlSide(accountType, entry.postings[0], other) == BalanceSide(accountType, row, other))
  {
    hide Valid, IsOneRow, SumBalances, NetCredit, Recon, Typed, SinglePostings, Moves, NetOf;
    OneRowFacts(db, db', row, entry, original);
    ValidIsTyped(db);
    ValidIsTyped(db');
    MoveMovesSum(db.accounts, row, db'.accounts, tenantId, other);
    AppendedEntry(db.entries, entry, tenantId, MemberDepositsCode(other));
    AppendedRecon(db'.accounts, db'.transactions, db.entries, entry, tenantId, other);
    ReconUnmoved(db, db', tenantId, other);
  }

  /** Appending a row and an entry keeps the control accounts in step exactly when the two are aligned. */
  lemma OneRowInStepIff(db: Books, db': Books, row: Transaction, entry: JournalEntry, original: Option<nat>)
    requires Valid(db) && Valid(db') && IsOneRow(db, db', row, entry, original) && InStep(db)
    ensures InStep(db') <==> Aligned(db.accounts[row.accountId].accountType, row, entry.postings[0])
  {
    hide Valid, IsOneRow, InStepFor, ControlSide, BalanceSide;
    OneRowFacts(db, db', row, entry, original);
    var accountType, p := db.accounts[row.accountId].accountType, entry.postings[0];
    forall tenantId, other
      ensures InStepFor(db', tenantId, other)
        <==> (row.tenantId == tenantId ==> ControlSide(accountType, p, other) == BalanceSide(accountType, row, other))
    {
      assert InStepFor(db, tenantId, other);
      OneRowDrift(db, db', row, entry, original, tenantId, other);
    }
    if InStep(db') {
      forall other
        ensures ControlSide(accountType, p, other) == BalanceSide(accountType, row, other)
      {
        assert InStepFor(db', row.tenantId, other);
      }
    }
  }

  lemma TwoRowsFacts(db: Books, db': Books, source: Transaction, destination: Transaction, entry: JournalEntry)
    returns (between: map<string, Account>)
    requires IsTwoRows(db, db', source, destination, entry)
    ensures Moves(db.accounts, source, between) && Moves(between, destination, db'.accounts)
    ensures source.accountId in db.accounts && destination.accountId in between
    ensures destination.accountId in db.accounts
      && between[destination.accountId].accountType == db.accounts[destination.accountId].accountType
    ensures db'.entries == db.entries + [entry] && |entry.postings| == 1 && entry.tenantId == source.tenantId
    ensures entry.postings[0] == Posting(MemberDepositsCode(db.accounts[source.accountId].accountType),
                                         MemberDepositsCode(db.accounts[destination.accountId].accountType),
                                         source.amount)
    ensures entry.transaction == |db.transactions| < |db'.transactions| && db'.transactions[|db.transactions|] == source
    ensures destination.tenantId == source.tenantId && destination.amount == source.amount
    ensures Movement(source) == -source.amount && Movement(destination) == source.amount
    ensures forall i :: 0 <= i < |db.transactions| ==> db'.transactions[i].accountId == db.transactions[i].accountId
    ensures forall id :: id in db.accounts ==>
      id in db'.accounts && db'.accounts[id].accountType == db.accounts[id].accountType
  {
    between :| Moves(db.accounts, source, between) && Moves(between, destination, db'.accounts);
  }

  lemma TwoRowsInStep(db: Books, db': Books, source: Transaction, destination: Transaction, entry: JournalEntry,
                      tenantId: string, other: AccountType)
    requires Valid(db) && Valid(db') && IsTwoRows(db, db', source, destination, entry)
    requires InStepFor(db, tenantId, other)
    ensures InStepFor(db', tenantId, other)
  {
    hide Valid, IsTwoRows, SumBalances, NetCredit, Recon, Typed, SinglePostings, Moves;
    var between := TwoRowsFacts(db, db', source, destination, entry);
    ValidIsTyped(db);
    ValidIsTyped(db');
    MoveMovesSum(db.accounts, source, between, tenantId, other);
    MoveMovesSum(between, destination, db'.accounts, tenantId, other);
    AppendedEntry(db.entries, entry, tenantId, MemberDepositsCode(other));
    AppendedRecon(db'.accounts, db'.transactions, db.entries, entry, tenantId, other);
    ReconUnmoved(db, db', tenantId, other);
  }

  lemma NoMoneyInStep(db: Books, db': Books, tenantId: string, accountType: AccountType)
    requires Valid(db) && Valid(db') && IsNoMoney(db, db') && InStepFor(db, tenantId, accountType)
    ensures InStepFor(db', tenantId, accountType)
  {
    ValidIsTyped(db);
    ValidIsTyped(db');
    var ids, ids' := AccountsOf(db.accounts, tenantId, accountType), AccountsOf(db'.accounts, tenantId, accountType);
    SumSame(db.accounts, db'.accounts, ids);
    SumWithZeros(db'.accounts, ids, ids');
    ReconSame(db.accounts, db.transactions, db'.accounts, db'.transactions, db.entries, tenantId, accountType);
  }

  // ---- Which calls keep step ----------------------------------------------------------

  /** The direction the GL codes of a journal type assume, whatever direction the caller passes. */
  predicate Canonical(journalType: JournalType, direction: Direction) {
    match journalType
    case DEPOSIT => direction == CREDIT
    case MPESA_DEPOSIT => direction == CREDIT
    case LOAN_DISBURSEMENT => direction == CREDIT
    case WITHDRAWAL => direction == DEBIT
    case FEE_CHARGE => direction == DEBIT
    case _ => true
  }

  /** Every entry is aligned with its row, unless the row is a leg of a transfer. */
  ghost predicate EntriesAligned(db: Books)
    requires Valid(db)
  {
    ValidIsTyped(db);
    forall e :: 0 <= e < |db.entries| ==> EntryAligned(db, db.entries[e])
  }

  ghost predicate EntryAligned(db: Books, entry: JournalEntry)
    requires entry.transaction < |db.transactions| && |entry.postings| == 1
    requires db.transactions[entry.transaction].accountId in db.accounts
  {
    var row := db.transactions[entry.transaction];
    if row.kind == TxTransfer then TransferPosting(TypeOf(db.accounts, db.transactions, entry), row, entry.postings[0])
    else Aligned(TypeOf(db.accounts, db.transactions, entry), row, entry.postings[0])
  }

  /** The one posting of a transfer: it debits the source's own code. */
  ghost predicate TransferPosting(accountType: AccountType, row: Transaction, p: Posting) {
    && p.debit == MemberDepositsCode(accountType) && p.credit in {FOSA_DEPOSITS, BOSA_DEPOSITS}
    && p.amount == row.amount > 0 && Movement(row) == -row.amount
  }

  lemma TransferPostingNotAligned(accountType: AccountType, row: Transaction, p: Posting)
    requires TransferPosting(accountType, row, p)
    ensures !Aligned(accountType, row, p)
  {
    var other := if accountType == FOSA then BOSA else FOSA;
    if p.credit == p.debit {
      assert ControlSide(accountType, p, accountType) == 0 != BalanceSide(accountType, row, accountType);
    } else {
      assert ControlSide(accountType, p, other) == p.amount != BalanceSide(accountType, row, other);
    }
  }

  /** A swapped posting is aligned with the opposite movement exactly when the posting was aligned. */
  lemma SwappedAligned(accountType: AccountType, row: Transaction, row': Transaction, p: Posting)
    requires Movement(row') == -Movement(row)
    ensures Aligned(accountType, row', Swapped(p)) <==> Aligned(accountType, row, p)
  {
    assert forall other :: ControlSide(accountType, Swapped(p), other) == -ControlSide(accountType, p, other);
    assert forall other :: BalanceSide(accountType, row', other) == -BalanceSide(accountType, row, other);
  }

  /** The GL codes and the direction of a posted entry. */
  lemma PostedAlignedIff(db: Books, op: Op, row: Transaction, entry: JournalEntry)
    requires op.Post? && Valid(db) && IsOneRow(db, Step(db, op), row, entry, None)
    ensures Aligned(db.accounts[row.accountId].accountType, row, entry.postings[0])
       <==> Canonical(op.journalType, op.direction)
  {
    var result := PostEntry(db, op.tenantId, op.reference, op.journalType, op.accountId, op.kes, op.direction);
    assert result.Success? && !result.value.receipt.replayed;
    assert Step(db, op).transactions[|db.transactions|] == row;
    assert Step(db, op).entries[|db.entries|] == entry;
    var accountType := db.accounts[row.accountId].accountType;
    assert Movement(row) == Delta(op.direction, row.amount);
    var p := entry.postings[0];
    assert Success((p.debit, p.credit)) == ResolveGlCodes(accountType, op.journalType, op.direction, None);
    PostingAlignedIff(accountType, row, p, op.journalType, op.direction);
  }

  lemma PostingAlignedIff(accountType: AccountType, row: Transaction, p: Posting, journalType: JournalType,
                          direction: Direction)
    requires row.amount > 0 && p.amount == row.amount && Movement(row) == Delta(direction, row.amount)
    requires ResolveGlCodes(accountType, journalType, direction, None) == Success((p.debit, p.credit))
    ensures Aligned(accountType, row, p) <==> Canonical(journalType, direction)
  {
    var own := MemberDepositsCode(accountType);
    var other := if accountType == FOSA then BOSA else FOSA;
    assert ControlSide(accountType, p, other) == 0 == BalanceSide(accountType, row, other);
    assert ControlSide(accountType, p, accountType) == if p.credit == own then row.amount else -row.amount;
    assert BalanceSide(accountType, row, accountType) == Delta(direction, row.amount);
  }

  /**
   Exactly when a posting keeps the control accounts in step: when its direction is the one its
   journal type assumes. `resolveGlCodes` ignores the direction of a posting.
   */
  lemma PostInStepIff(db: Books, op: Op)
    requires op.Post? && Valid(db) && InStep(db) && Step(db, op) != db
    ensures Valid(Step(db, op))
    ensures InStep(Step(db, op)) <==> Canonical(op.journalType, op.direction)
  {
    hide *;
    StepKeepsValid(db, op);
    var change := PostChange(db, op);
    NothingIsSame(db, Step(db, op), change);
    OneRowIs(db, Step(db, op), change);
    OneRowInStepIff(db, Step(db, op), change.row, change.entry, None);
    PostedAlignedIff(db, op, change.row, change.entry);
  }

  lemma NothingIsSame(db: Books, db': Books, change: Change)
    requires IsChange(db, db', change) && db' != db
    ensures change != Nothing
  {
  }

  lemma OneRowIs(db: Books, db': Books, change: Change)
    requires IsChange(db, db', change) && change.OneRow?
    ensures IsOneRow(db, db', change.row, change.entry, change.original)
    ensures change.row.accountId in db.accounts
    ensures |change.entry.postings| == 1
  {
  }

  lemma EntryAlignedAt(db: Books, e: nat)
    requires Valid(db) && EntriesAligned(db) && e < |db.entries|
    ensures EntryOk(db.transactions, db.entries[e])
    ensures RowOk(db.accounts, db.transactions[db.entries[e].transaction])
    ensures EntryAligned(db, db.entries[e])
  {
    ValidIsTyped(db);
    assert EntryAligned(db, db.entries[e]);
    assert EntryOk(db.transactions, db.entries[e]);
  }

  /** A reversal is aligned exactly when what it reverses is not a leg of a transfer. */
  lemma ReversedAlignedIff(db: Books, db': Books, row: Transaction, entry: JournalEntry, original: nat)
    requires Valid(db) && EntriesAligned(db) && IsOneRow(db, db', row, entry, Some(original))
    ensures Aligned(db.accounts[row.accountId].accountType, row, entry.postings[0])
       <==> db.transactions[original].kind != TxTransfer
  {
    assert ReversalOf(db, row, entry, original);
    var e := entry.reversalOf.value;
    var was, p := db.transactions[original], db.entries[e].postings[0];
    EntryAlignedAt(db, e);
    SwappedAligned(db.accounts[row.accountId].accountType, was, row, p);
    if was.kind == TxTransfer {
      TransferPostingNotAligned(db.accounts[row.accountId].accountType, was, p);
    }
  }

  /**
   Exactly when a reversal keeps the control accounts in step: when the reversed row is not a
   transfer leg. The guard on the number of postings lets the source leg of a transfer through.
   */
  lemma ReverseInStepIff(db: Books, op: Op)
    requires op.Reverse? && Valid(db) && InStep(db) && EntriesAligned(db) && Step(db, op) != db
    ensures Valid(Step(db, op)) && op.original < |db.transactions|
    ensures InStep(Step(db, op)) <==> db.transactions[op.original].kind != TxTransfer
  {
    StepKeepsValid(db, op);
    var change := ReverseChange(db, op);
    OneRowInStepIff(db, Step(db, op), change.row, change.entry, change.original);
    ReversedAlignedIff(db, Step(db, op), change.row, change.entry, op.original);
  }

  /** The codes of a transfer are the same from either of its accounts: the one that pays is debited. */
  lemma TransferCodes(payer: AccountType, payee: AccountType)
    ensures ResolveGlCodes(payer, TRANSFER, DEBIT, Some(payee)) == ResolveGlCodes(payee, TRANSFER, CREDIT, Some(payer))
    ensures ResolveGlCodes(payer, TRANSFER, DEBIT, Some(payee))
         == Success((if payer == FOSA then FOSA_DEPOSITS else BOSA_DEPOSITS,
                     if payee == FOSA then FOSA_DEPOSITS else BOSA_DEPOSITS))
  {
  }

  /** Only these journal types can be posted; a DIVIDEND_PAYOUT, for one, has no GL codes and never writes anything. */
  lemma PostWritesOnly(db: Books, op: Op)
    requires op.Post? && Step(db, op) != db
    ensures op.journalType in {DEPOSIT, MPESA_DEPOSIT, WITHDRAWAL, FEE_CHARGE, LOAN_DISBURSEMENT}
  {
    hide FindReference, FindEntry, ApplyBalanceChange, GlConfigured, HasEntryNumber;
  }

  // ---- Runs ---------------------------------------------------------------------------

  /** What the callers of the ledger keep to: canonical directions, and no reversal of a transfer leg. */
  ghost predicate Admissible(db: Books, op: Op) {
    && (op.Post? ==> Canonical(op.journalType, op.direction))
    && (op.Reverse? && op.original < |db.transactions| ==> db.transactions[op.original].kind != TxTransfer)
  }

  ghost predicate AdmissibleRun(db: Books, ops: seq<Op>) {
    forall k :: 0 <= k < |ops| ==> Admissible(Run(db, ops[..k]), ops[k])
  }

  lemma OldEntriesAligned(db: Books, db': Books, e: nat)
    requires Valid(db) && Valid(db') && EntriesAligned(db) && e < |db.entries| <= |db'.entries|
    requires db'.entries[e] == db.entries[e] && |db.transactions| <= |db'.transactions|
    requires forall i :: 0 <= i < |db.transactions| ==>
      db'.transactions[i].(status := COMPLETED) == db.transactions[i].(status := COMPLETED)
    requires forall id :: id in db.accounts ==>
      id in db'.accounts && db'.accounts[id].accountType == db.accounts[id].accountType
    ensures EntryOk(db'.transactions, db'.entries[e])
    ensures RowOk(db'.accounts, db'.transactions[db'.entries[e].transaction])
    ensures EntryAligned(db', db'.entries[e])
  {
    EntryAlignedAt(db, e);
    assert EntryOk(db'.transactions, db'.entries[e]);
    var t := db.entries[e].transaction;
    assert RowOk(db'.accounts, db'.transactions[t]);
    assert db'.transactions[t].(status := COMPLETED) == db.transactions[t].(status := COMPLETED);
    assert Movement(db'.transactions[t]) == Movement(db.transactions[t]);
  }

  lemma OneRowAligned(db: Books, db': Books, row: Transaction, entry: JournalEntry, original: Option<nat>)
    requires Valid(db) && Valid(db') && IsOneRow(db, db', row, entry, original) && EntriesAligned(db)
    requires Aligned(db.accounts[row.accountId].accountType, row, entry.postings[0]) && row.kind != TxTransfer
    ensures EntriesAligned(db')
  {
    hide UniqueReferences, OneEntryPerRow, ReversalsOk, ReversalsLinear, StatusesOk, LegsOk, MpesaOk, HasReference;
    ValidIsTyped(db');
    forall e | 0 <= e < |db'.entries|
      ensures EntryAligned(db', db'.entries[e])
    {
      if e < |db.entries| {
        OldEntriesAligned(db, db', e);
      } else {
        assert TypeOf(db'.accounts, db'.transactions, entry) == db.accounts[row.accountId].accountType;
      }
    }
  }

  lemma TwoRowsAligned(db: Books, db': Books, source: Transaction, destination: Transaction, entry: JournalEntry)
    requires Valid(db) && Valid(db') && IsTwoRows(db, db', source, destination, entry) && EntriesAligned(db)
    ensures EntriesAligned(db')
  {
    hide UniqueReferences, OneEntryPerRow, ReversalsOk, ReversalsLinear, StatusesOk, LegsOk, MpesaOk, HasReference;
    ValidIsTyped(db');
    forall e | 0 <= e < |db'.entries|
      ensures EntryAligned(db', db'.entries[e])
    {
      if e < |db.entries| {
        OldEntriesAligned(db, db', e);
      } else {
        assert RowOk(db.accounts, source);
      }
    }
  }

  lemma NoMoneyAligned(db: Books, db': Books)
    requires Valid(db) && Valid(db') && IsNoMoney(db, db') && EntriesAligned(db)
    ensures EntriesAligned(db')
  {
    ValidIsTyped(db');
    forall e | 0 <= e < |db'.entries|
      ensures EntryAligned(db', db'.entries[e])
    {
      OldEntriesAligned(db, db', e);
    }
  }

  lemma MatchAligned(db: Books, op: Op, row: Transaction, entry: JournalEntry)
    requires op.Match? && Valid(db) && IsOneRow(db, Step(db, op), row, entry, None)
    ensures Aligned(db.accounts[row.accountId].accountType, row, entry.postings[0])
  {
    assert Step(db, op).transactions[|db.transactions|] == row;
    assert Step(db, op).entries[|db.entries|] == entry;
    assert entry.postings[0] == Posting(CASH, MEMBER_SAVINGS, row.amount) && Movement(row) == row.amount;
  }

  /** An admissible call keeps the control accounts in step and its entries aligned. */
  lemma StepInStep(db: Books, op: Op)
    requires Valid(db) && InStep(db) && EntriesAligned(db) && Admissible(db, op)
    ensures Valid(Step(db, op)) && InStep(Step(db, op)) && EntriesAligned(Step(db, op))
  {
    hide Valid, InStep, EntriesAligned, Aligned, IsOneRow, IsTwoRows, IsNoMoney, Attempt;
    var db' := Step(db, op);
    StepKeepsValid(db, op);
    match op
    case Post(_, _, _, _, _, _) =>
      var change := PostChange(db, op);
      if change.OneRow? {
        OneRowIs(db, db', change);
        PostedAlignedIff(db, op, change.row, change.entry);
        OneRowInStepIff(db, db', change.row, change.entry, None);
        OneRowKind(db, db', change);
        OneRowAligned(db, db', change.row, change.entry, None);
      }
    case Match(_, _, _) =>
      var change := MatchChange(db, op);
      if change.OneRow? {
        OneRowIs(db, db', change);
        MatchAligned(db, op, change.row, change.entry);
        OneRowInStepIff(db, db', change.row, change.entry, None);
        OneRowKind(db, db', change);
        OneRowAligned(db, db', change.row, change.entry, None);
      }
    case Reverse(_, _) =>
      var change := ReverseChange(db, op);
      if change.OneRow? {
        OneRowIs(db, db', change);
        OneRowKind(db, db', change);
        ReversedAlignedIff(db, db', change.row, change.entry, op.original);
        OneRowInStepIff(db, db', change.row, change.entry, change.original);
        OneRowAligned(db, db', change.row, change.entry, change.original);
      }
    case Transfer(_, _, _, _, _) =>
      var change := TransferChange(db, op);
      if change.TwoRows? {
        TwoRowsAligned(db, db', change.source, change.destination, change.entry);
        TwoRowsAllInStep(db, db', change);
      }
    case External(_, _, _) =>
      var change := StepIsChange(db, op);
      ExternalInStep(db, op, change);
  }

  lemma OneRowKind(db: Books, db': Books, change: Change)
    requires IsChange(db, db', change) && change.OneRow?
    ensures change.row.kind != TxTransfer
    ensures change.original.Some? ==> change.original.value < |db.transactions|
  {
  }

  lemma TwoRowsAllInStep(db: Books, db': Books, change: Change)
    requires Valid(db) && Valid(db') && IsChange(db, db', change) && change.TwoRows? && InStep(db)
    ensures InStep(db')
  {
    hide Valid, InStepFor, IsTwoRows;
    forall tenantId, accountType
      ensures InStepFor(db', tenantId, accountType)
    {
      assert InStepFor(db, tenantId, accountType);
      TwoRowsInStep(db, db', change.source, change.destination, change.entry, tenantId, accountType);
    }
  }

  lemma ExternalInStep(db: Books, op: Op, change: Change)
    requires op.External? && Valid(db) && Valid(Step(db, op)) && InStep(db) && EntriesAligned(db)
    ensures InStep(Step(db, op)) && EntriesAligned(Step(db, op))
  {
    hide Valid, InStepFor, EntriesAligned;
    var db' := Step(db, op);
    if MovesNoMoney(db, op) {
      assert IsNoMoney(db, db');
      NoMoneyAligned(db, db');
      forall tenantId, accountType
        ensures InStepFor(db', tenantId, accountType)
      {
        assert InStepFor(db, tenantId, accountType);
        NoMoneyInStep(db, db', tenantId, accountType);
      }
    }
  }

  lemma OpeningInStep(db: Books)
    requires Opening(db)
    ensures Valid(db) && InStep(db) && EntriesAligned(db)
  {
    forall tenantId, accountType
      ensures InStepFor(db, tenantId, accountType)
    {
      SumWithZeros(db.accounts, {}, AccountsOf(db.accounts, tenantId, accountType));
    }
  }

  lemma {:induction false} RunInStep(db: Books, ops: seq<Op>)
    requires Opening(db) && AdmissibleRun(db, ops)
    ensures Valid(Run(db, ops)) && InStep(Run(db, ops)) && EntriesAligned(Run(db, ops))
  {
    hide Valid, InStep, EntriesAligned, Admissible, Step, Opening;
    if ops == [] {
      OpeningInStep(db);
    } else {
      var n := |ops| - 1;
      var before := ops[..n];
      assert AdmissibleRun(db, before) by {
        forall k | 0 <= k < n
          ensures Admissible(Run(db, before[..k]), before[k])
        {
          assert before[..k] == ops[..k];
        }
      }
      RunInStep(db, before);
      assert Admissible(Run(db, ops[..n]), ops[n]);
      StepInStep(Run(db, before), ops[n]);
    }
  }

  /**
   The control accounts after any admissible run from an empty ledger: for every tenant, the net
   credit on 2000, 2300 and 2400 together equals the sum of all its members' balances.
   */
  lemma ControlAccountsWithRecon(db: Books, ops: seq<Op>, tenantId: string)
    requires Opening(db) && AdmissibleRun(db, ops)
    ensures var db' := Run(db, ops);
      && SinglePostings(db'.entries)
      && NetCredit(db'.entries, tenantId, MEMBER_SAVINGS) + NetCredit(db'.entries, tenantId, FOSA_DEPOSITS)
         + NetCredit(db'.entries, tenantId, BOSA_DEPOSITS)
         == SumBalances(db'.accounts, tenantId, FOSA) + SumBalances(db'.accounts, tenantId, BOSA)
  {
    var db' := Run(db, ops);
    RunInStep(db, ops);
    ValidIsTyped(db');
    assert InStepFor(db', tenantId, FOSA) && InStepFor(db', tenantId, BOSA);
    ReconIsNetCredit(db'.accounts, db'.transactions, db'.entries, tenantId);
  }

  ghost predicate NoMatch(ops: seq<Op>) {
    forall k :: 0 <= k < |ops| ==> !ops[k].Match?
  }

  ghost predicate UntouchedSavings(entries: seq<JournalEntry>) {
    forall e :: 0 <= e < |entries| ==> LeavesSavings(entries[e])
  }

  ghost predicate LeavesSavings(entry: JournalEntry) {
    |entry.postings| == 1 && entry.postings[0].debit != MEMBER_SAVINGS && entry.postings[0].credit != MEMBER_SAVINGS
  }

  /** Every entry that a step adds, apart from an M-Pesa match, stays off 2000. */
  lemma StepUntouchedSavings(db: Books, op: Op)
    requires Valid(db) && UntouchedSavings(db.entries) && !op.Match?
    ensures UntouchedSavings(Step(db, op).entries)
  {
    hide Valid;
    match op
    case Post(_, _, _, _, _, _) => PostUntouched(db, op);
    case Transfer(_, _, _, _, _) => TransferUntouched(db, op);
    case Reverse(_, _) => ReverseUntouched(db, op);
    case External(_, _, _) =>
  }

  lemma PostUntouched(db: Books, op: Op)
    requires op.Post? && UntouchedSavings(db.entries)
    ensures UntouchedSavings(Step(db, op).entries)
  {
    var entries' := Step(db, op).entries;
    assert |entries'| > |db.entries| ==> LeavesSavings(entries'[|db.entries|]);
  }

  lemma TransferUntouched(db: Books, op: Op)
    requires op.Transfer? && UntouchedSavings(db.entries)
    ensures UntouchedSavings(Step(db, op).entries)
  {
    var entries' := Step(db, op).entries;
    assert |entries'| > |db.entries| ==> LeavesSavings(entries'[|db.entries|]);
  }

  lemma ReverseUntouched(db: Books, op: Op)
    requires op.Reverse? && UntouchedSavings(db.entries)
    ensures UntouchedSavings(Step(db, op).entries)
  {
    var entries' := Step(db, op).entries;
    if |entries'| > |db.entries| {
      var e := FindEntry(db.entries, op.tenantId, op.original).value;
      assert LeavesSavings(db.entries[e]);
      assert LeavesSavings(entries'[|db.entries|]);
    }
  }

  lemma {:induction false} RunUntouchedSavings(db: Books, ops: seq<Op>)
    requires Opening(db) && NoMatch(ops)
    ensures UntouchedSavings(Run(db, ops).entries)
  {
    if ops != [] {
      var before := ops[..|ops| - 1];
      RunUntouchedSavings(db, before);
      RunKeepsValid(db, before);
      StepUntouchedSavings(Run(db, before), ops[|ops| - 1]);
    }
  }

  lemma {:induction false} NoRecon(accounts: map<string, Account>, rows: seq<Transaction>, entries: seq<JournalEntry>,
                                   tenantId: string, accountType: AccountType)
    requires SinglePostings(entries) && Typed(accounts, rows, entries) && UntouchedSavings(entries)
    ensures Recon(accounts, rows, entries, tenantId, accountType) == 0
  {
    if entries != [] {
      NoRecon(accounts, rows, entries[..|entries| - 1], tenantId, accountType);
    }
  }

  /**
   Without M-Pesa matches the two codes are in step one by one: net credit on 2300 is the sum of
   the tenant's FOSA balances and net credit on 2400 the sum of its BOSA balances.
   */
  lemma ControlAccounts(db: Books, ops: seq<Op>, tenantId: string)
    requires Opening(db) && AdmissibleRun(db, ops) && NoMatch(ops)
    ensures var db' := Run(db, ops);
      && SinglePostings(db'.entries)
      && NetCredit(db'.entries, tenantId, FOSA_DEPOSITS) == SumBalances(db'.accounts, tenantId, FOSA)
      && NetCredit(db'.entries, tenantId, BOSA_DEPOSITS) == SumBalances(db'.accounts, tenantId, BOSA)
  {
    var db' := Run(db, ops);
    RunInStep(db, ops);
    RunUntouchedSavings(db, ops);
    ValidIsTyped(db');
    assert InStepFor(db', tenantId, FOSA) && InStepFor(db', tenantId, BOSA);
    NoRecon(db'.accounts, db'.transactions, db'.entries, tenantId, FOSA);
    NoRecon(db'.accounts, db'.transactions, db'.entries, tenantId, BOSA);
  }
}
