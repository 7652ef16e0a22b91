/**
 What the ledger records of the calls made to it: every statement row and every journal entry tells
 the call that wrote it, and the accounts on the other side of the members' deposits (cash, loans,
 fee income) are what the calls moved.
 */
module LedgerRecords {
  import opened Decimals
  import opened Outcomes
  import opened LedgerModel
  import opened LedgerInvariants
  import opened LedgerControl
  import opened LedgerLinks

  // ---- Which call wrote a row ---------------------------------------------------------

  /** The call that wrote row i. */
  ghost function Writer(db: Books, ops: seq<Op>, i: nat): (k: nat)
    requires Opening(db) && i < |Run(db, ops).transactions|
    ensures k < |ops| && |Run(db, ops[..k]).transactions| <= i < |Run(db, ops[..k + 1]).transactions|
    decreases |ops|
  {
    var n := |ops| - 1;
    assert ops[..n + 1] == ops;
    if i < |Run(db, ops[..n]).transactions| then
      var k := Writer(db, ops[..n], i);
      assert ops[..n][..k] == ops[..k] && ops[..n][..k + 1] == ops[..k + 1];
      k
    else n
  }

  /** The calls up to and including the one that wrote row i. */
  ghost function UpToWriter(db: Books, ops: seq<Op>, i: nat): (r: seq<Op>)
    requires Opening(db) && i < |Run(db, ops).transactions|
    ensures r != []
  {
    ops[..Writer(db, ops, i) + 1]
  }

  lemma OneMoreCall(db: Books, ops: seq<Op>, op: Op)
    ensures (ops + [op])[..|ops|] == ops
    ensures Run(db, ops + [op]) == Step(Run(db, ops), op)
  {
  }

  lemma WriterStays(db: Books, ops: seq<Op>, op: Op, i: nat)
    requires Opening(db) && i < |Run(db, ops).transactions|
    ensures i < |Run(db, ops + [op]).transactions|
    ensures UpToWriter(db, ops + [op], i) == UpToWriter(db, ops, i)
  {
    OneMoreCall(db, ops, op);
    RunKeepsValid(db, ops);
    StepKeepsRows(Run(db, ops), op);
    var k := Writer(db, ops, i);
    assert (ops + [op])[..k + 1] == ops[..k + 1];
  }

  lemma LastWriter(db: Books, ops: seq<Op>, op: Op, i: nat)
    requires Opening(db) && |Run(db, ops).transactions| <= i < |Run(db, ops + [op]).transactions|
    ensures Writer(db, ops + [op], i) == |ops| && UpToWriter(db, ops + [op], i) == ops + [op]
  {
    OneMoreCall(db, ops, op);
    assert (ops + [op])[..|ops| + 1] == ops + [op];
  }

  // ---- Rows and entries tell their calls ----------------------------------------------

  /** An amount in KES as it is stored: to the nearest unit of 0.0001. */
  predicate IsStored(units: int, kes: real) {
    -0.5 <= units as real - kes * 10000.0 <= 0.5
  }

  predicate IsKindOf(kind: TransactionType, journalType: JournalType) {
    && (kind == TxDeposit <==> journalType in {DEPOSIT, MPESA_DEPOSIT})
    && (kind == TxWithdrawal <==> journalType == WITHDRAWAL)
    && (kind == TxFeeCharge <==> journalType == FEE_CHARGE)
    && (kind == TxLoanDisbursement <==> journalType == LOAN_DISBURSEMENT)
    && kind !in {TxTransfer, TxDividendPayout, TxReversal}
  }

  /** The row is one that the call asks for. */
  predicate RowTells(op: Op, row: Transaction) {
    match op
    case Post(tenantId, reference, journalType, accountId, kes, direction) =>
      && row.tenantId == tenantId && row.reference == reference && row.accountId == accountId
      && IsKindOf(row.kind, journalType) && IsStored(row.amount, kes)
      && Movement(row) == (if direction == CREDIT then row.amount else -row.amount)
    case Transfer(tenantId, source, destination, kes, reference) =>
      && row.tenantId == tenantId && row.kind == TxTransfer && IsStored(row.amount, kes)
      && (|| (row.accountId == source && row.reference == reference + "-SRC" && Movement(row) == -row.amount)
          || (row.accountId == destination && row.reference == reference + "-DST" && Movement(row) == row.amount))
    case Reverse(tenantId, original) =>
      row.tenantId == tenantId && row.kind == TxReversal && row.linked == Some(original)
    case Match(mpesaId, tenantId, accountId) =>
      && row.tenantId == tenantId && row.reference == "MPESA-RECON-" + mpesaId && row.accountId == accountId
      && row.kind == TxDeposit && Movement(row) == row.amount
    case External(_, _, _) => false
  }

  /** The journal entry is the one that the call asks for. */
  predicate EntryTells(op: Op, entry: JournalEntry) {
    match op
    case Post(tenantId, reference, journalType, _, kes, _) =>
      && entry.tenantId == tenantId && entry.entryNumber == "JE-LEDGER-" + reference
      && entry.journalType == journalType && entry.reversalOf == None
    case Transfer(tenantId, _, _, kes, reference) =>
      && entry.tenantId == tenantId && entry.entryNumber == "JE-LEDGER-" + reference
      && entry.journalType == TRANSFER && entry.reversalOf == None
    case Reverse(tenantId, _) =>
      && entry.tenantId == tenantId && "JE-REVERSAL-" <= entry.entryNumber
      && entry.journalType == REVERSAL && entry.reversalOf.Some?
    case Match(mpesaId, tenantId, _) =>
      && entry.tenantId == tenantId && entry.entryNumber == "JE-MPESA-RECON-" + mpesaId
      && entry.journalType == MPESA_DEPOSIT && entry.reversalOf == None
    case External(_, _, _) => false
  }

  lemma PostedRowTells(db: Books, op: Op, i: nat)
    requires op.Post? && |db.transactions| <= i < |Step(db, op).transactions|
    ensures RowTells(op, Step(db, op).transactions[i])
  {
    hide FindReference, FindEntry, HasEntryNumber, GlConfigured, ResolveGlCodes;
    PostWritesOnly(db, op);
  }

  lemma NewRowTells(db: Books, op: Op, i: nat)
    requires |db.transactions| <= i < |Step(db, op).transactions|
    ensures RowTells(op, Step(db, op).transactions[i])
  {
    hide FindReference, FindEntry, HasReference, HasReversal, HasEntryNumber, GlConfigured, ResolveGlCodes, DebitFloor;
    match op
    case Post(_, _, _, _, _, _) => PostedRowTells(db, op, i);
    case Transfer(_, _, _, _, _) =>
    case Reverse(_, _) =>
    case Match(_, _, _) =>
    case External(_, _, _) =>
  }

  lemma NewEntryTells(db: Books, op: Op, e: nat)
    requires |db.entries| <= e < |Step(db, op).entries|
    ensures EntryTells(op, Step(db, op).entries[e])
  {
    hide FindReference, FindEntry, HasReference, HasReversal, HasEntryNumber, GlConfigured, ResolveGlCodes,
         ApplyBalanceChange;
  }

  lemma StepAddsEntry(db: Books, op: Op)
    requires Valid(db)
    ensures var db' := Step(db, op);
      && db.entries <= db'.entries && |db.transactions| <= |db'.transactions|
      && (|db'.transactions| > |db.transactions| <==> |db'.entries| == |db.entries| + 1)
      && (|db'.transactions| == |db.transactions| <==> db'.entries == db.entries)
      && (|db'.entries| > |db.entries| ==>
            var entry := db'.entries[|db.entries|];
            entry.transaction == |db.transactions| && |entry.postings| == 1
            && op.External? == false && entry.tenantId == op.tenantId)
  {
    var change := StepIsChange(db, op);
    if |Step(db, op).entries| > |db.entries| {
      NewEntryTells(db, op, |db.entries|);
    }
  }

  lemma EntryHasRow(db: Books, e: nat)
    requires Valid(db) && e < |db.entries|
    ensures db.entries[e].transaction < |db.transactions| && |db.entries[e].postings| == 1
  {
    assert EntryOk(db.transactions, db.entries[e]);
  }

  /** After any run, every row is one that the call asked for that wrote it. */
  lemma {:induction false} RowTellsCall(db: Books, ops: seq<Op>, i: nat)
    requires Opening(db) && i < |Run(db, ops).transactions|
    ensures RowTells(ops[Writer(db, ops, i)], Run(db, ops).transactions[i])
  {
    hide RowTells, Step;
    var n := |ops| - 1;
    var init, op := ops[..n], ops[n];
    assert ops == init + [op];
    OneMoreCall(db, init, op);
    if i < |Run(db, init).transactions| {
      RowTellsCall(db, init, i);
      WriterStays(db, init, op, i);
      RunKeepsValid(db, init);
      StepKeepsRows(Run(db, init), op);
      SameRowTells(init[Writer(db, init, i)], Run(db, init).transactions[i], Run(db, ops).transactions[i]);
    } else {
      LastWriter(db, init, op, i);
      NewRowTells(Run(db, init), op, i);
    }
  }

  lemma SameRowTells(op: Op, row: Transaction, row': Transaction)
    requires RowTells(op, row) && row' == row.(status := row'.status)
    ensures RowTells(op, row')
  {
  }

  /** After any run, every journal entry is the one that the call asked for that wrote its row. */
  lemma {:induction false} EntryTellsCall(db: Books, ops: seq<Op>, e: nat)
    requires Opening(db) && e < |Run(db, ops).entries|
    ensures Run(db, ops).entries[e].transaction < |Run(db, ops).transactions|
    ensures EntryTells(ops[Writer(db, ops, Run(db, ops).entries[e].transaction)], Run(db, ops).entries[e])
  {
    hide EntryTells, Step;
    RunKeepsValid(db, ops);
    EntryHasRow(Run(db, ops), e);
    var n := |ops| - 1;
    var init, op := ops[..n], ops[n];
    assert ops == init + [op];
    OneMoreCall(db, init, op);
    RunKeepsValid(db, init);
    StepAddsEntry(Run(db, init), op);
    var i := Run(db, ops).entries[e].transaction;
    if e < |Run(db, init).entries| {
      EntryTellsCall(db, init, e);
      WriterStays(db, init, op, i);
    } else {
      LastWriter(db, init, op, i);
      NewEntryTells(Run(db, init), op, e);
    }
  }

  /** The row and the entry that a receipt names: the new ones, or on a replay ones that were there. */
  predicate NamesRow(db: Books, receipt: Receipt) {
    match receipt
    case EntryReceipt(t, e, replayed) =>
      if replayed then t < |db.transactions| && e < |db.entries| && db.entries[e].transaction == t
      else t == |db.transactions| && e == |db.entries|
    case TransferReceipt(s, d, e, replayed) =>
      if replayed
      then s < |db.transactions| && d < |db.transactions| && e < |db.entries| && db.entries[e].transaction == s
      else s == |db.transactions| && d == s + 1 && e == |db.entries|
    case MatchReceipt(t, replayed) => if replayed then t < |db.transactions| else t == |db.transactions|
    case ExternalReceipt => true
  }

  /** A call that goes through is answered with what it wrote, or writes nothing and is answered with what was there. */
  lemma ReceiptNamesRow(db: Books, op: Op)
    requires Attempt(db, op).Success? && !op.External?
    ensures var receipt := Attempt(db, op).value.receipt;
      && !receipt.ExternalReceipt? && NamesRow(db, receipt)
      && (if receipt.replayed then Step(db, op) == db else |Step(db, op).transactions| > |db.transactions|)
  {
    hide HasReference, HasReversal, HasEntryNumber, GlConfigured, ResolveGlCodes, ApplyBalanceChange, ToUnits;
  }

  // ---- What the calls moved -----------------------------------------------------------

  /** What a call posts: a journal type, or an M-Pesa receipt that is matched. */
  datatype Cause = Posted(journalType: JournalType) | Matched

  /**
   The amount that the last call of a run moved for a cause: what it posted, if it wrote anything;
   minus what the reversed call moved, if it is a reversal.
   */
  ghost function Moved(db: Books, ops: seq<Op>, cause: Cause): int
    requires Opening(db) && ops != []
    decreases |ops|
  {
    var n := |ops| - 1;
    var before := Run(db, ops[..n]);
    if |Step(before, ops[n]).transactions| <= |before.transactions| then 0
    else
      match ops[n]
      case Post(_, _, journalType, _, kes, _) => if cause == Posted(journalType) then ToUnits(kes) else 0
      case Match(mpesaId, _, _) =>
        if cause == Matched && mpesaId in before.mpesa then before.mpesa[mpesaId].amount else 0
      case Reverse(_, original) =>
        if original < |before.transactions| then
          -Moved(db, UpToWriter(db, ops[..n], original), cause)
        else 0
      case Transfer(_, _, _, _, _) => 0
      case External(_, _, _) => 0
  }

  predicate IsOf(op: Op, tenantId: string) {
    !op.External? && op.tenantId == tenantId
  }

  /** What a tenant's calls moved for a cause over a run, reversals taken off. */
  ghost function Sum(db: Books, ops: seq<Op>, tenantId: string, cause: Cause): int
    requires Opening(db)
  {
    if ops == [] then 0
    else
      var n := |ops| - 1;
      Sum(db, ops[..n], tenantId, cause) + (if IsOf(ops[n], tenantId) then Moved(db, ops, cause) else 0)
  }

  /** A posting that moves each code, apart from the members' deposits, as the last call of a run asked for. */
  ghost predicate Shows(p: Posting, db: Books, ops: seq<Op>)
    requires Opening(db) && ops != []
  {
    && NetOf(p, CASH) == Moved(db, ops, Posted(WITHDRAWAL)) - Moved(db, ops, Posted(DEPOSIT))
                         - Moved(db, ops, Posted(MPESA_DEPOSIT)) - Moved(db, ops, Matched)
    && NetOf(p, FEE_INCOME) == Moved(db, ops, Posted(FEE_CHARGE))
    && NetOf(p, LOAN_RECEIVABLE) == -Moved(db, ops, Posted(LOAN_DISBURSEMENT))
    && NetOf(p, MEMBER_SAVINGS) == Moved(db, ops, Matched)
    && NetOf(p, INTEREST_INCOME) == NetOf(p, PENALTY_INCOME) == 0
  }

  /** Every posting of the books after a run shows what the call moved that wrote it. */
  ghost predicate AllShow(db: Books, ops: seq<Op>)
    requires Opening(db)
  {
    var db' := Run(db, ops);
    forall e :: 0 <= e < |db'.entries| ==>
      && |db'.entries[e].postings| == 1 && db'.entries[e].transaction < |db'.transactions|
      && Shows(db'.entries[e].postings[0], db, UpToWriter(db, ops, db'.entries[e].transaction))
  }

  lemma PostShows(db: Books, ops: seq<Op>, op: Op)
    requires Opening(db) && op.Post?
    requires |Run(db, ops + [op]).transactions| > |Run(db, ops).transactions|
    requires |Run(db, ops + [op]).entries| == |Run(db, ops).entries| + 1
    requires |Run(db, ops + [op]).entries[|Run(db, ops).entries|].postings| == 1
    ensures Shows(Run(db, ops + [op]).entries[|Run(db, ops).entries|].postings[0], db, ops + [op])
  {
    hide Run, FindReference, FindEntry, HasReference, HasReversal, HasEntryNumber, GlConfigured, ApplyBalanceChange,
         ToUnits, Opening;
    OneMoreCall(db, ops, op);
    PostWritesOnly(Run(db, ops), op);
  }

  lemma TransferShows(db: Books, ops: seq<Op>, op: Op)
    requires Opening(db) && op.Transfer?
    requires |Run(db, ops + [op]).transactions| > |Run(db, ops).transactions|
    requires |Run(db, ops + [op]).entries| == |Run(db, ops).entries| + 1
    requires |Run(db, ops + [op]).entries[|Run(db, ops).entries|].postings| == 1
    ensures Shows(Run(db, ops + [op]).entries[|Run(db, ops).entries|].postings[0], db, ops + [op])
  {
    hide Run, FindReference, FindEntry, HasReference, HasReversal, HasEntryNumber, GlConfigured, ApplyBalanceChange,
         ToUnits, Opening;
    OneMoreCall(db, ops, op);
  }

  lemma MatchShows(db: Books, ops: seq<Op>, op: Op)
    requires Opening(db) && op.Match?
    requires |Run(db, ops + [op]).transactions| > |Run(db, ops).transactions|
    requires |Run(db, ops + [op]).entries| == |Run(db, ops).entries| + 1
    requires |Run(db, ops + [op]).entries[|Run(db, ops).entries|].postings| == 1
    ensures Shows(Run(db, ops + [op]).entries[|Run(db, ops).entries|].postings[0], db, ops + [op])
  {
    hide Run, FindReference, FindEntry, HasReference, HasReversal, HasEntryNumber, GlConfigured, ApplyBalanceChange,
         ToUnits, Opening;
    OneMoreCall(db, ops, op);
  }

  lemma ReversedShows(db: Books, ops: seq<Op>, op: Op)
    requires Opening(db) && op.Reverse? && AllShow(db, ops)
    requires |Run(db, ops + [op]).transactions| > |Run(db, ops).transactions|
    requires |Run(db, ops + [op]).entries| == |Run(db, ops).entries| + 1
    requires |Run(db, ops + [op]).entries[|Run(db, ops).entries|].postings| == 1
    ensures Shows(Run(db, ops + [op]).entries[|Run(db, ops).entries|].postings[0], db, ops + [op])
  {
    OneMoreCall(db, ops, op);
    RunKeepsValid(db, ops);
    var before := Run(db, ops);
    var change := ReverseChange(before, op);
    assert ReversalOf(before, change.row, change.entry, op.original);
    var e := change.entry.reversalOf.value;
    var p, q := before.entries[e].postings[0], change.entry.postings[0];
    assert q == Swapped(p);
    assert Shows(p, db, UpToWriter(db, ops, op.original));
    hide Shows, Run, Valid, IsOneRow, ReversalOf;
    SwappedNet(p);
    NegatedShows(p, q, db, UpToWriter(db, ops, op.original), ops + [op]) by {
      forall cause
        ensures Moved(db, ops + [op], cause) == -Moved(db, UpToWriter(db, ops, op.original), cause)
      {
      }
    }
  }

  lemma SwappedNet(p: Posting)
    ensures forall code :: NetOf(Swapped(p), code) == -NetOf(p, code)
  {
  }

  lemma NegatedShows(p: Posting, q: Posting, db: Books, ops: seq<Op>, ops': seq<Op>)
    requires Opening(db) && ops != [] && ops' != [] && Shows(p, db, ops)
    requires forall code :: NetOf(q, code) == -NetOf(p, code)
    requires forall cause :: Moved(db, ops', cause) == -Moved(db, ops, cause)
    ensures Shows(q, db, ops')
  {
    hide NetOf, Moved;
  }

  lemma {:induction false} RunShows(db: Books, ops: seq<Op>)
    requires Opening(db)
    ensures AllShow(db, ops)
  {
    hide Step, Shows, Valid, Opening;
    if ops == [] {
      OpeningShows(db);
    } else {
      var n := |ops| - 1;
      var init, op := ops[..n], ops[n];
      assert ops == init + [op];
      RunShows(db, init);
      RunKeepsValid(db, init);
      OneMoreCall(db, init, op);
      StepAddsEntry(Run(db, init), op);
      var before, after := Run(db, init), Run(db, ops);
      forall e | 0 <= e < |after.entries|
        ensures |after.entries[e].postings| == 1 && after.entries[e].transaction < |after.transactions|
        ensures Shows(after.entries[e].postings[0], db, UpToWriter(db, ops, after.entries[e].transaction))
      {
        if e < |before.entries| {
          WriterStays(db, init, op, after.entries[e].transaction);
        } else {
          LastWriter(db, init, op, |before.transactions|);
          match op
          case Post(_, _, _, _, _, _) => PostShows(db, init, op);
          case Transfer(_, _, _, _, _) => TransferShows(db, init, op);
          case Match(_, _, _) => MatchShows(db, init, op);
          case Reverse(_, _) => ReversedShows(db, init, op);
        }
      }
    }
  }

  lemma OpeningShows(db: Books)
    requires Opening(db)
    ensures AllShow(db, [])
  {
  }

  /** What the last call of a run adds to the net credit of each code. */
  ghost predicate Adds(db: Books, ops: seq<Op>, tenantId: string, p: Posting)
    requires ops != [] && SinglePostings(Run(db, ops).entries)
    requires SinglePostings(Run(db, ops[..|ops| - 1]).entries)
  {
    var before, after := Run(db, ops[..|ops| - 1]), Run(db, ops);
    forall code :: NetCredit(after.entries, tenantId, code)
      == NetCredit(before.entries, tenantId, code) + (if IsOf(ops[|ops| - 1], tenantId) then NetOf(p, code) else 0)
  }

  lemma LastCredit(db: Books, ops: seq<Op>, tenantId: string) returns (p: Posting)
    requires Opening(db) && ops != []
    ensures SinglePostings(Run(db, ops).entries) && SinglePostings(Run(db, ops[..|ops| - 1]).entries)
    ensures Shows(p, db, ops) && Adds(db, ops, tenantId, p)
  {
    hide Step, Shows, Valid, Opening, NetOf, NetCredit;
    var n := |ops| - 1;
    var init, op := ops[..n], ops[n];
    assert ops == init + [op];
    OneMoreCall(db, init, op);
    var before, after := Run(db, init), Run(db, ops);
    RunKeepsValid(db, init);
    RunKeepsValid(db, ops);
    ValidIsTyped(before);
    ValidIsTyped(after);
    StepAddsEntry(before, op);
    if |after.transactions| > |before.transactions| {
      var entry := after.entries[|before.entries|];
      p := entry.postings[0];
      RunShows(db, ops);
      LastWriter(db, init, op, |before.transactions|);
      assert after.entries == before.entries + [entry];
      forall code
        ensures NetCredit(after.entries, tenantId, code)
             == NetCredit(before.entries, tenantId, code) + (if IsOf(op, tenantId) then NetOf(p, code) else 0)
      {
        AppendedEntry(before.entries, entry, tenantId, code);
      }
    } else {
      p := Posting(CASH, CASH, 0);
      NothingMoved(db, ops);
      NothingShows(db, ops);
    }
  }

  lemma NothingMoved(db: Books, ops: seq<Op>)
    requires Opening(db) && ops != []
    requires |Run(db, ops).transactions| <= |Run(db, ops[..|ops| - 1]).transactions|
    ensures forall cause :: Moved(db, ops, cause) == 0
  {
  }

  lemma NothingShows(db: Books, ops: seq<Op>)
    requires Opening(db) && ops != [] && forall cause :: Moved(db, ops, cause) == 0
    ensures Shows(Posting(CASH, CASH, 0), db, ops)
    ensures forall code :: NetOf(Posting(CASH, CASH, 0), code) == 0
  {
    hide Moved;
  }

  lemma OneMoreMoved(db: Books, ops: seq<Op>, tenantId: string, cause: Cause)
    requires Opening(db) && ops != []
    ensures Sum(db, ops, tenantId, cause)
         == Sum(db, ops[..|ops| - 1], tenantId, cause)
            + (if IsOf(ops[|ops| - 1], tenantId) then Moved(db, ops, cause) else 0)
  {
    hide Moved;
  }

  /**
   The other side of the books. Over every run, reversals taken off, a tenant's net debit on cash is
   what was deposited and matched less what was withdrawn; its net credit on fee income is the fees
   charged; its net debit on loans is what was disbursed; matches show on 2000, and the other income
   codes show nothing.
   */
  lemma {:induction false} OtherSideIsWhatCallsMoved(db: Books, ops: seq<Op>, tenantId: string)
    requires Opening(db)
    ensures var entries := Run(db, ops).entries;
      && SinglePostings(entries)
      && -NetCredit(entries, tenantId, CASH)
           == Sum(db, ops, tenantId, Posted(DEPOSIT)) + Sum(db, ops, tenantId, Posted(MPESA_DEPOSIT))
              + Sum(db, ops, tenantId, Matched) - Sum(db, ops, tenantId, Posted(WITHDRAWAL))
      && NetCredit(entries, tenantId, FEE_INCOME) == Sum(db, ops, tenantId, Posted(FEE_CHARGE))
      && -NetCredit(entries, tenantId, LOAN_RECEIVABLE) == Sum(db, ops, tenantId, Posted(LOAN_DISBURSEMENT))
      && NetCredit(entries, tenantId, MEMBER_SAVINGS) == Sum(db, ops, tenantId, Matched)
      && NetCredit(entries, tenantId, INTEREST_INCOME) == NetCredit(entries, tenantId, PENALTY_INCOME) == 0
  {
    if ops != [] {
      OtherSideIsWhatCallsMoved(db, ops[..|ops| - 1], tenantId);
      var p := LastCredit(db, ops, tenantId);
      hide Run, Moved, Sum, NetCredit, NetOf;
      OneMoreMoved(db, ops, tenantId, Posted(DEPOSIT));
      OneMoreMoved(db, ops, tenantId, Posted(MPESA_DEPOSIT));
      OneMoreMoved(db, ops, tenantId, Posted(WITHDRAWAL));
      OneMoreMoved(db, ops, tenantId, Posted(FEE_CHARGE));
      OneMoreMoved(db, ops, tenantId, Posted(LOAN_DISBURSEMENT));
      OneMoreMoved(db, ops, tenantId, Matched);
    }
  }
}
