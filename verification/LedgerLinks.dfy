/**
 How statement rows refer to each other, and to M-Pesa receipts, after any run: the two legs of a
 transfer, a reversal and what it reverses, a receipt and the row that credits it.
 */
module LedgerLinks {
  import opened Decimals
  import opened Outcomes
  import opened LedgerModel
  import opened LedgerInvariants
  import opened LedgerReplay

  /** The other leg of a transfer: the same amount the other way on another account, linked back. */
  predicate IsPartner(row: Transaction, i: nat, other: Transaction) {
    && other.kind == TxTransfer && other.linked == Some(i) && other.tenantId == row.tenantId
    && other.accountId != row.accountId && other.amount == row.amount && Movement(other) == -Movement(row)
  }

  /** What a reversal reverses: an earlier row of the same account, marked, moved back by the same amount. */
  predicate IsOriginal(row: Transaction, original: Transaction) {
    && original.status == REVERSED && original.tenantId == row.tenantId && original.accountId == row.accountId
    && original.amount == row.amount && Movement(original) == -Movement(row)
  }

  ghost predicate LinkOk(rows: seq<Transaction>, i: nat)
    requires i < |rows|
  {
    var row := rows[i];
    if row.kind == TxTransfer
    then row.linked.Some? && row.linked.value < |rows| && IsPartner(row, i, rows[row.linked.value])
    else if row.kind == TxReversal
    then row.linked.Some? && row.linked.value < i && IsOriginal(row, rows[row.linked.value])
    else row.linked == None
  }

  ghost predicate LinksOk(rows: seq<Transaction>) {
    forall i :: 0 <= i < |rows| ==> LinkOk(rows, i)
  }

  /** Rows keep their links when rows are appended and others are marked REVERSED. */
  lemma LinksStay(rows: seq<Transaction>, rows': seq<Transaction>, i: nat)
    requires LinksOk(rows) && i < |rows| <= |rows'|
    requires forall k :: 0 <= k < |rows| ==>
      rows'[k] == rows[k].(status := rows'[k].status) && (rows[k].status == REVERSED ==> rows'[k].status == REVERSED)
    ensures LinkOk(rows', i)
  {
    assert LinkOk(rows, i);
    assert rows'[i] == rows[i].(status := rows'[i].status);
    if rows[i].linked.Some? && rows[i].linked.value < |rows| {
      var j := rows[i].linked.value;
      assert rows'[j] == rows[j].(status := rows'[j].status);
    }
  }

  lemma TransferLinks(db: Books, op: Op, i: nat)
    requires Valid(db) && op.Transfer? && |db.transactions| <= i < |Step(db, op).transactions|
    ensures LinkOk(Step(db, op).transactions, i)
  {
    hide Valid, FindReference, FindEntry, ToUnits, HasEntryNumber, GlConfigured, HasReference, ResolveGlCodes;
  }

  lemma ReverseLinks(db: Books, op: Op, i: nat)
    requires Valid(db) && op.Reverse? && |db.transactions| <= i < |Step(db, op).transactions|
    ensures LinkOk(Step(db, op).transactions, i)
  {
    var change := ReverseChange(db, op);
    var rows := Step(db, op).transactions;
    assert ReversalOf(db, change.row, change.entry, op.original);
    assert rows == Marked(db.transactions, Some(op.original)) + [change.row];
    assert rows[i] == change.row;
    ReversalIsLinked(db, op);
  }

  lemma ReversalIsLinked(db: Books, op: Op)
    requires op.Reverse? && |db.transactions| < |Step(db, op).transactions|
    ensures Step(db, op).transactions[|db.transactions|].linked == Some(op.original)
  {
    hide FindEntry, HasReference, HasReversal, HasEntryNumber;
  }

  lemma PostedUnlinked(db: Books, op: Op, i: nat)
    requires (op.Post? || op.Match?) && |db.transactions| <= i < |Step(db, op).transactions|
    ensures LinkOk(Step(db, op).transactions, i)
  {
    hide FindReference, FindEntry, ToUnits, HasEntryNumber, GlConfigured, ApplyBalanceChange;
  }

  lemma StepKeepsLinks(db: Books, op: Op)
    requires Valid(db) && LinksOk(db.transactions)
    ensures LinksOk(Step(db, op).transactions)
  {
    var rows, rows' := db.transactions, Step(db, op).transactions;
    StepKeepsRows(db, op);
    hide Step, Valid, LinkOk;
    forall i | 0 <= i < |rows'|
      ensures LinkOk(rows', i)
    {
      if i < |rows| {
        LinksStay(rows, rows', i);
      } else {
        match op
        case Post(_, _, _, _, _, _) => PostedUnlinked(db, op, i);
        case Match(_, _, _) => PostedUnlinked(db, op, i);
        case Transfer(_, _, _, _, _) => TransferLinks(db, op, i);
        case Reverse(_, _) => ReverseLinks(db, op, i);
        case External(_, _, _) =>
      }
    }
  }

  lemma StepKeepsRows(db: Books, op: Op)
    requires Valid(db)
    ensures |db.transactions| <= |Step(db, op).transactions|
    ensures op.External? ==> Step(db, op).transactions == db.transactions
    ensures forall k :: 0 <= k < |db.transactions| ==>
      Step(db, op).transactions[k] == db.transactions[k].(status := Step(db, op).transactions[k].status)
      && (db.transactions[k].status == REVERSED ==> Step(db, op).transactions[k].status == REVERSED)
  {
    var change := StepIsChange(db, op);
  }

  lemma {:induction false} RunKeepsLinks(db: Books, ops: seq<Op>)
    requires Opening(db)
    ensures LinksOk(Run(db, ops).transactions)
  {
    hide Step, LinkOk, Valid;
    if ops != [] {
      RunKeepsLinks(db, ops[..|ops| - 1]);
      RunKeepsValid(db, ops[..|ops| - 1]);
      StepKeepsLinks(Run(db, ops[..|ops| - 1]), ops[|ops| - 1]);
    }
  }

  /**
   After any run, the two rows of every transfer point at each other and move the same amount opposite
   ways; every reversal points at an earlier row of its account, which it undoes and which is marked.
   */
  lemma RowsAreLinked(db: Books, ops: seq<Op>, i: nat)
    requires Opening(db) && i < |Run(db, ops).transactions|
    ensures var rows := Run(db, ops).transactions;
      && (rows[i].kind == TxTransfer <==>
            rows[i].linked.Some? && rows[i].linked.value < |rows| && IsPartner(rows[i], i, rows[rows[i].linked.value]))
      && (rows[i].kind == TxReversal ==>
            rows[i].linked.Some? && rows[i].linked.value < i && IsOriginal(rows[i], rows[rows[i].linked.value]))
      && (rows[i].kind !in {TxTransfer, TxReversal} ==> rows[i].linked == None)
  {
    RunKeepsLinks(db, ops);
    var rows := Run(db, ops).transactions;
    hide Run;
    assert LinkOk(rows, i);
    if rows[i].linked.Some? && rows[i].linked.value < |rows| {
      assert LinkOk(rows, rows[i].linked.value);
    }
  }

  // ---- M-Pesa receipts ----------------------------------------------------------------

  /** A match credits the account by the amount of the receipt and ties the two together. */
  lemma MatchTiesReceipt(db: Books, op: Op)
    requires op.Match? && Attempt(db, op).Success? && !Attempt(db, op).value.receipt.replayed
    ensures op.mpesaId in db.mpesa && op.accountId in db.accounts
    ensures var db' := Step(db, op); var t := |db.transactions|; var paid := db.mpesa[op.mpesaId].amount;
      && |db'.transactions| == t + 1 && db'.transactions[t].amount == Movement(db'.transactions[t]) == paid
      && db'.mpesa == db.mpesa[op.mpesaId := MpesaTransaction(op.tenantId, paid, MPESA_COMPLETED, Some(t))]
      && db'.accounts[op.accountId].balance == db.accounts[op.accountId].balance + paid
  {
    hide FindReference, HasEntryNumber, GlConfigured;
  }

  /** A receipt is credited once: after a successful match every other match of it changes nothing. */
  lemma ReceiptIsCreditedOnce(db: Books, ops: seq<Op>, j: nat, k: nat)
    requires Opening(db) && j < k < |ops| && ops[j].Match? && ops[k].Match?
    requires ops[j].mpesaId == ops[k].mpesaId && ops[j].tenantId == ops[k].tenantId
    requires Attempt(Run(db, ops[..j]), ops[j]).Success?
    ensures Run(db, ops[..k + 1]) == Run(db, ops[..k])
  {
    var reference := "MPESA-RECON-" + ops[j].mpesaId;
    MatchLeavesReference(Run(db, ops[..j]), ops[j]);
    RunOneMore(db, ops, j);
    RunOneMore(db, ops, k);
    RunKeepsReference(db, ops, j + 1, k, ops[j].tenantId, reference);
    MatchedChangesNothing(Run(db, ops[..k]), ops[k]);
  }

  lemma MatchLeavesReference(db: Books, op: Op)
    requires op.Match? && Attempt(db, op).Success?
    ensures HasReference(Step(db, op).transactions, op.tenantId, "MPESA-RECON-" + op.mpesaId)
  {
    hide HasEntryNumber, GlConfigured;
    var rows := Step(db, op).transactions;
    var found := FindReference(db.transactions, op.tenantId, "MPESA-RECON-" + op.mpesaId);
    if found.Some? {
      assert IsReference(rows[found.value], op.tenantId, "MPESA-RECON-" + op.mpesaId);
    } else {
      assert IsReference(rows[|db.transactions|], op.tenantId, "MPESA-RECON-" + op.mpesaId);
    }
  }

  lemma MatchedChangesNothing(db: Books, op: Op)
    requires op.Match? && HasReference(db.transactions, op.tenantId, "MPESA-RECON-" + op.mpesaId)
    ensures Step(db, op) == db
  {
    hide HasEntryNumber, GlConfigured, ApplyBalanceChange;
    var k :| 0 <= k < |db.transactions| && IsReference(db.transactions[k], op.tenantId, "MPESA-RECON-" + op.mpesaId);
  }
}
