/**
 What every ledger call keeps. A call that changes the books either appends one statement row with
 one journal entry (a posting, a reversal or an M-Pesa match), or the two rows and the one entry of
 a transfer, or leaves money alone; `StepIsChange` classifies the calls, and everything after that
 is argued once per kind of change.
 */
module LedgerInvariants {
  import opened Decimals
  import opened Outcomes
  import opened LedgerModel

  // ---- The invariant ------------------------------------------------------------------

  function Movement(row: Transaction): int {
    row.balanceAfter - row.balanceBefore
  }

  ghost predicate RowOk(accounts: map<string, Account>, row: Transaction) {
    && row.accountId in accounts && accounts[row.accountId].tenantId == row.tenantId
    && row.amount > 0 && (Movement(row) == row.amount || Movement(row) == -row.amount)
  }

  ghost predicate RowsOk(accounts: map<string, Account>, rows: seq<Transaction>) {
    forall i :: 0 <= i < |rows| ==> RowOk(accounts, rows[i])
  }

  /** The index on (tenantId, reference) is unique. */
  ghost predicate UniqueReferences(rows: seq<Transaction>) {
    forall i, j :: 0 <= i < j < |rows| ==> !IsReference(rows[j], rows[i].tenantId, rows[i].reference)
  }

  ghost predicate EntryOk(rows: seq<Transaction>, entry: JournalEntry) {
    && entry.transaction < |rows| && entry.tenantId == rows[entry.transaction].tenantId
    && |entry.postings| == 1 && entry.postings[0].amount == rows[entry.transaction].amount
  }

  ghost predicate EntriesOk(rows: seq<Transaction>, entries: seq<JournalEntry>) {
    forall e :: 0 <= e < |entries| ==> EntryOk(rows, entries[e])
  }

  /** No two entries reference the same row. */
  ghost predicate OneEntryPerRow(entries: seq<JournalEntry>) {
    forall e, f :: 0 <= e < f < |entries| ==> entries[e].transaction != entries[f].transaction
  }

  lemma SameReferenceSameRow(rows: seq<Transaction>, tenantId: string, reference: string, i: nat, j: nat)
    requires UniqueReferences(rows) && i < |rows| && j < |rows|
    requires IsReference(rows[i], tenantId, reference) && IsReference(rows[j], tenantId, reference)
    ensures i == j
  {
  }

  lemma SameRowSameEntry(entries: seq<JournalEntry>, e: nat, f: nat)
    requires OneEntryPerRow(entries) && e < |entries| && f < |entries|
    requires entries[e].transaction == entries[f].transaction
    ensures e == f
  {
  }

  function Swapped(p: Posting): Posting {
    Posting(p.credit, p.debit, p.amount)
  }

  /** Entry f reverses entry e: debits and credits swapped, the same account moved back. */
  ghost predicate Reverses(rows: seq<Transaction>, e: JournalEntry, f: JournalEntry)
    requires EntryOk(rows, e) && EntryOk(rows, f)
  {
    var original, reversal := rows[e.transaction], rows[f.transaction];
    && e.tenantId == f.tenantId && f.postings[0] == Swapped(e.postings[0])
    && original.status == REVERSED && reversal.kind == TxReversal
    && original.accountId == reversal.accountId && Movement(reversal) == -Movement(original)
  }

  ghost predicate ReversalsOk(rows: seq<Transaction>, entries: seq<JournalEntry>)
    requires EntriesOk(rows, entries)
  {
    forall f :: 0 <= f < |entries| && entries[f].reversalOf.Some? ==>
      entries[f].reversalOf.value < f && Reverses(rows, entries[entries[f].reversalOf.value], entries[f])
  }

  /** No entry is reversed twice. */
  ghost predicate ReversalsLinear(entries: seq<JournalEntry>) {
    forall f, g :: 0 <= f < g < |entries| && entries[f].reversalOf.Some? ==>
      entries[f].reversalOf != entries[g].reversalOf
  }

  lemma SameOriginalSameReversal(entries: seq<JournalEntry>, f: nat, g: nat)
    requires ReversalsLinear(entries) && f < |entries| && g < |entries|
    requires entries[f].reversalOf.Some? && entries[f].reversalOf == entries[g].reversalOf
    ensures f == g
  {
  }

  /** Entry f reverses the entry of row i. */
  ghost predicate ReversesRow(entries: seq<JournalEntry>, i: nat, f: nat) {
    && f < |entries| && entries[f].reversalOf.Some? && entries[f].reversalOf.value < |entries|
    && entries[entries[f].reversalOf.value].transaction == i
  }

  ghost predicate StatusesOk(rows: seq<Transaction>, entries: seq<JournalEntry>) {
    forall i :: 0 <= i < |rows| && rows[i].status == REVERSED ==> exists f :: ReversesRow(entries, i, f)
  }

  ghost predicate HasEntry(entries: seq<JournalEntry>, i: nat) {
    exists e :: 0 <= e < |entries| && entries[e].transaction == i
  }

  /** Row i is the source leg of a transfer: it carries the entry, and the other leg exists. */
  ghost predicate SourceLeg(rows: seq<Transaction>, entries: seq<JournalEntry>, i: nat)
    requires i < |rows|
  {
    && HasEntry(entries, i)
    && exists reference :: rows[i].reference == reference + "-SRC"
         && HasReference(rows, rows[i].tenantId, reference + "-DST")
  }

  ghost predicate DestinationLeg(rows: seq<Transaction>, entries: seq<JournalEntry>, i: nat)
    requires i < |rows|
  {
    !HasEntry(entries, i) && exists reference :: rows[i].reference == reference + "-DST"
  }

  /** Every row has an entry, except the destination legs of transfers. */
  ghost predicate LegsOk(rows: seq<Transaction>, entries: seq<JournalEntry>) {
    forall i :: 0 <= i < |rows| ==>
      if rows[i].kind == TxTransfer then SourceLeg(rows, entries, i) || DestinationLeg(rows, entries, i)
      else HasEntry(entries, i)
  }

  ghost predicate MpesaOk(db: Books) {
    forall id :: id in db.mpesa ==> db.mpesa[id].amount > 0
  }

  ghost predicate Valid(db: Books) {
    && MpesaOk(db)
    && RowsOk(db.accounts, db.transactions)
    && UniqueReferences(db.transactions)
    && EntriesOk(db.transactions, db.entries)
    && OneEntryPerRow(db.entries)
    && ReversalsOk(db.transactions, db.entries)
    && ReversalsLinear(db.entries)
    && StatusesOk(db.transactions, db.entries)
    && LegsOk(db.transactions, db.entries)
  }

  // ---- Kinds of change ----------------------------------------------------------------

  datatype Change =
    | Nothing
    | OneRow(row: Transaction, entry: JournalEntry, original: Option<nat>)
    | TwoRows(source: Transaction, destination: Transaction, entry: JournalEntry)
    | NoMoney

  function Marked(rows: seq<Transaction>, original: Option<nat>): seq<Transaction>
    requires original.Some? ==> original.value < |rows|
  {
    if original.None? then rows else rows[original.value := rows[original.value].(status := REVERSED)]
  }

  /** `accounts` after a row has moved its account. */
  ghost predicate Moves(accounts: map<string, Account>, row: Transaction, accounts': map<string, Account>) {
    && RowOk(accounts, row)
    && row.balanceBefore == accounts[row.accountId].balance
    && accounts' == accounts[row.accountId := accounts[row.accountId].(
                      balance := row.balanceAfter, version := accounts[row.accountId].version + 1)]
  }

  ghost predicate ReversalOf(db: Books, row: Transaction, entry: JournalEntry, original: nat)
    requires original < |db.transactions|
  {
    var was := db.transactions[original];
    && was.status == COMPLETED && was.tenantId == row.tenantId && was.accountId == row.accountId
    && row.kind == TxReversal && row.amount == was.amount && Movement(row) == -Movement(was)
    && row.reference == was.reference + "-REVERSAL"
    && entry.reversalOf.Some? && entry.reversalOf.value < |db.entries|
    && var e := db.entries[entry.reversalOf.value];
      && IsEntryOf(e, row.tenantId, original) && |e.postings| == 1 && entry.postings == [Swapped(e.postings[0])]
      && !HasReversal(db.entries, row.tenantId, entry.reversalOf.value)
  }

  ghost predicate IsOneRow(db: Books, db': Books, row: Transaction, entry: JournalEntry, original: Option<nat>) {
    && Moves(db.accounts, row, db'.accounts)
    && (original.Some? ==> original.value < |db.transactions| && ReversalOf(db, row, entry, original.value))
    && (original.None? ==> entry.reversalOf == None && row.kind != TxTransfer && row.kind != TxReversal)
    && db'.transactions == Marked(db.transactions, original) + [row]
    && db'.entries == db.entries + [entry]
    && row.status == COMPLETED && !HasReference(db.transactions, row.tenantId, row.reference)
    && entry.tenantId == row.tenantId && entry.transaction == |db.transactions|
    && |entry.postings| == 1 && entry.postings[0].amount == row.amount
  }

  ghost predicate IsTwoRows(db: Books, db': Books, source: Transaction, destination: Transaction, entry: JournalEntry) {
    && source.accountId in db.accounts && source.accountId != destination.accountId
    && source.tenantId == destination.tenantId && source.amount == destination.amount
    && Movement(source) == -source.amount && Movement(destination) == destination.amount
    && (exists between :: Moves(db.accounts, source, between) && Moves(between, destination, db'.accounts))
    && db'.transactions == db.transactions + [source, destination]
    && db'.entries == db.entries + [entry]
    && source.status == COMPLETED && destination.status == COMPLETED
    && source.kind == TxTransfer && destination.kind == TxTransfer
    && !HasReference(db.transactions, source.tenantId, source.reference)
    && !HasReference(db.transactions, source.tenantId, destination.reference)
    && (exists reference ::
          source.reference == reference + "-SRC" && destination.reference == reference + "-DST")
    && destination.accountId in db.accounts
    && entry == JournalEntry(source.tenantId, entry.entryNumber, TRANSFER, |db.transactions|,
                             [Posting(MemberDepositsCode(db.accounts[source.accountId].accountType),
                                      MemberDepositsCode(db.accounts[destination.accountId].accountType),
                                      source.amount)], None)
  }

  ghost predicate IsNoMoney(db: Books, db': Books) {
    && (forall id :: id in db.accounts ==> id in db'.accounts && SameMoney(db.accounts[id], db'.accounts[id]))
    && (forall id :: id in db'.accounts && id !in db.accounts ==> db'.accounts[id].balance == 0)
    && db'.transactions == db.transactions && db'.entries == db.entries
  }

  ghost predicate IsChange(db: Books, db': Books, change: Change) {
    match change
    case Nothing => db' == db
    case OneRow(row, entry, original) => IsOneRow(db, db', row, entry, original)
    case TwoRows(source, destination, entry) => IsTwoRows(db, db', source, destination, entry)
    case NoMoney => IsNoMoney(db, db')
  }

  lemma PostChange(db: Books, op: Op) returns (change: Change)
    requires op.Post? && Valid(db)
    ensures IsChange(db, Step(db, op), change) && MpesaOk(Step(db, op))
    ensures change.Nothing? || (change.OneRow? && change.original == None)
  {
    hide RowsOk, UniqueReferences, EntriesOk, OneEntryPerRow, ReversalsOk, ReversalsLinear, StatusesOk, LegsOk;
    hide FindReference, FindEntry, HasEntryNumber, GlConfigured, ToUnits;
    change := Nothing;
    var result := PostEntry(db, op.tenantId, op.reference, op.journalType, op.accountId, op.kes, op.direction);
    if result.Success? && !result.value.receipt.replayed {
      var db' := result.value.books;
      change := OneRow(db'.transactions[|db.transactions|], db'.entries[|db.entries|], None);
    }
  }

  lemma TransferChange(db: Books, op: Op) returns (change: Change)
    requires op.Transfer? && Valid(db)
    ensures IsChange(db, Step(db, op), change) && MpesaOk(Step(db, op))
    ensures change.Nothing? || change.TwoRows?
  {
    hide RowsOk, UniqueReferences, EntriesOk, OneEntryPerRow, ReversalsOk, ReversalsLinear, StatusesOk, LegsOk;
    hide FindReference, FindEntry, HasEntryNumber, GlConfigured, ToUnits;
    change := Nothing;
    var result := PostInternalTransfer(db, op.tenantId, op.source, op.destination, op.kes, op.reference);
    if result.Success? && !result.value.receipt.replayed {
      var db' := result.value.books;
      var s, d := db'.transactions[|db.transactions|], db'.transactions[|db.transactions| + 1];
      change := TwoRows(s, d, db'.entries[|db.entries|]);
      var from := ApplyBalanceChange(db.accounts, op.tenantId, op.source, ToUnits(op.kes), DEBIT);
      assert Moves(db.accounts, s, from.value.accounts);
      assert Moves(from.value.accounts, d, db'.accounts);
    }
  }

  lemma ReverseChange(db: Books, op: Op) returns (change: Change)
    requires op.Reverse? && Valid(db)
    ensures IsChange(db, Step(db, op), change) && MpesaOk(Step(db, op))
    ensures change.Nothing? || (change.OneRow? && change.original == Some(op.original))
  {
    change := Nothing;
    var result := ReverseTransaction(db, op.tenantId, op.original);
    if result.Success? {
      var db' := result.value.books;
      assert RowOk(db.accounts, db.transactions[op.original]);
      var e := FindEntry(db.entries, op.tenantId, op.original).value;
      assert EntryOk(db.transactions, db.entries[e]);
      change := OneRow(db'.transactions[|db.transactions|], db'.entries[|db.entries|], Some(op.original));
    }
  }

  lemma MatchChange(db: Books, op: Op) returns (change: Change)
    requires op.Match? && Valid(db)
    ensures IsChange(db, Step(db, op), change) && MpesaOk(Step(db, op))
    ensures change.Nothing? || (change.OneRow? && change.original == None)
  {
    hide RowsOk, UniqueReferences, EntriesOk, OneEntryPerRow, ReversalsOk, ReversalsLinear, StatusesOk, LegsOk;
    hide FindReference, FindEntry, HasEntryNumber, GlConfigured;
    change := Nothing;
    var result := MatchMpesa(db, op.mpesaId, op.tenantId, op.accountId);
    if result.Success? && !result.value.receipt.replayed {
      var db' := result.value.books;
      change := OneRow(db'.transactions[|db.transactions|], db'.entries[|db.entries|], None);
    }
  }

  lemma StepIsChange(db: Books, op: Op) returns (change: Change)
    requires Valid(db)
    ensures IsChange(db, Step(db, op), change) && MpesaOk(Step(db, op))
  {
    match op
    case Post(_, _, _, _, _, _) => change := PostChange(db, op);
    case Transfer(_, _, _, _, _) => change := TransferChange(db, op);
    case Reverse(_, _) => change := ReverseChange(db, op);
    case Match(_, _, _) => change := MatchChange(db, op);
    case External(_, _, _) => change := if MovesNoMoney(db, op) then NoMoney else Nothing;
  }

  // ---- The invariant is kept ----------------------------------------------------------

  lemma SuffixesDiffer(a: string, b: string)
    ensures a + "-SRC" != b + "-DST"
  {
    var x, y := a + "-SRC", b + "-DST";
    assert x[|x| - 1] == 'C' && y[|y| - 1] == 'T';
  }

  /** Rows keep their meaning when one of them is marked REVERSED and others are appended. */
  lemma OneRowKeepsRows(db: Books, db': Books, row: Transaction, entry: JournalEntry, original: Option<nat>)
    requires Valid(db) && IsOneRow(db, db', row, entry, original)
    ensures RowsOk(db'.accounts, db'.transactions) && UniqueReferences(db'.transactions)
    ensures EntriesOk(db'.transactions, db'.entries) && OneEntryPerRow(db'.entries)
  {
    var rows, rows' := db.transactions, db'.transactions;
    forall i | 0 <= i < |rows'|
      ensures RowOk(db'.accounts, rows'[i])
    {
      if i < |rows| {
        assert RowOk(db.accounts, rows[i]);
      }
    }
    forall i, j | 0 <= i < j < |rows'|
      ensures !IsReference(rows'[j], rows'[i].tenantId, rows'[i].reference)
    {
      if j == |rows| {
        assert !IsReference(rows[i], row.tenantId, row.reference);
      } else {
        assert !IsReference(rows[j], rows[i].tenantId, rows[i].reference);
      }
    }
    forall e | 0 <= e < |db'.entries|
      ensures EntryOk(rows', db'.entries[e])
    {
      if e < |db.entries| {
        assert EntryOk(rows, db.entries[e]);
      }
    }
    forall e | 0 <= e < |db.entries|
      ensures db.entries[e].transaction != entry.transaction
    {
      assert EntryOk(rows, db.entries[e]);
    }
  }

  lemma OneRowKeepsReversals(db: Books, db': Books, row: Transaction, entry: JournalEntry, original: Option<nat>)
    requires Valid(db) && IsOneRow(db, db', row, entry, original)
    requires EntriesOk(db'.transactions, db'.entries)
    ensures ReversalsOk(db'.transactions, db'.entries) && ReversalsLinear(db'.entries)
  {
    hide RowsOk, UniqueReferences, OneEntryPerRow, StatusesOk, LegsOk, MpesaOk, HasReference;
    var entries, entries', n := db.entries, db'.entries, |db.entries|;
    forall f | 0 <= f < |entries'| && entries'[f].reversalOf.Some?
      ensures entries'[f].reversalOf.value < f
        && Reverses(db'.transactions, entries'[entries'[f].reversalOf.value], entries'[f])
    {
      if f < n {
        assert entries[f].reversalOf.value < f
            && Reverses(db.transactions, entries[entries[f].reversalOf.value], entries[f]);
      }
    }
    forall f | 0 <= f < n && entries[f].reversalOf.Some? && original.Some?
      ensures entries[f].reversalOf != entry.reversalOf
    {
      assert Reverses(db.transactions, entries[entries[f].reversalOf.value], entries[f]);
      assert !(entries[f].tenantId == row.tenantId && entries[f].reversalOf == Some(entry.reversalOf.value));
    }
  }

  lemma OneRowKeepsStatuses(db: Books, db': Books, row: Transaction, entry: JournalEntry, original: Option<nat>)
    requires Valid(db) && IsOneRow(db, db', row, entry, original)
    ensures StatusesOk(db'.transactions, db'.entries)
  {
    forall i | 0 <= i < |db'.transactions| && db'.transactions[i].status == REVERSED
      ensures exists f :: ReversesRow(db'.entries, i, f)
    {
      if original == Some(i) {
        assert ReversesRow(db'.entries, i, |db.entries|);
      } else {
        var f :| ReversesRow(db.entries, i, f);
        assert ReversesRow(db'.entries, i, f);
      }
    }
  }

  lemma ReferencesStay(rows: seq<Transaction>, rows': seq<Transaction>, tenantId: string, reference: string)
    requires |rows| <= |rows'|
    requires forall i :: 0 <= i < |rows| ==>
      rows[i].tenantId == rows'[i].tenantId && rows[i].reference == rows'[i].reference
    requires HasReference(rows, tenantId, reference)
    ensures HasReference(rows', tenantId, reference)
  {
    var k :| 0 <= k < |rows| && IsReference(rows[k], tenantId, reference);
    assert IsReference(rows'[k], tenantId, reference);
  }

  /** A row keeps its leg when rows and entries are appended, the entries all for new rows. */
  lemma LegStays(rows: seq<Transaction>, entries: seq<JournalEntry>, rows': seq<Transaction>,
                 entries': seq<JournalEntry>, i: nat)
    requires LegsOk(rows, entries) && i < |rows| <= |rows'| && entries <= entries'
    requires forall k :: 0 <= k < |rows| ==>
      rows[k].tenantId == rows'[k].tenantId && rows[k].reference == rows'[k].reference && rows[k].kind == rows'[k].kind
    requires forall e :: |entries| <= e < |entries'| ==> entries'[e].transaction >= |rows|
    ensures if rows'[i].kind == TxTransfer then SourceLeg(rows', entries', i) || DestinationLeg(rows', entries', i)
            else HasEntry(entries', i)
  {
    if HasEntry(entries, i) {
      var e :| 0 <= e < |entries| && entries[e].transaction == i;
      assert entries'[e].transaction == i;
    } else {
      forall e | 0 <= e < |entries'|
        ensures entries'[e].transaction != i
      {
        if e < |entries| {
          assert entries'[e] == entries[e];
        }
      }
    }
    if rows[i].kind == TxTransfer && SourceLeg(rows, entries, i) {
      var reference :| rows[i].reference == reference + "-SRC"
        && HasReference(rows, rows[i].tenantId, reference + "-DST");
      ReferencesStay(rows, rows', rows[i].tenantId, reference + "-DST");
    }
  }

  lemma OneRowKeepsLegs(db: Books, db': Books, row: Transaction, entry: JournalEntry, original: Option<nat>)
    requires Valid(db) && IsOneRow(db, db', row, entry, original)
    ensures LegsOk(db'.transactions, db'.entries)
  {
    forall i | 0 <= i < |db'.transactions|
      ensures if db'.transactions[i].kind == TxTransfer
              then SourceLeg(db'.transactions, db'.entries, i) || DestinationLeg(db'.transactions, db'.entries, i)
              else HasEntry(db'.entries, i)
    {
      if i < |db.transactions| {
        LegStays(db.transactions, db.entries, db'.transactions, db'.entries, i);
      } else {
        assert db'.entries[|db.entries|].transaction == i;
      }
    }
  }

  lemma TwoRowsKeepsRows(db: Books, db': Books, source: Transaction, destination: Transaction, entry: JournalEntry)
    requires Valid(db) && IsTwoRows(db, db', source, destination, entry)
    ensures RowsOk(db'.accounts, db'.transactions) && UniqueReferences(db'.transactions)
    ensures EntriesOk(db'.transactions, db'.entries) && OneEntryPerRow(db'.entries)
  {
    var rows, rows' := db.transactions, db'.transactions;
    var between :| Moves(db.accounts, source, between) && Moves(between, destination, db'.accounts);
    forall i | 0 <= i < |rows'|
      ensures RowOk(db'.accounts, rows'[i])
    {
      if i < |rows| {
        assert RowOk(db.accounts, rows[i]);
      }
    }
    var reference :| source.reference == reference + "-SRC" && destination.reference == reference + "-DST";
    SuffixesDiffer(reference, reference);
    forall i, j | 0 <= i < j < |rows'|
      ensures !IsReference(rows'[j], rows'[i].tenantId, rows'[i].reference)
    {
      if j < |rows| {
        assert !IsReference(rows[j], rows[i].tenantId, rows[i].reference);
      } else if i < |rows| {
        assert !IsReference(rows[i], rows'[j].tenantId, rows'[j].reference);
      }
    }
    forall e | 0 <= e < |db.entries|
      ensures EntryOk(rows', db'.entries[e]) && db.entries[e].transaction != entry.transaction
    {
      assert EntryOk(rows, db.entries[e]);
    }
  }

  lemma TwoRowsKeepsReversals(db: Books, db': Books, source: Transaction, destination: Transaction, entry: JournalEntry)
    requires Valid(db) && IsTwoRows(db, db', source, destination, entry)
    requires EntriesOk(db'.transactions, db'.entries)
    ensures ReversalsOk(db'.transactions, db'.entries) && ReversalsLinear(db'.entries)
    ensures StatusesOk(db'.transactions, db'.entries)
  {
    var entries, entries' := db.entries, db'.entries;
    forall f | 0 <= f < |entries'| && entries'[f].reversalOf.Some?
      ensures entries'[f].reversalOf.value < f
        && Reverses(db'.transactions, entries'[entries'[f].reversalOf.value], entries'[f])
    {
      assert entries'[f] == entries[f];
      assert Reverses(db.transactions, entries[entries[f].reversalOf.value], entries[f]);
    }
    forall i | 0 <= i < |db'.transactions| && db'.transactions[i].status == REVERSED
      ensures exists f :: ReversesRow(entries', i, f)
    {
      var f :| ReversesRow(entries, i, f);
      assert ReversesRow(entries', i, f);
    }
  }

  lemma TwoRowsKeepsLegs(db: Books, db': Books, source: Transaction, destination: Transaction, entry: JournalEntry)
    requires Valid(db) && IsTwoRows(db, db', source, destination, entry)
    ensures LegsOk(db'.transactions, db'.entries)
  {
    var rows', entries', n := db'.transactions, db'.entries, |db.transactions|;
    var reference :| source.reference == reference + "-SRC" && destination.reference == reference + "-DST";
    forall i | 0 <= i < |rows'|
      ensures if rows'[i].kind == TxTransfer then SourceLeg(rows', entries', i) || DestinationLeg(rows', entries', i)
              else HasEntry(entries', i)
    {
      if i < n {
        LegStays(db.transactions, db.entries, rows', entries', i);
      } else if i == n {
        assert entries'[|db.entries|].transaction == n;
        assert IsReference(rows'[n + 1], source.tenantId, reference + "-DST");
        assert SourceLeg(rows', entries', n);
      } else {
        forall e | 0 <= e < |entries'|
          ensures entries'[e].transaction != n + 1
        {
          if e < |db.entries| {
            assert EntryOk(db.transactions, db.entries[e]);
          }
        }
        assert DestinationLeg(rows', entries', n + 1);
      }
    }
  }

  lemma NoMoneyKeepsValid(db: Books, db': Books)
    requires Valid(db) && IsNoMoney(db, db') && MpesaOk(db')
    ensures Valid(db')
  {
    forall i | 0 <= i < |db.transactions|
      ensures RowOk(db'.accounts, db.transactions[i])
    {
      assert RowOk(db.accounts, db.transactions[i]);
    }
  }

  /** Every ledger call, in whatever order and with whatever arguments, keeps the books valid. */
  lemma StepKeepsValid(db: Books, op: Op)
    requires Valid(db)
    ensures Valid(Step(db, op))
  {
    hide *;
    var db' := Step(db, op);
    var change := StepIsChange(db, op);
    ChangeKeepsValid(db, db', change);
  }

  lemma ChangeKeepsValid(db: Books, db': Books, change: Change)
    requires Valid(db) && IsChange(db, db', change) && MpesaOk(db')
    ensures Valid(db')
  {
    match change
    case Nothing =>
    case OneRow(row, entry, original) =>
      OneRowKeepsRows(db, db', row, entry, original);
      OneRowKeepsReversals(db, db', row, entry, original);
      OneRowKeepsStatuses(db, db', row, entry, original);
      OneRowKeepsLegs(db, db', row, entry, original);
    case TwoRows(source, destination, entry) =>
      TwoRowsKeepsRows(db, db', source, destination, entry);
      TwoRowsKeepsReversals(db, db', source, destination, entry);
      TwoRowsKeepsLegs(db, db', source, destination, entry);
    case NoMoney => NoMoneyKeepsValid(db, db');
  }

  lemma {:induction false} RunKeepsValid(db: Books, ops: seq<Op>)
    requires Opening(db)
    ensures Valid(Run(db, ops))
  {
    if ops != [] {
      RunKeepsValid(db, ops[..|ops| - 1]);
      StepKeepsValid(Run(db, ops[..|ops| - 1]), ops[|ops| - 1]);
    }
  }
}
