/**
 Reversals: who is reversed, and what a reversal, a reversal of a reversal, and so on amount to.
 */
module LedgerReversal {
  import opened Outcomes
  import opened LedgerModel
  import opened LedgerInvariants
  import opened LedgerControl

  /** The entry that reverses entry e, if there is one. */
  ghost function ReversedBy(entries: seq<JournalEntry>, e: nat): (r: Option<nat>)
    ensures r.Some? ==> r.value < |entries| && entries[r.value].reversalOf == Some(e)
    ensures r.None? ==> forall f :: 0 <= f < |entries| ==> entries[f].reversalOf != Some(e)
  {
    if f :| 0 <= f < |entries| && entries[f].reversalOf == Some(e) then Some(f) else None
  }

  lemma ReversedByIsUnique(db: Books, e: nat, f: nat)
    requires Valid(db) && f < |db.entries| && db.entries[f].reversalOf == Some(e)
    ensures ReversedBy(db.entries, e) == Some(f)
  {
    var g := ReversedBy(db.entries, e).value;
    SameOriginalSameReversal(db.entries, f, g);
  }

  /** A reversal comes after what it reverses, so chains of reversals are acyclic. */
  lemma ReversalComesLater(db: Books, e: nat)
    requires Valid(db) && ReversedBy(db.entries, e).Some?
    ensures e < ReversedBy(db.entries, e).value < |db.entries|
    ensures EntryOk(db.transactions, db.entries[e])
    ensures EntryOk(db.transactions, db.entries[ReversedBy(db.entries, e).value])
    ensures Reverses(db.transactions, db.entries[e], db.entries[ReversedBy(db.entries, e).value])
  {
    var f := ReversedBy(db.entries, e).value;
    assert db.entries[f].reversalOf.value < f
          && Reverses(db.transactions, db.entries[db.entries[f].reversalOf.value], db.entries[f]);
  }

  /** Exactly one entry of the ledger reverses entry e. */
  ghost predicate ReversedOnce(entries: seq<JournalEntry>, e: nat) {
    exists f :: 0 <= f < |entries| && entries[f].reversalOf == Some(e)
      && forall g :: 0 <= g < |entries| && entries[g].reversalOf == Some(e) ==> g == f
  }

  /**
   A statement row is REVERSED if and only if it has a journal entry that exactly one other entry
   reverses.
   */
  lemma ReversedIffReversedOnce(db: Books, ops: seq<Op>, i: nat)
    requires Opening(db) && i < |Run(db, ops).transactions|
    ensures var db' := Run(db, ops);
      db'.transactions[i].status == REVERSED
      <==> exists e :: 0 <= e < |db'.entries| && db'.entries[e].transaction == i && ReversedOnce(db'.entries, e)
  {
    RunKeepsValid(db, ops);
    var db' := Run(db, ops);
    if db'.transactions[i].status == REVERSED {
      var f: nat :| ReversesRow(db'.entries, i, f);
      var e := db'.entries[f].reversalOf.value;
      forall g | 0 <= g < |db'.entries| && db'.entries[g].reversalOf == Some(e)
        ensures g == f
      {
        ReversedByIsUnique(db', e, f);
        ReversedByIsUnique(db', e, g);
      }
      assert ReversedOnce(db'.entries, e);
    }
    if e :| 0 <= e < |db'.entries| && db'.entries[e].transaction == i && ReversedOnce(db'.entries, e) {
      var f :| 0 <= f < |db'.entries| && db'.entries[f].reversalOf == Some(e);
      ReversedByIsUnique(db', e, f);
      ReversalComesLater(db', e);
    }
  }

  // ---- Chains -------------------------------------------------------------------------

  /** How many times over entry e has been reversed: its reversal, the reversal of that, and so on. */
  ghost function Reversals(db: Books, e: nat): nat
    requires Valid(db) && e < |db.entries|
    decreases |db.entries| - e
  {
    match ReversedBy(db.entries, e)
    case None => 0
    case Some(f) =>
      ReversalComesLater(db, e);
      1 + Reversals(db, f)
  }

  /** Net credit on one GL code of entry e together with the whole chain of its reversals. */
  ghost function ChainCredit(db: Books, e: nat, code: GlCode): int
    requires Valid(db) && e < |db.entries|
    decreases |db.entries| - e
  {
    ValidIsTyped(db);
    NetOf(db.entries[e].postings[0], code)
    + match ReversedBy(db.entries, e)
      case None => 0
      case Some(f) =>
        ReversalComesLater(db, e);
        ChainCredit(db, f, code)
  }

  /** Movement of the account balance by entry e's row together with the chain of its reversals. */
  ghost function ChainMovement(db: Books, e: nat): int
    requires Valid(db) && e < |db.entries|
    decreases |db.entries| - e
  {
    ValidIsTyped(db);
    Movement(db.transactions[db.entries[e].transaction])
    + match ReversedBy(db.entries, e)
      case None => 0
      case Some(f) =>
        ReversalComesLater(db, e);
        ChainMovement(db, f)
  }

  /**
   A reversal is an exact inverse: an entry reversed an odd number of times over has no effect left
   on any GL code or on the account balance; reversed an even number of times, its effect is
   exactly the original one.
   */
  lemma {:induction false} ReversalParity(db: Books, e: nat, code: GlCode)
    requires Valid(db) && e < |db.entries|
    ensures SinglePostings(db.entries) && Typed(db.accounts, db.transactions, db.entries)
    ensures ChainCredit(db, e, code)
         == if Reversals(db, e) % 2 == 1 then 0 else NetOf(db.entries[e].postings[0], code)
    ensures ChainMovement(db, e)
         == if Reversals(db, e) % 2 == 1 then 0 else Movement(db.transactions[db.entries[e].transaction])
    decreases |db.entries| - e
  {
    hide Valid, Reverses, EntryOk, NetOf, Movement;
    ValidIsTyped(db);
    match ReversedBy(db.entries, e)
    case None =>
    case Some(f) =>
      ReversalComesLater(db, e);
      ReversalOpposes(db, e, f, code);
      ReversalParity(db, f, code);
  }

  lemma ReversalOpposes(db: Books, e: nat, f: nat, code: GlCode)
    requires e < |db.entries| && f < |db.entries|
    requires EntryOk(db.transactions, db.entries[e]) && EntryOk(db.transactions, db.entries[f])
    requires Reverses(db.transactions, db.entries[e], db.entries[f])
    ensures NetOf(db.entries[f].postings[0], code) == -NetOf(db.entries[e].postings[0], code)
    ensures Movement(db.transactions[db.entries[f].transaction])
         == -Movement(db.transactions[db.entries[e].transaction])
  {
  }

  /** All entries of a chain move the same account. */
  lemma ReversalSameAccount(db: Books, e: nat)
    requires Valid(db) && ReversedBy(db.entries, e).Some?
    ensures Typed(db.accounts, db.transactions, db.entries) && e < |db.entries|
    ensures var f := ReversedBy(db.entries, e).value;
      db.transactions[db.entries[f].transaction].accountId == db.transactions[db.entries[e].transaction].accountId
  {
    ValidIsTyped(db);
    ReversalComesLater(db, e);
  }

  // ---- One reversal -------------------------------------------------------------------

  /**
   Reversing the last posting puts every balance and the net credit on every GL code back to what
   they were before it.
   */
  lemma ReverseUndoesPost(db: Books, post: Op, reverse: Op, id: string, tenantId: string, code: GlCode)
    requires Valid(db) && post.Post? && Step(db, post) != db
    requires reverse == Reverse(post.tenantId, |db.transactions|)
    requires Attempt(Step(db, post), reverse).Success?
    ensures var db' := Step(Step(db, post), reverse);
      && Valid(db')
      && (id in db'.accounts <==> id in db.accounts)
      && (id in db.accounts ==> db'.accounts[id].balance == db.accounts[id].balance)
      && SinglePostings(db.entries) && SinglePostings(db'.entries)
      && NetCredit(db'.entries, tenantId, code) == NetCredit(db.entries, tenantId, code)
  {
    hide *;
    var middle := Step(db, post);
    StepKeepsValid(db, post);
    StepKeepsValid(middle, reverse);
    var first := PostChange(db, post);
    NothingIsSame(db, middle, first);
    var second := ReverseChange(middle, reverse);
    ReverseSucceeds(middle, reverse, second);
    BalancesUndone(db, middle, Step(middle, reverse), first, second);
    CreditUndone(db, middle, Step(middle, reverse), first, second, tenantId, code);
  }

  lemma ReverseSucceeds(db: Books, op: Op, change: Change)
    requires Valid(db) && op.Reverse? && Attempt(db, op).Success? && IsChange(db, Step(db, op), change)
    ensures change != Nothing
  {
  }

  lemma BalancesUndone(db: Books, middle: Books, db': Books, first: Change, second: Change)
    requires IsChange(db, middle, first) && first.OneRow? && first.original == None
    requires IsChange(middle, db', second) && second.OneRow? && second.original == Some(|db.transactions|)
    ensures forall id :: id in db'.accounts <==> id in db.accounts
    ensures forall id :: id in db.accounts ==> db'.accounts[id].balance == db.accounts[id].balance
  {
    assert middle.transactions[|db.transactions|] == first.row;
    assert second.row.accountId == first.row.accountId;
    assert Movement(second.row) == -Movement(first.row);
  }

  lemma CreditUndone(db: Books, middle: Books, db': Books, first: Change, second: Change,
                     tenantId: string, code: GlCode)
    requires Valid(db) && Valid(middle) && Valid(db')
    requires IsChange(db, middle, first) && first.OneRow? && first.original == None
    requires IsChange(middle, db', second) && second.OneRow? && second.original == Some(|db.transactions|)
    ensures SinglePostings(db.entries) && SinglePostings(db'.entries)
    ensures NetCredit(db'.entries, tenantId, code) == NetCredit(db.entries, tenantId, code)
  {
    ValidIsTyped(db);
    ValidIsTyped(middle);
    ValidIsTyped(db');
    OneRowFacts(db, middle, first.row, first.entry, None);
    OneRowFacts(middle, db', second.row, second.entry, second.original);
    ReversedEntryFacts(db, middle, db', first, second);
    hide Valid, IsOneRow;
    AppendedEntry(db.entries, first.entry, tenantId, code);
    AppendedEntry(middle.entries, second.entry, tenantId, code);
  }

  lemma ReversedEntryFacts(db: Books, middle: Books, db': Books, first: Change, second: Change)
    requires Valid(db) && Valid(middle)
    requires IsChange(db, middle, first) && first.OneRow? && first.original == None
    requires IsChange(middle, db', second) && second.OneRow? && second.original == Some(|db.transactions|)
    ensures second.entry.tenantId == first.entry.tenantId && |first.entry.postings| == 1
    ensures second.entry.postings == [Swapped(first.entry.postings[0])]
  {
    assert middle.entries[|db.entries|] == first.entry;
    SameRowSameEntry(middle.entries, second.entry.reversalOf.value, |db.entries|);
  }
}
