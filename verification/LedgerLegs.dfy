/**
 Entries that move no account (`postGlOnlyLegEntry` in src/modules/accounting/ledger.service.ts): the
 legs of a loan repayment, interest, penalties and forfeitures. Their caller moves the member's
 balance itself, once for all legs; this module says exactly when the books stay in step.
 */
module LedgerLegs {
  import opened Decimals
  import opened Outcomes
  import opened LedgerModel
  import opened LedgerControl

  datatype Leg = PENALTY | INTEREST | PRINCIPAL

  /** One leg of a repayment: its own reference, its amount in KES and the code it debits. */
  datatype LegRequest = LegRequest(reference: string, leg: Leg, kes: real, debit: GlCode, journalType: JournalType)

  datatype LegCommit = LegCommit(books: Books, replayed: bool)

  function CreditCode(leg: Leg): GlCode {
    match leg
    case PENALTY => PENALTY_INCOME
    case INTEREST => INTEREST_INCOME
    case PRINCIPAL => LOAN_RECEIVABLE
  }

  function PostLeg(db: Books, tenantId: string, r: LegRequest, transaction: nat): Result<LegCommit, Error> {
    var amount := ToUnits(r.kes);
    :- Need(amount > 0, AmountNotPositive);
    if HasEntryNumber(db.entries, tenantId, LedgerNumber(r.reference)) then Success(LegCommit(db, true))
    else
      :- Need(GlConfigured(db.chart, tenantId, r.debit, CreditCode(r.leg)), GlNotConfigured);
      var entry := JournalEntry(tenantId, LedgerNumber(r.reference), r.journalType, transaction,
                                [Posting(r.debit, CreditCode(r.leg), amount)], None);
      Success(LegCommit(db.(entries := db.entries + [entry]), false))
  }

  class LegService {
    var entries: seq<JournalEntry>
    const chart: map<string, set<GlCode>>

    constructor (entries: seq<JournalEntry>, chart: map<string, set<GlCode>>)
      ensures this.entries == entries && this.chart == chart
    {
      this.entries, this.chart := entries, chart;
    }

    /** The new entry, or the existing one when the number is taken, whatever it was posted for. */
    method PostGlOnlyLegEntry(ghost db: Books, tenantId: string, r: LegRequest, transaction: nat)
      returns (result: Result<bool, Error>)
      requires db.entries == entries && db.chart == chart
      modifies this`entries
      ensures match PostLeg(db, tenantId, r, transaction)
        case Success(commit) => result == Success(commit.replayed) && commit.books == db.(entries := entries)
        case Failure(error) => result == Failure(error) && entries == db.entries
    {
      var amount := ToUnits(r.kes);
      if amount <= 0 {
        return Failure(AmountNotPositive);
      }
      var entryNumber := LedgerNumber(r.reference);
      if HasEntryNumber(entries, tenantId, entryNumber) {
        assert db == db.(entries := entries);
        return Success(true);
      }
      var creditCode := if r.leg == PENALTY then PENALTY_INCOME
                        else if r.leg == INTEREST then INTEREST_INCOME else LOAN_RECEIVABLE;
      if !GlConfigured(chart, tenantId, r.debit, creditCode) {
        return Failure(GlNotConfigured);
      }
      entries := entries + [
        JournalEntry(tenantId, entryNumber, r.journalType, transaction, [Posting(r.debit, creditCode, amount)], None)];
      return Success(false);
    }
  }

  // ---- A repayment --------------------------------------------------------------------

  /** The legs of one repayment, and the amounts of those that were not posted before. */
  datatype Repayment = Repayment(books: Books, posted: int)

  function PostLegs(db: Books, tenantId: string, legs: seq<LegRequest>, transaction: nat): Result<Repayment, Error> {
    if legs == [] then Success(Repayment(db, 0))
    else
      var before :- PostLegs(db, tenantId, legs[..|legs| - 1], transaction);
      var last := legs[|legs| - 1];
      var commit :- PostLeg(before.books, tenantId, last, transaction);
      Success(Repayment(commit.books, before.posted + (if commit.replayed then 0 else ToUnits(last.kes))))
  }

  predicate IsDeposits(code: GlCode) {
    code == FOSA_DEPOSITS || code == BOSA_DEPOSITS
  }

  lemma PostLegNet(db: Books, tenantId: string, r: LegRequest, transaction: nat, t: string, code: GlCode)
    requires SinglePostings(db.entries) && IsDeposits(code)
    requires PostLeg(db, tenantId, r, transaction).Success?
    ensures var commit := PostLeg(db, tenantId, r, transaction).value;
      && commit.books == db.(entries := commit.books.entries) && SinglePostings(commit.books.entries)
      && NetCredit(commit.books.entries, t, code) == NetCredit(db.entries, t, code)
           - (if !commit.replayed && t == tenantId && r.debit == code then ToUnits(r.kes) else 0)
  {
    hide ToUnits, HasEntryNumber;
    var after := PostLeg(db, tenantId, r, transaction).value.books;
    assert after.entries != db.entries ==> after.entries[..|db.entries|] == db.entries;
  }

  /** Legs take from a deposit code exactly what they post, and touch no account and no row. */
  lemma {:induction false} PostLegsNet(db: Books, tenantId: string, legs: seq<LegRequest>, transaction: nat,
                                       own: GlCode, t: string, code: GlCode)
    requires SinglePostings(db.entries) && IsDeposits(code) && PostLegs(db, tenantId, legs, transaction).Success?
    requires forall k :: 0 <= k < |legs| ==> legs[k].debit == own
    ensures var r := PostLegs(db, tenantId, legs, transaction).value;
      && r.books == db.(entries := r.books.entries) && SinglePostings(r.books.entries)
      && NetCredit(r.books.entries, t, code)
           == NetCredit(db.entries, t, code) - (if t == tenantId && own == code then r.posted else 0)
  {
    hide PostLeg;
    if legs != [] {
      var init, last := legs[..|legs| - 1], legs[|legs| - 1];
      PostLegsNet(db, tenantId, init, transaction, own, t, code);
      PostLegNet(PostLegs(db, tenantId, init, transaction).value.books, tenantId, last, transaction, t, code);
    }
  }

  /** The amounts of the legs of one kind that were not posted before. */
  function PostedFor(db: Books, tenantId: string, legs: seq<LegRequest>, transaction: nat, leg: Leg): int
    requires PostLegs(db, tenantId, legs, transaction).Success?
  {
    if legs == [] then 0
    else
      var init, last := legs[..|legs| - 1], legs[|legs| - 1];
      var before := PostLegs(db, tenantId, init, transaction).value.books;
      var isNew := !PostLeg(before, tenantId, last, transaction).value.replayed;
      PostedFor(db, tenantId, init, transaction, leg) + (if isNew && last.leg == leg then ToUnits(last.kes) else 0)
  }

  predicate FromSavingsOrCash(legs: seq<LegRequest>) {
    forall k :: 0 <= k < |legs| ==> legs[k].debit in {CASH, FOSA_DEPOSITS, BOSA_DEPOSITS}
  }

  /**
   What the legs are credited to: penalties to penalty income, interest to interest income, principal to
   the loans, each by what was newly posted of it; and the three together are all that was posted.
   */
  lemma {:induction false} LegsCredit(db: Books, tenantId: string, legs: seq<LegRequest>, transaction: nat, t: string)
    requires SinglePostings(db.entries) && PostLegs(db, tenantId, legs, transaction).Success? && FromSavingsOrCash(legs)
    ensures var r := PostLegs(db, tenantId, legs, transaction).value;
      var penalties := PostedFor(db, tenantId, legs, transaction, PENALTY);
      var interest := PostedFor(db, tenantId, legs, transaction, INTEREST);
      var principal := PostedFor(db, tenantId, legs, transaction, PRINCIPAL);
      && SinglePostings(r.books.entries) && r.posted == penalties + interest + principal
      && NetCredit(r.books.entries, t, PENALTY_INCOME)
           == NetCredit(db.entries, t, PENALTY_INCOME) + (if t == tenantId then penalties else 0)
      && NetCredit(r.books.entries, t, INTEREST_INCOME)
           == NetCredit(db.entries, t, INTEREST_INCOME) + (if t == tenantId then interest else 0)
      && NetCredit(r.books.entries, t, LOAN_RECEIVABLE)
           == NetCredit(db.entries, t, LOAN_RECEIVABLE) + (if t == tenantId then principal else 0)
  {
    hide PostLeg;
    if legs != [] {
      var init, last := legs[..|legs| - 1], legs[|legs| - 1];
      LegsCredit(db, tenantId, init, transaction, t);
      LegCredits(PostLegs(db, tenantId, init, transaction).value.books, tenantId, last, transaction, t);
    }
  }

  lemma LegCredits(db: Books, tenantId: string, r: LegRequest, transaction: nat, t: string)
    requires SinglePostings(db.entries) && PostLeg(db, tenantId, r, transaction).Success?
    requires r.debit in {CASH, FOSA_DEPOSITS, BOSA_DEPOSITS}
    ensures var commit := PostLeg(db, tenantId, r, transaction).value;
      var amount := if !commit.replayed && t == tenantId then ToUnits(r.kes) else 0;
      && SinglePostings(commit.books.entries)
      && NetCredit(commit.books.entries, t, PENALTY_INCOME)
           == NetCredit(db.entries, t, PENALTY_INCOME) + (if r.leg == PENALTY then amount else 0)
      && NetCredit(commit.books.entries, t, INTEREST_INCOME)
           == NetCredit(db.entries, t, INTEREST_INCOME) + (if r.leg == INTEREST then amount else 0)
      && NetCredit(commit.books.entries, t, LOAN_RECEIVABLE)
           == NetCredit(db.entries, t, LOAN_RECEIVABLE) + (if r.leg == PRINCIPAL then amount else 0)
  {
    hide ToUnits, HasEntryNumber;
    var after := PostLeg(db, tenantId, r, transaction).value.books;
    assert after.entries != db.entries ==> after.entries[..|db.entries|] == db.entries;
  }

  /** What the balances of one type exceed the net credit of their control account by. */
  ghost function Excess(db: Books, tenantId: string, accountType: AccountType): int
    requires SinglePostings(db.entries)
  {
    SumBalances(db.accounts, tenantId, accountType) - NetCredit(db.entries, tenantId, MemberDepositsCode(accountType))
  }

  lemma Debited(accounts: map<string, Account>, id: string, amount: int, tenantId: string, accountType: AccountType)
    requires id in accounts
    ensures SumBalances(accounts[id := accounts[id].(balance := accounts[id].balance - amount)], tenantId, accountType)
         == SumBalances(accounts, tenantId, accountType)
            - (if accounts[id].tenantId == tenantId && accounts[id].accountType == accountType then amount else 0)
  {
    var after := accounts[id := accounts[id].(balance := accounts[id].balance - amount)];
    var ids := AccountsOf(accounts, tenantId, accountType);
    assert AccountsOf(after, tenantId, accountType) == ids;
    if id in ids {
      SumTakes(accounts, ids, id);
      SumTakes(after, ids, id);
      SumSame(accounts, after, ids - {id});
    } else {
      SumSame(accounts, after, ids);
    }
  }

  /**
   A repayment out of a member's account: the legs debit the deposit code of the account, and the
   caller lowers the balance once. Every control account keeps its distance from its balances exactly
   when the balance falls by the sum of the amounts of the legs that were not posted before.
   */
  lemma RepaymentInStepIff(db: Books, tenantId: string, legs: seq<LegRequest>, transaction: nat,
                           id: string, debited: int)
    requires SinglePostings(db.entries) && id in db.accounts && db.accounts[id].tenantId == tenantId
    requires forall k :: 0 <= k < |legs| ==> legs[k].debit == MemberDepositsCode(db.accounts[id].accountType)
    requires PostLegs(db, tenantId, legs, transaction).Success?
    ensures var r := PostLegs(db, tenantId, legs, transaction).value;
      var a := db.accounts[id];
      var after := r.books.(accounts := db.accounts[id := a.(balance := a.balance - debited)]);
      && SinglePostings(after.entries)
      && (forall t, kind :: t != tenantId || kind != a.accountType ==> Excess(after, t, kind) == Excess(db, t, kind))
      && (Excess(after, tenantId, a.accountType) == Excess(db, tenantId, a.accountType) <==> debited == r.posted)
  {
    hide PostLegs, SumBalances, NetCredit;
    var own := MemberDepositsCode(db.accounts[id].accountType);
    forall t: string, kind: AccountType
      ensures SinglePostings(PostLegs(db, tenantId, legs, transaction).value.books.entries)
      ensures NetCredit(PostLegs(db, tenantId, legs, transaction).value.books.entries, t, MemberDepositsCode(kind))
           == NetCredit(db.entries, t, MemberDepositsCode(kind))
              - (if t == tenantId && own == MemberDepositsCode(kind)
                 then PostLegs(db, tenantId, legs, transaction).value.posted else 0)
    {
      PostLegsNet(db, tenantId, legs, transaction, own, t, MemberDepositsCode(kind));
    }
    forall t: string, kind: AccountType
      ensures SumBalances(db.accounts[id := db.accounts[id].(balance := db.accounts[id].balance - debited)], t, kind)
           == SumBalances(db.accounts, t, kind)
              - (if db.accounts[id].tenantId == t && db.accounts[id].accountType == kind then debited else 0)
    {
      Debited(db.accounts, id, debited, t, kind);
    }
    PostLegsNet(db, tenantId, legs, transaction, own, tenantId, own);
  }

  /** A leg that is posted under the reference of an earlier posting is taken for a replay and writes no entry. */
  lemma PostingSwallowsLeg(db: Books, op: Op, r: LegRequest, transaction: nat)
    requires op.Post? && Attempt(db, op).Success? && !Attempt(db, op).value.receipt.replayed
    requires r.reference == op.reference && ToUnits(r.kes) > 0
    ensures PostLeg(Step(db, op), op.tenantId, r, transaction) == Success(LegCommit(Step(db, op), true))
  {
    hide FindReference, FindEntry, ResolveGlCodes, ApplyBalanceChange, ToUnits, GlConfigured;
    var entries := Step(db, op).entries;
    assert entries[|db.entries|].entryNumber == LedgerNumber(op.reference);
  }
}
