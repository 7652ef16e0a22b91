/**
 `GuarantorResponseService` (src/loans/guarantor-response.service.ts) with the two methods of
 `GuarantorValidationService` that it calls (src/modules/loans/guarantor-validation.service.ts) as
 they run: rows are updated one by one, and a failure part of the way rolls the transaction back.
 `ApplyDecision` is proved to commit exactly what `GuarantorModel.Decide` says.
 */
module GuarantorService {
  import opened Decimals
  import opened Outcomes
  import opened GuarantorModel
  import opened GuarantorHolds

  class GuarantorResponseService {
    var loans: map<string, Loan>
    var guarantors: seq<Guarantor>
    var accounts: map<Key, Account>
    var members: map<string, Member>

    constructor (db: Rows)
      ensures Database() == db
    {
      loans, guarantors, accounts, members := db.loans, db.guarantors, db.accounts, db.members;
    }

    function Database(): Rows
      reads this
    {
      Rows(loans, guarantors, accounts, members)
    }

    /** A hold that is placed was available, and adds exactly its amount to what is held. */
    method PlaceGuarantorHolds(key: Key, guaranteedAmount: int) returns (refusal: Option<Error>)
      modifies this`accounts
      ensures refusal.None? ==> PlaceHold(old(accounts), key, guaranteedAmount) == Success(accounts)
      ensures refusal.None? ==>
        && key in old(accounts) && accounts[key].frozen == old(accounts)[key].frozen + guaranteedAmount
        && accounts[key].locked + accounts[key].frozen <= accounts[key].balance
      ensures refusal.Some? ==>
        PlaceHold(old(accounts), key, guaranteedAmount) == Failure(refusal.value) && accounts == old(accounts)
    {
      if guaranteedAmount <= 0 {
        return Some(InvalidAmount);
      }
      if key !in accounts || !accounts[key].isActive {
        return Some(NoActiveAccount);
      }
      var account := accounts[key];
      var availableBalance := account.balance - account.locked - account.frozen;
      if guaranteedAmount > availableBalance {
        return Some(InsufficientFunds);
      }
      accounts := accounts[key := account.(frozen := account.frozen + guaranteedAmount)];
      return None;
    }

    /** Never more is released than is held; without an active account nothing is. */
    method ReleaseGuarantorHolds(key: Key, guaranteedAmount: int) returns (valid: bool)
      modifies this`accounts
      ensures valid <==> guaranteedAmount > 0
      ensures accounts == if valid then ReleaseHold(old(accounts), key, guaranteedAmount) else old(accounts)
    {
      if guaranteedAmount <= 0 {
        return false;
      }
      if key !in accounts || !accounts[key].isActive {
        return true;
      }
      var account := accounts[key];
      var releaseAmount := Min(account.frozen, guaranteedAmount);
      if releaseAmount != 0 {
        accounts := accounts[key := account.(frozen := account.frozen - releaseAmount)];
      } else {
        assert accounts == accounts[key := account.(frozen := account.frozen - releaseAmount)];
      }
      return true;
    }

    method ReleaseGuarantor(i: nat) returns (valid: bool)
      requires i < |guarantors|
      modifies this`accounts, this`guarantors
      ensures valid <==> old(guarantors)[i].amount > 0
      ensures valid ==> Database() == ReleaseRow(old(Database()), i)
    {
      var guarantor := guarantors[i];
      valid := ReleaseGuarantorHolds(KeyOf(loans, guarantor), guarantor.amount);
      if valid {
        guarantors := guarantors[i := guarantor.(holdReleased := true)];
      }
    }

    /** The loop over the accepted rows, skipping those released before. */
    method ReleaseAcceptedHolds(loanId: string) returns (valid: bool)
      modifies this`accounts, this`guarantors
      ensures match GuarantorModel.ReleaseAcceptedHolds(old(Database()), loanId)
        case Success(rows) => valid && Database() == rows
        case Failure(_) => !valid
    {
      hide ReleaseHold, ReleaseRow, ReleaseAll, Positions, KeyOf, InGroup, GuarantorModel.ReleaseAcceptedHolds;
      ghost var start := Database();
      var accepted := Positions(guarantors, loanId, Holding);
      ReleaseOutcome(start, loanId);
      var k := 0;
      while k < |accepted|
        invariant 0 <= k <= |accepted|
        invariant |guarantors| == |start.guarantors|
        invariant Database() == ReleaseAll(start, accepted[..k])
        invariant forall j :: 0 <= j < k ==> start.guarantors[accepted[j]].amount > 0
      {
        ReleaseNext(start, accepted, k);
        valid := ReleaseGuarantor(accepted[k]);
        if !valid {
          return false;
        }
        k := k + 1;
      }
      assert accepted[..k] == accepted;
      return true;
    }

    /** How many rows of a loan are in a group. */
    method CountRows(loanId: string, group: Group) returns (count: nat)
      ensures count == Count(guarantors, loanId, group)
    {
      count := 0;
      var i := 0;
      while i < |guarantors|
        invariant 0 <= i <= |guarantors|
        invariant count == Count(guarantors[..i], loanId, group)
      {
        assert guarantors[..i + 1][..i] == guarantors[..i];
        if guarantors[i].loanId == loanId && InGroup(guarantors[i], group) {
          count := count + 1;
        }
        i := i + 1;
      }
      assert guarantors[..i] == guarantors;
    }

    method SumAccepted(loanId: string) returns (total: int)
      ensures total == TotalAccepted(guarantors, loanId)
    {
      total := 0;
      var i := 0;
      while i < |guarantors|
        invariant 0 <= i <= |guarantors|
        invariant total == TotalAccepted(guarantors[..i], loanId)
      {
        assert guarantors[..i + 1][..i] == guarantors[..i];
        if guarantors[i].loanId == loanId && InGroup(guarantors[i], AllAccepted) {
          total := total + guarantors[i].amount;
        }
        i := i + 1;
      }
      assert guarantors[..i] == guarantors;
    }

    method ApplyLoanState(loanId: string, loan: Loan, latestStatus: GuarantorStatus)
      returns (valid: bool, loanStatus: LoanStatus, remainingCoverage: Option<int>)
      modifies this`accounts, this`guarantors, this`loans
      ensures match GuarantorModel.ApplyLoanState(old(Database()), loanId, loan, latestStatus)
        case Success(t) => valid && t == Transition(Database(), loanStatus, remainingCoverage)
        case Failure(_) => !valid
    {
      hide Count, TotalAccepted, RequiredCoverage, Round, GuarantorModel.ReleaseAcceptedHolds;
      if loan.status != PENDING_GUARANTORS {
        return true, loan.status, None;
      }
      var accepted := CountRows(loanId, AllAccepted);
      var pending := CountRows(loanId, AllPending);
      var declined := CountRows(loanId, AllDeclined);
      var totalAccepted := SumAccepted(loanId);
      var requiredCoverage := RequiredCoverage(loan);
      var shortfall := requiredCoverage - totalAccepted as real;
      var remaining := Round(if shortfall > 0.0 then shortfall else 0.0);
      if pending == 0 && accepted >= loan.product.minGuarantors && totalAccepted as real >= requiredCoverage {
        loans := loans[loanId := loan.(status := PENDING_APPROVAL)];
        return true, PENDING_APPROVAL, Some(0);
      }
      var activeGuarantors := accepted + pending;
      var availableReplacementSlots := Max(0, loan.product.maxGuarantors - activeGuarantors);
      var replacementStillFeasible := activeGuarantors + availableReplacementSlots >= loan.product.minGuarantors;
      if latestStatus == GuarantorStatus.EXPIRED || (pending == 0 && !(declined > 0 && replacementStillFeasible)) {
        valid := ReleaseAcceptedHolds(loanId);
        if !valid {
          return false, loan.status, None;
        }
        loans := loans[loanId := loan.(status := REJECTED_GUARANTOR_DECLINE)];
        return true, REJECTED_GUARANTOR_DECLINE, Some(remaining);
      }
      return true, loan.status, Some(remaining);
    }

    method ApplyDecision(d: Decision) returns (result: Result<Answer, Error>)
      modifies this
      ensures match Decide(old(Database()), d)
        case Success(decided) => result == Success(decided.answer) && Database() == decided.db
        case Failure(error) => result == Failure(error) && Database() == old(Database())
    {
      hide GuarantorModel.ApplyLoanState;
      if d.action == ACCEPT && d.source == MEMBER && !d.acknowledged {
        return Failure(AcknowledgmentRequired);
      }
      var locked := LockGuarantor(guarantors, d.loanId, d.matcher);
      if locked.None? {
        return Failure(GuarantorNotFound);
      }
      var row := guarantors[locked.value];
      if row.status != GuarantorStatus.PENDING {
        return Failure(AlreadyDecided);
      }
      if d.loanId !in loans {
        return Failure(LoanNotFound);
      }
      var loan := loans[d.loanId];
      var expired := d.source == SYSTEM_EXPIRY || d.now > row.invitedAt + CONSENT_WINDOW;
      var nextStatus := if expired then GuarantorStatus.EXPIRED
                        else if d.action == ACCEPT then GuarantorStatus.ACCEPTED else GuarantorStatus.REJECTED;
      var savedAccounts, savedGuarantors, savedLoans := accounts, guarantors, loans;
      if nextStatus == GuarantorStatus.ACCEPTED {
        var refusal := AcceptRefusal(members, row.memberId);
        if refusal.Some? {
          return Failure(refusal.value);
        }
        refusal := PlaceGuarantorHolds(KeyOf(loans, row), row.amount);
        if refusal.Some? {
          return Failure(refusal.value);
        }
      }
      guarantors := guarantors[locked.value := row.(status := nextStatus)];
      assert Database() == old(Database()).(accounts := accounts, guarantors := guarantors);
      LoanStateFailure(Database(), d.loanId, loan, nextStatus);
      var valid, loanStatus, remainingCoverage := ApplyLoanState(d.loanId, loan, nextStatus);
      if !valid {
        accounts, guarantors, loans := savedAccounts, savedGuarantors, savedLoans;
        return Failure(InvalidAmount);
      }
      return Success(Answer(locked.value, nextStatus, loanStatus, remainingCoverage));
    }
  }

  lemma ReleaseOutcome(db: Rows, loanId: string)
    ensures var list := Positions(db.guarantors, loanId, Holding);
      var positive := forall k :: 0 <= k < |list| ==> db.guarantors[list[k]].amount > 0;
      GuarantorModel.ReleaseAcceptedHolds(db, loanId)
        == if positive then Success(ReleaseAll(db, list)) else Failure(InvalidAmount)
    ensures ReleaseAll(db, []) == db
  {
  }

  lemma ReleaseNext(db: Rows, list: seq<nat>, k: nat)
    requires Increasing(list) && k < |list| && forall j :: 0 <= j < |list| ==> list[j] < |db.guarantors|
    ensures ReleaseAll(db, list[..k]).guarantors[list[k]] == db.guarantors[list[k]]
    ensures ReleaseAll(db, list[..k + 1]) == ReleaseRow(ReleaseAll(db, list[..k]), list[k])
  {
    assert list[..k + 1][..k] == list[..k];
    assert list[k] !in list[..k];
    ReleasedRows(db, list[..k], list[k]);
  }

  lemma LoanStateFailure(db: Rows, loanId: string, loan: Loan, latest: GuarantorStatus)
    ensures var t := GuarantorModel.ApplyLoanState(db, loanId, loan, latest); t.Failure? ==> t.error == InvalidAmount
  {
  }
}
