/**
 Guarantor consent (src/loans/guarantor-response.service.ts) and the pool of held savings behind it
 (src/modules/loans/guarantor-validation.service.ts): the rows of one tenant, and each database
 transaction as a function from the rows to the rows it commits. Amounts are units of 0.0001 KES,
 times are milliseconds. A row's position stands for its primary key.
 */
module GuarantorModel {
  import opened Decimals
  import opened Outcomes

  // ---- Rows ---------------------------------------------------------------------------

  datatype AccountType = FOSA | BOSA

  datatype GuarantorStatus = PENDING | ACCEPTED | REJECTED | EXPIRED | RELEASED

  datatype LoanStatus =
    | DRAFT | PENDING_GUARANTORS | PENDING_REVIEW | PENDING_APPROVAL | APPROVED | REJECTED
    | REJECTED_GUARANTOR_DECLINE | DISBURSED | ACTIVE | FULLY_PAID | DEFAULTED | WRITTEN_OFF

  datatype Product = Product(
    minGuarantors: int, maxGuarantors: int, coverageRatio: real, requiredAccountType: Option<AccountType>)

  datatype Loan = Loan(status: LoanStatus, principal: int, product: Product)

  datatype Guarantor = Guarantor(
    id: string, loanId: string, memberId: string, status: GuarantorStatus, amount: int, invitedAt: int,
    holdReleased: bool)

  datatype Member = Member(isActive: bool, userActive: bool, kycApproved: bool)

  /** The savings accounts of a member: one of each type. */
  datatype Key = Key(memberId: string, accountType: AccountType)

  datatype Account = Account(isActive: bool, balance: int, locked: int, frozen: int)

  datatype Rows = Rows(
    loans: map<string, Loan>, guarantors: seq<Guarantor>, accounts: map<Key, Account>, members: map<string, Member>)

  datatype Error =
    | AcknowledgmentRequired | GuarantorNotFound | AlreadyDecided | LoanNotFound | GuarantorNotActive
    | KycNotVerified | InvalidAmount | NoActiveAccount | InsufficientFunds | LoanNotOpen | TooManyGuarantors

  function ResolveAccountType(product: Product): AccountType {
    if product.requiredAccountType.Some? then product.requiredAccountType.value else FOSA
  }

  /** The account that holds the collateral of a row. */
  function KeyOf(loans: map<string, Loan>, row: Guarantor): Key {
    Key(row.memberId, if row.loanId in loans then ResolveAccountType(loans[row.loanId].product) else FOSA)
  }

  /** The row has a hold placed for it that has not been released. */
  predicate Unreleased(row: Guarantor) {
    row.status == GuarantorStatus.ACCEPTED && !row.holdReleased
  }

  // ---- Holds --------------------------------------------------------------------------

  predicate HasActiveAccount(accounts: map<Key, Account>, key: Key) {
    key in accounts && accounts[key].isActive
  }

  /** `placeGuarantorHolds` for one guarantor. */
  function PlaceHold(accounts: map<Key, Account>, key: Key, amount: int): Result<map<Key, Account>, Error> {
    var positive := amount > 0;
    :- Need(positive, InvalidAmount);
    :- Need(HasActiveAccount(accounts, key), NoActiveAccount);
    var a := accounts[key];
    :- Need(amount <= a.balance - a.locked - a.frozen, InsufficientFunds);
    Success(accounts[key := a.(frozen := a.frozen + amount)])
  }

  /** `releaseGuarantorHolds` for one guarantor: without an active account it quietly does nothing. */
  function ReleaseHold(accounts: map<Key, Account>, key: Key, amount: int): map<Key, Account> {
    if HasActiveAccount(accounts, key)
    then accounts[key := accounts[key].(frozen := accounts[key].frozen - Min(accounts[key].frozen, amount))]
    else accounts
  }

  /** The hold of row i is released, and the row is marked whether or not an account was found. */
  function ReleaseRow(db: Rows, i: nat): Rows
    requires i < |db.guarantors|
  {
    var row := db.guarantors[i];
    db.(accounts := ReleaseHold(db.accounts, KeyOf(db.loans, row), row.amount),
        guarantors := db.guarantors[i := row.(holdReleased := true)])
  }

  /** The groups of rows that the service asks for. `Holding` are the accepted rows whose hold is not released. */
  datatype Group = Holding | AllAccepted | AllPending | AllDeclined

  predicate InGroup(row: Guarantor, group: Group) {
    match group
    case Holding => Unreleased(row)
    case AllAccepted => row.status == GuarantorStatus.ACCEPTED
    case AllPending => row.status == GuarantorStatus.PENDING
    case AllDeclined => row.status == GuarantorStatus.REJECTED || row.status == GuarantorStatus.EXPIRED
  }

  /** Positions of the rows of a loan in a group, in order. */
  function Positions(rows: seq<Guarantor>, loanId: string, group: Group): (r: seq<nat>)
    ensures forall k :: 0 <= k < |r| ==> r[k] < |rows| && rows[r[k]].loanId == loanId && InGroup(rows[r[k]], group)
    ensures forall j, k :: 0 <= j < k < |r| ==> r[j] < r[k]
    ensures forall i :: 0 <= i < |rows| && rows[i].loanId == loanId && InGroup(rows[i], group) ==> i in r
  {
    if rows == [] then []
    else
      var n := |rows| - 1;
      Positions(rows[..n], loanId, group)
      + (if rows[n].loanId == loanId && InGroup(rows[n], group) then [n] else [])
  }

  function ReleaseAll(db: Rows, list: seq<nat>): (r: Rows)
    requires forall k :: 0 <= k < |list| ==> list[k] < |db.guarantors|
    ensures |r.guarantors| == |db.guarantors|
  {
    if list == [] then db else ReleaseRow(ReleaseAll(db, list[..|list| - 1]), list[|list| - 1])
  }

  /** `releaseAcceptedHolds`: the accepted rows of a loan, except those released before. */
  function ReleaseAcceptedHolds(db: Rows, loanId: string): Result<Rows, Error> {
    var list := Positions(db.guarantors, loanId, Holding);
    :- Need(forall k :: 0 <= k < |list| ==> db.guarantors[list[k]].amount > 0, InvalidAmount);
    Success(ReleaseAll(db, list))
  }

  // ---- Progress of a loan -------------------------------------------------------------

  function Count(rows: seq<Guarantor>, loanId: string, group: Group): nat {
    |Positions(rows, loanId, group)|
  }

  /** The amounts guaranteed by the accepted rows of a loan. */
  function TotalAccepted(rows: seq<Guarantor>, loanId: string): int {
    if rows == [] then 0
    else
      var row := rows[|rows| - 1];
      TotalAccepted(rows[..|rows| - 1], loanId)
      + (if row.loanId == loanId && InGroup(row, AllAccepted) then row.amount else 0)
  }

  function RequiredCoverage(loan: Loan): real {
    loan.principal as real * loan.product.coverageRatio
  }

  datatype Transition = Transition(db: Rows, loanStatus: LoanStatus, remainingCoverage: Option<int>)

  /** `applyLoanState`. */
  function ApplyLoanState(db: Rows, loanId: string, loan: Loan, latest: GuarantorStatus): Result<Transition, Error> {
    if loan.status != PENDING_GUARANTORS then Success(Transition(db, loan.status, None))
    else
      var accepted, pending := Count(db.guarantors, loanId, AllAccepted), Count(db.guarantors, loanId, AllPending);
      var total, required := TotalAccepted(db.guarantors, loanId), RequiredCoverage(loan);
      var shortfall := required - total as real;
      var remaining := Round(if shortfall > 0.0 then shortfall else 0.0);
      var hasDecline := Count(db.guarantors, loanId, AllDeclined) > 0;
      if pending == 0 && accepted >= loan.product.minGuarantors && total as real >= required then
        Success(Transition(db.(loans := db.loans[loanId := loan.(status := PENDING_APPROVAL)]),
                           PENDING_APPROVAL, Some(0)))
      else
        var active := accepted + pending;
        var feasible := active + Max(0, loan.product.maxGuarantors - active) >= loan.product.minGuarantors;
        if latest == GuarantorStatus.EXPIRED || (pending == 0 && !(hasDecline && feasible)) then
          var released :- ReleaseAcceptedHolds(db, loanId);
          Success(Transition(
            released.(loans := released.loans[loanId := loan.(status := REJECTED_GUARANTOR_DECLINE)]),
            REJECTED_GUARANTOR_DECLINE, Some(remaining)))
        else Success(Transition(db, loan.status, Some(remaining)))
  }

  // ---- A decision ---------------------------------------------------------------------

  datatype Action = ACCEPT | DECLINE

  datatype Source = MEMBER | ADMIN_OVERRIDE | SYSTEM_EXPIRY

  datatype Matcher = ByMember(memberId: string) | ByIdOrMember(key: string)

  datatype Decision = Decision(
    loanId: string, matcher: Matcher, action: Action, acknowledged: bool, source: Source, now: int)

  datatype Answer = Answer(
    guarantor: nat, status: GuarantorStatus, loanStatus: LoanStatus, remainingCoverage: Option<int>)

  datatype Decided = Decided(db: Rows, answer: Answer)

  /** 72 hours. */
  const CONSENT_WINDOW := 72 * 60 * 60 * 1000

  predicate Matches(row: Guarantor, loanId: string, matcher: Matcher) {
    && row.loanId == loanId
    && match matcher
       case ByMember(memberId) => row.memberId == memberId
       case ByIdOrMember(key) => row.id == key || row.memberId == key
  }

  /** `lockGuarantor`: the first matching row. */
  function LockGuarantor(rows: seq<Guarantor>, loanId: string, matcher: Matcher, i: nat := 0): (r: Option<nat>)
    requires i <= |rows|
    ensures r.Some? ==> i <= r.value < |rows| && Matches(rows[r.value], loanId, matcher)
    ensures r.None? ==> forall k :: i <= k < |rows| ==> !Matches(rows[k], loanId, matcher)
    decreases |rows| - i
  {
    if i == |rows| then None
    else if Matches(rows[i], loanId, matcher) then Some(i)
    else LockGuarantor(rows, loanId, matcher, i + 1)
  }

  function NextStatus(row: Guarantor, d: Decision): GuarantorStatus {
    if d.source == SYSTEM_EXPIRY || d.now > row.invitedAt + CONSENT_WINDOW then GuarantorStatus.EXPIRED
    else if d.action == ACCEPT then GuarantorStatus.ACCEPTED
    else GuarantorStatus.REJECTED
  }

  /** `assertGuarantorCanAccept`: why the member may not accept, if they may not. */
  function AcceptRefusal(members: map<string, Member>, memberId: string): Option<Error> {
    if memberId !in members || !members[memberId].isActive || !members[memberId].userActive
    then Some(GuarantorNotActive)
    else if !members[memberId].kycApproved then Some(KycNotVerified)
    else None
  }

  /** The accounts once the hold of an accepted row is placed. */
  function AcceptRow(db: Rows, row: Guarantor): Result<map<Key, Account>, Error> {
    match AcceptRefusal(db.members, row.memberId)
    case Some(error) => Failure(error)
    case None => PlaceHold(db.accounts, KeyOf(db.loans, row), row.amount)
  }

  /** `applyDecision`. */
  function Decide(db: Rows, d: Decision): Result<Decided, Error> {
    var acknowledged := d.action == ACCEPT && d.source == MEMBER ==> d.acknowledged;
    :- Need(acknowledged, AcknowledgmentRequired);
    match LockGuarantor(db.guarantors, d.loanId, d.matcher)
    case None => Failure(GuarantorNotFound)
    case Some(i) =>
      var row := db.guarantors[i];
      :- Need(row.status == GuarantorStatus.PENDING, AlreadyDecided);
      :- Need(d.loanId in db.loans, LoanNotFound);
      var loan, next := db.loans[d.loanId], NextStatus(row, d);
      var accounts :- if next == GuarantorStatus.ACCEPTED then AcceptRow(db, row) else Success(db.accounts);
      var marked := db.(accounts := accounts, guarantors := db.guarantors[i := row.(status := next)]);
      var t :- ApplyLoanState(marked, d.loanId, loan, next);
      Success(Decided(t.db, Answer(i, next, t.loanStatus, t.remainingCoverage)))
  }

  // ---- Invitations --------------------------------------------------------------------

  /** The loan takes guarantors. */
  predicate Open(loan: Loan) {
    loan.status == DRAFT || loan.status == PENDING_GUARANTORS
  }

  /**
   One nominee of `inviteGuarantors` (src/modules/loans/loan-application.service.ts): an upsert on
   the loan and the member, which puts an existing row back to PENDING and keeps the rest of it. The
   eligibility checks and the cap on guarantors only refuse more.
   */
  function Invite(db: Rows, id: string, loanId: string, memberId: string, amount: int, now: int): Result<Rows, Error> {
    var known := loanId in db.loans;
    :- Need(known, LoanNotFound);
    :- Need(Open(db.loans[loanId]), LoanNotOpen);
    match LockGuarantor(db.guarantors, loanId, ByMember(memberId))
    case Some(i) =>
      var row := db.guarantors[i];
      var pending := row.(status := GuarantorStatus.PENDING, amount := amount, invitedAt := now);
      Success(db.(guarantors := db.guarantors[i := pending]))
    case None =>
      Success(db.(guarantors := db.guarantors
                              + [Guarantor(id, loanId, memberId, GuarantorStatus.PENDING, amount, now, false)]))
  }
}
