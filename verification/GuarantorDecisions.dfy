/**
 What one decision does (src/loans/guarantor-response.service.ts): to the holds, to the loan, and to
 the guarantees left behind on a loan that has been rejected.
 */
module GuarantorDecisions {
  import opened Decimals
  import opened Outcomes
  import opened GuarantorModel
  import opened GuarantorHolds

  // ---- The parts of a decision --------------------------------------------------------

  /** The row decided on. */
  ghost function DecidedRow(db: Rows, d: Decision): nat
    requires Decide(db, d).Success?
  {
    LockGuarantor(db.guarantors, d.loanId, d.matcher).value
  }

  /** The rows once the decision is recorded, before the loan moves. */
  ghost function Recorded(db: Rows, d: Decision): Rows
    requires Decide(db, d).Success?
  {
    var i := DecidedRow(db, d);
    var row := db.guarantors[i];
    var next := NextStatus(row, d);
    db.(accounts := if next == GuarantorStatus.ACCEPTED then AcceptRow(db, row).value else db.accounts,
        guarantors := db.guarantors[i := row.(status := next)])
  }

  lemma DecideParts(db: Rows, d: Decision)
    requires Decide(db, d).Success?
    ensures d.loanId in db.loans && DecidedRow(db, d) < |db.guarantors|
    ensures Matches(db.guarantors[DecidedRow(db, d)], d.loanId, d.matcher)
    ensures db.guarantors[DecidedRow(db, d)].status == GuarantorStatus.PENDING
    ensures var next := NextStatus(db.guarantors[DecidedRow(db, d)], d);
      && (next == GuarantorStatus.ACCEPTED ==> AcceptRow(db, db.guarantors[DecidedRow(db, d)]).Success?)
      && var t := ApplyLoanState(Recorded(db, d), d.loanId, db.loans[d.loanId], next);
        && t.Success?
        && Decide(db, d).value
             == Decided(t.value.db, Answer(DecidedRow(db, d), next, t.value.loanStatus, t.value.remainingCoverage))
  {
  }

  lemma RecordedKeeps(db: Rows, d: Decision)
    requires Valid(db) && Decide(db, d).Success?
    ensures var r := Recorded(db, d);
      && AmountsOk(r.guarantors) && Backed(r) && LoansOk(r.loans, r.guarantors) && r.loans == db.loans
      && |r.guarantors| == |db.guarantors|
      && (forall key :: HasActiveAccount(r.accounts, key) == HasActiveAccount(db.accounts, key))
      && (forall key :: Slack(r, key) == Slack(db, key))
    ensures Unreleased(Recorded(db, d).guarantors[DecidedRow(db, d)]) ==>
      HasActiveAccount(db.accounts, KeyOf(db.loans, db.guarantors[DecidedRow(db, d)]))
  {
    DecideParts(db, d);
    var r, i := Recorded(db, d), DecidedRow(db, d);
    assert !db.guarantors[i].holdReleased;
    forall key
      ensures Slack(r, key) == Slack(db, key)
    {
      CommittedUpdate(db.loans, db.guarantors, i, r.guarantors[i], key);
    }
    forall key
      ensures Slack(r, key) >= 0
    {
      assert Slack(r, key) == Slack(db, key);
    }
  }

  /** The accepted rows of the loan whose hold is not released, once the decision is recorded. */
  ghost function Accepted(db: Rows, d: Decision): seq<nat>
    requires Decide(db, d).Success?
  {
    Positions(Recorded(db, d).guarantors, d.loanId, Holding)
  }

  ghost predicate Rejects(db: Rows, d: Decision)
    requires Decide(db, d).Success?
  {
    && d.loanId in db.loans && db.loans[d.loanId].status == PENDING_GUARANTORS
    && Decide(db, d).value.answer.loanStatus == REJECTED_GUARANTOR_DECLINE
  }

  /** What a decision leaves: its loan's status moves, and on a rejection its accepted rows are released. */
  lemma DecisionIs(db: Rows, d: Decision)
    requires Valid(db) && Decide(db, d).Success?
    ensures var r, after := Recorded(db, d), Decide(db, d).value;
      var rows := if Rejects(db, d) then ReleaseAll(r, Accepted(db, d)) else r;
      d.loanId in db.loans
      && after.db == rows.(loans := db.loans[d.loanId := db.loans[d.loanId].(status := after.answer.loanStatus)])
      && (db.loans[d.loanId].status != PENDING_GUARANTORS ==> after.answer.loanStatus == db.loans[d.loanId].status)
  {
    hide Decide, Recorded, AcceptRow, NextStatus, Valid, ApplyLoanState;
    DecideParts(db, d);
    RecordedKeeps(db, d);
    TransitionIs(Recorded(db, d), d.loanId, NextStatus(db.guarantors[DecidedRow(db, d)], d));
  }

  lemma TransitionIs(r: Rows, loanId: string, latest: GuarantorStatus)
    requires AmountsOk(r.guarantors) && loanId in r.loans
    ensures var loan := r.loans[loanId]; var t := ApplyLoanState(r, loanId, loan, latest);
      && t.Success?
      && var rejects := loan.status == PENDING_GUARANTORS && t.value.loanStatus == REJECTED_GUARANTOR_DECLINE;
        var rows := if rejects then ReleaseAll(r, Positions(r.guarantors, loanId, Holding)) else r;
        && t.value.db == rows.(loans := r.loans[loanId := loan.(status := t.value.loanStatus)])
        && (loan.status != PENDING_GUARANTORS ==> t.value.loanStatus == loan.status)
  {
    hide Count, TotalAccepted, Round, RequiredCoverage, Positions, ReleaseAll, ReleaseAcceptedHolds, Max, AmountsOk;
    var loan := r.loans[loanId];
    assert r.loans == r.loans[loanId := loan];
    ReleasesSucceed(r, loanId);
    LoansReleased(r, Positions(r.guarantors, loanId, Holding));
  }

  lemma ReleasesSucceed(db: Rows, loanId: string)
    requires AmountsOk(db.guarantors)
    ensures ReleaseAcceptedHolds(db, loanId) == Success(ReleaseAll(db, Positions(db.guarantors, loanId, Holding)))
  {
    hide ReleaseAll, Positions;
    var list := Positions(db.guarantors, loanId, Holding);
    forall k | 0 <= k < |list|
      ensures db.guarantors[list[k]].amount > 0
    {
      assert InGroup(db.guarantors[list[k]], AllAccepted);
    }
  }

  // ---- Holds --------------------------------------------------------------------------

  /** The decision rejects the loan, and an accepted guarantor of it has no active account to release from. */
  ghost predicate Strands(db: Rows, d: Decision, key: Key) {
    && Decide(db, d).Success? && Rejects(db, d) && !HasActiveAccount(db.accounts, key)
    && exists i :: 0 <= i < |db.guarantors| && db.guarantors[i].loanId == d.loanId
         && Unreleased(db.guarantors[i]) && KeyOf(db.loans, db.guarantors[i]) == key
  }

  lemma StrandsIff(db: Rows, d: Decision, key: Key)
    requires Valid(db) && Decide(db, d).Success? && Rejects(db, d)
    ensures Strands(db, d, key) <==> SomeStranded(Recorded(db, d), Accepted(db, d), key)
  {
    hide Decide, AcceptRow, NextStatus, Valid, Matches, LockGuarantor, Positions,
         ApplyLoanState, Slack, Backed, AmountsOk;
    DecideParts(db, d);
    RecordedKeeps(db, d);
    var r, list, i0 := Recorded(db, d), Accepted(db, d), DecidedRow(db, d);
    if Strands(db, d, key) {
      var i :| 0 <= i < |db.guarantors| && db.guarantors[i].loanId == d.loanId
        && Unreleased(db.guarantors[i]) && KeyOf(db.loans, db.guarantors[i]) == key;
      assert r.guarantors[i] == db.guarantors[i];
      assert i in list;
      var k :| 0 <= k < |list| && list[k] == i;
    }
    if SomeStranded(r, list, key) {
      var k :| 0 <= k < |list| && list[k] < |r.guarantors| && KeyOf(r.loans, r.guarantors[list[k]]) == key;
      var i := list[k];
      if i == i0 {
        assert KeyOf(r.loans, r.guarantors[i]) == KeyOf(db.loans, db.guarantors[i]);
      } else {
        assert r.guarantors[i] == db.guarantors[i];
      }
    }
  }

  /**
   A decision never takes backing away, and it leaves the pool exactly matched unless it rejects the
   loan while one of its accepted guarantors has no active account.
   */
  lemma DecisionSlack(db: Rows, d: Decision, key: Key)
    requires Valid(db) && Decide(db, d).Success?
    ensures Slack(Decide(db, d).value.db, key) >= Slack(db, key)
    ensures Slack(Decide(db, d).value.db, key) == Slack(db, key) <==> !Strands(db, d, key)
  {
    hide Decide, Strands, SomeStranded, Recorded, Accepted, ReleaseAll, Slack, Valid, KeyOf;
    DecisionIs(db, d);
    RecordedKeeps(db, d);
    AcceptedHolding(db, d);
    var r, after := Recorded(db, d), Decide(db, d).value.db;
    var rows := if Rejects(db, d) then ReleaseAll(r, Accepted(db, d)) else r;
    if Rejects(db, d) {
      StrandsIff(db, d, key);
      ReleaseAllSlack(r, Accepted(db, d), key);
      LoansReleased(r, Accepted(db, d));
    } else {
      NotRejectedNotStranded(db, d, key);
    }
    StatusIsNoSlack(rows, d.loanId, after.loans[d.loanId].status, key);
    var status := after.loans[d.loanId].status;
    assert after == rows.(loans := rows.loans[d.loanId := rows.loans[d.loanId].(status := status)]);
  }

  lemma AcceptedHolding(db: Rows, d: Decision)
    requires Decide(db, d).Success?
    ensures var list := Accepted(db, d);
      Increasing(list) && forall k :: 0 <= k < |list| ==>
        list[k] < |Recorded(db, d).guarantors| && Unreleased(Recorded(db, d).guarantors[list[k]])
  {
    hide Decide, Recorded;
  }

  lemma StatusIsNoSlack(db: Rows, loanId: string, status: LoanStatus, key: Key)
    requires loanId in db.loans
    ensures Slack(db.(loans := db.loans[loanId := db.loans[loanId].(status := status)]), key) == Slack(db, key)
  {
    CommittedSameTypes(db.loans, db.loans[loanId := db.loans[loanId].(status := status)], db.guarantors, key);
  }

  lemma NotRejectedNotStranded(db: Rows, d: Decision, key: Key)
    requires Decide(db, d).Success? && !Rejects(db, d)
    ensures !Strands(db, d, key)
  {
  }

  lemma {:induction false} LoansReleased(db: Rows, list: seq<nat>)
    requires forall k :: 0 <= k < |list| ==> list[k] < |db.guarantors|
    ensures ReleaseAll(db, list).loans == db.loans
  {
    if list != [] {
      LoansReleased(db, list[..|list| - 1]);
    }
  }

  /** What becomes of row i: the decision is recorded in it, and a rejection releases it if it was accepted. */
  lemma DecisionRow(db: Rows, d: Decision, i: nat)
    requires Valid(db) && Decide(db, d).Success? && i < |db.guarantors|
    ensures |Decide(db, d).value.db.guarantors| == |Recorded(db, d).guarantors| == |db.guarantors|
    ensures var base := Recorded(db, d).guarantors[i];
      Decide(db, d).value.db.guarantors[i]
        == if Rejects(db, d) && base.loanId == d.loanId && Unreleased(base) then base.(holdReleased := true) else base
  {
    hide Decide, AcceptRow, NextStatus, Valid, Positions, ApplyLoanState, LockGuarantor;
    DecisionIs(db, d);
    RecordedKeeps(db, d);
    var r, list := Recorded(db, d), Accepted(db, d);
    if Rejects(db, d) {
      ReleasedRows(r, list, i);
      if i in list {
        var k :| 0 <= k < |list| && list[k] == i;
        assert InGroup(r.guarantors[list[k]], Holding);
      }
    }
  }

  /** Decisions keep the rows sound: in particular every accepted guarantee stays backed by held savings. */
  lemma DecisionKeepsValid(db: Rows, d: Decision)
    requires Valid(db) && Decide(db, d).Success?
    ensures Valid(Decide(db, d).value.db)
  {
    hide Decide, AcceptRow, Slack, Positions, ApplyLoanState, LockGuarantor;
    var after := Decide(db, d).value.db;
    DecisionIs(db, d);
    RecordedKeeps(db, d);
    DecideParts(db, d);
    LoansReleased(Recorded(db, d), Accepted(db, d));
    forall key
      ensures Slack(after, key) >= 0
    {
      DecisionSlack(db, d, key);
    }
    forall i | 0 <= i < |after.guarantors|
      ensures after.guarantors[i].loanId in after.loans
      ensures InGroup(after.guarantors[i], AllAccepted) ==> after.guarantors[i].amount > 0
      ensures after.guarantors[i].holdReleased ==>
        after.guarantors[i].status in {GuarantorStatus.ACCEPTED, GuarantorStatus.RELEASED}
        && !Open(after.loans[after.guarantors[i].loanId])
    {
      DecisionRow(db, d, i);
      assert InGroup(Recorded(db, d).guarantors[i], AllAccepted) ==> Recorded(db, d).guarantors[i].amount > 0;
      assert db.guarantors[i].loanId in db.loans;
    }
  }

  // ---- Progress of the loan -----------------------------------------------------------

  /** Some guarantor of the loan has one of these statuses. */
  ghost predicate SomeRow(rows: seq<Guarantor>, loanId: string, statuses: set<GuarantorStatus>) {
    exists i :: 0 <= i < |rows| && rows[i].loanId == loanId && rows[i].status in statuses
  }

  /** The guarantors of the loan that have accepted. */
  ghost function AcceptedRows(rows: seq<Guarantor>, loanId: string): set<nat> {
    set i: nat | i < |rows| && rows[i].loanId == loanId && rows[i].status == GuarantorStatus.ACCEPTED
  }

  /** What the guarantors of the loan that have accepted guarantee together. */
  ghost function Guaranteed(rows: seq<Guarantor>, loanId: string): int {
    if rows == [] then 0
    else
      var counts := rows[0].loanId == loanId && rows[0].status == GuarantorStatus.ACCEPTED;
      (if counts then rows[0].amount else 0) + Guaranteed(rows[1..], loanId)
  }

  lemma CountPositiveIff(rows: seq<Guarantor>, loanId: string, group: Group, statuses: set<GuarantorStatus>)
    requires forall row: Guarantor :: InGroup(row, group) <==> row.status in statuses
    ensures Count(rows, loanId, group) > 0 <==> SomeRow(rows, loanId, statuses)
  {
    var list := Positions(rows, loanId, group);
    if Count(rows, loanId, group) > 0 {
      assert InGroup(rows[list[0]], group);
    }
    if SomeRow(rows, loanId, statuses) {
      var i :| 0 <= i < |rows| && rows[i].loanId == loanId && rows[i].status in statuses;
      assert InGroup(rows[i], group);
      assert i in list;
    }
  }

  lemma {:induction false} CountIsSize(rows: seq<Guarantor>, loanId: string)
    ensures Count(rows, loanId, AllAccepted) == |AcceptedRows(rows, loanId)|
  {
    hide AcceptedRows;
    LastAccepted(rows, loanId);
    if rows != [] {
      CountIsSize(rows[..|rows| - 1], loanId);
    }
  }

  lemma LastAccepted(rows: seq<Guarantor>, loanId: string)
    ensures rows == [] ==> AcceptedRows(rows, loanId) == {}
    ensures rows != [] ==>
      var n := |rows| - 1;
      |AcceptedRows(rows, loanId)| == |AcceptedRows(rows[..n], loanId)|
        + (if rows[n].loanId == loanId && rows[n].status == GuarantorStatus.ACCEPTED then 1 else 0)
  {
    if rows != [] {
      var n := |rows| - 1;
      var last := if rows[n].loanId == loanId && rows[n].status == GuarantorStatus.ACCEPTED then {n} else {};
      assert AcceptedRows(rows, loanId) == AcceptedRows(rows[..n], loanId) + last;
    }
  }

  lemma {:induction false} GuaranteedAppend(rows: seq<Guarantor>, row: Guarantor, loanId: string)
    ensures Guaranteed(rows + [row], loanId) == Guaranteed(rows, loanId) + Guaranteed([row], loanId)
  {
    if rows == [] {
      assert rows + [row] == [row];
    } else {
      GuaranteedAppend(rows[1..], row, loanId);
      assert (rows + [row])[1..] == rows[1..] + [row];
    }
  }

  lemma {:induction false} TotalIsGuaranteed(rows: seq<Guarantor>, loanId: string)
    ensures TotalAccepted(rows, loanId) == Guaranteed(rows, loanId)
  {
    if rows != [] {
      var n := |rows| - 1;
      TotalIsGuaranteed(rows[..n], loanId);
      GuaranteedAppend(rows[..n], rows[n], loanId);
      assert rows == rows[..n] + [rows[n]];
    }
  }

  /** What the service counts and adds up, in terms of the rows. */
  lemma CountsAre(rows: seq<Guarantor>, loanId: string)
    ensures Count(rows, loanId, AllPending) > 0 <==> SomeRow(rows, loanId, {GuarantorStatus.PENDING})
    ensures Count(rows, loanId, AllDeclined) > 0
       <==> SomeRow(rows, loanId, {GuarantorStatus.REJECTED, GuarantorStatus.EXPIRED})
    ensures Count(rows, loanId, AllAccepted) == |AcceptedRows(rows, loanId)|
    ensures TotalAccepted(rows, loanId) == Guaranteed(rows, loanId)
  {
    CountPositiveIff(rows, loanId, AllPending, {GuarantorStatus.PENDING});
    CountPositiveIff(rows, loanId, AllDeclined, {GuarantorStatus.REJECTED, GuarantorStatus.EXPIRED});
    CountIsSize(rows, loanId);
    TotalIsGuaranteed(rows, loanId);
  }

  /** Rows that differ only in whether their hold is released. */
  ghost predicate SameDecisions(rows: seq<Guarantor>, rows': seq<Guarantor>) {
    |rows| == |rows'| && forall i :: 0 <= i < |rows| ==> rows'[i] == rows[i].(holdReleased := rows'[i].holdReleased)
  }

  lemma {:induction false} SameTotals(rows: seq<Guarantor>, rows': seq<Guarantor>, loanId: string)
    requires SameDecisions(rows, rows')
    ensures Guaranteed(rows, loanId) == Guaranteed(rows', loanId)
  {
    if rows != [] {
      assert rows'[0] == rows[0].(holdReleased := rows'[0].holdReleased);
      SameTotals(rows[1..], rows'[1..], loanId);
    }
  }

  /**
   Nobody is still to answer, enough have accepted, and what they guarantee covers the principal times
   the coverage ratio of the product.
   */
  ghost predicate FullyGuaranteed(db: Rows, loanId: string)
    requires loanId in db.loans
  {
    var loan, rows := db.loans[loanId], db.guarantors;
    && !SomeRow(rows, loanId, {GuarantorStatus.PENDING})
    && |AcceptedRows(rows, loanId)| >= loan.product.minGuarantors
    && Guaranteed(rows, loanId) as real >= loan.principal as real * loan.product.coverageRatio
  }

  /** Somebody is still to answer, or somebody declined and a replacement can still make up the number. */
  ghost predicate StillHopeful(db: Rows, loanId: string)
    requires loanId in db.loans
  {
    var product, rows := db.loans[loanId].product, db.guarantors;
    || SomeRow(rows, loanId, {GuarantorStatus.PENDING})
    || (&& SomeRow(rows, loanId, {GuarantorStatus.REJECTED, GuarantorStatus.EXPIRED})
        && (|| |AcceptedRows(rows, loanId)| >= product.minGuarantors
            || product.maxGuarantors >= product.minGuarantors))
  }

  ghost predicate AllReleased(db: Rows, loanId: string) {
    forall i :: 0 <= i < |db.guarantors| && db.guarantors[i].loanId == loanId ==>
      (db.guarantors[i].status == GuarantorStatus.ACCEPTED ==> db.guarantors[i].holdReleased)
  }

  /** The progress of a loan, stated about the rows that the transition leaves. */
  lemma TransitionProgress(r: Rows, loanId: string, latest: GuarantorStatus)
    requires AmountsOk(r.guarantors) && loanId in r.loans && r.loans[loanId].status == PENDING_GUARANTORS
    ensures var t := ApplyLoanState(r, loanId, r.loans[loanId], latest);
      && t.Success?
      && (t.value.loanStatus == PENDING_APPROVAL <==> FullyGuaranteed(r, loanId))
      && (t.value.loanStatus == PENDING_GUARANTORS <==>
            !FullyGuaranteed(r, loanId) && latest != GuarantorStatus.EXPIRED && StillHopeful(r, loanId))
      && t.value.loanStatus in {PENDING_APPROVAL, PENDING_GUARANTORS, REJECTED_GUARANTOR_DECLINE}
  {
    hide TotalAccepted, Round, Positions, ReleaseAll, ReleaseAcceptedHolds, AmountsOk, Count, SomeRow, AcceptedRows,
         Guaranteed;
    ReleasesSucceed(r, loanId);
    CountsAre(r.guarantors, loanId);
  }

  lemma SameProgress(r: Rows, after: Rows, loanId: string)
    requires SameDecisions(r.guarantors, after.guarantors) && loanId in r.loans && loanId in after.loans
    requires after.loans[loanId] == r.loans[loanId].(status := after.loans[loanId].status)
    ensures FullyGuaranteed(r, loanId) == FullyGuaranteed(after, loanId)
    ensures StillHopeful(r, loanId) == StillHopeful(after, loanId)
  {
    var rows, rows' := r.guarantors, after.guarantors;
    forall i | 0 <= i < |rows|
      ensures rows'[i].loanId == rows[i].loanId && rows'[i].status == rows[i].status
    {
      assert rows'[i] == rows[i].(holdReleased := rows'[i].holdReleased);
    }
    assert AcceptedRows(rows, loanId) == AcceptedRows(rows', loanId);
    assert forall statuses :: SomeRow(rows, loanId, statuses) == SomeRow(rows', loanId, statuses);
    SameTotals(r.guarantors, after.guarantors, loanId);
  }

  /**
   The progress of a loan. After any decision on a loan that waits for guarantors, and in terms of
   the rows that the decision leaves: it goes to approval exactly when it is fully guaranteed; it
   keeps waiting exactly when it is not, the answer did not come too late, and there is still hope;
   otherwise it is rejected, and then no accepted guarantor of it is left with a hold.
   */
  lemma LoanProgress(db: Rows, d: Decision)
    requires Valid(db) && Decide(db, d).Success?
    requires d.loanId in db.loans && db.loans[d.loanId].status == PENDING_GUARANTORS
    ensures var after, answer := Decide(db, d).value.db, Decide(db, d).value.answer;
      && after.loans == db.loans[d.loanId := db.loans[d.loanId].(status := answer.loanStatus)]
      && (answer.loanStatus == PENDING_APPROVAL <==> FullyGuaranteed(after, d.loanId))
      && (answer.loanStatus == PENDING_GUARANTORS <==>
            && !FullyGuaranteed(after, d.loanId) && answer.status != GuarantorStatus.EXPIRED
            && StillHopeful(after, d.loanId))
      && (answer.loanStatus !in {PENDING_APPROVAL, PENDING_GUARANTORS} ==>
            answer.loanStatus == REJECTED_GUARANTOR_DECLINE && AllReleased(after, d.loanId))
  {
    hide Decide, AcceptRow, NextStatus, Valid, ApplyLoanState, LockGuarantor,
         FullyGuaranteed, StillHopeful, Recorded, Positions;
    DecideParts(db, d);
    DecisionIs(db, d);
    RecordedKeeps(db, d);
    var r, after := Recorded(db, d), Decide(db, d).value.db;
    TransitionProgress(r, d.loanId, NextStatus(db.guarantors[DecidedRow(db, d)], d));
    forall i | 0 <= i < |db.guarantors|
      ensures after.guarantors[i] == r.guarantors[i].(holdReleased := after.guarantors[i].holdReleased)
      ensures Rejects(db, d) && after.guarantors[i].loanId == d.loanId && InGroup(after.guarantors[i], AllAccepted)
        ==> after.guarantors[i].holdReleased
      ensures |after.guarantors| == |db.guarantors|
    {
      DecisionRow(db, d, i);
    }
    DecisionRow(db, d, DecidedRow(db, d));
    SameProgress(r, after, d.loanId);
  }

  // ---- What a decision rests on -------------------------------------------------------

  /** The account type that a product asks its guarantors for. */
  function CollateralType(product: Product): AccountType {
    match product.requiredAccountType
    case Some(accountType) => accountType
    case None => FOSA
  }

  /** The first row of the loan that the decision can mean: by member, or by row id or member. */
  ghost predicate FirstMeant(rows: seq<Guarantor>, d: Decision, i: nat) {
    i < |rows| && IsMeant(rows[i], d) && forall k :: 0 <= k < i ==> !IsMeant(rows[k], d)
  }

  predicate IsMeant(row: Guarantor, d: Decision) {
    row.loanId == d.loanId
    && (row.memberId == (if d.matcher.ByMember? then d.matcher.memberId else d.matcher.key)
        || (d.matcher.ByIdOrMember? && row.id == d.matcher.key))
  }

  lemma {:induction false} LockIsFirst(rows: seq<Guarantor>, d: Decision, from: nat)
    requires from <= |rows|
    ensures var found := LockGuarantor(rows, d.loanId, d.matcher, from);
      && (found.Some? ==> IsMeant(rows[found.value], d) && forall k :: from <= k < found.value ==> !IsMeant(rows[k], d))
      && (found.None? ==> forall k :: from <= k < |rows| ==> !IsMeant(rows[k], d))
    decreases |rows| - from
  {
    if from < |rows| && !Matches(rows[from], d.loanId, d.matcher) {
      LockIsFirst(rows, d, from + 1);
    }
  }

  /** In milliseconds. */
  const HOUR := 3600000

  /** The member is an active member with an active user and approved KYC, and has the amount free. */
  predicate MayGuarantee(db: Rows, row: Guarantor, accountType: AccountType) {
    var key := Key(row.memberId, accountType);
    && row.memberId in db.members && db.members[row.memberId] == Member(true, true, true)
    && key in db.accounts && db.accounts[key].isActive
    && 0 < row.amount <= db.accounts[key].balance - db.accounts[key].locked - db.accounts[key].frozen
  }

  /**
   Exactly when a decision goes through: a member who accepts has acknowledged the liability; the first
   row that is meant is pending; and if the answer is an accept that is in time, the guarantor may
   guarantee the amount from an account of the type that the product asks for.
   */
  lemma DecideSucceedsIff(db: Rows, d: Decision)
    requires Valid(db)
    ensures Decide(db, d).Success? <==>
      && (d.action == ACCEPT && d.source == MEMBER ==> d.acknowledged)
      && d.loanId in db.loans
      && (exists i: nat ::
            && FirstMeant(db.guarantors, d, i) && db.guarantors[i].status == GuarantorStatus.PENDING
            && (d.action == ACCEPT && d.source != SYSTEM_EXPIRY && d.now <= db.guarantors[i].invitedAt + 72 * HOUR ==>
                  MayGuarantee(db, db.guarantors[i], CollateralType(db.loans[d.loanId].product))))
  {
    LockIsFirst(db.guarantors, d, 0);
    var found := LockGuarantor(db.guarantors, d.loanId, d.matcher);
    if found.Some? && d.loanId in db.loans {
      RowDecides(db, d, found.value);
      assert FirstMeant(db.guarantors, d, found.value);
    }
    if i: nat :| FirstMeant(db.guarantors, d, i) {
      assert found == Some(i);
    }
    hide LockGuarantor, Valid, ApplyLoanState, AcceptRow, NextStatus, MayGuarantee;
  }

  /** Why exactly a decision is refused, by the first check that it fails. */
  lemma DecideRefusedFor(db: Rows, d: Decision, i: nat)
    requires Valid(db) && FirstMeant(db.guarantors, d, i)
    requires d.action == ACCEPT && d.source == MEMBER ==> d.acknowledged
    ensures var row, result := db.guarantors[i], Decide(db, d);
      var accepts := row.status == GuarantorStatus.PENDING
        && d.action == ACCEPT && d.source != SYSTEM_EXPIRY && d.now <= row.invitedAt + 72 * HOUR;
      var active := row.memberId in db.members && db.members[row.memberId].isActive
        && db.members[row.memberId].userActive;
      var allowed := accepts && active && db.members[row.memberId].kycApproved;
      && d.loanId in db.loans
      && (result == Failure(AlreadyDecided) <==> row.status != GuarantorStatus.PENDING)
      && (result == Failure(GuarantorNotActive) <==> accepts && !active)
      && (result == Failure(KycNotVerified) <==> accepts && active && !allowed)
      && var key := Key(row.memberId, CollateralType(db.loans[d.loanId].product));
        && (result == Failure(InvalidAmount) <==> allowed && row.amount <= 0)
        && (result == Failure(NoActiveAccount) <==>
              allowed && row.amount > 0 && !(key in db.accounts && db.accounts[key].isActive))
        && (result == Failure(InsufficientFunds) <==>
              allowed && row.amount > 0 && key in db.accounts && db.accounts[key].isActive
              && db.accounts[key].balance - db.accounts[key].locked - db.accounts[key].frozen < row.amount)
  {
    LockIsFirst(db.guarantors, d, 0);
    assert LockGuarantor(db.guarantors, d.loanId, d.matcher) == Some(i);
    assert db.guarantors[i].loanId in db.loans;
    RowDecides(db, d, i);
    hide LockGuarantor, Valid, ApplyLoanState, FirstMeant, IsMeant;
  }

  /** What the row found decides on: a transition never fails on sound rows. */
  lemma RowDecides(db: Rows, d: Decision, i: nat)
    requires Valid(db) && i < |db.guarantors| && db.guarantors[i].loanId == d.loanId && d.loanId in db.loans
    requires LockGuarantor(db.guarantors, d.loanId, d.matcher) == Some(i)
    ensures var row := db.guarantors[i];
      Decide(db, d).Success? <==>
        && (d.action == ACCEPT && d.source == MEMBER ==> d.acknowledged) && row.status == GuarantorStatus.PENDING
        && (d.action == ACCEPT && d.source != SYSTEM_EXPIRY && d.now <= row.invitedAt + 72 * HOUR ==>
              MayGuarantee(db, row, CollateralType(db.loans[d.loanId].product)))
  {
    var row := db.guarantors[i];
    var next := NextStatus(row, d);
    AcceptsIff(db, row);
    if next == GuarantorStatus.ACCEPTED ==> AcceptRow(db, row).Success? {
      var accounts := if next == GuarantorStatus.ACCEPTED then AcceptRow(db, row).value else db.accounts;
      var r := db.(accounts := accounts, guarantors := db.guarantors[i := row.(status := next)]);
      assert next == GuarantorStatus.ACCEPTED ==> row.amount > 0;
      assert AmountsOk(r.guarantors);
      TransitionIs(r, d.loanId, next);
    }
    hide LockGuarantor, Valid, ApplyLoanState, AcceptRow, MayGuarantee, AmountsOk;
  }

  lemma AcceptsIff(db: Rows, row: Guarantor)
    requires row.loanId in db.loans
    ensures AcceptRow(db, row).Success? <==> MayGuarantee(db, row, CollateralType(db.loans[row.loanId].product))
    ensures AcceptRow(db, row).Success? ==> row.amount > 0
  {
  }

  /**
   What an accepted answer rests on: the guarantor answered in time, acknowledged the liability unless
   an administrator answered for them, is an active member with approved KYC, and had the amount free.
   */
  lemma AcceptanceRestsOn(db: Rows, d: Decision)
    requires Decide(db, d).Success? && Decide(db, d).value.answer.status == GuarantorStatus.ACCEPTED
    ensures d.loanId in db.loans
    ensures var i := Decide(db, d).value.answer.guarantor;
      i < |db.guarantors| && var row := db.guarantors[i];
      && IsMeant(row, d) && row.status == GuarantorStatus.PENDING
      && d.action == ACCEPT && d.source != SYSTEM_EXPIRY && d.now <= row.invitedAt + 72 * HOUR
      && (d.source == MEMBER ==> d.acknowledged)
      && MayGuarantee(db, row, CollateralType(db.loans[d.loanId].product))
  {
    hide ApplyLoanState, LockGuarantor;
    DecideParts(db, d);
  }

  /** A decision that is recorded as expired came too late, and one that is recorded as declined did not. */
  lemma ExpiredIff(db: Rows, d: Decision)
    requires Decide(db, d).Success?
    ensures var answer := Decide(db, d).value.answer;
      answer.guarantor < |db.guarantors|
      && (answer.status == GuarantorStatus.EXPIRED <==>
            d.source == SYSTEM_EXPIRY || d.now > db.guarantors[answer.guarantor].invitedAt + 72 * HOUR)
      && (answer.status == GuarantorStatus.REJECTED ==> d.action == DECLINE)
  {
    hide ApplyLoanState, LockGuarantor;
    DecideParts(db, d);
  }

  // ---- Which accounts a decision touches ----------------------------------------------

  lemma {:induction false} ReleaseAllTouches(db: Rows, list: seq<nat>, key: Key)
    requires forall k :: 0 <= k < |list| ==> list[k] < |db.guarantors|
    requires forall k :: 0 <= k < |list| ==> KeyOf(db.loans, db.guarantors[list[k]]) != key
    requires Increasing(list)
    ensures key in ReleaseAll(db, list).accounts <==> key in db.accounts
    ensures key in db.accounts ==> ReleaseAll(db, list).accounts[key] == db.accounts[key]
  {
    if list != [] {
      var init, last := list[..|list| - 1], list[|list| - 1];
      ReleaseAllTouches(db, init, key);
      ReleasedRows(db, init, last);
      assert last !in init;
    }
  }

  /** The key belongs to a guarantor of the loan, and is of the type that the product asks for. */
  ghost predicate IsCollateral(db: Rows, d: Decision, key: Key)
    requires d.loanId in db.loans
  {
    && key.accountType == CollateralType(db.loans[d.loanId].product)
    && exists i :: 0 <= i < |db.guarantors| && db.guarantors[i].loanId == d.loanId
         && db.guarantors[i].memberId == key.memberId
  }

  lemma CollateralKey(db: Rows, d: Decision, row: Guarantor)
    requires d.loanId in db.loans && row.loanId == d.loanId
    ensures KeyOf(db.loans, row) == Key(row.memberId, CollateralType(db.loans[d.loanId].product))
  {
  }

  /**
   A decision holds or releases savings of the loan's own guarantors only, and only on accounts of the
   type that the product asks for; unless it rejects a loan that waits, it does just one thing: an accepted
   amount is added to what the account holds.
   */
  lemma DecisionTouchesOnly(db: Rows, d: Decision, key: Key)
    requires Valid(db) && Decide(db, d).Success?
    ensures d.loanId in db.loans && Decide(db, d).value.answer.guarantor < |db.guarantors|
    ensures var accounts', answer := Decide(db, d).value.db.accounts, Decide(db, d).value.answer;
      var row := db.guarantors[answer.guarantor];
      var rejects := db.loans[d.loanId].status == PENDING_GUARANTORS && answer.loanStatus == REJECTED_GUARANTOR_DECLINE;
      && (!IsCollateral(db, d, key) ==>
            (key in accounts' <==> key in db.accounts) && (key in db.accounts ==> accounts'[key] == db.accounts[key]))
      && (!rejects && answer.status == GuarantorStatus.ACCEPTED ==>
            var own := Key(row.memberId, CollateralType(db.loans[d.loanId].product));
            && own in db.accounts
            && accounts' == db.accounts[own := db.accounts[own].(frozen := db.accounts[own].frozen + row.amount)])
      && (!rejects && answer.status != GuarantorStatus.ACCEPTED ==> accounts' == db.accounts)
  {
    hide Decide, AcceptRow, NextStatus, Valid, ApplyLoanState, LockGuarantor, Positions, Slack, KeyOf, Matches;
    DecideParts(db, d);
    DecisionIs(db, d);
    RecordedKeeps(db, d);
    var r, i := Recorded(db, d), DecidedRow(db, d);
    var row := db.guarantors[i];
    assert row.loanId == d.loanId by {
      MeansLoan(row, d);
    }
    CollateralKey(db, d, row);
    AcceptedAccounts(db, row);
    if Rejects(db, d) && !IsCollateral(db, d, key) {
      AcceptedHolding(db, d);
      var list := Accepted(db, d);
      forall k | 0 <= k < |list|
        ensures KeyOf(r.loans, r.guarantors[list[k]]) != key
      {
        assert r.guarantors[list[k]].loanId == d.loanId == db.guarantors[list[k]].loanId;
        CollateralKey(r, d, r.guarantors[list[k]]);
      }
      ReleaseAllTouches(r, list, key);
    }
  }

  lemma MeansLoan(row: Guarantor, d: Decision)
    requires Matches(row, d.loanId, d.matcher)
    ensures row.loanId == d.loanId
  {
  }

  lemma AcceptedAccounts(db: Rows, row: Guarantor)
    ensures AcceptRow(db, row).Success? ==>
      var key := KeyOf(db.loans, row);
      && key in db.accounts
      && AcceptRow(db, row).value
           == db.accounts[key := db.accounts[key].(frozen := db.accounts[key].frozen + row.amount)]
  {
  }

  /**
   The coverage that a decision reports as missing, against the rows it leaves: the shortfall to the
   nearest unit, zero when the loan is covered, and nothing for a loan that was not waiting.
   */
  lemma ReportedCoverage(db: Rows, d: Decision)
    requires Valid(db) && Decide(db, d).Success?
    ensures d.loanId in db.loans
    ensures var after, reported := Decide(db, d).value.db, Decide(db, d).value.answer.remainingCoverage;
      var loan := db.loans[d.loanId];
      var shortfall := loan.principal as real * loan.product.coverageRatio
                       - Guaranteed(after.guarantors, d.loanId) as real;
      && (reported.Some? <==> db.loans[d.loanId].status == PENDING_GUARANTORS)
      && (reported.Some? ==> reported.value >= 0 && (shortfall <= 0.0 ==> reported.value == 0))
      && (reported.Some? && shortfall > 0.0 ==> -0.5 <= reported.value as real - shortfall <= 0.5)
  {
    hide Decide, AcceptRow, NextStatus, Valid, ApplyLoanState, LockGuarantor, Recorded, Positions, TotalAccepted,
         Guaranteed;
    DecideParts(db, d);
    RecordedKeeps(db, d);
    var r, after := Recorded(db, d), Decide(db, d).value.db;
    TransitionReports(r, d.loanId, NextStatus(db.guarantors[DecidedRow(db, d)], d));
    DecisionRow(db, d, DecidedRow(db, d));
    forall i | 0 <= i < |db.guarantors|
      ensures after.guarantors[i] == r.guarantors[i].(holdReleased := after.guarantors[i].holdReleased)
    {
      DecisionRow(db, d, i);
    }
    SameTotals(r.guarantors, after.guarantors, d.loanId);
    TotalIsGuaranteed(r.guarantors, d.loanId);
  }

  lemma TransitionReports(r: Rows, loanId: string, latest: GuarantorStatus)
    requires AmountsOk(r.guarantors) && loanId in r.loans
    ensures var t := ApplyLoanState(r, loanId, r.loans[loanId], latest);
      var shortfall := RequiredCoverage(r.loans[loanId]) - TotalAccepted(r.guarantors, loanId) as real;
      && t.Success? && (t.value.remainingCoverage.Some? <==> r.loans[loanId].status == PENDING_GUARANTORS)
      && (t.value.remainingCoverage.Some? ==>
            t.value.remainingCoverage.value == Round(if shortfall > 0.0 then shortfall else 0.0))
  {
    hide TotalAccepted, Round, RequiredCoverage, Positions, ReleaseAll, ReleaseAcceptedHolds, AmountsOk, Count;
    ReleasesSucceed(r, loanId);
    RoundOfUnits(0);
  }

  // ---- Stranded guarantees ------------------------------------------------------------

  predicate IsRejected(loan: Loan) {
    loan.status == LoanStatus.REJECTED || loan.status == REJECTED_GUARANTOR_DECLINE
  }

  /** An accepted guarantee that still holds savings for a loan that has been rejected. */
  predicate Stranded(db: Rows, i: nat) {
    && i < |db.guarantors| && Unreleased(db.guarantors[i])
    && db.guarantors[i].loanId in db.loans && IsRejected(db.loans[db.guarantors[i].loanId])
  }

  /**
   Exactly which guarantees a decision strands: the one just accepted, when its loan had been
   rejected before.
   */
  lemma DecisionStrandsRow(db: Rows, d: Decision, i: nat)
    requires Valid(db) && Decide(db, d).Success?
    ensures d.loanId in db.loans
    ensures Stranded(Decide(db, d).value.db, i) <==>
      Stranded(db, i) || (i == Decide(db, d).value.answer.guarantor
                          && Decide(db, d).value.answer.status == GuarantorStatus.ACCEPTED
                          && IsRejected(db.loans[d.loanId]))
  {
    hide Decide, AcceptRow, NextStatus, ApplyLoanState, LockGuarantor, Positions;
    DecideParts(db, d);
    DecisionIs(db, d);
    RecordedKeeps(db, d);
    if db.loans[d.loanId].status == PENDING_GUARANTORS {
      LoanProgress(db, d);
    }
    if i < |db.guarantors| {
      DecisionRow(db, d, i);
    } else {
      DecisionRow(db, d, DecidedRow(db, d));
    }
  }
}
