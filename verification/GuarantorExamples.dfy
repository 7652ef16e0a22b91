/**
 Concrete runs in which held savings end up where callers might not expect them. The exact conditions
 are `DecisionStrandsRow` and `HoldConservation`.
 */
module GuarantorExamples {
  import opened Decimals
  import opened Outcomes
  import opened GuarantorModel
  import opened GuarantorHolds
  import opened GuarantorDecisions

  const PRODUCT := Product(1, 3, 1.0, None)

  function Invited(memberId: string, invitedAt: int): Guarantor {
    Guarantor("g-" + memberId, "loan", memberId, GuarantorStatus.PENDING, 100, invitedAt, false)
  }

  /** A loan that waits for the guarantors A and B, B invited an hour after A. */
  function Waiting(): Rows {
    Rows(map["loan" := Loan(PENDING_GUARANTORS, 150, PRODUCT)],
         [Invited("A", 0), Invited("B", 3600000)],
         map[Key("A", FOSA) := Account(true, 1000, 0, 0), Key("B", FOSA) := Account(true, 1000, 0, 0)],
         map["A" := Member(true, true, true), "B" := Member(true, true, true)])
  }

  function Accept(memberId: string, now: int): Decision {
    Decision("loan", ByMember(memberId), ACCEPT, true, MEMBER, now)
  }

  lemma TwoRows(rows: seq<Guarantor>, group: Group)
    requires |rows| == 2 && rows[0].loanId == rows[1].loanId == "loan"
    ensures Positions(rows, "loan", group)
         == (if InGroup(rows[0], group) then [0] else []) + (if InGroup(rows[1], group) then [1] else [])
  {
    var first := rows[..1];
    assert Positions(first, "loan", group)
        == Positions(first[..0], "loan", group) + (if InGroup(rows[0], group) then [0] else []);
    assert Positions(first[..0], "loan", group) == [];
  }

  lemma TwoTotals(rows: seq<Guarantor>, db: Rows, key: Key)
    requires |rows| == 2 && rows[0].loanId == rows[1].loanId == "loan"
    ensures TotalAccepted(rows, "loan")
         == (if InGroup(rows[0], AllAccepted) then rows[0].amount else 0)
            + (if InGroup(rows[1], AllAccepted) then rows[1].amount else 0)
    ensures Committed(db.loans, rows, key)
         == Contribution(db.loans, rows[0], key) + Contribution(db.loans, rows[1], key)
  {
    var first := rows[..1];
    assert TotalAccepted(first[..0], "loan") == 0 == Committed(db.loans, first[..0], key);
    assert TotalAccepted(first, "loan") == if InGroup(rows[0], AllAccepted) then rows[0].amount else 0;
    assert Committed(db.loans, first, key) == Contribution(db.loans, rows[0], key);
  }

  /** How the loan moves when one of its two guarantors has just answered and the other is still to answer. */
  lemma OneStillPending(db: Rows, latest: GuarantorStatus)
    requires |db.guarantors| == 2 && db.guarantors[0].loanId == db.guarantors[1].loanId == "loan"
    requires db.guarantors[0].status == latest && db.guarantors[1].status == GuarantorStatus.PENDING
    requires "loan" in db.loans && db.loans["loan"].status == PENDING_GUARANTORS
    requires latest == GuarantorStatus.ACCEPTED || latest == GuarantorStatus.EXPIRED
    ensures var t, loan := ApplyLoanState(db, "loan", db.loans["loan"], latest), db.loans["loan"];
      && t.Success?
      && t.value.db == if latest == GuarantorStatus.ACCEPTED then db
                       else db.(loans := db.loans["loan" := loan.(status := REJECTED_GUARANTOR_DECLINE)])
  {
    TwoRows(db.guarantors, AllPending);
    TwoRows(db.guarantors, Holding);
    if latest == GuarantorStatus.EXPIRED {
      NothingToRelease(db);
    }
    assert Count(db.guarantors, "loan", AllPending) > 0;
    hide Positions, TotalAccepted, Round, RequiredCoverage, ReleaseAcceptedHolds, Max, Count;
  }

  lemma NothingToRelease(db: Rows)
    requires Positions(db.guarantors, "loan", Holding) == []
    ensures ReleaseAcceptedHolds(db, "loan") == Success(db)
  {
  }

  /** A answers a second too late, which rejects the loan while B is still to answer. */
  function TooLate(): Rows {
    Waiting().(loans := map["loan" := Loan(REJECTED_GUARANTOR_DECLINE, 150, PRODUCT)],
               guarantors := [Invited("A", 0).(status := GuarantorStatus.EXPIRED), Invited("B", 3600000)])
  }

  lemma LateAnswerRejects()
    ensures Decide(Waiting(), Accept("A", CONSENT_WINDOW + 1000)).Success?
    ensures Decide(Waiting(), Accept("A", CONSENT_WINDOW + 1000)).value.db == TooLate()
  {
    hide ApplyLoanState;
    assert LockGuarantor(Waiting().guarantors, "loan", ByMember("A")) == Some(0);
    var recorded := Waiting().(guarantors := TooLate().guarantors);
    assert recorded.guarantors == Waiting().guarantors[0 := Invited("A", 0).(status := GuarantorStatus.EXPIRED)];
    OneStillPending(recorded, GuarantorStatus.EXPIRED);
    assert recorded.loans["loan" := Loan(REJECTED_GUARANTOR_DECLINE, 150, PRODUCT)] == TooLate().loans;
  }

  /** B, who is in time, then still has savings held, for a loan that has been rejected. */
  lemma AcceptAfterRejectionStrands()
    ensures var result := Decide(TooLate(), Accept("B", CONSENT_WINDOW + 1000));
      && result.Success? && result.value.answer.loanStatus == REJECTED_GUARANTOR_DECLINE
      && Stranded(result.value.db, 1) && Frozen(result.value.db.accounts, Key("B", FOSA)) == 100
  {
    assert LockGuarantor(TooLate().guarantors, "loan", ByMember("B"), 1) == Some(1);
    assert LockGuarantor(TooLate().guarantors, "loan", ByMember("B")) == Some(1);
  }

  /** A has accepted, with a hold of 100 placed. */
  function Holds(): Rows {
    Waiting().(guarantors := [Invited("A", 0).(status := GuarantorStatus.ACCEPTED), Invited("B", 3600000)],
               accounts := map[Key("A", FOSA) := Account(true, 1000, 0, 100),
                              Key("B", FOSA) := Account(true, 1000, 0, 0)])
  }

  lemma AcceptHolds()
    ensures Decide(Waiting(), Accept("A", 0)).Success? && Decide(Waiting(), Accept("A", 0)).value.db == Holds()
  {
    hide ApplyLoanState;
    assert LockGuarantor(Waiting().guarantors, "loan", ByMember("A")) == Some(0);
    assert Holds().accounts == Waiting().accounts[Key("A", FOSA) := Account(true, 1000, 0, 100)];
    assert Holds().guarantors == Waiting().guarantors[0 := Invited("A", 0).(status := GuarantorStatus.ACCEPTED)];
    OneStillPending(Holds(), GuarantorStatus.ACCEPTED);
  }

  /** A guarantor who has accepted and is invited and accepts again is held twice for one guarantee. */
  lemma SecondInvitationHoldsTwice()
    ensures Decide(Waiting(), Accept("A", 0)).Success? && Decide(Waiting(), Accept("A", 0)).value.db == Holds()
    ensures Invite(Holds(), "", "loan", "A", 100, 1).Success?
    ensures var again := Decide(Invite(Holds(), "", "loan", "A", 100, 1).value, Accept("A", 1));
      && again.Success? && Frozen(again.value.db.accounts, Key("A", FOSA)) == 200
      && Committed(again.value.db.loans, again.value.db.guarantors, Key("A", FOSA)) == 100
  {
    AcceptHolds();
    hide ApplyLoanState, Committed;
    assert LockGuarantor(Holds().guarantors, "loan", ByMember("A")) == Some(0);
    var invited := Holds().(guarantors := [Invited("A", 1), Invited("B", 3600000)]);
    assert Invite(Holds(), "", "loan", "A", 100, 1).value == invited;
    assert LockGuarantor(invited.guarantors, "loan", ByMember("A")) == Some(0);
    var rows := [Invited("A", 1).(status := GuarantorStatus.ACCEPTED), Invited("B", 3600000)];
    assert rows == invited.guarantors[0 := Invited("A", 1).(status := GuarantorStatus.ACCEPTED)];
    var recorded := invited.(accounts := Holds().accounts[Key("A", FOSA) := Account(true, 1000, 0, 200)],
                             guarantors := rows);
    OneStillPending(recorded, GuarantorStatus.ACCEPTED);
    assert Decide(invited, Accept("A", 1)).value.db == recorded;
    TwoTotals(rows, recorded, Key("A", FOSA));
  }

  /** A has accepted, and A's account has been deactivated since. */
  function Deactivated(): Rows {
    Holds().(accounts := map[Key("A", FOSA) := Account(false, 1000, 0, 100),
                             Key("B", FOSA) := Account(true, 1000, 0, 0)])
  }

  /**
   B answers too late, which rejects the loan. A's row is marked as released, but the release found no
   active account, and the savings stay held for nothing.
   */
  lemma InactiveAccountStaysHeld()
    ensures var result := Decide(Deactivated(), Accept("B", 3600000 + CONSENT_WINDOW + 1000));
      && result.Success? && result.value.answer.loanStatus == REJECTED_GUARANTOR_DECLINE
      && result.value.db.guarantors[0].holdReleased && Frozen(result.value.db.accounts, Key("A", FOSA)) == 100
      && Committed(result.value.db.loans, result.value.db.guarantors, Key("A", FOSA)) == 0
  {
    var db, d := Deactivated(), Accept("B", 3600000 + CONSENT_WINDOW + 1000);
    assert LockGuarantor(db.guarantors, "loan", ByMember("B"), 1) == Some(1);
    assert LockGuarantor(db.guarantors, "loan", ByMember("B")) == Some(1);
    var recorded := db.(guarantors := db.guarantors[1 := Invited("B", 3600000).(status := GuarantorStatus.EXPIRED)]);
    LateSecondAnswer(recorded);
    NothingFreed(recorded);
    hide ApplyLoanState, Committed, LockGuarantor, ReleaseRow;
  }

  lemma NothingFreed(db: Rows)
    requires |db.guarantors| == 2 && db.guarantors[0] == Invited("A", 0).(status := GuarantorStatus.ACCEPTED)
    requires db.guarantors[1] == Invited("B", 3600000).(status := GuarantorStatus.EXPIRED)
    requires db.accounts == Deactivated().accounts && db.loans == Waiting().loans
    ensures var rows := ReleaseRow(db, 0);
      rows.guarantors[0].holdReleased && Frozen(rows.accounts, Key("A", FOSA)) == 100
      && forall loans :: Committed(loans, rows.guarantors, Key("A", FOSA)) == 0
  {
    var rows := ReleaseRow(db, 0);
    forall loans
      ensures Committed(loans, rows.guarantors, Key("A", FOSA)) == 0
    {
      TwoTotals(rows.guarantors, db.(loans := loans), Key("A", FOSA));
    }
  }

  /** A late second answer rejects the loan and releases the first guarantor, who had accepted. */
  lemma LateSecondAnswer(db: Rows)
    requires |db.guarantors| == 2 && db.guarantors[0].loanId == db.guarantors[1].loanId == "loan"
    requires Unreleased(db.guarantors[0]) && 0 < db.guarantors[0].amount < 150
    requires db.guarantors[1].status == GuarantorStatus.EXPIRED
    requires "loan" in db.loans && db.loans["loan"] == Loan(PENDING_GUARANTORS, 150, PRODUCT)
    ensures var t := ApplyLoanState(db, "loan", db.loans["loan"], GuarantorStatus.EXPIRED);
      && t.Success? && t.value.loanStatus == REJECTED_GUARANTOR_DECLINE
      && t.value.db
           == ReleaseRow(db, 0).(
                loans := db.loans["loan" := db.loans["loan"].(status := REJECTED_GUARANTOR_DECLINE)])
  {
    TwoTotals(db.guarantors, db, Key("A", FOSA));
    TwoRows(db.guarantors, Holding);
    assert ReleaseAll(db, [0]) == ReleaseRow(ReleaseAll(db, [0][..0]), 0);
    assert ReleaseAcceptedHolds(db, "loan") == Success(ReleaseRow(db, 0));
    hide Positions, TotalAccepted, Round, ReleaseAcceptedHolds, ReleaseRow, Max, Count;
  }

  // ---- Coverage -----------------------------------------------------------------------

  /** A loan of KES 100 whose product asks for one and a half times its principal, with one guarantor for KES 100. */
  function Undercovered(): Rows {
    Rows(map["loan" := Loan(PENDING_GUARANTORS, 1000000, Product(1, 3, 1.5, None))],
         [Guarantor("g-A", "loan", "A", GuarantorStatus.PENDING, 1000000, 0, false)],
         map[Key("A", FOSA) := Account(true, 2000000, 0, 0)],
         map["A" := Member(true, true, true)])
  }

  lemma UndercoveredIsSound()
    ensures Valid(Undercovered())
  {
    var db := Undercovered();
    forall key
      ensures Slack(db, key) >= 0
    {
      assert db.guarantors[..0] == [];
      assert Committed(db.loans, db.guarantors, key)
          == Committed(db.loans, db.guarantors[..0], key) + Contribution(db.loans, db.guarantors[0], key);
    }
  }

  lemma OnlyGuarantorAccepts()
    ensures Decide(Undercovered(), Accept("A", 0)).Success?
    ensures var rows := Decide(Undercovered(), Accept("A", 0)).value.db.guarantors;
      |rows| == 1 && rows[0].loanId == "loan" && rows[0].status == GuarantorStatus.ACCEPTED && rows[0].amount == 1000000
  {
    hide Decide, LockGuarantor, Valid, Rejects;
    var db, d := Undercovered(), Accept("A", 0);
    UndercoveredIsSound();
    assert FirstMeant(db.guarantors, d, 0);
    DecideSucceedsIff(db, d);
    DecideParts(db, d);
    DecisionRow(db, d, 0);
  }

  /** The only guarantor accepts for the whole principal, and the loan is rejected with half of it missing. */
  lemma UndercoveredIsRejected()
    ensures var result := Decide(Undercovered(), Accept("A", 0));
      && result.Success? && result.value.answer.loanStatus == REJECTED_GUARANTOR_DECLINE
      && result.value.answer.remainingCoverage == Some(500000)
  {
    hide Decide, Valid, AcceptedRows;
    var db, d := Undercovered(), Accept("A", 0);
    UndercoveredIsSound();
    OnlyGuarantorAccepts();
    OneGuarantees(Decide(db, d).value.db.guarantors);
    LoanProgress(db, d);
    ReportedCoverage(db, d);
    var after := Decide(db, d).value.db;
    assert after.loans["loan"].product == Product(1, 3, 1.5, None) && after.loans["loan"].principal == 1000000;
    assert !FullyGuaranteed(after, "loan") && !StillHopeful(after, "loan");
  }

  lemma OneGuarantees(rows: seq<Guarantor>)
    requires |rows| == 1 && rows[0].loanId == "loan"
    ensures Guaranteed(rows, "loan") == if rows[0].status == GuarantorStatus.ACCEPTED then rows[0].amount else 0
  {
    assert Guaranteed(rows[1..], "loan") == 0;
  }
}
