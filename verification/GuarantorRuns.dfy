/**
 Runs of decisions, invitations and remediations, with anything other services may do in between:
 the pool of held savings over a whole run, and the life of one guarantor row.
 */
module GuarantorRuns {
  import opened Outcomes
  import opened GuarantorModel
  import opened GuarantorHolds
  import opened GuarantorDecisions
  import opened Remediation

  datatype Op =
    | Respond(decision: Decision)
    | Nominate(id: string, loanId: string, memberId: string, amount: int, now: int)
    | Remedy(dryRun: bool, failing: set<nat>)
    | External(loans: map<string, Loan>, accounts: map<Key, Account>, members: map<string, Member>)

  /**
   What other services may do: open loans and accounts, move money, deactivate accounts and members,
   move loans on. They touch no hold, do not change a loan's account type, and never reopen a loan.
   */
  ghost predicate LeavesHolds(db: Rows, op: Op)
    requires op.External?
  {
    && (forall id :: id in db.loans ==>
          && id in op.loans && ResolveAccountType(op.loans[id].product) == ResolveAccountType(db.loans[id].product)
          && (Open(op.loans[id]) ==> Open(db.loans[id])))
    && (forall key :: Frozen(op.accounts, key) == Frozen(db.accounts, key))
  }

  /** One call; a call that fails commits nothing. */
  ghost function Step(db: Rows, op: Op): Rows {
    match op
    case Respond(d) => if Decide(db, d).Success? then Decide(db, d).value.db else db
    case Nominate(id, loanId, memberId, amount, now) =>
      (match Invite(db, id, loanId, memberId, amount, now)
       case Success(rows) => rows
       case Failure(_) => db)
    case Remedy(dryRun, failing) => Remediate(db, dryRun, failing).db
    case External(loans, accounts, members) =>
      if LeavesHolds(db, op) then Rows(loans, db.guarantors, accounts, members) else db
  }

  ghost function Run(db: Rows, ops: seq<Op>): Rows {
    if ops == [] then db else Step(Run(db, ops[..|ops| - 1]), ops[|ops| - 1])
  }

  // ---- One step -----------------------------------------------------------------------

  /** A member whose accepted guarantee still holds savings is invited again for the same loan. */
  ghost predicate InvitesHolder(db: Rows, op: Op, key: Key)
    requires op.Nominate?
  {
    && op.loanId in db.loans && Open(db.loans[op.loanId])
    && var found := LockGuarantor(db.guarantors, op.loanId, ByMember(op.memberId));
      found.Some? && Unreleased(db.guarantors[found.value]) && KeyOf(db.loans, db.guarantors[found.value]) == key
  }

  /** The step leaves savings held on this account that no guarantee counts on any more. */
  ghost predicate StepStrands(db: Rows, op: Op, key: Key) {
    match op
    case Respond(d) => Strands(db, d, key)
    case Nominate(_, _, _, _, _) => InvitesHolder(db, op, key)
    case Remedy(_, _) => false
    case External(_, _, _) => false
  }

  lemma InviteSlack(db: Rows, op: Op, key: Key)
    requires Valid(db) && op.Nominate?
    ensures Slack(Step(db, op), key) >= Slack(db, key)
    ensures Slack(Step(db, op), key) == Slack(db, key) <==> !StepStrands(db, op, key)
  {
    hide LockGuarantor, Backed, LoansOk, ReleasesFinal, Slack, Committed;
    if op.loanId in db.loans && Open(db.loans[op.loanId]) {
      match LockGuarantor(db.guarantors, op.loanId, ByMember(op.memberId))
      case Some(i) => PendingSlack(db, i, op.amount, op.now, key);
      case None => AppendedSlack(db, Step(db, op).guarantors[|db.guarantors|], key);
    }
  }

  /** A row that is put back to PENDING gives up what it counted for. */
  lemma PendingSlack(db: Rows, i: nat, amount: int, now: int, key: Key)
    requires AmountsOk(db.guarantors) && i < |db.guarantors|
    ensures var row := db.guarantors[i].(status := GuarantorStatus.PENDING, amount := amount, invitedAt := now);
      Slack(db.(guarantors := db.guarantors[i := row]), key)
        == Slack(db, key) + Contribution(db.loans, db.guarantors[i], key)
    ensures Unreleased(db.guarantors[i]) ==> db.guarantors[i].amount > 0
  {
    var row := db.guarantors[i].(status := GuarantorStatus.PENDING, amount := amount, invitedAt := now);
    CommittedUpdate(db.loans, db.guarantors, i, row, key);
    assert Unreleased(db.guarantors[i]) ==> InGroup(db.guarantors[i], AllAccepted);
  }

  lemma AppendedSlack(db: Rows, row: Guarantor, key: Key)
    requires !Unreleased(row)
    ensures Slack(db.(guarantors := db.guarantors + [row]), key) == Slack(db, key)
  {
    assert (db.guarantors + [row])[..|db.guarantors|] == db.guarantors;
  }

  /** Backing never falls, and the pool stays exactly matched unless the step strands a hold. */
  lemma StepSlack(db: Rows, op: Op, key: Key)
    requires Valid(db)
    ensures Slack(Step(db, op), key) >= Slack(db, key)
    ensures Slack(Step(db, op), key) == Slack(db, key) <==> !StepStrands(db, op, key)
  {
    hide Strands, Valid, Slack, Decide, Remediate, Invite, InvitesHolder;
    match op
    case Respond(d) =>
      if Decide(db, d).Success? {
        DecisionSlack(db, d, key);
      } else {
        FailureStrandsNothing(db, d, key);
      }
    case Nominate(_, _, _, _, _) => InviteSlack(db, op, key);
    case Remedy(dryRun, failing) => RemedySlack(db, dryRun, failing, key);
    case External(_, _, _) => ExternalSlack(db, op, key);
  }

  lemma FailureStrandsNothing(db: Rows, d: Decision, key: Key)
    requires Decide(db, d).Failure?
    ensures !Strands(db, d, key)
  {
  }

  lemma ExternalSlack(db: Rows, op: Op, key: Key)
    requires Valid(db) && op.External?
    ensures Slack(Step(db, op), key) == Slack(db, key)
  {
    if LeavesHolds(db, op) {
      CommittedSameTypes(db.loans, op.loans, db.guarantors, key);
    }
  }

  lemma RemedySlack(db: Rows, dryRun: bool, failing: set<nat>, key: Key)
    requires Valid(db)
    ensures Slack(Remediate(db, dryRun, failing).db, key) == Slack(db, key)
  {
    if dryRun {
      DryRunChangesNothing(db, failing);
    } else {
      ReleasesInFull(db, failing, key);
    }
  }

  // ---- The life of a row --------------------------------------------------------------

  /** How a row may change in one step. */
  predicate RowMoves(row: Guarantor, row': Guarantor) {
    && row'.loanId == row.loanId && row'.memberId == row.memberId && (row.holdReleased ==> row'.holdReleased)
    && (row'.status == row.status
        || (row.status == GuarantorStatus.PENDING
            && row'.status in {GuarantorStatus.ACCEPTED, GuarantorStatus.REJECTED, GuarantorStatus.EXPIRED})
        || (row'.status == GuarantorStatus.PENDING && !row'.holdReleased)
        || (Unreleased(row) && row'.status == GuarantorStatus.RELEASED && row'.holdReleased))
    && (row'.holdReleased && !row.holdReleased ==> row'.status in {GuarantorStatus.ACCEPTED, GuarantorStatus.RELEASED})
    && (row'.status == GuarantorStatus.ACCEPTED && !InGroup(row, AllAccepted) ==> row'.amount > 0)
    && (row'.amount == row.amount || row'.status == GuarantorStatus.PENDING)
  }

  lemma DecisionMoves(db: Rows, d: Decision, i: nat)
    requires Valid(db) && Decide(db, d).Success? && i < |db.guarantors|
    ensures |Decide(db, d).value.db.guarantors| == |db.guarantors|
    ensures RowMoves(db.guarantors[i], Decide(db, d).value.db.guarantors[i])
  {
    hide Decide, ApplyLoanState, LockGuarantor, Positions;
    DecideParts(db, d);
    DecisionRow(db, d, i);
    assert db.guarantors[i].holdReleased ==> db.guarantors[i].status != GuarantorStatus.PENDING;
  }

  lemma StepMoves(db: Rows, op: Op, i: nat)
    requires Valid(db) && i < |db.guarantors|
    ensures i < |Step(db, op).guarantors| && RowMoves(db.guarantors[i], Step(db, op).guarantors[i])
  {
    match op
    case Respond(d) =>
      if Decide(db, d).Success? {
        DecisionMoves(db, d, i);
      }
    case Nominate(_, loanId, memberId, _, _) =>
      assert db.guarantors[i].holdReleased ==> !Open(db.loans[db.guarantors[i].loanId]);
    case Remedy(dryRun, failing) =>
      var list := Candidates(db, |db.guarantors|);
      SweepRow(Progress(db, Stats(|list|, 0, 0, 0, 0), []), list, dryRun, failing, i);
    case External(_, _, _) =>
  }

  lemma RemedyKeepsRows(db: Rows, op: Op)
    requires Valid(db) && op.Remedy?
    ensures var db' := Step(db, op);
      LoansOk(db'.loans, db'.guarantors) && AmountsOk(db'.guarantors) && ReleasesFinal(db')
  {
    var list, db' := Candidates(db, |db.guarantors|), Step(db, op);
    var p := Progress(db, Stats(|list|, 0, 0, 0, 0), []);
    forall i | 0 <= i < |db'.guarantors|
      ensures db'.guarantors[i].loanId in db'.loans
      ensures InGroup(db'.guarantors[i], AllAccepted) ==> db'.guarantors[i].amount > 0
      ensures db'.guarantors[i].holdReleased ==>
        && db'.guarantors[i].status in {GuarantorStatus.ACCEPTED, GuarantorStatus.RELEASED}
        && !Open(db'.loans[db'.guarantors[i].loanId])
    {
      SweepRow(p, list, op.dryRun, op.failing, i);
      assert db.guarantors[i].loanId in db.loans;
      if Handled(list, op.dryRun, op.failing, i) {
        assert Stranded(db, i);
      }
    }
  }

  /** Every step keeps the rows sound. */
  lemma StepKeepsValid(db: Rows, op: Op)
    requires Valid(db)
    ensures Valid(Step(db, op))
  {
    hide Slack, Decide, Remediate, StepStrands;
    forall key
      ensures Slack(Step(db, op), key) >= 0
    {
      StepSlack(db, op, key);
      assert Slack(db, key) >= 0;
    }
    match op
    case Respond(d) =>
      if Decide(db, d).Success? {
        DecisionKeepsValid(db, d);
      }
    case Nominate(_, _, _, _, _) =>
    case Remedy(_, _) => RemedyKeepsRows(db, op);
    case External(_, _, _) =>
  }

  lemma {:induction false} RunKeepsValid(db: Rows, ops: seq<Op>)
    requires Valid(db)
    ensures Valid(Run(db, ops))
  {
    if ops != [] {
      RunKeepsValid(db, ops[..|ops| - 1]);
      StepKeepsValid(Run(db, ops[..|ops| - 1]), ops[|ops| - 1]);
    }
  }

  // ---- Hold conservation --------------------------------------------------------------

  /** No guarantees yet, and nothing held for any. */
  ghost predicate Opening(db: Rows) {
    db.guarantors == [] && forall key :: Frozen(db.accounts, key) == 0
  }

  /** No step of the run strands a hold on this account. */
  ghost predicate NothingStranded(db: Rows, ops: seq<Op>, key: Key) {
    forall k :: 0 <= k < |ops| ==> !StepStrands(Run(db, ops[..k]), ops[k], key)
  }

  lemma OneMoreStep(db: Rows, ops: seq<Op>, op: Op, key: Key)
    ensures Run(db, ops + [op]) == Step(Run(db, ops), op)
    ensures NothingStranded(db, ops + [op], key)
       <==> NothingStranded(db, ops, key) && !StepStrands(Run(db, ops), op, key)
  {
    hide StepStrands, Step;
    var all := ops + [op];
    assert all[..|ops|] == ops;
    forall k | 0 <= k < |ops|
      ensures all[..k] == ops[..k] && all[k] == ops[k]
    {
    }
  }

  lemma {:induction false} SlackOverRun(db: Rows, ops: seq<Op>, key: Key)
    requires Valid(db)
    ensures Slack(Run(db, ops), key) >= Slack(db, key)
    ensures Slack(Run(db, ops), key) == Slack(db, key) <==> NothingStranded(db, ops, key)
  {
    if ops != [] {
      hide Slack, Valid, StepStrands, Step, Run, NothingStranded;
      var init, op := ops[..|ops| - 1], ops[|ops| - 1];
      assert ops == init + [op];
      SlackOverRun(db, init, key);
      RunKeepsValid(db, init);
      StepSlack(Run(db, init), op, key);
      OneMoreStep(db, init, op, key);
    }
  }

  /**
   Hold conservation. Over every run, what an account holds is at least the sum of the amounts that
   its accepted and unreleased guarantees count on; and it is exactly that sum if and only if no
   step of the run rejected a loan while such a guarantor had no active account, or invited such a
   guarantor again.
   */
  lemma HoldConservation(db: Rows, ops: seq<Op>, key: Key)
    requires Opening(db)
    ensures var db' := Run(db, ops);
      && Frozen(db'.accounts, key) >= Committed(db'.loans, db'.guarantors, key) >= 0
      && (Frozen(db'.accounts, key) == Committed(db'.loans, db'.guarantors, key) <==> NothingStranded(db, ops, key))
  {
    assert Valid(db);
    SlackOverRun(db, ops, key);
    RunKeepsValid(db, ops);
    var db' := Run(db, ops);
    CommittedBound(db'.loans, db'.guarantors, |db'.guarantors|, key);
  }

  // ---- At most one hold per invitation ------------------------------------------------

  ghost predicate PlacesHold(db: Rows, op: Op, i: nat) {
    && i < |db.guarantors| && i < |Step(db, op).guarantors|
    && db.guarantors[i].status == GuarantorStatus.PENDING
    && Step(db, op).guarantors[i].status == GuarantorStatus.ACCEPTED
  }

  ghost predicate ReleasesHold(db: Rows, op: Op, i: nat) {
    && i < |db.guarantors| && i < |Step(db, op).guarantors|
    && !db.guarantors[i].holdReleased && Step(db, op).guarantors[i].holdReleased
  }

  ghost predicate InvitesAgain(db: Rows, op: Op, i: nat) {
    && i < |db.guarantors| && i < |Step(db, op).guarantors|
    && db.guarantors[i].status != GuarantorStatus.PENDING
    && Step(db, op).guarantors[i].status == GuarantorStatus.PENDING
  }

  datatype Event = Placed | ReleasedHold | InvitedAgain

  ghost predicate Happens(db: Rows, op: Op, i: nat, event: Event) {
    match event
    case Placed => PlacesHold(db, op, i)
    case ReleasedHold => ReleasesHold(db, op, i)
    case InvitedAgain => InvitesAgain(db, op, i)
  }

  /** How often something happens to row i in a run. */
  ghost function Times(db: Rows, ops: seq<Op>, i: nat, event: Event): nat {
    if ops == [] then 0
    else
      var init := ops[..|ops| - 1];
      Times(db, init, i, event) + (if Happens(Run(db, init), ops[|ops| - 1], i, event) then 1 else 0)
  }

  lemma NewRowsPend(db: Rows, op: Op, i: nat)
    requires |db.guarantors| <= i < |Step(db, op).guarantors| && Valid(db)
    ensures Step(db, op).guarantors[i].status == GuarantorStatus.PENDING && !Step(db, op).guarantors[i].holdReleased
  {
    match op
    case Respond(d) =>
      if Decide(db, d).Success? {
        DecisionRow(db, d, DecidedRow(db, d));
      }
    case Nominate(_, _, _, _, _) =>
    case Remedy(_, _) =>
    case External(_, _, _) =>
  }

  lemma {:induction false} RowLife(db: Rows, ops: seq<Op>, i: nat)
    requires Opening(db)
    ensures var rows := Run(db, ops).guarantors;
      var placed, released := Times(db, ops, i, Placed), Times(db, ops, i, ReleasedHold);
      var again := Times(db, ops, i, InvitedAgain);
      if i < |rows| then
        && placed + (if rows[i].status == GuarantorStatus.PENDING then 1 else 0) <= 1 + again
        && released == (if rows[i].holdReleased then 1 else 0)
        && (rows[i].status in {GuarantorStatus.ACCEPTED, GuarantorStatus.RELEASED} || rows[i].holdReleased ==>
              placed >= 1)
      else placed == released == again == 0
  {
    hide Valid, Step, Opening;
    if ops == [] {
      OpeningIsEmpty(db);
    } else {
      var init, op := ops[..|ops| - 1], ops[|ops| - 1];
      RowLife(db, init, i);
      OpeningIsEmpty(db);
      RunKeepsValid(db, init);
      var before := Run(db, init);
      assert Run(db, ops) == Step(before, op);
      if i < |before.guarantors| {
        StepMoves(before, op, i);
      } else if i < |Step(before, op).guarantors| {
        NewRowsPend(before, op, i);
      }
    }
  }

  lemma OpeningIsEmpty(db: Rows)
    requires Opening(db)
    ensures Valid(db) && db.guarantors == []
  {
  }

  /**
   However often requests are retried, a row has at most one hold placed per invitation, at most one
   released ever, and none released that was not placed.
   */
  lemma OneHoldPerInvitation(db: Rows, ops: seq<Op>, i: nat)
    requires Opening(db)
    ensures Times(db, ops, i, Placed) <= 1 + Times(db, ops, i, InvitedAgain)
    ensures Times(db, ops, i, ReleasedHold) <= 1 && Times(db, ops, i, ReleasedHold) <= Times(db, ops, i, Placed)
  {
    RowLife(db, ops, i);
  }

  lemma {:induction false} SameLock(rows: seq<Guarantor>, rows': seq<Guarantor>, loanId: string,
                                    matcher: Matcher, i: nat)
    requires |rows| == |rows'| && i <= |rows|
    requires forall k :: 0 <= k < |rows| ==> Matches(rows[k], loanId, matcher) == Matches(rows'[k], loanId, matcher)
    ensures LockGuarantor(rows, loanId, matcher, i) == LockGuarantor(rows', loanId, matcher, i)
    decreases |rows| - i
  {
    if i < |rows| && !Matches(rows[i], loanId, matcher) {
      SameLock(rows, rows', loanId, matcher, i + 1);
    }
  }

  /** A decision that is sent again is refused, whatever it says this time. */
  lemma RetryIsRefused(db: Rows, d: Decision, again: Decision)
    requires Valid(db) && Decide(db, d).Success?
    requires again.loanId == d.loanId && again.matcher == d.matcher
    requires again.action == ACCEPT && again.source == MEMBER ==> again.acknowledged
    ensures Decide(Decide(db, d).value.db, again) == Failure(AlreadyDecided)
  {
    hide ApplyLoanState, Positions;
    var after := Decide(db, d).value.db;
    DecideParts(db, d);
    forall i | 0 <= i < |db.guarantors|
      ensures |after.guarantors| == |db.guarantors|
      ensures Matches(db.guarantors[i], d.loanId, d.matcher) == Matches(after.guarantors[i], d.loanId, d.matcher)
      ensures i == DecidedRow(db, d) ==> after.guarantors[i].status != GuarantorStatus.PENDING
    {
      DecisionRow(db, d, i);
    }
    DecisionRow(db, d, DecidedRow(db, d));
    SameLock(db.guarantors, after.guarantors, d.loanId, d.matcher, 0);
  }

  // ---- Invitations --------------------------------------------------------------------

  lemma {:induction false} LockAppended(rows: seq<Guarantor>, row: Guarantor, loanId: string, matcher: Matcher, i: nat)
    requires i <= |rows| && LockGuarantor(rows, loanId, matcher, i) == None && Matches(row, loanId, matcher)
    ensures LockGuarantor(rows + [row], loanId, matcher, i) == Some(|rows|)
    decreases |rows| - i
  {
    if i < |rows| {
      LockAppended(rows, row, loanId, matcher, i + 1);
    }
  }

  /**
   After an invitation, which takes a loan that is a draft or waits for guarantors, the member has a
   pending request for the loan with the amount and the time of the invitation, so that an answer
   within the next 72 hours is in time; and nothing else has changed.
   */
  lemma InvitationStands(db: Rows, id: string, loanId: string, memberId: string, amount: int, now: int, d: Decision)
    ensures Invite(db, id, loanId, memberId, amount, now).Success?
       <==> loanId in db.loans && db.loans[loanId].status in {DRAFT, PENDING_GUARANTORS}
    ensures Invite(db, id, loanId, memberId, amount, now).Success? ==>
      var db' := Invite(db, id, loanId, memberId, amount, now).value;
      var rows := db'.guarantors;
      var found := LockGuarantor(rows, loanId, ByMember(memberId));
      && found.Some? && rows[found.value].loanId == loanId && rows[found.value].memberId == memberId
      && rows[found.value].status == GuarantorStatus.PENDING && rows[found.value].amount == amount
      && (d.source != SYSTEM_EXPIRY ==>
            (NextStatus(rows[found.value], d) == GuarantorStatus.EXPIRED <==> d.now > now + 72 * HOUR))
      && |db.guarantors| <= |rows| <= |db.guarantors| + 1
      && (forall k :: 0 <= k < |rows| && k != found.value ==> k < |db.guarantors| && rows[k] == db.guarantors[k])
      && db' == db.(guarantors := rows)
  {
    if Invite(db, id, loanId, memberId, amount, now).Success? {
      var rows := Invite(db, id, loanId, memberId, amount, now).value.guarantors;
      match LockGuarantor(db.guarantors, loanId, ByMember(memberId))
      case Some(i) => SameLock(db.guarantors, rows, loanId, ByMember(memberId), 0);
      case None => LockAppended(db.guarantors, rows[|db.guarantors|], loanId, ByMember(memberId), 0);
    }
  }
}
