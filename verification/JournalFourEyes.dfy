/**
 What a manual journal entry adds up to, and the rule that a large one is approved by somebody other
 than its creator (src/modules/accounting/accounting.service.ts).
 */
module JournalFourEyes {
  import opened Decimals
  import opened Outcomes
  import opened EntryNumbers
  import opened JournalApproval

  // ---- What an entry adds up to -------------------------------------------------------

  /** The amounts of the requested lines, in KES, unrounded. */
  function Requested(lines: seq<Line>): real {
    if lines == [] then 0.0 else lines[0].kes + Requested(lines[1..])
  }

  /** The amounts of the lines in units, each to the nearest one. */
  function Rounded(lines: seq<Line>): int {
    if lines == [] then 0 else Round(lines[0].kes * 10000.0) + Rounded(lines[1..])
  }

  /** The amounts of the postings. */
  function Posted(postings: seq<Posting>): int {
    if postings == [] then 0 else postings[0].amount + Posted(postings[1..])
  }

  /** A whole number of units of KES 0.0001. */
  predicate IsWhole(kes: real) {
    kes * 10000.0 == (kes * 10000.0).Floor as real
  }

  predicate WholeUnits(lines: seq<Line>) {
    forall k :: 0 <= k < |lines| ==> IsWhole(lines[k].kes)
  }

  lemma {:induction false} RequestedAppend(lines: seq<Line>, line: Line)
    ensures Requested(lines + [line]) == Requested(lines) + line.kes
  {
    if lines != [] {
      RequestedAppend(lines[1..], line);
      assert (lines + [line])[1..] == lines[1..] + [line];
    }
  }

  lemma {:induction false} TotalIsRequested(lines: seq<Line>)
    ensures Total(lines) == Requested(lines)
  {
    if lines != [] {
      var n := |lines| - 1;
      TotalIsRequested(lines[..n]);
      RequestedAppend(lines[..n], lines[n]);
      assert lines == lines[..n] + [lines[n]];
    }
  }

  lemma {:induction false} PostedIsRounded(lines: seq<Line>)
    ensures Posted(Postings(lines)) == Rounded(lines)
  {
    if lines != [] {
      PostedIsRounded(lines[1..]);
      assert Postings(lines)[1..] == Postings(lines[1..]);
    }
  }

  lemma {:induction false} RoundedIsClose(lines: seq<Line>)
    ensures -0.5 * |lines| as real <= Rounded(lines) as real - Requested(lines) * 10000.0 <= 0.5 * |lines| as real
    ensures WholeUnits(lines) ==> Rounded(lines) as real == Requested(lines) * 10000.0
  {
    hide Round;
    if lines != [] {
      RoundedIsClose(lines[1..]);
      if WholeUnits(lines) {
        assert IsWhole(lines[0].kes);
        assert forall k :: 0 <= k < |lines[1..]| ==> lines[1..][k] == lines[k + 1];
        RoundOfUnits((lines[0].kes * 10000.0).Floor);
      }
    }
  }

  /**
   The total of a request against what its postings add up to: within half a unit for each posting and
   half a unit more, and equal when every line is a whole number of units.
   */
  lemma TotalIsPosted(lines: seq<Line>)
    ensures var total, posted := ToUnits(Total(lines)), Posted(Postings(lines));
      && -(|lines| + 1) <= 2 * (total - posted) <= |lines| + 1
      && (WholeUnits(lines) ==> total == posted)
  {
    hide Round;
    TotalIsRequested(lines);
    PostedIsRounded(lines);
    RoundedIsClose(lines);
    var total := ToUnits(Total(lines));
    assert -0.5 <= total as real - Requested(lines) * 10000.0 <= 0.5;
    if WholeUnits(lines) {
      RoundOfUnits(Rounded(lines));
    }
  }

  // ---- What is created ----------------------------------------------------------------

  /** Both accounts of the line are active accounts of the tenant, and differ. */
  predicate LineOk(db: Books, tenantId: string, line: Line) {
    && tenantId in db.accounts && line.debit in db.accounts[tenantId] && line.credit in db.accounts[tenantId]
    && line.debit != line.credit
  }

  predicate LinesOk(db: Books, tenantId: string, lines: seq<Line>) {
    forall k :: 0 <= k < |lines| ==> LineOk(db, tenantId, lines[k])
  }

  /** Each posting is its line, to the nearest unit. */
  ghost predicate PostsLines(postings: seq<Posting>, lines: seq<Line>) {
    && |postings| == |lines|
    && forall k :: 0 <= k < |lines| ==>
      && postings[k].debit == lines[k].debit && postings[k].credit == lines[k].credit
      && -0.5 <= postings[k].amount as real - lines[k].kes * 10000.0 <= 0.5
  }

  lemma LineOkIff(db: Books, tenantId: string, line: Line)
    ensures LineOk(db, tenantId, line)
       <==> IsAccount(db.accounts, tenantId, line.debit) && IsAccount(db.accounts, tenantId, line.credit)
            && line.debit != line.credit
  {
  }

  lemma RefusalIff(db: Books, tenantId: string, lines: seq<Line>)
    ensures Refusal(db, tenantId, lines) == None <==> Requested(lines) > 0.0 && LinesOk(db, tenantId, lines)
  {
    hide Total, Requested, LineOk, IsAccount;
    TotalIsRequested(lines);
    forall k | 0 <= k < |lines|
      ensures LineOk(db, tenantId, lines[k])
         <==> IsAccount(db.accounts, tenantId, lines[k].debit) && IsAccount(db.accounts, tenantId, lines[k].credit)
              && lines[k].debit != lines[k].credit
    {
      LineOkIff(db, tenantId, lines[k]);
    }
  }

  /**
   Exactly when a request is granted: its lines add up to something positive between different
   accounts of the tenant, and the year has room. What is created posts each line, adds up to its
   total but for the rounding, and needs approval from KES 100,000 on.
   */
  lemma CreatesIff(db: Books, ops: seq<Op>, tenantId: string, year: nat, lines: seq<Line>, actor: string)
    requires db.entries == []
    ensures var before := Run(db, ops);
      && (Create(before, tenantId, year, lines, actor).Success? <==>
            && Requested(lines) > 0.0 && LinesOk(before, tenantId, lines)
            && CountOf(before.entries, tenantId, year) < 1000000)
      && (Create(before, tenantId, year, lines, actor).Success? ==>
            var after := Create(before, tenantId, year, lines, actor).value;
            && |after.entries| == |before.entries| + 1
            && var entry := after.entries[|before.entries|];
              && after == before.(entries := before.entries + [entry])
              && entry.tenantId == tenantId && entry.createdBy == actor && PostsLines(entry.postings, lines)
              && -(|lines| + 1) <= 2 * (entry.totalAmount - Posted(entry.postings)) <= |lines| + 1
              && (WholeUnits(lines) ==> entry.totalAmount == Posted(entry.postings))
              && entry.approvedBy == (if Requested(lines) < 100000.0 then Some(actor) else None)
              && entry.status == (if Requested(lines) < 100000.0 then APPROVED else PENDING_APPROVAL))
  {
    hide Run, LastNumber, NextSequence, EntryNumber, Total, CountOf, HasNumber, Refusal, LinesOk, AllWellNumbered,
         Posted;
    var before := Run(db, ops);
    RefusalIff(before, tenantId, lines);
    RunCounts(db, ops, tenantId, year);
    if Refusal(before, tenantId, lines) == None {
      NumberClashesIff(db, ops, tenantId, year, lines, actor);
      TotalIsPosted(lines);
      TotalIsRequested(lines);
      PostingsAre(lines);
    }
  }

  lemma RunCounts(db: Books, ops: seq<Op>, tenantId: string, year: nat)
    requires db.entries == []
    ensures CountOf(Run(db, ops).entries, tenantId, year) <= 1000000
  {
    RunKeepsNumbers(db, ops);
    assert WellNumbered(Run(db, ops).entries, tenantId, year);
  }

  lemma PostingsAre(lines: seq<Line>)
    ensures PostsLines(Postings(lines), lines)
  {
  }

  /** Exactly when an entry is decided, and that nothing but its decision changes. */
  lemma DecidesIff(db: Books, tenantId: string, id: nat, actor: string)
    ensures var pending := id < |db.entries| && db.entries[id].tenantId == tenantId
                           && db.entries[id].status == PENDING_APPROVAL;
      && (Approve(db, tenantId, id, actor).Success? <==> pending && db.entries[id].createdBy != actor)
      && (Reject(db, tenantId, id, actor).Success? <==> pending)
      && (pending && db.entries[id].createdBy != actor ==>
            var approved := db.entries[id].(status := APPROVED, approvedBy := Some(actor));
            Approve(db, tenantId, id, actor).value == db.(entries := db.entries[id := approved]))
      && (pending ==>
            var rejected := db.entries[id].(status := REJECTED, rejectedBy := Some(actor));
            Reject(db, tenantId, id, actor).value == db.(entries := db.entries[id := rejected]))
  {
  }

  // ---- Four eyes ----------------------------------------------------------------------

  /** The threshold as stored, in units. */
  const STORED_THRESHOLD := 1000000000

  /** How large an entry is: by the total it stores, or by what its postings add up to. */
  datatype Measure = StoredTotal | PostedAmounts

  function Size(entry: Entry, measure: Measure): int {
    if measure == StoredTotal then entry.totalAmount else Posted(entry.postings)
  }

  /** A manual entry at or above the threshold has been approved by somebody else. */
  predicate Checked(entry: Entry, measure: Measure) {
    entry.status == APPROVED && Size(entry, measure) >= STORED_THRESHOLD && !LedgerNumber(entry.entryNumber) ==>
      entry.approvedBy.Some? && entry.approvedBy.value != entry.createdBy
  }

  ghost predicate AllChecked(entries: seq<Entry>, measure: Measure) {
    forall i :: 0 <= i < |entries| ==> Checked(entries[i], measure)
  }

  /** A request below the threshold that is stored at the threshold, since it is compared before it is rounded. */
  predicate RoundsUpToThreshold(lines: seq<Line>, measure: Measure) {
    && Requested(lines) < 100000.0
    && (if measure == StoredTotal then Requested(lines) >= 99999.99995 else Rounded(lines) >= STORED_THRESHOLD)
  }

  lemma StoredThresholdIff(kes: real)
    ensures ToUnits(kes) >= STORED_THRESHOLD <==> kes >= 99999.99995
  {
  }

  predicate SlipsThrough(db: Books, op: Op, measure: Measure) {
    op.CreateOp? && Attempt(db, op).Success? && RoundsUpToThreshold(op.lines, measure)
  }

  lemma NewEntryCheckedIff(tenantId: string, year: nat, n: nat, lines: seq<Line>, actor: string, measure: Measure)
    ensures Checked(NewEntry(tenantId, EntryNumber(year, n), lines, actor), measure)
       <==> !RoundsUpToThreshold(lines, measure)
  {
    hide Total, Requested, Rounded, Posted, Postings, LedgerNumber;
    TotalIsRequested(lines);
    PostedIsRounded(lines);
    StoredThresholdIff(Requested(lines));
    hide ToUnits;
    if LedgerNumber(EntryNumber(year, n)) {
      LedgerIsNotNumbered(EntryNumber(year, n), year);
      assert false;
    }
  }

  lemma StepChecksIff(db: Books, op: Op, measure: Measure)
    ensures AllChecked(Step(db, op).entries, measure)
       <==> AllChecked(db.entries, measure) && !SlipsThrough(db, op, measure)
  {
    hide Refusal, NextSequence, EntryNumber, HasNumber, NewEntry, RoundsUpToThreshold, Checked;
    var entries, entries' := db.entries, Step(db, op).entries;
    forall i | 0 <= i < |entries|
      ensures i < |entries'| && (Checked(entries'[i], measure) <==> Checked(entries[i], measure))
      ensures |entries'| <= |entries| + 1
    {
      StepMoves(db, op, i);
      MovesKeepChecked(entries[i], entries'[i], measure);
    }
    if |entries'| > |entries| {
      match op
      case CreateOp(tenantId, year, lines, actor) =>
        var n := NextSequence(entries, tenantId, year);
        NewEntryCheckedIff(tenantId, year, n, lines, actor, measure);
        assert entries'[|entries|] == NewEntry(tenantId, EntryNumber(year, n), lines, actor);
        assert Checked(entries'[|entries|], measure) <==> !SlipsThrough(db, op, measure);
      case LedgerOp(entry) => LedgerIsChecked(entry, measure);
      case ApproveOp(_, _, _) =>
      case RejectOp(_, _, _) =>
    }
  }

  lemma LedgerIsChecked(entry: Entry, measure: Measure)
    requires LedgerNumber(entry.entryNumber)
    ensures Checked(entry, measure)
  {
  }

  lemma MovesKeepChecked(entry: Entry, entry': Entry, measure: Measure)
    requires EntryMoves(entry, entry')
    ensures Checked(entry', measure) == Checked(entry, measure)
  {
  }

  /** No request of the run slips through. */
  ghost predicate NothingSlips(db: Books, ops: seq<Op>, measure: Measure) {
    forall k :: 0 <= k < |ops| ==> !SlipsThrough(Run(db, ops[..k]), ops[k], measure)
  }

  lemma OneMoreSlips(db: Books, ops: seq<Op>, op: Op, measure: Measure)
    ensures Run(db, ops + [op]) == Step(Run(db, ops), op)
    ensures NothingSlips(db, ops + [op], measure)
       <==> NothingSlips(db, ops, measure) && !SlipsThrough(Run(db, ops), op, measure)
  {
    hide Step, SlipsThrough;
    var all := ops + [op];
    assert all[..|ops|] == ops;
    forall k | 0 <= k < |ops|
      ensures all[..k] == ops[..k] && all[k] == ops[k]
    {
    }
  }

  /**
   Four eyes. After any run, every approved manual entry at or above the threshold, whether by its
   stored total or by what its postings add up to, has been approved by somebody other than its
   creator, if and only if no request of the run asked for less than the threshold and is stored as
   the threshold or more.
   */
  lemma {:induction false} FourEyes(db: Books, ops: seq<Op>, measure: Measure)
    requires db.entries == []
    ensures AllChecked(Run(db, ops).entries, measure) <==> NothingSlips(db, ops, measure)
  {
    if ops != [] {
      hide Step, SlipsThrough, AllChecked, NothingSlips, Run;
      var init, op := ops[..|ops| - 1], ops[|ops| - 1];
      assert ops == init + [op];
      FourEyes(db, init, measure);
      OneMoreSlips(db, init, op, measure);
      StepChecksIff(Run(db, init), op, measure);
    }
  }

  /** In particular when every requested line is a whole number of units. */
  lemma WholeUnitsFourEyes(db: Books, ops: seq<Op>, measure: Measure)
    requires db.entries == []
    requires forall k :: 0 <= k < |ops| && ops[k].CreateOp? ==> WholeUnits(ops[k].lines)
    ensures AllChecked(Run(db, ops).entries, measure)
  {
    hide AllChecked, Run, WholeUnits;
    forall k | 0 <= k < |ops|
      ensures !SlipsThrough(Run(db, ops[..k]), ops[k], measure)
    {
      if ops[k].CreateOp? {
        RoundedIsClose(ops[k].lines);
        WholeBelow(ops[k].lines, measure);
      }
    }
    FourEyes(db, ops, measure);
  }

  lemma WholeBelow(lines: seq<Line>, measure: Measure)
    requires Rounded(lines) as real == Requested(lines) * 10000.0
    ensures !RoundsUpToThreshold(lines, measure)
  {
    hide Rounded, Requested;
    if Requested(lines) < 100000.0 {
      assert Rounded(lines) <= 999999999;
    }
  }
}
