/**
 Idempotent replay, and the conflicts that report an inconsistent ledger.
 */
module LedgerReplay {
  import opened Decimals
  import opened Outcomes
  import opened LedgerModel
  import opened LedgerInvariants

  // ---- Replaying a run without its repeats --------------------------------------------

  /** Two calls that carry the same idempotency reference. */
  predicate SameCall(a: Op, b: Op) {
    || (a.Post? && b.Post? && a.tenantId == b.tenantId && a.reference == b.reference)
    || (a.Transfer? && b.Transfer? && a.tenantId == b.tenantId && a.reference == b.reference)
  }

  /** The reference of the row by which a call recognises its own replay. */
  function KeyReference(op: Op): string
    requires op.Post? || op.Transfer?
  {
    if op.Post? then op.reference else op.reference + "-SRC"
  }

  ghost predicate Succeeded(db: Books, ops: seq<Op>, k: nat)
    requires k < |ops|
  {
    Attempt(Run(db, ops[..k]), ops[k]).Success?
  }

  /** Call k is the first successful call with its reference; other kinds of call always count. */
  ghost predicate FirstSuccess(db: Books, ops: seq<Op>, k: nat)
    requires k < |ops|
  {
    && Succeeded(db, ops, k)
    && forall j :: 0 <= j < k && SameCall(ops[j], ops[k]) ==> !Succeeded(db, ops, j)
  }

  /** The run with every failed call and every repeated reference left out. */
  ghost function FirstSuccesses(db: Books, ops: seq<Op>, n: nat): seq<Op>
    requires n <= |ops|
  {
    if n == 0 then []
    else FirstSuccesses(db, ops, n - 1) + (if FirstSuccess(db, ops, n - 1) then [ops[n - 1]] else [])
  }

  lemma SuccessLeavesRow(db: Books, op: Op)
    requires (op.Post? || op.Transfer?) && Attempt(db, op).Success?
    ensures HasReference(Step(db, op).transactions, op.tenantId, KeyReference(op))
  {
    var rows' := Step(db, op).transactions;
    if HasReference(db.transactions, op.tenantId, KeyReference(op)) {
    } else {
      assert IsReference(rows'[|db.transactions|], op.tenantId, KeyReference(op));
    }
  }

  lemma RepeatChangesNothing(db: Books, op: Op)
    requires (op.Post? || op.Transfer?) && HasReference(db.transactions, op.tenantId, KeyReference(op))
    ensures Step(db, op) == db
  {
    var k :| 0 <= k < |db.transactions| && IsReference(db.transactions[k], op.tenantId, KeyReference(op));
  }

  lemma StepKeepsReference(db: Books, op: Op, tenantId: string, reference: string)
    requires Valid(db) && HasReference(db.transactions, tenantId, reference)
    ensures HasReference(Step(db, op).transactions, tenantId, reference)
  {
    var change := StepIsChange(db, op);
    var rows' := Step(db, op).transactions;
    ReferencesStay(db.transactions, rows', tenantId, reference);
  }

  lemma {:induction false} RunKeepsReference(db: Books, ops: seq<Op>, j: nat, k: nat,
                                             tenantId: string, reference: string)
    requires Opening(db) && j <= k <= |ops|
    requires HasReference(Run(db, ops[..j]).transactions, tenantId, reference)
    ensures HasReference(Run(db, ops[..k]).transactions, tenantId, reference)
  {
    hide *;
    if j < k {
      RunKeepsReference(db, ops, j, k - 1, tenantId, reference);
      RunOneMore(db, ops, k - 1);
      RunKeepsValid(db, ops[..k - 1]);
      StepKeepsReference(Run(db, ops[..k - 1]), ops[k - 1], tenantId, reference);
    }
  }

  lemma RunOneMore(db: Books, ops: seq<Op>, k: nat)
    requires k < |ops|
    ensures Run(db, ops[..k + 1]) == Step(Run(db, ops[..k]), ops[k])
  {
    assert ops[..k + 1][..k] == ops[..k];
  }

  /** A call that is not a first success leaves the books as they are. */
  lemma OthersChangeNothing(db: Books, ops: seq<Op>, k: nat)
    requires Opening(db) && k < |ops| && !FirstSuccess(db, ops, k)
    ensures Run(db, ops[..k + 1]) == Run(db, ops[..k])
  {
    hide Run, Opening, Attempt, HasReference;
    RunOneMore(db, ops, k);
    if Succeeded(db, ops, k) {
      var j :| 0 <= j < k && SameCall(ops[j], ops[k]) && Succeeded(db, ops, j);
      RunOneMore(db, ops, j);
      SuccessLeavesRow(Run(db, ops[..j]), ops[j]);
      RunKeepsReference(db, ops, j + 1, k, ops[k].tenantId, KeyReference(ops[k]));
      RepeatChangesNothing(Run(db, ops[..k]), ops[k]);
    }
  }

  /**
   Replay is invisible: any run leaves the ledger exactly as the run that keeps only the first
   successful call for each reference.
   */
  lemma {:induction false} ReplayIsInvisible(db: Books, ops: seq<Op>, n: nat)
    requires Opening(db) && n <= |ops|
    ensures Run(db, FirstSuccesses(db, ops, n)) == Run(db, ops[..n])
  {
    hide Step, FirstSuccess, Opening;
    if n > 0 {
      ReplayIsInvisible(db, ops, n - 1);
      RunOneMore(db, ops, n - 1);
      if FirstSuccess(db, ops, n - 1) {
        var kept := FirstSuccesses(db, ops, n - 1);
        assert (kept + [ops[n - 1]])[..|kept|] == kept;
      } else {
        OthersChangeNothing(db, ops, n - 1);
        assert FirstSuccesses(db, ops, n) == FirstSuccesses(db, ops, n - 1);
      }
    }
  }

  // ---- The receipts of a replay -------------------------------------------------------

  /**
   A replayed posting returns the row and the entry of the first call, whatever has been posted in
   between.
   */
  lemma ReplayReturnsFirst(db: Books, ops: seq<Op>, j: nat, k: nat)
    requires Opening(db) && j < k < |ops| && ops[j].Post? && SameCall(ops[j], ops[k])
    requires Succeeded(db, ops, j) && Succeeded(db, ops, k)
    ensures var first := Attempt(Run(db, ops[..j]), ops[j]).value.receipt;
      var again := Attempt(Run(db, ops[..k]), ops[k]).value.receipt;
      again.EntryReceipt? && again.replayed && again.transaction == first.transaction && again.entry == first.entry
  {
    var before, after := Run(db, ops[..j]), Run(db, ops[..j + 1]);
    RunOneMore(db, ops, j);
    RunKeepsValid(db, ops[..j]);
    RunKeepsValid(db, ops[..j + 1]);
    RunKeepsValid(db, ops[..k]);
    var first := Attempt(before, ops[j]).value.receipt;
    PostReceipt(before, ops[j]);
    RunKeepsRow(db, ops, j + 1, k, ops[j].tenantId, ops[j].reference, first.transaction, first.entry);
    ReceiptIs(Run(db, ops[..k]), ops[k], first.transaction, first.entry);
  }

  /** Row t carries the reference of the posting and entry e references row t. */
  ghost predicate Filed(db: Books, tenantId: string, reference: string, t: nat, e: nat) {
    && t < |db.transactions| && IsReference(db.transactions[t], tenantId, reference)
    && e < |db.entries| && IsEntryOf(db.entries[e], tenantId, t)
  }

  lemma PostReceipt(db: Books, op: Op)
    requires op.Post? && Valid(db) && Attempt(db, op).Success?
    ensures var r := Attempt(db, op).value.receipt;
      r.EntryReceipt? && Filed(Step(db, op), op.tenantId, op.reference, r.transaction, r.entry)
  {
  }

  lemma StepKeepsRow(db: Books, op: Op, tenantId: string, reference: string, t: nat, e: nat)
    requires Valid(db) && Filed(db, tenantId, reference, t, e)
    ensures Filed(Step(db, op), tenantId, reference, t, e)
  {
    var change := StepIsChange(db, op);
  }

  lemma {:induction false} RunKeepsRow(db: Books, ops: seq<Op>, j: nat, k: nat, tenantId: string, reference: string,
                                       t: nat, e: nat)
    requires Opening(db) && j <= k <= |ops| && Filed(Run(db, ops[..j]), tenantId, reference, t, e)
    ensures Filed(Run(db, ops[..k]), tenantId, reference, t, e)
  {
    hide *;
    if j < k {
      RunKeepsRow(db, ops, j, k - 1, tenantId, reference, t, e);
      RunOneMore(db, ops, k - 1);
      RunKeepsValid(db, ops[..k - 1]);
      StepKeepsRow(Run(db, ops[..k - 1]), ops[k - 1], tenantId, reference, t, e);
    }
  }

  lemma ReceiptIs(db: Books, op: Op, t: nat, e: nat)
    requires op.Post? && Valid(db) && Filed(db, op.tenantId, op.reference, t, e) && Attempt(db, op).Success?
    ensures Attempt(db, op).value.receipt == EntryReceipt(t, e, true)
  {
    var found := FindReference(db.transactions, op.tenantId, op.reference);
    assert IsReference(db.transactions[t], op.tenantId, op.reference);
    SameReferenceSameRow(db.transactions, op.tenantId, op.reference, found.value, t);
    var entry := FindEntry(db.entries, op.tenantId, t);
    assert IsEntryOf(db.entries[e], op.tenantId, t);
    SameRowSameEntry(db.entries, entry.value, e);
  }

  lemma TransferReceiptIs(db: Books, op: Op)
    requires op.Transfer? && Valid(db) && Attempt(db, op).Success?
    ensures var r := Attempt(db, op).value.receipt; var rows := Step(db, op).transactions;
      && r.TransferReceipt? && Filed(Step(db, op), op.tenantId, op.reference + "-SRC", r.source, r.entry)
      && r.destination < |rows| && IsReference(rows[r.destination], op.tenantId, op.reference + "-DST")
  {
    hide Valid, ToUnits, ApplyBalanceChange, ResolveGlCodes, GlConfigured, HasEntryNumber, HasReference;
  }

  lemma {:induction false} RunKeepsPlace(db: Books, ops: seq<Op>, j: nat, k: nat,
                                         tenantId: string, reference: string, t: nat)
    requires Opening(db) && j <= k <= |ops|
    requires var rows := Run(db, ops[..j]).transactions; t < |rows| && IsReference(rows[t], tenantId, reference)
    ensures var rows := Run(db, ops[..k]).transactions; t < |rows| && IsReference(rows[t], tenantId, reference)
  {
    hide *;
    if j < k {
      RunKeepsPlace(db, ops, j, k - 1, tenantId, reference, t);
      RunOneMore(db, ops, k - 1);
      RunKeepsValid(db, ops[..k - 1]);
      StepKeepsPlace(Run(db, ops[..k - 1]), ops[k - 1], tenantId, reference, t);
    }
  }

  lemma StepKeepsPlace(db: Books, op: Op, tenantId: string, reference: string, t: nat)
    requires Valid(db) && t < |db.transactions| && IsReference(db.transactions[t], tenantId, reference)
    ensures t < |Step(db, op).transactions| && IsReference(Step(db, op).transactions[t], tenantId, reference)
  {
    var change := StepIsChange(db, op);
  }

  lemma TransferReplayIs(db: Books, op: Op, s: nat, d: nat, e: nat)
    requires op.Transfer? && Valid(db) && Filed(db, op.tenantId, op.reference + "-SRC", s, e)
      && Attempt(db, op).Success?
    requires d < |db.transactions| && IsReference(db.transactions[d], op.tenantId, op.reference + "-DST")
    ensures Attempt(db, op).value.receipt == TransferReceipt(s, d, e, true)
  {
    FoundIs(db, op.tenantId, op.reference + "-SRC", s);
    FoundIs(db, op.tenantId, op.reference + "-DST", d);
    var entry := FindEntry(db.entries, op.tenantId, s);
    assert IsEntryOf(db.entries[e], op.tenantId, s);
    SameRowSameEntry(db.entries, entry.value, e);
    hide Valid, FindReference, FindEntry, ToUnits, ApplyBalanceChange, ResolveGlCodes, GlConfigured, HasEntryNumber;
  }

  /** A replayed transfer returns both rows and the entry of the first call. */
  lemma TransferReplayReturnsFirst(db: Books, ops: seq<Op>, j: nat, k: nat)
    requires Opening(db) && j < k < |ops| && ops[j].Transfer? && SameCall(ops[j], ops[k])
    requires Succeeded(db, ops, j) && Succeeded(db, ops, k)
    ensures var first := Attempt(Run(db, ops[..j]), ops[j]).value.receipt;
      var again := Attempt(Run(db, ops[..k]), ops[k]).value.receipt;
      && first.TransferReceipt? && again == TransferReceipt(first.source, first.destination, first.entry, true)
  {
    hide Step, Attempt, Opening, Valid, Filed, Run;
    var op := ops[j];
    RunOneMore(db, ops, j);
    RunKeepsValid(db, ops[..j]);
    RunKeepsValid(db, ops[..k]);
    TransferReceiptIs(Run(db, ops[..j]), op);
    var first := Attempt(Run(db, ops[..j]), op).value.receipt;
    RunKeepsRow(db, ops, j + 1, k, op.tenantId, op.reference + "-SRC", first.source, first.entry);
    RunKeepsPlace(db, ops, j + 1, k, op.tenantId, op.reference + "-DST", first.destination);
    TransferReplayIs(Run(db, ops[..k]), ops[k], first.source, first.destination, first.entry);
  }

  // ---- "Ledger is inconsistent" -------------------------------------------------------

  /** The reference names the destination leg of a committed transfer. */
  ghost predicate NamesDestinationLeg(db: Books, tenantId: string, reference: string) {
    exists i :: 0 <= i < |db.transactions| && IsReference(db.transactions[i], tenantId, reference)
      && db.transactions[i].kind == TxTransfer && exists base :: reference == base + "-DST"
  }

  lemma FoundIs(db: Books, tenantId: string, reference: string, i: nat)
    requires Valid(db) && i < |db.transactions| && IsReference(db.transactions[i], tenantId, reference)
    ensures FindReference(db.transactions, tenantId, reference) == Some(i)
  {
    var found := FindReference(db.transactions, tenantId, reference);
    SameReferenceSameRow(db.transactions, tenantId, reference, found.value, i);
  }

  lemma EntryFoundIff(db: Books, i: nat)
    requires Valid(db) && i < |db.transactions|
    ensures FindEntry(db.entries, db.transactions[i].tenantId, i).Some? <==> HasEntry(db.entries, i)
  {
    if HasEntry(db.entries, i) {
      var e :| 0 <= e < |db.entries| && db.entries[e].transaction == i;
      assert EntryOk(db.transactions, db.entries[e]);
      assert IsEntryOf(db.entries[e], db.transactions[i].tenantId, i);
    }
  }

  /** A transfer row carries no entry exactly when its reference ends in -DST. */
  lemma LegIff(db: Books, i: nat)
    requires Valid(db) && i < |db.transactions|
    ensures !HasEntry(db.entries, i)
       <==> db.transactions[i].kind == TxTransfer && exists base :: db.transactions[i].reference == base + "-DST"
  {
    var row := db.transactions[i];
    if row.kind == TxTransfer {
      if SourceLeg(db.transactions, db.entries, i) {
        var reference :| row.reference == reference + "-SRC";
        forall base
          ensures row.reference != base + "-DST"
        {
          SuffixesDiffer(reference, base);
        }
      } else {
        assert DestinationLeg(db.transactions, db.entries, i);
      }
    } else {
      assert HasEntry(db.entries, i);
    }
  }

  /**
   Exactly when `postEntry` answers that the ledger is inconsistent, on any reachable ledger: when
   its reference names the destination leg of a transfer.
   */
  lemma PostInconsistentIff(db: Books, op: Op)
    requires Valid(db) && op.Post?
    ensures Attempt(db, op) == Failure(Inconsistent)
       <==> Decimals.ToUnits(op.kes) > 0 && NamesDestinationLeg(db, op.tenantId, op.reference)
  {
    hide Valid, FindReference, FindEntry, GlConfigured, HasEntryNumber, Decimals.ToUnits;
    var found := FindReference(db.transactions, op.tenantId, op.reference);
    if found.Some? {
      EntryFoundIff(db, found.value);
      LegIff(db, found.value);
    }
    if NamesDestinationLeg(db, op.tenantId, op.reference) {
      var i :| 0 <= i < |db.transactions| && IsReference(db.transactions[i], op.tenantId, op.reference)
        && db.transactions[i].kind == TxTransfer && exists base :: op.reference == base + "-DST";
      FoundIs(db, op.tenantId, op.reference, i);
    }
  }

  /**
   Exactly when `postInternalTransfer` answers that the ledger is inconsistent: when some row
   already carries the reference of its source leg and none that of its destination leg. Only a
   posting or a match under a reference that ends in -SRC can bring that about.
   */
  lemma TransferInconsistentIff(db: Books, op: Op)
    requires Valid(db) && op.Transfer?
    ensures Attempt(db, op) == Failure(Inconsistent)
       <==> Decimals.ToUnits(op.kes) > 0 && op.source != op.destination
            && HasReference(db.transactions, op.tenantId, op.reference + "-SRC")
            && !HasReference(db.transactions, op.tenantId, op.reference + "-DST")
  {
    hide Valid, FindEntry, GlConfigured, HasEntryNumber, Decimals.ToUnits;
    var s := FindReference(db.transactions, op.tenantId, op.reference + "-SRC");
    if s.Some? {
      EntryFoundIff(db, s.value);
      LegIff(db, s.value);
      forall base
        ensures op.reference + "-SRC" != base + "-DST"
      {
        SuffixesDiffer(op.reference, base);
      }
    }
  }

  predicate EndsIn(s: string, suffix: string) {
    |suffix| <= |s| && s[|s| - |suffix|..] == suffix
  }

  /** A reference that no leg of a transfer can carry. */
  predicate CleanReference(reference: string) {
    !EndsIn(reference, "-SRC") && !EndsIn(reference, "-DST")
  }

  ghost predicate CleanOps(ops: seq<Op>) {
    forall k :: 0 <= k < |ops| ==>
      && (ops[k].Post? ==> CleanReference(ops[k].reference))
      && (ops[k].Match? ==> CleanReference("MPESA-RECON-" + ops[k].mpesaId))
  }

  /** Apart from transfer legs, no row carries a leg's reference. */
  ghost predicate CleanRows(rows: seq<Transaction>) {
    forall i :: 0 <= i < |rows| && rows[i].kind != TxTransfer ==> CleanReference(rows[i].reference)
  }

  lemma AppendedSuffix(s: string, t: string, suffix: string)
    requires |suffix| <= |t|
    ensures EndsIn(s + t, suffix) <==> EndsIn(t, suffix)
  {
    assert (s + t)[|s + t| - |suffix|..] == t[|t| - |suffix|..];
  }

  lemma LegSuffix(s: string)
    ensures !CleanReference(s + "-SRC") && !CleanReference(s + "-DST") && CleanReference(s + "-REVERSAL")
  {
    AppendedSuffix(s, "-SRC", "-SRC");
    AppendedSuffix(s, "-DST", "-DST");
    AppendedSuffix(s, "-REVERSAL", "-SRC");
    AppendedSuffix(s, "-REVERSAL", "-DST");
    assert "-REVERSAL"[|"-REVERSAL"| - 4..][0] == 'R';
  }

  lemma StepKeepsClean(db: Books, op: Op)
    requires Valid(db) && CleanRows(db.transactions)
    requires (op.Post? ==> CleanReference(op.reference)) && (op.Match? ==> CleanReference("MPESA-RECON-" + op.mpesaId))
    ensures CleanRows(Step(db, op).transactions)
  {
    hide CleanReference, Valid;
    match op
    case Post(_, _, _, _, _, _) => var change := PostChange(db, op);
    case Transfer(_, _, _, _, _) => var change := TransferChange(db, op);
    case Reverse(_, _) =>
      if op.original < |db.transactions| {
        LegSuffix(db.transactions[op.original].reference);
      }
    case Match(_, _, _) => var change := MatchChange(db, op);
    case External(_, _, _) =>
  }

  lemma {:induction false} RunKeepsClean(db: Books, ops: seq<Op>)
    requires Opening(db) && CleanOps(ops)
    ensures CleanRows(Run(db, ops).transactions)
  {
    if ops != [] {
      var before := ops[..|ops| - 1];
      RunKeepsClean(db, before);
      RunKeepsValid(db, before);
      StepKeepsClean(Run(db, before), ops[|ops| - 1]);
    }
  }

  /**
   When no posting and no match is given a reference that ends in -SRC or -DST, neither `postEntry`
   nor `postInternalTransfer` can ever answer that the ledger is inconsistent.
   */
  lemma NoInconsistencyReached(db: Books, ops: seq<Op>, op: Op)
    requires Opening(db) && CleanOps(ops + [op]) && (op.Post? || op.Transfer?)
    ensures Attempt(Run(db, ops), op) != Failure(Inconsistent)
  {
    var db' := Run(db, ops);
    assert CleanOps(ops) by {
      assert forall k :: 0 <= k < |ops| ==> (ops + [op])[k] == ops[k];
    }
    assert (ops + [op])[|ops|] == op;
    RunKeepsValid(db, ops);
    RunKeepsClean(db, ops);
    if op.Post? {
      PostInconsistentIff(db', op);
      CleanIsNoDestination(db', op.tenantId, op.reference);
    } else {
      TransferInconsistentIff(db', op);
      if HasReference(db'.transactions, op.tenantId, op.reference + "-SRC") {
        CleanSourceHasDestination(db', op.tenantId, op.reference);
      }
    }
  }

  lemma CleanIsNoDestination(db: Books, tenantId: string, reference: string)
    requires CleanReference(reference)
    ensures !NamesDestinationLeg(db, tenantId, reference)
  {
    forall base
      ensures reference != base + "-DST"
    {
      LegSuffix(base);
    }
  }

  lemma CleanSourceHasDestination(db: Books, tenantId: string, reference: string)
    requires Valid(db) && CleanRows(db.transactions) && HasReference(db.transactions, tenantId, reference + "-SRC")
    ensures HasReference(db.transactions, tenantId, reference + "-DST")
  {
    var i :| 0 <= i < |db.transactions| && IsReference(db.transactions[i], tenantId, reference + "-SRC");
    LegSuffix(reference);
    assert db.transactions[i].kind == TxTransfer;
    forall base
      ensures reference + "-SRC" != base + "-DST"
    {
      SuffixesDiffer(reference, base);
    }
    assert SourceLeg(db.transactions, db.entries, i);
    var base :| db.transactions[i].reference == base + "-SRC" && HasReference(db.transactions, tenantId, base + "-DST");
    assert base == (base + "-SRC")[..|base|] && reference == (reference + "-SRC")[..|reference|];
  }
}
