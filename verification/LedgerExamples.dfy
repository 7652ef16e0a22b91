/**
 Concrete runs on which the ledger does not do what its callers might expect. The exact conditions
 are `PostInStepIff`, `ReverseInStepIff`, `PostInconsistentIff` and `TransferInconsistentIff`.
 */
module LedgerExamples {
  import opened Decimals
  import opened Outcomes
  import opened LedgerModel
  import opened LedgerInvariants
  import opened LedgerControl
  import opened LedgerReplay

  const T := "tenant"

  /** One member with an empty FOSA and an empty BOSA account, and a complete chart of accounts. */
  function Start(): Books {
    Books(map["fosa" := Account(T, FOSA, 0, 0, false, 0, 0, true, 0),
              "bosa" := Account(T, BOSA, 0, 0, false, 0, 0, true, 0)],
          [], [], map[],
          map[T := {CASH, LOAN_RECEIVABLE, MEMBER_SAVINGS, FOSA_DEPOSITS, BOSA_DEPOSITS, FEE_INCOME}])
  }

  const DEPOSIT_100 := Post(T, "D", DEPOSIT, "fosa", 100.0, CREDIT)
  const TRANSFER_40 := Transfer(T, "fosa", "bosa", 40.0, "X")

  lemma AfterDeposit()
    ensures Opening(Start()) && Admissible(Start(), DEPOSIT_100)
    ensures var db := Step(Start(), DEPOSIT_100);
      && db.chart == Start().chart && db.accounts.Keys == {"fosa", "bosa"}
      && db.accounts["fosa"] == Account(T, FOSA, 1000000, 0, false, 0, 0, true, 1)
      && db.accounts["bosa"] == Start().accounts["bosa"]
      && |db.transactions| == 1 && db.transactions[0].reference == "D" && db.transactions[0].tenantId == T
      && |db.entries| == 1 && db.entries[0].transaction == 0 && db.entries[0].entryNumber == LedgerNumber("D")
  {
    assert ToUnits(100.0) == 1000000;
  }

  /** The books after a deposit and a transfer, where every invariant holds. */
  ghost function Moved(): Books {
    Step(Step(Start(), DEPOSIT_100), TRANSFER_40)
  }

  lemma AfterTransfer()
    ensures var db := Moved();
      && db.chart == Start().chart && db.accounts.Keys == {"fosa", "bosa"}
      && db.accounts["fosa"] == Account(T, FOSA, 600000, 0, false, 0, 0, true, 2)
      && db.accounts["bosa"] == Account(T, BOSA, 400000, 0, false, 0, 0, true, 1)
      && |db.transactions| == 3 && |db.entries| == 2
      && db.transactions[0].reference == "D"
      && db.transactions[1] == Transaction(T, "fosa", TxTransfer, COMPLETED, 400000, 1000000, 600000, "X-SRC", Some(2))
      && db.transactions[2] == Transaction(T, "bosa", TxTransfer, COMPLETED, 400000, 0, 400000, "X-DST", Some(1))
      && db.entries[0].transaction == 0 && db.entries[0].entryNumber == LedgerNumber("D")
      && db.entries[1] == JournalEntry(T, LedgerNumber("X"), TRANSFER, 1,
                                     [Posting(FOSA_DEPOSITS, BOSA_DEPOSITS, 400000)], None)
  {
    AfterDeposit();
    hide Step, LedgerNumber;
    TransferFrom(Step(Start(), DEPOSIT_100));
  }

  lemma TransferFrom(db: Books)
    requires db.chart == Start().chart && db.accounts.Keys == {"fosa", "bosa"}
    requires db.accounts["fosa"] == Account(T, FOSA, 1000000, 0, false, 0, 0, true, 1)
    requires db.accounts["bosa"] == Account(T, BOSA, 0, 0, false, 0, 0, true, 0)
    requires |db.transactions| == 1 && db.transactions[0].reference == "D"
    requires |db.entries| == 1 && db.entries[0].entryNumber == LedgerNumber("D")
    ensures var after := Step(db, TRANSFER_40);
      && after.chart == db.chart && after.accounts.Keys == {"fosa", "bosa"}
      && after.accounts["fosa"] == Account(T, FOSA, 600000, 0, false, 0, 0, true, 2)
      && after.accounts["bosa"] == Account(T, BOSA, 400000, 0, false, 0, 0, true, 1)
      && after.transactions == db.transactions
           + [Transaction(T, "fosa", TxTransfer, COMPLETED, 400000, 1000000, 600000, "X-SRC", Some(2)),
              Transaction(T, "bosa", TxTransfer, COMPLETED, 400000, 0, 400000, "X-DST", Some(1))]
      && after.entries == db.entries
           + [JournalEntry(T, LedgerNumber("X"), TRANSFER, 1, [Posting(FOSA_DEPOSITS, BOSA_DEPOSITS, 400000)], None)]
  {
    assert ToUnits(40.0) == 400000;
    assert "X" + "-SRC" == "X-SRC" && "X" + "-DST" == "X-DST";
    assert LedgerNumber("D")[10] != LedgerNumber("X")[10];
  }

  lemma MovedIsSound()
    ensures Valid(Moved()) && InStep(Moved()) && EntriesAligned(Moved())
  {
    AfterDeposit();
    var ops := [DEPOSIT_100, TRANSFER_40];
    assert ops[..1] == [DEPOSIT_100] && ops[..0] == [];
    assert Run(Start(), [DEPOSIT_100]) == Step(Start(), DEPOSIT_100) by {
      assert [DEPOSIT_100][..0] == [];
    }
    assert Run(Start(), ops) == Moved();
    RunInStep(Start(), ops);
  }

  /** Reversing the source leg of a transfer is let through and puts the control accounts out of step. */
  lemma TransferReversalBreaksControl()
    ensures Valid(Moved()) && InStep(Moved())
    ensures Attempt(Moved(), Reverse(T, 1)).Success?
    ensures Valid(Step(Moved(), Reverse(T, 1))) && !InStep(Step(Moved(), Reverse(T, 1)))
  {
    hide Moved, Valid, InStep, EntriesAligned;
    MovedIsSound();
    AfterTransfer();
    SourceLegReverses(Moved());
    ReverseInStepIff(Moved(), Reverse(T, 1));
  }

  lemma SourceLegReverses(db: Books)
    requires Valid(db) && db.accounts.Keys == {"fosa", "bosa"}
    requires db.accounts["fosa"] == Account(T, FOSA, 600000, 0, false, 0, 0, true, 2)
    requires |db.transactions| == 3 && |db.entries| == 2
    requires db.transactions[0].reference == "D" && db.transactions[2].reference == "X-DST"
    requires db.transactions[1] == Transaction(T, "fosa", TxTransfer, COMPLETED, 400000, 1000000,
                                               600000, "X-SRC", Some(2))
    requires db.entries[0].entryNumber == LedgerNumber("D") && db.entries[0].transaction == 0
    requires db.entries[1] == JournalEntry(T, LedgerNumber("X"), TRANSFER, 1,
                                           [Posting(FOSA_DEPOSITS, BOSA_DEPOSITS, 400000)], None)
    ensures Attempt(db, Reverse(T, 1)).Success? && Step(db, Reverse(T, 1)) != db
  {
    assert FindEntry(db.entries, T, 1, 1) == Some(1);
    assert FindEntry(db.entries, T, 1) == Some(1);
    EntryOkAt(db, 0);
    hide Valid;
    assert !HasReversal(db.entries, T, 1);
    assert !HasReference(db.transactions, T, "X-SRC" + "-REVERSAL");
    assert !HasEntryNumber(db.entries, T, "JE-REVERSAL-" + "X-SRC") by {
      forall k | 0 <= k < 2
        ensures db.entries[k].entryNumber != "JE-REVERSAL-" + "X-SRC"
      {
        assert db.entries[k].entryNumber[3] == 'L' && ("JE-REVERSAL-" + "X-SRC")[3] == 'R';
      }
    }
  }

  lemma EntryOkAt(db: Books, k: nat)
    requires Valid(db) && k < |db.entries|
    ensures db.entries[k].reversalOf.Some? ==> db.entries[k].reversalOf.value < k
  {
  }

  /** A deposit posted as a debit is accepted and puts the control accounts out of step. */
  lemma WrongDirectionBreaksControl()
    ensures var op := Post(T, "E", DEPOSIT, "fosa", 10.0, DEBIT);
      && Valid(Moved()) && InStep(Moved()) && Attempt(Moved(), op).Success?
      && Valid(Step(Moved(), op)) && !InStep(Step(Moved(), op))
  {
    hide Moved, Valid, InStep, EntriesAligned;
    MovedIsSound();
    AfterTransfer();
    DebitDepositSucceeds(Moved());
    PostInStepIff(Moved(), Post(T, "E", DEPOSIT, "fosa", 10.0, DEBIT));
  }

  lemma DebitDepositSucceeds(db: Books)
    requires db.chart == Start().chart && db.accounts.Keys == {"fosa", "bosa"}
    requires db.accounts["fosa"] == Account(T, FOSA, 600000, 0, false, 0, 0, true, 2)
    requires |db.transactions| == 3 && |db.entries| == 2
    requires db.transactions[0].reference == "D" && db.transactions[1].reference == "X-SRC"
    requires db.transactions[2].reference == "X-DST"
    requires db.entries[0].entryNumber == LedgerNumber("D") && db.entries[1].entryNumber == LedgerNumber("X")
    ensures var op := Post(T, "E", DEPOSIT, "fosa", 10.0, DEBIT);
      Attempt(db, op).Success? && Step(db, op) != db
  {
    assert ToUnits(10.0) == 100000;
    assert FindReference(db.transactions, T, "E") == None;
    assert LedgerNumber("E")[10] == 'E' && LedgerNumber("D")[10] == 'D' && LedgerNumber("X")[10] == 'X';
    assert !HasEntryNumber(db.entries, T, LedgerNumber("E"));
  }

  /** Posting under the reference of a transfer's destination leg is answered "ledger is inconsistent". */
  lemma DestinationReferenceConflicts()
    ensures Attempt(Moved(), Post(T, "X-DST", DEPOSIT, "fosa", 10.0, CREDIT)) == Failure(Inconsistent)
  {
    AfterTransfer();
    var db := Moved();
    assert ToUnits(10.0) == 100000;
    assert "X-SRC"[2] != "X-DST"[2];
    assert FindReference(db.transactions, T, "X-DST", 2) == Some(2);
    assert FindReference(db.transactions, T, "X-DST", 1) == Some(2);
    assert FindReference(db.transactions, T, "X-DST") == Some(2);
  }

  const DEPOSIT_SRC := Post(T, "X-SRC", DEPOSIT, "fosa", 100.0, CREDIT)

  lemma AfterSrcDeposit()
    ensures Opening(Start()) && Attempt(Start(), DEPOSIT_SRC).Success?
    ensures var rows := Step(Start(), DEPOSIT_SRC).transactions;
      |rows| == 1 && rows[0].reference == "X-SRC" && rows[0].tenantId == T
  {
    assert ToUnits(100.0) == 1000000;
  }

  /** A transfer whose source reference a posting has used is answered "ledger is inconsistent". */
  lemma SourceReferenceConflicts()
    ensures Opening(Start()) && Attempt(Start(), DEPOSIT_SRC).Success?
    ensures Attempt(Run(Start(), [DEPOSIT_SRC]), TRANSFER_40) == Failure(Inconsistent)
  {
    AfterSrcDeposit();
    assert ToUnits(40.0) == 400000;
    var db := Step(Start(), DEPOSIT_SRC);
    assert [DEPOSIT_SRC][..0] == [] && Run(Start(), [DEPOSIT_SRC]) == db;
    hide Start, Step, Run, Attempt, ToUnits, Valid, Opening;
    RunKeepsValid(Start(), [DEPOSIT_SRC]);
    OnlyTheSource(db.transactions);
    TransferInconsistentIff(db, TRANSFER_40);
  }

  lemma OnlyTheSource(rows: seq<Transaction>)
    requires |rows| == 1 && rows[0].reference == "X-SRC" && rows[0].tenantId == T
    ensures HasReference(rows, T, "X" + "-SRC") && !HasReference(rows, T, "X" + "-DST")
  {
    assert "X" + "-SRC" == "X-SRC" && ("X" + "-DST")[2] == 'D' && "X-SRC"[2] == 'S';
    assert IsReference(rows[0], T, "X" + "-SRC");
  }
}
