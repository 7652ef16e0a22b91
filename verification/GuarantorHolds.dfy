/**
 The pool of held savings against the guarantees it backs. `Slack` is what an account holds beyond
 the guarantees that count on it: never negative, whatever happens, and zero exactly as long as no
 hold has been stranded.
 */
module GuarantorHolds {
  import opened GuarantorModel

  /** What a row counts for at an account. */
  function Contribution(loans: map<string, Loan>, row: Guarantor, key: Key): int {
    if Unreleased(row) && KeyOf(loans, row) == key then row.amount else 0
  }

  /** Guaranteed amounts of accepted rows whose hold is not released, per account. */
  function Committed(loans: map<string, Loan>, rows: seq<Guarantor>, key: Key): int {
    if rows == [] then 0
    else Committed(loans, rows[..|rows| - 1], key) + Contribution(loans, rows[|rows| - 1], key)
  }

  function Frozen(accounts: map<Key, Account>, key: Key): int {
    if key in accounts then accounts[key].frozen else 0
  }

  function Slack(db: Rows, key: Key): int {
    Frozen(db.accounts, key) - Committed(db.loans, db.guarantors, key)
  }

  ghost predicate AmountsOk(rows: seq<Guarantor>) {
    forall i :: 0 <= i < |rows| && InGroup(rows[i], AllAccepted) ==> rows[i].amount > 0
  }

  ghost predicate LoansOk(loans: map<string, Loan>, rows: seq<Guarantor>) {
    forall i :: 0 <= i < |rows| ==> rows[i].loanId in loans
  }

  /** No guarantee counts on more than is held. */
  ghost predicate Backed(db: Rows) {
    forall key :: Slack(db, key) >= 0
  }

  /** A released hold belongs to an accepted or remediated row of a loan that takes no guarantors any more. */
  ghost predicate ReleasesFinal(db: Rows) {
    forall i :: 0 <= i < |db.guarantors| && db.guarantors[i].holdReleased ==>
      && db.guarantors[i].status in {GuarantorStatus.ACCEPTED, GuarantorStatus.RELEASED}
      && db.guarantors[i].loanId in db.loans && !Open(db.loans[db.guarantors[i].loanId])
  }

  ghost predicate Valid(db: Rows) {
    LoansOk(db.loans, db.guarantors) && AmountsOk(db.guarantors) && Backed(db) && ReleasesFinal(db)
  }

  // ---- Sums ---------------------------------------------------------------------------

  lemma {:induction false} CommittedUpdate(loans: map<string, Loan>, rows: seq<Guarantor>, i: nat,
                                           row: Guarantor, key: Key)
    requires i < |rows|
    ensures Committed(loans, rows[i := row], key)
         == Committed(loans, rows, key) - Contribution(loans, rows[i], key) + Contribution(loans, row, key)
  {
    var n := |rows| - 1;
    if i < n {
      CommittedUpdate(loans, rows[..n], i, row, key);
      assert rows[i := row][..n] == rows[..n][i := row];
    } else {
      assert rows[i := row][..n] == rows[..n];
    }
  }

  lemma {:induction false} CommittedBound(loans: map<string, Loan>, rows: seq<Guarantor>, i: nat, key: Key)
    requires AmountsOk(rows) && i <= |rows|
    ensures Committed(loans, rows, key) >= 0
    ensures i < |rows| ==> Committed(loans, rows, key) >= Contribution(loans, rows[i], key)
  {
    if rows != [] {
      var n := |rows| - 1;
      CommittedBound(loans, rows[..n], if i < n then i else n, key);
    }
  }

  lemma {:induction false} CommittedSameTypes(loans: map<string, Loan>, loans': map<string, Loan>,
                                              rows: seq<Guarantor>, key: Key)
    requires forall i :: 0 <= i < |rows| ==> KeyOf(loans, rows[i]) == KeyOf(loans', rows[i])
    ensures Committed(loans, rows, key) == Committed(loans', rows, key)
  {
    if rows != [] {
      CommittedSameTypes(loans, loans', rows[..|rows| - 1], key);
    }
  }

  // ---- One row ------------------------------------------------------------------------

  /** An accepted row is backed by its account: at least its amount is held there. */
  lemma UnreleasedIsHeld(db: Rows, i: nat)
    requires AmountsOk(db.guarantors) && Backed(db) && i < |db.guarantors| && Unreleased(db.guarantors[i])
    ensures var key := KeyOf(db.loans, db.guarantors[i]);
      key in db.accounts && db.accounts[key].frozen >= db.guarantors[i].amount > 0
  {
    var key := KeyOf(db.loans, db.guarantors[i]);
    CommittedBound(db.loans, db.guarantors, i, key);
    assert Slack(db, key) >= 0;
  }

  lemma ReleaseRowSlack(db: Rows, i: nat, key: Key)
    requires AmountsOk(db.guarantors) && Backed(db) && i < |db.guarantors| && Unreleased(db.guarantors[i])
    ensures Slack(ReleaseRow(db, i), key) == Slack(db, key)
      + (if KeyOf(db.loans, db.guarantors[i]) == key && !HasActiveAccount(db.accounts, key)
         then db.guarantors[i].amount else 0)
  {
    UnreleasedIsHeld(db, i);
    CommittedUpdate(db.loans, db.guarantors, i, db.guarantors[i].(holdReleased := true), key);
  }

  // ---- All accepted rows of a loan ----------------------------------------------------

  ghost predicate Increasing(list: seq<nat>) {
    forall j, k :: 0 <= j < k < |list| ==> list[j] < list[k]
  }

  lemma {:induction false} ReleasedRows(db: Rows, list: seq<nat>, i: nat)
    requires Increasing(list) && (forall k :: 0 <= k < |list| ==> list[k] < |db.guarantors|) && i < |db.guarantors|
    ensures var r := ReleaseAll(db, list);
      && r.guarantors[i] == (if i in list then db.guarantors[i].(holdReleased := true) else db.guarantors[i])
      && r.loans == db.loans && r.members == db.members && r.accounts.Keys == db.accounts.Keys
      && forall key :: HasActiveAccount(r.accounts, key) == HasActiveAccount(db.accounts, key)
  {
    if list != [] {
      var init, last := list[..|list| - 1], list[|list| - 1];
      assert list == init + [last];
      ReleasedRows(db, init, i);
    }
  }

  /** Some listed row counts on this account, and the account cannot be found to release its hold. */
  ghost predicate SomeStranded(db: Rows, list: seq<nat>, key: Key) {
    !HasActiveAccount(db.accounts, key)
    && exists k :: 0 <= k < |list| && list[k] < |db.guarantors| && KeyOf(db.loans, db.guarantors[list[k]]) == key
  }

  lemma {:induction false} ReleaseAllSlack(db: Rows, list: seq<nat>, key: Key)
    requires AmountsOk(db.guarantors) && Backed(db) && Increasing(list)
    requires forall k :: 0 <= k < |list| ==> list[k] < |db.guarantors| && Unreleased(db.guarantors[list[k]])
    ensures Slack(ReleaseAll(db, list), key) >= Slack(db, key)
    ensures Slack(ReleaseAll(db, list), key) == Slack(db, key) <==> !SomeStranded(db, list, key)
  {
    if list != [] {
      var init, last := list[..|list| - 1], list[|list| - 1];
      var before := ReleaseAll(db, init);
      ReleaseAllSlack(db, init, key);
      ReleaseAllKeepsBacked(db, init);
      ReleasedRows(db, init, last);
      assert last !in init;
      ReleaseRowSlack(before, last, key);
      if SomeStranded(db, init, key) {
        var k :| 0 <= k < |init| && init[k] < |db.guarantors| && KeyOf(db.loans, db.guarantors[init[k]]) == key;
        assert list[k] == init[k];
      }
      if SomeStranded(db, list, key) {
        var k :| 0 <= k < |list| && list[k] < |db.guarantors| && KeyOf(db.loans, db.guarantors[list[k]]) == key;
        if k < |init| {
          assert init[k] == list[k];
        }
      }
      assert list[|init|] == last;
    }
  }

  lemma {:induction false} ReleaseAllKeepsBacked(db: Rows, list: seq<nat>)
    requires AmountsOk(db.guarantors) && Backed(db) && Increasing(list)
    requires forall k :: 0 <= k < |list| ==> list[k] < |db.guarantors| && Unreleased(db.guarantors[list[k]])
    ensures AmountsOk(ReleaseAll(db, list).guarantors) && Backed(ReleaseAll(db, list))
    decreases |list|, 0
  {
    if list != [] {
      var init, last := list[..|list| - 1], list[|list| - 1];
      ReleaseAllKeepsBacked(db, init);
      ReleasedRows(db, init, last);
      forall key
        ensures Slack(ReleaseAll(db, list), key) >= 0
      {
        assert last !in init;
        ReleaseRowSlack(ReleaseAll(db, init), last, key);
      }
    }
  }
}
