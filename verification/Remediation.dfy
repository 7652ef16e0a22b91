/**
 Release of stranded guarantor holds (src/commands/remediate-stranded-data.command.ts): the command
 as it runs, and what a run achieves. A candidate whose transaction fails is given as a set, since
 the reasons lie outside the rows.
 */
module Remediation {
  import opened Decimals
  import opened GuarantorModel
  import opened GuarantorHolds
  import opened GuarantorDecisions

  datatype Stats = Stats(
    strandedFound: nat, guarantorsReleased: nat, missingAccounts: nat, zeroFrozenAccounts: nat, guarantorErrors: nat)

  /** What the audit log records of one release. */
  datatype Release = Release(guarantor: nat, key: Key, amount: int)

  datatype Progress = Progress(db: Rows, stats: Stats, log: seq<Release>)

  // ---- The specification --------------------------------------------------------------

  /** The stranded rows, in order. */
  function Candidates(db: Rows, n: nat): (r: seq<nat>)
    requires n <= |db.guarantors|
    ensures forall k :: 0 <= k < |r| ==> r[k] < n && Stranded(db, r[k])
    ensures forall j, k :: 0 <= j < k < |r| ==> r[j] < r[k]
    ensures forall i :: 0 <= i < n && Stranded(db, i) ==> i in r
  {
    if n == 0 then []
    else Candidates(db, n - 1) + (if Stranded(db, n - 1) then [n - 1] else [])
  }

  function MarkedRow(row: Guarantor): Guarantor {
    row.(status := GuarantorStatus.RELEASED, holdReleased := true)
  }

  /** `markGuarantorReleased`. */
  function MarkReleased(rows: seq<Guarantor>, i: nat): seq<Guarantor>
    requires i < |rows|
  {
    rows[i := MarkedRow(rows[i])]
  }

  function ReleaseAmount(db: Rows, i: nat): int
    requires i < |db.guarantors|
  {
    var key := KeyOf(db.loans, db.guarantors[i]);
    if key in db.accounts then Min(db.accounts[key].frozen, db.guarantors[i].amount) else 0
  }

  /** `releaseOneGuarantorHold`, with the counters that its caller raises. */
  function ReleaseOne(p: Progress, i: nat): Progress
    requires i < |p.db.guarantors|
  {
    var db, row := p.db, p.db.guarantors[i];
    var stats := p.stats.(guarantorsReleased := p.stats.guarantorsReleased + 1);
    if !Unreleased(row) then p.(stats := stats)
    else
      var key, amount := KeyOf(db.loans, row), ReleaseAmount(db, i);
      var log := p.log + [Release(i, key, amount)];
      if key !in db.accounts then
        Progress(db.(guarantors := MarkReleased(db.guarantors, i)),
                 stats.(missingAccounts := stats.missingAccounts + 1), log)
      else
        var account := db.accounts[key];
        var accounts := if amount > 0 then db.accounts[key := account.(frozen := account.frozen - amount)]
                        else db.accounts;
        Progress(db.(accounts := accounts, guarantors := MarkReleased(db.guarantors, i)),
                 if amount == 0 then stats.(zeroFrozenAccounts := stats.zeroFrozenAccounts + 1) else stats, log)
  }

  /** The loop over the candidates. */
  function Sweep(p: Progress, list: seq<nat>, dryRun: bool, failing: set<nat>): (r: Progress)
    requires forall k :: 0 <= k < |list| ==> list[k] < |p.db.guarantors|
    ensures |r.db.guarantors| == |p.db.guarantors|
  {
    if list == [] then p
    else
      var before, i := Sweep(p, list[..|list| - 1], dryRun, failing), list[|list| - 1];
      if dryRun then before
      else if i in failing then before.(stats := before.stats.(guarantorErrors := before.stats.guarantorErrors + 1))
      else ReleaseOne(before, i)
  }

  /** `releaseStrandedGuarantorFunds`. */
  function Remediate(db: Rows, dryRun: bool, failing: set<nat>): Progress {
    var list := Candidates(db, |db.guarantors|);
    Sweep(Progress(db, Stats(|list|, 0, 0, 0, 0), []), list, dryRun, failing)
  }

  // ---- The command --------------------------------------------------------------------

  class RemediateStrandedDataCommand {
    var loans: map<string, Loan>
    var guarantors: seq<Guarantor>
    var accounts: map<Key, Account>
    var members: map<string, Member>
    var stats: Stats
    var log: seq<Release>

    constructor (db: Rows)
      ensures Database() == db && log == []
    {
      loans, guarantors, accounts, members := db.loans, db.guarantors, db.accounts, db.members;
      stats, log := Stats(0, 0, 0, 0, 0), [];
    }

    function Database(): Rows
      reads this
    {
      Rows(loans, guarantors, accounts, members)
    }

    ghost function State(): Progress
      reads this
    {
      Progress(Database(), stats, log)
    }

    method ReleaseStrandedGuarantorFunds(dryRun: bool, failing: set<nat>)
      requires log == [] && stats == Stats(0, 0, 0, 0, 0)
      modifies this
      ensures State() == Remediate(old(Database()), dryRun, failing)
    {
      hide ReleaseOne, Candidates, Stranded;
      var candidates := Candidates(Database(), |guarantors|);
      stats := stats.(strandedFound := |candidates|);
      ghost var start := State();
      var k := 0;
      while k < |candidates|
        invariant 0 <= k <= |candidates|
        invariant |guarantors| == |start.db.guarantors|
        invariant State() == Sweep(start, candidates[..k], dryRun, failing)
      {
        assert candidates[..k + 1][..k] == candidates[..k];
        if !dryRun {
          if candidates[k] in failing {
            stats := stats.(guarantorErrors := stats.guarantorErrors + 1);
          } else {
            var missingAccount, zeroFrozen := ReleaseOneGuarantorHold(candidates[k]);
            if missingAccount {
              stats := stats.(missingAccounts := stats.missingAccounts + 1);
            }
            if zeroFrozen {
              stats := stats.(zeroFrozenAccounts := stats.zeroFrozenAccounts + 1);
            }
            stats := stats.(guarantorsReleased := stats.guarantorsReleased + 1);
          }
        }
        k := k + 1;
      }
      assert candidates[..k] == candidates;
    }

    method ReleaseOneGuarantorHold(i: nat) returns (missingAccount: bool, zeroFrozen: bool)
      requires i < |guarantors|
      modifies this`guarantors, this`accounts, this`log
      ensures |guarantors| == |old(guarantors)|
      ensures var s := old(stats).(guarantorsReleased := old(stats).guarantorsReleased + 1);
        var s' := if missingAccount then s.(missingAccounts := s.missingAccounts + 1) else s;
        var s'' := if zeroFrozen then s'.(zeroFrozenAccounts := s'.zeroFrozenAccounts + 1) else s';
        State().(stats := s'') == ReleaseOne(old(State()), i)
    {
      var guarantor := guarantors[i];
      if guarantor.status != GuarantorStatus.ACCEPTED || guarantor.holdReleased {
        return false, false;
      }
      var key := KeyOf(loans, guarantor);
      if key !in accounts {
        MarkGuarantorReleased(i);
        log := log + [Release(i, key, 0)];
        return true, false;
      }
      var account := accounts[key];
      var releaseAmount := Min(account.frozen, guarantor.amount);
      if releaseAmount > 0 {
        accounts := accounts[key := account.(frozen := account.frozen - releaseAmount)];
      }
      MarkGuarantorReleased(i);
      log := log + [Release(i, key, releaseAmount)];
      return false, releaseAmount == 0;
    }

    method MarkGuarantorReleased(i: nat)
      requires i < |guarantors|
      modifies this`guarantors
      ensures guarantors == MarkReleased(old(guarantors), i)
    {
      guarantors := guarantors[i := guarantors[i].(status := GuarantorStatus.RELEASED, holdReleased := true)];
    }
  }

  // ---- Which rows are released --------------------------------------------------------

  predicate Handled(list: seq<nat>, dryRun: bool, failing: set<nat>, i: nat) {
    i in list && !dryRun && i !in failing
  }

  lemma ReleaseOneRow(p: Progress, j: nat, i: nat)
    requires j < |p.db.guarantors| && i < |p.db.guarantors|
    ensures var r := ReleaseOne(p, j).db;
      && |r.guarantors| == |p.db.guarantors|
      && r.loans == p.db.loans && r.members == p.db.members && r.accounts.Keys == p.db.accounts.Keys
      && r.guarantors[i] == if i == j && Unreleased(p.db.guarantors[i]) then MarkedRow(p.db.guarantors[i])
                            else p.db.guarantors[i]
  {
  }

  lemma {:induction false} SweepRow(p: Progress, list: seq<nat>, dryRun: bool, failing: set<nat>, i: nat)
    requires Increasing(list) && (forall k :: 0 <= k < |list| ==> list[k] < |p.db.guarantors|) && i < |p.db.guarantors|
    ensures var r := Sweep(p, list, dryRun, failing).db;
      && r.loans == p.db.loans && r.members == p.db.members && r.accounts.Keys == p.db.accounts.Keys
      && r.guarantors[i] == if Handled(list, dryRun, failing, i) && Unreleased(p.db.guarantors[i])
                            then MarkedRow(p.db.guarantors[i]) else p.db.guarantors[i]
  {
    hide ReleaseOne, Unreleased, MarkedRow;
    if list != [] {
      var init, last := list[..|list| - 1], list[|list| - 1];
      SweepRow(p, init, dryRun, failing, i);
      assert last !in init;
      assert i in list <==> i in init || i == last by {
        assert list == init + [last];
      }
      if !dryRun && last !in failing {
        ReleaseOneRow(Sweep(p, init, dryRun, failing), last, i);
      }
    }
  }

  /** Exactly the candidates that were not handled are still stranded after a run. */
  lemma StrandedAfter(db: Rows, dryRun: bool, failing: set<nat>, i: nat)
    ensures Stranded(Remediate(db, dryRun, failing).db, i) <==> Stranded(db, i) && (dryRun || i in failing)
  {
    var list := Candidates(db, |db.guarantors|);
    if i < |db.guarantors| {
      SweepRow(Progress(db, Stats(|list|, 0, 0, 0, 0), []), list, dryRun, failing, i);
    }
  }

  /**
   What a run makes of each row: an accepted guarantee of a rejected loan that still holds savings
   becomes RELEASED, unless it is a dry run or its transaction fails; every other row, and every loan,
   stays as it is.
   */
  lemma RemediatedRow(db: Rows, dryRun: bool, failing: set<nat>, i: nat)
    requires i < |db.guarantors|
    ensures var after, row := Remediate(db, dryRun, failing).db, db.guarantors[i];
      var isReleased := !dryRun && i !in failing && row.status == GuarantorStatus.ACCEPTED && !row.holdReleased
        && row.loanId in db.loans && db.loans[row.loanId].status in {LoanStatus.REJECTED, REJECTED_GUARANTOR_DECLINE};
      && |after.guarantors| == |db.guarantors| && after.loans == db.loans && after.members == db.members
      && after.guarantors[i]
           == if isReleased then row.(status := GuarantorStatus.RELEASED, holdReleased := true) else row
  {
    var list := Candidates(db, |db.guarantors|);
    SweepRow(Progress(db, Stats(|list|, 0, 0, 0, 0), []), list, dryRun, failing, i);
    assert i in list <==> Stranded(db, i);
  }

  lemma {:induction false} NoCandidates(db: Rows, n: nat)
    requires n <= |db.guarantors| && forall i :: !Stranded(db, i)
    ensures Candidates(db, n) == []
  {
    if n > 0 {
      NoCandidates(db, n - 1);
    }
  }

  /** A live run in which nothing fails leaves no stranded guarantee, so that a second run finds and changes nothing. */
  lemma SecondRunChangesNothing(db: Rows, dryRun: bool, failing: set<nat>)
    ensures var once := Remediate(db, false, {}).db;
      && (forall i :: !Stranded(once, i))
      && Remediate(once, dryRun, failing) == Progress(once, Stats(0, 0, 0, 0, 0), [])
  {
    var once := Remediate(db, false, {}).db;
    forall i
      ensures !Stranded(once, i)
    {
      StrandedAfter(db, false, {}, i);
    }
    NoCandidates(once, |once.guarantors|);
  }

  lemma {:induction false} DrySweep(p: Progress, list: seq<nat>, failing: set<nat>)
    requires forall k :: 0 <= k < |list| ==> list[k] < |p.db.guarantors|
    ensures Sweep(p, list, true, failing) == p
  {
    if list != [] {
      DrySweep(p, list[..|list| - 1], failing);
    }
  }

  /** A dry run counts the stranded guarantees and changes nothing. */
  lemma DryRunChangesNothing(db: Rows, failing: set<nat>)
    ensures Remediate(db, true, failing) == Progress(db, Stats(|Candidates(db, |db.guarantors|)|, 0, 0, 0, 0), [])
  {
    var list := Candidates(db, |db.guarantors|);
    DrySweep(Progress(db, Stats(|list|, 0, 0, 0, 0), []), list, failing);
  }

  // ---- How much is released -----------------------------------------------------------

  /** What the log says was released from an account. */
  function Released(log: seq<Release>, key: Key): int {
    if log == [] then 0
    else Released(log[..|log| - 1], key) + (if log[|log| - 1].key == key then log[|log| - 1].amount else 0)
  }

  ghost predicate NothingNegative(db: Rows) {
    AmountsOk(db.guarantors) && forall key :: Frozen(db.accounts, key) >= 0
  }

  lemma ReleaseOneFrozen(p: Progress, i: nat, key: Key)
    requires NothingNegative(p.db) && i < |p.db.guarantors|
    ensures var r := ReleaseOne(p, i);
      && NothingNegative(r.db) && |r.db.guarantors| == |p.db.guarantors|
      && Frozen(r.db.accounts, key) + Released(r.log, key) == Frozen(p.db.accounts, key) + Released(p.log, key)
  {
    var r := ReleaseOne(p, i);
    assert r.log != p.log ==> r.log[..|p.log|] == p.log;
    assert Unreleased(p.db.guarantors[i]) ==> InGroup(p.db.guarantors[i], AllAccepted);
    forall k
      ensures Frozen(r.db.accounts, k) >= 0
    {
      assert Frozen(p.db.accounts, k) >= 0;
    }
  }

  lemma {:induction false} SweepFrozen(p: Progress, list: seq<nat>, dryRun: bool, failing: set<nat>, key: Key)
    requires NothingNegative(p.db) && forall k :: 0 <= k < |list| ==> list[k] < |p.db.guarantors|
    ensures var r := Sweep(p, list, dryRun, failing);
      && NothingNegative(r.db)
      && Frozen(r.db.accounts, key) + Released(r.log, key) == Frozen(p.db.accounts, key) + Released(p.log, key)
  {
    hide ReleaseOne, NothingNegative;
    if list != [] {
      var init, last := list[..|list| - 1], list[|list| - 1];
      SweepFrozen(p, init, dryRun, failing, key);
      if !dryRun && last !in failing {
        ReleaseOneFrozen(Sweep(p, init, dryRun, failing), last, key);
      }
    }
  }

  /** A run never makes held savings negative, and lowers those of every account by exactly what its log says. */
  lemma FrozenFallsByReleased(db: Rows, dryRun: bool, failing: set<nat>, key: Key)
    requires NothingNegative(db)
    ensures var r := Remediate(db, dryRun, failing);
      && 0 <= Frozen(r.db.accounts, key) == Frozen(db.accounts, key) - Released(r.log, key)
  {
    var list := Candidates(db, |db.guarantors|);
    SweepFrozen(Progress(db, Stats(|list|, 0, 0, 0, 0), []), list, dryRun, failing, key);
  }

  // ---- The counters -------------------------------------------------------------------

  /** How many of the listed rows are handled by a live run, and how many of those have no account. */
  function HandledIn(list: seq<nat>, failing: set<nat>): nat {
    if list == [] then 0
    else HandledIn(list[..|list| - 1], failing) + (if list[|list| - 1] in failing then 0 else 1)
  }

  function WithoutAccount(db: Rows, list: seq<nat>, failing: set<nat>): nat
    requires forall k :: 0 <= k < |list| ==> list[k] < |db.guarantors|
  {
    if list == [] then 0
    else
      var last := list[|list| - 1];
      var missing := last !in failing && KeyOf(db.loans, db.guarantors[last]) !in db.accounts;
      WithoutAccount(db, list[..|list| - 1], failing) + (if missing then 1 else 0)
  }

  lemma {:induction false} SweepCounts(p: Progress, list: seq<nat>, failing: set<nat>)
    requires Increasing(list) && forall k :: 0 <= k < |list| ==>
      list[k] < |p.db.guarantors| && Unreleased(p.db.guarantors[list[k]])
    ensures var r := Sweep(p, list, false, failing);
      && r.stats.strandedFound == p.stats.strandedFound
      && r.stats.guarantorsReleased == p.stats.guarantorsReleased + HandledIn(list, failing)
      && r.stats.guarantorErrors == p.stats.guarantorErrors + |list| - HandledIn(list, failing)
      && r.stats.missingAccounts == p.stats.missingAccounts + WithoutAccount(p.db, list, failing)
      && |r.log| == |p.log| + HandledIn(list, failing)
  {
    if list != [] {
      var init, last := list[..|list| - 1], list[|list| - 1];
      SweepCounts(p, init, failing);
      SweepRow(p, init, false, failing, last);
      assert last !in init;
    }
  }

  /** From whatever rows, a live run counts every candidate as released or failed, and each missing account. */
  lemma CountersAre(db: Rows, failing: set<nat>)
    ensures var r, found := Remediate(db, false, failing), Candidates(db, |db.guarantors|);
      && r.stats.strandedFound == |found| == r.stats.guarantorsReleased + r.stats.guarantorErrors
      && r.stats.guarantorsReleased == HandledIn(found, failing) == |r.log|
      && r.stats.missingAccounts == WithoutAccount(db, found, failing)
  {
    var list := Candidates(db, |db.guarantors|);
    forall k | 0 <= k < |list|
      ensures Unreleased(db.guarantors[list[k]])
    {
      assert Stranded(db, list[k]);
    }
    SweepCounts(Progress(db, Stats(|list|, 0, 0, 0, 0), []), list, failing);
  }

  // ---- From sound rows ----------------------------------------------------------------

  /** Every logged release is the whole amount that its row guaranteed. */
  ghost predicate InFull(rows: seq<Guarantor>, log: seq<Release>) {
    forall k :: 0 <= k < |log| ==> log[k].guarantor < |rows| && log[k].amount == rows[log[k].guarantor].amount
  }

  ghost predicate SameAmounts(rows: seq<Guarantor>, rows': seq<Guarantor>) {
    |rows'| == |rows| && forall i :: 0 <= i < |rows| ==> rows'[i].amount == rows[i].amount
  }

  lemma ReleaseOneSound(rows: seq<Guarantor>, p: Progress, i: nat)
    requires AmountsOk(p.db.guarantors) && Backed(p.db) && i < |p.db.guarantors| && Unreleased(p.db.guarantors[i])
    requires SameAmounts(rows, p.db.guarantors) && InFull(rows, p.log)
    ensures var r := ReleaseOne(p, i);
      && AmountsOk(r.db.guarantors) && SameAmounts(rows, r.db.guarantors) && InFull(rows, r.log)
      && (forall key :: Slack(r.db, key) == Slack(p.db, key))
      && r.stats == p.stats.(guarantorsReleased := p.stats.guarantorsReleased + 1) && |r.log| == |p.log| + 1
  {
    UnreleasedIsHeld(p.db, i);
    var r := ReleaseOne(p, i);
    forall key
      ensures Slack(r.db, key) == Slack(p.db, key)
    {
      CommittedUpdate(p.db.loans, p.db.guarantors, i, r.db.guarantors[i], key);
    }
  }

  lemma {:induction false} SweepSound(p: Progress, list: seq<nat>, failing: set<nat>)
    requires AmountsOk(p.db.guarantors) && Backed(p.db) && Increasing(list) && p.log == []
    requires forall k :: 0 <= k < |list| ==> list[k] < |p.db.guarantors| && Unreleased(p.db.guarantors[list[k]])
    ensures var r := Sweep(p, list, false, failing);
      && AmountsOk(r.db.guarantors) && SameAmounts(p.db.guarantors, r.db.guarantors) && InFull(p.db.guarantors, r.log)
      && (forall key :: Slack(r.db, key) == Slack(p.db, key)) && Backed(r.db)
      && r.stats.guarantorsReleased == p.stats.guarantorsReleased + |r.log|
      && r.stats.guarantorErrors == p.stats.guarantorErrors + |list| - |r.log|
      && r.stats.missingAccounts == p.stats.missingAccounts && r.stats.zeroFrozenAccounts == p.stats.zeroFrozenAccounts
  {
    hide ReleaseOne, AmountsOk, Slack;
    if list != [] {
      var init, last := list[..|list| - 1], list[|list| - 1];
      SweepSound(p, init, failing);
      var before := Sweep(p, init, false, failing);
      if last !in failing {
        SweepRow(p, init, false, failing, last);
        assert last !in init;
        ReleaseOneSound(p.db.guarantors, before, last);
        forall key
          ensures Slack(Sweep(p, list, false, failing).db, key) >= 0
        {
          assert Slack(before.db, key) >= 0;
        }
      }
    }
  }

  /**
   From sound rows a live run releases every handled guarantee in full, meets no missing or empty
   account, accounts for every candidate as released or failed, and leaves the pool as well matched
   as it found it.
   */
  lemma ReleasesInFull(db: Rows, failing: set<nat>, key: Key)
    requires Valid(db)
    ensures var r := Remediate(db, false, failing);
      && Slack(r.db, key) == Slack(db, key) && InFull(db.guarantors, r.log)
      && r.stats.guarantorsReleased == |r.log| && r.stats.missingAccounts == r.stats.zeroFrozenAccounts == 0
      && r.stats.guarantorsReleased + r.stats.guarantorErrors == r.stats.strandedFound
  {
    var list := Candidates(db, |db.guarantors|);
    var p := Progress(db, Stats(|list|, 0, 0, 0, 0), []);
    forall k | 0 <= k < |list|
      ensures Unreleased(db.guarantors[list[k]])
    {
      assert Stranded(db, list[k]);
    }
    SweepSound(p, list, failing);
    FoundStays(p, list, false, failing);
  }

  lemma {:induction false} FoundStays(p: Progress, list: seq<nat>, dryRun: bool, failing: set<nat>)
    requires forall k :: 0 <= k < |list| ==> list[k] < |p.db.guarantors|
    ensures Sweep(p, list, dryRun, failing).stats.strandedFound == p.stats.strandedFound
  {
    if list != [] {
      FoundStays(p, list[..|list| - 1], dryRun, failing);
    }
  }
}
