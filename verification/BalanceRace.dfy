/**
 `applyBalanceChange` under interleaving (src/modules/accounting/ledger.service.ts): any number of
 debits and credits of one account, each a read of the account followed later by one conditional
 update whose floor was computed from what was read. Between the two, other calls may read and
 update, holds may be placed and released, and the policy of the account may change.

 The interleavings below are those of transactions that do not see each other's changes as conflicts.
 Every posting runs in a serializable transaction: its own (lines 149, 433 and 510 of that file), or
 one that its caller opens as serializable and passes in. There PostgreSQL refuses the update of a
 row that was changed after the transaction's snapshot, which leaves the executions of
 `UnchangedIsSafe`. A guarantor's hold is placed in a transaction of the default level, read committed
 (src/loans/guarantor-response.service.ts:188-307), by a conditional update of its own. So the
 failures below are those of a posting inside a caller's transaction of a weaker level than
 serializable; none of the present callers opens one.
 */
module BalanceRace {
  import opened Decimals
  import opened Outcomes
  import opened LedgerModel

  /** A call in flight: what it has read, and whether its update went through. */
  datatype Call = Call(amount: int, direction: Direction, read: Option<Account>, outcome: Option<bool>)

  datatype World = World(account: Account, calls: seq<Call>)

  datatype Step =
    | Begin(amount: int, direction: Direction)
    | Read(call: nat)
    | Update(call: nat)
    | Adjust(account: Account)

  /** A hold is placed or released, or the policy changes, or the account is (de)activated; the balance stays. */
  predicate Adjusts(a: Account, b: Account) {
    b.balance == a.balance && b.tenantId == a.tenantId && b.accountType == a.accountType && b.version >= a.version
  }

  predicate Enabled(w: World, step: Step) {
    match step
    case Begin(amount, _) => amount > 0
    case Read(i) => i < |w.calls| && w.calls[i].read == None && w.account.isActive
    case Update(i) => i < |w.calls| && w.calls[i].read != None && w.calls[i].outcome == None
    case Adjust(account) => Adjusts(w.account, account)
  }

  /** The condition of the update: active now, and for a debit the balance now against the floor from what was read. */
  predicate Passes(w: World, i: nat)
    requires Enabled(w, Update(i))
  {
    && w.account.isActive
    && (w.calls[i].direction == CREDIT
        || w.account.balance >= DebitFloor(w.calls[i].read.value, w.calls[i].amount))
  }

  function Next(w: World, step: Step): World
    requires Enabled(w, step)
  {
    match step
    case Begin(amount, direction) => w.(calls := w.calls + [Call(amount, direction, None, None)])
    case Read(i) => w.(calls := w.calls[i := w.calls[i].(read := Some(w.account))])
    case Update(i) =>
      var call := w.calls[i];
      if Passes(w, i)
      then World(w.account.(balance := w.account.balance + Delta(call.direction, call.amount),
                            version := w.account.version + 1),
                 w.calls[i := call.(outcome := Some(true))])
      else w.(calls := w.calls[i := call.(outcome := Some(false))])
    case Adjust(account) => w.(account := account)
  }

  /**
   An update that directly follows its read is the serial balance change of the ledger: it goes
   through on the same accounts and leaves the same account.
   */
  lemma UninterruptedIsSerial(w: World, i: nat, accounts: map<string, Account>, accountId: string)
    requires Enabled(w, Read(i)) && w.calls[i].outcome == None
    requires accountId in accounts && accounts[accountId] == w.account
    ensures Enabled(Next(w, Read(i)), Update(i))
    ensures
      var call, after := w.calls[i], Next(Next(w, Read(i)), Update(i));
      match ApplyBalanceChange(accounts, w.account.tenantId, accountId, call.amount, call.direction)
      case Success(change) =>
        && after.calls[i].outcome == Some(true) && change.accounts == accounts[accountId := after.account]
        && change.balanceBefore == w.account.balance && change.balanceAfter == RecordedAfter(after.calls[i])
      case Failure(error) =>
        error == InsufficientFunds && after.calls[i].outcome == Some(false) && after.account == w.account
  {
    var read := Next(w, Read(i));
    assert read.calls[i] == w.calls[i].(read := Some(w.account));
  }

  /** The worlds of an execution: each is the one before it after one enabled step. */
  ghost predicate Execution(worlds: seq<World>, steps: seq<Step>) {
    && |worlds| == |steps| + 1 && worlds[0].calls == []
    && forall k :: 0 <= k < |steps| ==> Enabled(worlds[k], steps[k]) && worlds[k + 1] == Next(worlds[k], steps[k])
  }

  // ---- Between a read and its update --------------------------------------------------


  /** The least balance that is funded. */
  function Needs(a: Account): int {
    var committed := a.lockedBalance + a.frozenSavings;
    if a.allowsNegative then committed else Max(committed, a.minimumBalance)
  }

  /** The committed funds and, unless the account may go below it, the minimum balance are covered. */
  predicate Funded(a: Account) {
    && a.balance >= a.lockedBalance + a.frozenSavings
    && (!a.allowsNegative ==> a.balance >= a.minimumBalance)
  }

  /** Credits minus debits that went through in the steps from j up to k. */
  function NetBetween(worlds: seq<World>, steps: seq<Step>, j: nat, k: nat): int
    requires Execution(worlds, steps) && j <= k <= |steps|
    decreases k
  {
    if j == k then 0
    else
      var w, step := worlds[k - 1], steps[k - 1];
      NetBetween(worlds, steps, j, k - 1)
      + (if step.Update? && Passes(w, step.call)
         then Delta(w.calls[step.call].direction, w.calls[step.call].amount) else 0)
  }

  /** How much the adjustments in the steps from j up to k raise what the account needs. */
  function RiseBetween(worlds: seq<World>, steps: seq<Step>, j: nat, k: nat): int
    requires Execution(worlds, steps) && j <= k <= |steps|
    decreases k
  {
    if j == k then 0
    else
      RiseBetween(worlds, steps, j, k - 1)
      + (if steps[k - 1].Adjust? then Needs(steps[k - 1].account) - Needs(worlds[k - 1].account) else 0)
  }

  lemma {:induction false} BetweenIs(worlds: seq<World>, steps: seq<Step>, j: nat, k: nat)
    requires Execution(worlds, steps) && j <= k <= |steps|
    ensures worlds[k].account.balance == worlds[j].account.balance + NetBetween(worlds, steps, j, k)
    ensures Needs(worlds[k].account) == Needs(worlds[j].account) + RiseBetween(worlds, steps, j, k)
    ensures worlds[k].account.version >= worlds[j].account.version
    ensures worlds[k].account.version == worlds[j].account.version ==>
      worlds[k].account.balance == worlds[j].account.balance
    decreases k
  {
    if j < k {
      BetweenIs(worlds, steps, j, k - 1);
      assert worlds[k] == Next(worlds[k - 1], steps[k - 1]);
    }
  }

  /** A call that has read the account read it in an earlier step. */
  lemma {:induction false} ReadStep(worlds: seq<World>, steps: seq<Step>, k: nat, i: nat) returns (j: nat)
    requires Execution(worlds, steps) && k < |worlds| && i < |worlds[k].calls| && worlds[k].calls[i].read.Some?
    ensures j < k && steps[j] == Read(i) && worlds[k].calls[i].read == Some(worlds[j].account)
  {
    j := k - 1;
    assert worlds[k] == Next(worlds[j], steps[j]);
    if steps[j] != Read(i) {
      j := ReadStep(worlds, steps, k - 1, i);
    }
  }

  /** The call that reads in step j goes through in step k. */
  ghost predicate Succeeds(worlds: seq<World>, steps: seq<Step>, j: nat, k: nat) {
    && Execution(worlds, steps) && j < k < |steps| && steps[j].Read? && steps[k] == Update(steps[j].call)
    && worlds[k + 1].calls[steps[k].call].outcome == Some(true)
  }

  lemma SucceedsMeans(worlds: seq<World>, steps: seq<Step>, j: nat, k: nat)
    requires Succeeds(worlds, steps, j, k)
    ensures var i := steps[k].call;
      && i < |worlds[k].calls| && worlds[k].calls[i].read == Some(worlds[j].account) && Passes(worlds[k], i)
      && worlds[k + 1].calls[i] == worlds[k].calls[i].(outcome := Some(true))
      && worlds[k + 1].account.balance
           == worlds[k].account.balance + Delta(worlds[k].calls[i].direction, worlds[k].calls[i].amount)
  {
    var i := steps[k].call;
    assert Enabled(worlds[k], steps[k]) && worlds[k + 1] == Next(worlds[k], steps[k]);
    var found := ReadStep(worlds, steps, k, i);
    OneRead(worlds, steps, found, j);
  }

  /** A call reads the account once. */
  lemma OneRead(worlds: seq<World>, steps: seq<Step>, j: nat, k: nat)
    requires Execution(worlds, steps) && j < |steps| && k < |steps| && steps[j].Read? && steps[k] == steps[j]
    ensures j == k
  {
    var i := steps[j].call;
    if j < k {
      assert worlds[j + 1] == Next(worlds[j], steps[j]);
      ReadStays(worlds, steps, j + 1, k, i);
    } else if k < j {
      assert worlds[k + 1] == Next(worlds[k], steps[k]);
      ReadStays(worlds, steps, k + 1, j, i);
    }
  }

  lemma {:induction false} ReadStays(worlds: seq<World>, steps: seq<Step>, j: nat, k: nat, i: nat)
    requires Execution(worlds, steps) && j <= k < |worlds| && i < |worlds[j].calls| && worlds[j].calls[i].read.Some?
    ensures i < |worlds[k].calls| && worlds[k].calls[i].read.Some?
    decreases k
  {
    if j < k {
      ReadStays(worlds, steps, j, k - 1, i);
      assert worlds[k] == Next(worlds[k - 1], steps[k - 1]);
    }
  }

  // ---- Funds that a debit leaves ------------------------------------------------------

  /**
   Exactly when a debit that goes through leaves the account funded: when what the account needs has
   risen since the debit read it, through holds and policy changes, by no more than the headroom that
   the debit saw, corrected by what has gone in and out in between.
   */
  lemma DebitLeavesFundedIff(worlds: seq<World>, steps: seq<Step>, j: nat, k: nat)
    requires Succeeds(worlds, steps, j, k) && worlds[k + 1].calls[steps[k].call].direction == DEBIT
    ensures var read, amount := worlds[j].account, worlds[k + 1].calls[steps[k].call].amount;
      Funded(worlds[k + 1].account) <==>
        RiseBetween(worlds, steps, j, k) <= read.balance - amount - Needs(read) + NetBetween(worlds, steps, j, k)
  {
    SucceedsMeans(worlds, steps, j, k);
    BetweenIs(worlds, steps, j, k);
    assert worlds[k + 1] == Next(worlds[k], steps[k]);
  }

  /**
   Under every interleaving in which what the account needs has not risen since the debit read it, a
   debit that goes through leaves the committed funds and, unless the account allows it, the minimum
   balance covered.
   */
  lemma DebitLeavesFunded(worlds: seq<World>, steps: seq<Step>, k: nat)
    requires Execution(worlds, steps) && k < |steps| && steps[k].Update?
    requires worlds[k].calls[steps[k].call].direction == DEBIT
    requires worlds[k + 1].calls[steps[k].call].outcome == Some(true)
    requires forall j :: 0 <= j < k && steps[j] == Read(steps[k].call) ==> RiseBetween(worlds, steps, j, k) <= 0
    ensures Funded(worlds[k + 1].account)
  {
    assert worlds[k + 1] == Next(worlds[k], steps[k]);
    var j := ReadStep(worlds, steps, k, steps[k].call);
    SucceedsMeans(worlds, steps, j, k);
    BetweenIs(worlds, steps, j, k);
  }

  /** Holds and minimum balance only fall. */
  ghost predicate OnlyRelaxes(worlds: seq<World>, steps: seq<Step>)
    requires Execution(worlds, steps)
  {
    forall k :: 0 <= k < |steps| && steps[k].Adjust? ==> Needs(steps[k].account) <= Needs(worlds[k].account)
  }

  lemma {:induction false} NoRise(worlds: seq<World>, steps: seq<Step>, j: nat, k: nat)
    requires Execution(worlds, steps) && OnlyRelaxes(worlds, steps) && j <= k <= |steps|
    ensures RiseBetween(worlds, steps, j, k) <= 0
    decreases k
  {
    if j < k {
      NoRise(worlds, steps, j, k - 1);
    }
  }

  /** An account that starts funded stays funded, as long as what it needs only falls. */
  lemma {:induction false} AlwaysFunded(worlds: seq<World>, steps: seq<Step>, k: nat)
    requires Execution(worlds, steps) && OnlyRelaxes(worlds, steps) && k < |worlds| && Funded(worlds[0].account)
    ensures Funded(worlds[k].account)
  {
    if k > 0 {
      AlwaysFunded(worlds, steps, k - 1);
      var w, step := worlds[k - 1], steps[k - 1];
      assert worlds[k] == Next(w, step) && Enabled(w, step);
      if step.Update? && w.calls[step.call].direction == DEBIT && Passes(w, step.call) {
        forall j | 0 <= j < k - 1 && steps[j] == Read(step.call)
          ensures RiseBetween(worlds, steps, j, k - 1) <= 0
        {
          NoRise(worlds, steps, j, k - 1);
        }
        DebitLeavesFunded(worlds, steps, k - 1);
      } else {
        PositiveAmounts(worlds, steps, k - 1);
      }
    }
  }

  lemma {:induction false} PositiveAmounts(worlds: seq<World>, steps: seq<Step>, k: nat)
    requires Execution(worlds, steps) && k < |worlds|
    ensures forall i :: 0 <= i < |worlds[k].calls| ==> worlds[k].calls[i].amount > 0
  {
    if k > 0 {
      PositiveAmounts(worlds, steps, k - 1);
      assert worlds[k] == Next(worlds[k - 1], steps[k - 1]) && Enabled(worlds[k - 1], steps[k - 1]);
    }
  }

  // ---- Nothing is lost ----------------------------------------------------------------

  /** Credits minus debits of the calls that went through. */
  function NetSuccess(calls: seq<Call>): int {
    if calls == [] then 0
    else
      var last := calls[|calls| - 1];
      NetSuccess(calls[..|calls| - 1]) + (if last.outcome == Some(true) then Delta(last.direction, last.amount) else 0)
  }

  function Successes(calls: seq<Call>): nat {
    if calls == [] then 0
    else Successes(calls[..|calls| - 1]) + (if calls[|calls| - 1].outcome == Some(true) then 1 else 0)
  }

  lemma {:induction false} ReplacedCall(calls: seq<Call>, i: nat, call: Call)
    requires i < |calls| && calls[i].outcome != Some(true)
    requires call.direction == calls[i].direction && call.amount == calls[i].amount
    ensures NetSuccess(calls[i := call])
         == NetSuccess(calls) + (if call.outcome == Some(true) then Delta(call.direction, call.amount) else 0)
    ensures Successes(calls[i := call]) == Successes(calls) + (if call.outcome == Some(true) then 1 else 0)
  {
    var n := |calls| - 1;
    if i < n {
      ReplacedCall(calls[..n], i, call);
      assert calls[i := call][..n] == calls[..n][i := call];
    } else {
      assert calls[i := call][..n] == calls[..n];
    }
  }

  /** By how much adjustments have raised the version up to step k. */
  function Bumps(worlds: seq<World>, steps: seq<Step>, k: nat): nat
    requires Execution(worlds, steps) && k <= |steps|
  {
    if k == 0 then 0
    else
      Bumps(worlds, steps, k - 1)
      + (if steps[k - 1].Adjust? then steps[k - 1].account.version - worlds[k - 1].account.version else 0)
  }

  /**
   The final balance is the opening balance plus all credits and minus all successful debits, and
   the version counts them beside the adjustments: no update is lost, however the calls interleave.
   */
  lemma {:induction false} NothingLost(worlds: seq<World>, steps: seq<Step>, k: nat)
    requires Execution(worlds, steps) && k < |worlds|
    ensures worlds[k].account.balance == worlds[0].account.balance + NetSuccess(worlds[k].calls)
    ensures worlds[k].account.version
         == worlds[0].account.version + Successes(worlds[k].calls) + Bumps(worlds, steps, k)
  {
    if k > 0 {
      NothingLost(worlds, steps, k - 1);
      var w, step := worlds[k - 1], steps[k - 1];
      assert Enabled(w, step) && worlds[k] == Next(w, step);
      if step.Read? {
        OutcomeNeedsRead(worlds, steps, k - 1, step.call);
      }
      hide Enabled, Next, NetSuccess, Successes;
      StepCounts(w, step);
    }
  }

  /** One step changes balance and version by what it adds to the successful calls, and to the adjustments. */
  lemma StepCounts(w: World, step: Step)
    requires Enabled(w, step)
    requires step.Read? ==> w.calls[step.call].outcome != Some(true)
    ensures var w' := Next(w, step);
      && w'.account.balance - w.account.balance == NetSuccess(w'.calls) - NetSuccess(w.calls)
      && w'.account.version - w.account.version
           == Successes(w'.calls) - Successes(w.calls)
              + (if step.Adjust? then step.account.version - w.account.version else 0)
  {
    var w' := Next(w, step);
    match step
    case Begin(_, _) => assert w'.calls[..|w.calls|] == w.calls;
    case Read(i) => ReplacedCall(w.calls, i, w'.calls[i]);
    case Update(i) => ReplacedCall(w.calls, i, w'.calls[i]);
    case Adjust(_) =>
  }

  lemma {:induction false} OutcomeNeedsRead(worlds: seq<World>, steps: seq<Step>, k: nat, i: nat)
    requires Execution(worlds, steps) && k < |worlds| && i < |worlds[k].calls|
    ensures worlds[k].calls[i].outcome.Some? ==> worlds[k].calls[i].read.Some?
  {
    if k > 0 && i < |worlds[k - 1].calls| {
      OutcomeNeedsRead(worlds, steps, k - 1, i);
    }
  }

  // ---- What a row records -------------------------------------------------------------

  /** The balance that the statement row of a call records as its result. */
  function RecordedAfter(call: Call): int
    requires call.read.Some?
  {
    call.read.value.balance + Delta(call.direction, call.amount)
  }

  /**
   Exactly when the row of a call that goes through records the live balance: when the credits and
   debits that went through between its read and its update cancel out.
   */
  lemma RecordsTruthIff(worlds: seq<World>, steps: seq<Step>, j: nat, k: nat)
    requires Succeeds(worlds, steps, j, k)
    ensures worlds[k + 1].calls[steps[k].call].read.Some?
    ensures RecordedAfter(worlds[k + 1].calls[steps[k].call]) == worlds[k + 1].account.balance
       <==> NetBetween(worlds, steps, j, k) == 0
  {
    SucceedsMeans(worlds, steps, j, k);
    BetweenIs(worlds, steps, j, k);
  }

  /** In particular when the version has not moved since the read. */
  lemma UnmovedVersionRecordsTruth(worlds: seq<World>, steps: seq<Step>, k: nat)
    requires Execution(worlds, steps) && k < |steps| && steps[k].Update?
    requires worlds[k + 1].calls[steps[k].call].outcome == Some(true)
    requires worlds[k].calls[steps[k].call].read.value.version == worlds[k].account.version
    ensures RecordedAfter(worlds[k + 1].calls[steps[k].call]) == worlds[k + 1].account.balance
  {
    assert worlds[k + 1] == Next(worlds[k], steps[k]);
    var j := ReadStep(worlds, steps, k, steps[k].call);
    SucceedsMeans(worlds, steps, j, k);
    BetweenIs(worlds, steps, j, k);
  }

  /** What serializable isolation leaves: an account that is as it was read gets a true row and stays funded. */
  lemma UnchangedIsSafe(worlds: seq<World>, steps: seq<Step>, j: nat, k: nat)
    requires Succeeds(worlds, steps, j, k) && worlds[k].account == worlds[j].account
    ensures worlds[k + 1].calls[steps[k].call].read.Some?
    ensures RecordedAfter(worlds[k + 1].calls[steps[k].call]) == worlds[k + 1].account.balance
    ensures worlds[k + 1].calls[steps[k].call].direction == DEBIT ==> Funded(worlds[k + 1].account)
  {
    SucceedsMeans(worlds, steps, j, k);
    assert worlds[k + 1] == Next(worlds[k], steps[k]);
  }

  function Sample(balance: int, frozenSavings: int, version: nat): Account {
    Account("tenant", FOSA, balance, 0, false, 0, frozenSavings, true, version)
  }

  lemma Extend(worlds: seq<World>, steps: seq<Step>, step: Step) returns (worlds': seq<World>, steps': seq<Step>)
    requires Execution(worlds, steps) && Enabled(worlds[|steps|], step)
    ensures Execution(worlds', steps') && worlds'[|steps'|] == Next(worlds[|steps|], step)
    ensures worlds <= worlds' && steps' == steps + [step]
  {
    worlds', steps' := worlds + [Next(worlds[|steps|], step)], steps + [step];
  }

  /** An execution after which two calls went through and recorded the same resulting balance. */
  ghost predicate SameResultTwice(worlds: seq<World>, steps: seq<Step>) {
    && Execution(worlds, steps)
    && var w := worlds[|steps|];
    && |w.calls| == 2 && w.calls[0].outcome == w.calls[1].outcome == Some(true)
    && w.calls[0].read.Some? && w.calls[1].read.Some?
    && RecordedAfter(w.calls[0]) == RecordedAfter(w.calls[1]) < w.account.balance
  }

  /**
   The update does not compare versions, so two credits that both read before either updates both
   record the same result: the statement no longer chains, although the balance is right. It takes
   two postings in transactions that are not serializable.
   */
  lemma TwoCreditsRecordTheSame()
    ensures exists worlds: seq<World>, steps: seq<Step> :: SameResultTwice(worlds, steps)
  {
    var a := Sample(100, 0, 0);
    var c, r, d := Call(10, CREDIT, None, None), Call(10, CREDIT, Some(a), None), Call(10, CREDIT, Some(a), Some(true));
    var worlds, steps := [World(a, [])], [];
    worlds, steps := Extend(worlds, steps, Begin(10, CREDIT));
    worlds, steps := Extend(worlds, steps, Begin(10, CREDIT));
    assert worlds[|steps|] == World(a, [c, c]);
    worlds, steps := Extend(worlds, steps, Read(0));
    worlds, steps := Extend(worlds, steps, Read(1));
    assert worlds[|steps|] == World(a, [r, r]);
    worlds, steps := Extend(worlds, steps, Update(0));
    assert worlds[|steps|] == World(Sample(110, 0, 1), [d, r]);
    worlds, steps := Extend(worlds, steps, Update(1));
    assert worlds[|steps|] == World(Sample(120, 0, 2), [d, d]);
    assert SameResultTwice(worlds, steps);
  }

  /** A guarantor hold placed on the account: the collateral must cover it when it is placed. */
  predicate CanHold(a: Account, amount: int) {
    amount > 0 && a.balance >= a.lockedBalance + a.frozenSavings + amount
  }

  /** An execution in which a hold is placed between the read and the update of a debit that goes through. */
  ghost predicate HoldIsOverrun(worlds: seq<World>, steps: seq<Step>) {
    && Execution(worlds, steps) && |steps| == 4 && steps[1] == Read(0) && steps[2].Adjust? && steps[3] == Update(0)
    && Funded(worlds[0].account)
    && CanHold(worlds[2].account, steps[2].account.frozenSavings - worlds[2].account.frozenSavings)
    && worlds[4].calls[0].direction == DEBIT && worlds[4].calls[0].outcome == Some(true) && !Funded(worlds[4].account)
  }

  /**
   A hold that is placed between the read and the update of a debit is not in the floor of that
   update, and the debit takes the balance below the committed funds. It takes a posting in a
   transaction that is not serializable.
   */
  lemma HoldBetweenReadAndUpdate()
    ensures exists worlds: seq<World>, steps: seq<Step> :: HoldIsOverrun(worlds, steps)
  {
    var a := Sample(100, 0, 0);
    var worlds, steps := [World(a, [])], [];
    worlds, steps := Extend(worlds, steps, Begin(60, DEBIT));
    worlds, steps := Extend(worlds, steps, Read(0));
    assert worlds[|steps|] == World(a, [Call(60, DEBIT, Some(a), None)]);
    worlds, steps := Extend(worlds, steps, Adjust(Sample(100, 60, 1)));
    assert worlds[|steps|] == World(Sample(100, 60, 1), [Call(60, DEBIT, Some(a), None)]);
    worlds, steps := Extend(worlds, steps, Update(0));
    assert worlds[|steps|] == World(Sample(40, 60, 2), [Call(60, DEBIT, Some(a), Some(true))]);
    assert HoldIsOverrun(worlds, steps);
  }
}
