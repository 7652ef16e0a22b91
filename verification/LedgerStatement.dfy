/**
 Member statements: the rows of one account, in commit order, replay to its live balance.
 */
module LedgerStatement {
  import opened Outcomes
  import opened LedgerModel
  import opened LedgerInvariants

  /** The balance that the last row of this account left, zero before its first row. */
  function LastBalance(rows: seq<Transaction>, accountId: string): int {
    if rows == [] then 0
    else if rows[|rows| - 1].accountId == accountId then rows[|rows| - 1].balanceAfter
    else LastBalance(rows[..|rows| - 1], accountId)
  }

  ghost predicate Replays(accounts: map<string, Account>, rows: seq<Transaction>) {
    && (forall i :: 0 <= i < |rows| ==> rows[i].balanceBefore == LastBalance(rows[..i], rows[i].accountId))
    && (forall id :: id in accounts ==> accounts[id].balance == LastBalance(rows, id))
  }

  /** Marking a row REVERSED does not touch any balance. */
  lemma {:induction false} SameBalances(rows: seq<Transaction>, rows': seq<Transaction>, accountId: string)
    requires |rows| == |rows'|
    requires forall i :: 0 <= i < |rows| ==>
      rows[i].accountId == rows'[i].accountId && rows[i].balanceAfter == rows'[i].balanceAfter
    ensures LastBalance(rows, accountId) == LastBalance(rows', accountId)
  {
    if rows != [] {
      SameBalances(rows[..|rows| - 1], rows'[..|rows| - 1], accountId);
    }
  }

  lemma AppendedBalance(rows: seq<Transaction>, row: Transaction, accountId: string)
    ensures LastBalance(rows + [row], accountId)
         == if row.accountId == accountId then row.balanceAfter else LastBalance(rows, accountId)
  {
    assert (rows + [row])[..|rows|] == rows;
  }

  lemma UnknownAccount(accounts: map<string, Account>, rows: seq<Transaction>, accountId: string)
    requires RowsOk(accounts, rows) && accountId !in accounts
    ensures LastBalance(rows, accountId) == 0
  {
    if rows != [] {
      assert RowOk(accounts, rows[|rows| - 1]);
      UnknownAccount(accounts, rows[..|rows| - 1], accountId);
    }
  }

  lemma MarkedReplays(accounts: map<string, Account>, rows: seq<Transaction>, original: Option<nat>)
    requires Replays(accounts, rows) && (original.Some? ==> original.value < |rows|)
    ensures Replays(accounts, Marked(rows, original))
  {
    var rows' := Marked(rows, original);
    forall i | 0 <= i < |rows'|
      ensures rows'[i].balanceBefore == LastBalance(rows'[..i], rows'[i].accountId)
    {
      SameBalances(rows[..i], rows'[..i], rows[i].accountId);
    }
    forall id | id in accounts
      ensures accounts[id].balance == LastBalance(rows', id)
    {
      SameBalances(rows, rows', id);
    }
  }

  lemma MovedReplays(accounts: map<string, Account>, rows: seq<Transaction>, row: Transaction,
                     accounts': map<string, Account>)
    requires Replays(accounts, rows) && Moves(accounts, row, accounts')
    ensures Replays(accounts', rows + [row])
  {
    var rows' := rows + [row];
    forall i | 0 <= i < |rows'|
      ensures rows'[i].balanceBefore == LastBalance(rows'[..i], rows'[i].accountId)
    {
      assert rows'[..i] == rows[..i];
    }
    forall id | id in accounts'
      ensures accounts'[id].balance == LastBalance(rows', id)
    {
      AppendedBalance(rows, row, id);
    }
  }

  lemma ChangeReplays(db: Books, db': Books, change: Change)
    requires Valid(db) && Replays(db.accounts, db.transactions) && IsChange(db, db', change)
    ensures Replays(db'.accounts, db'.transactions)
  {
    match change
    case Nothing =>
    case OneRow(row, entry, original) =>
      MarkedReplays(db.accounts, db.transactions, original);
      MovedReplays(db.accounts, Marked(db.transactions, original), row, db'.accounts);
    case TwoRows(source, destination, entry) =>
      var between :| Moves(db.accounts, source, between) && Moves(between, destination, db'.accounts);
      MovedReplays(db.accounts, db.transactions, source, between);
      MovedReplays(between, db.transactions + [source], destination, db'.accounts);
      assert db'.transactions == db.transactions + [source] + [destination];
    case NoMoney =>
      forall id | id in db'.accounts
        ensures db'.accounts[id].balance == LastBalance(db.transactions, id)
      {
        if id !in db.accounts {
          UnknownAccount(db.accounts, db.transactions, id);
        }
      }
  }

  lemma {:induction false} RunReplays(db: Books, ops: seq<Op>)
    requires Opening(db)
    ensures Replays(Run(db, ops).accounts, Run(db, ops).transactions)
  {
    if ops != [] {
      var before := ops[..|ops| - 1];
      RunReplays(db, before);
      RunKeepsValid(db, before);
      var change := StepIsChange(Run(db, before), ops[|ops| - 1]);
      ChangeReplays(Run(db, before), Run(db, ops), change);
    }
  }

  // ---- The statement ------------------------------------------------------------------

  /** The rows of one account in commit order. */
  function Statement(rows: seq<Transaction>, accountId: string): seq<Transaction> {
    if rows == [] then []
    else
      var last := rows[|rows| - 1];
      Statement(rows[..|rows| - 1], accountId) + (if last.accountId == accountId then [last] else [])
  }

  function SumMovements(rows: seq<Transaction>): int {
    if rows == [] then 0 else SumMovements(rows[..|rows| - 1]) + Movement(rows[|rows| - 1])
  }

  function Closing(statement: seq<Transaction>): int {
    if statement == [] then 0 else statement[|statement| - 1].balanceAfter
  }

  /** Each row starts where the one before it ended, and moves by exactly its amount. */
  ghost predicate Chained(statement: seq<Transaction>) {
    forall k :: 0 <= k < |statement| ==>
      && statement[k].balanceBefore == Closing(statement[..k])
      && (statement[k].balanceAfter == statement[k].balanceBefore + statement[k].amount
          || statement[k].balanceAfter == statement[k].balanceBefore - statement[k].amount)
  }

  lemma EmptyChained()
    ensures Chained([]) && Closing([]) == SumMovements([]) == 0
  {
  }

  lemma ChainedAppend(before: seq<Transaction>, row: Transaction)
    requires Chained(before) && row.balanceBefore == Closing(before) == SumMovements(before)
    requires row.balanceAfter == row.balanceBefore + row.amount || row.balanceAfter == row.balanceBefore - row.amount
    ensures Chained(before + [row])
    ensures Closing(before + [row]) == SumMovements(before + [row]) == row.balanceAfter
  {
    var s := before + [row];
    assert s[..|before|] == before;
    forall k | 0 <= k < |s|
      ensures s[k].balanceBefore == Closing(s[..k])
        && (s[k].balanceAfter == s[k].balanceBefore + s[k].amount
            || s[k].balanceAfter == s[k].balanceBefore - s[k].amount)
    {
      if k < |before| {
        assert s[..k] == before[..k] && s[k] == before[k];
      }
    }
  }

  lemma {:induction false} StatementChained(accounts: map<string, Account>, rows: seq<Transaction>,
                                            n: nat, accountId: string)
    requires n <= |rows| && RowsOk(accounts, rows) && Replays(accounts, rows)
    ensures var s := Statement(rows[..n], accountId);
      Chained(s) && Closing(s) == LastBalance(rows[..n], accountId) == SumMovements(s)
  {
    hide Chained, Closing, SumMovements;
    EmptyChained();
    if n > 0 {
      StatementChained(accounts, rows, n - 1, accountId);
      var row := rows[n - 1];
      assert rows[..n][..n - 1] == rows[..n - 1];
      var before := Statement(rows[..n - 1], accountId);
      assert RowOk(accounts, row);
      assert row.balanceBefore == LastBalance(rows[..n - 1], row.accountId);
      if row.accountId == accountId {
        ChainedAppend(before, row);
      } else {
        assert Statement(rows[..n], accountId) == before;
      }
    }
  }

  /**
   After any run of ledger calls from an empty ledger, every account's statement is an unbroken
   chain from zero to the live balance, which is also the sum of its movements.
   */
  lemma StatementReplaysToBalance(db: Books, ops: seq<Op>, accountId: string)
    requires Opening(db) && accountId in Run(db, ops).accounts
    ensures var statement := Statement(Run(db, ops).transactions, accountId);
      && Chained(statement)
      && Closing(statement) == SumMovements(statement) == Run(db, ops).accounts[accountId].balance
  {
    var db' := Run(db, ops);
    RunKeepsValid(db, ops);
    RunReplays(db, ops);
    StatementChained(db'.accounts, db'.transactions, |db'.transactions|, accountId);
    assert db'.transactions[..|db'.transactions|] == db'.transactions;
  }
}
