/**
 Manual journal entries (src/modules/accounting/accounting.service.ts): creation with a generated
 entry number, and approval by somebody other than the creator.
 */
module JournalApproval {
  import opened Decimals
  import opened Outcomes
  import opened EntryNumbers

  /** KES from which an entry needs approval. */
  const APPROVAL_THRESHOLD := 100000.0

  datatype Status = PENDING_APPROVAL | APPROVED | REJECTED

  /** A requested posting line, in KES. */
  datatype Line = Line(debit: string, credit: string, kes: real)

  datatype Posting = Posting(debit: string, credit: string, amount: int)

  datatype Entry = Entry(
    tenantId: string, entryNumber: string, status: Status, totalAmount: int, postings: seq<Posting>,
    createdBy: string, approvedBy: Option<string>, rejectedBy: Option<string>)

  /** Journal entries and, per tenant, the active GL accounts. A row's position stands for its id. */
  datatype Books = Books(entries: seq<Entry>, accounts: map<string, set<string>>)

  datatype Error =
    | TotalNotPositive | AccountNotFound | SameAccount | UniqueViolation | EntryNotFound | NotPending | OwnEntry

  // ---- The specification --------------------------------------------------------------

  function Total(lines: seq<Line>): real {
    if lines == [] then 0.0 else Total(lines[..|lines| - 1]) + lines[|lines| - 1].kes
  }

  predicate IsAccount(accounts: map<string, set<string>>, tenantId: string, id: string) {
    tenantId in accounts && id in accounts[tenantId]
  }

  predicate Numbered(entry: Entry, tenantId: string, year: nat) {
    entry.tenantId == tenantId && Prefix(year) <= entry.entryNumber
  }

  /** The tenant's last entry number of the year in text order. */
  function LastNumber(entries: seq<Entry>, tenantId: string, year: nat): Option<string> {
    if entries == [] then None
    else
      var last, before := entries[|entries| - 1], LastNumber(entries[..|entries| - 1], tenantId, year);
      if !Numbered(last, tenantId, year) then before
      else if before.Some? && Before(last.entryNumber, before.value) then before
      else Some(last.entryNumber)
  }

  function NextSequence(entries: seq<Entry>, tenantId: string, year: nat): nat {
    match LastNumber(entries, tenantId, year)
    case None => 1
    case Some(number) =>
      match SequenceOf(year, number)
      case None => 1
      case Some(n) => n + 1
  }

  predicate HasNumber(entries: seq<Entry>, tenantId: string, number: string) {
    exists k :: 0 <= k < |entries| && entries[k].tenantId == tenantId && entries[k].entryNumber == number
  }

  function Postings(lines: seq<Line>): seq<Posting> {
    seq(|lines|, i requires 0 <= i < |lines| => Posting(lines[i].debit, lines[i].credit, ToUnits(lines[i].kes)))
  }

  function NewEntry(tenantId: string, number: string, lines: seq<Line>, actor: string): Entry {
    var total := Total(lines);
    var approved := total < APPROVAL_THRESHOLD;
    Entry(tenantId, number, if approved then APPROVED else PENDING_APPROVAL, ToUnits(total), Postings(lines), actor,
          if approved then Some(actor) else None, None)
  }

  /** Why a request is turned down before a number is generated. */
  function Refusal(db: Books, tenantId: string, lines: seq<Line>): Option<Error> {
    if Total(lines) <= 0.0 then Some(TotalNotPositive)
    else if exists k :: 0 <= k < |lines| && !(IsAccount(db.accounts, tenantId, lines[k].debit)
                                               && IsAccount(db.accounts, tenantId, lines[k].credit))
    then Some(AccountNotFound)
    else if exists k :: 0 <= k < |lines| && lines[k].debit == lines[k].credit then Some(SameAccount)
    else None
  }

  function Create(db: Books, tenantId: string, year: nat, lines: seq<Line>, actor: string): Result<Books, Error> {
    match Refusal(db, tenantId, lines)
    case Some(error) => Failure(error)
    case None =>
      var number := EntryNumber(year, NextSequence(db.entries, tenantId, year));
      if HasNumber(db.entries, tenantId, number) then Failure(UniqueViolation)
      else Success(db.(entries := db.entries + [NewEntry(tenantId, number, lines, actor)]))
  }

  function Approve(db: Books, tenantId: string, id: nat, actor: string): Result<Books, Error> {
    var found := id < |db.entries| && db.entries[id].tenantId == tenantId;
    :- Need(found, EntryNotFound);
    :- Need(db.entries[id].status == PENDING_APPROVAL, NotPending);
    :- Need(db.entries[id].createdBy != actor, OwnEntry);
    Success(db.(entries := db.entries[id := db.entries[id].(status := APPROVED, approvedBy := Some(actor))]))
  }

  function Reject(db: Books, tenantId: string, id: nat, actor: string): Result<Books, Error> {
    var found := id < |db.entries| && db.entries[id].tenantId == tenantId;
    :- Need(found, EntryNotFound);
    :- Need(db.entries[id].status == PENDING_APPROVAL, NotPending);
    Success(db.(entries := db.entries[id := db.entries[id].(status := REJECTED, rejectedBy := Some(actor))]))
  }

  // ---- The service --------------------------------------------------------------------

  class AccountingService {
    var entries: seq<Entry>
    var accounts: map<string, set<string>>

    constructor (db: Books)
      ensures Database() == db
    {
      entries, accounts := db.entries, db.accounts;
    }

    function Database(): Books
      reads this
    {
      Books(entries, accounts)
    }

    method TotalAmount(lines: seq<Line>) returns (total: real)
      ensures total == Total(lines)
    {
      total := 0.0;
      for i := 0 to |lines|
        invariant total == Total(lines[..i])
      {
        assert lines[..i + 1][..i] == lines[..i];
        total := total + lines[i].kes;
      }
      assert lines[..|lines|] == lines;
    }

    method Validate(tenantId: string, lines: seq<Line>) returns (refusal: Option<Error>)
      ensures refusal == Refusal(Database(), tenantId, lines)
    {
      var total := TotalAmount(lines);
      if total <= 0.0 {
        return Some(TotalNotPositive);
      }
      for i := 0 to |lines|
        invariant forall k :: 0 <= k < i ==>
          IsAccount(accounts, tenantId, lines[k].debit) && IsAccount(accounts, tenantId, lines[k].credit)
      {
        if !IsAccount(accounts, tenantId, lines[i].debit) || !IsAccount(accounts, tenantId, lines[i].credit) {
          return Some(AccountNotFound);
        }
      }
      for i := 0 to |lines|
        invariant forall k :: 0 <= k < i ==> lines[k].debit != lines[k].credit
      {
        if lines[i].debit == lines[i].credit {
          return Some(SameAccount);
        }
      }
      return None;
    }

    method CreateJournalEntry(tenantId: string, year: nat, lines: seq<Line>, actor: string)
      returns (result: Result<nat, Error>)
      modifies this`entries
      ensures match Create(old(Database()), tenantId, year, lines, actor)
        case Success(db) => result == Success(|old(entries)|) && Database() == db
        case Failure(error) => result == Failure(error) && Database() == old(Database())
    {
      hide Refusal, Total, LastNumber, SequenceOf, EntryNumber;
      var refusal := Validate(tenantId, lines);
      if refusal.Some? {
        return Failure(refusal.value);
      }
      var totalAmount := TotalAmount(lines);
      var lastEntry := LastNumber(entries, tenantId, year);
      var sequence := 1;
      if lastEntry.Some? {
        var lastSequence := SequenceOf(year, lastEntry.value);
        if lastSequence.Some? {
          sequence := lastSequence.value + 1;
        }
      }
      var entryNumber := EntryNumber(year, sequence);
      if HasNumber(entries, tenantId, entryNumber) {
        return Failure(UniqueViolation);
      }
      var status := if totalAmount >= APPROVAL_THRESHOLD then PENDING_APPROVAL else APPROVED;
      var id := |entries|;
      entries := entries + [
        Entry(tenantId, entryNumber, status, ToUnits(totalAmount), Postings(lines), actor,
              if status == APPROVED then Some(actor) else None, None)];
      return Success(id);
    }

    method ApproveJournalEntry(tenantId: string, id: nat, actor: string) returns (error: Option<Error>)
      modifies this`entries
      ensures match Approve(old(Database()), tenantId, id, actor)
        case Success(db) => error == None && Database() == db
        case Failure(e) => error == Some(e) && Database() == old(Database())
    {
      if id >= |entries| || entries[id].tenantId != tenantId {
        return Some(EntryNotFound);
      }
      var entry := entries[id];
      if entry.status != PENDING_APPROVAL {
        return Some(NotPending);
      }
      if entry.createdBy == actor {
        return Some(OwnEntry);
      }
      entries := entries[id := entry.(status := APPROVED, approvedBy := Some(actor))];
      return None;
    }

    method RejectJournalEntry(tenantId: string, id: nat, actor: string) returns (error: Option<Error>)
      modifies this`entries
      ensures match Reject(old(Database()), tenantId, id, actor)
        case Success(db) => error == None && Database() == db
        case Failure(e) => error == Some(e) && Database() == old(Database())
    {
      if id >= |entries| || entries[id].tenantId != tenantId {
        return Some(EntryNotFound);
      }
      var entry := entries[id];
      if entry.status != PENDING_APPROVAL {
        return Some(NotPending);
      }
      entries := entries[id := entry.(status := REJECTED, rejectedBy := Some(actor))];
      return None;
    }
  }

  // ---- Runs ---------------------------------------------------------------------------

  /** `Ledger` stands for the entries that the ledger service writes into the same table. */
  datatype Op =
    | CreateOp(tenantId: string, year: nat, lines: seq<Line>, actor: string)
    | ApproveOp(tenantId: string, id: nat, actor: string)
    | RejectOp(tenantId: string, id: nat, actor: string)
    | LedgerOp(entry: Entry)

  /** Numbers of the ledger service do not go on with a digit after the first dash. */
  predicate LedgerNumber(number: string) {
    |number| > 3 && number[..3] == "JE-" && !IsDigit(number[3])
  }

  function Attempt(db: Books, op: Op): Result<Books, Error> {
    match op
    case CreateOp(tenantId, year, lines, actor) => Create(db, tenantId, year, lines, actor)
    case ApproveOp(tenantId, id, actor) => Approve(db, tenantId, id, actor)
    case RejectOp(tenantId, id, actor) => Reject(db, tenantId, id, actor)
    case LedgerOp(entry) =>
      if LedgerNumber(entry.entryNumber) && entry.status == APPROVED
         && !HasNumber(db.entries, entry.tenantId, entry.entryNumber)
      then Success(db.(entries := db.entries + [entry]))
      else Failure(UniqueViolation)
  }

  function Step(db: Books, op: Op): Books {
    match Attempt(db, op)
    case Success(db') => db'
    case Failure(_) => db
  }

  function Run(db: Books, ops: seq<Op>): Books {
    if ops == [] then db else Step(Run(db, ops[..|ops| - 1]), ops[|ops| - 1])
  }

  // ---- Entry numbers over a run -------------------------------------------------------

  /** The tenant's entry numbers of a year, in order of creation. */
  function NumbersOf(entries: seq<Entry>, tenantId: string, year: nat): seq<string> {
    if entries == [] then []
    else
      var last := entries[|entries| - 1];
      NumbersOf(entries[..|entries| - 1], tenantId, year)
      + (if Numbered(last, tenantId, year) then [last.entryNumber] else [])
  }

  /** The numbers 1 to n. */
  function FirstNumbers(year: nat, n: nat): (r: seq<string>)
    ensures |r| == n
  {
    if n == 0 then [] else FirstNumbers(year, n - 1) + [EntryNumber(year, n)]
  }

  lemma {:induction false} FirstNumberAt(year: nat, n: nat, k: nat)
    requires 1 <= k <= n
    ensures FirstNumbers(year, n)[k - 1] == EntryNumber(year, k)
  {
    if k < n {
      FirstNumberAt(year, n - 1, k);
    }
  }

  /** How many entries the tenant has created in the year. */
  function CountOf(entries: seq<Entry>, tenantId: string, year: nat): nat {
    |NumbersOf(entries, tenantId, year)|
  }

  ghost predicate WellNumbered(entries: seq<Entry>, tenantId: string, year: nat) {
    var n := CountOf(entries, tenantId, year);
    n <= 1000000 && NumbersOf(entries, tenantId, year) == FirstNumbers(year, n)
  }

  lemma {:induction false} NumberIsListed(entries: seq<Entry>, tenantId: string, year: nat, number: string)
    requires Prefix(year) <= number
    ensures HasNumber(entries, tenantId, number) <==> number in NumbersOf(entries, tenantId, year)
  {
    if entries != [] {
      var init, last := entries[..|entries| - 1], entries[|entries| - 1];
      NumberIsListed(init, tenantId, year, number);
      if HasNumber(entries, tenantId, number) && !(last.tenantId == tenantId && last.entryNumber == number) {
        var k :| 0 <= k < |entries| && entries[k].tenantId == tenantId && entries[k].entryNumber == number;
        assert init[k] == entries[k];
      }
    }
  }

  lemma {:induction false} ListedIn(year: nat, n: nat, m: nat)
    requires 1 <= m
    ensures EntryNumber(year, m) in FirstNumbers(year, n) <==> m <= n
  {
    if n > 0 {
      ListedIn(year, n - 1, m);
      if m != n {
        NumbersDiffer(year, m, n);
      }
    }
  }

  /** The last number, in text order, of the first n. */
  function LastOf(year: nat, n: nat): Option<string> {
    if n == 0 then None else Some(EntryNumber(year, if n <= 999999 then n else 999999))
  }

  lemma {:induction false} LastOfNumbers(entries: seq<Entry>, tenantId: string, year: nat)
    requires WellNumbered(entries, tenantId, year)
    ensures LastNumber(entries, tenantId, year) == LastOf(year, CountOf(entries, tenantId, year))
  {
    if entries != [] {
      var init, last := entries[..|entries| - 1], entries[|entries| - 1];
      var n := CountOf(entries, tenantId, year);
      if Numbered(last, tenantId, year) {
        assert NumbersOf(init, tenantId, year) == NumbersOf(entries, tenantId, year)[..n - 1];
        assert NumbersOf(init, tenantId, year) == FirstNumbers(year, n - 1);
        assert last.entryNumber == NumbersOf(entries, tenantId, year)[n - 1];
        LastOfNumbers(init, tenantId, year);
        LastOfOneMore(year, n);
      } else {
        LastOfNumbers(init, tenantId, year);
      }
    }
  }

  lemma LastOfOneMore(year: nat, n: nat)
    requires 1 <= n <= 1000000
    ensures FirstNumbers(year, n)[n - 1] == EntryNumber(year, n)
    ensures var before := LastOf(year, n - 1);
      var number := EntryNumber(year, n);
      LastOf(year, n) == if before.Some? && Before(number, before.value) then before else Some(number)
  {
    if n == 1000000 {
      MillionthIsBefore(year);
    } else if n > 1 {
      NumbersInOrder(year, n - 1, n);
      BeforeIsStrict(EntryNumber(year, n - 1), EntryNumber(year, n));
    }
  }

  /** The sequence number that the next entry is given: the count plus one, but never more than a million. */
  lemma NextIs(entries: seq<Entry>, tenantId: string, year: nat)
    requires WellNumbered(entries, tenantId, year)
    ensures var n := CountOf(entries, tenantId, year); var next := NextSequence(entries, tenantId, year);
      && next == (if n <= 999999 then n + 1 else 1000000)
      && (HasNumber(entries, tenantId, EntryNumber(year, next)) <==> n == 1000000)
  {
    var n := CountOf(entries, tenantId, year);
    LastOfNumbers(entries, tenantId, year);
    if n > 0 {
      SequenceRoundTrip(year, if n <= 999999 then n else 999999);
    }
    var next := NextSequence(entries, tenantId, year);
    NumberIsListed(entries, tenantId, year, EntryNumber(year, next));
    ListedIn(year, n, next);
  }

  ghost predicate AllWellNumbered(entries: seq<Entry>) {
    forall tenantId: string, year: nat :: WellNumbered(entries, tenantId, year)
  }

  lemma AppendedNumbers(entries: seq<Entry>, entry: Entry, tenantId: string, year: nat)
    ensures NumbersOf(entries + [entry], tenantId, year)
         == NumbersOf(entries, tenantId, year) + (if Numbered(entry, tenantId, year) then [entry.entryNumber] else [])
  {
    assert (entries + [entry])[..|entries|] == entries;
  }

  lemma {:induction false} UpdatedNumbers(entries: seq<Entry>, id: nat, entry: Entry, tenantId: string, year: nat)
    requires id < |entries| && entry.tenantId == entries[id].tenantId && entry.entryNumber == entries[id].entryNumber
    ensures NumbersOf(entries[id := entry], tenantId, year) == NumbersOf(entries, tenantId, year)
  {
    var n := |entries| - 1;
    if id < n {
      UpdatedNumbers(entries[..n], id, entry, tenantId, year);
      assert entries[id := entry][..n] == entries[..n][id := entry];
    } else {
      assert entries[id := entry][..n] == entries[..n];
    }
  }

  lemma CreateKeepsNumbers(db: Books, op: Op, tenantId: string, year: nat)
    requires op.CreateOp? && AllWellNumbered(db.entries) && Attempt(db, op).Success?
    ensures WellNumbered(Step(db, op).entries, tenantId, year)
    ensures CountOf(Step(db, op).entries, tenantId, year)
         == CountOf(db.entries, tenantId, year) + (if tenantId == op.tenantId && year == op.year then 1 else 0)
  {
    hide LastNumber, Refusal, NewEntry, NextSequence, EntryNumber, Prefix;
    assert WellNumbered(db.entries, op.tenantId, op.year);
    NextIs(db.entries, op.tenantId, op.year);
    var number := EntryNumber(op.year, NextSequence(db.entries, op.tenantId, op.year));
    var entry := NewEntry(op.tenantId, number, op.lines, op.actor);
    NewEntryIs(op.tenantId, number, op.lines, op.actor);
    AppendedNumbers(db.entries, entry, tenantId, year);
    assert WellNumbered(db.entries, tenantId, year);
    NumberedIff(op.year, NextSequence(db.entries, op.tenantId, op.year), year);
  }

  lemma NewEntryIs(tenantId: string, number: string, lines: seq<Line>, actor: string)
    ensures NewEntry(tenantId, number, lines, actor).tenantId == tenantId
    ensures NewEntry(tenantId, number, lines, actor).entryNumber == number
  {
  }

  lemma NumberedIff(year: nat, n: nat, year': nat)
    ensures Prefix(year') <= EntryNumber(year, n) <==> year == year'
  {
    if Prefix(year') <= EntryNumber(year, n) {
      PrefixesDiffer(year, year', PadStart(Digits(n), 6));
    }
  }

  lemma LedgerIsNotNumbered(number: string, year: nat)
    requires LedgerNumber(number)
    ensures !(Prefix(year) <= number)
  {
    DigitsAreDigits(year);
    assert Prefix(year)[3] == Digits(year)[0];
  }

  lemma StepKeepsNumbers(db: Books, op: Op)
    requires AllWellNumbered(db.entries)
    ensures AllWellNumbered(Step(db, op).entries)
  {
    hide WellNumbered, Create;
    forall tenantId: string, year: nat
      ensures WellNumbered(Step(db, op).entries, tenantId, year)
    {
      assert WellNumbered(db.entries, tenantId, year);
      if Attempt(db, op).Success? {
        match op
        case CreateOp(_, _, _, _) => CreateKeepsNumbers(db, op, tenantId, year);
        case ApproveOp(_, id, _) =>
          SameNumbers(db.entries, id, Step(db, op).entries[id], tenantId, year);
        case RejectOp(_, id, _) =>
          SameNumbers(db.entries, id, Step(db, op).entries[id], tenantId, year);
        case LedgerOp(entry) =>
          LedgerNumbers(db.entries, entry, tenantId, year);
      }
    }
  }

  lemma SameNumbers(entries: seq<Entry>, id: nat, entry: Entry, tenantId: string, year: nat)
    requires id < |entries| && entry.tenantId == entries[id].tenantId && entry.entryNumber == entries[id].entryNumber
    requires WellNumbered(entries, tenantId, year)
    ensures WellNumbered(entries[id := entry], tenantId, year)
  {
    UpdatedNumbers(entries, id, entry, tenantId, year);
  }

  lemma LedgerNumbers(entries: seq<Entry>, entry: Entry, tenantId: string, year: nat)
    requires LedgerNumber(entry.entryNumber) && WellNumbered(entries, tenantId, year)
    ensures WellNumbered(entries + [entry], tenantId, year)
  {
    AppendedNumbers(entries, entry, tenantId, year);
    LedgerIsNotNumbered(entry.entryNumber, year);
  }

  lemma {:induction false} RunKeepsNumbers(db: Books, ops: seq<Op>)
    requires db.entries == []
    ensures AllWellNumbered(Run(db, ops).entries)
  {
    hide Step, WellNumbered;
    if ops == [] {
      NothingNumbered();
    } else {
      RunKeepsNumbers(db, ops[..|ops| - 1]);
      StepKeepsNumbers(Run(db, ops[..|ops| - 1]), ops[|ops| - 1]);
    }
  }

  lemma NothingNumbered()
    ensures AllWellNumbered([])
  {
  }

  /**
   Over any run, a tenant's entries of a year are numbered 1, 2, 3 and so on in order of creation, and
   never more than a million of them exist.
   */
  lemma NumbersAreConsecutive(db: Books, ops: seq<Op>, tenantId: string, year: nat, k: nat)
    requires db.entries == [] && k < CountOf(Run(db, ops).entries, tenantId, year)
    ensures NumbersOf(Run(db, ops).entries, tenantId, year)[k] == EntryNumber(year, k + 1)
    ensures CountOf(Run(db, ops).entries, tenantId, year) <= 1000000
  {
    hide Run;
    RunKeepsNumbers(db, ops);
    var entries := Run(db, ops).entries;
    assert WellNumbered(entries, tenantId, year);
    FirstNumberAt(year, CountOf(entries, tenantId, year), k + 1);
  }

  /**
   Exactly when a valid request is turned down for its number: when the tenant already has a million
   entries in the year. The millionth number has seven digits and comes before 999999 in text order,
   so that it is generated over and over.
   */
  lemma NumberClashesIff(db: Books, ops: seq<Op>, tenantId: string, year: nat, lines: seq<Line>, actor: string)
    requires db.entries == [] && Refusal(Run(db, ops), tenantId, lines) == None
    ensures Create(Run(db, ops), tenantId, year, lines, actor) == Failure(UniqueViolation)
       <==> CountOf(Run(db, ops).entries, tenantId, year) == 1000000
  {
    hide Run, Refusal, WellNumbered, LastNumber, NextSequence;
    RunKeepsNumbers(db, ops);
    NextIs(Run(db, ops).entries, tenantId, year);
  }

  function Repeated(op: Op, n: nat): seq<Op> {
    seq(n, _ => op)
  }

  /** A request that is valid once is granted again and again, a million times. */
  lemma {:induction false} RepeatedCreations(db: Books, op: Op, n: nat)
    requires db.entries == [] && op.CreateOp? && Refusal(db, op.tenantId, op.lines) == None && n <= 1000000
    ensures Run(db, Repeated(op, n)).accounts == db.accounts
    ensures CountOf(Run(db, Repeated(op, n)).entries, op.tenantId, op.year) == n
  {
    hide Total, LastNumber, NextSequence, EntryNumber, WellNumbered, NewEntry, HasNumber, Refusal;
    if n > 0 {
      var before := Repeated(op, n - 1);
      RepeatedCreations(db, op, n - 1);
      assert Repeated(op, n)[..n - 1] == before;
      RunKeepsNumbers(db, before);
      SameRefusal(db, Run(db, before), op.tenantId, op.lines);
      NumberClashesIff(db, before, op.tenantId, op.year, op.lines, op.actor);
      CreateKeepsNumbers(Run(db, before), op, op.tenantId, op.year);
    }
  }

  lemma SameRefusal(db: Books, db': Books, tenantId: string, lines: seq<Line>)
    requires db.accounts == db'.accounts
    ensures Refusal(db, tenantId, lines) == Refusal(db', tenantId, lines)
  {
  }

  /** A run in which the numbers of a year run out: a million entries of one shilling, and the next is refused. */
  lemma NumbersRunOut()
    ensures var db := Books([], map["tenant" := {"a", "b"}]);
      var op := CreateOp("tenant", 2026, [Line("a", "b", 1.0)], "actor");
      Attempt(Run(db, Repeated(op, 1000000)), op) == Failure(UniqueViolation)
  {
    var db, lines := Books([], map["tenant" := {"a", "b"}]), [Line("a", "b", 1.0)];
    var op := CreateOp("tenant", 2026, lines, "actor");
    assert lines[..0] == [] && Total(lines) == 1.0;
    assert Refusal(db, "tenant", lines) == None;
    hide Refusal, Run, Total, Create, CountOf, Repeated;
    RepeatedCreations(db, op, 1000000);
    SameRefusal(db, Run(db, Repeated(op, 1000000)), "tenant", lines);
    NumberClashesIff(db, Repeated(op, 1000000), "tenant", 2026, lines, "actor");
  }

  // ---- Decisions over a run -----------------------------------------------------------

  /** How an entry may change in one step: not at all, unless it is pending and is approved or rejected. */
  predicate EntryMoves(entry: Entry, entry': Entry) {
    || entry' == entry
    || (entry.status == PENDING_APPROVAL
        && ((entry'.approvedBy.Some? && entry'.approvedBy.value != entry.createdBy
             && entry' == entry.(status := APPROVED, approvedBy := entry'.approvedBy))
            || entry' == entry.(status := REJECTED, rejectedBy := entry'.rejectedBy)))
  }

  lemma StepMoves(db: Books, op: Op, i: nat)
    requires i < |db.entries|
    ensures i < |Step(db, op).entries| && EntryMoves(db.entries[i], Step(db, op).entries[i])
    ensures |Step(db, op).entries| <= |db.entries| + 1
  {
    hide Refusal, NextSequence, EntryNumber, HasNumber;
  }

  ghost predicate Decides(db: Books, op: Op, i: nat) {
    && i < |db.entries| && i < |Step(db, op).entries| && Step(db, op).entries[i].status != db.entries[i].status
  }

  /** How often the status of entry i changes in a run. */
  ghost function Decisions(db: Books, ops: seq<Op>, i: nat): nat {
    if ops == [] then 0
    else
      var init := ops[..|ops| - 1];
      Decisions(db, init, i) + (if Decides(Run(db, init), ops[|ops| - 1], i) then 1 else 0)
  }

  /** An entry is decided at most once, and one that is still pending has not been decided. */
  lemma {:induction false} DecidedOnce(db: Books, ops: seq<Op>, i: nat)
    requires db.entries == []
    ensures Decisions(db, ops, i) <= 1
    ensures i >= |Run(db, ops).entries| || Run(db, ops).entries[i].status == PENDING_APPROVAL ==>
      Decisions(db, ops, i) == 0
  {
    hide Step;
    if ops != [] {
      var init := ops[..|ops| - 1];
      DecidedOnce(db, init, i);
      if i < |Run(db, init).entries| {
        StepMoves(Run(db, init), ops[|ops| - 1], i);
      }
    }
  }
}
