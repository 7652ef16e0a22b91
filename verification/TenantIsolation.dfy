/**
 What the tenant middleware is for: tenants that share one database through it see and change
 exactly what each would see and change in a database of its own, in which nobody mentions tenants.
 */
module TenantIsolation {
  import opened Outcomes
  import opened TenantScope

  // ---- The database -------------------------------------------------------------------

  predicate Satisfies(row: Row, where: Where) {
    forall column :: column in where ==>
      match where[column]
      case Equals(value) => column in row && row[column] == value
      case Holds(p) => p(row)
  }

  /** The rows that satisfy a condition, in order. */
  function Select(rows: seq<Row>, where: Where): seq<Row> {
    if rows == [] then []
    else if Satisfies(rows[0], where) then [rows[0]] + Select(rows[1..], where)
    else Select(rows[1..], where)
  }

  function Evaluate(assignment: Assignment, row: Row): Value {
    match assignment
    case Put(value) => value
    case Compute(f) => f(row)
  }

  function Assign(row: Row, fields: Fields): Row {
    row + map column | column in fields :: Evaluate(fields[column], row)
  }

  function Replace(rows: seq<Row>, where: Where, fields: Fields, all: bool): seq<Row> {
    if rows == [] then []
    else if !Satisfies(rows[0], where) then [rows[0]] + Replace(rows[1..], where, fields, all)
    else [Assign(rows[0], fields)] + (if all then Replace(rows[1..], where, fields, all) else rows[1..])
  }

  function Remove(rows: seq<Row>, where: Where, all: bool): seq<Row> {
    if rows == [] then []
    else if !Satisfies(rows[0], where) then [rows[0]] + Remove(rows[1..], where, all)
    else if all then Remove(rows[1..], where, all) else rows[1..]
  }

  /** The rows that a `data` argument describes. */
  function Built(data: Data): seq<Row> {
    match data
    case NotAnObject => [map[]]
    case Object(fields) => [Assign(map[], fields)]
    case Array(items) => BuiltAll(items)
  }

  function BuiltAll(items: seq<Data>): seq<Row>
    decreases items, 0
  {
    if items == [] then [] else Built(items[0]) + BuiltAll(items[1..])
  }

  /** What a call answers. The answers of counts and aggregates are functions of the rows found. */
  datatype Answer = Found(rows: seq<Row>) | First(row: Option<Row>) | Affected(n: nat) | NotFound | Unmodelled

  datatype Outcome = Outcome(rows: seq<Row>, answer: Answer)

  function WhereOf(args: Args): Where {
    if args.where.Some? then args.where.value else map[]
  }

  function CreateOf(args: Args): Fields {
    if args.create.Some? then args.create.value else map[]
  }

  function FirstOf(rows: seq<Row>): Answer {
    First(if rows == [] then None else Some(rows[0]))
  }

  function FieldsOf(data: Data): Fields {
    if data.Object? then data.fields else map[]
  }

  /** One call on one table. */
  function Execute(rows: seq<Row>, action: Action, args: Args): Outcome {
    var found := Select(rows, WhereOf(args));
    match action
    case FindMany => Outcome(rows, Found(found))
    case Count => Outcome(rows, Found(found))
    case Aggregate => Outcome(rows, Found(found))
    case GroupBy => Outcome(rows, Found(found))
    case FindUnique => Outcome(rows, FirstOf(found))
    case FindFirst => Outcome(rows, FirstOf(found))
    case FindUniqueOrThrow => Outcome(rows, if found == [] then NotFound else FirstOf(found))
    case FindFirstOrThrow => Outcome(rows, if found == [] then NotFound else FirstOf(found))
    case Create => Outcome(rows + Built(args.data), Found(Built(args.data)))
    case CreateMany => Outcome(rows + Built(args.data), Affected(|Built(args.data)|))
    case Update =>
      if found == [] then Outcome(rows, NotFound)
      else Outcome(Replace(rows, WhereOf(args), FieldsOf(args.data), false),
                   First(Some(Assign(found[0], FieldsOf(args.data)))))
    case UpdateMany => Outcome(Replace(rows, WhereOf(args), FieldsOf(args.data), true), Affected(|found|))
    case Delete =>
      if found == [] then Outcome(rows, NotFound)
      else Outcome(Remove(rows, WhereOf(args), false), First(Some(found[0])))
    case DeleteMany => Outcome(Remove(rows, WhereOf(args), true), Affected(|found|))
    case Upsert =>
      if found == [] then
        var row := Assign(map[], CreateOf(args));
        Outcome(rows + [row], First(Some(row)))
      else Outcome(Replace(rows, WhereOf(args), args.update, false), First(Some(Assign(found[0], args.update))))
    case OtherAction(_) => Outcome(rows, Unmodelled)
  }

  // ---- A tenant's own rows ------------------------------------------------------------

  predicate Owns(tenantId: string, row: Row) {
    TENANT_ID in row && row[TENANT_ID] == Text(tenantId)
  }

  function Own(rows: seq<Row>, tenantId: string): seq<Row> {
    if rows == [] then []
    else if Owns(tenantId, rows[0]) then [rows[0]] + Own(rows[1..], tenantId)
    else Own(rows[1..], tenantId)
  }

  lemma {:induction false} OwnOfConcat(a: seq<Row>, b: seq<Row>, tenantId: string)
    ensures Own(a + b, tenantId) == Own(a, tenantId) + Own(b, tenantId)
  {
    if a == [] {
      assert a + b == b;
    } else {
      OwnOfConcat(a[1..], b, tenantId);
      assert (a + b)[1..] == a[1..] + b;
    }
  }

  /** The condition as the tenant would write it for itself: without naming any tenant. */
  function Unscoped(where: Where): Where {
    where - {TENANT_ID}
  }

  lemma ScopedSatisfies(row: Row, where: Where, tenantId: string)
    ensures Satisfies(row, where[TENANT_ID := Equals(Text(tenantId))])
       <==> Owns(tenantId, row) && Satisfies(row, Unscoped(where))
  {
    var scoped := where[TENANT_ID := Equals(Text(tenantId))];
    if Satisfies(row, scoped) {
      assert TENANT_ID in scoped && scoped[TENANT_ID] == Equals(Text(tenantId));
      forall column | column in Unscoped(where)
        ensures match where[column] case Equals(value) => column in row && row[column] == value case Holds(p) => p(row)
      {
        assert column in scoped && scoped[column] == where[column];
      }
    }
    if Owns(tenantId, row) && Satisfies(row, Unscoped(where)) {
      forall column | column in scoped
        ensures match scoped[column] case Equals(value) => column in row && row[column] == value case Holds(p) => p(row)
      {
        if column != TENANT_ID {
          assert column in Unscoped(where) && Unscoped(where)[column] == scoped[column];
        }
      }
    }
  }

  lemma OwnedFirst(rows: seq<Row>, tenantId: string)
    requires rows != [] && Owns(tenantId, rows[0])
    ensures Own(rows, tenantId) != [] && Own(rows, tenantId)[0] == rows[0]
    ensures Own(rows, tenantId)[1..] == Own(rows[1..], tenantId)
  {
  }

  lemma OwnOfCons(row: Row, rest: seq<Row>, tenantId: string)
    ensures Own([row] + rest, tenantId)
         == if Owns(tenantId, row) then [row] + Own(rest, tenantId) else Own(rest, tenantId)
  {
    assert ([row] + rest)[1..] == rest;
  }

  lemma {:induction false} ScopedSelect(rows: seq<Row>, where: Where, tenantId: string)
    ensures Select(rows, where[TENANT_ID := Equals(Text(tenantId))]) == Select(Own(rows, tenantId), Unscoped(where))
  {
    if rows != [] {
      ScopedSatisfies(rows[0], where, tenantId);
      ScopedSelect(rows[1..], where, tenantId);
      var own, rest := Own(rows, tenantId), Own(rows[1..], tenantId);
      if Owns(tenantId, rows[0]) {
        OwnedFirst(rows, tenantId);
        assert Select(own, Unscoped(where))
            == if Satisfies(own[0], Unscoped(where)) then [own[0]] + Select(own[1..], Unscoped(where))
               else Select(own[1..], Unscoped(where));
      } else {
        assert own == rest;
      }
    }
  }

  // ---- The rows that an update changes ------------------------------------------------

  /** The rows among those found that an update changes. */
  function Hit(found: seq<Row>, all: bool): seq<Row> {
    if all || found == [] then found else found[..1]
  }

  /** How many of the changed rows are handed to a tenant. */
  function HandedTo(t: string, rows: seq<Row>, fields: Fields): nat {
    if rows == [] then 0 else (if Owns(t, Assign(rows[0], fields)) then 1 else 0) + HandedTo(t, rows[1..], fields)
  }

  lemma {:induction false} NoneHandedIff(t: string, rows: seq<Row>, fields: Fields)
    ensures HandedTo(t, rows, fields) == 0 <==> forall i :: 0 <= i < |rows| ==> !Owns(t, Assign(rows[i], fields))
  {
    if rows != [] {
      NoneHandedIff(t, rows[1..], fields);
      assert forall i :: 0 < i < |rows| ==> rows[i] == rows[1..][i - 1];
    }
  }

  /** Every row comes out of the assignment as the tenant's. */
  ghost predicate AllKept(rows: seq<Row>, fields: Fields, tenantId: string) {
    forall i :: 0 <= i < |rows| ==> Owns(tenantId, Assign(rows[i], fields))
  }

  lemma {:induction false} AllHandedIff(t: string, rows: seq<Row>, fields: Fields)
    ensures HandedTo(t, rows, fields) <= |rows|
    ensures HandedTo(t, rows, fields) == |rows| <==> AllKept(rows, fields, t)
  {
    hide Assign, Owns;
    if rows != [] {
      AllHandedIff(t, rows[1..], fields);
      assert forall i :: 0 < i < |rows| ==> rows[i] == rows[1..][i - 1];
      assert forall i :: 0 <= i < |rows| - 1 ==> rows[1..][i] == rows[i + 1];
    }
  }

  lemma HitFirst(row: Row, found: seq<Row>, all: bool)
    ensures Hit([row] + found, all) == [row] + (if all then Hit(found, all) else [])
  {
    assert ([row] + found)[..1] == [row];
  }

  /** Each tenant gains the rows that are handed to it, and the caller loses the rows that are changed. */
  lemma {:induction false} ReplacedRows(rows: seq<Row>, where: Where, fields: Fields, all: bool, tenantId: string,
                                        t: string)
    ensures var scoped := where[TENANT_ID := Equals(Text(tenantId))];
      var hit := Hit(Select(rows, scoped), all);
      && |Own(Replace(rows, scoped, fields, all), t)|
           == |Own(rows, t)| + HandedTo(t, hit, fields) - (if t == tenantId then |hit| else 0)
      && (t != tenantId && HandedTo(t, hit, fields) == 0 ==> Own(Replace(rows, scoped, fields, all), t) == Own(rows, t))
  {
    hide Satisfies, Assign, Hit;
    var scoped := where[TENANT_ID := Equals(Text(tenantId))];
    if rows == [] {
      assert Hit([], all) == [] by {
        EmptyHit(all);
      }
    } else {
      ScopedSatisfies(rows[0], where, tenantId);
      ReplacedRows(rows[1..], where, fields, all, tenantId, t);
      if Satisfies(rows[0], scoped) {
        var found := Select(rows[1..], scoped);
        HitFirst(rows[0], found, all);
        FirstHanded(t, rows[0], if all then Hit(found, all) else [], fields);
        OwnOfCons(Assign(rows[0], fields), if all then Replace(rows[1..], scoped, fields, all) else rows[1..], t);
      } else {
        OwnOfCons(rows[0], Replace(rows[1..], scoped, fields, all), t);
      }
    }
  }

  lemma EmptyHit(all: bool)
    ensures Hit([], all) == []
  {
  }

  lemma FirstHanded(t: string, row: Row, rest: seq<Row>, fields: Fields)
    ensures HandedTo(t, [row] + rest, fields)
         == (if Owns(t, Assign(row, fields)) then 1 else 0) + HandedTo(t, rest, fields)
  {
    assert ([row] + rest)[1..] == rest;
  }

  lemma {:induction false} ReplaceKeepsLength(rows: seq<Row>, where: Where, fields: Fields, all: bool)
    ensures |Replace(rows, where, fields, all)| == |rows|
  {
    hide Satisfies, Assign;
    if rows != [] {
      ReplaceKeepsLength(rows[1..], where, fields, all);
    }
  }

  /** When every changed row stays with the caller, it is changed as in a private database, and nobody else sees it. */
  lemma {:induction false} ScopedReplace(rows: seq<Row>, where: Where, fields: Fields, all: bool, tenantId: string,
                                         t: string)
    requires AllKept(Hit(Select(rows, where[TENANT_ID := Equals(Text(tenantId))]), all), fields, tenantId)
    ensures Own(Replace(rows, where[TENANT_ID := Equals(Text(tenantId))], fields, all), t)
         == if t == tenantId then Replace(Own(rows, t), Unscoped(where), fields, all) else Own(rows, t)
  {
    hide Satisfies, Assign;
    var scoped := where[TENANT_ID := Equals(Text(tenantId))];
    if rows != [] {
      ScopedSatisfies(rows[0], where, tenantId);
      var rest := if Satisfies(rows[0], scoped) && !all then rows[1..] else Replace(rows[1..], scoped, fields, all);
      var head := if Satisfies(rows[0], scoped) then Assign(rows[0], fields) else rows[0];
      KeptOfFirst(rows, scoped, fields, all, tenantId);
      if !Satisfies(rows[0], scoped) || all {
        ScopedReplace(rows[1..], where, fields, all, tenantId, t);
      }
      hide Hit, Select, AllKept;
      assert Replace(rows, scoped, fields, all) == [head] + rest;
      OwnOfCons(head, rest, t);
      if t == tenantId && Owns(t, rows[0]) {
        OwnedFirst(rows, t);
        assert Replace(Own(rows, t), Unscoped(where), fields, all) == [head] + Own(rest, t);
      } else {
        assert Own(rows, t) == if Owns(t, rows[0]) then [rows[0]] + Own(rows[1..], t) else Own(rows[1..], t);
      }
    }
  }

  lemma KeptOfFirst(rows: seq<Row>, where: Where, fields: Fields, all: bool, tenantId: string)
    requires rows != [] && AllKept(Hit(Select(rows, where), all), fields, tenantId)
    ensures Satisfies(rows[0], where) ==> Owns(tenantId, Assign(rows[0], fields))
    ensures !Satisfies(rows[0], where) || all ==> AllKept(Hit(Select(rows[1..], where), all), fields, tenantId)
  {
    hide Satisfies, Assign, Owns;
    var found := Select(rows[1..], where);
    if Satisfies(rows[0], where) {
      HitFirst(rows[0], found, all);
      var hit := Hit(Select(rows, where), all);
      assert hit[0] == rows[0];
      if all {
        assert forall i :: 0 <= i < |found| ==> found[i] == hit[i + 1];
      }
    }
  }

  lemma {:induction false} ScopedRemove(rows: seq<Row>, where: Where, all: bool, tenantId: string, t: string)
    ensures Own(Remove(rows, where[TENANT_ID := Equals(Text(tenantId))], all), t)
         == if t == tenantId then Remove(Own(rows, t), Unscoped(where), all) else Own(rows, t)
  {
    hide Satisfies;
    var scoped := where[TENANT_ID := Equals(Text(tenantId))];
    if rows != [] {
      ScopedSatisfies(rows[0], where, tenantId);
      ScopedRemove(rows[1..], where, all, tenantId, t);
      if !Satisfies(rows[0], scoped) {
        OwnOfCons(rows[0], Remove(rows[1..], scoped, all), t);
      }
      if t == tenantId && Owns(t, rows[0]) {
        OwnedFirst(rows, t);
        assert Remove(Own(rows, t), Unscoped(where), all)
            == if !Satisfies(rows[0], Unscoped(where)) then [rows[0]] + Remove(Own(rows[1..], t), Unscoped(where), all)
               else if all then Remove(Own(rows[1..], t), Unscoped(where), all) else Own(rows[1..], t);
      } else {
        assert Own(rows, t) == if Owns(t, rows[0]) then [rows[0]] + Own(rows[1..], t) else Own(rows[1..], t);
      }
    }
  }

  lemma OwnedAll(rows: seq<Row>, tenantId: string, t: string)
    requires forall i :: 0 <= i < |rows| ==> Owns(tenantId, rows[i])
    ensures Own(rows, t) == if t == tenantId then rows else []
  {
    if rows != [] {
      OwnedAll(rows[1..], tenantId, t);
    }
  }

  ghost predicate AllOwned(rows: seq<Row>, tenantId: string) {
    forall i :: 0 <= i < |rows| ==> Owns(tenantId, rows[i])
  }

  // ---- The tenant column --------------------------------------------------------------

  /** The row with the tenant in its column, and every other column as it is. */
  function Labelled(row: Row, tenantId: string): Row {
    row["tenantId" := Text(tenantId)]
  }

  function LabelAll(rows: seq<Row>, tenantId: string): (r: seq<Row>)
    ensures |r| == |rows|
  {
    seq(|rows|, i requires 0 <= i < |rows| => Labelled(rows[i], tenantId))
  }

  function LabelAnswer(answer: Answer, tenantId: string): Answer {
    match answer
    case Found(rows) => Found(LabelAll(rows, tenantId))
    case First(Some(row)) => First(Some(Labelled(row, tenantId)))
    case _ => answer
  }

  /** A database of the tenant's own: whatever is written there, its tenant column is the tenant's. */
  function Label(outcome: Outcome, tenantId: string): Outcome {
    Outcome(LabelAll(outcome.rows, tenantId), LabelAnswer(outcome.answer, tenantId))
  }

  lemma LabelOwned(rows: seq<Row>, tenantId: string)
    requires AllOwned(rows, tenantId)
    ensures LabelAll(rows, tenantId) == rows
  {
    forall i | 0 <= i < |rows|
      ensures Labelled(rows[i], tenantId) == rows[i]
    {
    }
  }

  lemma LabelConcat(a: seq<Row>, b: seq<Row>, tenantId: string)
    ensures LabelAll(a + b, tenantId) == LabelAll(a, tenantId) + LabelAll(b, tenantId)
  {
  }

  lemma StampedIsLabelled(fields: Fields, tenantId: string)
    ensures Assign(map[], Stamped(fields, tenantId)) == Labelled(Assign(map[], fields), tenantId)
  {
  }

  /**
   The rows that stamped data describes are, in number and order, the rows of the caller's own data,
   each with the tenant in its column and every other column as the caller gave it, nested lists
   included.
   */
  lemma {:induction false} StampedRows(data: Data, tenantId: string)
    ensures Built(AddTenantToData(data, tenantId)) == LabelAll(Built(data), tenantId)
    decreases data
  {
    match data
    case NotAnObject => StampedIsLabelled(map[], tenantId);
    case Object(fields) => StampedIsLabelled(fields, tenantId);
    case Array(items) =>
      var stamped := seq(|items|, i requires 0 <= i < |items| => AddTenantToData(items[i], tenantId));
      assert AddTenantToData(data, tenantId) == Array(stamped);
      forall i | 0 <= i < |items|
        ensures Built(stamped[i]) == LabelAll(Built(items[i]), tenantId)
      {
        StampedRows(items[i], tenantId);
      }
      StampedLists(items, stamped, tenantId);
  }

  lemma {:induction false} StampedLists(items: seq<Data>, stamped: seq<Data>, tenantId: string)
    requires |items| == |stamped|
    requires forall i :: 0 <= i < |items| ==> Built(stamped[i]) == LabelAll(Built(items[i]), tenantId)
    ensures BuiltAll(stamped) == LabelAll(BuiltAll(items), tenantId)
  {
    if items != [] {
      StampedLists(items[1..], stamped[1..], tenantId);
      LabelConcat(Built(items[0]), BuiltAll(items[1..]), tenantId);
    }
  }

  /** Every row built from stamped data belongs to the tenant. */
  lemma BuiltOwned(data: Data, tenantId: string)
    ensures AllOwned(Built(AddTenantToData(data, tenantId)), tenantId)
  {
    StampedRows(data, tenantId);
  }

  // ---- One call -----------------------------------------------------------------------

  /** The same call in a database of the tenant's own: its data as given, and no tenant in its conditions. */
  function ExecuteOwn(rows: seq<Row>, action: Action, args: Args, tenantId: string): Outcome {
    Label(Execute(rows, action, args.(where := Some(Unscoped(WhereOf(args))))), tenantId)
  }

  /** The fields that a call assigns to rows it finds. */
  function AssignedBy(action: Action, args: Args): Fields {
    if action == Upsert then args.update else FieldsOf(args.data)
  }

  /** The tenant's rows that an update or an upsert changes. */
  function Changed(rows: seq<Row>, action: Action, args: Args, tenantId: string): seq<Row> {
    if IsUpdate(action) || action == Upsert
    then Hit(Select(Own(rows, tenantId), Unscoped(WhereOf(args))), action == UpdateMany)
    else []
  }

  /** The call is one that the middleware knows, and every row that it changes comes out as the tenant's. */
  ghost predicate StaysHome(rows: seq<Row>, action: Action, args: Args, tenantId: string) {
    !action.OtherAction? && AllKept(Changed(rows, action, args, tenantId), AssignedBy(action, args), tenantId)
  }

  /** In particular when its data does not assign the tenant, or assigns the tenant's own id. */
  lemma UnassignedStaysHome(rows: seq<Row>, action: Action, args: Args, tenantId: string)
    requires !action.OtherAction?
    requires var fields := AssignedBy(action, args); TENANT_ID in fields ==> fields[TENANT_ID] == Put(Text(tenantId))
    ensures StaysHome(rows, action, args, tenantId)
  {
    hide Satisfies, Unscoped;
    OwnAreOwned(rows, tenantId);
    SelectKeeps(Own(rows, tenantId), Unscoped(WhereOf(args)), tenantId);
  }

  lemma {:induction false} OwnAreOwned(rows: seq<Row>, tenantId: string)
    ensures AllOwned(Own(rows, tenantId), tenantId)
  {
    if rows != [] {
      OwnAreOwned(rows[1..], tenantId);
    }
  }

  lemma {:induction false} SelectKeeps(rows: seq<Row>, where: Where, tenantId: string)
    requires AllOwned(rows, tenantId)
    ensures AllOwned(Select(rows, where), tenantId)
  {
    hide Satisfies;
    if rows != [] {
      SelectKeeps(rows[1..], where, tenantId);
    }
  }

  lemma CreateExecutes(rows: seq<Row>, built: seq<Row>, tenantId: string, t: string)
    requires AllOwned(built, tenantId)
    ensures Own(rows + built, t) == if t == tenantId then Own(rows, t) + built else Own(rows, t)
  {
    OwnOfConcat(rows, built, t);
    OwnedAll(built, tenantId, t);
  }

  /** A scoped call does to the tenant's rows what its own call does in its own database, and nothing to others. */
  ghost predicate ExecutesAlike(rows: seq<Row>, action: Action, args: Args, tenantId: string, t: string) {
    var shared := Execute(rows, action, ScopedArgs(action, args, tenantId));
    var own := ExecuteOwn(Own(rows, tenantId), action, args, tenantId);
    && shared.answer == own.answer
    && Own(shared.rows, t) == if t == tenantId then own.rows else Own(rows, t)
  }

  ghost predicate AnswerOwned(answer: Answer, tenantId: string) {
    match answer
    case Found(rows) => AllOwned(rows, tenantId)
    case First(Some(row)) => Owns(tenantId, row)
    case _ => true
  }

  /** What is the tenant's already is labelled as it is. */
  lemma LabelOwnedOutcome(outcome: Outcome, tenantId: string)
    requires AllOwned(outcome.rows, tenantId) && AnswerOwned(outcome.answer, tenantId)
    ensures Label(outcome, tenantId) == outcome
  {
    LabelOwned(outcome.rows, tenantId);
    match outcome.answer
    case Found(rows) => LabelOwned(rows, tenantId);
    case First(Some(row)) => assert Labelled(row, tenantId) == row;
    case _ =>
  }

  lemma FoundOwned(rows: seq<Row>, where: Where, tenantId: string)
    ensures AllOwned(Own(rows, tenantId), tenantId) && AllOwned(Select(Own(rows, tenantId), where), tenantId)
  {
    OwnAreOwned(rows, tenantId);
    SelectKeeps(Own(rows, tenantId), where, tenantId);
  }

  lemma {:induction false} ReplaceKeepsOwned(rows: seq<Row>, where: Where, fields: Fields, all: bool, tenantId: string)
    requires AllOwned(rows, tenantId) && AllKept(Hit(Select(rows, where), all), fields, tenantId)
    ensures AllOwned(Replace(rows, where, fields, all), tenantId)
  {
    hide Satisfies, Assign, Owns, Hit;
    if rows != [] {
      KeptOfFirst(rows, where, fields, all, tenantId);
      if !Satisfies(rows[0], where) || all {
        ReplaceKeepsOwned(rows[1..], where, fields, all, tenantId);
      }
    }
  }

  lemma {:induction false} RemoveKeepsOwned(rows: seq<Row>, where: Where, all: bool, tenantId: string)
    requires AllOwned(rows, tenantId)
    ensures AllOwned(Remove(rows, where, all), tenantId)
  {
    hide Satisfies, Owns;
    if rows != [] {
      RemoveKeepsOwned(rows[1..], where, all, tenantId);
    }
  }

  lemma FirstKept(found: seq<Row>, fields: Fields, all: bool, tenantId: string)
    requires AllKept(Hit(found, all), fields, tenantId) && found != []
    ensures Owns(tenantId, Assign(found[0], fields))
  {
    assert Hit(found, all)[0] == found[0];
  }

  lemma ScopedReads(rows: seq<Row>, action: Action, args: Args, tenantId: string, t: string)
    requires IsRead(action)
    ensures ExecutesAlike(rows, action, args, tenantId, t)
  {
    hide Select, Own, Unscoped, Label, AllOwned;
    ScopedSelect(rows, WhereOf(args), tenantId);
    FoundOwned(rows, Unscoped(WhereOf(args)), tenantId);
    var own := Own(rows, tenantId);
    LabelOwnedOutcome(Execute(own, action, args.(where := Some(Unscoped(WhereOf(args))))), tenantId) by {
      FirstOwned(Select(own, Unscoped(WhereOf(args))), tenantId);
    }
  }

  lemma FirstOwned(rows: seq<Row>, tenantId: string)
    requires AllOwned(rows, tenantId)
    ensures rows != [] ==> Owns(tenantId, rows[0])
  {
  }

  lemma ScopedCreates(rows: seq<Row>, action: Action, args: Args, tenantId: string, t: string)
    requires IsCreate(action)
    ensures ExecutesAlike(rows, action, args, tenantId, t)
  {
    hide Select, Own, Built, AddTenantToData, Unscoped, LabelAll;
    StampedRows(args.data, tenantId);
    BuiltOwned(args.data, tenantId);
    CreateExecutes(rows, Built(AddTenantToData(args.data, tenantId)), tenantId, t);
    var own := Own(rows, tenantId);
    OwnAreOwned(rows, tenantId);
    LabelOwned(own, tenantId);
    LabelConcat(own, Built(args.data), tenantId);
  }

  lemma ScopedUpdates(rows: seq<Row>, action: Action, args: Args, tenantId: string, t: string)
    requires IsUpdate(action) && StaysHome(rows, action, args, tenantId)
    ensures ExecutesAlike(rows, action, args, tenantId, t)
  {
    hide Select, Replace, Own, Assign, Unscoped, Hit, AllKept, Label, AllOwned, Owns;
    var own, where, fields, all := Own(rows, tenantId), WhereOf(args), FieldsOf(args.data), action == UpdateMany;
    ScopedSelect(rows, where, tenantId);
    ScopedReplace(rows, where, fields, all, tenantId, t);
    ScopedReplace(rows, where, fields, all, tenantId, tenantId);
    FoundOwned(rows, Unscoped(where), tenantId);
    ReplaceKeepsOwned(own, Unscoped(where), fields, all, tenantId);
    if Select(own, Unscoped(where)) != [] {
      FirstKept(Select(own, Unscoped(where)), fields, all, tenantId);
    }
    LabelOwnedOutcome(Execute(own, action, args.(where := Some(Unscoped(where)))), tenantId);
  }

  lemma ScopedDeletes(rows: seq<Row>, action: Action, args: Args, tenantId: string, t: string)
    requires IsDelete(action)
    ensures ExecutesAlike(rows, action, args, tenantId, t)
  {
    hide Select, Remove, Own, Unscoped, Label, AllOwned, Owns;
    var own, where, all := Own(rows, tenantId), WhereOf(args), action == DeleteMany;
    ScopedSelect(rows, where, tenantId);
    ScopedRemove(rows, where, all, tenantId, t);
    FoundOwned(rows, Unscoped(where), tenantId);
    FirstOwned(Select(own, Unscoped(where)), tenantId);
    RemoveKeepsOwned(own, Unscoped(where), all, tenantId);
    LabelOwnedOutcome(Execute(own, action, args.(where := Some(Unscoped(where)))), tenantId);
  }

  lemma ScopedUpserts(rows: seq<Row>, args: Args, tenantId: string, t: string)
    requires StaysHome(rows, Upsert, args, tenantId)
    ensures ExecutesAlike(rows, Upsert, args, tenantId, t)
  {
    hide Select, Replace, Own, Assign, Unscoped, Hit, AllKept, Label, AllOwned, Owns;
    var own, where, fields := Own(rows, tenantId), WhereOf(args), args.update;
    ScopedSelect(rows, where, tenantId);
    FoundOwned(rows, Unscoped(where), tenantId);
    var found := Select(own, Unscoped(where));
    if found == [] {
      UpsertCreates(rows, args, tenantId, t);
    } else {
      ScopedReplace(rows, where, fields, false, tenantId, t);
      ReplaceKeepsOwned(own, Unscoped(where), fields, false, tenantId);
      FirstKept(found, fields, false, tenantId);
      LabelOwnedOutcome(Execute(own, Upsert, args.(where := Some(Unscoped(where)))), tenantId);
    }
  }

  /** An upsert that finds nothing creates the caller's row, as its own. */
  lemma UpsertCreates(rows: seq<Row>, args: Args, tenantId: string, t: string)
    requires Select(Own(rows, tenantId), Unscoped(WhereOf(args))) == []
    ensures ExecutesAlike(rows, Upsert, args, tenantId, t)
  {
    hide Select, Own, Assign, Unscoped, LabelAll;
    var row := Assign(map[], CreateOf(args));
    ScopedSelect(rows, WhereOf(args), tenantId);
    StampedIsOwned(CreateOf(args), tenantId);
    StampedIsLabelled(CreateOf(args), tenantId);
    CreateExecutes(rows, [Labelled(row, tenantId)], tenantId, t);
    OwnAreOwned(rows, tenantId);
    LabelOwned(Own(rows, tenantId), tenantId);
    LabelConcat(Own(rows, tenantId), [row], tenantId);
    LabelOne(row, tenantId);
  }

  lemma LabelOne(row: Row, tenantId: string)
    ensures LabelAll([row], tenantId) == [Labelled(row, tenantId)]
  {
  }

  /** A scoped call does to the tenant's rows what its own call does in its own database, and nothing to others. */
  lemma ScopedExecutes(rows: seq<Row>, action: Action, args: Args, tenantId: string, t: string)
    requires StaysHome(rows, action, args, tenantId)
    ensures var shared := Execute(rows, action, ScopedArgs(action, args, tenantId));
      var own := ExecuteOwn(Own(rows, tenantId), action, args, tenantId);
      && shared.answer == own.answer
      && Own(shared.rows, t) == if t == tenantId then own.rows else Own(rows, t)
  {
    assert ExecutesAlike(rows, action, args, tenantId, t) by {
      hide Execute, Own, ScopedArgs, ExecuteOwn, AllKept, Changed, ExecutesAlike;
      if IsRead(action) {
        ScopedReads(rows, action, args, tenantId, t);
      } else if IsCreate(action) {
        ScopedCreates(rows, action, args, tenantId, t);
      } else if IsUpdate(action) {
        ScopedUpdates(rows, action, args, tenantId, t);
      } else if IsDelete(action) {
        ScopedDeletes(rows, action, args, tenantId, t);
      } else {
        ScopedUpserts(rows, args, tenantId, t);
      }
    }
    hide Execute, Own, ScopedArgs, ExecuteOwn;
  }

  lemma StampedIsOwned(fields: Fields, tenantId: string)
    ensures AllOwned([Assign(map[], Stamped(fields, tenantId))], tenantId)
  {
  }

  /**
   Exactly when an update, an updateMany or an upsert leaves the tenant the rows that its private
   database would have: when every row that it changes is still the tenant's after the assignment.
   */
  lemma OwnRowsIff(rows: seq<Row>, action: Action, args: Args, tenantId: string)
    requires IsUpdate(action) || action == Upsert
    ensures (Own(Execute(rows, action, ScopedArgs(action, args, tenantId)).rows, tenantId)
             == ExecuteOwn(Own(rows, tenantId), action, args, tenantId).rows)
       <==> StaysHome(rows, action, args, tenantId)
  {
    hide Execute, ExecuteOwn, Own, ScopedArgs, StaysHome;
    if StaysHome(rows, action, args, tenantId) {
      ScopedExecutes(rows, action, args, tenantId, tenantId);
    } else {
      RowsGoMissing(rows, action, args, tenantId);
    }
  }

  /** The rows that an update gives away are missing. */
  lemma RowsGoMissing(rows: seq<Row>, action: Action, args: Args, tenantId: string)
    requires (IsUpdate(action) || action == Upsert) && !StaysHome(rows, action, args, tenantId)
    ensures |Own(Execute(rows, action, ScopedArgs(action, args, tenantId)).rows, tenantId)|
          < |ExecuteOwn(Own(rows, tenantId), action, args, tenantId).rows|
  {
    var own, where, fields, all := Own(rows, tenantId), WhereOf(args), AssignedBy(action, args), action == UpdateMany;
    hide Select, Replace, Own, Assign, Unscoped, Hit, HandedTo, AllKept, LabelAll, LabelAnswer;
    ScopedSelect(rows, where, tenantId);
    ReplacedRows(rows, where, fields, all, tenantId, tenantId);
    ReplaceKeepsLength(own, Unscoped(where), fields, all);
    AllHandedIff(tenantId, Changed(rows, action, args, tenantId), fields);
    if Select(own, Unscoped(where)) == [] {
      EmptyHit(all);
    }
  }

  // ---- Runs ---------------------------------------------------------------------------

  type Database = map<string, seq<Row>>

  datatype Call = Call(tenantId: string, model: string, action: Action, args: Args)

  datatype Reply = Refused(error: Error) | Answered(answer: Answer)

  function Table(db: Database, model: string): seq<Row> {
    if model in db then db[model] else []
  }

  datatype Submission = Submission(db: Database, reply: Reply)

  /** A call that goes through the middleware to the shared database. */
  function Submit(db: Database, call: Call): Submission {
    match Scope(Request(Some(call.model), call.action, Some(call.args)), Some(call.tenantId))
    case Failure(error) => Submission(db, Refused(error))
    case Success(request) =>
      var outcome := Execute(Table(db, call.model), call.action, request.args.value);
      Submission(db[call.model := outcome.rows], Answered(outcome.answer))
  }

  predicate IsRefused(call: Call) {
    call.model == "AuditLog" && (IsUpdate(call.action) || IsDelete(call.action))
  }

  /** The same call in a database of the tenant's own. */
  function SubmitOwn(db: Database, call: Call): Submission {
    if IsRefused(call) then Submission(db, Refused(AuditLogIsAppendOnly))
    else
      var outcome := ExecuteOwn(Table(db, call.model), call.action, call.args, call.tenantId);
      Submission(db[call.model := outcome.rows], Answered(outcome.answer))
  }

  function Run(db: Database, calls: seq<Call>): Database {
    if calls == [] then db else Submit(Run(db, calls[..|calls| - 1]), calls[|calls| - 1]).db
  }

  function RunOwn(db: Database, calls: seq<Call>): Database {
    if calls == [] then db else SubmitOwn(RunOwn(db, calls[..|calls| - 1]), calls[|calls| - 1]).db
  }

  /** A tenant's calls, in their order. */
  function CallsOf(calls: seq<Call>, tenantId: string): seq<Call> {
    if calls == [] then []
    else
      var last := calls[|calls| - 1];
      CallsOf(calls[..|calls| - 1], tenantId) + (if last.tenantId == tenantId then [last] else [])
  }

  /** A tenant's part of the database. */
  function OwnDatabase(db: Database, tenantId: string): Database {
    map model | model in db :: Own(db[model], tenantId)
  }

  /** A call of a tenant on its own behalf that the middleware knows. */
  predicate Scoped(call: Call) {
    call.model in TENANT_SCOPED_MODELS && call.tenantId != "" && !call.action.OtherAction?
  }

  /** The call is refused, or every row that it changes stays the tenant's. */
  ghost predicate Isolated(db: Database, call: Call) {
    Scoped(call) && (IsRefused(call) || StaysHome(Table(db, call.model), call.action, call.args, call.tenantId))
  }

  /** Every call of the run stays home when its turn comes. */
  ghost predicate AllIsolated(db: Database, calls: seq<Call>) {
    forall k :: 0 <= k < |calls| ==> Isolated(Run(db, calls[..k]), calls[k])
  }

  /** The database `own` holds the tenant's part of `db`. */
  ghost predicate IsPartOf(own: Database, db: Database, tenantId: string) {
    forall model :: Table(own, model) == Own(Table(db, model), tenantId)
  }

  lemma SubmitRefines(db: Database, own: Database, call: Call, tenantId: string)
    requires Isolated(db, call) && IsPartOf(own, db, tenantId)
    ensures call.tenantId == tenantId ==>
      IsPartOf(SubmitOwn(own, call).db, Submit(db, call).db, tenantId)
      && Submit(db, call).reply == SubmitOwn(own, call).reply
    ensures call.tenantId != tenantId ==> IsPartOf(own, Submit(db, call).db, tenantId)
  {
    hide Execute, Own, ScopedArgs, ExecuteOwn, StaysHome;
    assert Table(own, call.model) == Own(Table(db, call.model), tenantId);
    if !IsRefused(call) {
      ScopedExecutes(Table(db, call.model), call.action, call.args, call.tenantId, tenantId);
    }
    forall model | model != call.model
      ensures Table(Submit(db, call).db, model) == Table(db, model)
      ensures Table(SubmitOwn(own, call).db, model) == Table(own, model)
    {
    }
  }

  lemma {:induction false} RunRefines(db: Database, calls: seq<Call>, tenantId: string)
    requires AllIsolated(db, calls)
    ensures IsPartOf(RunOwn(OwnDatabase(db, tenantId), CallsOf(calls, tenantId)), Run(db, calls), tenantId)
  {
    hide Submit, SubmitOwn, Isolated, Own;
    if calls == [] {
      OwnDatabaseIsPart(db, tenantId);
    } else {
      var init, last := calls[..|calls| - 1], calls[|calls| - 1];
      IsolatedPrefix(db, calls, |calls| - 1);
      RunRefines(db, init, tenantId);
      var own := RunOwn(OwnDatabase(db, tenantId), CallsOf(init, tenantId));
      SubmitRefines(Run(db, init), own, last, tenantId);
      if last.tenantId == tenantId {
        assert (CallsOf(init, tenantId) + [last])[..|CallsOf(init, tenantId)|] == CallsOf(init, tenantId);
      } else {
        assert CallsOf(calls, tenantId) == CallsOf(init, tenantId);
      }
    }
  }

  lemma IsolatedPrefix(db: Database, calls: seq<Call>, n: nat)
    requires AllIsolated(db, calls) && n <= |calls|
    ensures AllIsolated(db, calls[..n])
    ensures n < |calls| ==> Isolated(Run(db, calls[..n]), calls[n])
  {
    hide Run, Isolated;
    forall k | 0 <= k < n
      ensures calls[..n][..k] == calls[..k]
    {
    }
  }

  lemma OwnDatabaseIsPart(db: Database, tenantId: string)
    ensures IsPartOf(OwnDatabase(db, tenantId), db, tenantId)
  {
  }

  /**
   Tenant refinement. In any interleaved run of scoped calls in which every changed row stays with its
   tenant, each tenant ends up with exactly the rows that its own calls alone make in a database of its
   own, and each of its calls is answered exactly as it is there.
   */
  lemma TenantRefinement(db: Database, calls: seq<Call>, k: nat, model: string)
    requires AllIsolated(db, calls) && k < |calls|
    ensures var t := calls[k].tenantId;
      var own := RunOwn(OwnDatabase(db, t), CallsOf(calls[..k], t));
      && Submit(Run(db, calls[..k]), calls[k]).reply == SubmitOwn(own, calls[k]).reply
      && Own(Table(Run(db, calls), model), t) == Table(RunOwn(OwnDatabase(db, t), CallsOf(calls, t)), model)
  {
    hide Submit, SubmitOwn, Isolated, Own, RunOwn, Run, CallsOf;
    var t := calls[k].tenantId;
    IsolatedPrefix(db, calls, k);
    RunRefines(db, calls[..k], t);
    RunRefines(db, calls, t);
    SubmitRefines(Run(db, calls[..k]), RunOwn(OwnDatabase(db, t), CallsOf(calls[..k], t)), calls[k], t);
  }

  /** After each call of the run, every tenant has the rows of its own private run. */
  ghost predicate Refines(db: Database, calls: seq<Call>) {
    forall k, t: string :: 0 <= k <= |calls| ==>
      IsPartOf(RunOwn(OwnDatabase(db, t), CallsOf(calls[..k], t)), Run(db, calls[..k]), t)
  }

  /**
   Exactly when a run of scoped calls refines the private runs of its tenants throughout: when every
   row that a call changes is still its tenant's afterwards.
   */
  lemma TenantRefinementIff(db: Database, calls: seq<Call>)
    requires forall k :: 0 <= k < |calls| ==> Scoped(calls[k])
    ensures Refines(db, calls) <==> AllIsolated(db, calls)
  {
    hide Submit, SubmitOwn, Scoped, StaysHome, Run, RunOwn, CallsOf, OwnDatabase, IsPartOf, IsRefused;
    if AllIsolated(db, calls) {
      forall k, t: string | 0 <= k <= |calls|
        ensures IsPartOf(RunOwn(OwnDatabase(db, t), CallsOf(calls[..k], t)), Run(db, calls[..k]), t)
      {
        IsolatedPrefix(db, calls, k);
        RunRefines(db, calls[..k], t);
      }
    }
    if Refines(db, calls) {
      forall k | 0 <= k < |calls|
        ensures Isolated(Run(db, calls[..k]), calls[k])
      {
        var t := calls[k].tenantId;
        OneMoreCall(db, calls, k);
        OneMoreOwnCall(OwnDatabase(db, t), calls, k);
        RefinedStaysHome(Run(db, calls[..k]), RunOwn(OwnDatabase(db, t), CallsOf(calls[..k], t)), calls[k]);
      }
    }
  }

  lemma OneMoreCall(db: Database, calls: seq<Call>, k: nat)
    requires k < |calls|
    ensures Run(db, calls[..k + 1]) == Submit(Run(db, calls[..k]), calls[k]).db
  {
    assert calls[..k + 1][..k] == calls[..k];
  }

  lemma OneMoreOwnCall(own: Database, calls: seq<Call>, k: nat)
    requires k < |calls|
    ensures var t := calls[k].tenantId;
      RunOwn(own, CallsOf(calls[..k + 1], t)) == SubmitOwn(RunOwn(own, CallsOf(calls[..k], t)), calls[k]).db
  {
    var before := CallsOf(calls[..k], calls[k].tenantId);
    assert calls[..k + 1][..k] == calls[..k];
    assert (before + [calls[k]])[..|before|] == before;
  }

  /** A call after which the tenant has its private rows stayed home. */
  lemma RefinedStaysHome(db: Database, own: Database, call: Call)
    requires Scoped(call) && IsPartOf(own, db, call.tenantId)
    requires IsPartOf(SubmitOwn(own, call).db, Submit(db, call).db, call.tenantId)
    ensures Isolated(db, call)
  {
    hide Execute, Own, ScopedArgs, ExecuteOwn, StaysHome;
    assert Table(own, call.model) == Own(Table(db, call.model), call.tenantId);
    if !IsRefused(call) {
      if IsUpdate(call.action) || call.action == Upsert {
        OwnRowsIff(Table(db, call.model), call.action, call.args, call.tenantId);
        assert Table(SubmitOwn(own, call).db, call.model) == Own(Table(Submit(db, call).db, call.model), call.tenantId);
      } else {
        OthersStayHome(Table(db, call.model), call.action, call.args, call.tenantId);
      }
    }
  }

  lemma OthersStayHome(rows: seq<Row>, action: Action, args: Args, tenantId: string)
    requires !action.OtherAction? && !IsUpdate(action) && action != Upsert
    ensures StaysHome(rows, action, args, tenantId)
  {
  }

  // ---- Where it ends ------------------------------------------------------------------

  /**
   Why updates must not assign the tenant: the middleware does not look into their data. Exactly when
   another tenant sees nothing of an update, an updateMany or an upsert, whatever it assigns and
   however the value is computed: when none of the rows it changes comes out as that tenant's.
   */
  lemma HandingOverIsUnseenIff(rows: seq<Row>, action: Action, args: Args, tenantId: string, t: string)
    requires (IsUpdate(action) || action == Upsert) && t != tenantId
    ensures var hit := Hit(Select(Own(rows, tenantId), Unscoped(WhereOf(args))), action == UpdateMany);
      (Own(Execute(rows, action, ScopedArgs(action, args, tenantId)).rows, t) == Own(rows, t))
      <==> (forall i :: 0 <= i < |hit| ==> !Owns(t, Assign(hit[i], AssignedBy(action, args))))
  {
    hide Select, Replace, Own, Assign, Unscoped, HandedTo;
    var fields, where := AssignedBy(action, args), WhereOf(args);
    var hit := Hit(Select(Own(rows, tenantId), Unscoped(where)), action == UpdateMany);
    ScopedSelect(rows, where, tenantId);
    ReplacedRows(rows, where, fields, action == UpdateMany, tenantId, t);
    NoneHandedIff(t, hit, fields);
    if action == Upsert {
      StampedIsOwned(CreateOf(args), tenantId);
      CreateExecutes(rows, [Assign(map[], Stamped(CreateOf(args), tenantId))], tenantId, t);
    }
  }

  // ---- The audit log ------------------------------------------------------------------

  /** What the middleware lets through to the audit log, apart from upserts, keeps every row that is there. */
  lemma {:induction false} AuditLogAppendOnly(db: Database, calls: seq<Call>)
    requires forall k :: 0 <= k < |calls| && calls[k].model == "AuditLog" ==>
      calls[k].action != Upsert && !calls[k].action.OtherAction?
    ensures Table(db, "AuditLog") <= Table(Run(db, calls), "AuditLog")
  {
    hide Execute;
    if calls != [] {
      var init, last := calls[..|calls| - 1], calls[|calls| - 1];
      AuditLogAppendOnly(db, init);
      var before := Run(db, init);
      if last.model == "AuditLog" && !IsUpdate(last.action) && !IsDelete(last.action) {
        match Scope(Request(Some(last.model), last.action, Some(last.args)), Some(last.tenantId))
        case Failure(_) =>
        case Success(request) => ReadsAndCreatesKeep(Table(before, "AuditLog"), last.action, request.args.value);
      }
    }
  }

  lemma ReadsAndCreatesKeep(rows: seq<Row>, action: Action, args: Args)
    requires IsRead(action) || IsCreate(action)
    ensures rows <= Execute(rows, action, args).rows
  {
  }

  lemma {:induction false} FirstReplaced(rows: seq<Row>, where: Where, fields: Fields)
    ensures |Replace(rows, where, fields, false)| == |rows|
    ensures Replace(rows, where, fields, false) == rows
       <==> Select(rows, where) == [] || Assign(Select(rows, where)[0], fields) == Select(rows, where)[0]
  {
    hide Satisfies, Assign;
    if rows != [] {
      FirstReplaced(rows[1..], where, fields);
      assert rows == [rows[0]] + rows[1..];
      if !Satisfies(rows[0], where) {
        assert Replace(rows, where, fields, false)[1..] == Replace(rows[1..], where, fields, false);
      } else {
        assert Replace(rows, where, fields, false)[0] == Assign(rows[0], fields);
      }
    }
  }

  /** An upsert is not forbidden: it keeps the rows of the audit log exactly when it finds none or changes nothing. */
  lemma UpsertKeepsAuditLogIff(rows: seq<Row>, args: Args, tenantId: string)
    ensures var scoped := ScopedArgs(Upsert, args, tenantId); var found := Select(rows, WhereOf(scoped));
      rows <= Execute(rows, Upsert, scoped).rows <==> found == [] || Assign(found[0], args.update) == found[0]
  {
    hide Select, Replace, Assign;
    FirstReplaced(rows, WhereOf(ScopedArgs(Upsert, args, tenantId)), args.update);
  }
}
