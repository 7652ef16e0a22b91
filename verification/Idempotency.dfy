/**
 Idempotency keys (src/common/services/idempotency.service.ts). `CheckAndReserve` is two commands, a
 SET NX and, if the key was taken, a GET; the second half of this module lets other callers run in
 between.
 */
module Idempotency {
  import opened Outcomes
  import opened RedisStore

  /** The text stored under a key: a status, a result, or something that does not parse. */
  datatype Record<+R> = Processing | Completed(result: R) | Corrupt

  datatype Status<+R> = NEW | PROCESSING | COMPLETED(result: R)

  // ---- Keys ---------------------------------------------------------------------------

  function BuildKey(key: string, tenantId: string): string {
    "idempotency:" + tenantId + ":" + key
  }

  /** The keys of different tenants never collide, since tenant ids contain no colon. */
  lemma KeysDiffer(key: string, tenantId: string, key': string, tenantId': string)
    requires ':' !in tenantId && ':' !in tenantId'
    requires BuildKey(key, tenantId) == BuildKey(key', tenantId')
    ensures key == key' && tenantId == tenantId'
  {
    var a, b := BuildKey(key, tenantId), BuildKey(key', tenantId');
    var n, n' := 12 + |tenantId|, 12 + |tenantId'|;
    assert a[n] == ':' && b[n'] == ':';
    assert forall i :: 12 <= i < n ==> a[i] == tenantId[i - 12];
    assert forall i :: 12 <= i < n' ==> b[i] == tenantId'[i - 12];
    assert n == n';
    assert tenantId == a[12..n] == b[12..n] == tenantId';
    assert key == a[n + 1..] == b[n + 1..] == key';
  }

  // ---- The service --------------------------------------------------------------------

  /** What a caller is told who finds the key taken and then reads it. */
  function StatusOf<R>(record: Option<Record<R>>): Status<R> {
    match record
    case None => NEW
    case Some(Processing) => PROCESSING
    case Some(Completed(result)) => COMPLETED(result)
    case Some(Corrupt) => NEW
  }

  class IdempotencyService<R(==)> {
    const redis: RedisService<Record<R>>

    constructor (redis: RedisService<Record<R>>)
      ensures this.redis == redis
    {
      this.redis := redis;
    }

    ghost function Stored(key: string, tenantId: string): Option<Record<R>>
      reads redis
    {
      var k := BuildKey(key, tenantId);
      if k in redis.store then Some(redis.store[k].value) else None
    }

    /** The key goes away by itself some time. */
    ghost predicate Expires(key: string, tenantId: string)
      reads redis
    {
      BuildKey(key, tenantId) in redis.store && redis.store[BuildKey(key, tenantId)].expires
    }

    /** Nothing but this tenant's key is touched. */
    twostate predicate OnlyKey(key: string, tenantId: string)
      reads redis
    {
      forall k :: k != BuildKey(key, tenantId) ==>
        (k in redis.store <==> k in old(redis.store)) && (k in redis.store ==> redis.store[k] == old(redis.store[k]))
    }

    /** Undisturbed, a caller reserves a free or corrupt key, and otherwise is told what is stored. */
    method CheckAndReserve(key: string, tenantId: string, ttlSeconds: int) returns (status: Status<R>)
      requires ttlSeconds > 0
      modifies redis
      ensures match old(Stored(key, tenantId))
        case None => status == NEW
        case Some(Corrupt) => status == NEW
        case Some(Processing) => status == PROCESSING
        case Some(Completed(result)) => status == COMPLETED(result)
      ensures Stored(key, tenantId) == if status == NEW then Some(Processing) else old(Stored(key, tenantId))
      ensures status == NEW ==> Expires(key, tenantId)
      ensures OnlyKey(key, tenantId)
    {
      var redisKey := BuildKey(key, tenantId);
      var reserved := redis.Set(redisKey, Processing, ttlSeconds, true, Working);
      if reserved {
        return NEW;
      }
      var raw := redis.Get(redisKey, Working);
      if raw.None? {
        return NEW;
      }
      match raw.value
      case Completed(result) => return COMPLETED(result);
      case Processing => return PROCESSING;
      case Corrupt =>
        var _ := redis.Set(redisKey, Processing, ttlSeconds, false, Working);
        return NEW;
    }

    method Complete(key: string, tenantId: string, result: R, ttlSeconds: int)
      requires ttlSeconds > 0
      modifies redis
      ensures Stored(key, tenantId) == Some(Completed(result)) && Expires(key, tenantId) && OnlyKey(key, tenantId)
    {
      var _ := redis.Set(BuildKey(key, tenantId), Completed(result), ttlSeconds, false, Working);
    }

    method Release(key: string, tenantId: string)
      modifies redis
      ensures Stored(key, tenantId) == None && OnlyKey(key, tenantId)
    {
      redis.Del(BuildKey(key, tenantId), Working);
    }

    method GetResult(key: string, tenantId: string) returns (result: Option<R>)
      ensures result == match Stored(key, tenantId) case Some(Completed(r)) => Some(r) case _ => None
    {
      var raw := redis.Get(BuildKey(key, tenantId), Working);
      if raw.None? || !raw.value.Completed? {
        return None;
      }
      return Some(raw.value.result);
    }
  }

  // ---- Interleaved callers ------------------------------------------------------------

  /**
   Where a caller stands. `Waiting` has found the key taken and has not read it yet; `Active` was
   told NEW and has neither completed nor released; `Done` has, or was told something else.
   */
  datatype Caller<+R> = Idle | Waiting | Active | Done(answer: Status<R>)

  /** One key and its callers. */
  datatype World<R> = World(record: Option<Record<R>>, callers: seq<Caller<R>>)

  datatype Step<R> =
    | Arrive
    | TrySet(caller: nat)
    | Read(caller: nat)
    | Finish(caller: nat, result: R)
    | GiveUp(caller: nat)

  predicate Enabled<R>(w: World<R>, step: Step<R>) {
    match step
    case Arrive => true
    case TrySet(c) => c < |w.callers| && w.callers[c].Idle?
    case Read(c) => c < |w.callers| && w.callers[c].Waiting?
    case Finish(c, _) => c < |w.callers| && w.callers[c].Active?
    case GiveUp(c) => c < |w.callers| && w.callers[c].Active?
  }

  function Next<R>(w: World<R>, step: Step<R>): World<R>
    requires Enabled(w, step)
  {
    match step
    case Arrive => w.(callers := w.callers + [Idle])
    case TrySet(c) =>
      if w.record.None? then World(Some(Processing), w.callers[c := Active])
      else w.(callers := w.callers[c := Waiting])
    case Read(c) =>
      var status := StatusOf(w.record);
      if status.NEW?
      then World(if w.record.None? then None else Some(Processing), w.callers[c := Active])
      else w.(callers := w.callers[c := Done(status)])
    case Finish(c, result) => World(Some(Completed(result)), w.callers[c := Done(NEW)])
    case GiveUp(c) => World(None, w.callers[c := Done(NEW)])
  }

  /** Two commands with nobody in between do what `CheckAndReserve` promises. */
  lemma UninterruptedIsCheckAndReserve<R>(w: World<R>, c: nat)
    requires Enabled(w, TrySet(c))
    ensures var tried := Next(w, TrySet(c));
      var status := match w.record
        case None => NEW
        case Some(Corrupt) => NEW
        case Some(Processing) => PROCESSING
        case Some(Completed(result)) => COMPLETED(result);
      var after := if tried.callers[c].Waiting? then Next(tried, Read(c)) else tried;
      && after.record == (if status.NEW? then Some(Processing) else w.record)
      && after.callers == w.callers[c := if status.NEW? then Active else Done(status)]
  {
  }

  ghost predicate Execution<R>(worlds: seq<World<R>>, steps: seq<Step<R>>) {
    && |worlds| == |steps| + 1 && worlds[0] == World(None, [])
    && forall k :: 0 <= k < |steps| ==> Enabled(worlds[k], steps[k]) && worlds[k + 1] == Next(worlds[k], steps[k])
  }

  /** A caller reads a key that has disappeared since it found it taken. */
  predicate FindsNothing<R>(w: World<R>, step: Step<R>) {
    step.Read? && w.record.None?
  }

  /** The callers that were told NEW and are working. */
  ghost function Workers<R>(callers: seq<Caller<R>>): set<nat> {
    set c: nat | c < |callers| && callers[c].Active?
  }

  lemma WorkersAfter<R>(callers: seq<Caller<R>>, c: nat, caller: Caller<R>)
    requires c < |callers|
    ensures Workers(callers[c := caller]) == if caller.Active? then Workers(callers) + {c} else Workers(callers) - {c}
    ensures callers[c].Active? <==> c in Workers(callers)
    ensures Workers(callers + [Idle]) == Workers(callers)
  {
  }

  /** The record says who is working: one caller while it is PROCESSING, and nobody otherwise. */
  ghost predicate Orderly<R>(w: World<R>) {
    match w.record
    case Some(Processing) => exists c :: Workers(w.callers) == {c}
    case Some(Completed(_)) => Workers(w.callers) == {}
    case Some(Corrupt) => false
    case None => Workers(w.callers) == {}
  }

  /** A step keeps the record and the callers in line exactly when it does not find the key gone. */
  lemma StepOrderlyIff<R>(w: World<R>, step: Step<R>)
    requires Enabled(w, step) && Orderly(w)
    ensures Orderly(Next(w, step)) <==> !FindsNothing(w, step)
  {
    var w' := Next(w, step);
    if step.Arrive? {
      assert w'.record == w.record && Workers(w'.callers) == Workers(w.callers);
    } else {
      var c := step.caller;
      WorkersAfter(w.callers, c, w'.callers[c]);
      hide Workers;
      assert w'.callers == w.callers[c := w'.callers[c]];
      if step.TrySet? && w.record.None? {
        assert Workers(w'.callers) == {c};
      }
      if step.Finish? || step.GiveUp? {
        assert Workers(w.callers) == {c};
      }
    }
  }

  /** As long as nobody finds the key gone, at most one caller at a time has been told NEW and is working. */
  lemma {:induction false} AtMostOneActive<R>(worlds: seq<World<R>>, steps: seq<Step<R>>, k: nat)
    requires Execution(worlds, steps) && k < |worlds|
    requires forall j :: 0 <= j < k ==> !FindsNothing(worlds[j], steps[j])
    ensures Orderly(worlds[k])
  {
    if k > 0 {
      AtMostOneActive(worlds, steps, k - 1);
      StepOrderlyIff(worlds[k - 1], steps[k - 1]);
    }
  }

  /** Exactly when reservations and callers stay in line throughout: when nobody ever finds the key gone. */
  lemma {:induction false} AlwaysOrderlyIff<R>(worlds: seq<World<R>>, steps: seq<Step<R>>, k: nat)
    requires Execution(worlds, steps) && k < |worlds|
    ensures (forall m :: 0 <= m <= k ==> Orderly(worlds[m]))
       <==> (forall j :: 0 <= j < k ==> !FindsNothing(worlds[j], steps[j]))
  {
    hide Orderly, FindsNothing, Next, Enabled;
    if k == 0 {
      AtMostOneActive(worlds, steps, 0);
    } else {
      AlwaysOrderlyIff(worlds, steps, k - 1);
      if Orderly(worlds[k - 1]) {
        StepOrderlyIff(worlds[k - 1], steps[k - 1]);
        assert worlds[k] == Next(worlds[k - 1], steps[k - 1]);
        assert Orderly(worlds[k]) <==> !FindsNothing(worlds[k - 1], steps[k - 1]);
      }
    }
  }

  // ---- One worker at a time -----------------------------------------------------------

  ghost predicate OneWorker<R>(w: World<R>) {
    forall c, d :: c in Workers(w.callers) && d in Workers(w.callers) ==> c == d
  }

  /** The step is answered NEW: a SET NX of a free key, or a GET that finds none. */
  predicate AnsweredNew<R>(w: World<R>, step: Step<R>) {
    (step.TrySet? || step.Read?) && w.record.None?
  }

  /** A caller found the key gone in step i, and while it still works somebody else is told NEW in step j. */
  ghost predicate LetsAnotherIn<R>(worlds: seq<World<R>>, steps: seq<Step<R>>, i: nat, j: nat)
    requires Execution(worlds, steps)
  {
    && i < j < |steps| && FindsNothing(worlds[i], steps[i]) && steps[i].caller in Workers(worlds[j].callers)
    && AnsweredNew(worlds[j], steps[j])
  }

  /** All is in line, or the key is gone and the only worker is a caller that found it gone. */
  ghost predicate NearlyOrderly<R>(worlds: seq<World<R>>, steps: seq<Step<R>>, k: nat)
    requires Execution(worlds, steps) && k < |worlds|
  {
    || Orderly(worlds[k])
    || (worlds[k].record.None?
        && exists i :: 0 <= i < k && FindsNothing(worlds[i], steps[i])
             && Workers(worlds[k].callers) == {steps[i].caller})
  }

  /** A worker whose key is gone stays the only one until it is done or somebody is told NEW. */
  lemma LoneWorkerStep<R>(w: World<R>, step: Step<R>, c: nat)
    requires Enabled(w, step) && w.record.None? && Workers(w.callers) == {c} && !AnsweredNew(w, step)
    ensures Orderly(Next(w, step)) || (Next(w, step).record.None? && Workers(Next(w, step).callers) == {c})
  {
    var w' := Next(w, step);
    if step.Arrive? {
      assert Workers(w'.callers) == Workers(w.callers);
    } else {
      WorkersAfter(w.callers, step.caller, w'.callers[step.caller]);
      assert w'.callers == w.callers[step.caller := w'.callers[step.caller]];
    }
  }

  lemma FindsNothingStep<R>(w: World<R>, step: Step<R>)
    requires Enabled(w, step) && Orderly(w) && FindsNothing(w, step)
    ensures Next(w, step).record.None? && Workers(Next(w, step).callers) == {step.caller}
  {
    WorkersAfter(w.callers, step.caller, Active);
  }

  lemma {:induction false} StaysNearlyOrderly<R>(worlds: seq<World<R>>, steps: seq<Step<R>>, k: nat)
    requires Execution(worlds, steps) && k < |worlds|
    requires forall i, j :: 0 <= i < j < k ==> !LetsAnotherIn(worlds, steps, i, j)
    ensures NearlyOrderly(worlds, steps, k)
  {
    hide Orderly, Enabled, Next, AnsweredNew;
    if k == 0 {
      AtMostOneActive(worlds, steps, 0);
    } else {
      StaysNearlyOrderly(worlds, steps, k - 1);
      var w, step := worlds[k - 1], steps[k - 1];
      assert Enabled(w, step) && worlds[k] == Next(w, step);
      if !Orderly(w) {
        var i :| 0 <= i < k - 1 && FindsNothing(worlds[i], steps[i]) && Workers(w.callers) == {steps[i].caller};
        assert !LetsAnotherIn(worlds, steps, i, k - 1);
        LoneWorkerStep(w, step, steps[i].caller);
      } else if FindsNothing(w, step) {
        FindsNothingStep(w, step);
      } else {
        StepOrderlyIff(w, step);
      }
    }
  }

  lemma NearlyOrderlyIsOneWorker<R>(worlds: seq<World<R>>, steps: seq<Step<R>>, k: nat)
    requires Execution(worlds, steps) && k < |worlds| && NearlyOrderly(worlds, steps, k)
    ensures OneWorker(worlds[k])
  {
    hide Execution, Workers;
  }

  /** Somebody who is told NEW works beside the caller that still does. */
  lemma AnotherWorks<R>(worlds: seq<World<R>>, steps: seq<Step<R>>, i: nat, j: nat)
    requires Execution(worlds, steps) && LetsAnotherIn(worlds, steps, i, j)
    ensures !OneWorker(worlds[j + 1])
  {
    var w, step, c := worlds[j], steps[j], steps[i].caller;
    assert Enabled(w, step) && worlds[j + 1] == Next(w, step);
    WorkersAfter(w.callers, step.caller, Active);
    assert c in Workers(worlds[j + 1].callers) && step.caller in Workers(worlds[j + 1].callers);
  }

  /**
   Exactly when at most one caller works at a time, with a working Redis and no expiry: when nobody is
   told NEW while a caller that found the key gone is still working.
   */
  lemma OneWorkerIff<R>(worlds: seq<World<R>>, steps: seq<Step<R>>, k: nat)
    requires Execution(worlds, steps) && k < |worlds|
    ensures (forall m :: 0 <= m <= k ==> OneWorker(worlds[m]))
       <==> (forall i, j :: 0 <= i < j < k ==> !LetsAnotherIn(worlds, steps, i, j))
  {
    hide OneWorker, LetsAnotherIn, NearlyOrderly, Execution;
    if forall i, j :: 0 <= i < j < k ==> !LetsAnotherIn(worlds, steps, i, j) {
      forall m | 0 <= m <= k
        ensures OneWorker(worlds[m])
      {
        StaysNearlyOrderly(worlds, steps, m);
        NearlyOrderlyIsOneWorker(worlds, steps, m);
      }
    }
    if forall m :: 0 <= m <= k ==> OneWorker(worlds[m]) {
      forall i, j | 0 <= i < j < k
        ensures !LetsAnotherIn(worlds, steps, i, j)
      {
        if LetsAnotherIn(worlds, steps, i, j) {
          AnotherWorks(worlds, steps, i, j);
          assert false;
        }
      }
    }
  }

  // ---- When the key is found gone -----------------------------------------------------

  /** Somebody gives up between the two commands of the caller who reads in step k. */
  ghost predicate GivenUpBetween<R>(worlds: seq<World<R>>, steps: seq<Step<R>>, k: nat)
    requires Execution(worlds, steps) && k < |steps|
  {
    steps[k].Read? && exists i, j :: 0 <= i < j < k && steps[i] == TrySet(steps[k].caller) && steps[j].GiveUp?
  }

  /** A waiting caller found the key taken in an earlier step. */
  lemma {:induction false} WaitingHasTried<R>(worlds: seq<World<R>>, steps: seq<Step<R>>, k: nat, c: nat)
    returns (i: nat)
    requires Execution(worlds, steps) && k < |worlds| && c < |worlds[k].callers| && worlds[k].callers[c].Waiting?
    ensures i < k && steps[i] == TrySet(c) && worlds[i].record != None && worlds[i + 1].record != None
  {
    i := k - 1;
    var w, step := worlds[k - 1], steps[k - 1];
    assert worlds[k] == Next(w, step);
    if c < |w.callers| && w.callers[c].Waiting? {
      i := WaitingHasTried(worlds, steps, k - 1, c);
    }
  }

  /** A key that is there stays there until somebody gives up. */
  lemma {:induction false} RecordStays<R>(worlds: seq<World<R>>, steps: seq<Step<R>>, i: nat, k: nat)
    requires Execution(worlds, steps) && i <= k < |worlds| && worlds[i].record != None
    requires forall j :: i <= j < k ==> !steps[j].GiveUp?
    ensures worlds[k].record != None
    decreases k - i
  {
    if i < k {
      assert worlds[i + 1] == Next(worlds[i], steps[i]);
      RecordStays(worlds, steps, i + 1, k);
    }
  }

  lemma FindsNothingMeansGivenUp<R>(worlds: seq<World<R>>, steps: seq<Step<R>>, k: nat)
    requires Execution(worlds, steps) && k < |steps| && FindsNothing(worlds[k], steps[k])
    ensures GivenUpBetween(worlds, steps, k)
  {
    assert Enabled(worlds[k], steps[k]);
    var i := WaitingHasTried(worlds, steps, k, steps[k].caller);
    if forall j :: i < j < k ==> !steps[j].GiveUp? {
      RecordStays(worlds, steps, i + 1, k);
      assert false;
    }
  }

  /**
   At most one NEW per reservation. With a working Redis and no expiry, and if nobody releases the key
   between another caller's SET NX and GET, then at every moment at most one caller is working.
   */
  lemma OneNewPerReservation<R>(worlds: seq<World<R>>, steps: seq<Step<R>>, k: nat, c: nat, d: nat)
    requires Execution(worlds, steps) && k < |worlds|
    requires forall j :: 0 <= j < k ==> !GivenUpBetween(worlds, steps, j)
    requires c < |worlds[k].callers| && worlds[k].callers[c].Active?
    requires d < |worlds[k].callers| && worlds[k].callers[d].Active?
    ensures c == d
  {
    OrderlyAt(worlds, steps, k);
    assert c in Workers(worlds[k].callers) && d in Workers(worlds[k].callers);
  }

  /**
   After a caller has completed that was the only one working, the record keeps its result for good and
   everybody who reads is given it.
   */
  lemma {:induction false} CompletedStays<R>(worlds: seq<World<R>>, steps: seq<Step<R>>, j: nat, k: nat)
    requires Execution(worlds, steps) && j < k < |worlds| && steps[j].Finish?
    requires OneWorker(worlds[j])
    ensures worlds[k].record == Some(Completed(steps[j].result)) && Workers(worlds[k].callers) == {}
    ensures k < |steps| && steps[k].Read? ==> worlds[k + 1].callers[steps[k].caller] == Done(COMPLETED(steps[j].result))
    decreases k - j
  {
    if k == j + 1 {
      assert Enabled(worlds[j], steps[j]) && worlds[k] == Next(worlds[j], steps[j]);
      WorkersAfter(worlds[j].callers, steps[j].caller, worlds[k].callers[steps[j].caller]);
    } else {
      CompletedStays(worlds, steps, j, k - 1);
      var callers, step := worlds[k - 1].callers, steps[k - 1];
      if step.Arrive? {
        assert Workers(callers + [Idle]) == Workers(callers);
      } else {
        WorkersAfter(callers, step.caller, worlds[k].callers[step.caller]);
      }
      assert worlds[k] == Next(worlds[k - 1], steps[k - 1]);
    }
    if k < |steps| && steps[k].Read? {
      assert worlds[k + 1] == Next(worlds[k], steps[k]);
    }
  }

  lemma OrderlyAt<R>(worlds: seq<World<R>>, steps: seq<Step<R>>, k: nat)
    requires Execution(worlds, steps) && k < |worlds|
    requires forall j :: 0 <= j < k ==> !GivenUpBetween(worlds, steps, j)
    ensures Orderly(worlds[k])
  {
    forall j | 0 <= j < k
      ensures !FindsNothing(worlds[j], steps[j])
    {
      if FindsNothing(worlds[j], steps[j]) {
        FindsNothingMeansGivenUp(worlds, steps, j);
        assert false;
      }
    }
    AtMostOneActive(worlds, steps, k);
  }

  // ---- The race -----------------------------------------------------------------------

  lemma Extend<R>(worlds: seq<World<R>>, steps: seq<Step<R>>, step: Step<R>)
      returns (worlds': seq<World<R>>, steps': seq<Step<R>>)
    requires Execution(worlds, steps) && Enabled(worlds[|steps|], step)
    ensures Execution(worlds', steps') && worlds'[|steps'|] == Next(worlds[|steps|], step)
  {
    worlds', steps' := worlds + [Next(worlds[|steps|], step)], steps + [step];
  }

  ghost predicate TwoActive(worlds: seq<World<int>>, steps: seq<Step<int>>) {
    && Execution(worlds, steps)
    && var w := worlds[|steps|];
      |w.callers| == 3 && w.callers[1].Active? && w.callers[2].Active?
  }

  /**
   The race: the second caller finds the key taken, the first gives up, the second reads nothing and is
   told NEW without having reserved anything, and the third reserves the key.
   */
  lemma ReleaseInBetweenLetsTwoIn()
    ensures exists worlds: seq<World<int>>, steps: seq<Step<int>> :: TwoActive(worlds, steps)
  {
    var ws, ss: seq<Step<int>> := [World(None, [])], [];
    ws, ss := Extend(ws, ss, Arrive);
    ws, ss := Extend(ws, ss, Arrive);
    ws, ss := Extend(ws, ss, Arrive);
    assert ws[|ss|] == World(None, [Idle, Idle, Idle]);
    ws, ss := Extend(ws, ss, TrySet(0));
    assert ws[|ss|] == World(Some(Processing), [Active, Idle, Idle]);
    ws, ss := Extend(ws, ss, TrySet(1));
    assert ws[|ss|] == World(Some(Processing), [Active, Waiting, Idle]);
    ws, ss := Extend(ws, ss, GiveUp(0));
    assert ws[|ss|] == World(None, [Done(NEW), Waiting, Idle]);
    ws, ss := Extend(ws, ss, Read(1));
    assert ws[|ss|] == World(None, [Done(NEW), Active, Idle]);
    ws, ss := Extend(ws, ss, TrySet(2));
    assert TwoActive(ws, ss);
  }
}
