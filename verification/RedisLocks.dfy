/**
 Distributed locks (src/common/services/redis.service.ts) under every interleaving of acquisitions,
 releases and expiries, with connection errors anywhere.
 */
module RedisLocks {
  import opened Outcomes
  import opened RedisStore

  type Token = string

  /** `Release(acquisition)` releases with the token of an earlier step that acquired. */
  datatype Step =
    | Acquire(key: string, ttlSeconds: int, token: Token, fault: Fault)
    | Release(acquisition: nat, fault: Fault)
    | Expire(key: string)

  /** The caller is told that it holds the lock. */
  predicate Acquires(store: Store<Token>, step: Step) {
    step.Acquire? && step.fault == Working && Sets(store, step.key, step.ttlSeconds, true)
  }

  function Next(store: Store<Token>, step: Step, released: Option<Step>): Store<Token> {
    match step
    case Acquire(key, ttlSeconds, token, fault) => AfterSet(store, key, token, ttlSeconds, true, fault)
    case Release(_, fault) =>
      if released.Some? && released.value.Acquire?
      then AfterConsume(store, released.value.key, released.value.token, fault) else store
    case Expire(key) => if key in store && store[key].expires then store - {key} else store
  }

  /** The step whose token a release uses. */
  function Target(steps: seq<Step>, k: nat): Option<Step>
    requires k < |steps|
  {
    if steps[k].Release? && steps[k].acquisition < |steps| then Some(steps[steps[k].acquisition]) else None
  }

  /**
   The stores of an execution. Tokens are fresh (`randomUUID`), and only a step that acquired before
   is ever released.
   */
  ghost predicate Execution(stores: seq<Store<Token>>, steps: seq<Step>) {
    && |stores| == |steps| + 1 && stores[0] == map[]
    && (forall k :: 0 <= k < |steps| ==> stores[k + 1] == Next(stores[k], steps[k], Target(steps, k)))
    && (forall j, k :: 0 <= j < k < |steps| && steps[j].Acquire? && steps[k].Acquire? ==>
          steps[j].token != steps[k].token)
    && (forall k :: 0 <= k < |steps| && steps[k].Release? ==>
          steps[k].acquisition < k && Acquires(stores[steps[k].acquisition], steps[steps[k].acquisition]))
  }

  /** The lock taken in step j is given back or expires in step k. */
  predicate Ends(steps: seq<Step>, j: nat, k: nat)
    requires j < |steps| && k < |steps| && steps[j].Acquire?
  {
    steps[k] == Expire(steps[j].key) || (steps[k].Release? && steps[k].acquisition == j)
  }

  /** An acquisition that sends NX: its TTL is not zero, or the key has a default one. */
  predicate Guarded(step: Step) {
    step.Acquire? ==> step.ttlSeconds != 0 || "audit:" <= step.key || "threat:" <= step.key
  }

  /**
   A lock stays with its owner until the owner releases it or it expires: whatever else is acquired
   or released in between, stale releases of earlier owners included.
   */
  lemma LockIsKept(stores: seq<Store<Token>>, steps: seq<Step>, j: nat, m: nat)
    requires Execution(stores, steps) && j < m <= |steps| && Acquires(stores[j], steps[j])
    requires forall k :: j < k < m ==>
      !Ends(steps, j, k) && (steps[k].Acquire? && steps[k].key == steps[j].key ==> Guarded(steps[k]))
    ensures steps[j].key in stores[m] && stores[m][steps[j].key].value == steps[j].token
  {
    LockIsStored(stores, steps, j, m);
  }

  lemma OtherToken(stores: seq<Store<Token>>, steps: seq<Step>, i: nat, j: nat)
    requires Execution(stores, steps) && i < |steps| && j < |steps| && i != j && steps[i].Acquire? && steps[j].Acquire?
    ensures steps[i].token != steps[j].token
  {
    if i < j {
      assert steps[i].token != steps[j].token;
    } else {
      assert steps[j].token != steps[i].token;
    }
  }

  /**
   Mutual exclusion: between two successful acquisitions of a key, the first owner has released it or
   it has expired, as long as every acquisition of the key sends NX.
   */
  lemma MutualExclusion(stores: seq<Store<Token>>, steps: seq<Step>, j: nat, m: nat)
    requires Execution(stores, steps) && j < m < |steps|
      && Acquires(stores[j], steps[j]) && Acquires(stores[m], steps[m])
    requires steps[m].key == steps[j].key
    requires forall k :: j < k <= m && steps[k].Acquire? && steps[k].key == steps[j].key ==> Guarded(steps[k])
    ensures exists k :: j < k < m && Ends(steps, j, k)
  {
    assert Guarded(steps[m]);
    if forall k :: j < k < m ==> !Ends(steps, j, k) {
      LockIsKept(stores, steps, j, m);
      assert false;
    }
  }

  /** Exactly which releases free a lock: those with the token that is stored. A stale one changes nothing. */
  lemma ReleaseFreesIff(store: Store<Token>, key: string, token: Token, fault: Fault)
    requires fault != Lost
    ensures AfterConsume(store, key, token, fault) != store <==> key in store && store[key].value == token
    ensures forall other :: other != key ==>
      (other in store <==> other in AfterConsume(store, key, token, fault))
      && (other in store ==> AfterConsume(store, key, token, fault)[other] == store[other])
  {
    if key in store && store[key].value == token {
      assert key !in AfterConsume(store, key, token, fault);
    }
  }

  /** Exactly when an undisturbed acquisition succeeds, and that it leaves its own token. */
  lemma AcquiresIff(store: Store<Token>, key: string, ttlSeconds: int, token: Token)
    ensures var step := Acquire(key, ttlSeconds, token, Working);
      && (Acquires(store, step) <==> ttlSeconds >= 0 && (key !in store || !Guarded(step)))
      && Next(store, step, None)
           == if Acquires(store, step) then store[key := Stored(token, Guarded(step))] else store
  {
  }

  /** A lock that is taken with NX does not outlive its TTL: an expiry frees it, exactly when NX was sent. */
  lemma ExpiryFreesIff(stores: seq<Store<Token>>, steps: seq<Step>, j: nat, m: nat)
    requires Execution(stores, steps) && j < m < |steps| && Acquires(stores[j], steps[j])
    requires forall k :: j < k < m ==>
      !Ends(steps, j, k) && (steps[k].Acquire? && steps[k].key == steps[j].key ==> Guarded(steps[k]))
    requires steps[m] == Expire(steps[j].key)
    ensures steps[j].key !in stores[m + 1] <==> Guarded(steps[j])
  {
    LockIsStored(stores, steps, j, m);
    assert stores[m + 1] == Next(stores[m], steps[m], Target(steps, m));
  }

  lemma {:induction false} LockIsStored(stores: seq<Store<Token>>, steps: seq<Step>, j: nat, m: nat)
    requires Execution(stores, steps) && j < m <= |steps| && Acquires(stores[j], steps[j])
    requires forall k :: j < k < m ==>
      !Ends(steps, j, k) && (steps[k].Acquire? && steps[k].key == steps[j].key ==> Guarded(steps[k]))
    ensures steps[j].key in stores[m] && stores[m][steps[j].key] == Stored(steps[j].token, Guarded(steps[j]))
  {
    var step := steps[m - 1];
    assert stores[m] == Next(stores[m - 1], step, Target(steps, m - 1));
    if m > j + 1 {
      LockIsStored(stores, steps, j, m - 1);
      assert !Ends(steps, j, m - 1);
      if step.Release? {
        OtherToken(stores, steps, j, step.acquisition);
      }
    }
  }

  /** Why the TTL must not be zero: an acquisition of a held lock succeeds exactly when it sends no NX. */
  lemma HeldLockIsTakenIff(store: Store<Token>, key: string, ttlSeconds: int, token: Token)
    requires key in store
    ensures Acquires(store, Acquire(key, ttlSeconds, token, Working))
       <==> !Guarded(Acquire(key, ttlSeconds, token, Working))
  {
  }
}
