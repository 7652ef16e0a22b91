/**
 The Redis commands that locks and idempotency keys are built on
 (src/common/services/redis.service.ts). An error of the connection is a parameter: the command may
 have been lost, or carried out without its answer arriving.
 */
module RedisStore {
  import opened Outcomes

  datatype Fault = Working | Lost | AnswerLost

  /** Whether the key expires; when is left open. */
  datatype Stored<V> = Stored(value: V, expires: bool)

  type Store<V> = map<string, Stored<V>>

  datatype Consumed = Consumes | Missing | Mismatch

  predicate HasDefaultTtl(key: string) {
    "audit:" <= key || "threat:" <= key
  }

  /** `set`: a TTL of zero counts as none, and then NX is not sent either. */
  function SetTtl(key: string, ttlSeconds: int): int {
    if ttlSeconds == 0 && HasDefaultTtl(key) then 86400 else ttlSeconds
  }

  /** Whether the command sets the key, as far as Redis is concerned. */
  predicate Sets<V>(store: Store<V>, key: string, ttlSeconds: int, nx: bool) {
    SetTtl(key, ttlSeconds) == 0 || (SetTtl(key, ttlSeconds) > 0 && (nx ==> key !in store))
  }

  function AfterSet<V>(store: Store<V>, key: string, value: V, ttlSeconds: int, nx: bool, fault: Fault): Store<V> {
    if fault != Lost && Sets(store, key, ttlSeconds, nx)
    then store[key := Stored(value, SetTtl(key, ttlSeconds) != 0)]
    else store
  }

  function ConsumeAnswer<V(==)>(store: Store<V>, key: string, expected: V): Consumed {
    if key !in store then Missing else if store[key].value != expected then Mismatch else Consumes
  }

  function AfterConsume<V(==)>(store: Store<V>, key: string, expected: V, fault: Fault): Store<V> {
    if fault != Lost && ConsumeAnswer(store, key, expected) == Consumes then store - {key} else store
  }

  class RedisService<V(==)> {
    var store: Store<V>

    constructor ()
      ensures store == map[]
    {
      store := map[];
    }

    method Get(key: string, fault: Fault) returns (value: Option<V>)
      ensures value == if fault == Working && key in store then Some(store[key].value) else None
    {
      if fault != Working || key !in store {
        return None;
      }
      return Some(store[key].value);
    }

    /** True exactly when the key was set and the answer arrived. */
    method Set(key: string, value: V, ttlSeconds: int, nx: bool, fault: Fault) returns (ok: bool)
      modifies this
      ensures store == AfterSet(old(store), key, value, ttlSeconds, nx, fault)
      ensures ok <==> fault == Working && Sets(old(store), key, ttlSeconds, nx)
    {
      var ttl := ttlSeconds;
      if ttl == 0 && HasDefaultTtl(key) {
        ttl := 86400;
      }
      if fault == Lost || ttl < 0 {
        return false;
      }
      if nx && ttl != 0 && key in store {
        return false;
      }
      store := store[key := Stored(value, ttl != 0)];
      return fault == Working;
    }

    method Del(key: string, fault: Fault)
      modifies this
      ensures store == if fault == Lost then old(store) else old(store) - {key}
    {
      if fault != Lost {
        store := store - {key};
      }
    }

    /** The script compares and deletes in one step; an error reads as a missing key. */
    method ConsumeIfValue(key: string, expected: V, fault: Fault) returns (result: Consumed)
      modifies this
      ensures store == AfterConsume(old(store), key, expected, fault)
      ensures result == if fault == Working then ConsumeAnswer(old(store), key, expected) else Missing
    {
      if fault == Lost {
        return Missing;
      }
      if key !in store {
        return Missing;
      }
      if store[key].value != expected {
        return if fault == Working then Mismatch else Missing;
      }
      store := store - {key};
      return if fault == Working then Consumes else Missing;
    }

    method AcquireLock(key: string, ttlSeconds: int, token: V, fault: Fault) returns (result: Option<V>)
      modifies this
      ensures store == AfterSet(old(store), key, token, ttlSeconds, true, fault)
      ensures result == if fault == Working && Sets(old(store), key, ttlSeconds, true) then Some(token) else None
    {
      var acquired := Set(key, token, ttlSeconds, true, fault);
      return if acquired then Some(token) else None;
    }

    method ReleaseLock(key: string, token: V, fault: Fault)
      modifies this
      ensures store == AfterConsume(old(store), key, token, fault)
    {
      var _ := ConsumeIfValue(key, token, fault);
    }
  }
}
