/**
 What a JSON column gives back: a state is written with `JSON.stringify(value ?? null)` and read
 again (src/modules/audit/audit.chain.service.ts). `JSON.stringify` drops object members whose
 value is undefined, while `canonicalJson` prints them as null, so the text that is hashed when a
 row is written and the text that is hashed when it is verified can differ.
 */
module JsonStorage {
  import opened CanonicalJson

  function Stored(v: Json): Json {
    match v
    case Undefined => Null
    case Arr(items) => Arr(seq(|items|, i requires 0 <= i < |items| => Stored(items[i])))
    case Obj(ms) => Obj(StoredMembers(ms))
    case _ => v
  }

  function StoredMembers(ms: seq<Member>): seq<Member> {
    if ms == [] then []
    else if ms[0].value.Undefined? then StoredMembers(ms[1..])
    else [Member(ms[0].key, Stored(ms[0].value))] + StoredMembers(ms[1..])
  }

  /** No object inside v has a member whose value is undefined. */
  ghost predicate NoUndefinedMember(v: Json) {
    match v
    case Arr(items) => forall i :: 0 <= i < |items| ==> NoUndefinedMember(items[i])
    case Obj(ms) => forall m :: m in ms ==> !m.value.Undefined? && NoUndefinedMember(m.value)
    case _ => true
  }

  lemma {:induction false} StoredMember(ms: seq<Member>, x: Member)
    ensures x in StoredMembers(ms)
       <==> exists m :: m in ms && !m.value.Undefined? && x == Member(m.key, Stored(m.value))
  {
    if ms != [] {
      StoredMember(ms[1..], x);
      assert ms == [ms[0]] + ms[1..];
      if x in StoredMembers(ms) {
        if !ms[0].value.Undefined? && x == Member(ms[0].key, Stored(ms[0].value)) {
          assert ms[0] in ms;
        } else {
          assert x in StoredMembers(ms[1..]);
          var m :| m in ms[1..] && !m.value.Undefined? && x == Member(m.key, Stored(m.value));
          assert m in ms;
        }
      }
    }
  }

  lemma {:induction false} StoredKeysDistinct(ms: seq<Member>)
    requires DistinctKeys(ms)
    ensures DistinctKeys(StoredMembers(ms))
  {
    if ms != [] {
      StoredKeysDistinct(ms[1..]);
      var rest := StoredMembers(ms[1..]);
      forall j | 0 <= j < |rest|
        ensures rest[j].key != ms[0].key
      {
        StoredMember(ms[1..], rest[j]);
        var m :| m in ms[1..] && !m.value.Undefined? && rest[j] == Member(m.key, Stored(m.value));
      }
    }
  }

  lemma {:induction false} StoredWellFormed(v: Json)
    requires WellFormed(v)
    ensures WellFormed(Stored(v))
  {
    match v
    case Arr(items) =>
      forall i | 0 <= i < |items|
        ensures WellFormed(Stored(items[i]))
      {
        StoredWellFormed(items[i]);
      }
    case Obj(ms) =>
      StoredKeysDistinct(ms);
      forall x | x in StoredMembers(ms)
        ensures WellFormed(x.value)
      {
        StoredMember(ms, x);
        var m :| m in ms && !m.value.Undefined? && x == Member(m.key, Stored(m.value));
        StoredWellFormed(m.value);
      }
    case _ =>
  }

  /** A stored state equals the state that was written exactly when no member was undefined. */
  lemma {:induction false} StoredIsSame(v: Json)
    requires WellFormed(v)
    ensures Same(Stored(v), v) <==> NoUndefinedMember(v)
  {
    match v
    case Arr(items) =>
      forall i | 0 <= i < |items|
        ensures Same(Stored(items[i]), items[i]) <==> NoUndefinedMember(items[i])
      {
        StoredIsSame(items[i]);
      }
    case Obj(ms) =>
      if Same(Stored(v), v) {
        forall m | m in ms
          ensures !m.value.Undefined? && NoUndefinedMember(m.value)
        {
          StoredObjectKeeps(ms, m);
          StoredIsSame(m.value);
        }
      }
      if NoUndefinedMember(v) {
        forall m | m in ms
          ensures Same(Stored(m.value), m.value)
        {
          StoredIsSame(m.value);
        }
        StoredObjectSame(ms);
      }
    case _ =>
  }

  lemma SameKeySameMember(ms: seq<Member>, m: Member, n: Member)
    requires DistinctKeys(ms) && m in ms && n in ms && m.key == n.key
    ensures m == n
  {
    var i :| 0 <= i < |ms| && ms[i] == m;
    var j :| 0 <= j < |ms| && ms[j] == n;
  }

  lemma StoredObjectKeeps(ms: seq<Member>, m: Member)
    requires DistinctKeys(ms) && m in ms && Same(Obj(StoredMembers(ms)), Obj(ms))
    ensures !m.value.Undefined? && Same(Stored(m.value), m.value)
  {
    assert HasKey(m.key, StoredMembers(ms));
    var x :| x in StoredMembers(ms) && x.key == m.key;
    StoredMember(ms, x);
    var k :| k in ms && !k.value.Undefined? && x == Member(k.key, Stored(k.value));
    SameKeySameMember(ms, k, m);
    assert HasEqual(x, ms);
    var n :| n in ms && n.key == x.key && Same(x.value, n.value);
    SameKeySameMember(ms, n, m);
  }

  lemma StoredObjectSame(ms: seq<Member>)
    requires forall m :: m in ms ==> !m.value.Undefined? && Same(Stored(m.value), m.value)
    ensures Same(Obj(StoredMembers(ms)), Obj(ms))
  {
    forall x | x in StoredMembers(ms)
      ensures HasEqual(x, ms)
    {
      StoredMember(ms, x);
      var m :| m in ms && !m.value.Undefined? && x == Member(m.key, Stored(m.value));
    }
    forall m | m in ms
      ensures HasKey(m.key, StoredMembers(ms))
    {
      var x := Member(m.key, Stored(m.value));
      StoredMember(ms, x);
      assert x in StoredMembers(ms);
    }
  }

  /** Hashing a stored state gives the text hashed at write time exactly when no member was undefined. */
  lemma StoredTextIff(v: Json)
    requires WellFormed(v)
    ensures CanonicalText(Stored(v)) == CanonicalText(v) <==> NoUndefinedMember(v)
  {
    StoredWellFormed(v);
    StoredIsSame(v);
    CanonicalTextIsInjective(Stored(v), v);
  }
}
