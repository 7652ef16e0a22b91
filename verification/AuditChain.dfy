/**
 The audit hash chain (src/modules/audit/audit.chain.service.ts): `persistEvent` appends one event
 to a tenant's chain while it holds the lock on the chain head, `verifyTenantChain` walks the
 tenant's events in timestamp order.

 SHA-256, HMAC and the ISO rendering of a timestamp are function values. Nothing below assumes the
 hash to be injective: the lemmas ask only that it has no collision among the texts of the rows
 they speak of.
 */
module AuditChain {
  import opened CanonicalJson
  import opened JsonStorage
  import opened Outcomes

  const GENESIS_HASH := "GENESIS"

  datatype Payload = Payload(
    correlationId: string, tenantId: string, userId: Option<string>, role: Option<string>, action: string,
    resourceType: Option<string>, resourceId: Option<string>, oldState: Json, newState: Json, metadata: Json,
    ip: Option<string>, userAgent: Option<string>, endpoint: Option<string>, httpMethod: Option<string>,
    statusCode: Numeral, success: bool, errorCode: Option<string>)

  /** One `AuditEvent` row. Row ids are numbered in the order the database collates them. */
  datatype Event = Event(
    id: int, timestamp: int, payload: Payload, prevHash: string, eventHash: string, signature: string)

  datatype Head = Head(lastHash: string, sequence: nat)

  /** One call of `persistEvent`. */
  datatype Job = Job(id: int, timestamp: int, payload: Payload)

  datatype Crypto = Crypto(hash: string -> string, hmac: (string, string) -> string, iso: int -> string)

  // ---- Payload text -------------------------------------------------------------------

  function OrNull(s: Option<string>): Json {
    match s
    case None => Null
    case Some(v) => Str(v)
  }

  const FIELD_NAMES: seq<string> := [
    "correlationId", "tenantId", "userId", "role", "action", "resourceType", "resourceId", "oldState",
    "newState", "metadata", "ip", "userAgent", "endpoint", "method", "statusCode", "success", "errorCode"]

  function FieldValues(p: Payload): seq<Json> {
    [Str(p.correlationId), Str(p.tenantId), OrNull(p.userId), OrNull(p.role), Str(p.action),
     OrNull(p.resourceType), OrNull(p.resourceId), p.oldState, p.newState, p.metadata, OrNull(p.ip),
     OrNull(p.userAgent), OrNull(p.endpoint), OrNull(p.httpMethod), Num(p.statusCode), Bool(p.success),
     OrNull(p.errorCode)]
  }

  function Record(names: seq<string>, values: seq<Json>): Json
    requires |names| == |values|
  {
    Obj(seq(|names|, i requires 0 <= i < |names| => Member(names[i], values[i])))
  }

  function PayloadText(p: Payload): string {
    CanonicalText(Record(FIELD_NAMES, FieldValues(p)))
  }

  ghost predicate WellFormedPayload(p: Payload) {
    WellFormed(p.oldState) && WellFormed(p.newState) && WellFormed(p.metadata)
  }

  /** The payload as its row gives it back. */
  function StoredPayload(p: Payload): Payload {
    p.(oldState := Stored(p.oldState), newState := Stored(p.newState), metadata := Stored(p.metadata))
  }

  /** The payload has no undefined member inside its three JSON states. */
  ghost predicate StoresFaithfully(p: Payload) {
    NoUndefinedMember(p.oldState) && NoUndefinedMember(p.newState) && NoUndefinedMember(p.metadata)
  }

  /** Payloads that agree in all seventeen hashed fields. */
  ghost predicate SamePayload(p: Payload, q: Payload) {
    && q.(oldState := p.oldState, newState := p.newState, metadata := p.metadata) == p
    && Same(p.oldState, q.oldState) && Same(p.newState, q.newState) && Same(p.metadata, q.metadata)
  }

  lemma FieldNamesDistinct()
    ensures forall i, j :: 0 <= i < j < |FIELD_NAMES| ==> FIELD_NAMES[i] != FIELD_NAMES[j]
  {
    forall i, j | 0 <= i < j < |FIELD_NAMES|
      ensures FIELD_NAMES[i] != FIELD_NAMES[j]
    {
      if |FIELD_NAMES[i]| == |FIELD_NAMES[j]| {
        assert FIELD_NAMES[i][0] != FIELD_NAMES[j][0];
      }
    }
  }

  lemma RecordsSame(names: seq<string>, xs: seq<Json>, ys: seq<Json>)
    requires |names| == |xs| == |ys|
    requires forall i, j :: 0 <= i < j < |names| ==> names[i] != names[j]
    ensures Same(Record(names, xs), Record(names, ys)) <==> forall i :: 0 <= i < |xs| ==> Same(xs[i], ys[i])
  {
    var v, w := Record(names, xs), Record(names, ys);
    if Same(v, w) {
      forall i | 0 <= i < |xs|
        ensures Same(xs[i], ys[i])
      {
        assert v.members[i] in v.members;
        assert HasEqual(v.members[i], w.members);
      }
    }
    if forall i :: 0 <= i < |xs| ==> Same(xs[i], ys[i]) {
      forall i | 0 <= i < |xs|
        ensures HasEqual(v.members[i], w.members) && HasKey(w.members[i].key, v.members)
      {
        assert w.members[i] in w.members && v.members[i] in v.members;
      }
    }
  }

  lemma RecordWellFormed(p: Payload)
    requires WellFormedPayload(p)
    ensures WellFormed(Record(FIELD_NAMES, FieldValues(p)))
  {
    FieldNamesDistinct();
    var v := Record(FIELD_NAMES, FieldValues(p));
    assert DistinctKeys(v.members);
    forall m | m in v.members
      ensures WellFormed(m.value)
    {
      var i :| 0 <= i < |v.members| && v.members[i] == m;
      FieldWellFormed(p, i);
    }
  }

  lemma FieldWellFormed(p: Payload, i: int)
    requires WellFormedPayload(p) && 0 <= i < 17
    ensures WellFormed(FieldValues(p)[i])
  {
  }

  lemma SameOrNull(a: Option<string>, b: Option<string>)
    ensures Same(OrNull(a), OrNull(b)) <==> a == b
  {
  }

  /** The field values of p and q are equal one by one. */
  ghost predicate SameFields(p: Payload, q: Payload) {
    forall i :: 0 <= i < 17 ==> Same(FieldValues(p)[i], FieldValues(q)[i])
  }

  lemma SameAt(p: Payload, q: Payload, i: nat)
    requires SameFields(p, q) && i < 17
    ensures Same(FieldValues(p)[i], FieldValues(q)[i])
  {
  }

  lemma SamePayloadFields(p: Payload, q: Payload)
    ensures SamePayload(p, q) <==> SameFields(p, q)
  {
    if SameFields(p, q) {
      hide SameFields, FieldValues, Same, OrNull;
      TextFields(p, q);
      OptionFields(p, q);
      StateFields(p, q);
    }
    if SamePayload(p, q) {
      FieldsSame(p, q);
    }
  }

  lemma TextFields(p: Payload, q: Payload)
    requires SameFields(p, q)
    ensures p.correlationId == q.correlationId && p.tenantId == q.tenantId && p.action == q.action
    ensures p.statusCode == q.statusCode && p.success == q.success
  {
    hide SameFields;
    SameAt(p, q, 0);
    SameAt(p, q, 1);
    SameAt(p, q, 4);
    SameAt(p, q, 14);
    SameAt(p, q, 15);
  }

  lemma OptionFields(p: Payload, q: Payload)
    requires SameFields(p, q)
    ensures p.userId == q.userId && p.role == q.role && p.resourceType == q.resourceType
    ensures p.resourceId == q.resourceId && p.ip == q.ip && p.userAgent == q.userAgent
    ensures p.endpoint == q.endpoint && p.httpMethod == q.httpMethod && p.errorCode == q.errorCode
  {
    hide SameFields, OrNull, Same;
    SameAt(p, q, 2);
    SameOrNull(p.userId, q.userId);
    SameAt(p, q, 3);
    SameOrNull(p.role, q.role);
    SameAt(p, q, 5);
    SameOrNull(p.resourceType, q.resourceType);
    SameAt(p, q, 6);
    SameOrNull(p.resourceId, q.resourceId);
    SameAt(p, q, 10);
    SameOrNull(p.ip, q.ip);
    SameAt(p, q, 11);
    SameOrNull(p.userAgent, q.userAgent);
    SameAt(p, q, 12);
    SameOrNull(p.endpoint, q.endpoint);
    SameAt(p, q, 13);
    SameOrNull(p.httpMethod, q.httpMethod);
    SameAt(p, q, 16);
    SameOrNull(p.errorCode, q.errorCode);
  }

  lemma StateFields(p: Payload, q: Payload)
    requires SameFields(p, q)
    ensures Same(p.oldState, q.oldState) && Same(p.newState, q.newState) && Same(p.metadata, q.metadata)
  {
    hide SameFields, Same;
    SameAt(p, q, 7);
    SameAt(p, q, 8);
    SameAt(p, q, 9);
  }

  lemma FieldsSame(p: Payload, q: Payload)
    requires SamePayload(p, q)
    ensures SameFields(p, q)
  {
    forall i | 0 <= i < 17
      ensures Same(FieldValues(p)[i], FieldValues(q)[i])
    {
      if i == 7 || i == 8 || i == 9 {
      } else {
        assert FieldValues(p)[i] == FieldValues(q)[i];
        SameReflexive(FieldValues(p)[i]);
      }
    }
  }

  lemma SameReflexive(v: Json)
    requires !v.Arr? && !v.Obj?
    ensures Same(v, v)
  {
  }

  /** The payload text fixes every hashed field. */
  lemma PayloadTextIsInjective(p: Payload, q: Payload)
    requires WellFormedPayload(p) && WellFormedPayload(q)
    ensures PayloadText(p) == PayloadText(q) <==> SamePayload(p, q)
  {
    RecordWellFormed(p);
    RecordWellFormed(q);
    CanonicalTextIsInjective(Record(FIELD_NAMES, FieldValues(p)), Record(FIELD_NAMES, FieldValues(q)));
    FieldNamesDistinct();
    RecordsSame(FIELD_NAMES, FieldValues(p), FieldValues(q));
    SamePayloadFields(p, q);
  }

  lemma StoredPayloadText(p: Payload)
    requires WellFormedPayload(p)
    ensures WellFormedPayload(StoredPayload(p))
    ensures PayloadText(StoredPayload(p)) == PayloadText(p) <==> StoresFaithfully(p)
  {
    StoredWellFormed(p.oldState);
    StoredWellFormed(p.newState);
    StoredWellFormed(p.metadata);
    PayloadTextIsInjective(StoredPayload(p), p);
    StoredIsSame(p.oldState);
    StoredIsSame(p.newState);
    StoredIsSame(p.metadata);
  }

  // ---- One tenant's chain -------------------------------------------------------------

  function LastHash(events: seq<Event>): string {
    if events == [] then GENESIS_HASH else events[|events| - 1].eventHash
  }

  /** The text hashed for a job that extends a chain ending in `prev`. */
  function JobText(c: Crypto, job: Job, prev: string): string {
    HashedText(prev, PayloadText(job.payload), c.iso(job.timestamp))
  }

  function EventOf(c: Crypto, job: Job, prev: string): Event {
    var eventHash := c.hash(JobText(c, job, prev));
    Event(job.id, job.timestamp, StoredPayload(job.payload), prev, eventHash,
          c.hmac(job.payload.tenantId, eventHash))
  }

  /** The chain that a tenant's own jobs build when nothing else happens. */
  function Chain(c: Crypto, jobs: seq<Job>): (events: seq<Event>)
    ensures |events| == |jobs|
  {
    if jobs == [] then []
    else
      var before := Chain(c, jobs[..|jobs| - 1]);
      before + [EventOf(c, jobs[|jobs| - 1], LastHash(before))]
  }

  lemma {:induction false} ChainPrefix(c: Crypto, jobs: seq<Job>, k: nat)
    requires k <= |jobs|
    ensures Chain(c, jobs[..k]) == Chain(c, jobs)[..k]
  {
    if k < |jobs| {
      ChainPrefix(c, jobs[..|jobs| - 1], k);
      assert jobs[..|jobs| - 1][..k] == jobs[..k];
    } else {
      assert jobs[..k] == jobs;
    }
  }

  function PrevAt(c: Crypto, jobs: seq<Job>, k: nat): string
    requires k < |jobs|
  {
    LastHash(Chain(c, jobs)[..k])
  }

  function TextAt(c: Crypto, jobs: seq<Job>, k: nat): string
    requires k < |jobs|
  {
    JobText(c, jobs[k], PrevAt(c, jobs, k))
  }

  lemma ChainAt(c: Crypto, jobs: seq<Job>, k: nat)
    requires k < |jobs|
    ensures Chain(c, jobs)[k] == EventOf(c, jobs[k], PrevAt(c, jobs, k))
  {
    ChainPrefix(c, jobs, k);
    ChainPrefix(c, jobs, k + 1);
    assert jobs[..k + 1][..k] == jobs[..k];
    assert Chain(c, jobs)[k] == Chain(c, jobs[..k + 1])[k];
  }

  ghost function ChainTexts(c: Crypto, jobs: seq<Job>): set<string> {
    set k | 0 <= k < |jobs| :: TextAt(c, jobs, k)
  }

  /** The hash has no collision among `texts`, and none of them hashes to GENESIS or to nothing. */
  ghost predicate CollisionFree(c: Crypto, texts: set<string>) {
    && (forall x, y :: x in texts && y in texts && c.hash(x) == c.hash(y) ==> x == y)
    && (forall x :: x in texts ==> c.hash(x) != GENESIS_HASH && c.hash(x) != "")
  }

  /** Digests are hexadecimal and timestamps are ISO texts: neither contains a bar. */
  ghost predicate TextFormat(c: Crypto) {
    && (forall x :: NoBar(c.hash(x)))
    && (forall t :: NoBar(c.iso(t)))
    && (forall t, u :: c.iso(t) == c.iso(u) ==> t == u)
  }

  lemma NoCollision(c: Crypto, texts: set<string>, x: string, y: string)
    requires CollisionFree(c, texts) && x in texts && y in texts && c.hash(x) == c.hash(y)
    ensures x == y
  {
  }

  lemma NotGenesis(c: Crypto, texts: set<string>, x: string)
    requires CollisionFree(c, texts) && x in texts
    ensures c.hash(x) != GENESIS_HASH && c.hash(x) != ""
  {
  }

  /** The hashed text of a row determines its predecessor, its payload text and its timestamp. */
  lemma TextParts(c: Crypto, prev: string, payload: string, t: int, prev': string, payload': string, t': int)
    requires TextFormat(c) && NoBar(prev) && NoBar(prev')
    requires HashedText(prev, payload, c.iso(t)) == HashedText(prev', payload', c.iso(t'))
    ensures prev == prev' && payload == payload' && t == t'
  {
    HashedTextIsInjective(prev, payload, c.iso(t), prev', payload', c.iso(t'));
  }

  lemma TextOf(c: Crypto, jobs: seq<Job>, k: nat)
    requires k < |jobs|
    ensures TextAt(c, jobs, k) in ChainTexts(c, jobs)
    ensures Chain(c, jobs)[k].eventHash == c.hash(TextAt(c, jobs, k))
    ensures Chain(c, jobs)[k].prevHash == PrevAt(c, jobs, k)
  {
    ChainAt(c, jobs, k);
  }

  lemma PrevFacts(c: Crypto, jobs: seq<Job>, k: nat)
    requires TextFormat(c) && k < |jobs|
    ensures NoBar(PrevAt(c, jobs, k))
    ensures k == 0 ==> PrevAt(c, jobs, k) == GENESIS_HASH
    ensures k > 0 ==> PrevAt(c, jobs, k) == Chain(c, jobs)[k - 1].eventHash == c.hash(TextAt(c, jobs, k - 1))
  {
    if k > 0 {
      ChainAt(c, jobs, k - 1);
    }
  }

  /** No two events of a chain have the same hash. */
  lemma {:induction false} HashesDistinct(c: Crypto, jobs: seq<Job>, i: nat, j: nat)
    requires TextFormat(c) && CollisionFree(c, ChainTexts(c, jobs))
    requires i < j < |jobs|
    ensures Chain(c, jobs)[i].eventHash != Chain(c, jobs)[j].eventHash
    decreases i
  {
    hide PayloadText, HashedText, CollisionFree, TextFormat, NoBar, Chain, PrevAt, ChainTexts, StoredPayload;
    TextOf(c, jobs, i);
    TextOf(c, jobs, j);
    TextOf(c, jobs, j - 1);
    PrevFacts(c, jobs, i);
    PrevFacts(c, jobs, j);
    NotGenesis(c, ChainTexts(c, jobs), TextAt(c, jobs, j - 1));
    if Chain(c, jobs)[i].eventHash == Chain(c, jobs)[j].eventHash {
      NoCollision(c, ChainTexts(c, jobs), TextAt(c, jobs, i), TextAt(c, jobs, j));
      TextParts(c, PrevAt(c, jobs, i), PayloadText(jobs[i].payload), jobs[i].timestamp,
                PrevAt(c, jobs, j), PayloadText(jobs[j].payload), jobs[j].timestamp);
      if i > 0 {
        HashesDistinct(c, jobs, i - 1, j - 1);
      }
    }
  }

  /** No two events of a chain hang off the same predecessor. */
  lemma PrevsDistinct(c: Crypto, jobs: seq<Job>, i: nat, j: nat)
    requires TextFormat(c) && CollisionFree(c, ChainTexts(c, jobs))
    requires i < |jobs| && j < |jobs| && i != j
    ensures PrevAt(c, jobs, i) != PrevAt(c, jobs, j)
  {
    hide PayloadText, HashedText, CollisionFree, TextFormat, NoBar, Chain, PrevAt, ChainTexts, StoredPayload;
    if i > j {
      PrevsDistinct(c, jobs, j, i);
    } else {
      PrevFacts(c, jobs, i);
      PrevFacts(c, jobs, j);
      TextOf(c, jobs, j - 1);
      NotGenesis(c, ChainTexts(c, jobs), TextAt(c, jobs, j - 1));
      if i > 0 {
        HashesDistinct(c, jobs, i - 1, j - 1);
      }
    }
  }

  // ---- All tenants: persistEvent ------------------------------------------------------

  datatype Store = Store(events: seq<Event>, heads: map<string, Head>)

  predicate HasEvent(events: seq<Event>, tenantId: string, eventHash: string) {
    exists k :: 0 <= k < |events| && events[k].payload.tenantId == tenantId && events[k].eventHash == eventHash
  }

  function HeadOf(heads: map<string, Head>, tenantId: string): Head {
    if tenantId in heads then heads[tenantId] else Head(GENESIS_HASH, 0)
  }

  /** One committed `persistEvent`: the head row is locked, so it happens in one step. */
  function Persist(c: Crypto, s: Store, job: Job): Store {
    var tenantId := job.payload.tenantId;
    var head := HeadOf(s.heads, tenantId);
    var event := EventOf(c, job, if head.lastHash == "" then GENESIS_HASH else head.lastHash);
    Store(if HasEvent(s.events, tenantId, event.eventHash) then s.events else s.events + [event],
          s.heads[tenantId := Head(event.eventHash, head.sequence + 1)])
  }

  /** Any interleaving of the jobs of all tenants, from an empty database. */
  function RunJobs(c: Crypto, jobs: seq<Job>): Store {
    if jobs == [] then Store([], map[])
    else Persist(c, RunJobs(c, jobs[..|jobs| - 1]), jobs[|jobs| - 1])
  }

  function EventsOf(events: seq<Event>, tenantId: string): seq<Event> {
    if events == [] then []
    else
      var last := events[|events| - 1];
      EventsOf(events[..|events| - 1], tenantId) + (if last.payload.tenantId == tenantId then [last] else [])
  }

  function JobsOf(jobs: seq<Job>, tenantId: string): seq<Job> {
    if jobs == [] then []
    else
      var last := jobs[|jobs| - 1];
      JobsOf(jobs[..|jobs| - 1], tenantId) + (if last.payload.tenantId == tenantId then [last] else [])
  }

  lemma {:induction false} EventsOfMember(events: seq<Event>, tenantId: string, eventHash: string)
    ensures HasEvent(events, tenantId, eventHash)
       <==> exists k :: 0 <= k < |EventsOf(events, tenantId)| && EventsOf(events, tenantId)[k].eventHash == eventHash
  {
    if events != [] {
      var before, last := events[..|events| - 1], events[|events| - 1];
      EventsOfMember(before, tenantId, eventHash);
      var mine := EventsOf(before, tenantId);
      if HasEvent(events, tenantId, eventHash) {
        if !HasEvent(before, tenantId, eventHash) {
          assert EventsOf(events, tenantId)[|mine|] == last;
        } else {
          var k :| 0 <= k < |mine| && mine[k].eventHash == eventHash;
          assert EventsOf(events, tenantId)[k] == mine[k];
        }
      } else {
        forall k | 0 <= k < |EventsOf(events, tenantId)|
          ensures EventsOf(events, tenantId)[k].eventHash != eventHash
        {
          if k < |mine| {
            assert EventsOf(events, tenantId)[k] == mine[k];
            assert !HasEvent(before, tenantId, eventHash);
          }
        }
      }
    }
  }

  /** The head of a tenant that has `n` events, the last of them hashing to `lastHash`. */
  ghost predicate HeadMatches(heads: map<string, Head>, tenantId: string, chain: seq<Event>) {
    HeadOf(heads, tenantId) == Head(LastHash(chain), |chain|)
  }

  /**
   Interleaving is invisible: whatever the order in which tenants' events are persisted, each
   tenant's rows are exactly the chain its own jobs build, and its head holds the last hash and
   the number of rows, so ON CONFLICT never drops a row.
   */
  lemma {:induction false} InterleavedChains(c: Crypto, jobs: seq<Job>, tenantId: string)
    requires TextFormat(c) && CollisionFree(c, ChainTexts(c, JobsOf(jobs, tenantId)))
    ensures EventsOf(RunJobs(c, jobs).events, tenantId) == Chain(c, JobsOf(jobs, tenantId))
    ensures HeadMatches(RunJobs(c, jobs).heads, tenantId, Chain(c, JobsOf(jobs, tenantId)))
  {
    if jobs != [] {
      var before, job := jobs[..|jobs| - 1], jobs[|jobs| - 1];
      var mine, mineBefore := JobsOf(jobs, tenantId), JobsOf(before, tenantId);
      TextsOfPrefix(c, mine, |mineBefore|);
      assert mineBefore == mine[..|mineBefore|];
      InterleavedChains(c, before, tenantId);
      if job.payload.tenantId == tenantId {
        assert mine == mineBefore + [job];
        OwnStep(c, RunJobs(c, before), mineBefore, job);
      } else {
        assert mine == mineBefore;
        OtherStep(c, RunJobs(c, before), tenantId, job);
      }
    }
  }

  /** A step of the tenant itself adds the next event of its chain. */
  lemma OwnStep(c: Crypto, s: Store, before: seq<Job>, job: Job)
    requires TextFormat(c) && CollisionFree(c, ChainTexts(c, before + [job]))
    requires EventsOf(s.events, job.payload.tenantId) == Chain(c, before)
    requires HeadMatches(s.heads, job.payload.tenantId, Chain(c, before))
    ensures EventsOf(Persist(c, s, job).events, job.payload.tenantId) == Chain(c, before + [job])
    ensures HeadMatches(Persist(c, s, job).heads, job.payload.tenantId, Chain(c, before + [job]))
  {
    hide TextFormat, CollisionFree, JobText, StoredPayload, HasEvent, ChainTexts;
    var jobs, t := before + [job], job.payload.tenantId;
    assert jobs[..|before|] == before;
    ChainPrefix(c, jobs, |before|);
    PrevNotEmpty(c, jobs, |before|);
    AppendedHashIsNew(c, before, job);
    var event := EventOf(c, job, LastHash(Chain(c, before)));
    EventsOfMember(s.events, t, event.eventHash);
    assert Persist(c, s, job).events == s.events + [event];
    assert (s.events + [event])[..|s.events|] == s.events;
    assert event.payload.tenantId == t by { StoredTenant(job.payload); }
    assert Chain(c, jobs) == Chain(c, before) + [event];
  }

  lemma StoredTenant(p: Payload)
    ensures StoredPayload(p).tenantId == p.tenantId
  {
  }

  /** A step of another tenant leaves the tenant's rows and head alone. */
  lemma OtherStep(c: Crypto, s: Store, tenantId: string, job: Job)
    requires job.payload.tenantId != tenantId
    ensures EventsOf(Persist(c, s, job).events, tenantId) == EventsOf(s.events, tenantId)
    ensures HeadOf(Persist(c, s, job).heads, tenantId) == HeadOf(s.heads, tenantId)
  {
    hide JobText, StoredPayload, HasEvent;
    StoredTenant(job.payload);
    var s' := Persist(c, s, job);
    if s'.events != s.events {
      assert s'.events[..|s.events|] == s.events;
    }
  }

  lemma TextsOfPrefix(c: Crypto, jobs: seq<Job>, k: nat)
    requires k <= |jobs|
    ensures ChainTexts(c, jobs[..k]) <= ChainTexts(c, jobs)
  {
    hide EventOf, Chain, JobText;
    ChainPrefix(c, jobs, k);
    forall i | 0 <= i < k
      ensures TextAt(c, jobs[..k], i) in ChainTexts(c, jobs)
    {
      assert Chain(c, jobs[..k])[..i] == Chain(c, jobs)[..i];
      assert TextAt(c, jobs[..k], i) == TextAt(c, jobs, i);
    }
  }

  lemma AppendedHashIsNew(c: Crypto, before: seq<Job>, job: Job)
    requires TextFormat(c) && CollisionFree(c, ChainTexts(c, before + [job]))
    ensures forall k :: 0 <= k < |before| ==>
      Chain(c, before)[k].eventHash != EventOf(c, job, LastHash(Chain(c, before))).eventHash
  {
    var jobs := before + [job];
    assert jobs[..|before|] == before;
    ChainPrefix(c, jobs, |before|);
    ChainAt(c, jobs, |before|);
    forall k | 0 <= k < |before|
      ensures Chain(c, before)[k].eventHash != EventOf(c, job, LastHash(Chain(c, before))).eventHash
    {
      HashesDistinct(c, jobs, k, |before|);
    }
  }

  lemma PrevNotEmpty(c: Crypto, jobs: seq<Job>, k: nat)
    requires TextFormat(c) && CollisionFree(c, ChainTexts(c, jobs)) && k < |jobs|
    ensures PrevAt(c, jobs, k) != ""
  {
    PrevFacts(c, jobs, k);
    if k > 0 {
      TextOf(c, jobs, k - 1);
      NotGenesis(c, ChainTexts(c, jobs), TextAt(c, jobs, k - 1));
    }
  }

  // ---- Verification -------------------------------------------------------------------

  function RowText(c: Crypto, row: Event): string {
    HashedText(row.prevHash, PayloadText(row.payload), c.iso(row.timestamp))
  }

  predicate RowOk(c: Crypto, previous: string, row: Event) {
    && row.prevHash == previous
    && c.hash(RowText(c, row)) == row.eventHash
    && row.signature == c.hmac(row.payload.tenantId, row.eventHash)
  }

  /** Every row hangs off the row before it and carries its own hash and signature. */
  ghost predicate Accepts(c: Crypto, rows: seq<Event>) {
    forall k :: 0 <= k < |rows| ==> RowOk(c, LastHash(rows[..k]), rows[k])
  }

  predicate Earlier(e: Event, f: Event) {
    e.timestamp < f.timestamp || (e.timestamp == f.timestamp && e.id < f.id)
  }

  /** ORDER BY timestamp ASC, id ASC. */
  ghost predicate InOrder(rows: seq<Event>) {
    forall i, j :: 0 <= i < j < |rows| ==> Earlier(rows[i], rows[j])
  }

  /** The same rows in order have the same row at every position: it is the least that is left. */
  lemma {:induction false} LeastRowNext(xs: seq<Event>, ys: seq<Event>, k: nat)
    requires InOrder(xs) && InOrder(ys) && multiset(xs) == multiset(ys) && |xs| == |ys| && k < |xs|
    ensures xs[k] == ys[k]
  {
    assert xs[k] in multiset(ys) && ys[k] in multiset(xs);
    var i :| 0 <= i < |ys| && ys[i] == xs[k];
    var j :| 0 <= j < |xs| && xs[j] == ys[k];
    if i < k {
      LeastRowNext(xs, ys, i);
    } else if j < k {
      LeastRowNext(xs, ys, j);
    }
  }

  /** A query gives the same rows in one order only. */
  lemma OrderDetermines(xs: seq<Event>, ys: seq<Event>)
    requires InOrder(xs) && InOrder(ys) && multiset(xs) == multiset(ys)
    ensures xs == ys
  {
    assert |multiset(xs)| == |xs| && |multiset(ys)| == |ys|;
    forall k | 0 <= k < |xs|
      ensures xs[k] == ys[k]
    {
      LeastRowNext(xs, ys, k);
    }
  }

  /** Accepted rows that are some arrangement of a chain are the chain itself. */
  lemma {:induction false} AcceptedIsChain(c: Crypto, jobs: seq<Job>, rows: seq<Event>, k: nat)
    requires TextFormat(c) && CollisionFree(c, ChainTexts(c, jobs))
    requires multiset(rows) == multiset(Chain(c, jobs)) && Accepts(c, rows)
    requires k <= |rows|
    ensures |rows| == |jobs| && rows[..k] == Chain(c, jobs)[..k]
  {
    hide TextFormat, CollisionFree, StoredPayload, PayloadText, ChainTexts, HashedText, PrevAt, Chain, Accepts, JobText;
    var chain := Chain(c, jobs);
    assert |multiset(rows)| == |rows| && |multiset(chain)| == |chain|;
    if k > 0 {
      AcceptedIsChain(c, jobs, rows, k - 1);
      assert rows[k - 1] in multiset(rows);
      var m :| 0 <= m < |chain| && chain[m] == rows[k - 1];
      TextOf(c, jobs, m);
      AcceptedPrev(c, rows, k - 1);
      PrevIsLast(c, jobs, k - 1);
      if m != k - 1 {
        PrevsDistinct(c, jobs, m, k - 1);
      }
      assert rows[..k] == rows[..k - 1] + [rows[k - 1]];
      assert chain[..k] == chain[..k - 1] + [chain[k - 1]];
    }
  }

  lemma AcceptedPrev(c: Crypto, rows: seq<Event>, k: nat)
    requires Accepts(c, rows) && k < |rows|
    ensures rows[k].prevHash == LastHash(rows[..k])
  {
    assert RowOk(c, LastHash(rows[..k]), rows[k]);
  }

  lemma PrevIsLast(c: Crypto, jobs: seq<Job>, k: nat)
    requires k < |jobs|
    ensures PrevAt(c, jobs, k) == LastHash(Chain(c, jobs)[..k])
  {
  }

  ghost function RowTexts(c: Crypto, rows: seq<Event>): set<string> {
    set k | 0 <= k < |rows| :: RowText(c, rows[k])
  }

  /** A chain's own rows, in chain order, pass exactly when every payload survives storage. */
  lemma ChainAcceptedIff(c: Crypto, jobs: seq<Job>)
    requires TextFormat(c) && CollisionFree(c, ChainTexts(c, jobs) + RowTexts(c, Chain(c, jobs)))
    requires forall k :: 0 <= k < |jobs| ==> WellFormedPayload(jobs[k].payload)
    ensures Accepts(c, Chain(c, jobs)) <==> forall k :: 0 <= k < |jobs| ==> StoresFaithfully(jobs[k].payload)
  {
    hide *;
    forall k | 0 <= k < |jobs|
      ensures RowOk(c, LastHash(Chain(c, jobs)[..k]), Chain(c, jobs)[k]) <==> StoresFaithfully(jobs[k].payload)
    {
      ChainRowOkIff(c, jobs, k);
    }
    AcceptsDefinition(c, Chain(c, jobs));
  }

  lemma AcceptsDefinition(c: Crypto, rows: seq<Event>)
    ensures Accepts(c, rows) <==> forall k :: 0 <= k < |rows| ==> RowOk(c, LastHash(rows[..k]), rows[k])
  {
  }

  lemma ChainRowOkIff(c: Crypto, jobs: seq<Job>, k: nat)
    requires TextFormat(c) && CollisionFree(c, ChainTexts(c, jobs) + RowTexts(c, Chain(c, jobs)))
    requires k < |jobs| && WellFormedPayload(jobs[k].payload)
    ensures RowOk(c, LastHash(Chain(c, jobs)[..k]), Chain(c, jobs)[k]) <==> StoresFaithfully(jobs[k].payload)
  {
    hide TextFormat, CollisionFree, PayloadText, ChainTexts, HashedText, Chain, NoBar,
         StoresFaithfully, WellFormedPayload;
    var row, payload := Chain(c, jobs)[k], jobs[k].payload;
    ChainAt(c, jobs, k);
    TextOf(c, jobs, k);
    PrevFacts(c, jobs, k);
    StoredPayloadText(payload);
    assert RowText(c, row) in RowTexts(c, Chain(c, jobs));
    assert RowText(c, row)
        == HashedText(PrevAt(c, jobs, k), PayloadText(StoredPayload(payload)), c.iso(jobs[k].timestamp));
    if c.hash(RowText(c, row)) == row.eventHash {
      NoCollision(c, ChainTexts(c, jobs) + RowTexts(c, Chain(c, jobs)), RowText(c, row), TextAt(c, jobs, k));
      TextParts(c, PrevAt(c, jobs, k), PayloadText(payload), jobs[k].timestamp,
                PrevAt(c, jobs, k), PayloadText(StoredPayload(payload)), jobs[k].timestamp);
    }
  }

  lemma Narrow(c: Crypto, texts: set<string>, more: set<string>)
    requires CollisionFree(c, texts + more)
    ensures CollisionFree(c, texts) && CollisionFree(c, more)
  {
    assert forall x :: x in texts || x in more ==> x in texts + more;
  }

  /**
   Exactly when `verifyTenantChain` accepts untouched rows: when ordering them by timestamp and id
   gives back the order in which they were chained, and no payload had an undefined member.
   */
  lemma UntouchedAcceptedIff(c: Crypto, jobs: seq<Job>, rows: seq<Event>)
    requires TextFormat(c) && CollisionFree(c, ChainTexts(c, jobs) + RowTexts(c, Chain(c, jobs)))
    requires forall k :: 0 <= k < |jobs| ==> WellFormedPayload(jobs[k].payload)
    requires multiset(rows) == multiset(Chain(c, jobs)) && InOrder(rows)
    ensures Accepts(c, rows)
       <==> InOrder(Chain(c, jobs)) && forall k :: 0 <= k < |jobs| ==> StoresFaithfully(jobs[k].payload)
  {
    hide TextFormat, CollisionFree, Accepts, StoresFaithfully, Chain, ChainTexts, RowTexts, WellFormedPayload, InOrder;
    var chain := Chain(c, jobs);
    ChainAcceptedIff(c, jobs);
    Narrow(c, ChainTexts(c, jobs), RowTexts(c, chain));
    if Accepts(c, rows) {
      AcceptedIsChain(c, jobs, rows, |rows|);
      assert rows == rows[..|rows|] && chain == chain[..|rows|];
    }
    if InOrder(chain) {
      OrderDetermines(rows, chain);
    }
  }

  /** Strictly increasing timestamps are enough for the order of the rows. */
  lemma IncreasingTimestampsAccepted(c: Crypto, jobs: seq<Job>, rows: seq<Event>)
    requires TextFormat(c) && CollisionFree(c, ChainTexts(c, jobs) + RowTexts(c, Chain(c, jobs)))
    requires forall k :: 0 <= k < |jobs| ==> WellFormedPayload(jobs[k].payload) && StoresFaithfully(jobs[k].payload)
    requires forall i, j :: 0 <= i < j < |jobs| ==> jobs[i].timestamp < jobs[j].timestamp
    requires multiset(rows) == multiset(Chain(c, jobs)) && InOrder(rows)
    ensures Accepts(c, rows) && LastHash(rows) == LastHash(Chain(c, jobs))
  {
    var chain := Chain(c, jobs);
    forall i, j | 0 <= i < j < |chain|
      ensures Earlier(chain[i], chain[j])
    {
      ChainAt(c, jobs, i);
      ChainAt(c, jobs, j);
    }
    UntouchedAcceptedIff(c, jobs, rows);
    OrderDetermines(rows, chain);
  }

  /** Rows that agree in everything the hash covers. Only the row id is not covered. */
  ghost predicate SameRow(e: Event, f: Event) {
    && e.timestamp == f.timestamp && SamePayload(e.payload, f.payload)
    && e.prevHash == f.prevHash && e.eventHash == f.eventHash && e.signature == f.signature
  }

  lemma AcceptedPrefix(c: Crypto, rows: seq<Event>, k: nat)
    requires Accepts(c, rows) && k <= |rows|
    ensures Accepts(c, rows[..k])
  {
    forall i | 0 <= i < k
      ensures RowOk(c, LastHash(rows[..k][..i]), rows[..k][i])
    {
      assert rows[..k][..i] == rows[..i];
    }
  }

  lemma AcceptedLast(c: Crypto, rows: seq<Event>)
    requires TextFormat(c) && Accepts(c, rows) && rows != []
    ensures var last := rows[|rows| - 1];
      && LastHash(rows) == last.eventHash == c.hash(RowText(c, last))
      && last.prevHash == LastHash(rows[..|rows| - 1])
      && last.signature == c.hmac(last.payload.tenantId, last.eventHash)
      && NoBar(last.prevHash)
      && RowText(c, last) in RowTexts(c, rows)
  {
    var n := |rows| - 1;
    assert RowOk(c, LastHash(rows[..n]), rows[n]);
    if n > 0 {
      assert RowOk(c, LastHash(rows[..n - 1]), rows[n - 1]);
      assert rows[..n][n - 1] == rows[n - 1];
    }
  }

  /**
   Tamper evidence: two accepted lists of rows that end in the same hash are the same list, in
   length and in every hashed field of every row.
   */
  lemma {:induction false} SameLastHashSameRows(c: Crypto, xs: seq<Event>, ys: seq<Event>)
    requires TextFormat(c) && CollisionFree(c, RowTexts(c, xs) + RowTexts(c, ys))
    requires WellFormedRows(xs) && WellFormedRows(ys)
    requires Accepts(c, xs) && Accepts(c, ys) && LastHash(xs) == LastHash(ys)
    ensures |xs| == |ys| && forall k :: 0 <= k < |xs| ==> SameRow(xs[k], ys[k])
  {
    hide TextFormat, CollisionFree, PayloadText, HashedText, NoBar, RowTexts, WellFormedPayload,
         WellFormedRows, SamePayload, Accepts;
    var texts := RowTexts(c, xs) + RowTexts(c, ys);
    if xs != [] {
      AcceptedLast(c, xs);
      NotGenesis(c, texts, RowText(c, xs[|xs| - 1]));
    }
    if ys != [] {
      AcceptedLast(c, ys);
      NotGenesis(c, texts, RowText(c, ys[|ys| - 1]));
    }
    if xs != [] && ys != [] {
      var m, n := |xs| - 1, |ys| - 1;
      NoCollision(c, texts, RowText(c, xs[m]), RowText(c, ys[n]));
      TextParts(c, xs[m].prevHash, PayloadText(xs[m].payload), xs[m].timestamp,
                ys[n].prevHash, PayloadText(ys[n].payload), ys[n].timestamp);
      FewerRows(xs, m);
      FewerRows(ys, n);
      PayloadTextIsInjective(xs[m].payload, ys[n].payload);
      SameTenant(xs[m].payload, ys[n].payload);
      AcceptedPrefix(c, xs, m);
      AcceptedPrefix(c, ys, n);
      FewerTexts(c, xs, ys, m, n);
      SameLastHashSameRows(c, xs[..m], ys[..n]);
      forall k | 0 <= k < m
        ensures SameRow(xs[k], ys[k])
      {
        assert xs[k] == xs[..m][k] && ys[k] == ys[..n][k];
      }
    }
  }

  ghost predicate WellFormedRows(rows: seq<Event>) {
    forall k :: 0 <= k < |rows| ==> WellFormedPayload(rows[k].payload)
  }

  lemma FewerRows(rows: seq<Event>, n: nat)
    requires WellFormedRows(rows) && n <= |rows|
    ensures WellFormedRows(rows[..n])
    ensures n < |rows| ==> WellFormedPayload(rows[n].payload)
  {
  }

  lemma SameTenant(p: Payload, q: Payload)
    ensures SamePayload(p, q) ==> p.tenantId == q.tenantId
  {
  }

  lemma FewerTexts(c: Crypto, xs: seq<Event>, ys: seq<Event>, m: nat, n: nat)
    requires CollisionFree(c, RowTexts(c, xs) + RowTexts(c, ys)) && m <= |xs| && n <= |ys|
    ensures CollisionFree(c, RowTexts(c, xs[..m]) + RowTexts(c, ys[..n]))
  {
    TextsOfRows(c, xs, m);
    TextsOfRows(c, ys, n);
  }

  lemma TextsOfRows(c: Crypto, rows: seq<Event>, k: nat)
    requires k <= |rows|
    ensures RowTexts(c, rows[..k]) <= RowTexts(c, rows)
  {
    forall i | 0 <= i < k
      ensures RowText(c, rows[..k][i]) in RowTexts(c, rows)
    {
      assert rows[..k][i] == rows[i];
    }
  }

  // ---- Deleted rows -------------------------------------------------------------------

  /** What an accepted row says of the row before it. */
  lemma AcceptedAt(c: Crypto, rows: seq<Event>, k: nat)
    requires TextFormat(c) && Accepts(c, rows) && k < |rows|
    ensures rows[k].eventHash == c.hash(RowText(c, rows[k])) && RowText(c, rows[k]) in RowTexts(c, rows)
    ensures rows[k].prevHash == (if k == 0 then GENESIS_HASH else rows[k - 1].eventHash)
    ensures NoBar(rows[k].prevHash)
  {
    hide PayloadText, HashedText, CollisionFree;
    assert RowOk(c, LastHash(rows[..k]), rows[k]);
    if k > 0 {
      assert RowOk(c, LastHash(rows[..k - 1]), rows[k - 1]);
      assert rows[..k][k - 1] == rows[k - 1];
    }
  }

  /** No two rows of an accepted list hang off the same predecessor. */
  lemma {:induction false} AcceptedPrevsDistinct(c: Crypto, rows: seq<Event>, i: nat, j: nat)
    requires TextFormat(c) && CollisionFree(c, RowTexts(c, rows)) && Accepts(c, rows) && i < j < |rows|
    ensures rows[i].prevHash != rows[j].prevHash
    decreases i
  {
    hide TextFormat, CollisionFree, Accepts, RowTexts, PayloadText, HashedText, NoBar;
    AcceptedAt(c, rows, i);
    AcceptedAt(c, rows, j);
    AcceptedAt(c, rows, j - 1);
    NotGenesis(c, RowTexts(c, rows), RowText(c, rows[j - 1]));
    if rows[i].prevHash == rows[j].prevHash && i > 0 {
      AcceptedAt(c, rows, i - 1);
      var e, f := rows[i - 1], rows[j - 1];
      NoCollision(c, RowTexts(c, rows), RowText(c, e), RowText(c, f));
      TextParts(c, e.prevHash, PayloadText(e.payload), e.timestamp, f.prevHash, PayloadText(f.payload), f.timestamp);
      AcceptedPrevsDistinct(c, rows, i - 1, j - 1);
    }
  }

  /** Positions of the rows that are left, in order. */
  ghost predicate IsSelection(kept: seq<nat>, n: nat) {
    && (forall i :: 0 <= i < |kept| ==> kept[i] < n)
    && (forall i, j :: 0 <= i < j < |kept| ==> kept[i] < kept[j])
  }

  function Kept(rows: seq<Event>, kept: seq<nat>): seq<Event>
    requires forall i :: 0 <= i < |kept| ==> kept[i] < |rows|
  {
    seq(|kept|, i requires 0 <= i < |kept| => rows[kept[i]])
  }

  lemma {:induction false} KeptIsPrefix(c: Crypto, rows: seq<Event>, kept: seq<nat>, k: nat)
    requires TextFormat(c) && CollisionFree(c, RowTexts(c, rows)) && Accepts(c, rows)
    requires IsSelection(kept, |rows|) && Accepts(c, Kept(rows, kept)) && k < |kept|
    ensures kept[k] == k
  {
    hide TextFormat, CollisionFree, Accepts, RowTexts, PayloadText, HashedText, NoBar;
    AcceptedAt(c, Kept(rows, kept), k);
    if k > 0 {
      KeptIsPrefix(c, rows, kept, k - 1);
    }
    AcceptedAt(c, rows, k);
    if k < kept[k] {
      AcceptedPrevsDistinct(c, rows, k, kept[k]);
    }
  }

  /**
   Exactly which deletions go unnoticed: of an accepted list, the rows that are left are accepted if
   and only if they are the first ones, so that only rows at the end are missing. `verifyTenantChain`
   does not compare its last hash with the chain head.
   */
  lemma DeletionUnnoticedIff(c: Crypto, rows: seq<Event>, kept: seq<nat>)
    requires TextFormat(c) && CollisionFree(c, RowTexts(c, rows)) && Accepts(c, rows) && IsSelection(kept, |rows|)
    ensures Accepts(c, Kept(rows, kept)) <==> Kept(rows, kept) <= rows
    ensures Accepts(c, Kept(rows, kept)) <==> forall k :: 0 <= k < |kept| ==> kept[k] == k
  {
    hide TextFormat, CollisionFree, Accepts, RowTexts;
    SelectionIsShort(kept, |rows|);
    if Accepts(c, Kept(rows, kept)) {
      forall k | 0 <= k < |kept|
        ensures kept[k] == k
      {
        KeptIsPrefix(c, rows, kept, k);
      }
    }
    if Kept(rows, kept) <= rows {
      assert Kept(rows, kept) == rows[..|kept|];
      AcceptedPrefix(c, rows, |kept|);
    }
    if forall k :: 0 <= k < |kept| ==> kept[k] == k {
      assert Kept(rows, kept) == rows[..|kept|];
    }
  }

  lemma {:induction false} SelectionIsShort(kept: seq<nat>, n: nat)
    requires IsSelection(kept, n)
    ensures |kept| <= n
  {
    if kept != [] {
      SelectionIsShort(kept[..|kept| - 1], kept[|kept| - 1]);
    }
  }

  // ---- The service --------------------------------------------------------------------

  class AuditChainService {
    const crypto: Crypto
    var events: seq<Event>
    var heads: map<string, Head>

    constructor (crypto: Crypto)
      ensures this.crypto == crypto && Database() == RunJobs(crypto, [])
    {
      this.crypto := crypto;
      events, heads := [], map[];
    }

    function Database(): Store
      reads this
    {
      Store(events, heads)
    }

    method LockChainHead(tenantId: string) returns (head: Head)
      modifies this`heads
      ensures head == HeadOf(old(heads), tenantId)
      ensures heads == old(heads)[tenantId := head]
    {
      if tenantId !in heads {
        heads := heads[tenantId := Head(GENESIS_HASH, 0)];
      }
      head := heads[tenantId];
    }

    method PersistEvent(payload: Payload, timestamp: int, id: int) returns (eventHash: string)
      modifies this
      ensures Database() == Persist(crypto, old(Database()), Job(id, timestamp, payload))
      ensures heads[payload.tenantId].lastHash == eventHash
    {
      hide HasEvent, PayloadText, HashedText, StoredPayload;
      var head := LockChainHead(payload.tenantId);
      var prevHash := if head.lastHash == "" then GENESIS_HASH else head.lastHash;
      var serializedPayload := PayloadText(payload);
      eventHash := crypto.hash(HashedText(prevHash, serializedPayload, crypto.iso(timestamp)));
      var signature := crypto.hmac(payload.tenantId, eventHash);
      if !HasEvent(events, payload.tenantId, eventHash) {
        events := events + [Event(id, timestamp, StoredPayload(payload), prevHash, eventHash, signature)];
      }
      heads := heads[payload.tenantId := Head(eventHash, head.sequence + 1)];
    }

    /** `rows` is what the query returns: one tenant's rows, ordered by timestamp and id. */
    method VerifyTenantChain(rows: seq<Event>) returns (valid: bool, failedAt: Option<int>)
      ensures valid <==> Accepts(crypto, rows)
      ensures valid ==> failedAt == None
      ensures !valid ==> FirstFailure(crypto, rows, failedAt)
    {
      var previous := GENESIS_HASH;
      for i := 0 to |rows|
        invariant previous == LastHash(rows[..i])
        invariant Accepts(crypto, rows[..i])
      {
        var row := rows[i];
        AcceptsOneMore(crypto, rows, i);
        if row.prevHash != previous {
          return false, Some(row.id);
        }
        var expectedHash := crypto.hash(HashedText(row.prevHash, PayloadText(row.payload), crypto.iso(row.timestamp)));
        if expectedHash != row.eventHash || crypto.hmac(row.payload.tenantId, row.eventHash) != row.signature {
          return false, Some(row.id);
        }
        previous := row.eventHash;
      }
      assert rows[..|rows|] == rows;
      return true, None;
    }
  }

  /** The rows before the reported one pass, the reported one does not. */
  ghost predicate FirstFailure(c: Crypto, rows: seq<Event>, failedAt: Option<int>) {
    exists k ::
      && 0 <= k < |rows| && failedAt == Some(rows[k].id)
      && Accepts(c, rows[..k]) && !RowOk(c, LastHash(rows[..k]), rows[k])
  }

  lemma AcceptsOneMore(c: Crypto, rows: seq<Event>, i: nat)
    requires i < |rows|
    ensures Accepts(c, rows[..i + 1]) <==> Accepts(c, rows[..i]) && RowOk(c, LastHash(rows[..i]), rows[i])
    ensures Accepts(c, rows) ==> RowOk(c, LastHash(rows[..i]), rows[i])
  {
    hide RowOk;
    var more := rows[..i + 1];
    assert forall k :: 0 <= k <= i ==> more[..k] == rows[..k] && more[k] == rows[k];
    assert forall k :: 0 <= k < i ==> rows[..i][..k] == rows[..k] && rows[..i][k] == rows[k];
    if Accepts(c, more) {
      forall k | 0 <= k < i
        ensures RowOk(c, LastHash(rows[..i][..k]), rows[..i][k])
      {
        assert RowOk(c, LastHash(more[..k]), more[k]);
      }
      assert RowOk(c, LastHash(more[..i]), more[i]);
    }
    if Accepts(c, rows[..i]) && RowOk(c, LastHash(rows[..i]), rows[i]) {
      forall k | 0 <= k <= i
        ensures RowOk(c, LastHash(more[..k]), more[k])
      {
        if k < i {
          assert RowOk(c, LastHash(rows[..i][..k]), rows[..i][k]);
        }
      }
    }
  }
}
