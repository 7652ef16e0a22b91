/**
 Concrete audit rows that nobody has touched and that `verifyTenantChain` rejects, under a hash that
 meets every assumption made of SHA-256. The exact condition is `UntouchedAcceptedIff`.
 */
module AuditExamples {
  import opened CanonicalJson
  import opened Outcomes
  import opened AuditChain

  // ---- A hash without collisions ------------------------------------------------------

  const RADIX := 0x110000

  /** A number for every text. */
  function Code(s: string): nat {
    if s == [] then 0 else Code(s[..|s| - 1]) * RADIX + s[|s| - 1] as int + 1
  }

  lemma {:induction false} CodeIsInjective(s: string, t: string)
    requires Code(s) == Code(t)
    ensures s == t
  {
    if s != [] && t != [] {
      var a, b := s[|s| - 1] as int, t[|t| - 1] as int;
      LastDigit(Code(s[..|s| - 1]), a, Code(t[..|t| - 1]), b);
      CodeIsInjective(s[..|s| - 1], t[..|t| - 1]);
      assert s == s[..|s| - 1] + [s[|s| - 1]] && t == t[..|t| - 1] + [t[|t| - 1]];
    }
  }

  lemma LastDigit(m: int, a: int, n: int, b: int)
    requires 0 <= a < RADIX && 0 <= b < RADIX && m * RADIX + a + 1 == n * RADIX + b + 1
    ensures m == n && a == b
  {
  }

  function Repeated(c: char, n: nat): string {
    seq(n, _ => c)
  }

  function Iso(t: int): string {
    if t >= 0 then Repeated('p', t) else Repeated('n', -t)
  }

  lemma IsoIsInjective(t: int, u: int)
    requires Iso(t) == Iso(u)
    ensures t == u
  {
    assert |Iso(t)| == (if t >= 0 then t else -t) && |Iso(u)| == (if u >= 0 then u else -u);
    if t != 0 {
      assert Iso(t)[0] == if t >= 0 then 'p' else 'n';
      assert Iso(u)[0] == if u >= 0 then 'p' else 'n';
    }
  }

  function Hash(s: string): string {
    Repeated('h', Code(s) + 1)
  }

  function Sign(tenantId: string, eventHash: string): string {
    tenantId + eventHash
  }

  function Sample(): Crypto {
    Crypto(Hash, Sign, Iso)
  }

  /** The assumptions made of the hash can be met, for any set of texts at once. */
  lemma SampleIsSound(texts: set<string>)
    ensures TextFormat(Sample()) && CollisionFree(Sample(), texts)
  {
    var c := Sample();
    forall x, y | c.hash(x) == c.hash(y)
      ensures x == y
    {
      assert |Hash(x)| == Code(x) + 1 && |Hash(y)| == Code(y) + 1;
      CodeIsInjective(x, y);
    }
    forall x: string
      ensures c.hash(x) != GENESIS_HASH && c.hash(x) != "" && NoBar(c.hash(x))
    {
      assert c.hash(x) == Hash(x);
      assert Hash(x)[0] == 'h' && GENESIS_HASH[0] == 'G';
    }
    forall t, u | c.iso(t) == c.iso(u)
      ensures t == u
    {
      IsoIsInjective(t, u);
    }
  }

  // ---- Untouched and rejected ---------------------------------------------------------

  /** An event of one tenant with the given old state. */
  function Login(oldState: Json): Payload {
    Payload("c", "tenant", None, None, "LOGIN", None, None, oldState, Null, Null,
            None, None, None, None, "0", true, None)
  }

  /**
   An event of time 1 whose first attempt failed and that is chained after an event of time 2: the
   queue has several workers and retries, and the timestamp is taken when an event enters it.
   */
  function Retried(): seq<Job> {
    [Job(1, 2, Login(Null)), Job(0, 1, Login(Null))]
  }

  /** Two rows that were chained in the other order than their timestamps are rejected. */
  lemma OutOfOrderRejected(c: Crypto, jobs: seq<Job>)
    requires TextFormat(c) && CollisionFree(c, ChainTexts(c, jobs) + RowTexts(c, Chain(c, jobs)))
    requires |jobs| == 2 && jobs[1].timestamp < jobs[0].timestamp
    requires WellFormedPayload(jobs[0].payload) && WellFormedPayload(jobs[1].payload)
    ensures var chain := Chain(c, jobs); InOrder([chain[1], chain[0]]) && !Accepts(c, [chain[1], chain[0]])
  {
    hide *;
    var chain := Chain(c, jobs);
    ChainTimes(c, jobs, 0);
    ChainTimes(c, jobs, 1);
    TwoInOrder(chain[1], chain[0]);
    TwoInOrder(chain[0], chain[1]);
    assert chain == [chain[0], chain[1]];
    assert multiset([chain[1], chain[0]]) == multiset(chain);
    UntouchedAcceptedIff(c, jobs, [chain[1], chain[0]]);
  }

  lemma ChainTimes(c: Crypto, jobs: seq<Job>, k: nat)
    requires k < |jobs|
    ensures Chain(c, jobs)[k].timestamp == jobs[k].timestamp
  {
    ChainAt(c, jobs, k);
  }

  lemma TwoInOrder(e: Event, f: Event)
    requires e.timestamp != f.timestamp
    ensures InOrder([e, f]) <==> e.timestamp < f.timestamp
  {
    assert InOrder([e, f]) ==> Earlier([e, f][0], [e, f][1]);
  }

  /** Rows in timestamp order that were chained in another order are rejected, although nobody touched them. */
  lemma RetriedEventFailsVerification()
    ensures var rows := RunJobs(Sample(), Retried()).events;
      |rows| == 2 && InOrder([rows[1], rows[0]]) && !Accepts(Sample(), [rows[1], rows[0]])
  {
    var c, jobs := Sample(), Retried();
    hide Sample, Chain, RunJobs, TextFormat, CollisionFree, Accepts, ChainTexts, RowTexts, InOrder;
    PersistedChain(jobs);
    SampleIsSound(ChainTexts(c, jobs) + RowTexts(c, Chain(c, jobs)));
    OutOfOrderRejected(c, jobs);
  }

  /** What `persistEvent` leaves behind for jobs of one tenant is their chain. */
  lemma PersistedChain(jobs: seq<Job>)
    requires forall k :: 0 <= k < |jobs| ==> jobs[k].payload.tenantId == "tenant"
    ensures RunJobs(Sample(), jobs).events == Chain(Sample(), jobs)
  {
    hide Sample, Chain, RunJobs, TextFormat, CollisionFree, ChainTexts, EventsOf;
    OneTenant(Sample(), jobs);
    SampleIsSound(ChainTexts(Sample(), jobs));
    InterleavedChains(Sample(), jobs, "tenant");
  }

  lemma PersistAppends(c: Crypto, s: Store, job: Job)
    ensures Persist(c, s, job).events != s.events ==>
      var events := Persist(c, s, job).events;
      |events| == |s.events| + 1 && events[..|s.events|] == s.events
      && events[|s.events|].payload.tenantId == job.payload.tenantId
  {
    hide JobText, HasEvent;
    StoredTenant(job.payload);
  }

  lemma {:induction false} OneTenant(c: Crypto, jobs: seq<Job>)
    requires forall k :: 0 <= k < |jobs| ==> jobs[k].payload.tenantId == "tenant"
    ensures JobsOf(jobs, "tenant") == jobs
    ensures EventsOf(RunJobs(c, jobs).events, "tenant") == RunJobs(c, jobs).events
  {
    hide Persist;
    if jobs != [] {
      var init, last := jobs[..|jobs| - 1], jobs[|jobs| - 1];
      OneTenant(c, init);
      assert jobs == init + [last];
      PersistAppends(c, RunJobs(c, init), last);
      var before, after := RunJobs(c, init).events, RunJobs(c, jobs).events;
      if after != before {
        assert after == before + [after[|before|]];
      }
    }
  }

  /**
   A state with an undefined member is hashed with a null that is then not stored. It takes a direct
   call of `persistEvent`: a payload that comes out of the queue has no undefined members left.
   */
  lemma UndefinedMemberFailsVerification()
    ensures !Accepts(Sample(), RunJobs(Sample(), [Job(0, 0, Login(Obj([Member("a", Undefined)])))]).events)
  {
    var c, state := Sample(), Obj([Member("a", Undefined)]);
    var jobs := [Job(0, 0, Login(state))];
    hide Sample, Chain, RunJobs, TextFormat, CollisionFree, Accepts, ChainTexts, RowTexts;
    PersistedChain(jobs);
    SampleIsSound(ChainTexts(c, jobs) + RowTexts(c, Chain(c, jobs)));
    ChainAcceptedIff(c, jobs);
    assert Member("a", Undefined) in state.members;
    assert !StoresFaithfully(jobs[0].payload);
  }
}
