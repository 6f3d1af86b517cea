/** `create_job` of `meemee/api.py`: many calls, each a sequence of atomic steps, interleaved in any order with each
    other and with any other use of the idempotency store; any call may stop for good after any step. */
module CreateJob {
  import opened Text
  import opened Idempotency
  import Jobs

  /** What a call does next. A finished call remembers the response it returned and the lifetime of the key's record
      that it got or stored it in. */
  datatype Pc =
    | Inserting
    | LookingUp
    | Working
    | Releasing
    | Publishing(response: Str)
    | Succeeded(result: Str, birth: nat)
    | Failed

  datatype Call = Call(key: Key, digest: Str, token: Str, pc: Pc)

  /** A lifetime of a record, as it was inserted. */
  datatype Life = Life(key: Key, hash: Str)

  /** `lives` and `published` record what happened: each lifetime, and the response it got. */
  datatype System = System(
    store: State, calls: map<nat, Call>, lives: map<nat, Life>, published: map<nat, Str>)

  datatype Step =
    | Start(id: nat, key: Key, digest: Str, token: Str)
    | Insert(id: nat, now: int)
    | LookUp(id: nat, now: int)
    | Enqueue(id: nat, response: Str)
    | Break(id: nat)
    | Release(id: nat)
    | Publish(id: nat, ttl: int, now: int, clock: int)
    | Other(op: Op)

  const EMPTY_SYSTEM := System(EMPTY, map[], map[], map[])

  /** The system with a new store in which at most the record of `k` was inserted or finished: a new lifetime and a
      first response are written down. */
  function Recorded(sys: System, store: State, k: Key): System {
    if k !in store.records then sys.(store := store)
    else
      var r := store.records[k];
      sys.(store := store,
           lives := if r.birth in sys.lives then sys.lives else sys.lives[r.birth := Life(k, r.hash)],
           published := if r.status == PENDING || r.birth in sys.published then sys.published
                        else sys.published[r.birth := r.response])
  }

  function OpKey(op: Op): Key {
    match op
    case Insert(k, _, _, _) => k
    case Get(k, _, _) => k
    case Release(k, _) => k
    case Put(p) => p.key
    case DeletePrincipal(principal) => Key(principal, [], [])
  }

  function Do(sys: System, op: Op): System {
    Recorded(sys, Apply(sys.store, op), OpKey(op))
  }

  function Goto(sys: System, id: nat, pc: Pc): System
    requires id in sys.calls
  {
    sys.(calls := sys.calls[id := sys.calls[id].(pc := pc)])
  }

  function Publication200(c: Call, response: Str, ttl: int, now: int, clock: int): Publication {
    Publication(c.key, c.digest, 200, response, Some(c.token), ttl, now, clock)
  }

  /** One atomic step; a step that does not fit the call's position changes nothing. */
  function Next(sys: System, step: Step): System {
    match step
    case Start(id, key, digest, token) =>
      if id in sys.calls || !ValidKey(key) then sys
      else sys.(calls := sys.calls[id := Call(key, digest, token, Inserting)])
    case Insert(id, now) =>
      if id !in sys.calls || !sys.calls[id].pc.Inserting? then sys
      else
        var c := sys.calls[id];
        var inserted := InsertSpec(sys.store, c.key, c.digest, Some(c.token), now).1;
        Goto(Do(sys, Op.Insert(c.key, c.digest, Some(c.token), now)), id, if inserted then Working else LookingUp)
    case LookUp(id, now) =>
      if id !in sys.calls || !sys.calls[id].pc.LookingUp? then sys
      else
        var c := sys.calls[id];
        var after := Do(sys, Op.Get(c.key, c.digest, now));
        var found := GetSpec(sys.store, c.key, c.digest, now).1;
        if found.Err? then Goto(after, id, Failed)
        else if found.value.None? then Goto(after, id, Working)
        else Goto(after, id, Succeeded(found.value.value.response, found.value.value.birth))
    case Enqueue(id, response) =>
      if id !in sys.calls || !sys.calls[id].pc.Working? then sys else Goto(sys, id, Publishing(response))
    case Break(id) =>
      if id !in sys.calls || !sys.calls[id].pc.Working? then sys else Goto(sys, id, Releasing)
    case Release(id) =>
      if id !in sys.calls || !sys.calls[id].pc.Releasing? then sys
      else Goto(Do(sys, Op.Release(sys.calls[id].key, Some(sys.calls[id].token))), id, Failed)
    case Publish(id, ttl, now, clock) =>
      if id !in sys.calls || !sys.calls[id].pc.Publishing? then sys
      else
        var c := sys.calls[id];
        var p := Publication200(c, c.pc.response, ttl, now, clock);
        var after := Do(sys, Op.Put(p));
        if PutSpec(sys.store, p).1.Err? then Goto(after, id, Failed)
        else Goto(after, id, Succeeded(c.pc.response, sys.store.records[c.key].birth))
    case Other(op) => Do(sys, op)
  }

  function Run(sys: System, steps: seq<Step>): System
    decreases |steps|
  {
    if steps == [] then sys else Run(Next(sys, steps[0]), steps[1..])
  }

  /** The history agrees with the store. */
  ghost predicate StoreInvariant(sys: System) {
    && Numbered(sys.store)
    && (forall b | b in sys.lives :: b < sys.store.births)
    && (forall b | b in sys.published :: b in sys.lives)
    && (forall k | k in sys.store.records :: RecordInvariant(sys, k))
  }

  ghost predicate RecordInvariant(sys: System, k: Key)
    requires k in sys.store.records
  {
    var r := sys.store.records[k];
    && r.birth in sys.lives
    && sys.lives[r.birth] == Life(k, r.hash)
    && (r.status == PENDING ==> r.birth !in sys.published)
    && (r.status != PENDING ==> r.birth in sys.published && sys.published[r.birth] == r.response)
  }

  /** A call that returned a response got the one response of that lifetime, for the request of that lifetime. */
  ghost predicate CallInvariant(sys: System, id: nat)
    requires id in sys.calls
  {
    var c := sys.calls[id];
    c.pc.Succeeded? ==>
      && c.pc.birth in sys.published
      && sys.published[c.pc.birth] == c.pc.result
      && c.pc.birth in sys.lives
      && sys.lives[c.pc.birth] == Life(c.key, c.digest)
  }

  ghost predicate Invariant(sys: System) {
    StoreInvariant(sys) && forall id | id in sys.calls :: CallInvariant(sys, id)
  }

  /** History only grows, and what is written in it never changes. */
  ghost predicate Extends(sys: System, later: System) {
    && (forall b | b in sys.lives :: b in later.lives && later.lives[b] == sys.lives[b])
    && (forall b | b in sys.published :: b in later.published && later.published[b] == sys.published[b])
  }

  lemma OtherRecordsStay(s: State, op: Op, k: Key)
    requires Numbered(s) && k in Apply(s, op).records && k != OpKey(op)
    ensures k in s.records && Apply(s, op).records[k] == s.records[k]
  {
    match op
    case Insert(_, digest, token, now) =>
    case Get(_, digest, now) =>
    case Release(_, token) =>
    case Put(p) =>
    case DeletePrincipal(principal) =>
  }

  lemma OwnRecord(s: State, op: Op)
    requires Numbered(s) && OpKey(op) in Apply(s, op).records
    ensures var k, t := OpKey(op), Apply(s, op);
      t.records[k].birth >= s.births || (k in s.records && t.records[k].birth == s.records[k].birth)
  {
    match op
    case Insert(_, digest, token, now) =>
    case Get(_, digest, now) =>
    case Release(_, token) =>
    case Put(p) =>
    case DeletePrincipal(principal) =>
  }

  lemma OtherRecordsKept(sys: System, op: Op, k: Key)
    requires StoreInvariant(sys) && k in Do(sys, op).store.records && k != OpKey(op)
    ensures RecordInvariant(Do(sys, op), k)
  {
    OtherRecordsStay(sys.store, op, k);
    assert RecordInvariant(sys, k);
  }

  lemma OwnRecordKept(sys: System, op: Op)
    requires StoreInvariant(sys) && OpKey(op) in Do(sys, op).store.records
    ensures RecordInvariant(Do(sys, op), OpKey(op))
  {
    var later, own := Do(sys, op), OpKey(op);
    OwnRecord(sys.store, op);
    if later.store.records[own].birth < sys.store.births {
      assert RecordInvariant(sys, own);
      LifetimeStep(sys.store, op, own);
    }
  }

  /** Writing down is append-only, and only a finished record has a response. */
  lemma RecordingExtends(sys: System, store: State, k: Key)
    requires forall b | b in sys.lives :: b < sys.store.births
    requires forall b | b in sys.published :: b in sys.lives
    requires sys.store.births <= store.births && (k in store.records ==> store.records[k].birth < store.births)
    ensures var later := Recorded(sys, store, k);
      && Extends(sys, later) && later.calls == sys.calls && later.store == store
      && (forall b | b in later.lives :: b < store.births)
      && (forall b | b in later.published :: b in later.lives)
  {
  }

  /** Any operation of the store keeps the history in step. */
  lemma DoKeepsStore(sys: System, op: Op)
    requires StoreInvariant(sys)
    ensures StoreInvariant(Do(sys, op)) && Extends(sys, Do(sys, op)) && Do(sys, op).calls == sys.calls
  {
    var later, own := Do(sys, op), OpKey(op);
    StepKeepsNumbers(sys.store, op);
    RecordingExtends(sys, Apply(sys.store, op), own);
    forall k | k in later.store.records ensures RecordInvariant(later, k) {
      if k == own {
        OwnRecordKept(sys, op);
      } else {
        OtherRecordsKept(sys, op, k);
      }
    }
  }

  lemma ExtensionKeepsCalls(sys: System, later: System)
    requires Invariant(sys) && Extends(sys, later) && later.calls == sys.calls && StoreInvariant(later)
    ensures Invariant(later)
  {
    forall id | id in later.calls ensures CallInvariant(later, id) {
      assert CallInvariant(sys, id);
    }
  }

  lemma GotoKeepsInvariant(sys: System, id: nat, pc: Pc)
    requires Invariant(sys) && id in sys.calls
    requires CallInvariant(Goto(sys, id, pc), id)
    ensures Invariant(Goto(sys, id, pc))
  {
    var later := Goto(sys, id, pc);
    forall k | k in later.store.records ensures RecordInvariant(later, k) {
      assert RecordInvariant(sys, k);
    }
    forall other | other in later.calls ensures CallInvariant(later, other) {
      if other != id {
        assert CallInvariant(sys, other);
      }
    }
  }

  lemma StepDo(sys: System, op: Op)
    requires Invariant(sys)
    ensures Invariant(Do(sys, op)) && Extends(sys, Do(sys, op))
  {
    DoKeepsStore(sys, op);
    ExtensionKeepsCalls(sys, Do(sys, op));
  }

  lemma LookUpKeepsInvariant(sys: System, id: nat, now: int)
    requires Invariant(sys)
    ensures Invariant(Next(sys, LookUp(id, now)))
  {
    if id in sys.calls && sys.calls[id].pc.LookingUp? {
      var c := sys.calls[id];
      var op := Op.Get(c.key, c.digest, now);
      StepDo(sys, op);
      var after, r := Do(sys, op), GetSpec(sys.store, c.key, c.digest, now).1;
      if r.Ok? && r.value.Some? {
        assert RecordInvariant(after, c.key);
      }
      GotoKeepsInvariant(after, id, Next(sys, LookUp(id, now)).calls[id].pc);
    }
  }

  lemma PublishKeepsInvariant(sys: System, id: nat, ttl: int, now: int, clock: int)
    requires Invariant(sys)
    ensures Invariant(Next(sys, Publish(id, ttl, now, clock)))
  {
    if id in sys.calls && sys.calls[id].pc.Publishing? {
      var c := sys.calls[id];
      var p := Publication200(c, c.pc.response, ttl, now, clock);
      StepDo(sys, Op.Put(p));
      var after := Do(sys, Op.Put(p));
      if PutSpec(sys.store, p).1.Ok? && c.key in sys.store.records {
        assert RecordInvariant(after, c.key);
        assert Finalises(sys.store, Op.Put(p), c.key);
      }
      GotoKeepsInvariant(after, id, Next(sys, Publish(id, ttl, now, clock)).calls[id].pc);
    }
  }

  lemma StepKeepsInvariant(sys: System, step: Step)
    requires Invariant(sys)
    ensures Invariant(Next(sys, step))
  {
    match step
    case Start(id, key, digest, token) =>
      forall k | k in sys.store.records ensures RecordInvariant(Next(sys, step), k) {
        assert RecordInvariant(sys, k);
      }
      forall other | other in Next(sys, step).calls ensures CallInvariant(Next(sys, step), other) {
        assert other in sys.calls ==> CallInvariant(sys, other);
      }
    case Insert(id, now) =>
      if id in sys.calls && sys.calls[id].pc.Inserting? {
        var c := sys.calls[id];
        StepDo(sys, Op.Insert(c.key, c.digest, Some(c.token), now));
        GotoKeepsInvariant(Do(sys, Op.Insert(c.key, c.digest, Some(c.token), now)), id, Next(sys, step).calls[id].pc);
      }
    case LookUp(id, now) => LookUpKeepsInvariant(sys, id, now);
    case Enqueue(id, response) =>
      if id in sys.calls && sys.calls[id].pc.Working? {
        GotoKeepsInvariant(sys, id, Publishing(response));
      }
    case Break(id) =>
      if id in sys.calls && sys.calls[id].pc.Working? {
        GotoKeepsInvariant(sys, id, Releasing);
      }
    case Release(id) =>
      if id in sys.calls && sys.calls[id].pc.Releasing? {
        var op := Op.Release(sys.calls[id].key, Some(sys.calls[id].token));
        StepDo(sys, op);
        GotoKeepsInvariant(Do(sys, op), id, Failed);
      }
    case Publish(id, ttl, now, clock) => PublishKeepsInvariant(sys, id, ttl, now, clock);
    case Other(op) => StepDo(sys, op);
  }

  lemma {:induction false} RunKeepsInvariant(sys: System, steps: seq<Step>)
    requires Invariant(sys)
    ensures Invariant(Run(sys, steps))
    decreases |steps|
  {
    if steps != [] {
      StepKeepsInvariant(sys, steps[0]);
      RunKeepsInvariant(Next(sys, steps[0]), steps[1..]);
    }
  }

  /** Whatever the interleaving, the crashes and the other users of the store: all calls that succeed against one
      lifetime of a key's record sent the same request under the same key and report the same job. */
  lemma OneJobPerLifetime(steps: seq<Step>, i: nat, j: nat)
    requires var sys := Run(EMPTY_SYSTEM, steps);
      && i in sys.calls && j in sys.calls
      && sys.calls[i].pc.Succeeded? && sys.calls[j].pc.Succeeded?
      && sys.calls[i].pc.birth == sys.calls[j].pc.birth
    ensures var sys := Run(EMPTY_SYSTEM, steps);
      && sys.calls[i].pc.result == sys.calls[j].pc.result
      && sys.calls[i].key == sys.calls[j].key
      && sys.calls[i].digest == sys.calls[j].digest
  {
    RunKeepsInvariant(EMPTY_SYSTEM, steps);
    var sys := Run(EMPTY_SYSTEM, steps);
    assert CallInvariant(sys, i) && CallInvariant(sys, j);
  }

  /** No row of the key outlives this moment. */
  predicate FreeAt(s: State, k: Key, now: int) {
    k !in s.records || s.records[k].expires <= now
  }

  /** The pending row of the call's own claim. */
  predicate OwnsRow(sys: System, id: nat)
    requires id in sys.calls
  {
    var c := sys.calls[id];
    && c.key in sys.store.records
    && sys.store.records[c.key].token == Some(c.token)
    && sys.store.records[c.key].status == PENDING
    && sys.store.records[c.key].hash == c.digest
  }

  /** A claim that answers None means that the caller owns the key if and only if it comes from the insert; when it comes
      from the look-up, no row of the key exists. */
  lemma NoneMeansOwnedExactlyByInsert(sys: System, step: Step, id: nat)
    requires id in sys.calls && !sys.calls[id].pc.Working?
    requires id in Next(sys, step).calls && Next(sys, step).calls[id].pc.Working?
    ensures (step.Insert? || step.LookUp?) && step.id == id
    ensures OwnsRow(Next(sys, step), id) <==> step.Insert?
    ensures step.LookUp? ==> sys.calls[id].key !in Next(sys, step).store.records
  {
    match step
    case Start(_, _, _, _) =>
    case Insert(_, _) =>
    case LookUp(_, _) =>
    case Enqueue(_, _) =>
    case Break(_) =>
    case Release(_) =>
    case Publish(_, _, _, _) =>
    case Other(_) =>
  }

  /** The insert and the look-up of a claim answer None if and only if no row of the key is alive at their time. */
  lemma NoneExactlyWhenFree(sys: System, id: nat, now: int)
    requires id in sys.calls
    ensures sys.calls[id].pc.Inserting? ==>
      (Next(sys, Step.Insert(id, now)).calls[id].pc.Working? <==> FreeAt(sys.store, sys.calls[id].key, now))
    ensures sys.calls[id].pc.LookingUp? ==>
      (Next(sys, LookUp(id, now)).calls[id].pc.Working? <==> FreeAt(sys.store, sys.calls[id].key, now))
  {
  }

  /** A claim that returns None does not prove that the caller's row exists, but a put decides it: a call publishes if
      and only if the pending row of its own claim is there and its lease has not ended. */
  lemma PublishNeedsOwnClaim(sys: System, id: nat, ttl: int, now: int, clock: int)
    requires id in sys.calls && sys.calls[id].pc.Publishing?
    ensures Next(sys, Publish(id, ttl, now, clock)).calls[id].pc.Succeeded? <==>
      ValidKey(sys.calls[id].key) && OwnsRow(sys, id) && clock < sys.store.records[sys.calls[id].key].expires
    ensures Next(sys, Publish(id, ttl, now, clock)).calls[id].pc.Succeeded? ==>
      var c := sys.calls[id];
      Next(sys, Publish(id, ttl, now, clock)).store.records[c.key].response == c.pc.response
  {
  }

  /** The row of another caller expires between the two transactions of a claim. */
  function ExpiryBetween(k: Key, digest: Str, token: Str, other: Str): seq<Step> {
    [Start(0, k, digest, token), Other(Op.Insert(k, digest, Some(other), 0)), Step.Insert(0, 0), LookUp(0, CLAIM_LEASE)]
  }

  /** So the call goes on to work although no row of its key exists. */
  lemma NoneWithoutRow(k: Key, digest: Str, token: Str, other: Str)
    requires ValidKey(k)
    ensures var sys := Run(EMPTY_SYSTEM, ExpiryBetween(k, digest, token, other));
      0 in sys.calls && sys.calls[0].pc == Working && k !in sys.store.records
  {
    var steps := ExpiryBetween(k, digest, token, other);
    var a := Next(EMPTY_SYSTEM, steps[0]);
    var b := Next(a, steps[1]);
    assert k in b.store.records && b.store.records[k].expires == CLAIM_LEASE;
    var c := Next(b, steps[2]);
    assert c.calls[0].pc == LookingUp && c.store.records[k].expires == CLAIM_LEASE;
    var d := Next(c, steps[3]);
    assert d.calls[0].pc == Working && k !in d.store.records;
    assert steps[1..] == [steps[1], steps[2], steps[3]];
    assert steps[1..][1..] == [steps[2], steps[3]] && steps[1..][1..][1..] == [steps[3]];
    assert Run(c, [steps[3]]) == d;
    assert Run(b, [steps[2], steps[3]]) == d;
  }

  // ----- one call by itself -----

  datatype RunAt = NoTime | NotIso | NaiveTime | Due(due: Str)

  /** A request with everything that its call reads from outside: the quota's answer (None: exceeded), the fresh token
      and job identifier, and the clock at each transaction. */
  datatype Request = Request(
    principal: Str, header: Option<Str>, digest: Str, goal: Str, runAt: RunAt, quota: Option<Str>, token: Str,
    ident: Str, stamp: Str, insertAt: int, getAt: int, putAt: int, putClock: int)

  datatype Http = Conflict409 | Unprocessable422 | TooMany429 | Internal500

  /** How `{"id": ..., "quota": ...}` is rendered is not part of this model. */
  type Render = (Str, Str) -> Str

  const MAX_ATTEMPTS := 3

  function HasKey(q: Request): bool {
    q.header.Some? && q.header.value != []
  }

  function KeyOf(q: Request): Key
    requires HasKey(q)
  {
    Key(q.principal, Codes("/v1/jobs"), q.header.value)
  }

  /** The part that makes the job. */
  function WorkSpec(j: Jobs.State, q: Request, render: Render): (Jobs.State, Result<Str, Http>) {
    if q.runAt.NotIso? || q.runAt.NaiveTime? then (j, Err(Unprocessable422))
    else if q.quota.None? then (j, Err(TooMany429))
    else
      var when := if q.runAt.Due? then Jobs.At(q.runAt.due) else Jobs.Unset;
      var (after, r) := Jobs.EnqueueSpec(j, q.ident, q.goal, when, MAX_ATTEMPTS, Some(q.principal), q.stamp);
      (after, if r.Ok? then Ok(render(q.ident, q.quota.value)) else Err(Internal500))
  }

  /** The work under a claim, with release on failure and publication on success. */
  function OwnedSpec(s: State, j: Jobs.State, q: Request, ttl: int, render: Render)
    : (State, Jobs.State, Result<Str, Http>)
    requires HasKey(q)
  {
    var (after, r) := WorkSpec(j, q, render);
    if r.Err? then (ReleaseSpec(s, KeyOf(q), Some(q.token)), after, r)
    else
      var (t, published) :=
        PutSpec(s, Publication(KeyOf(q), q.digest, 200, r.value, Some(q.token), ttl, q.putAt, q.putClock));
      (t, after, if published.Ok? then r else Err(Conflict409))
  }

  function CreateSpec(s: State, j: Jobs.State, q: Request, ttl: int, render: Render)
    : (State, Jobs.State, Result<Str, Http>)
  {
    if !HasKey(q) then
      var (after, r) := WorkSpec(j, q, render);
      (s, after, r)
    else if !ValidKey(KeyOf(q)) then (s, j, Err(Unprocessable422))
    else
      var (t, inserted) := InsertSpec(s, KeyOf(q), q.digest, Some(q.token), q.insertAt);
      if inserted then OwnedSpec(t, j, q, ttl, render)
      else
        var (u, found) := GetSpec(t, KeyOf(q), q.digest, q.getAt);
        if found.Err? then (u, j, Err(Conflict409))
        else if found.value.Some? then (u, j, Ok(found.value.value.response))
        else OwnedSpec(u, j, q, ttl, render)
  }

  /** The queue has got one more job, the request's, and its first event; everything else is as before. */
  ghost predicate Enqueues(j: Jobs.State, k: Jobs.State, q: Request) {
    && q.ident !in j.jobs && k.jobs.Keys == j.jobs.Keys + {q.ident}
    && (forall id | id in j.jobs :: k.jobs[id] == j.jobs[id])
    && k.events == j.events + [Jobs.Event(q.ident, Jobs.QueuedEvent(k.jobs[q.ident].runAt))]
    && var job := k.jobs[q.ident];
       && job.goal == q.goal && job.principal == Some(q.principal) && !job.purge
       && job.runAt == (if q.runAt.Due? then q.runAt.due else q.stamp)
       && job.status == Jobs.Queued && job.attempts == 0 && job.maxAttempts == 3
       && job.result == None && job.error == None && job.created == q.stamp && job.updated == q.stamp
  }

  /** The whole answer to a call without an Idempotency-Key: the stored responses are not touched, and a job is made,
      and reported with its quota, exactly if the time is well formed, the quota lasts and the identifier is fresh. */
  lemma WithoutKeyExactly(s: State, j: Jobs.State, q: Request, ttl: int, render: Render)
    requires q.header == None || q.header == Some([])
    ensures var (t, k, r) := CreateSpec(s, j, q, ttl, render);
      && t == s
      && (r == Err(Unprocessable422) <==> q.runAt == NotIso || q.runAt == NaiveTime)
      && (r == Err(TooMany429) <==> (q.runAt == NoTime || q.runAt.Due?) && q.quota == None)
      && (r == Err(Internal500) <==> (q.runAt == NoTime || q.runAt.Due?) && q.quota != None && q.ident in j.jobs)
      && (r.Ok? <==> (q.runAt == NoTime || q.runAt.Due?) && q.quota != None && q.ident !in j.jobs)
      && (r.Err? ==> k == j)
      && (r.Ok? ==> r.value == render(q.ident, q.quota.value) && Enqueues(j, k, q))
  {
  }

  /** So without a key a retry with a fresh identifier makes a second job. */
  lemma WithoutKeyEveryCallMakesAJob(
    s: State, j: Jobs.State, q: Request, retry: Request, ttl: int, render: Render)
    requires (q.header == None || q.header == Some([])) && retry.header == q.header
    requires CreateSpec(s, j, q, ttl, render).2.Ok?
    requires (retry.runAt == NoTime || retry.runAt.Due?) && retry.quota != None
    requires retry.ident != q.ident && retry.ident !in j.jobs
    ensures var (t, k, _) := CreateSpec(s, j, q, ttl, render);
      var (u, l, r) := CreateSpec(t, k, retry, ttl, render);
      && r == Ok(render(retry.ident, retry.quota.value)) && u == s
      && l.jobs.Keys == j.jobs.Keys + {q.ident, retry.ident}
      && Enqueues(k, l, retry) && l.jobs[q.ident] == k.jobs[q.ident]
  {
    WithoutKeyExactly(s, j, q, ttl, render);
    var k := CreateSpec(s, j, q, ttl, render).1;
    WithoutKeyExactly(s, k, retry, ttl, render);
  }

  /** The whole answer under a key. A key of a wrong length is refused. A row that is alive at the insert and at the
      look-up answers by itself: with a conflict for another request or while it is pending, and with its response
      otherwise. Every other call works as one without a key, and a job that it makes is reported if and only if its own
      claim is still alive when it publishes. */
  lemma UnderKeyExactly(s: State, j: Jobs.State, q: Request, ttl: int, render: Render)
    requires q.header.Some? && q.header.value != []
    ensures var (t, k, r) := CreateSpec(s, j, q, ttl, render);
      var key := Key(q.principal, Codes("/v1/jobs"), q.header.value);
      var alive := key in s.records && s.records[key].expires > q.insertAt;
      var bare := CreateSpec(s, j, q.(header := None), ttl, render);
      if |q.header.value| > 200 then t == s && k == j && r == Err(Unprocessable422)
      else if alive && s.records[key].expires > q.getAt then
        && k == j
        && r == (if s.records[key].hash != q.digest || s.records[key].status == 0 then Err(Conflict409)
                 else Ok(s.records[key].response))
      else
        && k == bare.1
        && r == (if bare.2.Ok? && (alive || q.insertAt + 300_000_000 <= q.putClock) then Err(Conflict409) else bare.2)
  {
  }

  /** A retry of a call that succeeded, within the time to live of its record, gets the same response and makes no
      second job. */
  lemma RetryReplays(s: State, j: Jobs.State, q: Request, retry: Request, ttl: int, render: Render)
    requires HasKey(q) && HasKey(retry) && KeyOf(retry) == KeyOf(q) && retry.digest == q.digest
    requires CreateSpec(s, j, q, ttl, render).2.Ok?
    requires var t := CreateSpec(s, j, q, ttl, render).0;
      KeyOf(q) in t.records ==>
        retry.insertAt < t.records[KeyOf(q)].expires && retry.getAt < t.records[KeyOf(q)].expires
    ensures var (t, k, response) := CreateSpec(s, j, q, ttl, render);
      CreateSpec(t, k, retry, ttl, render).1 == k && CreateSpec(t, k, retry, ttl, render).2 == response
  {
    var key := KeyOf(q);
    var after := CreateSpec(s, j, q, ttl, render).0;
    assert key in after.records && after.records[key].hash == q.digest && after.records[key].status != PENDING
      && Ok(after.records[key].response) == CreateSpec(s, j, q, ttl, render).2;
  }

  /** A first call with a good request succeeds: its one job is queued and its response is stored for the time
      to live. */
  lemma FirstCallSucceeds(s: State, j: Jobs.State, q: Request, ttl: int, render: Render)
    requires HasKey(q) && ValidKey(KeyOf(q)) && (KeyOf(q) in s.records ==> s.records[KeyOf(q)].expires <= q.insertAt)
    requires (q.runAt.NoTime? || q.runAt.Due?) && q.quota.Some? && q.ident !in j.jobs
    requires q.putClock < q.insertAt + CLAIM_LEASE
    ensures var (t, k, r) := CreateSpec(s, j, q, ttl, render);
      && r == Ok(render(q.ident, q.quota.value))
      && k.jobs.Keys == j.jobs.Keys + {q.ident}
      && k.jobs[q.ident].status == Jobs.Queued && k.jobs[q.ident].principal == Some(q.principal)
      && k.jobs[q.ident].runAt == (if q.runAt.Due? then q.runAt.due else q.stamp)
      && Jobs.Replay(k.events, q.ident) == Some((Jobs.Queued, 0))
      && KeyOf(q) in t.records
      && t.records[KeyOf(q)].response == r.value && t.records[KeyOf(q)].expires == q.putAt + ttl
  {
    var k := CreateSpec(s, j, q, ttl, render).1;
    assert k.events[..|k.events| - 1] == j.events;
  }

  /** The request makes a job when it gets to work. */
  predicate GoodRequest(j: Jobs.State, q: Request) {
    (q.runAt.NoTime? || q.runAt.Due?) && q.quota.Some? && q.ident !in j.jobs
  }

  /** When a call's claim is lost before it publishes: its own row has expired by then, or the row that kept it from
      inserting was gone at the look-up, so that it never had one. */
  predicate LosesClaim(s: State, q: Request)
    requires HasKey(q)
  {
    if FreeAt(s, KeyOf(q), q.insertAt) then q.putClock >= q.insertAt + CLAIM_LEASE else FreeAt(s, KeyOf(q), q.getAt)
  }

  /** A call fails after it has made a job if and only if the request is good and its claim is lost before publication;
      the answer is then a conflict. */
  lemma FailsWithJobExactly(s: State, j: Jobs.State, q: Request, ttl: int, render: Render)
    requires HasKey(q)
    ensures var (t, k, r) := CreateSpec(s, j, q, ttl, render);
      && (r.Err? && k != j <==> ValidKey(KeyOf(q)) && GoodRequest(j, q) && LosesClaim(s, q))
      && (r.Err? && k != j ==> r == Err(Conflict409) && q.ident in k.jobs)
  {
  }

  /** A call that fails without a conflict has made no job and holds no claim on its key any more. */
  lemma FailureUndoesClaim(s: State, j: Jobs.State, q: Request, ttl: int, render: Render)
    requires HasKey(q) && CreateSpec(s, j, q, ttl, render).2.Err?
    requires forall k | k in s.records :: s.records[k].token != Some(q.token)
    ensures var (t, k, r) := CreateSpec(s, j, q, ttl, render);
      && (r != Err(Conflict409) ==> k == j && forall x | x in t.records :: t.records[x].token != Some(q.token))
      && (k != j <==> ValidKey(KeyOf(q)) && GoodRequest(j, q) && LosesClaim(s, q))
      && (k != j ==> r == Err(Conflict409) && (q.putClock >= q.insertAt + CLAIM_LEASE || KeyOf(q) !in t.records))
  {
    FailsWithJobExactly(s, j, q, ttl, render);
  }

  // ----- one call as a run -----

  /** The steps of a call that nobody interrupts; one that its course does not reach changes nothing. */
  function StepsOfCall(id: nat, q: Request, j: Jobs.State, ttl: int, render: Render): seq<Step>
    requires HasKey(q)
  {
    [Start(id, KeyOf(q), q.digest, q.token), Step.Insert(id, q.insertAt), LookUp(id, q.getAt),
     if GoodRequest(j, q) then Enqueue(id, render(q.ident, q.quota.value)) else Break(id),
     Step.Release(id), Step.Publish(id, ttl, q.putAt, q.putClock)]
  }

  /** Call `id` is the request's, over this store, and at this point. */
  ghost predicate Reached(sys: System, id: nat, q: Request, store: State, pc: Pc)
    requires HasKey(q)
  {
    sys.store == store && id in sys.calls && sys.calls[id] == Call(KeyOf(q), q.digest, q.token, pc)
  }

  /** A call that has ended with this answer. */
  ghost predicate Ended(sys: System, id: nat, q: Request, store: State, r: Result<Str, Http>)
    requires HasKey(q)
  {
    if r.Ok? then exists birth :: Reached(sys, id, q, store, Succeeded(r.value, birth))
    else Reached(sys, id, q, store, Failed)
  }

  lemma WorkIsARun(sys: System, id: nat, q: Request, s: State, j: Jobs.State, ttl: int, render: Render)
    requires HasKey(q) && Reached(sys, id, q, s, Working)
    ensures var steps, (t, _, r) := StepsOfCall(id, q, j, ttl, render), OwnedSpec(s, j, q, ttl, render);
      Ended(Next(Next(Next(sys, steps[3]), steps[4]), steps[5]), id, q, t, r)
  {
    var steps := StepsOfCall(id, q, j, ttl, render);
    var a := Next(sys, steps[3]);
    if GoodRequest(j, q) {
      var response := render(q.ident, q.quota.value);
      assert Reached(a, id, q, s, Publishing(response)) && Next(a, steps[4]) == a;
      var b := Next(a, steps[5]);
      var put := PutSpec(s, Publication(KeyOf(q), q.digest, 200, response, Some(q.token), ttl, q.putAt, q.putClock));
      if put.1.Ok? {
        assert Reached(b, id, q, put.0, Succeeded(response, s.records[KeyOf(q)].birth));
      }
    } else {
      assert Reached(a, id, q, s, Releasing);
      var b := Next(a, steps[4]);
      assert Reached(b, id, q, ReleaseSpec(s, KeyOf(q), Some(q.token)), Failed) && Next(b, steps[5]) == b;
    }
  }

  /** The specification of one call is what the interleaved machine does when nothing comes between its steps: the same
      store and the same answer. What holds of every interleaving holds of it. */
  lemma CallIsARun(sys: System, id: nat, q: Request, j: Jobs.State, ttl: int, render: Render)
    requires HasKey(q) && ValidKey(KeyOf(q)) && id !in sys.calls
    ensures var (t, _, r) := CreateSpec(sys.store, j, q, ttl, render);
      Ended(Run(sys, StepsOfCall(id, q, j, ttl, render)), id, q, t, r)
  {
    var steps := StepsOfCall(id, q, j, ttl, render);
    var key, a := KeyOf(q), Next(sys, steps[0]);
    var (t, inserted) := InsertSpec(sys.store, key, q.digest, Some(q.token), q.insertAt);
    var b := Next(a, steps[1]);
    var c := Next(b, steps[2]);
    RunOfSix(sys, steps);
    assert Reached(a, id, q, sys.store, Inserting);
    if inserted {
      assert Reached(b, id, q, t, Working) && c == b;
      WorkIsARun(c, id, q, t, j, ttl, render);
    } else {
      assert Reached(b, id, q, t, LookingUp);
      var (u, found) := GetSpec(t, key, q.digest, q.getAt);
      if found == Ok(None) {
        assert Reached(c, id, q, u, Working);
        WorkIsARun(c, id, q, u, j, ttl, render);
      } else if found.Ok? {
        assert Reached(c, id, q, u, Succeeded(found.value.value.response, found.value.value.birth));
        EndedStays(c, id, steps);
      } else {
        assert Reached(c, id, q, u, Failed);
        EndedStays(c, id, steps);
      }
    }
  }

  lemma EndedStays(sys: System, id: nat, steps: seq<Step>)
    requires id in sys.calls && (sys.calls[id].pc.Succeeded? || sys.calls[id].pc.Failed?) && |steps| == 6
    requires steps[3] == Break(id) || (steps[3].Enqueue? && steps[3].id == id)
    requires steps[4] == Step.Release(id) && steps[5].Publish? && steps[5].id == id
    ensures Next(Next(Next(sys, steps[3]), steps[4]), steps[5]) == sys
  {
  }

  lemma RunOfSix(sys: System, steps: seq<Step>)
    requires |steps| == 6
    ensures Run(sys, steps)
      == Next(Next(Next(Next(Next(Next(sys, steps[0]), steps[1]), steps[2]), steps[3]), steps[4]), steps[5])
  {
    var c := Next(Next(Next(sys, steps[0]), steps[1]), steps[2]);
    RunOfThree(sys, steps[0], steps[1], steps[2], steps[3..]);
    assert steps == [steps[0], steps[1], steps[2]] + steps[3..];
    RunOfThree(c, steps[3], steps[4], steps[5], []);
    assert steps[3..] == [steps[3], steps[4], steps[5]] + [];
  }

  lemma RunOfThree(sys: System, a: Step, b: Step, c: Step, rest: seq<Step>)
    ensures Run(sys, [a, b, c] + rest) == Run(Next(Next(Next(sys, a), b), c), rest)
  {
    assert ([a, b, c] + rest)[1..] == [b, c] + rest && ([b, c] + rest)[1..] == [c] + rest;
    assert ([c] + rest)[1..] == rest;
    assert Run(Next(Next(sys, a), b), [c] + rest) == Run(Next(Next(Next(sys, a), b), c), rest);
    assert Run(Next(sys, a), [b, c] + rest) == Run(Next(Next(sys, a), b), [c] + rest);
  }

  class JobApi {
    const idempotency: IdempotencyStore
    const jobs: Jobs.JobStore
    const render: Render

    constructor (idempotency: IdempotencyStore, jobs: Jobs.JobStore, render: Render)
      ensures this.idempotency == idempotency && this.jobs == jobs && this.render == render
    {
      this.idempotency, this.jobs, this.render := idempotency, jobs, render;
    }

    /** The `try` block up to the enqueue. */
    method Work(q: Request) returns (r: Result<Str, Http>)
      modifies jobs
      ensures (jobs.Contents(), r) == WorkSpec(old(jobs.Contents()), q, render)
    {
      if q.runAt.NotIso? || q.runAt.NaiveTime? {
        return Err(Unprocessable422);
      }
      if q.quota.None? {
        return Err(TooMany429);
      }
      var when := if q.runAt.Due? then Jobs.At(q.runAt.due) else Jobs.Unset;
      var ident := jobs.Enqueue(q.ident, q.goal, when, MAX_ATTEMPTS, Some(q.principal), q.stamp);
      if ident.Err? {
        return Err(Internal500);
      }
      r := Ok(render(ident.value, q.quota.value));
    }

    /** `create_job`, with no other call in between its transactions. */
    method CreateJob(q: Request) returns (r: Result<Str, Http>)
      modifies idempotency, jobs
      ensures (idempotency.Contents(), jobs.Contents(), r)
        == CreateSpec(old(idempotency.Contents()), old(jobs.Contents()), q, idempotency.ttl, render)
      ensures !HasKey(q) ==> idempotency.Contents() == old(idempotency.Contents())
      ensures !HasKey(q) ==>
        && (r == Err(Unprocessable422) <==> q.runAt == NotIso || q.runAt == NaiveTime)
        && (r == Err(TooMany429) <==> (q.runAt == NoTime || q.runAt.Due?) && q.quota == None)
        && (r == Err(Internal500) <==>
              (q.runAt == NoTime || q.runAt.Due?) && q.quota != None && q.ident in old(jobs.jobs))
        && (r.Err? ==> r.error != Conflict409 && jobs.Contents() == old(jobs.Contents()))
        && (r.Ok? ==> r.value == render(q.ident, q.quota.value) && Enqueues(old(jobs.Contents()), jobs.Contents(), q))
    {
      if HasKey(q) {
        var cached := idempotency.Claim(KeyOf(q), q.digest, Some(q.token), q.insertAt, q.getAt);
        if cached.Err? {
          return Err(if cached.error == ValueError then Unprocessable422 else Conflict409);
        }
        if cached.value.Some? {
          return Ok(cached.value.value.response);
        }
      }
      r := Work(q);
      if HasKey(q) {
        if r.Err? {
          idempotency.Release(KeyOf(q), Some(q.token));
        } else {
          var put := idempotency.Put(Publication(
            KeyOf(q), q.digest, 200, r.value, Some(q.token), idempotency.ttl, q.putAt, q.putClock));
          if put.Err? {
            r := Err(Conflict409);
          }
        }
      }
    }
  }
}
