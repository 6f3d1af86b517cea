/** `create_job` together with the job queue: which call made which job, and which call's response was published. The
    calls of module CreateJob are interleaved with every operation of the queue. */
module Publication {
  import opened Text
  import Idempotency
  import Jobs
  import opened CreateJob

  /** What a call made: its job, and the quota that its response reports beside the job's identifier. */
  datatype Made = Made(job: Str, quota: Str)

  /** `made`, `makers` and `publishers` record what happened: what each call made, who made each job, and which call
      published the response of each lifetime. */
  datatype World = World(
    render: Render, sys: System, jobs: Jobs.State, made: map<nat, Made>, makers: map<Str, nat>,
    publishers: map<nat, nat>)
  {
    /** The response of a call that made a job. */
    function Response(id: nat): Str
      requires id in made
    {
      render(made[id].job, made[id].quota)
    }
  }

  function EmptyWorld(render: Render): World {
    World(render, EMPTY_SYSTEM, Jobs.EMPTY, map[], map[], map[])
  }

  const ROUTE := Codes("/v1/jobs")

  datatype Move =
    | Make(id: nat, job: Str, quota: Str, goal: Str, when: Jobs.When, stamp: Str)
    | Proceed(step: Step)
    | Queue(op: Jobs.Op)

  /** The call with this number stands before its enqueue. */
  predicate AtWork(sys: System, id: nat) {
    id in sys.calls && sys.calls[id].pc.Working?
  }

  function Publishes(sys: System, step: Step): bool {
    && step.Publish?
    && step.id in sys.calls
    && sys.calls[step.id].pc.Publishing?
    && Next(sys, step).calls[step.id].pc.Succeeded?
  }

  /** Job identifiers are fresh; a failed enqueue leads to the release; calls use the route of the endpoint. */
  ghost function Forward(w: World, move: Move): World {
    match move
    case Make(id, job, quota, goal, when, stamp) =>
      if !AtWork(w.sys, id) || job in w.makers then w
      else
        var principal := w.sys.calls[id].key.principal;
        var (queue, r) := Jobs.EnqueueSpec(w.jobs, job, goal, when, MAX_ATTEMPTS, Some(principal), stamp);
        if r.Err? then w.(sys := Next(w.sys, Break(id)))
        else
          World(w.render, Next(w.sys, Step.Enqueue(id, w.render(job, quota))), queue, w.made[id := Made(job, quota)],
                w.makers[job := id], w.publishers)
    case Proceed(step) =>
      if step.Enqueue? || (step.Start? && step.key.route != ROUTE) then w
      else
        w.(sys := Next(w.sys, step),
           publishers := if Publishes(w.sys, step)
                         then w.publishers[Next(w.sys, step).calls[step.id].pc.birth := step.id] else w.publishers)
    case Queue(op) => w.(jobs := Jobs.Apply(w.jobs, op))
  }

  ghost function Course(w: World, moves: seq<Move>): World
    decreases |moves|
  {
    if moves == [] then w else Course(Forward(w, moves[0]), moves[1..])
  }

  /** Other users of the idempotency store do not put under the endpoint's route. */
  predicate Foreign(move: Move) {
    move.Proceed? && move.step.Other? && move.step.op.Put? ==> move.step.op.publication.key.route != ROUTE
  }

  // ----- what is always true -----

  /** Each call makes at most one job and each job has one maker. */
  ghost predicate MakersInvariant(w: World) {
    && (forall id | id in w.made :: w.made[id].job in w.makers && w.makers[w.made[id].job] == id)
    && (forall job | job in w.makers :: w.makers[job] in w.made && w.made[w.makers[job]].job == job)
  }

  ghost predicate CallsInvariant(w: World) {
    && (forall id | id in w.sys.calls :: w.sys.calls[id].key.route == ROUTE)
    && (forall id | id in w.made :: id in w.sys.calls && !Early(w.sys.calls[id].pc))
    && (forall id | id in w.sys.calls && w.sys.calls[id].pc.Publishing? ::
          id in w.made && w.Response(id) == w.sys.calls[id].pc.response)
    && (forall id | id in w.made && w.sys.calls[id].pc.Succeeded? ::
          w.sys.calls[id].pc.birth in w.publishers && w.publishers[w.sys.calls[id].pc.birth] == id)
  }

  predicate Early(pc: Pc) {
    pc.Inserting? || pc.LookingUp? || pc.Working? || pc.Releasing?
  }

  ghost predicate PublisherInvariant(w: World, b: nat)
    requires b in w.publishers
  {
    var id := w.publishers[b];
    && id in w.made && id in w.sys.calls
    && w.sys.calls[id].pc == Succeeded(w.Response(id), b)
    && b in w.sys.published && w.sys.published[b] == w.Response(id)
  }

  /** Every finished lifetime of the route was finished by a call. */
  ghost predicate RouteInvariant(w: World) {
    forall b | b in w.sys.published && b in w.sys.lives && w.sys.lives[b].key.route == ROUTE :: b in w.publishers
  }

  ghost predicate WorldInvariant(w: World) {
    && Invariant(w.sys)
    && MakersInvariant(w)
    && CallsInvariant(w)
    && (forall b | b in w.publishers :: PublisherInvariant(w, b))
    && RouteInvariant(w)
  }

  // ----- where responses come from -----

  /** Only a put writes a first response down, and only for its own key. */
  lemma PutsPublish(sys: System, op: Idempotency.Op, b: nat)
    requires StoreInvariant(sys) && b in Do(sys, op).published && b !in sys.published
    ensures op.Put? && op.publication.key in Do(sys, op).store.records
    ensures b in Do(sys, op).lives && Do(sys, op).lives[b].key == op.publication.key
    ensures Do(sys, op).store.records[op.publication.key].birth == b
  {
    var k := OpKey(op);
    assert k in sys.store.records ==> RecordInvariant(sys, k);
    DoKeepsStore(sys, op);
    assert RecordInvariant(Do(sys, op), k);
    match op
    case Insert(_, digest, token, now) =>
    case Get(_, digest, now) =>
    case Release(_, token) =>
    case Put(p) =>
    case DeletePrincipal(principal) =>
  }

  /** A call that publishes finishes the lifetime that it reports, and that lifetime was not finished before. */
  lemma PublishingFinishes(sys: System, step: Step)
    requires Invariant(sys) && Publishes(sys, step)
    ensures var c, later := sys.calls[step.id], Next(sys, step);
      && later.calls[step.id].pc == Succeeded(c.pc.response, later.calls[step.id].pc.birth)
      && later.calls[step.id].pc.birth !in sys.published
      && later.calls[step.id].pc.birth in later.published
      && later.published[later.calls[step.id].pc.birth] == c.pc.response
      && (forall b | b in later.published && b !in sys.published :: b == later.calls[step.id].pc.birth)
  {
    var c := sys.calls[step.id];
    var op := Idempotency.Op.Put(Publication200(c, c.pc.response, step.ttl, step.now, step.clock));
    PublishNeedsOwnClaim(sys, step.id, step.ttl, step.now, step.clock);
    assert RecordInvariant(sys, c.key);
    StepKeepsInvariant(sys, step);
    assert CallInvariant(Next(sys, step), step.id);
    forall b | b in Do(sys, op).published && b !in sys.published ensures b == sys.store.records[c.key].birth {
      PutsPublish(sys, op, b);
    }
  }

  /** Every other step of a call or of a foreign user finishes no lifetime of the route. */
  lemma OthersFinishNothing(sys: System, step: Step, b: nat)
    requires Invariant(sys) && !Publishes(sys, step) && Foreign(Proceed(step))
    requires forall id | id in sys.calls :: sys.calls[id].key.route == ROUTE
    requires b in Next(sys, step).published && b !in sys.published
    ensures b in Next(sys, step).lives && Next(sys, step).lives[b].key.route != ROUTE
  {
    match step
    case Start(_, _, _, _) =>
    case Insert(id, now) =>
      var c := sys.calls[id];
      PutsPublish(sys, Idempotency.Op.Insert(c.key, c.digest, Some(c.token), now), b);
    case LookUp(id, now) =>
      var c := sys.calls[id];
      PutsPublish(sys, Idempotency.Op.Get(c.key, c.digest, now), b);
    case Enqueue(_, _) =>
    case Break(_) =>
    case Release(id) =>
      PutsPublish(sys, Idempotency.Op.Release(sys.calls[id].key, Some(sys.calls[id].token)), b);
    case Publish(id, ttl, now, clock) =>
      RefusedPutPublishesNothing(sys, id, ttl, now, clock);
    case Other(op) => PutsPublish(sys, op, b);
  }

  lemma RefusedPutPublishesNothing(sys: System, id: nat, ttl: int, now: int, clock: int)
    requires Invariant(sys) && id in sys.calls && sys.calls[id].pc.Publishing?
    requires !Publishes(sys, Step.Publish(id, ttl, now, clock))
    ensures Next(sys, Step.Publish(id, ttl, now, clock)).published == sys.published
  {
    var c := sys.calls[id];
    var p := Publication200(c, c.pc.response, ttl, now, clock);
    assert Idempotency.PutSpec(sys.store, p).1.Err?;
    assert c.key in sys.store.records ==> RecordInvariant(sys, c.key);
  }

  // ----- every move keeps it -----

  /** How far one step can move a call. */
  predicate Moves(pc: Pc, later: Pc) {
    later == pc || (Early(pc) && !later.Publishing?) || (pc.Publishing? && (later.Succeeded? || later.Failed?))
  }

  /** A step adds only calls that are at their start. */
  lemma StepAddsCalls(sys: System, step: Step, id: nat)
    requires id in Next(sys, step).calls && id !in sys.calls
    ensures step.Start? && Next(sys, step).calls[id].pc.Inserting? && Next(sys, step).calls[id].key == step.key
  {
  }

  /** A step moves its own call forward and leaves the others. */
  lemma StepMovesCalls(sys: System, step: Step, id: nat)
    requires id in sys.calls && id in Next(sys, step).calls && !step.Enqueue?
    ensures Next(sys, step).calls[id].key == sys.calls[id].key
    ensures Moves(sys.calls[id].pc, Next(sys, step).calls[id].pc)
  {
    match step
    case Start(_, _, _, _) =>
    case Insert(_, _) =>
    case LookUp(_, _) =>
    case Break(_) =>
    case Release(_) =>
    case Publish(_, _, _, _) =>
    case Other(_) =>
  }

  lemma SuccessIsPublication(sys: System, step: Step, id: nat)
    requires id in sys.calls && id in Next(sys, step).calls
    requires sys.calls[id].pc.Publishing? && Next(sys, step).calls[id].pc.Succeeded?
    ensures Publishes(sys, step) && step.id == id
  {
    match step
    case Start(_, _, _, _) =>
    case Insert(_, _) =>
    case LookUp(_, _) =>
    case Enqueue(_, _) =>
    case Break(_) =>
    case Release(_) =>
    case Publish(_, _, _, _) =>
    case Other(_) =>
  }

  lemma StepOnCalls(sys: System, step: Step, id: nat)
    requires id in Next(sys, step).calls && !step.Enqueue?
    ensures id !in sys.calls ==> step.Start? && Next(sys, step).calls[id].pc.Inserting?
                                 && Next(sys, step).calls[id].key == step.key
    ensures id in sys.calls ==>
      var pc, later := sys.calls[id].pc, Next(sys, step).calls[id].pc;
      && Next(sys, step).calls[id].key == sys.calls[id].key
      && Moves(pc, later)
      && (pc.Publishing? && later.Succeeded? ==> Publishes(sys, step) && step.id == id)
  {
    if id in sys.calls {
      StepMovesCalls(sys, step, id);
      if sys.calls[id].pc.Publishing? && Next(sys, step).calls[id].pc.Succeeded? {
        SuccessIsPublication(sys, step, id);
      }
    } else {
      StepAddsCalls(sys, step, id);
    }
  }

  lemma StepKeepsCalls(sys: System, step: Step, id: nat)
    requires id in sys.calls
    ensures id in Next(sys, step).calls
  {
  }

  /** A step that publishes nothing keeps the publishers and what is said about them. */
  lemma QuietStepKeepsInvariant(w: World, step: Step)
    requires WorldInvariant(w) && Foreign(Proceed(step)) && !step.Enqueue? && !Publishes(w.sys, step)
    requires step.Start? ==> step.key.route == ROUTE
    ensures WorldInvariant(Forward(w, Proceed(step)))
  {
    var v := Forward(w, Proceed(step));
    StepKeepsInvariant(w.sys, step);
    StepExtends(w.sys, step);
    forall id | id in v.sys.calls
      ensures v.sys.calls[id].key.route == ROUTE
      ensures v.sys.calls[id].pc.Publishing? ==> id in v.made && v.Response(id) == v.sys.calls[id].pc.response
    {
      StepOnCalls(w.sys, step, id);
    }
    forall id | id in v.made
      ensures id in v.sys.calls && !Early(v.sys.calls[id].pc)
      ensures v.sys.calls[id].pc.Succeeded? ==>
        v.sys.calls[id].pc.birth in v.publishers && v.publishers[v.sys.calls[id].pc.birth] == id
    {
      StepKeepsCalls(w.sys, step, id);
      StepOnCalls(w.sys, step, id);
    }
    forall b | b in v.publishers ensures PublisherInvariant(v, b) {
      assert PublisherInvariant(w, b);
      StepKeepsCalls(w.sys, step, w.publishers[b]);
      StepOnCalls(w.sys, step, w.publishers[b]);
    }
    forall b | b in v.sys.published && b in v.sys.lives && v.sys.lives[b].key.route == ROUTE ensures b in v.publishers {
      if b !in w.sys.published {
        OthersFinishNothing(w.sys, step, b);
      }
    }
  }

  lemma DoThenGotoExtends(sys: System, op: Idempotency.Op, id: nat, pc: Pc)
    requires StoreInvariant(sys) && id in sys.calls
    ensures Do(sys, op).calls == sys.calls && Extends(sys, Goto(Do(sys, op), id, pc))
  {
    DoKeepsStore(sys, op);
  }

  lemma StepExtends(sys: System, step: Step)
    requires Invariant(sys)
    ensures Extends(sys, Next(sys, step))
  {
    match step
    case Start(_, _, _, _) =>
    case Insert(id, now) =>
      if id in sys.calls && sys.calls[id].pc.Inserting? {
        var c := sys.calls[id];
        DoThenGotoExtends(sys, Idempotency.Op.Insert(c.key, c.digest, Some(c.token), now), id,
                          Next(sys, step).calls[id].pc);
      }
    case LookUp(id, now) =>
      if id in sys.calls && sys.calls[id].pc.LookingUp? {
        var c := sys.calls[id];
        DoThenGotoExtends(sys, Idempotency.Op.Get(c.key, c.digest, now), id, Next(sys, step).calls[id].pc);
      }
    case Enqueue(_, _) =>
    case Break(_) =>
    case Release(id) =>
      if id in sys.calls && sys.calls[id].pc.Releasing? {
        DoThenGotoExtends(sys, Idempotency.Op.Release(sys.calls[id].key, Some(sys.calls[id].token)), id, Pc.Failed);
      }
    case Publish(id, ttl, now, clock) =>
      if id in sys.calls && sys.calls[id].pc.Publishing? {
        var c := sys.calls[id];
        DoThenGotoExtends(sys, Idempotency.Op.Put(Publication200(c, c.pc.response, ttl, now, clock)), id,
                          Next(sys, step).calls[id].pc);
      }
    case Other(op) => DoKeepsStore(sys, op);
  }

  /** What a publication leaves: its call has succeeded, every other call stands where it stood. */
  ghost predicate Published(w: World, v: World, id: nat, b: nat) {
    && v.render == w.render && v.made == w.made && v.makers == w.makers
    && id in w.sys.calls && w.sys.calls[id].pc.Publishing?
    && v.sys.calls.Keys == w.sys.calls.Keys
    && (forall other | other in w.sys.calls :: v.sys.calls[other].key == w.sys.calls[other].key)
    && (forall other | other in w.sys.calls && other != id :: v.sys.calls[other].pc == w.sys.calls[other].pc)
    && v.sys.calls[id].pc == Succeeded(w.sys.calls[id].pc.response, b)
    && v.publishers == w.publishers[b := id]
    && b !in w.sys.published
    && b in v.sys.published && v.sys.published[b] == w.sys.calls[id].pc.response
    && (forall c | c in v.sys.published && c !in w.sys.published :: c == b)
    && Extends(w.sys, v.sys)
  }

  lemma PublishingIsPublished(w: World, step: Step)
    requires Invariant(w.sys) && Publishes(w.sys, step)
    ensures var v := Forward(w, Proceed(step));
      Published(w, v, step.id, v.sys.calls[step.id].pc.birth)
  {
    StepExtends(w.sys, step);
    PublishingFinishes(w.sys, step);
  }

  lemma PublishedKeepsCalls(w: World, v: World, id: nat, b: nat)
    requires CallsInvariant(w) && Published(w, v, id, b) && b !in w.publishers
    ensures CallsInvariant(v)
  {
    forall other | other in v.made && v.sys.calls[other].pc.Succeeded?
      ensures v.sys.calls[other].pc.birth in v.publishers && v.publishers[v.sys.calls[other].pc.birth] == other
    {
      assert other != id ==> w.sys.calls[other].pc.birth in w.publishers;
    }
  }

  lemma PublishedKeepsPublishers(w: World, v: World, id: nat, b: nat)
    requires (forall c | c in w.publishers :: PublisherInvariant(w, c)) && CallsInvariant(w) && Published(w, v, id, b)
    ensures b !in w.publishers && forall c | c in v.publishers :: PublisherInvariant(v, c)
  {
    assert b in w.publishers ==> PublisherInvariant(w, b);
    forall c | c in v.publishers ensures PublisherInvariant(v, c) {
      assert c != b ==> PublisherInvariant(w, c);
    }
  }

  lemma PublishedKeepsRoute(w: World, v: World, id: nat, b: nat)
    requires Invariant(w.sys) && RouteInvariant(w) && Published(w, v, id, b)
    ensures RouteInvariant(v)
  {
    LivesOfPublished(w.sys);
  }

  lemma PublishedKeepsInvariant(w: World, v: World, id: nat, b: nat)
    requires WorldInvariant(w) && Invariant(v.sys) && Published(w, v, id, b)
    ensures WorldInvariant(v)
  {
    PublishedKeepsPublishers(w, v, id, b);
    PublishedKeepsCalls(w, v, id, b);
    PublishedKeepsRoute(w, v, id, b);
  }

  lemma LivesOfPublished(sys: System)
    requires Invariant(sys)
    ensures forall b | b in sys.published :: b in sys.lives
  {
  }

  lemma PublishingKeepsInvariant(w: World, step: Step)
    requires WorldInvariant(w) && Publishes(w.sys, step)
    ensures WorldInvariant(Forward(w, Proceed(step)))
  {
    var v := Forward(w, Proceed(step));
    StepKeepsInvariant(w.sys, step);
    PublishingIsPublished(w, step);
    PublishedKeepsInvariant(w, v, step.id, v.sys.calls[step.id].pc.birth);
  }

  /** The world after a call has made a job. */
  function WithJob(w: World, id: nat, job: Str, quota: Str, queue: Jobs.State): World
    requires id in w.sys.calls
  {
    World(w.render, Goto(w.sys, id, Publishing(w.render(job, quota))), queue, w.made[id := Made(job, quota)],
          w.makers[job := id], w.publishers)
  }

  lemma MakingKeepsMakers(w: World, id: nat, job: Str, quota: Str, queue: Jobs.State)
    requires MakersInvariant(w) && id in w.sys.calls && id !in w.made && job !in w.makers
    ensures MakersInvariant(WithJob(w, id, job, quota, queue))
  {
  }

  lemma MakingKeepsCalls(w: World, id: nat, job: Str, quota: Str, queue: Jobs.State)
    requires CallsInvariant(w) && AtWork(w.sys, id)
    ensures CallsInvariant(WithJob(w, id, job, quota, queue))
  {
  }

  lemma MakingKeepsPublisher(w: World, id: nat, job: Str, quota: Str, queue: Jobs.State, b: nat)
    requires b in w.publishers && PublisherInvariant(w, b) && AtWork(w.sys, id)
    ensures PublisherInvariant(WithJob(w, id, job, quota, queue), b)
  {
  }

  lemma MakingKeepsInvariant(w: World, id: nat, job: Str, quota: Str, queue: Jobs.State)
    requires WorldInvariant(w) && AtWork(w.sys, id) && job !in w.makers
    ensures WorldInvariant(WithJob(w, id, job, quota, queue))
  {
    StepKeepsInvariant(w.sys, Step.Enqueue(id, w.render(job, quota)));
    MakingKeepsMakers(w, id, job, quota, queue);
    MakingKeepsCalls(w, id, job, quota, queue);
    forall b | b in w.publishers ensures PublisherInvariant(WithJob(w, id, job, quota, queue), b) {
      MakingKeepsPublisher(w, id, job, quota, queue, b);
    }
  }

  /** A make does nothing, breaks off, or makes the job. */
  lemma MakeOutcomes(w: World, move: Move)
    requires move.Make?
    ensures || Forward(w, move) == w
            || (AtWork(w.sys, move.id) && Forward(w, move) == Forward(w, Proceed(Break(move.id))))
            || (AtWork(w.sys, move.id) && move.job !in w.makers
                && Forward(w, move) == WithJob(w, move.id, move.job, move.quota, Forward(w, move).jobs))
  {
  }

  lemma MakeKeepsInvariant(w: World, move: Move)
    requires WorldInvariant(w) && move.Make?
    ensures WorldInvariant(Forward(w, move))
  {
    var v := Forward(w, move);
    MakeOutcomes(w, move);
    if v != w {
      QuietStepKeepsInvariant(w, Break(move.id));
      if v != Forward(w, Proceed(Break(move.id))) {
        MakingKeepsInvariant(w, move.id, move.job, move.quota, v.jobs);
      }
    }
  }

  lemma MoveKeepsInvariant(w: World, move: Move)
    requires WorldInvariant(w) && Foreign(move)
    ensures WorldInvariant(Forward(w, move))
  {
    match move
    case Make(_, _, _, _, _, _) => MakeKeepsInvariant(w, move);
    case Proceed(step) =>
      if !step.Enqueue? && (step.Start? ==> step.key.route == ROUTE) {
        if Publishes(w.sys, step) {
          PublishingKeepsInvariant(w, step);
        } else {
          QuietStepKeepsInvariant(w, step);
        }
      }
    case Queue(op) =>
      forall b | b in w.publishers ensures PublisherInvariant(Forward(w, move), b) {
        assert PublisherInvariant(w, b);
      }
  }

  lemma {:induction false} CourseKeepsInvariant(w: World, moves: seq<Move>)
    requires WorldInvariant(w) && forall i | 0 <= i < |moves| :: Foreign(moves[i])
    ensures WorldInvariant(Course(w, moves))
    decreases |moves|
  {
    if moves != [] {
      MoveKeepsInvariant(w, moves[0]);
      CourseKeepsInvariant(Forward(w, moves[0]), moves[1..]);
    }
  }

  // ----- one job, one maker, one publisher -----

  /** Whatever the interleaving of calls, deaths, workers and other users: the response of every successful call renders
      a job that exactly one call enqueued, and that call published it in the lifetime reported. */
  lemma ResponsesComeFromOneJob(render: Render, moves: seq<Move>, id: nat)
    requires forall i | 0 <= i < |moves| :: Foreign(moves[i])
    requires var w := Course(EmptyWorld(render), moves); id in w.sys.calls && w.sys.calls[id].pc.Succeeded?
    ensures var w := Course(EmptyWorld(render), moves);
      var b := w.sys.calls[id].pc.birth;
      && b in w.publishers
      && var m := w.publishers[b];
         && m in w.made && m in w.sys.calls
         && w.sys.calls[id].pc.result == render(w.made[m].job, w.made[m].quota)
         && w.sys.calls[m].pc == Succeeded(w.sys.calls[id].pc.result, b)
         && forall other | other in w.made && w.made[other].job == w.made[m].job :: other == m
  {
    EmptyWorldIsSound(render);
    CourseKeepsInvariant(EmptyWorld(render), moves);
    RenderStays(EmptyWorld(render), moves);
    ResponseIsOfOneJob(Course(EmptyWorld(render), moves), id);
  }

  lemma EmptyWorldIsSound(render: Render)
    ensures WorldInvariant(EmptyWorld(render))
  {
  }

  lemma {:induction false} RenderStays(w: World, moves: seq<Move>)
    ensures Course(w, moves).render == w.render
    decreases |moves|
  {
    if moves != [] {
      RenderStays(Forward(w, moves[0]), moves[1..]);
    }
  }

  lemma ResponseIsOfOneJob(w: World, id: nat)
    requires WorldInvariant(w) && id in w.sys.calls && w.sys.calls[id].pc.Succeeded?
    ensures var b := w.sys.calls[id].pc.birth;
      && b in w.publishers
      && var m := w.publishers[b];
         && m in w.made && m in w.sys.calls
         && w.sys.calls[id].pc.result == w.Response(m)
         && w.sys.calls[m].pc == Succeeded(w.Response(m), b)
         && forall other | other in w.made && w.made[other].job == w.made[m].job :: other == m
  {
    assert CallInvariant(w.sys, id);
    assert PublisherInvariant(w, w.sys.calls[id].pc.birth);
  }

  /** Of all calls that made a job, at most one succeeds against a lifetime of a key's record. */
  lemma OnePublisherPerLifetime(render: Render, moves: seq<Move>, i: nat, j: nat)
    requires forall k | 0 <= k < |moves| :: Foreign(moves[k])
    requires var w := Course(EmptyWorld(render), moves);
      && i in w.made && j in w.made && i in w.sys.calls && j in w.sys.calls
      && w.sys.calls[i].pc.Succeeded? && w.sys.calls[j].pc.Succeeded?
      && w.sys.calls[i].pc.birth == w.sys.calls[j].pc.birth
    ensures i == j
  {
    EmptyWorldIsSound(render);
    CourseKeepsInvariant(EmptyWorld(render), moves);
    PublisherIsUnique(Course(EmptyWorld(render), moves), i, j);
  }

  lemma PublisherIsUnique(w: World, i: nat, j: nat)
    requires CallsInvariant(w) && i in w.made && j in w.made && i in w.sys.calls && j in w.sys.calls
    requires w.sys.calls[i].pc.Succeeded? && w.sys.calls[j].pc.Succeeded?
    requires w.sys.calls[i].pc.birth == w.sys.calls[j].pc.birth
    ensures i == j
  {
  }

  // ----- the jobs are there -----

  /** Without account deletions no job is a tombstone, and every job made is in the queue, for its caller. */
  ghost predicate QueueInvariant(w: World) {
    && (forall job | job in w.jobs.jobs :: !w.jobs.jobs[job].purge)
    && (forall job | job in w.makers ::
          && job in w.jobs.jobs
          && w.makers[job] in w.sys.calls
          && w.jobs.jobs[job].principal == Some(w.sys.calls[w.makers[job]].key.principal))
  }

  lemma QueueKeepsJobs(s: Jobs.State, op: Jobs.Op, job: Str)
    requires !op.Purge? && job in s.jobs && forall id | id in s.jobs :: !s.jobs[id].purge
    ensures job in Jobs.Apply(s, op).jobs && Jobs.Apply(s, op).jobs[job].principal == s.jobs[job].principal
  {
  }

  lemma QueueMakesNoTombstone(s: Jobs.State, op: Jobs.Op)
    requires !op.Purge? && forall id | id in s.jobs :: !s.jobs[id].purge
    ensures forall id | id in Jobs.Apply(s, op).jobs :: !Jobs.Apply(s, op).jobs[id].purge
  {
  }

  lemma MoveKeepsQueue(w: World, move: Move)
    requires QueueInvariant(w) && (move.Queue? ==> !move.op.Purge?)
    ensures QueueInvariant(Forward(w, move))
  {
    match move
    case Make(_, _, _, _, _, _) =>
    case Proceed(step) =>
      if !step.Enqueue? {
        forall id | id in w.sys.calls
          ensures id in Next(w.sys, step).calls && Next(w.sys, step).calls[id].key == w.sys.calls[id].key
        {
          StepKeepsCalls(w.sys, step, id);
          StepOnCalls(w.sys, step, id);
        }
      }
    case Queue(op) =>
      QueueMakesNoTombstone(w.jobs, op);
      forall job | job in w.makers
        ensures job in Jobs.Apply(w.jobs, op).jobs
                && Jobs.Apply(w.jobs, op).jobs[job].principal == w.jobs.jobs[job].principal
      {
        QueueKeepsJobs(w.jobs, op, job);
      }
  }

  /** As long as no account is deleted, every job that a call made is in the queue and belongs to the caller. */
  lemma {:induction false} MadeJobsAreQueued(w: World, moves: seq<Move>)
    requires QueueInvariant(w) && forall i | 0 <= i < |moves| :: moves[i].Queue? ==> !moves[i].op.Purge?
    ensures QueueInvariant(Course(w, moves))
    decreases |moves|
  {
    if moves != [] {
      MoveKeepsQueue(w, moves[0]);
      MadeJobsAreQueued(Forward(w, moves[0]), moves[1..]);
    }
  }
}
