/** Which call of `create_job` owns a lifetime of a key: `claim` answers None to the call whose insert started the
    lifetime, and also to a stray call whose look-up found the row gone. Tokens are fresh, and other users of the
    idempotency store stay away from the endpoint's route. */
module Ownership {
  import opened Text
  import Idempotency
  import Jobs
  import opened CreateJob
  import opened Publication

  /** `starters` records which call's insert started each lifetime, `strays` the calls whose look-up found nothing. */
  datatype Trace = Trace(world: World, starters: map<nat, nat>, strays: set<nat>)

  function EmptyTrace(render: Render): Trace {
    Trace(EmptyWorld(render), map[], {})
  }

  /** The step is an insert that starts a lifetime. */
  predicate Starts(sys: System, step: Step) {
    && step.Insert?
    && step.id in sys.calls
    && sys.calls[step.id].pc.Inserting?
    && FreeAt(sys.store, sys.calls[step.id].key, step.now)
  }

  /** The step is a look-up that finds the row gone. */
  predicate Strays(sys: System, step: Step) {
    && step.LookUp?
    && step.id in sys.calls
    && sys.calls[step.id].pc.LookingUp?
    && FreeAt(sys.store, sys.calls[step.id].key, step.now)
  }

  ghost function Extend(t: Trace, move: Move): Trace {
    var sys := t.world.sys;
    Trace(Forward(t.world, move),
          if move.Proceed? && Starts(sys, move.step) then t.starters[sys.store.births := move.step.id] else t.starters,
          if move.Proceed? && Strays(sys, move.step) then t.strays + {move.step.id} else t.strays)
  }

  ghost function Traced(t: Trace, moves: seq<Move>): Trace
    decreases |moves|
  {
    if moves == [] then t else Traced(Extend(t, moves[0]), moves[1..])
  }

  /** A new call draws a token that no call has, and other users neither claim nor put under the route. */
  ghost predicate Orderly(t: Trace, move: Move) {
    move.Proceed? ==>
      match move.step
      case Start(_, _, _, token) => forall id | id in t.world.sys.calls :: t.world.sys.calls[id].token != token
      case Other(op) =>
        && (op.Put? ==> op.publication.key.route != ROUTE)
        && (op.Insert? ==> op.key.route != ROUTE)
      case _ => true
  }

  ghost predicate AllOrderly(t: Trace, moves: seq<Move>)
    decreases |moves|
  {
    moves == [] || (Orderly(t, moves[0]) && AllOrderly(Extend(t, moves[0]), moves[1..]))
  }

  // ----- what is always true -----

  /** Every row of the route is the claim of the call that started its lifetime. */
  ghost predicate RowOwned(t: Trace, k: Idempotency.Key)
    requires k in t.world.sys.store.records
  {
    var r := t.world.sys.store.records[k];
    && r.birth in t.starters
    && t.starters[r.birth] in t.world.sys.calls
    && t.world.sys.calls[t.starters[r.birth]].key == k
    && r.token == Some(t.world.sys.calls[t.starters[r.birth]].token)
  }

  ghost predicate HasStarted(t: Trace, id: nat) {
    exists b | b in t.starters :: t.starters[b] == id
  }

  /** A call owns a lifetime or is a stray from the moment it goes to work, and never both. */
  ghost predicate CallOwned(t: Trace, id: nat)
    requires id in t.world.sys.calls
  {
    var pc := t.world.sys.calls[id].pc;
    && (pc.Inserting? || pc.LookingUp? ==> id !in t.strays && !HasStarted(t, id))
    && (pc.Working? || pc.Publishing? || pc.Releasing? || id in t.world.made ==>
          id in t.strays || HasStarted(t, id))
    && !(id in t.strays && HasStarted(t, id))
    && (id in t.world.made && pc.Succeeded? ==> pc.birth in t.starters && t.starters[pc.birth] == id)
    && (id in t.strays ==> !pc.Succeeded?)
  }

  ghost predicate Sound(t: Trace) {
    var sys := t.world.sys;
    && (forall id | id in t.world.made :: id in sys.calls && !Early(sys.calls[id].pc))
    && (forall id | id in sys.calls :: sys.calls[id].key.route == ROUTE)
    && (forall i, j | i in sys.calls && j in sys.calls && sys.calls[i].token == sys.calls[j].token :: i == j)
    && (forall b | b in t.starters :: b < sys.store.births && t.starters[b] in sys.calls)
    && (forall b, c | b in t.starters && c in t.starters && t.starters[b] == t.starters[c] :: b == c)
    && (forall id | id in t.strays :: id in sys.calls)
    && (forall k | k in sys.store.records && k.route == ROUTE :: RowOwned(t, k))
    && (forall id | id in sys.calls :: CallOwned(t, id))
  }

  // ----- rows -----

  /** Where a row comes from: it was there, or this insert made it, or a put without a row did. */
  lemma RowOrigin(s: Idempotency.State, op: Idempotency.Op, k: Idempotency.Key)
    requires k in Idempotency.Apply(s, op).records
    ensures var r := Idempotency.Apply(s, op).records[k];
      || (k in s.records && r.birth == s.records[k].birth && r.token == s.records[k].token)
      || (op.Insert? && op.key == k && FreeAt(s, k, op.now) && r.birth == s.births && r.token == op.token)
      || (op.Put? && op.publication.key == k && op.publication.token.None?)
  {
    match op
    case Insert(_, _, _, _) =>
    case Get(_, _, _) =>
    case Release(_, _) =>
    case Put(_) =>
    case DeletePrincipal(_) =>
  }

  /** The store operation of a step, if it has one. */
  function OperationOf(sys: System, step: Step): Idempotency.Op {
    match step
    case Insert(id, now) =>
      if id in sys.calls && sys.calls[id].pc.Inserting? then
        Idempotency.Op.Insert(sys.calls[id].key, sys.calls[id].digest, Some(sys.calls[id].token), now)
      else NOTHING
    case LookUp(id, now) =>
      if id in sys.calls && sys.calls[id].pc.LookingUp? then
        Idempotency.Op.Get(sys.calls[id].key, sys.calls[id].digest, now)
      else NOTHING
    case Release(id) =>
      if id in sys.calls && sys.calls[id].pc.Releasing? then
        Idempotency.Op.Release(sys.calls[id].key, Some(sys.calls[id].token))
      else NOTHING
    case Publish(id, ttl, now, clock) =>
      if id in sys.calls && sys.calls[id].pc.Publishing? then
        Idempotency.Op.Put(Publication200(sys.calls[id], sys.calls[id].pc.response, ttl, now, clock))
      else NOTHING
    case Other(op) => op
    case _ => NOTHING
  }

  /** An operation that changes nothing: a put that is refused. */
  const NOTHING := Idempotency.Op.Put(Idempotency.Publication(Idempotency.Key([], [], []), [], 0, [], None, 0, 0, 0))

  lemma StepOperates(sys: System, step: Step)
    ensures Next(sys, step).store == Idempotency.Apply(sys.store, OperationOf(sys, step))
  {
    match step
    case Start(_, _, _, _) =>
    case Insert(_, _) =>
    case LookUp(_, _) =>
    case Enqueue(_, _) =>
    case Break(_) =>
    case Release(_) =>
    case Publish(_, _, _, _) =>
    case Other(_) =>
  }

  /** Whatever steps a system takes: a row of the route was there before, or a starting insert of its call made it. */
  lemma RouteRowOrigin(t: Trace, step: Step, k: Idempotency.Key)
    requires Orderly(t, Proceed(step)) && k.route == ROUTE && k in Next(t.world.sys, step).store.records
    ensures var sys, r := t.world.sys, Next(t.world.sys, step).store.records[k];
      || (k in sys.store.records && r.birth == sys.store.records[k].birth && r.token == sys.store.records[k].token)
      || (Starts(sys, step) && k == sys.calls[step.id].key && r.birth == sys.store.births
          && r.token == Some(sys.calls[step.id].token))
  {
    StepOperates(t.world.sys, step);
    RowOrigin(t.world.sys.store, OperationOf(t.world.sys, step), k);
    assert ROUTE != [] by {
      assert |ROUTE| == 8;
    }
  }

  lemma BirthsGrow(sys: System, step: Step)
    ensures sys.store.births <= Next(sys, step).store.births
    ensures Starts(sys, step) ==> Next(sys, step).store.births == sys.store.births + 1
  {
    StepOperates(sys, step);
    match OperationOf(sys, step)
    case Insert(_, _, _, _) =>
    case Get(_, _, _) =>
    case Release(_, _) =>
    case Put(_) =>
    case DeletePrincipal(_) =>
  }

  // ----- calls -----

  /** How a step moves one call, and which moves start a lifetime or stray. */
  ghost predicate Passes(sys: System, step: Step, id: nat, pc: Pc, later: Pc) {
    && (Starts(sys, step) && step.id == id ==> pc.Inserting? && later.Working?)
    && (Strays(sys, step) && step.id == id ==> pc.LookingUp? && later.Working?)
    && (|| later == pc
        || (pc.Inserting? && later.Working? && Starts(sys, step) && step.id == id)
        || (pc.Inserting? && later.LookingUp?)
        || (pc.LookingUp? && later.Working? && Strays(sys, step) && step.id == id)
        || (pc.LookingUp? && (later.Succeeded? || later.Failed?))
        || (pc.Working? && later.Releasing?)
        || (pc.Releasing? && later.Failed?)
        || (pc.Publishing? && later.Failed?)
        || (pc.Publishing? && later.Succeeded? && Publishes(sys, step) && step.id == id))
  }

  lemma StepPasses(sys: System, step: Step, id: nat)
    requires id in sys.calls && !step.Enqueue?
    ensures id in Next(sys, step).calls
    ensures Passes(sys, step, id, sys.calls[id].pc, Next(sys, step).calls[id].pc)
  {
    match step
    case Start(_, _, _, _) =>
    case Insert(_, _) =>
    case LookUp(_, _) =>
    case Break(_) =>
    case Release(_) =>
    case Publish(_, _, _, _) =>
    case Other(_) =>
  }

  lemma StepKeepsIdentity(sys: System, step: Step, id: nat)
    requires id in sys.calls
    ensures id in Next(sys, step).calls
    ensures Next(sys, step).calls[id].key == sys.calls[id].key && Next(sys, step).calls[id].token == sys.calls[id].token
  {
    match step
    case Start(_, _, _, _) =>
    case Insert(_, _) =>
    case LookUp(_, _) =>
    case Enqueue(_, _) =>
    case Break(_) =>
    case Release(_) =>
    case Publish(_, _, _, _) =>
    case Other(_) =>
  }

  lemma NewCall(sys: System, step: Step, id: nat)
    requires id in Next(sys, step).calls && id !in sys.calls
    ensures step.Start? && step.id == id
    ensures Next(sys, step).calls[id] == Call(step.key, step.digest, step.token, Pc.Inserting)
  {
  }

  /** A step that `Forward` does take. */
  predicate Effective(step: Step) {
    !step.Enqueue? && (step.Start? ==> step.key.route == ROUTE)
  }

  /** A publication is the starter's. */
  lemma PublisherStarted(t: Trace, step: Step)
    requires Sound(t) && Publishes(t.world.sys, step)
    ensures var b := Next(t.world.sys, step).calls[step.id].pc.birth;
      b in t.starters && t.starters[b] == step.id
  {
    var sys := t.world.sys;
    var c := sys.calls[step.id];
    PublishNeedsOwnClaim(sys, step.id, step.ttl, step.now, step.clock);
    assert RowOwned(t, c.key);
    assert Next(sys, step).calls[step.id].pc.birth == sys.store.records[c.key].birth;
  }

  lemma StartedGrows(t: Trace, move: Move, id: nat)
    requires forall b | b in t.starters :: b < t.world.sys.store.births
    ensures HasStarted(Extend(t, move), id) <==>
      HasStarted(t, id) || (move.Proceed? && Starts(t.world.sys, move.step) && move.step.id == id)
  {
    var u := Extend(t, move);
    if move.Proceed? && Starts(t.world.sys, move.step) {
      var b := t.world.sys.store.births;
      assert b in u.starters && u.starters[b] == move.step.id;
      if HasStarted(t, id) {
        var c :| c in t.starters && t.starters[c] == id;
        assert c in u.starters && u.starters[c] == id;
      }
    }
  }

  lemma CallStaysOwned(t: Trace, step: Step, id: nat)
    requires Sound(t) && Effective(step) && id in t.world.sys.calls
    ensures id in Extend(t, Proceed(step)).world.sys.calls && CallOwned(Extend(t, Proceed(step)), id)
  {
    var u := Extend(t, Proceed(step));
    assert u.world.sys == Next(t.world.sys, step) && u.world.made == t.world.made;
    StepPasses(t.world.sys, step, id);
    StartedGrows(t, Proceed(step), id);
    assert CallOwned(t, id);
    if Publishes(t.world.sys, step) && step.id == id {
      PublisherStarted(t, step);
    }
  }

  lemma NewCallOwned(t: Trace, step: Step, id: nat)
    requires Sound(t) && Effective(step) && id in Next(t.world.sys, step).calls && id !in t.world.sys.calls
    ensures CallOwned(Extend(t, Proceed(step)), id)
  {
    NewCall(t.world.sys, step, id);
    StartedGrows(t, Proceed(step), id);
  }

  lemma OldRowStaysOwned(t: Trace, step: Step, k: Idempotency.Key)
    requires Sound(t) && Effective(step) && k in t.world.sys.store.records && k.route == ROUTE
    requires k in Next(t.world.sys, step).store.records
    requires var r, before := Next(t.world.sys, step).store.records[k], t.world.sys.store.records[k];
      r.birth == before.birth && r.token == before.token
    ensures RowOwned(Extend(t, Proceed(step)), k)
  {
    assert RowOwned(t, k);
    StepKeepsIdentity(t.world.sys, step, t.starters[t.world.sys.store.records[k].birth]);
  }

  lemma StartedRowIsOwned(t: Trace, step: Step, k: Idempotency.Key)
    requires Effective(step) && Starts(t.world.sys, step) && k == t.world.sys.calls[step.id].key
    requires k in Next(t.world.sys, step).store.records
    requires var r := Next(t.world.sys, step).store.records[k];
      r.birth == t.world.sys.store.births && r.token == Some(t.world.sys.calls[step.id].token)
    ensures RowOwned(Extend(t, Proceed(step)), k)
  {
    StepKeepsIdentity(t.world.sys, step, step.id);
  }

  lemma RowStaysOwned(t: Trace, step: Step, k: Idempotency.Key)
    requires Sound(t) && Effective(step) && Orderly(t, Proceed(step))
    requires k in Next(t.world.sys, step).store.records && k.route == ROUTE
    ensures RowOwned(Extend(t, Proceed(step)), k)
  {
    var sys := t.world.sys;
    RouteRowOrigin(t, step, k);
    var r := Next(sys, step).store.records[k];
    if k in sys.store.records && r.birth == sys.store.records[k].birth && r.token == sys.store.records[k].token {
      OldRowStaysOwned(t, step, k);
    } else {
      StartedRowIsOwned(t, step, k);
    }
  }

  lemma StartersStaySound(t: Trace, step: Step)
    requires Sound(t) && Effective(step)
    ensures var u := Extend(t, Proceed(step));
      && (forall b | b in u.starters :: b < u.world.sys.store.births && u.starters[b] in u.world.sys.calls)
      && (forall b, c | b in u.starters && c in u.starters && u.starters[b] == u.starters[c] :: b == c)
  {
    var sys, u := t.world.sys, Extend(t, Proceed(step));
    BirthsGrow(sys, step);
    forall b | b in u.starters ensures b < u.world.sys.store.births && u.starters[b] in u.world.sys.calls {
      StepKeepsIdentity(sys, step, u.starters[b]);
    }
    if Starts(sys, step) {
      assert CallOwned(t, step.id);
      assert forall b | b in t.starters :: t.starters[b] != step.id;
    }
  }

  lemma CallsStaySound(t: Trace, step: Step)
    requires Sound(t) && Effective(step) && Orderly(t, Proceed(step))
    ensures var u := Extend(t, Proceed(step));
      && (forall id | id in u.world.sys.calls :: u.world.sys.calls[id].key.route == ROUTE)
      && (forall i, j | i in u.world.sys.calls && j in u.world.sys.calls
                        && u.world.sys.calls[i].token == u.world.sys.calls[j].token :: i == j)
  {
    var sys, later := t.world.sys, Next(t.world.sys, step);
    forall id | id in later.calls
      ensures later.calls[id].key.route == ROUTE
      ensures later.calls[id].token ==
        (if id in sys.calls then sys.calls[id].token else if step.Start? then step.token else [])
      ensures id !in sys.calls ==> step.Start? && step.id == id
    {
      if id in sys.calls {
        StepKeepsIdentity(sys, step, id);
      } else {
        NewCall(sys, step, id);
      }
    }
  }

  lemma ProceedKeepsSound(t: Trace, step: Step)
    requires Sound(t) && Effective(step) && Orderly(t, Proceed(step))
    ensures Sound(Extend(t, Proceed(step)))
  {
    var sys, u := t.world.sys, Extend(t, Proceed(step));
    assert u.world.sys == Next(sys, step) && u.world.made == t.world.made;
    StartersStaySound(t, step);
    CallsStaySound(t, step);
    forall id | id in u.world.made ensures id in u.world.sys.calls && !Early(u.world.sys.calls[id].pc) {
      StepPasses(sys, step, id);
    }
    forall id | id in u.strays ensures id in u.world.sys.calls {
      StepKeepsIdentity(sys, step, id);
    }
    forall k | k in u.world.sys.store.records && k.route == ROUTE ensures RowOwned(u, k) {
      RowStaysOwned(t, step, k);
    }
    forall id | id in u.world.sys.calls ensures CallOwned(u, id) {
      if id in sys.calls {
        CallStaysOwned(t, step, id);
      } else {
        NewCallOwned(t, step, id);
      }
    }
  }

  /** Making a job moves its call from work to publication. */
  lemma MakeKeepsCallOwned(t: Trace, id: nat, job: Str, quota: Str, queue: Jobs.State, other: nat)
    requires AtWork(t.world.sys, id) && other in t.world.sys.calls && CallOwned(t, other)
    ensures CallOwned(t.(world := WithJob(t.world, id, job, quota, queue)), other)
  {
    var u := t.(world := WithJob(t.world, id, job, quota, queue));
    assert HasStarted(u, other) <==> HasStarted(t, other);
  }

  lemma MakeKeepsRowOwned(t: Trace, id: nat, job: Str, quota: Str, queue: Jobs.State, k: Idempotency.Key)
    requires id in t.world.sys.calls && k in t.world.sys.store.records && RowOwned(t, k)
    ensures RowOwned(t.(world := WithJob(t.world, id, job, quota, queue)), k)
  {
  }

  lemma WithJobIsSound(t: Trace, id: nat, job: Str, quota: Str, queue: Jobs.State)
    requires Sound(t) && AtWork(t.world.sys, id)
    ensures Sound(t.(world := WithJob(t.world, id, job, quota, queue)))
  {
    forall k | k in t.world.sys.store.records && k.route == ROUTE
      ensures RowOwned(t.(world := WithJob(t.world, id, job, quota, queue)), k)
    {
      MakeKeepsRowOwned(t, id, job, quota, queue, k);
    }
    forall other | other in t.world.sys.calls
      ensures CallOwned(t.(world := WithJob(t.world, id, job, quota, queue)), other)
    {
      MakeKeepsCallOwned(t, id, job, quota, queue, other);
    }
  }

  lemma MakeKeepsSound(t: Trace, move: Move)
    requires Sound(t) && move.Make? && AtWork(t.world.sys, move.id) && move.job !in t.world.makers
    requires move.job !in t.world.jobs.jobs && !move.when.Naive?
    ensures Sound(Extend(t, move))
  {
    var queue := MakeIsWithJob(t, move);
    WithJobIsSound(t, move.id, move.job, move.quota, queue);
  }

  lemma MakeIsWithJob(t: Trace, move: Move) returns (queue: Jobs.State)
    requires move.Make? && AtWork(t.world.sys, move.id) && move.job !in t.world.makers
    requires move.job !in t.world.jobs.jobs && !move.when.Naive?
    ensures Extend(t, move) == t.(world := WithJob(t.world, move.id, move.job, move.quota, queue))
  {
    queue := Extend(t, move).world.jobs;
  }

  lemma QueueKeepsSound(t: Trace, op: Jobs.Op)
    requires Sound(t)
    ensures Sound(Extend(t, Queue(op)))
  {
    var u := Extend(t, Queue(op));
    forall k | k in u.world.sys.store.records && k.route == ROUTE ensures RowOwned(u, k) {
      assert RowOwned(t, k);
    }
    forall id | id in u.world.sys.calls ensures CallOwned(u, id) {
      assert CallOwned(t, id);
      StartedGrows(t, Queue(op), id);
    }
  }

  lemma MoveKeepsSound(t: Trace, move: Move)
    requires Sound(t) && Orderly(t, move)
    ensures Sound(Extend(t, move))
  {
    match move
    case Make(id, job, _, _, when, _) =>
      if AtWork(t.world.sys, id) && job !in t.world.makers {
        if job in t.world.jobs.jobs || when.Naive? {
          ProceedKeepsSound(t, Break(id));
          assert Extend(t, move) == Extend(t, Proceed(Break(id)));
        } else {
          MakeKeepsSound(t, move);
        }
      } else {
        assert Extend(t, move) == t;
      }
    case Proceed(step) =>
      if Effective(step) {
        ProceedKeepsSound(t, step);
      } else {
        assert Extend(t, move) == t;
      }
    case Queue(op) => QueueKeepsSound(t, op);
  }

  lemma {:induction false} TraceKeepsSound(t: Trace, moves: seq<Move>)
    requires Sound(t) && AllOrderly(t, moves)
    ensures Sound(Traced(t, moves))
    decreases |moves|
  {
    if moves != [] {
      MoveKeepsSound(t, moves[0]);
      TraceKeepsSound(Extend(t, moves[0]), moves[1..]);
    }
  }

  lemma EmptyTraceIsSound(render: Render)
    ensures Sound(EmptyTrace(render))
  {
  }

  // ----- who makes jobs, and who publishes -----

  /** Every call that made a job started a lifetime of its key, or is a stray whose look-up found the row gone, and never
      both. */
  lemma MakersStartedOrStrayed(render: Render, moves: seq<Move>, id: nat)
    requires AllOrderly(EmptyTrace(render), moves) && id in Traced(EmptyTrace(render), moves).world.made
    ensures var t := Traced(EmptyTrace(render), moves);
      id in t.strays <==> !HasStarted(t, id)
  {
    EmptyTraceIsSound(render);
    TraceKeepsSound(EmptyTrace(render), moves);
    assert CallOwned(Traced(EmptyTrace(render), moves), id);
  }

  /** Two calls of one key both make a job only in different lifetimes that they started, or as strays. */
  lemma TwoJobsNeedTwoLifetimesOrStray(render: Render, moves: seq<Move>, i: nat, j: nat)
    requires AllOrderly(EmptyTrace(render), moves) && i != j
    requires i in Traced(EmptyTrace(render), moves).world.made && j in Traced(EmptyTrace(render), moves).world.made
    ensures var t := Traced(EmptyTrace(render), moves);
      || i in t.strays
      || j in t.strays
      || exists b, c :: b != c && b in t.starters && c in t.starters && t.starters[b] == i && t.starters[c] == j
  {
    MakersStartedOrStrayed(render, moves, i);
    MakersStartedOrStrayed(render, moves, j);
    var t := Traced(EmptyTrace(render), moves);
    if i !in t.strays && j !in t.strays {
      var b :| b in t.starters && t.starters[b] == i;
      var c :| c in t.starters && t.starters[c] == j;
      assert b != c;
    }
  }

  /** A call that made a job and succeeded reports the lifetime that its own insert started; strays never succeed. */
  lemma OnlyStartersSucceed(render: Render, moves: seq<Move>, id: nat)
    requires AllOrderly(EmptyTrace(render), moves) && id in Traced(EmptyTrace(render), moves).world.sys.calls
    requires Traced(EmptyTrace(render), moves).world.sys.calls[id].pc.Succeeded?
    ensures var t := Traced(EmptyTrace(render), moves);
      var birth := t.world.sys.calls[id].pc.birth;
      && id !in t.strays
      && (id in t.world.made ==> birth in t.starters && t.starters[birth] == id)
  {
    EmptyTraceIsSound(render);
    TraceKeepsSound(EmptyTrace(render), moves);
    assert CallOwned(Traced(EmptyTrace(render), moves), id);
  }

  /** In a sound trace a call owns its key if and only if the lifetime that its insert started is still there,
      unfinished. */
  lemma OwnerIsStarter(t: Trace, id: nat)
    requires Sound(t) && id in t.world.sys.calls
    ensures var sys := t.world.sys;
      var c := sys.calls[id];
      OwnsRow(sys, id) <==>
        && c.key in sys.store.records
        && sys.store.records[c.key].status == Idempotency.PENDING
        && sys.store.records[c.key].hash == c.digest
        && sys.store.records[c.key].birth in t.starters
        && t.starters[sys.store.records[c.key].birth] == id
  {
    var c := t.world.sys.calls[id];
    if c.key in t.world.sys.store.records {
      assert RowOwned(t, c.key);
    }
  }

  // ----- two jobs in one lifetime -----

  /** Two calls at work on one key, in the lifetime that call 1 started. */
  ghost predicate BothAtWork(t: Trace, k: Idempotency.Key, digest: Str, b: Str) {
    var sys := t.world.sys;
    && AtWork(sys, 0) && AtWork(sys, 1)
    && sys.calls[0].key == sys.calls[1].key == k && sys.calls[0].digest == sys.calls[1].digest == digest
    && sys.calls[0].token != b && sys.calls[1].token == b
    && t.strays == {0} && 1 in t.starters && t.starters[1] == 1
    && k in sys.store.records && sys.store.records[k].birth == 1
    && sys.store.records[k].status == Idempotency.PENDING && sys.store.records[k].hash == digest
    && sys.store.records[k].token == Some(b) && sys.store.records[k].expires == 2 * Idempotency.CLAIM_LEASE
    && t.world.jobs == Jobs.EMPTY && t.world.makers == map[] && t.world.made == map[]
  }

  lemma OneMove(t: Trace, moves: seq<Move>)
    requires moves != []
    ensures Traced(t, moves) == Traced(Extend(t, moves[0]), moves[1..])
    ensures AllOrderly(t, moves) <==> Orderly(t, moves[0]) && AllOrderly(Extend(t, moves[0]), moves[1..])
  {
  }

  /** Nothing has happened. */
  ghost predicate Blank(t: Trace) {
    && t.world.sys == EMPTY_SYSTEM && t.starters == map[] && t.strays == {}
    && t.world.jobs == Jobs.EMPTY && t.world.makers == map[] && t.world.made == map[]
  }

  /** Call 2 has claimed the key and died. */
  ghost predicate Claimed(t: Trace, k: Idempotency.Key, digest: Str, c: Str) {
    && t.world.sys.calls == map[2 := Call(k, digest, c, Pc.Working)]
    && t.world.sys.store == Idempotency.State(
         map[k := Idempotency.Record(
               digest, Codes("null"), Idempotency.PENDING, 0, Idempotency.CLAIM_LEASE, Some(c), 0)],
         1)
    && t.starters == map[0 := 2] && t.strays == {}
    && t.world.jobs == Jobs.EMPTY && t.world.makers == map[] && t.world.made == map[]
  }

  /** Call 0 has looked up after the row expired. */
  ghost predicate Astray(t: Trace, k: Idempotency.Key, digest: Str, a: Str, c: Str) {
    && t.world.sys.calls == map[2 := Call(k, digest, c, Pc.Working), 0 := Call(k, digest, a, Pc.Working)]
    && t.world.sys.store == Idempotency.State(map[], 1)
    && t.starters == map[0 := 2] && t.strays == {0}
    && t.world.jobs == Jobs.EMPTY && t.world.makers == map[] && t.world.made == map[]
  }

  lemma FirstClaims(t: Trace, k: Idempotency.Key, digest: Str, c: Str)
    requires Blank(t) && Idempotency.ValidKey(k) && k.route == ROUTE
    ensures Claimed(Extend(Extend(t, Proceed(Start(2, k, digest, c))), Proceed(Step.Insert(2, 0))), k, digest, c)
  {
    var u := Extend(t, Proceed(Start(2, k, digest, c)));
    assert u.world.sys.calls == map[2 := Call(k, digest, c, Pc.Inserting)];
    assert u.world.sys.store == Idempotency.EMPTY;
    assert Idempotency.Expire(Idempotency.EMPTY, 0) == Idempotency.EMPTY;
    assert Starts(u.world.sys, Step.Insert(2, 0));
  }

  /** Call 0 has found the row of call 2. */
  ghost predicate Waiting(t: Trace, k: Idempotency.Key, digest: Str, a: Str, c: Str) {
    && t.world.sys.calls == map[2 := Call(k, digest, c, Pc.Working), 0 := Call(k, digest, a, Pc.LookingUp)]
    && k in t.world.sys.store.records && t.world.sys.store.records.Keys == {k}
    && t.world.sys.store.records[k].expires == Idempotency.CLAIM_LEASE && t.world.sys.store.births == 1
    && t.starters == map[0 := 2] && t.strays == {}
    && t.world.jobs == Jobs.EMPTY && t.world.makers == map[] && t.world.made == map[]
  }

  lemma SecondWaits(t: Trace, k: Idempotency.Key, digest: Str, a: Str, c: Str)
    requires Claimed(t, k, digest, c) && Idempotency.ValidKey(k) && k.route == ROUTE
    ensures Waiting(Extend(Extend(t, Proceed(Start(0, k, digest, a))), Proceed(Step.Insert(0, 0))), k, digest, a, c)
  {
    var v := Extend(t, Proceed(Start(0, k, digest, a)));
    assert v.world.sys.calls[0] == Call(k, digest, a, Pc.Inserting) && v.world.sys.store == t.world.sys.store;
    assert Idempotency.Expire(t.world.sys.store, 0) == t.world.sys.store;
  }

  lemma SecondStrays(u: Trace, k: Idempotency.Key, digest: Str, a: Str, c: Str)
    requires Waiting(u, k, digest, a, c)
    ensures Astray(Extend(u, Proceed(LookUp(0, Idempotency.CLAIM_LEASE))), k, digest, a, c)
  {
    assert Strays(u.world.sys, LookUp(0, Idempotency.CLAIM_LEASE));
    assert Idempotency.Expire(u.world.sys.store, Idempotency.CLAIM_LEASE) == Idempotency.State(map[], 1);
  }

  lemma ThirdClaims(t: Trace, k: Idempotency.Key, digest: Str, a: Str, b: Str, c: Str)
    requires Astray(t, k, digest, a, c) && Idempotency.ValidKey(k) && k.route == ROUTE && a != b
    ensures BothAtWork(Extend(Extend(t, Proceed(Start(1, k, digest, b))),
                              Proceed(Step.Insert(1, Idempotency.CLAIM_LEASE))), k, digest, b)
  {
    var u := Extend(t, Proceed(Start(1, k, digest, b)));
    assert u.world.sys.calls[1] == Call(k, digest, b, Pc.Inserting) && u.world.sys.store == t.world.sys.store;
    assert Idempotency.Expire(u.world.sys.store, Idempotency.CLAIM_LEASE) == u.world.sys.store;
    assert Starts(u.world.sys, Step.Insert(1, Idempotency.CLAIM_LEASE));
  }

  /** Both calls have made their job. */
  ghost predicate BothMade(t: Trace, k: Idempotency.Key, digest: Str, b: Str, x: Str, y: Str) {
    var sys := t.world.sys;
    && 0 in sys.calls && 1 in sys.calls
    && sys.calls[0].pc.Publishing? && sys.calls[1].pc.Publishing?
    && sys.calls[0].key == sys.calls[1].key == k && sys.calls[0].digest == sys.calls[1].digest == digest
    && sys.calls[0].token != b && sys.calls[1].token == b
    && t.strays == {0} && 1 in t.starters && t.starters[1] == 1
    && k in sys.store.records && sys.store.records[k].birth == 1
    && sys.store.records[k].status == Idempotency.PENDING && sys.store.records[k].hash == digest
    && sys.store.records[k].token == Some(b) && sys.store.records[k].expires == 2 * Idempotency.CLAIM_LEASE
    && MadeBoth(t, x, y)
  }

  ghost predicate MadeBoth(t: Trace, x: Str, y: Str) {
    && t.world.jobs.jobs.Keys == {x, y}
    && 0 in t.world.made && 1 in t.world.made && t.world.made[0].job == x && t.world.made[1].job == y
  }

  lemma BothMake(t: Trace, k: Idempotency.Key, digest: Str, b: Str, x: Str, y: Str, quota: Str)
    requires BothAtWork(t, k, digest, b) && x != y
    ensures var u := Extend(t, Make(0, x, quota, [], Jobs.Unset, []));
      BothMade(Extend(u, Make(1, y, quota, [], Jobs.Unset, [])), k, digest, b, x, y)
  {
    var u := Extend(t, Make(0, x, quota, [], Jobs.Unset, []));
    assert AtWork(u.world.sys, 1) && y !in u.world.makers && u.world.jobs.jobs.Keys == {x};
  }

  /** Calls 0 and 1 of the key have made the jobs x and y; call 0, a stray, failed, and call 1 succeeded in the lifetime
      that it started. */
  ghost predicate OneReported(t: Trace, k: Idempotency.Key, x: Str, y: Str) {
    var calls := t.world.sys.calls;
    && MadeBoth(t, x, y) && t.strays == {0} && 1 in t.starters && t.starters[1] == 1
    && 0 in calls && 1 in calls && calls[0].key == calls[1].key == k
    && calls[0].pc.Failed?
    && calls[1].pc.Succeeded? && calls[1].pc.birth == 1
  }

  /** The starter publishes, the stray gets the conflict, and both jobs are in the queue. */
  lemma StarterPublishes(t: Trace, k: Idempotency.Key, digest: Str, b: Str, x: Str, y: Str, ttl: int)
    requires BothMade(t, k, digest, b, x, y) && Idempotency.ValidKey(k)
    ensures var lease := Idempotency.CLAIM_LEASE;
      OneReported(Extend(Extend(t, Proceed(Step.Publish(1, ttl, lease, lease))),
                         Proceed(Step.Publish(0, ttl, lease, lease))), k, x, y)
  {
    var lease := Idempotency.CLAIM_LEASE;
    var first, second := Step.Publish(1, ttl, lease, lease), Step.Publish(0, ttl, lease, lease);
    PublishNeedsOwnClaim(t.world.sys, 1, ttl, lease, lease);
    var u := Extend(t, Proceed(first));
    assert u.world.sys.calls[1].pc == Succeeded(t.world.sys.calls[1].pc.response, 1);
    assert u.world.sys.calls[0] == t.world.sys.calls[0];
    assert u.world.sys.store.records[k].token == Some(b);
    assert !OwnsRow(u.world.sys, 0);
    PublishNeedsOwnClaim(u.world.sys, 0, ttl, lease, lease);
  }

  lemma {:induction false} TracedConcat(t: Trace, a: seq<Move>, b: seq<Move>)
    ensures Traced(t, a + b) == Traced(Traced(t, a), b)
    ensures AllOrderly(t, a + b) <==> AllOrderly(t, a) && AllOrderly(Traced(t, a), b)
    decreases |a|
  {
    if a == [] {
      assert a + b == b;
    } else {
      assert (a + b)[0] == a[0] && (a + b)[1..] == a[1..] + b;
      TracedConcat(Extend(t, a[0]), a[1..], b);
    }
  }

  lemma TwoMoves(t: Trace, m: Move, n: Move)
    ensures Traced(t, [m, n]) == Extend(Extend(t, m), n)
    ensures AllOrderly(t, [m, n]) <==> Orderly(t, m) && Orderly(Extend(t, m), n)
  {
    assert [m, n][1..] == [n] && [n][1..] == [];
    OneMove(t, [m, n]);
    OneMove(Extend(t, m), [n]);
  }

  lemma ThreeMoves(t: Trace, m: Move, n: Move, o: Move)
    ensures Traced(t, [m, n, o]) == Extend(Extend(Extend(t, m), n), o)
    ensures AllOrderly(t, [m, n, o]) <==>
      Orderly(t, m) && Orderly(Extend(t, m), n) && Orderly(Extend(Extend(t, m), n), o)
  {
    assert [m, n, o][1..] == [n, o];
    OneMove(t, [m, n, o]);
    TwoMoves(Extend(t, m), n, o);
  }

  lemma FirstRun(t: Trace, k: Idempotency.Key, digest: Str, c: Str) returns (moves: seq<Move>)
    requires Blank(t) && Idempotency.ValidKey(k) && k.route == ROUTE
    ensures AllOrderly(t, moves) && Claimed(Traced(t, moves), k, digest, c)
  {
    moves := [Proceed(Start(2, k, digest, c)), Proceed(Step.Insert(2, 0))];
    FirstClaims(t, k, digest, c);
    TwoMoves(t, moves[0], moves[1]);
  }

  lemma SecondRun(t: Trace, k: Idempotency.Key, digest: Str, a: Str, c: Str) returns (moves: seq<Move>)
    requires Claimed(t, k, digest, c) && Idempotency.ValidKey(k) && k.route == ROUTE && a != c
    ensures AllOrderly(t, moves) && Astray(Traced(t, moves), k, digest, a, c)
  {
    moves := [Proceed(Start(0, k, digest, a)), Proceed(Step.Insert(0, 0)),
              Proceed(LookUp(0, Idempotency.CLAIM_LEASE))];
    SecondWaits(t, k, digest, a, c);
    SecondStrays(Extend(Extend(t, moves[0]), moves[1]), k, digest, a, c);
    ThreeMoves(t, moves[0], moves[1], moves[2]);
  }

  lemma ThirdRun(t: Trace, k: Idempotency.Key, digest: Str, a: Str, b: Str, c: Str) returns (moves: seq<Move>)
    requires Astray(t, k, digest, a, c) && Idempotency.ValidKey(k) && k.route == ROUTE && a != b && b != c
    ensures AllOrderly(t, moves) && BothAtWork(Traced(t, moves), k, digest, b)
  {
    moves := [Proceed(Start(1, k, digest, b)), Proceed(Step.Insert(1, Idempotency.CLAIM_LEASE))];
    ThirdClaims(t, k, digest, a, b, c);
    TwoMoves(t, moves[0], moves[1]);
  }

  lemma FourthRun(t: Trace, k: Idempotency.Key, digest: Str, b: Str, x: Str, y: Str, quota: Str)
    returns (moves: seq<Move>)
    requires BothAtWork(t, k, digest, b) && x != y
    ensures AllOrderly(t, moves) && BothMade(Traced(t, moves), k, digest, b, x, y)
  {
    moves := [Make(0, x, quota, [], Jobs.Unset, []), Make(1, y, quota, [], Jobs.Unset, [])];
    BothMake(t, k, digest, b, x, y, quota);
    TwoMoves(t, moves[0], moves[1]);
  }

  lemma LastRun(t: Trace, k: Idempotency.Key, digest: Str, b: Str, x: Str, y: Str, ttl: int)
    returns (moves: seq<Move>)
    requires BothMade(t, k, digest, b, x, y) && Idempotency.ValidKey(k)
    ensures AllOrderly(t, moves) && OneReported(Traced(t, moves), k, x, y)
  {
    var lease := Idempotency.CLAIM_LEASE;
    moves := [Proceed(Step.Publish(1, ttl, lease, lease)), Proceed(Step.Publish(0, ttl, lease, lease))];
    StarterPublishes(t, k, digest, b, x, y, ttl);
    TwoMoves(t, moves[0], moves[1]);
  }

  lemma Continues(t: Trace, a: seq<Move>, b: seq<Move>) returns (moves: seq<Move>)
    requires AllOrderly(t, a) && AllOrderly(Traced(t, a), b)
    ensures AllOrderly(t, moves) && Traced(t, moves) == Traced(Traced(t, a), b)
  {
    moves := a + b;
    TracedConcat(t, a, b);
  }

  /** For every key, request, fresh tokens and job identifiers there is an orderly run in which two calls of the key both
      make a job although only one lifetime of it was alive when they did; only the call that started it succeeds. */
  lemma TwoJobsInOneLifetime(
    render: Render, k: Idempotency.Key, digest: Str, a: Str, b: Str, c: Str, x: Str, y: Str, quota: Str, ttl: int)
    returns (moves: seq<Move>)
    requires Idempotency.ValidKey(k) && k.route == ROUTE && a != b && b != c && a != c && x != y
    ensures AllOrderly(EmptyTrace(render), moves) && OneReported(Traced(EmptyTrace(render), moves), k, x, y)
  {
    var t := EmptyTrace(render);
    moves := FirstRun(t, k, digest, c);
    var next := SecondRun(Traced(t, moves), k, digest, a, c);
    moves := Continues(t, moves, next);
    next := ThirdRun(Traced(t, moves), k, digest, a, b, c);
    moves := Continues(t, moves, next);
    next := FourthRun(Traced(t, moves), k, digest, b, x, y, quota);
    moves := Continues(t, moves, next);
    next := LastRun(Traced(t, moves), k, digest, b, x, y, ttl);
    moves := Continues(t, moves, next);
  }
}
