/** `meemee/account_deletion.py`: deleting everything of a principal, one store after another, with a durable ledger of
    finished steps. The process may die between any two durable actions; a later attempt resumes. One attempt runs at a
    time. */
module AccountDeletion {
  import opened Text
  import Jobs
  import Idempotency
  import Monitors

  // ----- the stores -----

  datatype Step =
    | MemoryStep | JobsStep | RunsStep | IdempotencyStep | QuotasStep | EntitlementsStep | ApprovalsStep | MonitorsStep
    | PersonalModelStep | ContextStep | WebhooksStep | CompanionStep | BrowserSessionsStep | BrowserNoticesStep
    | ReflectionStep

  const ALWAYS := {MemoryStep, JobsStep, RunsStep}

  const ORDER := [MemoryStep, JobsStep, RunsStep, IdempotencyStep, QuotasStep, EntitlementsStep, ApprovalsStep,
                  MonitorsStep, PersonalModelStep, ContextStep, WebhooksStep, CompanionStep, BrowserSessionsStep,
                  BrowserNoticesStep, ReflectionStep]

  function Present(steps: seq<Step>, configured: set<Step>): (r: seq<Step>)
    ensures forall s :: s in r <==> s in steps && s in configured
  {
    if steps == [] then []
    else (if steps[0] in configured then [steps[0]] else []) + Present(steps[1..], configured)
  }

  /** The steps of an installation: memory, jobs and runs, then the optional stores it has, in order. */
  function StepsOf(configured: set<Step>): seq<Step> {
    Present(ORDER, ALWAYS + configured)
  }

  ghost predicate Distinct(steps: seq<Step>) {
    forall i, j | 0 <= i < j < |steps| :: steps[i] != steps[j]
  }

  lemma {:induction false} PresentIsDistinct(steps: seq<Step>, configured: set<Step>)
    requires Distinct(steps)
    ensures Distinct(Present(steps, configured))
  {
    if steps != [] {
      PresentIsDistinct(steps[1..], configured);
    }
  }

  function Position(s: Step): (k: nat)
    ensures k < |ORDER| && ORDER[k] == s
  {
    match s
    case MemoryStep => 0
    case JobsStep => 1
    case RunsStep => 2
    case IdempotencyStep => 3
    case QuotasStep => 4
    case EntitlementsStep => 5
    case ApprovalsStep => 6
    case MonitorsStep => 7
    case PersonalModelStep => 8
    case ContextStep => 9
    case WebhooksStep => 10
    case CompanionStep => 11
    case BrowserSessionsStep => 12
    case BrowserNoticesStep => 13
    case ReflectionStep => 14
  }

  /** No step is listed twice, whatever stores there are; every configured store has its step. */
  lemma StepsAreDistinct(configured: set<Step>)
    ensures Distinct(StepsOf(configured))
    ensures forall s :: s in StepsOf(configured) <==> s in ALWAYS || s in configured
  {
    var order := ORDER;
    forall k | 0 <= k < |order| ensures Position(order[k]) == k {
      if k < 8 {
        assert k == 0 || k == 1 || k == 2 || k == 3 || k == 4 || k == 5 || k == 6 || k == 7;
      } else {
        assert k == 8 || k == 9 || k == 10 || k == 11 || k == 12 || k == 13 || k == 14;
      }
    }
    PresentIsDistinct(order, ALWAYS + configured);
    forall s ensures s in order {
      assert order[Position(s)] == s;
    }
  }

  lemma PresentStart(steps: seq<Step>, configured: set<Step>)
    requires |steps| >= 3 && steps[0] in configured && steps[1] in configured && steps[2] in configured
    ensures Present(steps, configured) == [steps[0], steps[1], steps[2]] + Present(steps[3..], configured)
  {
    assert steps[1..][0] == steps[1] && steps[1..][1..] == steps[2..];
    assert steps[2..][0] == steps[2] && steps[2..][1..] == steps[3..];
    assert Present(steps[1..], configured) == [steps[1]] + Present(steps[2..], configured);
    assert Present(steps[2..], configured) == [steps[2]] + Present(steps[3..], configured);
  }

  /** Memory goes first, while the jobs and runs that count its entries are still there. */
  lemma MemoryGoesFirst(configured: set<Step>)
    ensures |StepsOf(configured)| >= 3 && StepsOf(configured)[..3] == [MemoryStep, JobsStep, RunsStep]
  {
    var order := ORDER;
    assert order[0] == MemoryStep && order[1] == JobsStep && order[2] == RunsStep;
    PresentStart(order, ALWAYS + configured);
  }

  /** The stores; those that are not modelled elsewhere hold rows with an owner. */
  datatype World = World(
    jobs: Jobs.State, idempotency: Idempotency.State, monitors: Monitors.State, rows: map<(Step, Str), Str>)

  /** What a step does to its store. */
  function Purge(w: World, step: Step, principal: Str, now: Str): World {
    if step == JobsStep then w.(jobs := Jobs.PurgeSpec(w.jobs, principal, now))
    else if step == IdempotencyStep then
      w.(idempotency := Idempotency.DeletePrincipalSpec(w.idempotency, principal))
    else if step == MonitorsStep then w.(monitors := Monitors.DeleteOwnerSpec(w.monitors, principal))
    else w.(rows := map k | k in w.rows && !(k.0 == step && w.rows[k] == principal) :: w.rows[k])
  }

  /** A step's store holds no row of the principal. */
  ghost predicate Clean(w: World, step: Step, principal: Str) {
    if step == JobsStep then forall id | id in w.jobs.jobs :: w.jobs.jobs[id].principal != Some(principal)
    else if step == IdempotencyStep then forall k | k in w.idempotency.records :: k.principal != principal
    else if step == MonitorsStep then
      && (forall i | 0 <= i < |w.monitors.monitors| :: w.monitors.monitors[i].owner != principal)
      && (forall k | k in w.monitors.seen :: k.owner != principal)
      && (forall i | 0 <= i < |w.monitors.log| :: w.monitors.log[i].owner != principal)
    else forall k | k in w.rows && k.0 == step :: w.rows[k] != principal
  }

  /** A step cleans its store. */
  lemma PurgeCleans(w: World, step: Step, principal: Str, now: Str)
    ensures Clean(Purge(w, step, principal, now), step, principal)
  {
    Monitors.MonitorsExceptAt(w.monitors.monitors, principal);
    Monitors.LogExceptAt(w.monitors.log, principal);
  }

  lemma MonitorsStayClean(w: World, principal: Str, now: Str, p: Str)
    requires Clean(w, MonitorsStep, p)
    ensures Clean(Purge(w, MonitorsStep, principal, now), MonitorsStep, p)
  {
    Monitors.MonitorsExceptAt(w.monitors.monitors, principal);
    Monitors.LogExceptAt(w.monitors.log, principal);
    var t := Purge(w, MonitorsStep, principal, now).monitors;
    forall i | 0 <= i < |t.monitors| ensures t.monitors[i].owner != p {
      assert t.monitors[i] in w.monitors.monitors;
    }
    forall i | 0 <= i < |t.log| ensures t.log[i].owner != p {
      assert t.log[i] in w.monitors.log;
    }
  }

  lemma QueueStaysClean(w: World, principal: Str, now: Str, p: Str)
    requires Clean(w, JobsStep, p)
    ensures Clean(Purge(w, JobsStep, principal, now), JobsStep, p)
  {
    var t := Purge(w, JobsStep, principal, now).jobs;
    forall id | id in t.jobs ensures t.jobs[id].principal != Some(p) {
      assert id in w.jobs.jobs && w.jobs.jobs[id].principal != Some(p);
    }
  }

  /** A store's rows do not depend on the other stores. */
  lemma OtherStores(w: World, jobs: Jobs.State, monitors: Monitors.State, s: Step, p: Str)
    requires Clean(w, s, p)
    ensures s != JobsStep ==> Clean(w.(jobs := jobs), s, p)
    ensures s != MonitorsStep ==> Clean(w.(monitors := monitors), s, p)
  {
  }

  /** A step, whoever it is for, dirties no store. */
  lemma PurgeKeepsClean(w: World, step: Step, principal: Str, now: Str, s: Step, p: Str)
    requires Clean(w, s, p)
    ensures Clean(Purge(w, step, principal, now), s, p)
  {
    var t := Purge(w, step, principal, now);
    OtherStores(w, t.jobs, t.monitors, s, p);
    if s == step == MonitorsStep {
      MonitorsStayClean(w, principal, now, p);
    } else if s == step == JobsStep {
      QueueStaysClean(w, principal, now, p);
    }
  }

  /** The rows of everybody else, and the job events of their jobs, are still there. */
  ghost predicate OthersKept(w: World, v: World, principal: Str) {
    && (forall id | id in w.jobs.jobs && w.jobs.jobs[id].principal != Some(principal) ::
          id in v.jobs.jobs && v.jobs.jobs[id] == w.jobs.jobs[id])
    && (forall id | id in w.jobs.jobs && w.jobs.jobs[id].principal != Some(principal) ::
          Jobs.EventsOf(v.jobs.events, id) == Jobs.EventsOf(w.jobs.events, id))
    && (forall k | k in w.idempotency.records && k.principal != principal ::
          k in v.idempotency.records && v.idempotency.records[k] == w.idempotency.records[k])
    && (forall m | m in w.monitors.monitors && m.owner != principal :: m in v.monitors.monitors)
    && (forall e | e in w.monitors.log && e.owner != principal :: e in v.monitors.log)
    && (forall k | k in w.monitors.seen && k.owner != principal ::
          k in v.monitors.seen && v.monitors.seen[k] == w.monitors.seen[k])
    && (forall k | k in w.rows && w.rows[k] != principal :: k in v.rows && v.rows[k] == w.rows[k])
  }

  lemma PurgeKeepsOthers(w: World, step: Step, principal: Str, now: Str)
    ensures OthersKept(w, Purge(w, step, principal, now), principal)
  {
    Monitors.MonitorsExceptAt(w.monitors.monitors, principal);
    Monitors.LogExceptAt(w.monitors.log, principal);
    if step == JobsStep {
      Jobs.PurgeForgetsPrincipal(w.jobs, principal, now);
    }
  }

  lemma OthersKeptIsTransitive(u: World, v: World, w: World, principal: Str)
    requires OthersKept(u, v, principal) && OthersKept(v, w, principal)
    ensures OthersKept(u, w, principal)
  {
  }

  // ----- the ledger -----

  datatype Deletion = Deletion(principal: Str, requestedBy: Str, started: Str, completed: Option<Str>)

  /** account_deletions and the recorded steps. */
  datatype Ledger = Ledger(deletions: map<Str, Deletion>, steps: set<(Str, Step)>)

  predicate IsOpen(l: Ledger, id: Str, principal: Str) {
    id in l.deletions && l.deletions[id].principal == principal && l.deletions[id].completed.None?
  }

  /** At most one deletion of a principal is in progress, and steps belong to deletions. */
  ghost predicate LedgerInvariant(l: Ledger) {
    && (forall a, b, p | IsOpen(l, a, p) && IsOpen(l, b, p) :: a == b)
    && (forall k | k in l.steps :: k.0 in l.deletions)
  }

  function OpenIds(l: Ledger, principal: Str): set<Str> {
    set id | id in l.deletions && IsOpen(l, id, principal)
  }

  /** `open` with the identifier it would draw: an open deletion is reused. Err is a clash of identifiers. */
  ghost function OpenSpec(l: Ledger, principal: Str, requestedBy: Str, ident: Str, now: Str)
    : (r: (Ledger, Result<Str, ()>))
    ensures r.1.Ok? ==> IsOpen(r.0, r.1.value, principal)
    ensures r.1.Ok? && OpenIds(l, principal) != {} ==> r.0 == l
  {
    if OpenIds(l, principal) != {} then
      var id :| id in OpenIds(l, principal);
      (l, Ok(id))
    else if ident in l.deletions then (l, Err(()))
    else (l.(deletions := l.deletions[ident := Deletion(principal, requestedBy, now, None)]), Ok(ident))
  }

  function RecordSpec(l: Ledger, id: Str, step: Step): Ledger {
    l.(steps := l.steps + {(id, step)})
  }

  function CompleteSpec(l: Ledger, id: Str, now: Str): Ledger {
    if id in l.deletions then l.(deletions := l.deletions[id := l.deletions[id].(completed := Some(now))]) else l
  }

  function RecordedFor(l: Ledger, id: Str): set<Step> {
    set k | k in l.steps && k.0 == id :: k.1
  }

  // ----- attempts -----

  /** Where the one attempt stands: in the loop, after a step that is not recorded yet, or returned. */
  datatype Pc =
    | Idle
    | Looping(id: Str, principal: Str, done: set<Step>, todo: seq<Step>)
    | Executed(id: Str, principal: Str, done: set<Step>, step: Step, todo: seq<Step>)
    | Returned(id: Str, principal: Str)

  datatype Machine = Machine(ledger: Ledger, world: World, pc: Pc)

  /** The next durable action of `_run`, or a step that is skipped. */
  function Advance(m: Machine, now: Str): Machine {
    match m.pc
    case Looping(id, p, done, todo) =>
      if todo == [] then Machine(CompleteSpec(m.ledger, id, now), m.world, Returned(id, p))
      else if todo[0] in done then m.(pc := Looping(id, p, done, todo[1..]))
      else Machine(m.ledger, Purge(m.world, todo[0], p, now), Executed(id, p, done, todo[0], todo[1..]))
    case Executed(id, p, done, step, todo) =>
      Machine(RecordSpec(m.ledger, id, step), m.world, Looping(id, p, done, todo))
    case _ => m
  }

  datatype Action =
    | Request(principal: Str, requestedBy: Str, ident: Str, now: Str)  // `purge`
    | Resume(id: Str)  // `resume_incomplete`, one row
    | Continue(now: Str)
    | Crash
    | Environment(world: World)  // everybody else

  function Begin(m: Machine, steps: seq<Step>, id: Str, principal: Str): Machine {
    m.(pc := Looping(id, principal, RecordedFor(m.ledger, id), steps))
  }

  ghost function Apply(m: Machine, steps: seq<Step>, a: Action): Machine {
    match a
    case Request(principal, requestedBy, ident, now) =>
      if principal == [] || m.pc.Looping? || m.pc.Executed? then m
      else
        var (ledger, deletion) := OpenSpec(m.ledger, principal, requestedBy, ident, now);
        if deletion.Ok? then Begin(m.(ledger := ledger), steps, deletion.value, principal) else m
    case Resume(id) =>
      if m.pc.Looping? || m.pc.Executed? || id !in m.ledger.deletions || m.ledger.deletions[id].completed.Some? then m
      else Begin(m, steps, id, m.ledger.deletions[id].principal)
    case Continue(now) => Advance(m, now)
    case Crash => m.(pc := Idle)
    case Environment(world) => m.(world := world)
  }

  ghost function Run(m: Machine, steps: seq<Step>, actions: seq<Action>): Machine
    decreases |actions|
  {
    if actions == [] then m else Run(Apply(m, steps, actions[0]), steps, actions[1..])
  }

  /** The environment adds no row of the principal to a store that has none. */
  ghost predicate Quiet(m: Machine, steps: seq<Step>, actions: seq<Action>, principal: Str)
    decreases |actions|
  {
    actions == [] ||
    (&& (actions[0].Environment? ==>
           forall s | Clean(m.world, s, principal) :: Clean(actions[0].world, s, principal))
     && Quiet(Apply(m, steps, actions[0]), steps, actions[1..], principal))
  }

  ghost predicate Remaining(m: Machine, steps: seq<Step>, id: Str, done: set<Step>, todo: seq<Step>) {
    && Distinct(todo)
    && (forall s | s in todo :: s in steps && (s in done <==> (id, s) in m.ledger.steps))
  }

  /** The ledger is sound, and the attempt under way has every step recorded, just executed or still to do. */
  ghost predicate Structure(m: Machine, steps: seq<Step>) {
    && LedgerInvariant(m.ledger)
    && match m.pc
       case Idle => true
       case Looping(id, principal, done, todo) =>
         && IsOpen(m.ledger, id, principal)
         && Remaining(m, steps, id, done, todo)
         && (forall s | s in steps :: s in todo || (id, s) in m.ledger.steps)
       case Executed(id, principal, done, step, todo) =>
         && IsOpen(m.ledger, id, principal)
         && Remaining(m, steps, id, done, todo)
         && step in steps && step !in todo && (id, step) !in m.ledger.steps
         && (forall s | s in steps :: s == step || s in todo || (id, s) in m.ledger.steps)
       case Returned(id, principal) =>
         && id in m.ledger.deletions && m.ledger.deletions[id].completed.Some?
         && (forall s | s in steps :: (id, s) in m.ledger.steps)
  }

  /** Recorded steps of the principal's open deletion are clean, and so is the step just executed. */
  ghost predicate Swept(m: Machine, steps: seq<Step>, p: Str) {
    && (forall id, s | IsOpen(m.ledger, id, p) && (id, s) in m.ledger.steps :: Clean(m.world, s, p))
    && (m.pc.Executed? && m.pc.principal == p ==> Clean(m.world, m.pc.step, p))
    && (m.pc.Returned? && m.pc.principal == p ==> forall s | s in steps :: Clean(m.world, s, p))
  }

  /** A request reuses the principal's open deletion; only without one it makes a new one, in progress and without a
      recorded step, and only the clash of its identifier with an existing one stops it. */
  lemma OpenExactly(l: Ledger, principal: Str, requestedBy: Str, ident: Str, now: Str)
    ensures var (m, r) := OpenSpec(l, principal, requestedBy, ident, now);
      var reused := exists id | id in l.deletions ::
        l.deletions[id].principal == principal && l.deletions[id].completed == None;
      && (r.Err? <==> !reused && ident in l.deletions)
      && (r.Err? ==> m == l)
      && (reused ==>
            && m == l && r.value in l.deletions
            && l.deletions[r.value].principal == principal && l.deletions[r.value].completed == None)
      && (!reused && r.Ok? ==>
            && r.value == ident && m.steps == l.steps
            && m.deletions == l.deletions[ident := m.deletions[ident]]
            && m.deletions[ident].principal == principal && m.deletions[ident].requestedBy == requestedBy
            && m.deletions[ident].started == now && m.deletions[ident].completed == None)
  {
    forall id | id in l.deletions
      ensures id in OpenIds(l, principal)
        <==> l.deletions[id].principal == principal && l.deletions[id].completed == None
    {
    }
    assert forall id | id in OpenIds(l, principal) :: id in l.deletions;
  }

  /** `open` never makes a second open deletion of a principal, and a new deletion has no recorded step. */
  lemma OpenKeepsLedger(l: Ledger, principal: Str, requestedBy: Str, ident: Str, now: Str)
    requires LedgerInvariant(l)
    ensures var (m, r) := OpenSpec(l, principal, requestedBy, ident, now);
      && LedgerInvariant(m)
      && m.steps == l.steps
      && (forall a, p | IsOpen(m, a, p) :: IsOpen(l, a, p) || (p == principal && RecordedFor(m, a) == {}))
      && (forall a, p | IsOpen(l, a, p) :: IsOpen(m, a, p))
  {
    var (m, r) := OpenSpec(l, principal, requestedBy, ident, now);
    if m != l {
      forall a, p | IsOpen(m, a, p)
        ensures (a == ident && p == principal) || (a != ident && IsOpen(l, a, p) && p != principal)
      {
        assert a != ident && p == principal ==> a in OpenIds(l, principal);
      }
      assert RecordedFor(m, ident) == {};
    }
  }

  lemma CompleteKeepsLedger(l: Ledger, id: Str, now: Str)
    requires LedgerInvariant(l)
    ensures LedgerInvariant(CompleteSpec(l, id, now))
    ensures forall a, p | IsOpen(CompleteSpec(l, id, now), a, p) :: IsOpen(l, a, p)
  {
    SmallerLedger(l, CompleteSpec(l, id, now));
  }

  lemma SmallerLedger(l: Ledger, m: Ledger)
    requires LedgerInvariant(l)
    requires forall a, p | IsOpen(m, a, p) :: IsOpen(l, a, p)
    requires forall k | k in m.steps :: k.0 in m.deletions
    ensures LedgerInvariant(m)
  {
    forall a, b, p | IsOpen(m, a, p) && IsOpen(m, b, p) ensures a == b {
      assert IsOpen(l, a, p) && IsOpen(l, b, p);
    }
  }

  lemma BeginKeepsStructure(m: Machine, steps: seq<Step>, id: Str, principal: Str)
    requires Structure(m, steps) && Distinct(steps) && IsOpen(m.ledger, id, principal)
    ensures Structure(Begin(m, steps, id, principal), steps)
  {
    forall s ensures s in RecordedFor(m.ledger, id) <==> (id, s) in m.ledger.steps {
    }
  }

  lemma AdvanceKeepsStructure(m: Machine, steps: seq<Step>, now: Str)
    requires Structure(m, steps)
    ensures Structure(Advance(m, now), steps)
  {
    var n := Advance(m, now);
    if m.pc.Executed? {
      assert forall a, q :: IsOpen(n.ledger, a, q) <==> IsOpen(m.ledger, a, q);
      SmallerLedger(m.ledger, n.ledger);
    } else if m.pc.Looping? && m.pc.todo == [] {
      CompleteKeepsLedger(m.ledger, m.pc.id, now);
    } else if m.pc.Looping? {
      assert m.pc.todo == [m.pc.todo[0]] + m.pc.todo[1..];
    }
  }

  lemma StepKeepsStructure(m: Machine, steps: seq<Step>, a: Action)
    requires Structure(m, steps) && Distinct(steps)
    ensures Structure(Apply(m, steps, a), steps)
  {
    match a
    case Request(principal, requestedBy, ident, now) =>
      var (ledger, r) := OpenSpec(m.ledger, principal, requestedBy, ident, now);
      OpenKeepsLedger(m.ledger, principal, requestedBy, ident, now);
      if r.Ok? {
        BeginKeepsStructure(m.(ledger := ledger, pc := Idle), steps, r.value, principal);
      }
    case Resume(id) =>
      if id in m.ledger.deletions && m.ledger.deletions[id].completed.None? {
        BeginKeepsStructure(m.(pc := Idle), steps, id, m.ledger.deletions[id].principal);
      }
    case Continue(now) => AdvanceKeepsStructure(m, steps, now);
    case Crash =>
    case Environment(world) =>
  }

  lemma {:induction false} RunKeepsStructure(m: Machine, steps: seq<Step>, actions: seq<Action>)
    requires Structure(m, steps) && Distinct(steps)
    ensures Structure(Run(m, steps, actions), steps)
    decreases |actions|
  {
    if actions != [] {
      StepKeepsStructure(m, steps, actions[0]);
      RunKeepsStructure(Apply(m, steps, actions[0]), steps, actions[1..]);
    }
  }

  /** Whatever crashes, resumes and new requests come, at most one deletion of a principal is ever open. */
  lemma OneOpenDeletion(m: Machine, steps: seq<Step>, actions: seq<Action>, a: Str, b: Str, principal: Str)
    requires LedgerInvariant(m.ledger) && m.pc.Idle? && Distinct(steps)
    requires IsOpen(Run(m, steps, actions).ledger, a, principal) && IsOpen(Run(m, steps, actions).ledger, b, principal)
    ensures a == b
  {
    RunKeepsStructure(m, steps, actions);
  }

  /** The step that the attempt executes next. */
  function Executing(m: Machine): Option<(Str, Step)> {
    if m.pc.Looping? && m.pc.todo != [] && m.pc.todo[0] !in m.pc.done then Some((m.pc.id, m.pc.todo[0])) else None
  }

  /** At any point of any run, the step about to be executed is not a recorded one. */
  lemma RecordedStepsNeverRerun(m: Machine, steps: seq<Step>, actions: seq<Action>)
    requires LedgerInvariant(m.ledger) && m.pc.Idle? && Distinct(steps)
    ensures var n := Run(m, steps, actions);
      Executing(n).Some? ==> Executing(n).value !in n.ledger.steps
  {
    RunKeepsStructure(m, steps, actions);
  }

  // ----- nothing is left -----

  lemma PurgingKeepsSwept(m: Machine, steps: seq<Step>, now: Str, p: Str)
    requires Structure(m, steps) && Swept(m, steps, p) && Executing(m).Some?
    ensures Swept(Advance(m, now), steps, p)
  {
    var step, principal := m.pc.todo[0], m.pc.principal;
    PurgeCleans(m.world, step, principal, now);
    forall s | Clean(m.world, s, p) ensures Clean(Purge(m.world, step, principal, now), s, p) {
      PurgeKeepsClean(m.world, step, principal, now, s, p);
    }
  }

  lemma RequestKeepsSwept(m: Machine, steps: seq<Step>, a: Action, p: Str)
    requires Structure(m, steps) && Swept(m, steps, p) && a.Request?
    ensures Swept(Apply(m, steps, a), steps, p)
  {
    var (ledger, r) := OpenSpec(m.ledger, a.principal, a.requestedBy, a.ident, a.now);
    OpenKeepsLedger(m.ledger, a.principal, a.requestedBy, a.ident, a.now);
    forall id, s | IsOpen(ledger, id, p) && (id, s) in ledger.steps ensures Clean(m.world, s, p) {
      assert s in RecordedFor(ledger, id);
    }
  }

  lemma StepKeepsSwept(m: Machine, steps: seq<Step>, a: Action, p: Str)
    requires Structure(m, steps) && Swept(m, steps, p)
    requires a.Environment? ==> forall s | Clean(m.world, s, p) :: Clean(a.world, s, p)
    ensures Swept(Apply(m, steps, a), steps, p)
  {
    if a.Request? {
      RequestKeepsSwept(m, steps, a, p);
    } else if a.Continue? && Executing(m).Some? {
      PurgingKeepsSwept(m, steps, a.now, p);
    } else if a.Continue? && m.pc.Looping? && m.pc.todo == [] {
      CompleteKeepsLedger(m.ledger, m.pc.id, a.now);
    } else if a.Continue? && m.pc.Executed? {
      assert forall id, q :: IsOpen(Advance(m, a.now).ledger, id, q) <==> IsOpen(m.ledger, id, q);
    }
  }

  lemma {:induction false} RunKeepsSwept(m: Machine, steps: seq<Step>, actions: seq<Action>, p: Str)
    requires Structure(m, steps) && Distinct(steps) && Swept(m, steps, p) && Quiet(m, steps, actions, p)
    ensures Swept(Run(m, steps, actions), steps, p)
    decreases |actions|
  {
    if actions != [] {
      StepKeepsStructure(m, steps, actions[0]);
      StepKeepsSwept(m, steps, actions[0], p);
      RunKeepsSwept(Apply(m, steps, actions[0]), steps, actions[1..], p);
    }
  }

  /** Crash-and-resume equivalence: start with any rows and no open deletion of the principal; after any pattern of
      crashes and resumes during which nobody else writes rows for the principal, an attempt that returns has every
      step recorded and has left no row of the principal in any store. */
  lemma ReturnedMeansErased(m: Machine, steps: seq<Step>, actions: seq<Action>, p: Str)
    requires LedgerInvariant(m.ledger) && m.pc.Idle? && Distinct(steps)
    requires (forall id :: !IsOpen(m.ledger, id, p)) && Quiet(m, steps, actions, p)
    requires Run(m, steps, actions).pc.Returned? && Run(m, steps, actions).pc.principal == p
    ensures var n := Run(m, steps, actions);
      && n.pc.id in n.ledger.deletions && n.ledger.deletions[n.pc.id].completed.Some?
      && (forall s | s in steps :: (n.pc.id, s) in n.ledger.steps)
      && (forall s | s in steps :: Clean(n.world, s, p))
  {
    RunKeepsStructure(m, steps, actions);
    RunKeepsSwept(m, steps, actions, p);
  }

  // ----- one attempt -----

  /** What `_run` does in `life` durable actions or skips, with the clock text standing still. */
  function Advances(m: Machine, life: nat, now: Str): Machine
    decreases life
  {
    if life == 0 then m else Advances(Advance(m, now), life - 1, now)
  }

  /** An attempt that is not interrupted returns. */
  lemma {:induction false} UninterruptedReturns(m: Machine, life: nat, now: Str)
    requires m.pc.Looping? && life > 2 * |m.pc.todo|
    ensures Advances(m, life, now).pc == Returned(m.pc.id, m.pc.principal)
    decreases |m.pc.todo|
  {
    if m.pc.todo == [] {
      ReturnedStays(Advance(m, now), life - 1, now);
    } else if m.pc.todo[0] in m.pc.done {
      UninterruptedReturns(Advance(m, now), life - 1, now);
    } else {
      UninterruptedReturns(Advance(Advance(m, now), now), life - 2, now);
    }
  }

  /** So a deletion that was left open, after a crash or otherwise, is completed by one resume that nothing stops, and a
      request of a deletion under a fresh identifier is completed likewise. */
  lemma ResumedReturns(m: Machine, steps: seq<Step>, id: Str, life: nat, now: Str)
    requires m.pc.Idle? && id in m.ledger.deletions && m.ledger.deletions[id].completed == None
    requires life > 2 * |steps|
    ensures Advances(Apply(m, steps, Resume(id)), life, now).pc == Returned(id, m.ledger.deletions[id].principal)
  {
    UninterruptedReturns(Apply(m, steps, Resume(id)), life, now);
  }

  lemma RequestedReturns(
    m: Machine, steps: seq<Step>, principal: Str, requestedBy: Str, ident: Str, life: nat, now: Str)
    requires m.pc.Idle? && principal != [] && ident !in m.ledger.deletions && life > 2 * |steps|
    ensures var n := Advances(Apply(m, steps, Request(principal, requestedBy, ident, now)), life, now);
      n.pc.Returned? && n.pc.principal == principal
  {
    OpenExactly(m.ledger, principal, requestedBy, ident, now);
    var n := Apply(m, steps, Request(principal, requestedBy, ident, now));
    UninterruptedReturns(n, life, now);
  }

  lemma {:induction false} ReturnedStays(m: Machine, life: nat, now: Str)
    requires m.pc.Returned?
    ensures Advances(m, life, now) == m
    decreases life
  {
    if life > 0 {
      ReturnedStays(m, life - 1, now);
    }
  }

  lemma Completing(m: Machine, life: nat, now: Str)
    requires m.pc.Looping? && m.pc.todo == [] && life > 0
    ensures Advances(m, life, now)
      == Machine(CompleteSpec(m.ledger, m.pc.id, now), m.world, Returned(m.pc.id, m.pc.principal))
  {
    ReturnedStays(Advance(m, now), life - 1, now);
  }

  lemma AdvanceKeepsOthers(m: Machine, now: Str)
    requires !m.pc.Idle?
    ensures OthersKept(m.world, Advance(m, now).world, m.pc.principal)
    ensures Advance(m, now).pc.principal == m.pc.principal && !Advance(m, now).pc.Idle?
  {
    if Executing(m).Some? {
      PurgeKeepsOthers(m.world, m.pc.todo[0], m.pc.principal, now);
    }
  }

  lemma {:induction false} AdvancesKeepOthers(w: World, m: Machine, life: nat, now: Str, principal: Str)
    requires OthersKept(w, m.world, principal) && !m.pc.Idle? && m.pc.principal == principal
    ensures OthersKept(w, Advances(m, life, now).world, principal)
    decreases life
  {
    if life > 0 {
      AdvanceKeepsOthers(m, now);
      OthersKeptIsTransitive(w, m.world, Advance(m, now).world, principal);
      AdvancesKeepOthers(w, Advance(m, now), life - 1, now, principal);
    }
  }

  /** An attempt, interrupted or not, leaves everybody else's rows alone. */
  lemma AttemptKeepsOthers(m: Machine, life: nat, now: Str)
    requires !m.pc.Idle?
    ensures OthersKept(m.world, Advances(m, life, now).world, m.pc.principal)
  {
    AdvancesKeepOthers(m.world, m, life, now, m.pc.principal);
  }

  /** Only deletions of this principal are requested and resumed, and nobody else's rows change from outside. */
  ghost predicate Confined(m: Machine, steps: seq<Step>, actions: seq<Action>, principal: Str)
    decreases |actions|
  {
    actions == [] ||
    (&& match actions[0] {
          case Request(p, _, _, _) => p == principal
          case Resume(id) => id in m.ledger.deletions ==> m.ledger.deletions[id].principal == principal
          case Environment(world) => OthersKept(m.world, world, principal)
          case _ => true
        }
     && Confined(Apply(m, steps, actions[0]), steps, actions[1..], principal))
  }

  lemma StepKeepsOthers(m: Machine, steps: seq<Step>, a: Action, principal: Str)
    requires m.pc.Idle? || m.pc.principal == principal
    requires Confined(m, steps, [a], principal)
    ensures var n := Apply(m, steps, a);
      OthersKept(m.world, n.world, principal) && (n.pc.Idle? || n.pc.principal == principal)
  {
    if a.Continue? && !m.pc.Idle? {
      AdvanceKeepsOthers(m, a.now);
    }
  }

  lemma {:induction false} ActionsKeepOthers(
    w: World, m: Machine, steps: seq<Step>, actions: seq<Action>, principal: Str)
    requires OthersKept(w, m.world, principal) && (m.pc.Idle? || m.pc.principal == principal)
    requires Confined(m, steps, actions, principal)
    ensures OthersKept(w, Run(m, steps, actions).world, principal)
    decreases |actions|
  {
    if actions != [] {
      var n := Apply(m, steps, actions[0]);
      StepKeepsOthers(m, steps, actions[0], principal);
      OthersKeptIsTransitive(w, m.world, n.world, principal);
      ActionsKeepOthers(w, n, steps, actions[1..], principal);
    }
  }

  /** Over any pattern of crashes, resumes and new requests of a principal's deletion, everybody else's rows and the
      events of their jobs stay as they were. */
  lemma RunKeepsOthers(m: Machine, steps: seq<Step>, actions: seq<Action>, principal: Str)
    requires m.pc.Idle? && Confined(m, steps, actions, principal)
    ensures OthersKept(m.world, Run(m, steps, actions).world, principal)
  {
    ActionsKeepOthers(m.world, m, steps, actions, principal);
  }

  // ----- who may write meanwhile -----

  /** Workers and other principals are a quiet environment: no queue operation but the principal's own enqueue makes a
      job of the principal. */
  lemma QueueIsQuiet(w: World, op: Jobs.Op, s: Step, p: Str)
    requires Clean(w, s, p) && !(op.Enqueue? && op.owner == Some(p))
    ensures Clean(w.(jobs := Jobs.Apply(w.jobs, op)), s, p)
  {
  }

  /** Likewise for requests under other principals' keys. */
  lemma RequestsAreQuiet(w: World, op: Idempotency.Op, s: Step, p: Str)
    requires Clean(w, s, p)
    requires op.Insert? ==> op.key.principal != p
    requires op.Put? ==> op.publication.key.principal != p
    ensures Clean(w.(idempotency := Idempotency.Apply(w.idempotency, op)), s, p)
  {
  }

  // ----- the ledger and the purger -----

  class DeletionLedger {
    var deletions: map<Str, Deletion>
    var steps: set<(Str, Step)>

    ghost function Contents(): Ledger
      reads this
    {
      Ledger(deletions, steps)
    }

    ghost predicate Valid()
      reads this
    {
      LedgerInvariant(Contents())
    }

    constructor ()
      ensures Valid() && deletions == map[] && steps == {}
    {
      deletions, steps := map[], {};
    }

    method Open(principal: Str, requestedBy: Str, ident: Str, now: Str) returns (r: Result<Str, ()>)
      requires Valid()
      modifies this
      ensures Valid()
      ensures (Contents(), r) == OpenSpec(old(Contents()), principal, requestedBy, ident, now)
    {
      ghost var before := Contents();
      OpenKeepsLedger(before, principal, requestedBy, ident, now);
      var rest := deletions.Keys;
      while rest != {}
        invariant rest <= deletions.Keys && Contents() == before
        invariant forall id | id in deletions && id !in rest :: !IsOpen(before, id, principal)
        decreases |rest|
      {
        var id :| id in rest;
        if deletions[id].principal == principal && deletions[id].completed.None? {
          assert id in OpenIds(before, principal);
          return Ok(id);
        }
        rest := rest - {id};
      }
      assert OpenIds(before, principal) == {};
      if ident in deletions {
        return Err(());
      }
      deletions := deletions[ident := Deletion(principal, requestedBy, now, None)];
      r := Ok(ident);
    }

    method RecordStep(id: Str, step: Step)
      modifies this
      ensures Contents() == RecordSpec(old(Contents()), id, step)
    {
      steps := steps + {(id, step)};
    }

    method Complete(id: Str, now: Str)
      modifies this
      ensures Contents() == CompleteSpec(old(Contents()), id, now)
      ensures id in old(deletions) ==>
        deletions == old(deletions)[id := old(deletions)[id].(completed := Some(now))] && steps == old(steps)
    {
      if id in deletions {
        deletions := deletions[id := deletions[id].(completed := Some(now))];
      }
    }

    method DoneSteps(id: Str) returns (done: set<Step>)
      ensures forall s :: s in done <==> (id, s) in steps
    {
      done := set k | k in steps && k.0 == id :: k.1;
    }
  }

  /** The databases that a deletion empties. */
  class Stores {
    var world: World

    constructor (world: World)
      ensures this.world == world
    {
      this.world := world;
    }
  }

  class AccountPurger {
    const ledger: DeletionLedger
    const stores: Stores
    const steps: seq<Step>

    constructor (ledger: DeletionLedger, stores: Stores, configured: set<Step>)
      ensures this.ledger == ledger && this.stores == stores && steps == StepsOf(configured) && Distinct(steps)
    {
      this.ledger, this.stores, steps := ledger, stores, StepsOf(configured);
      StepsAreDistinct(configured);
    }

    ghost function At(pc: Pc): Machine
      reads ledger, stores
    {
      Machine(ledger.Contents(), stores.world, pc)
    }

    /** One turn of the loop, unless the process dies in it. */
    method Turn(id: Str, principal: Str, done: set<Step>, step: Step, ghost todo: seq<Step>, life: nat, now: Str)
      returns (alive: bool, left: nat, ghost pc: Pc)
      requires todo != [] && todo[0] == step
      modifies ledger, stores
      ensures Advances(At(pc), left, now) == Advances(old(At(Looping(id, principal, done, todo))), life, now)
      ensures if alive then pc == Looping(id, principal, done, todo[1..]) else left == 0 && !pc.Returned?
    {
      pc := Looping(id, principal, done, todo);
      if life == 0 {
        return false, 0, pc;
      }
      if step in done {
        return true, life - 1, Looping(id, principal, done, todo[1..]);
      }
      stores.world := Purge(stores.world, step, principal, now);
      pc := Executed(id, principal, done, step, todo[1..]);
      if life == 1 {
        return false, 0, pc;
      }
      ledger.RecordStep(id, step);
      alive, left, pc := true, life - 2, Looping(id, principal, done, todo[1..]);
    }

    /** The loop over the steps. */
    method Loop(id: Str, principal: Str, done: set<Step>, steps: seq<Step>, life: nat, now: Str)
      returns (alive: bool, left: nat, ghost pc: Pc)
      modifies ledger, stores
      ensures Advances(At(pc), left, now) == Advances(old(At(Looping(id, principal, done, steps))), life, now)
      ensures if alive then pc == Looping(id, principal, done, []) else left == 0 && !pc.Returned?
    {
      ghost var goal := Advances(At(Looping(id, principal, done, steps)), life, now);
      left, alive := life, true;
      ghost var todo := steps;
      pc := Looping(id, principal, done, todo);
      for i := 0 to |steps|
        invariant alive && todo == steps[i..]
        invariant pc == Looping(id, principal, done, todo)
        invariant Advances(At(pc), left, now) == goal
      {
        assert todo[0] == steps[i] && todo[1..] == steps[i + 1..];
        alive, left, pc := Turn(id, principal, done, steps[i], todo, left, now);
        if !alive {
          return;
        }
        todo := todo[1..];
      }
    }

    /** `_run`, in a process that dies after `life` durable actions or skips; `pc` is where it got to. */
    method Run(id: Str, principal: Str, life: nat, now: Str) returns (finished: bool, ghost pc: Pc)
      modifies ledger, stores
      ensures At(pc) == Advances(Begin(old(At(Idle)), steps, id, principal), life, now)
      ensures finished <==> pc.Returned?
    {
      var done := ledger.DoneSteps(id);
      assert done == RecordedFor(ledger.Contents(), id);
      var alive, left;
      alive, left, pc := Loop(id, principal, done, steps, life, now);
      finished := alive && left > 0;
      if finished {
        Completing(At(pc), left, now);
        ledger.Complete(id, now);
        pc := Returned(id, principal);
      }
    }

    /** `purge`: Err where the source raises before anything is deleted. */
    method PurgeAccount(principal: Str, requestedBy: Str, ident: Str, life: nat, now: Str)
      returns (r: Result<bool, ()>, ghost pc: Pc)
      requires ledger.Valid()
      modifies ledger, stores
      ensures r.Err? ==> At(pc) == old(At(Idle)) && (principal == [] || ident in ledger.deletions)
      ensures principal == [] ==> r.Err?
      ensures r.Ok? ==> (r.value <==> pc.Returned?)
      ensures r.Ok? ==>
        At(pc) == Advances(Apply(old(At(Idle)), steps,
                                                 Request(principal, requestedBy, ident, now)), life, now)
    {
      if principal == [] {
        return Err(()), Idle;
      }
      var deletion := ledger.Open(principal, requestedBy, ident, now);
      if deletion.Err? {
        return Err(()), Idle;
      }
      var finished;
      finished, pc := Run(deletion.value, principal, life, now);
      r := Ok(finished);
    }
  }
}
