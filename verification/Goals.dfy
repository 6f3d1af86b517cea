/** The durable goal graph of `meemee/goals.py`: goals with dependencies, priorities, versions and
    expiring leases. One state value holds both tables; each operation is one transaction on it.
    Instants are integers (microseconds): module Timestamps shows that comparing the stored texts is
    comparing the instants. */
module Goals {
  import opened Text
  import Order

  datatype Status = Pending | Active | Blocked | Completed | Failed | Cancelled

  predicate Terminal(status: Status) {
    status in {Completed, Failed, Cancelled}
  }

  function Successors(status: Status): set<Status> {
    match status
    case Pending => {Active, Blocked, Cancelled}
    case Active => {Pending, Blocked, Completed, Failed, Cancelled}
    case Blocked => {Pending, Active, Cancelled}
    case Completed => {}
    case Failed => {}
    case Cancelled => {}
  }

  /** A row of agency_goals; `rowid` is SQLite's insertion counter for the table. */
  datatype Goal = Goal(
    rowid: nat, principal: Str, description: Str, status: Status, priority: int, parent: Option<Str>,
    context: Str, outcome: Option<Str>, failure: Option<Str>, owner: Option<Str>, until: Option<int>,
    version: int, created: int, updated: int)

  /** A row of agency_goal_dependencies. */
  datatype Edge = Edge(goal: Str, dependency: Str)

  datatype State = State(goals: map<Str, Goal>, edges: set<Edge>, nextRow: nat)

  datatype Error = ValueError | KeyError | GoalConflict | IntegrityError

  const EMPTY := State(map[], {}, 0)

  const SECOND := 1_000_000

  // ----- the queries -----

  predicate Owned(s: State, principal: Str, id: Str) {
    id in s.goals && s.goals[id].principal == principal
  }

  /** No row joins as an uncompleted dependency of `id`. */
  predicate DependenciesDone(s: State, id: Str) {
    forall e | e in s.edges && e.goal == id && e.dependency in s.goals :: s.goals[e.dependency].status == Completed
  }

  predicate LeaseFree(g: Goal, now: int) {
    g.until.None? || g.until.value <= now
  }

  predicate Ready(s: State, principal: Str, now: int, id: Str) {
    && Owned(s, principal, id)
    && s.goals[id].status in {Pending, Active}
    && LeaseFree(s.goals[id], now)
    && DependenciesDone(s, id)
  }

  function ReadySet(s: State, principal: Str, now: int): set<Str> {
    set id | id in s.goals && Ready(s, principal, now, id)
  }

  /** ORDER BY priority DESC, created_at, id. */
  predicate Before(s: State, a: Str, b: Str) {
    && a in s.goals
    && b in s.goals
    && var g, h := s.goals[a], s.goals[b];
       || g.priority > h.priority
       || (g.priority == h.priority && (g.created < h.created || (g.created == h.created && Less(a, b))))
  }

  predicate First(s: State, ids: set<Str>, id: Str) {
    id in ids && forall other | other in ids && other != id :: Before(s, id, other)
  }

  lemma ClaimOrder(s: State, ids: set<Str>)
    requires ids <= s.goals.Keys
    ensures Order.StrictOrder(ids, (a, b) => Before(s, a, b))
  {
    forall a, b | a in ids && b in ids
      ensures a != b ==> Before(s, a, b) || Before(s, b, a)
      ensures Before(s, a, b) ==> a != b && !Before(s, b, a)
    {
      LessIsTotal(a, b);
      LessIsStrict(a, b);
    }
    forall a, b, c | a in ids && b in ids && c in ids && Before(s, a, b) && Before(s, b, c) ensures Before(s, a, c) {
      if Less(a, b) && Less(b, c) {
        LessIsTransitive(a, b, c);
      }
    }
  }

  lemma FirstIsUnique(s: State, ids: set<Str>, a: Str, b: Str)
    requires First(s, ids, a) && First(s, ids, b)
    ensures a == b
  {
    LessIsStrict(a, b);
  }

  /** LIMIT 1 of the ready goals in claim order. */
  ghost function Pick(s: State, principal: Str, now: int): (r: Option<Str>)
    ensures r.None? <==> ReadySet(s, principal, now) == {}
    ensures r.Some? ==> First(s, ReadySet(s, principal, now), r.value)
  {
    var ready := ReadySet(s, principal, now);
    ClaimOrder(s, ready);
    if ready == {} then None else Some(Order.TheFirst(ready, (a, b) => Before(s, a, b)))
  }

  // ----- the operations -----

  datatype NewGoal = NewGoal(
    principal: Str, description: Str, priority: int, parent: Option<Str>, dependsOn: seq<Str>, context: Str,
    id: Str, now: int)

  predicate CreateRefused(n: NewGoal) {
    Strip(n.principal) == [] || Strip(n.description) == [] || n.id in n.dependsOn
  }

  predicate CreateUnowned(s: State, n: NewGoal) {
    || (n.parent.Some? && n.parent.value != [] && !Owned(s, n.principal, n.parent.value))
    || (exists d | d in n.dependsOn :: !Owned(s, n.principal, d))
  }

  function Fresh(n: NewGoal, row: nat): Goal {
    Goal(row, n.principal, Strip(n.description), Pending, n.priority, n.parent, n.context, None, None, None, None, 1,
         n.now, n.now)
  }

  function CreateSpec(s: State, n: NewGoal): (State, Result<Str, Error>) {
    if CreateRefused(n) then (s, Err(ValueError))
    else if CreateUnowned(s, n) then (s, Err(KeyError))
    else if n.id in s.goals || n.parent == Some([]) then (s, Err(IntegrityError))
    else (
      State(s.goals[n.id := Fresh(n, s.nextRow)], s.edges + (set d | d in n.dependsOn :: Edge(n.id, d)), s.nextRow + 1),
      Ok(n.id))
  }

  function Leased(g: Goal, worker: Str, lease: int, now: int): Goal {
    g.(status := Active, owner := Some(worker), until := Some(now + lease * SECOND), version := g.version + 1,
       updated := now)
  }

  ghost function ClaimSpec(s: State, principal: Str, worker: Str, lease: int, now: int)
    : (State, Result<Option<Str>, Error>)
  {
    if Strip(worker) == [] || lease <= 0 then (s, Err(ValueError))
    else
      match Pick(s, principal, now)
      case None => (s, Ok(None))
      case Some(id) => (s.(goals := s.goals[id := Leased(s.goals[id], worker, lease, now)]), Ok(Some(id)))
  }

  predicate Renewable(s: State, principal: Str, id: Str, worker: Str, now: int) {
    && Owned(s, principal, id)
    && var g := s.goals[id];
    && g.status == Active
    && g.owner == Some(worker)
    && g.until.Some?
    && g.until.value > now
  }

  function RenewSpec(s: State, principal: Str, id: Str, worker: Str, lease: int, now: int): (State, Result<(), Error>) {
    if lease <= 0 then (s, Err(ValueError))
    else if !Renewable(s, principal, id, worker, now) then (s, Err(GoalConflict))
    else
      var g := s.goals[id];
      (s.(goals := s.goals[id := g.(until := Some(now + lease * SECOND), version := g.version + 1, updated := now)]),
       Ok(()))
  }

  datatype Move = Move(
    principal: Str, id: Str, status: Status, worker: Option<Str>, expected: Option<int>, outcome: Option<Str>,
    failure: Option<Str>, now: int)

  /** The lease column is set (a Python truth test: the empty text is not). */
  predicate Held(g: Goal) {
    g.owner.Some? && g.owner.value != []
  }

  predicate MoveConflict(s: State, m: Move)
    requires m.id in s.goals
  {
    var g := s.goals[m.id];
    || m.status !in Successors(g.status)
    || (m.expected.Some? && g.version != m.expected.value)
    || (Held(g) && m.worker != g.owner)
    || (Held(g) && LeaseFree(g, m.now))
    || (m.status == Completed && !DependenciesDone(s, m.id))
  }

  function Moved(g: Goal, m: Move): Goal {
    var keep := m.status == Active;
    g.(status := m.status, outcome := m.outcome, failure := m.failure, owner := if keep then g.owner else None,
       until := if keep then g.until else None, version := g.version + 1, updated := m.now)
  }

  function TransitionSpec(s: State, m: Move): (State, Result<(), Error>) {
    if !Owned(s, m.principal, m.id) then (s, Err(KeyError))
    else if MoveConflict(s, m) then (s, Err(GoalConflict))
    else (s.(goals := s.goals[m.id := Moved(s.goals[m.id], m)]), Ok(()))
  }

  // ----- runs -----

  datatype Op =
    | Create(goal: NewGoal)
    | Claim(principal: Str, worker: Str, lease: int, now: int)
    | Renew(principal: Str, id: Str, worker: Str, lease: int, now: int)
    | Transition(move: Move)

  ghost function Apply(s: State, op: Op): State {
    match op
    case Create(n) => CreateSpec(s, n).0
    case Claim(p, w, lease, now) => ClaimSpec(s, p, w, lease, now).0
    case Renew(p, id, w, lease, now) => RenewSpec(s, p, id, w, lease, now).0
    case Transition(m) => TransitionSpec(s, m).0
  }

  /** The existing goal that `op` changes, if it succeeds on one. */
  ghost function Target(s: State, op: Op): Option<Str> {
    match op
    case Create(_) => None
    case Claim(p, w, lease, now) =>
      var r := ClaimSpec(s, p, w, lease, now).1;
      if r.Ok? then r.value else None
    case Renew(p, id, w, lease, now) => if RenewSpec(s, p, id, w, lease, now).1.Ok? then Some(id) else None
    case Transition(m) => if TransitionSpec(s, m).1.Ok? then Some(m.id) else None
  }

  ghost function Run(s: State, ops: seq<Op>): State
    decreases |ops|
  {
    if ops == [] then s else Run(Apply(s, ops[0]), ops[1..])
  }

  /** What every reachable state satisfies. */
  ghost predicate Invariant(s: State) {
    && (forall id | id in s.goals :: RowInvariant(s, id))
    && (forall e | e in s.edges :: EdgeInvariant(s, e))
  }

  ghost predicate RowInvariant(s: State, id: Str)
    requires id in s.goals
  {
    var g := s.goals[id];
    && g.rowid < s.nextRow
    && (g.owner.Some? <==> g.until.Some?)
    && (g.owner.Some? ==> g.owner.value != [] && g.status == Active && DependenciesDone(s, id))
    && (g.status == Completed ==> DependenciesDone(s, id))
  }

  /** Both ends exist, belong to one principal, and the dependency is the older row. */
  ghost predicate EdgeInvariant(s: State, e: Edge) {
    && e.goal in s.goals
    && e.dependency in s.goals
    && s.goals[e.goal].principal == s.goals[e.dependency].principal
    && s.goals[e.dependency].rowid < s.goals[e.goal].rowid
  }

  /** A successful operation raises its target's version by one and touches no other row; every other
      operation touches no row at all, and no edge is ever added to an existing goal. */
  lemma StepFrame(s: State, op: Op)
    ensures var t := Apply(s, op);
      && s.goals.Keys <= t.goals.Keys
      && s.nextRow <= t.nextRow
      && (forall id | id in s.goals ::
        && t.goals[id].rowid == s.goals[id].rowid
        && t.goals[id].principal == s.goals[id].principal
        && (Target(s, op) == Some(id) ==> t.goals[id].version == s.goals[id].version + 1)
        && (Target(s, op) != Some(id) ==> t.goals[id] == s.goals[id]))
      && s.edges <= t.edges
      && (forall e | e in t.edges && e !in s.edges :: e.goal !in s.goals)
      && (Target(s, op).Some? ==> Target(s, op).value in s.goals)
  {
  }

  /** Terminal goals never change again. */
  lemma TerminalIsAbsorbing(s: State, op: Op, id: Str)
    requires Invariant(s) && id in s.goals && Terminal(s.goals[id].status)
    ensures Apply(s, op).goals[id] == s.goals[id]
  {
    if Target(s, op) == Some(id) {
      assert false;
    }
    StepFrame(s, op);
  }

  lemma CreateKeepsInvariant(s: State, n: NewGoal)
    requires Invariant(s)
    ensures Invariant(CreateSpec(s, n).0)
  {
    var t := CreateSpec(s, n).0;
    if t != s {
      forall id | id in t.goals ensures RowInvariant(t, id) {
        if id != n.id {
          assert RowInvariant(s, id);
          assert forall e | e in t.edges && e.goal == id :: e in s.edges;
        }
      }
      forall e | e in t.edges ensures EdgeInvariant(t, e) {
        if e in s.edges {
          assert EdgeInvariant(s, e);
        }
      }
    }
  }

  /** Replacing one goal's row keeps the invariant when the new row is sound and a completed goal stays completed. */
  lemma UpdateKeepsInvariant(s: State, id: Str, g: Goal)
    requires Invariant(s) && id in s.goals
    requires g.rowid == s.goals[id].rowid && g.principal == s.goals[id].principal
    requires s.goals[id].status == Completed ==> g.status == Completed
    requires RowInvariant(s.(goals := s.goals[id := g]), id)
    ensures Invariant(s.(goals := s.goals[id := g]))
  {
    var t := s.(goals := s.goals[id := g]);
    forall other | other in t.goals ensures RowInvariant(t, other) {
      if other != id {
        assert RowInvariant(s, other);
      }
    }
    forall e | e in t.edges ensures EdgeInvariant(t, e) {
      assert EdgeInvariant(s, e);
    }
  }

  lemma ClaimKeepsInvariant(s: State, principal: Str, worker: Str, lease: int, now: int)
    requires Invariant(s)
    ensures Invariant(ClaimSpec(s, principal, worker, lease, now).0)
  {
    var (t, r) := ClaimSpec(s, principal, worker, lease, now);
    if r.Ok? && r.value.Some? {
      var id := r.value.value;
      assert Ready(s, principal, now, id) && RowInvariant(s, id);
      assert forall e | e in s.edges && e.goal == id :: EdgeInvariant(s, e);
      assert worker != [];
      UpdateKeepsInvariant(s, id, Leased(s.goals[id], worker, lease, now));
    }
  }

  lemma RenewKeepsInvariant(s: State, principal: Str, id: Str, worker: Str, lease: int, now: int)
    requires Invariant(s)
    ensures Invariant(RenewSpec(s, principal, id, worker, lease, now).0)
  {
    var t := RenewSpec(s, principal, id, worker, lease, now).0;
    if t != s {
      assert RowInvariant(s, id);
      assert forall e | e in s.edges && e.goal == id :: EdgeInvariant(s, e);
      UpdateKeepsInvariant(s, id, t.goals[id]);
    }
  }

  lemma TransitionKeepsInvariant(s: State, m: Move)
    requires Invariant(s)
    ensures Invariant(TransitionSpec(s, m).0)
  {
    var t := TransitionSpec(s, m).0;
    if t != s {
      assert RowInvariant(s, m.id);
      assert forall e | e in s.edges && e.goal == m.id :: EdgeInvariant(s, e);
      UpdateKeepsInvariant(s, m.id, Moved(s.goals[m.id], m));
    }
  }

  lemma StepKeepsInvariant(s: State, op: Op)
    requires Invariant(s)
    ensures Invariant(Apply(s, op))
  {
    match op
    case Create(n) => CreateKeepsInvariant(s, n);
    case Claim(p, w, lease, now) => ClaimKeepsInvariant(s, p, w, lease, now);
    case Renew(p, id, w, lease, now) => RenewKeepsInvariant(s, p, id, w, lease, now);
    case Transition(m) => TransitionKeepsInvariant(s, m);
  }

  /** Every state reached from a sound one is sound. */
  lemma {:induction false} RunKeepsInvariant(s: State, ops: seq<Op>)
    requires Invariant(s)
    ensures Invariant(Run(s, ops))
    decreases |ops|
  {
    if ops != [] {
      StepKeepsInvariant(s, ops[0]);
      RunKeepsInvariant(Apply(s, ops[0]), ops[1..]);
    }
  }

  // ----- what each operation records -----

  /** A create is accepted exactly for texts that are not blank, an owned parent, if any, owned dependencies and a new
      identifier; it then adds one pending row and its edges to the dependencies, and otherwise nothing. */
  lemma CreateRecords(s: State, n: NewGoal)
    ensures var t := Apply(s, Create(n));
      if && Strip(n.principal) != [] && Strip(n.description) != []
         && n.id !in n.dependsOn && n.id !in s.goals
         && (n.parent.Some? ==>
               n.parent.value != [] && n.parent.value in s.goals && s.goals[n.parent.value].principal == n.principal)
         && (forall d | d in n.dependsOn :: d in s.goals && s.goals[d].principal == n.principal)
      then
        && t.goals.Keys == s.goals.Keys + {n.id}
        && (forall id | id in s.goals :: t.goals[id] == s.goals[id])
        && (forall d :: Edge(n.id, d) in t.edges <==> Edge(n.id, d) in s.edges || d in n.dependsOn)
        && (forall e: Edge | e.goal != n.id :: e in t.edges <==> e in s.edges)
        && t.nextRow == s.nextRow + 1
        && var g := t.goals[n.id];
           && g.rowid == s.nextRow && g.principal == n.principal && g.description == Strip(n.description)
           && g.status == Pending && g.priority == n.priority && g.parent == n.parent && g.context == n.context
           && g.outcome == None && g.failure == None && g.owner == None && g.until == None
           && g.version == 1 && g.created == n.now && g.updated == n.now
      else t == s
  {
  }

  /** While a dependency of a new goal is not completed, whatever happens meanwhile, no claim takes the goal, no
      transition completes it, and it is not completed. */
  lemma NewGoalWaits(s: State, n: NewGoal, ops: seq<Op>, k: nat, d: Str)
    requires Invariant(s) && n.id !in s.goals && n.id in Apply(s, Create(n)).goals
    requires k < |ops| && d in n.dependsOn
    ensures var t := Run(Apply(s, Create(n)), ops[..k]);
      && n.id in t.goals && d in t.goals && n.id in Apply(t, ops[k]).goals
      && (t.goals[d].status != Completed ==>
            && t.goals[n.id].status != Completed
            && Apply(t, ops[k]).goals[n.id].status != Completed
            && (ops[k].Claim? ==> Apply(t, ops[k]).goals[n.id] == t.goals[n.id] && Target(t, ops[k]) != Some(n.id)))
  {
    var s1 := Apply(s, Create(n));
    var t := Run(s1, ops[..k]);
    CreateRecords(s, n);
    StepKeepsInvariant(s, Create(n));
    RunKeepsInvariant(s1, ops[..k]);
    EdgesStay(s1, ops[..k]);
    assert EdgeInvariant(t, Edge(n.id, d)) && RowInvariant(t, n.id);
    StepFrame(t, ops[k]);
    if t.goals[d].status != Completed {
      WaitingStep(t, ops[k], n.id, d);
    }
  }

  lemma {:induction false} EdgesStay(s: State, ops: seq<Op>)
    ensures s.edges <= Run(s, ops).edges
    decreases |ops|
  {
    if ops != [] {
      StepFrame(s, ops[0]);
      EdgesStay(Apply(s, ops[0]), ops[1..]);
    }
  }

  lemma WaitingStep(s: State, op: Op, id: Str, d: Str)
    requires id in s.goals && Edge(id, d) in s.edges && d in s.goals && s.goals[d].status != Completed
    requires s.goals[id].status != Completed
    ensures id in Apply(s, op).goals && Apply(s, op).goals[id].status != Completed
    ensures op.Claim? ==> Apply(s, op).goals[id] == s.goals[id] && Target(s, op) != Some(id)
  {
    StepFrame(s, op);
    assert !DependenciesDone(s, id);
  }

  /** Which statuses follow which: a goal that is not terminal can take every other status, but only an active one can
      complete or fail. */
  lemma OnlyActiveGoalsFinish(from: Status, to: Status)
    ensures to in Successors(from) <==>
      && from != Completed && from != Failed && from != Cancelled
      && to != from
      && (to == Completed || to == Failed ==> from == Active)
  {
  }

  /** A claim finds nothing if and only if every goal of the principal that is pending or active waits for a
      dependency or is leased beyond now. */
  lemma NothingToClaim(s: State, principal: Str, worker: Str, lease: int, now: int)
    ensures var (t, r) := ClaimSpec(s, principal, worker, lease, now);
      && (r.Err? <==> Strip(worker) == [] || lease <= 0)
      && (r.Err? ==> r == Err(ValueError) && t == s)
      && (r == Ok(None) ==> t == s)
      && (r == Ok(None) <==> Strip(worker) != [] && lease > 0 && forall id |
            && id in s.goals && s.goals[id].principal == principal
            && (s.goals[id].status == Pending || s.goals[id].status == Active) ::
              || (s.goals[id].until.Some? && s.goals[id].until.value > now)
              || (exists e | e in s.edges && e.goal == id ::
                    e.dependency in s.goals && s.goals[e.dependency].status != Completed))
  {
    var ready := ReadySet(s, principal, now);
    forall id | && id in s.goals && s.goals[id].principal == principal
                && (s.goals[id].status == Pending || s.goals[id].status == Active)
      ensures id !in ready <==>
        || (s.goals[id].until.Some? && s.goals[id].until.value > now)
        || (exists e | e in s.edges && e.goal == id ::
              e.dependency in s.goals && s.goals[e.dependency].status != Completed)
    {
      assert id in ready <==> LeaseFree(s.goals[id], now) && DependenciesDone(s, id);
    }
    assert forall id | id in ready ::
      s.goals[id].principal == principal && (s.goals[id].status == Pending || s.goals[id].status == Active);
  }

  /** What a claim that returns a goal has found and written: no goal that could be claimed as well has a higher
      priority, or the same and an earlier creation, or the same and a lesser identifier. */
  lemma ClaimRecords(s: State, principal: Str, worker: Str, lease: int, now: int, id: Str)
    requires ClaimSpec(s, principal, worker, lease, now).1 == Ok(Some(id))
    ensures id in s.goals && s.goals[id].principal == principal
    ensures s.goals[id].status == Pending || s.goals[id].status == Active
    ensures s.goals[id].until.Some? ==> s.goals[id].until.value <= now
    ensures forall d | Edge(id, d) in s.edges && d in s.goals :: s.goals[d].status == Completed
    ensures forall other | Ready(s, principal, now, other) && other != id ::
      && s.goals[other].priority <= s.goals[id].priority
      && (s.goals[other].priority == s.goals[id].priority ==>
            && s.goals[id].created <= s.goals[other].created
            && (s.goals[id].created == s.goals[other].created ==> Less(id, other)))
    ensures var t := ClaimSpec(s, principal, worker, lease, now).0;
      && t == s.(goals := t.goals) && t.goals.Keys == s.goals.Keys
      && (forall other | other in s.goals && other != id :: t.goals[other] == s.goals[other])
      && t.goals[id].status == Active && t.goals[id].owner == Some(worker)
      && t.goals[id].until == Some(now + lease * 1_000_000)
      && t.goals[id].version == s.goals[id].version + 1 && t.goals[id].updated == now
      && KeptByLease(s.goals[id], t.goals[id])
  {
    var ready := ReadySet(s, principal, now);
    assert First(s, ready, id);
    forall other | Ready(s, principal, now, other) && other != id ensures Before(s, id, other) {
      assert other in ready;
    }
  }

  /** The columns that no claim, renewal or transition writes. */
  ghost predicate KeptByMove(g: Goal, h: Goal) {
    && h.rowid == g.rowid && h.principal == g.principal && h.description == g.description
    && h.priority == g.priority && h.parent == g.parent && h.context == g.context && h.created == g.created
  }

  ghost predicate KeptByLease(g: Goal, h: Goal) {
    KeptByMove(g, h) && h.outcome == g.outcome && h.failure == g.failure
  }

  /** A renewal succeeds exactly for the holder of a live lease and moves its end to now + lease. */
  lemma RenewRecords(s: State, principal: Str, id: Str, worker: Str, lease: int, now: int)
    ensures var (t, r) := RenewSpec(s, principal, id, worker, lease, now);
      && (r == Err(ValueError) <==> lease <= 0)
      && (r.Ok? <==>
            && lease > 0 && id in s.goals && s.goals[id].principal == principal && s.goals[id].status == Active
            && s.goals[id].owner == Some(worker) && s.goals[id].until.Some? && now < s.goals[id].until.value)
      && (r.Err? ==> t == s && r.error in {ValueError, GoalConflict})
      && (r.Ok? ==>
            && t == s.(goals := t.goals) && t.goals.Keys == s.goals.Keys
            && (forall other | other in s.goals && other != id :: t.goals[other] == s.goals[other])
            && t.goals[id].status == Active && t.goals[id].owner == Some(worker)
            && t.goals[id].until == Some(now + lease * 1_000_000)
            && t.goals[id].version == s.goals[id].version + 1 && t.goals[id].updated == now
            && KeptByLease(s.goals[id], t.goals[id]))
  {
  }

  /** A transition of an existing goal succeeds exactly if the status may follow, the version is the expected one, a
      lease is the caller's and alive, and, to complete it, all dependencies are completed. It writes outcome and
      failure, and keeps the lease only on an active goal. */
  lemma TransitionRecords(s: State, m: Move)
    requires Invariant(s)
    ensures var (t, r) := TransitionSpec(s, m);
      && (r == Err(KeyError) <==> m.id !in s.goals || s.goals[m.id].principal != m.principal)
      && (r.Ok? <==>
            && m.id in s.goals && s.goals[m.id].principal == m.principal
            && m.status in Successors(s.goals[m.id].status)
            && (m.expected.Some? ==> s.goals[m.id].version == m.expected.value)
            && (s.goals[m.id].owner.Some? ==> m.worker == s.goals[m.id].owner && m.now < s.goals[m.id].until.value)
            && (m.status == Completed ==>
                  forall d | Edge(m.id, d) in s.edges :: d in s.goals && s.goals[d].status == Completed))
      && (r.Err? ==> t == s && r.error in {KeyError, GoalConflict})
      && (r.Ok? ==>
            && t == s.(goals := t.goals) && t.goals.Keys == s.goals.Keys
            && (forall other | other in s.goals && other != m.id :: t.goals[other] == s.goals[other])
            && t.goals[m.id].status == m.status && t.goals[m.id].outcome == m.outcome
            && t.goals[m.id].failure == m.failure && t.goals[m.id].updated == m.now
            && t.goals[m.id].version == s.goals[m.id].version + 1
            && t.goals[m.id].owner == (if m.status == Active then s.goals[m.id].owner else None)
            && t.goals[m.id].until == (if m.status == Active then s.goals[m.id].until else None)
            && KeptByMove(s.goals[m.id], t.goals[m.id]))
  {
    if m.id in s.goals {
      assert RowInvariant(s, m.id);
      forall d | Edge(m.id, d) in s.edges ensures d in s.goals {
        assert EdgeInvariant(s, Edge(m.id, d));
      }
      assert DependenciesDone(s, m.id) <==>
        forall d | Edge(m.id, d) in s.edges :: d in s.goals && s.goals[d].status == Completed by {
        assert forall e: Edge | e.goal == m.id :: e == Edge(m.id, e.dependency);
      }
    }
  }

  // ----- the dependency graph -----

  ghost predicate Path(edges: set<Edge>, p: seq<Str>) {
    && p != []
    && forall i | 0 <= i < |p| - 1 :: Edge(p[i], p[i + 1]) in edges
  }

  ghost predicate PathBetween(edges: set<Edge>, p: seq<Str>, a: Str, b: Str) {
    Path(edges, p) && p[0] == a && p[|p| - 1] == b
  }

  /** `b` is in the dependency closure of `a`, `a` itself included. */
  ghost predicate DependsOn(edges: set<Edge>, a: Str, b: Str) {
    exists p :: PathBetween(edges, p, a, b)
  }

  /** Along any path the rows get strictly older, so no goal depends on itself through others. */
  lemma {:induction false} GraphIsAcyclic(s: State, p: seq<Str>)
    requires Invariant(s) && Path(s.edges, p) && |p| > 1
    ensures p[0] in s.goals && p[|p| - 1] in s.goals
    ensures s.goals[p[|p| - 1]].rowid < s.goals[p[0]].rowid
    ensures p[0] != p[|p| - 1]
    decreases |p|
  {
    assert EdgeInvariant(s, Edge(p[0], p[1]));
    if |p| > 2 {
      assert p[1..][|p| - 2] == p[|p| - 1];
      GraphIsAcyclic(s, p[1..]);
    }
  }

  /** A completed goal's whole transitive dependency closure is completed. */
  lemma {:induction false} CompletedClosure(s: State, p: seq<Str>)
    requires Invariant(s) && Path(s.edges, p) && p[0] in s.goals && s.goals[p[0]].status == Completed
    ensures forall i | 0 <= i < |p| :: p[i] in s.goals && s.goals[p[i]].status == Completed
    decreases |p|
  {
    if |p| > 1 {
      assert RowInvariant(s, p[0]) && EdgeInvariant(s, Edge(p[0], p[1]));
      CompletedClosure(s, p[1..]);
      forall i | 0 <= i < |p| ensures p[i] in s.goals && s.goals[p[i]].status == Completed {
        if i > 0 {
          assert p[i] == p[1..][i - 1];
        }
      }
    }
  }

  lemma DependencySafety(s: State, a: Str, b: Str)
    requires Invariant(s) && a in s.goals && s.goals[a].status == Completed && DependsOn(s.edges, a, b)
    ensures b in s.goals && s.goals[b].status == Completed
  {
    var p :| PathBetween(s.edges, p, a, b);
    CompletedClosure(s, p);
  }

  // ----- progress -----

  /** Neither blocked, failed nor cancelled, and nobody holds a live lease on it. */
  ghost predicate Unobstructed(s: State, id: Str, now: int) {
    && id in s.goals
    && s.goals[id].status in {Pending, Active, Completed}
    && LeaseFree(s.goals[id], now)
  }

  ghost predicate Workable(s: State, principal: Str, now: int, id: Str) {
    && Owned(s, principal, id)
    && s.goals[id].status != Completed
    && forall b | DependsOn(s.edges, id, b) :: Unobstructed(s, b, now)
  }

  lemma {:induction false} WorkableLeadsToReady(s: State, principal: Str, now: int, id: Str)
    requires Invariant(s) && Workable(s, principal, now, id)
    ensures ReadySet(s, principal, now) != {}
    decreases s.goals[id].rowid
  {
    assert PathBetween(s.edges, [id], id, id);
    assert Unobstructed(s, id, now);
    if DependenciesDone(s, id) {
      assert id in ReadySet(s, principal, now);
    } else {
      var e :| e in s.edges && e.goal == id && e.dependency in s.goals && s.goals[e.dependency].status != Completed;
      assert EdgeInvariant(s, e);
      forall b | DependsOn(s.edges, e.dependency, b) ensures Unobstructed(s, b, now) {
        var p :| PathBetween(s.edges, p, e.dependency, b);
        assert PathBetween(s.edges, [id] + p, id, b);
      }
      WorkableLeadsToReady(s, principal, now, e.dependency);
    }
  }

  lemma ReadyIsWorkable(s: State, principal: Str, now: int, id: Str)
    requires Invariant(s) && Ready(s, principal, now, id)
    ensures Workable(s, principal, now, id)
  {
    forall b | DependsOn(s.edges, id, b) ensures Unobstructed(s, b, now) {
      var p :| PathBetween(s.edges, p, id, b);
      if |p| > 1 {
        assert EdgeInvariant(s, Edge(p[0], p[1]));
        assert PathBetween(s.edges, p[1..], p[1], b);
        DependencySafety(s, p[1], b);
        assert RowInvariant(s, b);
      }
    }
  }

  /** A worker's claim finds a goal exactly when some uncompleted goal of the principal has a dependency
      closure that is neither blocked, failed, cancelled nor leased: no deadlock is possible. */
  lemma Progress(s: State, principal: Str, worker: Str, lease: int, now: int)
    requires Invariant(s) && Strip(worker) != [] && lease > 0
    ensures ClaimSpec(s, principal, worker, lease, now).1.Ok?
    ensures ClaimSpec(s, principal, worker, lease, now).1.value.Some? <==> exists id :: Workable(s, principal, now, id)
  {
    if id :| Workable(s, principal, now, id) {
      WorkableLeadsToReady(s, principal, now, id);
    }
    var r := Pick(s, principal, now);
    if r.Some? {
      ReadyIsWorkable(s, principal, now, r.value);
    }
  }

  // ----- leases -----

  ghost predicate HeldBy(s: State, id: Str, worker: Str) {
    id in s.goals && s.goals[id].owner == Some(worker)
  }

  /** A goal with an expired lease is a claim candidate at once, while renewals and transitions of it are
      refused to everyone: leases never get stuck. */
  lemma ExpiredLeaseIsReclaimable(s: State, id: Str, worker: Str, now: int)
    requires Invariant(s) && HeldBy(s, id, worker) && LeaseFree(s.goals[id], now)
    ensures Ready(s, s.goals[id].principal, now, id)
    ensures forall m: Move | m.id == id && m.now >= now :: TransitionSpec(s, m).1.Err?
    ensures forall p, w, lease, at | at >= now :: RenewSpec(s, p, id, w, lease, at).1.Err?
  {
    assert RowInvariant(s, id);
  }

  function Clock(op: Op): int {
    match op
    case Create(n) => n.now
    case Claim(_, _, _, now) => now
    case Renew(_, _, _, _, now) => now
    case Transition(m) => m.now
  }

  /** No operation of the run meets an expired lease on `id`, and none is the holder's own transition of it. */
  ghost predicate LeaseSpan(s: State, ops: seq<Op>, id: Str, worker: Str)
    requires Invariant(s) && id in s.goals
    decreases |ops|
  {
    ops == [] || (
      && (ops[0].Create? || !LeaseFree(s.goals[id], Clock(ops[0])))
      && !(ops[0].Transition? && ops[0].move.worker == Some(worker) && Target(s, ops[0]) == Some(id))
      && (StepFrame(s, ops[0]); StepKeepsInvariant(s, ops[0]);
          LeaseSpan(Apply(s, ops[0]), ops[1..], id, worker)))
  }

  lemma HeldStep(s: State, op: Op, id: Str, worker: Str)
    requires Invariant(s) && HeldBy(s, id, worker)
    requires op.Create? || !LeaseFree(s.goals[id], Clock(op))
    requires !(op.Transition? && op.move.worker == Some(worker) && Target(s, op) == Some(id))
    ensures HeldBy(Apply(s, op), id, worker)
    ensures Target(s, op) == Some(id) ==> op.Renew? && op.worker == worker
  {
    assert RowInvariant(s, id);
    StepFrame(s, op);
  }

  /** From a successful claim until the lease, renewals included, expires or the holder transitions the goal,
      the holder keeps it and the only operations that succeed on it are the holder's own renewals. */
  lemma {:induction false} LeaseFencing(s: State, ops: seq<Op>, id: Str, worker: Str, k: nat)
    requires Invariant(s) && HeldBy(s, id, worker) && LeaseSpan(s, ops, id, worker)
    requires k < |ops|
    ensures HeldBy(Run(s, ops[..k]), id, worker)
    ensures Target(Run(s, ops[..k]), ops[k]) == Some(id) ==> ops[k].Renew? && ops[k].worker == worker
    decreases |ops|
  {
    HeldStep(s, ops[0], id, worker);
    if k > 0 {
      StepKeepsInvariant(s, ops[0]);
      assert ops[..k][1..] == ops[1..][..k - 1];
      LeaseFencing(Apply(s, ops[0]), ops[1..], id, worker, k - 1);
    }
  }

  /** What a successful claim grants: the first ready goal, leased to the worker until now + lease. */
  lemma ClaimGrantsLease(s: State, principal: Str, worker: Str, lease: int, now: int, id: Str)
    requires Invariant(s) && Target(s, Claim(principal, worker, lease, now)) == Some(id)
    ensures var t := Apply(s, Claim(principal, worker, lease, now));
      && Invariant(t)
      && HeldBy(t, id, worker)
      && t.goals[id].until == Some(now + lease * SECOND)
      && First(s, ReadySet(s, principal, now), id)
      && !LeaseFree(t.goals[id], now)
  {
    ClaimKeepsInvariant(s, principal, worker, lease, now);
  }

  /** Along any run no goal disappears, and its version counts the operations that succeeded on it. */
  lemma {:induction false} VersionCountsSuccesses(s: State, ops: seq<Op>, id: Str)
    requires id in s.goals
    ensures id in Run(s, ops).goals
    ensures Run(s, ops).goals[id].version == s.goals[id].version + Successes(s, ops, id)
    ensures Successes(s, ops, id) == 0 ==> Run(s, ops).goals[id] == s.goals[id]
    decreases |ops|
  {
    if ops != [] {
      StepFrame(s, ops[0]);
      VersionCountsSuccesses(Apply(s, ops[0]), ops[1..], id);
    }
  }

  lemma {:induction false} RunConcat(s: State, a: seq<Op>, b: seq<Op>)
    ensures Run(s, a + b) == Run(Run(s, a), b)
    decreases |a|
  {
    if a == [] {
      assert a + b == b;
    } else {
      assert (a + b)[1..] == a[1..] + b;
      RunConcat(Apply(s, a[0]), a[1..], b);
    }
  }

  /** Optimistic locking: of all transitions in a run that expect one version of a goal, at most one succeeds. */
  lemma OneWinnerPerVersion(s: State, ops: seq<Op>, i: nat, j: nat)
    requires i < j < |ops| && ops[i].Transition? && ops[j].Transition?
    requires ops[i].move.id == ops[j].move.id
    requires ops[i].move.expected.Some? && ops[i].move.expected == ops[j].move.expected
    requires Target(Run(s, ops[..i]), ops[i]).Some?
    ensures Target(Run(s, ops[..j]), ops[j]).None?
  {
    var id, before := ops[i].move.id, Run(s, ops[..i]);
    var after := Apply(before, ops[i]);
    StepFrame(before, ops[i]);
    assert ops[..j] == ops[..i] + ([ops[i]] + ops[i + 1..j]);
    assert ([ops[i]] + ops[i + 1..j])[1..] == ops[i + 1..j];
    RunConcat(s, ops[..i], [ops[i]] + ops[i + 1..j]);
    VersionCountsSuccesses(after, ops[i + 1..j], id);
    assert after.goals[id].version > ops[j].move.expected.value;
  }

  ghost function Successes(s: State, ops: seq<Op>, id: Str): nat
    decreases |ops|
  {
    if ops == [] then 0
    else (if Target(s, ops[0]) == Some(id) then 1 else 0) + Successes(Apply(s, ops[0]), ops[1..], id)
  }

  // ----- the store -----

  class GoalStore {
    var goals: map<Str, Goal>
    var edges: set<Edge>
    var nextRow: nat

    function Contents(): State
      reads this
    {
      State(goals, edges, nextRow)
    }

    constructor ()
      ensures Contents() == EMPTY
      ensures Invariant(Contents())
    {
      goals, edges, nextRow := map[], {}, 0;
    }

    method Create(n: NewGoal) returns (r: Result<Str, Error>)
      requires Invariant(Contents())
      modifies this
      ensures (Contents(), r) == CreateSpec(old(Contents()), n)
      ensures Invariant(Contents())
      ensures r.Ok? ==> r.value == n.id && n.id !in old(goals) && goals.Keys == old(goals).Keys + {n.id}
      ensures r.Ok? ==> edges == old(edges) + (set d | d in n.dependsOn :: Edge(n.id, d))
      ensures r.Ok? ==> goals[n.id] == Goal(
        old(nextRow), n.principal, Strip(n.description), Pending, n.priority, n.parent, n.context, None, None, None,
        None, 1, n.now, n.now)
      ensures r == Err(ValueError) <==> Strip(n.principal) == [] || Strip(n.description) == [] || n.id in n.dependsOn
      ensures r == Err(KeyError) <==>
        && Strip(n.principal) != [] && Strip(n.description) != [] && n.id !in n.dependsOn
        && (|| (exists d | d in n.dependsOn :: d !in old(goals) || old(goals)[d].principal != n.principal)
            || (n.parent.Some? && n.parent.value != []
                && (n.parent.value !in old(goals) || old(goals)[n.parent.value].principal != n.principal)))
      ensures r.Err? ==> Contents() == old(Contents()) && r.error in {ValueError, KeyError, IntegrityError}
    {
      CreateKeepsInvariant(Contents(), n);
      if Strip(n.principal) == [] || Strip(n.description) == [] {
        return Err(ValueError);
      }
      if n.id in n.dependsOn {
        return Err(ValueError);
      }
      if n.parent.Some? && n.parent.value != [] && !Owned(Contents(), n.principal, n.parent.value) {
        return Err(KeyError);
      }
      for i := 0 to |n.dependsOn|
        invariant forall j | 0 <= j < i :: Owned(Contents(), n.principal, n.dependsOn[j])
        invariant unchanged(this)
      {
        if !Owned(Contents(), n.principal, n.dependsOn[i]) {
          return Err(KeyError);
        }
      }
      if n.id in goals || n.parent == Some([]) {
        return Err(IntegrityError);
      }
      goals, nextRow := goals[n.id := Fresh(n, nextRow)], nextRow + 1;
      ghost var added: set<Edge> := {};
      for i := 0 to |n.dependsOn|
        invariant goals == CreateSpec(old(Contents()), n).0.goals && nextRow == old(nextRow) + 1
        invariant edges == old(edges) + (set d | d in n.dependsOn[..i] :: Edge(n.id, d))
      {
        edges := edges + {Edge(n.id, n.dependsOn[i])};
        assert n.dependsOn[..i + 1] == n.dependsOn[..i] + [n.dependsOn[i]];
      }
      assert n.dependsOn[..|n.dependsOn|] == n.dependsOn;
      return Ok(n.id);
    }

    method Claim(principal: Str, worker: Str, lease: int, now: int) returns (r: Result<Option<Str>, Error>)
      requires Invariant(Contents())
      modifies this
      ensures (Contents(), r) == ClaimSpec(old(Contents()), principal, worker, lease, now)
      ensures Invariant(Contents())
    {
      ClaimKeepsInvariant(Contents(), principal, worker, lease, now);
      if Strip(worker) == [] || lease <= 0 {
        return Err(ValueError);
      }
      var ready := ReadySet(Contents(), principal, now);
      if ready == {} {
        return Ok(None);
      }
      assert First(Contents(), ready, Pick(Contents(), principal, now).value);
      var id :| id in ready && First(Contents(), ready, id);
      FirstIsUnique(Contents(), ready, id, Pick(Contents(), principal, now).value);
      if LeaseFree(goals[id], now) {
        goals := goals[id := Leased(goals[id], worker, lease, now)];
        r := Ok(Some(id));
      } else {
        r := Ok(None);
      }
    }

    method Renew(principal: Str, id: Str, worker: Str, lease: int, now: int) returns (r: Result<(), Error>)
      requires Invariant(Contents())
      modifies this
      ensures (Contents(), r) == RenewSpec(old(Contents()), principal, id, worker, lease, now)
      ensures Invariant(Contents())
    {
      RenewKeepsInvariant(Contents(), principal, id, worker, lease, now);
      if lease <= 0 {
        return Err(ValueError);
      }
      var changed := Renewable(Contents(), principal, id, worker, now);
      if changed {
        var g := goals[id];
        goals := goals[id := g.(until := Some(now + lease * SECOND), version := g.version + 1, updated := now)];
      }
      r := if changed then Ok(()) else Err(GoalConflict);
    }

    method Transition(m: Move) returns (r: Result<(), Error>)
      requires Invariant(Contents())
      modifies this
      ensures (Contents(), r) == TransitionSpec(old(Contents()), m)
      ensures Invariant(Contents())
    {
      TransitionKeepsInvariant(Contents(), m);
      if !Owned(Contents(), m.principal, m.id) {
        return Err(KeyError);
      }
      var g := goals[m.id];
      if m.status !in Successors(g.status) {
        return Err(GoalConflict);
      }
      if m.expected.Some? && g.version != m.expected.value {
        return Err(GoalConflict);
      }
      if Held(g) && m.worker != g.owner {
        return Err(GoalConflict);
      }
      if Held(g) && LeaseFree(g, m.now) {
        return Err(GoalConflict);
      }
      if m.status == Completed && !DependenciesDone(Contents(), m.id) {
        return Err(GoalConflict);
      }
      var clear := Terminal(m.status) || m.status in {Pending, Blocked};
      goals := goals[m.id := g.(status := m.status, outcome := m.outcome, failure := m.failure,
                                owner := if clear then None else g.owner, until := if clear then None else g.until,
                                version := g.version + 1, updated := m.now)];
      return Ok(());
    }
  }
}
