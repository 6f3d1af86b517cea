/** The durable job queue of `meemee/jobs.py`: job rows and an append-only event log. Each operation is one
    transaction on both tables; `now` is the clock text it reads. */
module Jobs {
  import opened Text
  import Order

  datatype Status = Queued | Running | Done | Failed | CancelRequested | Cancelled

  datatype Job = Job(
    goal: Str, runAt: Str, status: Status, attempts: int, maxAttempts: int, result: Option<Str>,
    error: Option<Str>, created: Str, updated: Str, principal: Option<Str>, purge: bool)

  /** Events written by the queue itself, with their payload, and events written by callers of `event`. */
  datatype Kind =
    | QueuedEvent(runAt: Str)
    | RunningEvent(attempt: int)
    | DoneEvent(result: Str)
    | RetryEvent(error: Option<Str>)
    | FailedEvent(error: Option<Str>)
    | CancelRequestedEvent
    | CancelledEvent
    | CustomEvent(kind: Str, payload: Str)

  datatype Event = Event(job: Str, kind: Kind)

  datatype State = State(jobs: map<Str, Job>, events: seq<Event>)

  datatype Error = ValueError | IntegrityError

  const EMPTY := State(map[], [])

  // ----- the log -----

  /** The log without the events of the given jobs. */
  function Without(events: seq<Event>, ids: set<Str>): seq<Event> {
    if events == [] then []
    else
      var last := events[|events| - 1];
      Without(events[..|events| - 1], ids) + (if last.job in ids then [] else [last])
  }

  /** The events of one job, in order. */
  function EventsOf(events: seq<Event>, id: Str): seq<Event> {
    if events == [] then []
    else
      var last := events[|events| - 1];
      EventsOf(events[..|events| - 1], id) + (if last.job == id then [last] else [])
  }

  /** Status and number of attempts after one more event. */
  function Advance(before: Option<(Status, int)>, kind: Kind): Option<(Status, int)> {
    var n := if before.Some? then before.value.1 else 0;
    match kind
    case QueuedEvent(_) => Some((Queued, 0))
    case RunningEvent(_) => Some((Running, n + 1))
    case DoneEvent(_) => Some((Done, n))
    case RetryEvent(_) => Some((Queued, n))
    case FailedEvent(_) => Some((Failed, n))
    case CancelRequestedEvent => Some((CancelRequested, n))
    case CancelledEvent => Some((Cancelled, n))
    case CustomEvent(_, _) => before
  }

  /** What the log alone says about a job. */
  function Replay(events: seq<Event>, id: Str): Option<(Status, int)> {
    if events == [] then None
    else
      var last, before := events[|events| - 1], Replay(events[..|events| - 1], id);
      if last.job == id then Advance(before, last.kind) else before
  }

  function LifecycleLength(events: seq<Event>, id: Str): nat {
    if events == [] then 0
    else
      var last := events[|events| - 1];
      LifecycleLength(events[..|events| - 1], id) + (if last.job == id && !last.kind.CustomEvent? then 1 else 0)
  }

  function RunningEvents(events: seq<Event>, id: Str): nat {
    if events == [] then 0
    else
      var last := events[|events| - 1];
      RunningEvents(events[..|events| - 1], id) + (if last.job == id && last.kind.RunningEvent? then 1 else 0)
  }

  // ----- the operations -----

  /** The optional run_at argument: without a timezone it is refused. */
  datatype When = Unset | Naive | At(due: Str)

  function Log(s: State, id: Str, job: Job, kind: Kind): State {
    State(s.jobs[id := job], s.events + [Event(id, kind)])
  }

  function Drop(s: State, ids: set<Str>): State {
    State(map id | id in s.jobs && id !in ids :: s.jobs[id], Without(s.events, ids))
  }

  function EnqueueSpec(s: State, id: Str, goal: Str, when: When, maxAttempts: int, principal: Option<Str>, now: Str)
    : (State, Result<Str, Error>)
  {
    if when.Naive? then (s, Err(ValueError))
    else if id in s.jobs then (s, Err(IntegrityError))
    else
      var due := if when.At? then when.due else now;
      (Log(s, id, Job(goal, due, Queued, 0, maxAttempts, None, None, now, now, principal, false), QueuedEvent(due)),
       Ok(id))
  }

  predicate Due(s: State, id: Str, now: Str) {
    id in s.jobs && s.jobs[id].status == Queued && !Less(now, s.jobs[id].runAt)
  }

  function DueSet(s: State, now: Str): set<Str> {
    set id | id in s.jobs && Due(s, id, now)
  }

  /** ORDER BY run_at, id. */
  predicate DueBefore(s: State, a: Str, b: Str) {
    && a in s.jobs
    && b in s.jobs
    && (Less(s.jobs[a].runAt, s.jobs[b].runAt) || (s.jobs[a].runAt == s.jobs[b].runAt && Less(a, b)))
  }

  lemma DueOrder(s: State, now: Str)
    ensures Order.StrictOrder(DueSet(s, now), (a, b) => DueBefore(s, a, b))
  {
    var ids := DueSet(s, now);
    forall a, b | a in ids && b in ids
      ensures a != b ==> DueBefore(s, a, b) || DueBefore(s, b, a)
      ensures DueBefore(s, a, b) ==> a != b && !DueBefore(s, b, a)
    {
      LessIsTotal(s.jobs[a].runAt, s.jobs[b].runAt);
      LessIsTotal(a, b);
      LessIsStrict(s.jobs[a].runAt, s.jobs[b].runAt);
      LessIsStrict(a, b);
    }
    forall a, b, c | a in ids && b in ids && c in ids && DueBefore(s, a, b) && DueBefore(s, b, c)
      ensures DueBefore(s, a, c)
    {
      var x, y, z := s.jobs[a].runAt, s.jobs[b].runAt, s.jobs[c].runAt;
      if Less(x, y) && Less(y, z) {
        LessIsTransitive(x, y, z);
      }
      if Less(a, b) && Less(b, c) {
        LessIsTransitive(a, b, c);
      }
    }
  }

  ghost function NextDue(s: State, now: Str): (r: Option<Str>)
    ensures r.None? <==> DueSet(s, now) == {}
    ensures r.Some? ==>
      && Due(s, r.value, now)
      && forall other | Due(s, other, now) && other != r.value :: DueBefore(s, r.value, other)
  {
    DueOrder(s, now);
    assert forall id :: Due(s, id, now) <==> id in DueSet(s, now);
    if DueSet(s, now) == {} then None else Some(Order.TheFirst(DueSet(s, now), (a, b) => DueBefore(s, a, b)))
  }

  ghost function ClaimSpec(s: State, now: Str): (State, Option<Str>) {
    match NextDue(s, now)
    case None => (s, None)
    case Some(id) =>
      var job := s.jobs[id];
      (Log(s, id, job.(status := Running, attempts := job.attempts + 1, updated := now),
           RunningEvent(job.attempts + 1)),
       Some(id))
  }

  /** `finish` passes a result, `fail` an error; Ok(true) means that a tombstone was removed. */
  function PublishSpec(s: State, id: Str, result: Option<Str>, error: Option<Str>, now: Str)
    : (State, Result<bool, Error>)
  {
    if id !in s.jobs then (s, Err(ValueError))
    else if s.jobs[id].purge then (Drop(s, {id}), Ok(true))
    else if s.jobs[id].status != Running then (s, Err(ValueError))
    else
      var job := s.jobs[id].(result := result, error := error, updated := now);
      if result.Some? then (Log(s, id, job.(status := Done), DoneEvent(result.value)), Ok(false))
      else if job.attempts < job.maxAttempts then (Log(s, id, job.(status := Queued), RetryEvent(error)), Ok(false))
      else (Log(s, id, job.(status := Failed), FailedEvent(error)), Ok(false))
  }

  const CANCELLED: Option<Str> := Some(Codes("cancelled"))

  function RequestCancelSpec(s: State, id: Str, now: Str): (State, Option<Status>) {
    if id !in s.jobs then (s, None)
    else
      var job := s.jobs[id].(error := CANCELLED, updated := now);
      match job.status
      case Queued => (Log(s, id, job.(status := Cancelled), CancelledEvent), Some(Cancelled))
      case Running => (Log(s, id, job.(status := CancelRequested), CancelRequestedEvent), Some(CancelRequested))
      case other => (s, Some(other))
  }

  function CancelFrom(s: State, id: Str, from: Status, now: Str): (State, bool) {
    if id in s.jobs && s.jobs[id].status == from then
      (Log(s, id, s.jobs[id].(status := Cancelled, error := CANCELLED, updated := now), CancelledEvent), true)
    else (s, false)
  }

  function CancelRunningSpec(s: State, id: Str, now: Str): (State, bool) {
    if id in s.jobs && s.jobs[id].purge then (Drop(s, {id}), true)
    else CancelFrom(s, id, CancelRequested, now)
  }

  function CancelSpec(s: State, id: Str, now: Str): (State, bool) {
    CancelFrom(s, id, Queued, now)
  }

  predicate Busy(status: Status) {
    status == Running || status == CancelRequested
  }

  function OwnedBy(s: State, principal: Str): set<Str> {
    set id | id in s.jobs && s.jobs[id].principal == Some(principal)
  }

  function Tombstone(job: Job, now: Str): Job {
    job.(goal := Codes("[deleted]"), result := None, error := Some(Codes("account deleted")), principal := None,
         status := CancelRequested, purge := true, updated := now)
  }

  function PurgeSpec(s: State, principal: Str, now: Str): State {
    var owned := OwnedBy(s, principal);
    State(
      map id | id in s.jobs && (id in owned ==> Busy(s.jobs[id].status)) ::
        if id in owned then Tombstone(s.jobs[id], now) else s.jobs[id],
      Without(s.events, owned))
  }

  /** Tombstones that no worker holds, and with `stale` also those untouched since then. */
  function Swept(s: State, stale: Option<Str>): set<Str> {
    set id | id in s.jobs && s.jobs[id].purge
             && (!Busy(s.jobs[id].status) || (stale.Some? && Less(s.jobs[id].updated, stale.value)))
  }

  function SweepSpec(s: State, stale: Option<Str>): State {
    Drop(s, Swept(s, stale))
  }

  // ----- runs -----

  datatype Op =
    | Enqueue(id: Str, goal: Str, when: When, maxAttempts: int, owner: Option<Str>, now: Str)
    | Claim(now: Str)
    | Publish(id: Str, result: Option<Str>, error: Option<Str>, now: Str)
    | RequestCancel(id: Str, now: Str)
    | CancelRunning(id: Str, now: Str)
    | Cancel(id: Str, now: Str)
    | Purge(principal: Str, now: Str)
    | Sweep(stale: Option<Str>)
    | AddEvent(id: Str, kind: Kind)

  ghost function Apply(s: State, op: Op): State {
    match op
    case Enqueue(id, goal, when, max, principal, now) => EnqueueSpec(s, id, goal, when, max, principal, now).0
    case Claim(now) => ClaimSpec(s, now).0
    case Publish(id, result, error, now) => PublishSpec(s, id, result, error, now).0
    case RequestCancel(id, now) => RequestCancelSpec(s, id, now).0
    case CancelRunning(id, now) => CancelRunningSpec(s, id, now).0
    case Cancel(id, now) => CancelSpec(s, id, now).0
    case Purge(principal, now) => if principal == [] then s else PurgeSpec(s, principal, now)
    case Sweep(stale) => SweepSpec(s, stale)
    case AddEvent(id, kind) => s.(events := s.events + [Event(id, kind)])
  }

  /** Callers of `event` stay away from the lifecycle kinds. */
  predicate Disciplined(op: Op) {
    op.AddEvent? ==> op.kind.CustomEvent?
  }

  ghost function Run(s: State, ops: seq<Op>): State
    decreases |ops|
  {
    if ops == [] then s else Run(Apply(s, ops[0]), ops[1..])
  }

  function Cap(job: Job): int {
    if job.maxAttempts > 1 then job.maxAttempts else 1
  }

  /** The exact number of lifecycle events for a status and a number of attempts. */
  function ExpectedLength(status: Status, attempts: int): int {
    match status
    case Queued => 2 * attempts + 1
    case Running => 2 * attempts
    case Done => 2 * attempts + 1
    case Failed => 2 * attempts + 1
    case CancelRequested => 2 * attempts + 1
    case Cancelled => 2 * attempts + 2
  }

  ghost predicate LiveInvariant(job: Job, events: seq<Event>, id: Str) {
    && Replay(events, id) == Some((job.status, job.attempts))
    && RunningEvents(events, id) == job.attempts
    && LifecycleLength(events, id) == ExpectedLength(job.status, job.attempts)
    && job.attempts <= Cap(job)
    && (job.status == Queued ==> job.attempts < Cap(job))
    && (job.status in {Running, Done, Failed, CancelRequested} ==> job.attempts >= 1)
  }

  ghost predicate Silent(events: seq<Event>, id: Str) {
    Replay(events, id) == None && RunningEvents(events, id) == 0 && LifecycleLength(events, id) == 0
  }

  ghost predicate IdInvariant(s: State, id: Str) {
    if id in s.jobs && !s.jobs[id].purge then LiveInvariant(s.jobs[id], s.events, id)
    else
      && Silent(s.events, id)
      && (id in s.jobs ==> s.jobs[id].status == CancelRequested && s.jobs[id].principal == None)
  }

  ghost predicate Invariant(s: State) {
    forall id :: IdInvariant(s, id)
  }

  // ----- the log after filtering and appending -----

  lemma {:induction false} WithoutKeepsOthers(events: seq<Event>, ids: set<Str>, id: Str)
    ensures id in ids ==> Silent(Without(events, ids), id)
    ensures id !in ids ==>
      && Replay(Without(events, ids), id) == Replay(events, id)
      && RunningEvents(Without(events, ids), id) == RunningEvents(events, id)
      && LifecycleLength(Without(events, ids), id) == LifecycleLength(events, id)
  {
    if events != [] {
      var front, last := events[..|events| - 1], events[|events| - 1];
      WithoutKeepsOthers(front, ids, id);
      if last.job !in ids {
        var w := Without(events, ids);
        assert w[..|w| - 1] == Without(front, ids) && w[|w| - 1] == last;
      } else {
        assert Without(events, ids) == Without(front, ids);
      }
    }
  }

  lemma {:induction false} WithoutKeepsEvents(events: seq<Event>, ids: set<Str>, id: Str)
    ensures EventsOf(Without(events, ids), id) == if id in ids then [] else EventsOf(events, id)
  {
    if events != [] {
      var front, last := events[..|events| - 1], events[|events| - 1];
      WithoutKeepsEvents(front, ids, id);
      if last.job !in ids {
        var w := Without(events, ids);
        assert w[..|w| - 1] == Without(front, ids) && w[|w| - 1] == last;
      } else {
        assert Without(events, ids) == Without(front, ids);
        assert id !in ids ==> EventsOf(events, id) == EventsOf(front, id) + [] == EventsOf(front, id);
      }
    }
  }

  /** What the log says about a job is said by the job's own events. */
  lemma {:induction false} OwnEventsSayAll(events: seq<Event>, id: Str)
    ensures Replay(events, id) == Replay(EventsOf(events, id), id)
    ensures LifecycleLength(events, id) == LifecycleLength(EventsOf(events, id), id)
    ensures RunningEvents(events, id) == RunningEvents(EventsOf(events, id), id)
  {
    if events != [] {
      var front, last := events[..|events| - 1], events[|events| - 1];
      OwnEventsSayAll(front, id);
      if last.job == id {
        Appended(EventsOf(front, id), last, id);
      } else {
        assert EventsOf(events, id) == EventsOf(front, id) + [] == EventsOf(front, id);
      }
    }
  }

  lemma {:induction false} WithoutIsFilter(events: seq<Event>, ids: set<Str>)
    ensures forall e | e in Without(events, ids) :: e in events && e.job !in ids
    ensures forall e | e in events && e.job !in ids :: e in Without(events, ids)
  {
    if events != [] {
      WithoutIsFilter(events[..|events| - 1], ids);
      assert events == events[..|events| - 1] + [events[|events| - 1]];
    }
  }

  lemma {:induction false} WithoutTwice(events: seq<Event>, a: set<Str>, b: set<Str>)
    ensures Without(Without(events, a), b) == Without(events, a + b)
  {
    if events != [] {
      var front, last := events[..|events| - 1], events[|events| - 1];
      WithoutTwice(front, a, b);
      if last.job !in a {
        var w := Without(events, a);
        assert w[..|w| - 1] == Without(front, a) && w[|w| - 1] == last;
      } else {
        assert Without(events, a) == Without(front, a);
      }
    }
  }

  lemma {:induction false} WithoutShrinks(events: seq<Event>, ids: set<Str>)
    ensures |Without(events, ids)| <= |events|
  {
    if events != [] {
      WithoutShrinks(events[..|events| - 1], ids);
    }
  }

  lemma {:induction false} WithoutNone(events: seq<Event>)
    ensures Without(events, {}) == events
  {
    if events != [] {
      WithoutNone(events[..|events| - 1]);
    }
  }

  lemma Appended(events: seq<Event>, e: Event, id: Str)
    ensures var longer := events + [e];
      && Replay(longer, id) == (if e.job == id then Advance(Replay(events, id), e.kind) else Replay(events, id))
      && RunningEvents(longer, id)
         == RunningEvents(events, id) + (if e.job == id && e.kind.RunningEvent? then 1 else 0)
      && LifecycleLength(longer, id)
         == LifecycleLength(events, id) + (if e.job == id && !e.kind.CustomEvent? then 1 else 0)
  {
    assert (events + [e])[..|events + [e]| - 1] == events;
  }

  lemma DropKeepsInvariant(s: State, ids: set<Str>)
    requires Invariant(s)
    ensures Invariant(Drop(s, ids))
  {
    forall id ensures IdInvariant(Drop(s, ids), id) {
      assert IdInvariant(s, id);
      WithoutKeepsOthers(s.events, ids, id);
    }
  }

  /** Logging one event keeps the invariant if the new row is what the log now says. */
  lemma LogKeepsInvariant(s: State, id: Str, job: Job, kind: Kind)
    requires Invariant(s) && !job.purge && !kind.CustomEvent?
    requires Advance(Replay(s.events, id), kind) == Some((job.status, job.attempts))
    requires RunningEvents(s.events, id) + (if kind.RunningEvent? then 1 else 0) == job.attempts
    requires LifecycleLength(s.events, id) + 1 == ExpectedLength(job.status, job.attempts)
    requires job.attempts <= Cap(job) && (job.status == Queued ==> job.attempts < Cap(job))
    requires job.status in {Running, Done, Failed, CancelRequested} ==> job.attempts >= 1
    ensures Invariant(Log(s, id, job, kind))
  {
    forall other ensures IdInvariant(Log(s, id, job, kind), other) {
      assert IdInvariant(s, other);
      Appended(s.events, Event(id, kind), other);
    }
  }

  lemma PurgeKeepsInvariant(s: State, principal: Str, now: Str)
    requires Invariant(s)
    ensures Invariant(PurgeSpec(s, principal, now))
  {
    forall id ensures IdInvariant(PurgeSpec(s, principal, now), id) {
      assert IdInvariant(s, id);
      WithoutKeepsOthers(s.events, OwnedBy(s, principal), id);
    }
  }

  lemma EnqueueKeepsInvariant(
    s: State, id: Str, goal: Str, when: When, maxAttempts: int, principal: Option<Str>, now: Str)
    requires Invariant(s)
    ensures Invariant(EnqueueSpec(s, id, goal, when, maxAttempts, principal, now).0)
  {
    assert IdInvariant(s, id);
    if !when.Naive? && id !in s.jobs {
      var due := if when.At? then when.due else now;
      var job := Job(goal, due, Queued, 0, maxAttempts, None, None, now, now, principal, false);
      LogKeepsInvariant(s, id, job, QueuedEvent(due));
    }
  }

  lemma ClaimKeepsInvariant(s: State, now: Str)
    requires Invariant(s)
    ensures Invariant(ClaimSpec(s, now).0)
  {
    var r := NextDue(s, now);
    if r.Some? {
      var id, job := r.value, s.jobs[r.value];
      assert Due(s, id, now) && IdInvariant(s, id);
      LogKeepsInvariant(s, id, job.(status := Running, attempts := job.attempts + 1, updated := now),
                        RunningEvent(job.attempts + 1));
    }
  }

  lemma PublishKeepsInvariant(s: State, id: Str, result: Option<Str>, error: Option<Str>, now: Str)
    requires Invariant(s)
    ensures Invariant(PublishSpec(s, id, result, error, now).0)
  {
    assert IdInvariant(s, id);
    DropKeepsInvariant(s, {id});
    if id in s.jobs && !s.jobs[id].purge && s.jobs[id].status == Running {
      var job := s.jobs[id].(result := result, error := error, updated := now);
      if result.Some? {
        LogKeepsInvariant(s, id, job.(status := Done), DoneEvent(result.value));
      } else if job.attempts < job.maxAttempts {
        LogKeepsInvariant(s, id, job.(status := Queued), RetryEvent(error));
      } else {
        LogKeepsInvariant(s, id, job.(status := Failed), FailedEvent(error));
      }
    }
  }

  lemma RequestCancelKeepsInvariant(s: State, id: Str, now: Str)
    requires Invariant(s)
    ensures Invariant(RequestCancelSpec(s, id, now).0)
  {
    assert IdInvariant(s, id);
    if id in s.jobs {
      var job := s.jobs[id].(error := CANCELLED, updated := now);
      if job.status == Queued {
        LogKeepsInvariant(s, id, job.(status := Cancelled), CancelledEvent);
      } else if job.status == Running {
        LogKeepsInvariant(s, id, job.(status := CancelRequested), CancelRequestedEvent);
      }
    }
  }

  lemma CancelKeepsInvariant(s: State, id: Str, from: Status, now: Str)
    requires Invariant(s) && from in {Queued, CancelRequested}
    requires id in s.jobs && s.jobs[id].purge ==> s.jobs[id].status != from
    ensures Invariant(CancelFrom(s, id, from, now).0)
  {
    assert IdInvariant(s, id);
    if id in s.jobs && s.jobs[id].status == from {
      LogKeepsInvariant(s, id, s.jobs[id].(status := Cancelled, error := CANCELLED, updated := now), CancelledEvent);
    }
  }

  lemma AddEventKeepsInvariant(s: State, id: Str, kind: Kind)
    requires Invariant(s) && kind.CustomEvent?
    ensures Invariant(Apply(s, AddEvent(id, kind)))
  {
    forall other ensures IdInvariant(Apply(s, AddEvent(id, kind)), other) {
      assert IdInvariant(s, other);
      Appended(s.events, Event(id, kind), other);
    }
  }

  lemma StepKeepsInvariant(s: State, op: Op)
    requires Invariant(s) && Disciplined(op)
    ensures Invariant(Apply(s, op))
  {
    match op
    case Enqueue(id, goal, when, max, owner, now) => EnqueueKeepsInvariant(s, id, goal, when, max, owner, now);
    case Claim(now) => ClaimKeepsInvariant(s, now);
    case Publish(id, result, error, now) => PublishKeepsInvariant(s, id, result, error, now);
    case RequestCancel(id, now) => RequestCancelKeepsInvariant(s, id, now);
    case CancelRunning(id, now) =>
      if id in s.jobs && s.jobs[id].purge {
        DropKeepsInvariant(s, {id});
      } else {
        CancelKeepsInvariant(s, id, CancelRequested, now);
      }
    case Cancel(id, now) =>
      assert IdInvariant(s, id);
      CancelKeepsInvariant(s, id, Queued, now);
    case Purge(principal, now) => PurgeKeepsInvariant(s, principal, now);
    case Sweep(stale) => DropKeepsInvariant(s, Swept(s, stale));
    case AddEvent(id, kind) => AddEventKeepsInvariant(s, id, kind);
  }

  lemma {:induction false} RunKeepsInvariant(s: State, ops: seq<Op>)
    requires Invariant(s) && forall op | op in ops :: Disciplined(op)
    ensures Invariant(Run(s, ops))
    decreases |ops|
  {
    if ops != [] {
      StepKeepsInvariant(s, ops[0]);
      RunKeepsInvariant(Apply(s, ops[0]), ops[1..]);
    }
  }

  /** In every state reached from an empty queue, a job that is not a tombstone has exactly the status and the
      attempts that its log says, starts at most max(max_attempts, 1) times, and has at most
      2 * max(max_attempts, 1) + 2 lifecycle events; a tombstone has none. */
  lemma LogDeterminesRow(ops: seq<Op>, id: Str)
    requires forall op | op in ops :: Disciplined(op)
    requires id in Run(EMPTY, ops).jobs
    ensures var s := Run(EMPTY, ops); s.jobs[id].purge ==> LifecycleLength(s.events, id) == 0
    ensures var s := Run(EMPTY, ops); !s.jobs[id].purge ==>
      && Replay(s.events, id) == Some((s.jobs[id].status, s.jobs[id].attempts))
      && RunningEvents(s.events, id) == s.jobs[id].attempts <= Cap(s.jobs[id])
      && LifecycleLength(s.events, id) <= 2 * Cap(s.jobs[id]) + 2
  {
    assert Invariant(EMPTY);
    RunKeepsInvariant(EMPTY, ops);
    assert IdInvariant(Run(EMPTY, ops), id);
  }

  // ----- the bound is tight -----

  /** A worker that fails the only job: `k` claims, each with its failure. */
  function Failures(id: Str, k: nat, now: Str): seq<Op> {
    if k == 0 then [] else [Claim(now), Publish(id, None, None, now)] + Failures(id, k - 1, now)
  }

  /** Enqueue, fail all attempts but one, and cancel the last one while it runs. */
  function LongestLife(id: Str, maxAttempts: nat, now: Str): seq<Op>
    requires maxAttempts >= 1
  {
    [Enqueue(id, [], Unset, maxAttempts, None, now)]
    + (Failures(id, maxAttempts - 1, now) + [Claim(now), RequestCancel(id, now), CancelRunning(id, now)])
  }

  /** The only job is queued, due, and was started `attempts` times. */
  ghost predicate Alone(s: State, id: Str, maxAttempts: int, attempts: int, now: Str) {
    && s.jobs.Keys == {id}
    && s.jobs[id].status == Queued && s.jobs[id].runAt == now && !s.jobs[id].purge
    && s.jobs[id].attempts == attempts && s.jobs[id].maxAttempts == maxAttempts
  }

  lemma ClaimTakesTheOnlyJob(s: State, id: Str, maxAttempts: int, attempts: int, now: Str)
    requires Alone(s, id, maxAttempts, attempts, now)
    ensures var t := Apply(s, Claim(now));
      && t.jobs.Keys == {id} && t.jobs[id].status == Running && t.jobs[id].runAt == now && !t.jobs[id].purge
      && t.jobs[id].attempts == attempts + 1 && t.jobs[id].maxAttempts == maxAttempts
      && LifecycleLength(t.events, id) == LifecycleLength(s.events, id) + 1
  {
    LessIsStrict(now, now);
    assert id in DueSet(s, now);
    assert NextDue(s, now) == Some(id);
    Appended(s.events, Event(id, RunningEvent(attempts + 1)), id);
  }

  lemma FailedRound(s: State, id: Str, maxAttempts: int, attempts: int, now: Str)
    requires Alone(s, id, maxAttempts, attempts, now) && attempts + 1 < maxAttempts
    ensures var t := Apply(Apply(s, Claim(now)), Publish(id, None, None, now));
      && Alone(t, id, maxAttempts, attempts + 1, now)
      && LifecycleLength(t.events, id) == LifecycleLength(s.events, id) + 2
  {
    ClaimTakesTheOnlyJob(s, id, maxAttempts, attempts, now);
    Appended(Apply(s, Claim(now)).events, Event(id, RetryEvent(None)), id);
  }

  lemma {:induction false} FailedRounds(s: State, id: Str, maxAttempts: int, attempts: int, k: nat, now: Str)
    requires Alone(s, id, maxAttempts, attempts, now) && attempts + k < maxAttempts
    ensures var t := Run(s, Failures(id, k, now));
      && Alone(t, id, maxAttempts, attempts + k, now)
      && LifecycleLength(t.events, id) == LifecycleLength(s.events, id) + 2 * k
    decreases k
  {
    if k > 0 {
      var t := Apply(Apply(s, Claim(now)), Publish(id, None, None, now));
      var ops := Failures(id, k, now);
      FailedRound(s, id, maxAttempts, attempts, now);
      FailedRounds(t, id, maxAttempts, attempts + 1, k - 1, now);
      assert ops[1..][0] == Publish(id, None, None, now) && ops[1..][1..] == Failures(id, k - 1, now);
    }
  }

  lemma CancelledRun(s: State, id: Str, attempts: int, now: Str)
    requires id in s.jobs && !s.jobs[id].purge && s.jobs[id].status == Running && s.jobs[id].attempts == attempts
    ensures var t := Apply(Apply(s, RequestCancel(id, now)), CancelRunning(id, now));
      && id in t.jobs && t.jobs[id].status == Cancelled && t.jobs[id].attempts == attempts
      && t.jobs[id].maxAttempts == s.jobs[id].maxAttempts
      && LifecycleLength(t.events, id) == LifecycleLength(s.events, id) + 2
  {
    Appended(s.events, Event(id, CancelRequestedEvent), id);
    Appended(s.events + [Event(id, CancelRequestedEvent)], Event(id, CancelledEvent), id);
  }

  lemma {:induction false} RunConcat(s: State, a: seq<Op>, b: seq<Op>)
    ensures Run(s, a + b) == Run(Run(s, a), b)
    decreases |a|
  {
    if a == [] {
      assert a + b == b;
    } else {
      assert (a + b)[1..] == a[1..] + b;
      RunConcat(Apply(s, a[0]), a[1..], b);
    }
  }

  lemma RunOfThree(s: State, a: Op, b: Op, c: Op)
    ensures Run(s, [a, b, c]) == Apply(Apply(Apply(s, a), b), c)
  {
    assert [a, b, c][1..] == [b, c] && [b, c][1..] == [c] && [c][1..] == [];
    assert Run(Apply(Apply(s, a), b), [c]) == Apply(Apply(Apply(s, a), b), c);
    assert Run(Apply(s, a), [b, c]) == Run(Apply(Apply(s, a), b), [c]);
  }

  /** The bounds are reached, for every max_attempts: a run from the empty queue starts the job max_attempts times and
      leaves 2 * max_attempts + 2 lifecycle events. */
  lemma LogBoundIsTight(id: Str, maxAttempts: nat, now: Str)
    requires maxAttempts >= 1
    ensures var t := Run(EMPTY, LongestLife(id, maxAttempts, now));
      && id in t.jobs && t.jobs[id].status == Cancelled
      && t.jobs[id].maxAttempts == t.jobs[id].attempts == maxAttempts
      && LifecycleLength(t.events, id) == 2 * maxAttempts + 2
  {
    var s := Enqueued(id, maxAttempts, now);
    var failures := Failures(id, maxAttempts - 1, now);
    var last := [Claim(now), RequestCancel(id, now), CancelRunning(id, now)];
    FailedRounds(s, id, maxAttempts, 0, maxAttempts - 1, now);
    RunConcat(s, failures, last);
    var t := Run(s, failures);
    RunOfThree(t, last[0], last[1], last[2]);
    ClaimTakesTheOnlyJob(t, id, maxAttempts, maxAttempts - 1, now);
    CancelledRun(Apply(t, Claim(now)), id, maxAttempts, now);
    assert LongestLife(id, maxAttempts, now)[1..] == failures + last;
  }

  lemma Enqueued(id: Str, maxAttempts: nat, now: Str) returns (s: State)
    ensures s == Apply(EMPTY, Enqueue(id, [], Unset, maxAttempts, None, now))
    ensures Alone(s, id, maxAttempts, 0, now) && LifecycleLength(s.events, id) == 1
  {
    s := Apply(EMPTY, Enqueue(id, [], Unset, maxAttempts, None, now));
    Appended([], Event(id, QueuedEvent(now)), id);
    assert s.events == [] + [Event(id, QueuedEvent(now))];
  }

  // ----- events of callers -----

  /** A lifecycle event that says again what the row already says. */
  predicate Repeats(kind: Kind, status: Status, attempts: int) {
    match kind
    case QueuedEvent(_) => status == Queued && attempts == 0
    case RunningEvent(_) => false
    case DoneEvent(_) => status == Done
    case RetryEvent(_) => status == Queued
    case FailedEvent(_) => status == Failed
    case CancelRequestedEvent => status == CancelRequested
    case CancelledEvent => status == Cancelled
    case CustomEvent(_, _) => true
  }

  /** `event` accepts lifecycle kinds as well. The queue's invariant survives it if and only if the kind is outside the
      lifecycle; the log of a job goes on saying what its row says if and only if the event repeats it. */
  lemma UndisciplinedEventBreaksReplay(s: State, id: Str, kind: Kind)
    requires Invariant(s)
    ensures Invariant(Apply(s, AddEvent(id, kind))) <==> kind.CustomEvent?
    ensures id in s.jobs && !s.jobs[id].purge ==>
      (Replay(Apply(s, AddEvent(id, kind)).events, id) == Some((s.jobs[id].status, s.jobs[id].attempts))
       <==> Repeats(kind, s.jobs[id].status, s.jobs[id].attempts))
  {
    assert IdInvariant(s, id);
    Appended(s.events, Event(id, kind), id);
    if kind.CustomEvent? {
      AddEventKeepsInvariant(s, id, kind);
    } else {
      assert !IdInvariant(Apply(s, AddEvent(id, kind)), id);
    }
  }

  predicate Final(status: Status) {
    status in {Done, Failed, Cancelled}
  }

  /** A finished job's row never changes again; it can only be deleted with its principal's account. */
  lemma FinalIsAbsorbing(s: State, op: Op, id: Str)
    requires Invariant(s) && id in s.jobs && Final(s.jobs[id].status)
    ensures id in Apply(s, op).jobs ==> Apply(s, op).jobs[id] == s.jobs[id]
    ensures id !in Apply(s, op).jobs ==> op.Purge? && s.jobs[id].principal == Some(op.principal)
  {
    assert IdInvariant(s, id);
    if op.Claim? && NextDue(s, op.now).Some? {
      assert Due(s, NextDue(s, op.now).value, op.now);
    }
  }

  // ----- what each operation records -----

  /** The columns that only an enqueue and a purge write. */
  ghost predicate SameRequest(a: Job, b: Job) {
    && b.goal == a.goal && b.runAt == a.runAt && b.maxAttempts == a.maxAttempts && b.created == a.created
    && b.principal == a.principal && b.purge == a.purge
  }

  /** One row is rewritten, for the same request, and one event is logged for it. */
  ghost predicate Rewrites(s: State, t: State, id: Str, kind: Kind) {
    && id in s.jobs && t.jobs.Keys == s.jobs.Keys
    && (forall other | other in s.jobs && other != id :: t.jobs[other] == s.jobs[other])
    && SameRequest(s.jobs[id], t.jobs[id])
    && t.events == s.events + [Event(id, kind)]
  }

  /** An enqueue is refused exactly for a naive time or a taken identifier, and otherwise adds one queued row, due at
      the given time or now. */
  lemma EnqueueRecords(s: State, id: Str, goal: Str, when: When, maxAttempts: int, principal: Option<Str>, now: Str)
    ensures var (t, r) := EnqueueSpec(s, id, goal, when, maxAttempts, principal, now);
      && (r == Err(ValueError) <==> when == Naive)
      && (r == Err(IntegrityError) <==> when != Naive && id in s.jobs)
      && (r.Err? ==> t == s)
      && (r.Ok? ==>
            && r.value == id && t.jobs.Keys == s.jobs.Keys + {id}
            && (forall other | other in s.jobs :: t.jobs[other] == s.jobs[other])
            && t.events == s.events + [Event(id, QueuedEvent(t.jobs[id].runAt))]
            && var job := t.jobs[id];
               && job.goal == goal && job.status == Queued && job.attempts == 0 && job.maxAttempts == maxAttempts
               && job.runAt == (match when case At(due) => due case _ => now)
               && job.result == None && job.error == None && job.created == now && job.updated == now
               && job.principal == principal && !job.purge)
  {
  }

  /** A claim finds nothing exactly if no queued job has come due. Otherwise it starts a queued job with `run_at` not
      after now; no such job has an earlier `run_at`, or the same and a lesser identifier. */
  lemma ClaimTakesFirstDue(s: State, now: Str)
    ensures var (t, r) := ClaimSpec(s, now);
      && (r.None? <==> forall id | id in s.jobs && s.jobs[id].status == Queued :: Less(now, s.jobs[id].runAt))
      && (r.None? ==> t == s)
      && (r.Some? ==>
            var id := r.value;
            && id in s.jobs && s.jobs[id].status == Queued && !Less(now, s.jobs[id].runAt)
            && (forall other | other in s.jobs && s.jobs[other].status == Queued && !Less(now, s.jobs[other].runAt)
                               && other != id ::
                  || Less(s.jobs[id].runAt, s.jobs[other].runAt)
                  || (s.jobs[id].runAt == s.jobs[other].runAt && Less(id, other)))
            && Rewrites(s, t, id, RunningEvent(s.jobs[id].attempts + 1))
            && t.jobs[id].status == Running && t.jobs[id].attempts == s.jobs[id].attempts + 1
            && t.jobs[id].updated == now && t.jobs[id].result == s.jobs[id].result
            && t.jobs[id].error == s.jobs[id].error)
  {
    assert forall id :: Due(s, id, now) <==> id in DueSet(s, now);
    forall id | id in s.jobs && s.jobs[id].status == Queued ensures Less(now, s.jobs[id].runAt) <==> !Due(s, id, now) {
    }
    var r := NextDue(s, now);
    if r.Some? {
      forall other | other in s.jobs && s.jobs[other].status == Queued && !Less(now, s.jobs[other].runAt)
                     && other != r.value
        ensures DueBefore(s, r.value, other)
      {
        assert Due(s, other, now);
      }
    }
  }

  /** A finished job is done, with the result and no error. */
  lemma FinishRecords(s: State, id: Str, value: Str, now: Str)
    requires id in s.jobs && s.jobs[id].status == Running && !s.jobs[id].purge
    ensures var (t, r) := PublishSpec(s, id, Some(value), None, now);
      && r == Ok(false)
      && Rewrites(s, t, id, DoneEvent(value))
      && t.jobs[id].status == Done && t.jobs[id].result == Some(value) && t.jobs[id].error == None
      && t.jobs[id].attempts == s.jobs[id].attempts && t.jobs[id].updated == now
  {
  }

  /** A failed job has the error and no result; it is queued again exactly as long as attempts are left. */
  lemma FailRecords(s: State, id: Str, error: Str, now: Str)
    requires id in s.jobs && s.jobs[id].status == Running && !s.jobs[id].purge
    ensures var (t, r) := PublishSpec(s, id, None, Some(error), now);
      && r == Ok(false)
      && Rewrites(s, t, id, if t.jobs[id].status == Queued then RetryEvent(Some(error)) else FailedEvent(Some(error)))
      && (t.jobs[id].status == Queued <==> s.jobs[id].attempts < s.jobs[id].maxAttempts)
      && (t.jobs[id].status == Failed <==> s.jobs[id].attempts >= s.jobs[id].maxAttempts)
      && t.jobs[id].result == None && t.jobs[id].error == Some(error)
      && t.jobs[id].attempts == s.jobs[id].attempts && t.jobs[id].updated == now
  {
  }

  /** Whatever is published, a job that is unknown or neither running nor a tombstone is refused and kept. */
  lemma PublishRefusesExactly(s: State, id: Str, result: Option<Str>, error: Option<Str>, now: Str)
    ensures var (t, r) := PublishSpec(s, id, result, error, now);
      && (r.Err? <==> id !in s.jobs || (!s.jobs[id].purge && s.jobs[id].status != Running))
      && (r.Err? ==> t == s && r.error == ValueError)
      && (r == Ok(true) <==> id in s.jobs && s.jobs[id].purge)
  {
  }

  /** A cancelled row: the status is set, the error says so, result and attempts stay. */
  ghost predicate CancelsTo(s: State, t: State, id: Str, status: Status, now: Str) {
    && Rewrites(s, t, id, if status == Cancelled then CancelledEvent else CancelRequestedEvent)
    && t.jobs[id].status == status && t.jobs[id].error == Some(Codes("cancelled")) && t.jobs[id].updated == now
    && t.jobs[id].result == s.jobs[id].result && t.jobs[id].attempts == s.jobs[id].attempts
  }

  /** A cancellation takes effect at once on a queued job, is requested of a running one, and is completed only by the
      worker of a job of which it was requested; every other job is left alone, and its status is the answer. */
  lemma CancelsExactly(s: State, id: Str, now: Str)
    ensures var (t, r) := RequestCancelSpec(s, id, now);
      && (r == None <==> id !in s.jobs)
      && (if id in s.jobs && s.jobs[id].status == Queued then
            r == Some(Cancelled) && CancelsTo(s, t, id, Cancelled, now)
          else if id in s.jobs && s.jobs[id].status == Running then
            r == Some(CancelRequested) && CancelsTo(s, t, id, CancelRequested, now)
          else t == s && (id in s.jobs ==> r == Some(s.jobs[id].status)))
    ensures var (t, r) := CancelSpec(s, id, now);
      && (r <==> id in s.jobs && s.jobs[id].status == Queued)
      && (if r then CancelsTo(s, t, id, Cancelled, now) else t == s)
    ensures var (t, r) := CancelRunningSpec(s, id, now);
      && (r <==> id in s.jobs && (s.jobs[id].purge || s.jobs[id].status == CancelRequested))
      && (!r ==> t == s)
      && (r && !s.jobs[id].purge ==> CancelsTo(s, t, id, Cancelled, now))
  {
  }

  /** A sweep deletes exactly the tombstones that no worker holds and, with a time, those last touched before it, with
      their events, and nothing else. */
  lemma SweepsExactly(s: State, stale: Option<Str>, id: Str)
    ensures var t := SweepSpec(s, stale);
      && (id in s.jobs && id !in t.jobs <==>
            && id in s.jobs && s.jobs[id].purge
            && (|| (s.jobs[id].status != Running && s.jobs[id].status != CancelRequested)
                || (stale.Some? && Less(s.jobs[id].updated, stale.value))))
      && (id in t.jobs ==> id in s.jobs && t.jobs[id] == s.jobs[id])
      && EventsOf(t.events, id) == (if id in s.jobs && id !in t.jobs then [] else EventsOf(s.events, id))
  {
    WithoutKeepsEvents(s.events, Swept(s, stale), id);
  }

  // ----- account deletion -----

  /** Purging a principal leaves no row and no event of its jobs behind except ownerless tombstones of the
      running ones, and does not touch anybody else's jobs or events. */
  lemma PurgeForgetsPrincipal(s: State, principal: Str, now: Str)
    ensures var t := PurgeSpec(s, principal, now);
      && (forall id | id in t.jobs :: t.jobs[id].principal != Some(principal))
      && (forall id | id in s.jobs && s.jobs[id].principal == Some(principal) ::
        && (forall e | e in t.events :: e.job != id)
        && (id in t.jobs <==> s.jobs[id].status == Running || s.jobs[id].status == CancelRequested)
        && (id in t.jobs ==>
              && t.jobs[id].purge && t.jobs[id].status == CancelRequested && t.jobs[id].principal == None
              && t.jobs[id].goal == Codes("[deleted]") && t.jobs[id].result == None
              && t.jobs[id].error == Some(Codes("account deleted")) && t.jobs[id].updated == now))
      && (forall id | !(id in s.jobs && s.jobs[id].principal == Some(principal)) ::
        && (id in t.jobs <==> id in s.jobs)
        && (id in s.jobs ==> t.jobs[id] == s.jobs[id])
        && EventsOf(t.events, id) == EventsOf(s.events, id)
        && Replay(t.events, id) == Replay(s.events, id)
        && LifecycleLength(t.events, id) == LifecycleLength(s.events, id))
  {
    WithoutIsFilter(s.events, OwnedBy(s, principal));
    forall id ensures id !in OwnedBy(s, principal) ==>
        && EventsOf(PurgeSpec(s, principal, now).events, id) == EventsOf(s.events, id)
        && Replay(PurgeSpec(s, principal, now).events, id) == Replay(s.events, id)
        && LifecycleLength(PurgeSpec(s, principal, now).events, id) == LifecycleLength(s.events, id)
    {
      WithoutKeepsOthers(s.events, OwnedBy(s, principal), id);
      WithoutKeepsEvents(s.events, OwnedBy(s, principal), id);
    }
  }

  /** The worker's terminal call, whichever it is, removes a tombstone and all its events and reports that it did. */
  lemma TerminalCallRemovesTombstone(s: State, id: Str, result: Option<Str>, error: Option<Str>, now: Str)
    requires id in s.jobs && s.jobs[id].purge
    ensures PublishSpec(s, id, result, error, now).1 == Ok(true) && CancelRunningSpec(s, id, now).1
    ensures PublishSpec(s, id, result, error, now).0 == CancelRunningSpec(s, id, now).0
    ensures var t := CancelRunningSpec(s, id, now).0;
      && t.jobs.Keys == s.jobs.Keys - {id}
      && (forall e | e in t.events :: e.job != id)
      && (forall other | other in t.jobs :: t.jobs[other] == s.jobs[other])
  {
    WithoutIsFilter(s.events, {id});
  }

  /** In a reachable state a tombstone has no events of its own life left, cannot be claimed, cancelled or
      finished as a job, and stays ownerless until it is removed. */
  lemma TombstoneStays(s: State, op: Op, id: Str)
    requires Invariant(s) && id in s.jobs && s.jobs[id].purge
    ensures id in Apply(s, op).jobs ==> Apply(s, op).jobs[id] == s.jobs[id]
    ensures id !in Apply(s, op).jobs ==>
      (op.Publish? && op.id == id) || (op.CancelRunning? && op.id == id) || op.Sweep?
  {
    assert IdInvariant(s, id);
    if op.Claim? && NextDue(s, op.now).Some? {
      assert Due(s, NextDue(s, op.now).value, op.now);
    }
  }

  function BusyOf(s: State, principal: Str): set<Str> {
    set id | id in s.jobs && s.jobs[id].principal == Some(principal) && Busy(s.jobs[id].status)
  }

  ghost predicate Wiped(s: State, running: set<Str>, now: Str, middle: map<Str, Job>) {
    && middle.Keys == s.jobs.Keys
    && forall id | id in middle :: middle[id] == if id in running then Tombstone(s.jobs[id], now) else s.jobs[id]
  }

  /** After the running rows are wiped, the principal still owns exactly its idle jobs. */
  lemma IdleRemain(s: State, principal: Str, now: Str, middle: map<Str, Job>)
    requires Wiped(s, BusyOf(s, principal), now, middle)
    ensures (set id | id in middle && middle[id].principal == Some(principal))
      == OwnedBy(s, principal) - BusyOf(s, principal)
    ensures BusyOf(s, principal) <= OwnedBy(s, principal)
  {
  }

  lemma DeletingIdleCompletesPurge(s: State, principal: Str, now: Str, middle: map<Str, Job>)
    requires Wiped(s, BusyOf(s, principal), now, middle)
    ensures middle - (OwnedBy(s, principal) - BusyOf(s, principal)) == PurgeSpec(s, principal, now).jobs
  {
    var idle := OwnedBy(s, principal) - BusyOf(s, principal);
    var purged := PurgeSpec(s, principal, now).jobs;
    assert forall id | id in s.jobs :: id in purged <==> id !in idle;
    assert (middle - idle).Keys == purged.Keys;
  }

  // ----- the store -----

  class JobStore {
    var jobs: map<Str, Job>
    var events: seq<Event>

    function Contents(): State
      reads this
    {
      State(jobs, events)
    }

    constructor ()
      ensures Contents() == EMPTY
    {
      jobs, events := map[], [];
    }

    method AddEvent(id: Str, kind: Kind)
      modifies this
      ensures Contents() == Apply(old(Contents()), Op.AddEvent(id, kind))
    {
      events := events + [Event(id, kind)];
    }

    method Enqueue(id: Str, goal: Str, when: When, maxAttempts: int, principal: Option<Str>, now: Str)
      returns (r: Result<Str, Error>)
      modifies this
      ensures (Contents(), r) == EnqueueSpec(old(Contents()), id, goal, when, maxAttempts, principal, now)
    {
      if when.Naive? {
        return Err(ValueError);
      }
      var due := if when.At? then when.due else now;
      if id in jobs {
        return Err(IntegrityError);
      }
      jobs := jobs[id := Job(goal, due, Queued, 0, maxAttempts, None, None, now, now, principal, false)];
      events := events + [Event(id, QueuedEvent(due))];
      return Ok(id);
    }

    method Claim(now: Str) returns (r: Option<Str>)
      modifies this
      ensures (Contents(), r) == ClaimSpec(old(Contents()), now)
    {
      var due := DueSet(Contents(), now);
      if due == {} {
        return None;
      }
      ghost var next := NextDue(Contents(), now).value;
      var id :| id in due && forall other | other in due && other != id :: DueBefore(Contents(), id, other);
      assert id == next by {
        LessIsStrict(jobs[id].runAt, jobs[next].runAt);
        LessIsStrict(id, next);
      }
      if jobs[id].status == Queued {
        var job := jobs[id];
        jobs := jobs[id := job.(status := Running, attempts := job.attempts + 1, updated := now)];
        events := events + [Event(id, RunningEvent(job.attempts + 1))];
        r := Some(id);
      } else {
        r := None;
      }
    }

    method Publish(id: Str, result: Option<Str>, error: Option<Str>, now: Str) returns (r: Result<bool, Error>)
      modifies this
      ensures (Contents(), r) == PublishSpec(old(Contents()), id, result, error, now)
      ensures r.Err? ==> r.error == ValueError && Contents() == old(Contents())
      ensures r.Err? <==> id !in old(jobs) || (!old(jobs)[id].purge && old(jobs)[id].status != Running)
      ensures r == Ok(true) <==> id in old(jobs) && old(jobs)[id].purge
      ensures r == Ok(true) ==> jobs == old(jobs) - {id} && events == Without(old(events), {id})
    {
      if id !in jobs {
        return Err(ValueError);
      }
      var row := jobs[id];
      if row.purge {
        jobs := jobs - {id};
        events := Without(events, {id});
        assert jobs == Drop(old(Contents()), {id}).jobs;
        return Ok(true);
      }
      if row.status != Running {
        return Err(ValueError);
      }
      var target, kind;
      if result.Some? {
        target, kind := Done, DoneEvent(result.value);
      } else {
        target := if row.attempts < row.maxAttempts then Queued else Failed;
        kind := if target == Queued then RetryEvent(error) else FailedEvent(error);
      }
      jobs := jobs[id := row.(status := target, result := result, error := error, updated := now)];
      events := events + [Event(id, kind)];
      return Ok(false);
    }

    method Finish(id: Str, value: Str, now: Str) returns (r: Result<bool, Error>)
      modifies this
      ensures (Contents(), r) == PublishSpec(old(Contents()), id, Some(value), None, now)
      ensures r == Ok(false) ==>
        && jobs == old(jobs)[id := old(jobs)[id].(status := Done, result := Some(value), error := None, updated := now)]
        && events == old(events) + [Event(id, DoneEvent(value))]
    {
      r := Publish(id, Some(value), None, now);
    }

    method Fail(id: Str, error: Str, now: Str) returns (r: Result<bool, Error>)
      modifies this
      ensures (Contents(), r) == PublishSpec(old(Contents()), id, None, Some(error), now)
      ensures r == Ok(false) ==>
        var again := old(jobs)[id].attempts < old(jobs)[id].maxAttempts;
        && jobs == old(jobs)[id := old(jobs)[id].(status := if again then Queued else Failed, result := None,
                                                  error := Some(error), updated := now)]
        && events == old(events) + [Event(id, if again then RetryEvent(Some(error)) else FailedEvent(Some(error)))]
    {
      r := Publish(id, None, Some(error), now);
    }

    method RequestCancel(id: Str, now: Str) returns (r: Option<Status>)
      modifies this
      ensures (Contents(), r) == RequestCancelSpec(old(Contents()), id, now)
    {
      if id !in jobs {
        return None;
      }
      var target;
      if jobs[id].status == Queued {
        target := Cancelled;
      } else if jobs[id].status == Running {
        target := CancelRequested;
      } else {
        return Some(jobs[id].status);
      }
      jobs := jobs[id := jobs[id].(status := target, error := CANCELLED, updated := now)];
      events := events + [Event(id, if target == Cancelled then CancelledEvent else CancelRequestedEvent)];
      return Some(target);
    }

    method CancelRunning(id: Str, now: Str) returns (r: bool)
      modifies this
      ensures (Contents(), r) == CancelRunningSpec(old(Contents()), id, now)
    {
      if id in jobs && jobs[id].purge {
        jobs := jobs - {id};
        events := Without(events, {id});
        assert jobs == Drop(old(Contents()), {id}).jobs;
        return true;
      }
      r := id in jobs && jobs[id].status == CancelRequested;
      if r {
        jobs := jobs[id := jobs[id].(status := Cancelled, error := CANCELLED, updated := now)];
        events := events + [Event(id, CancelledEvent)];
      }
    }

    method Cancel(id: Str, now: Str) returns (r: bool)
      modifies this
      ensures (Contents(), r) == CancelSpec(old(Contents()), id, now)
    {
      r := id in jobs && jobs[id].status == Queued;
      if r {
        jobs := jobs[id := jobs[id].(status := Cancelled, error := CANCELLED, updated := now)];
        events := events + [Event(id, CancelledEvent)];
      }
    }

    /** The first loop of a purge: empty the log of the running jobs and wipe their rows. */
    method TombstoneAll(running: set<Str>, now: Str)
      requires running <= jobs.Keys
      modifies this
      ensures jobs.Keys == old(jobs).Keys
      ensures forall id | id in jobs ::
        jobs[id] == if id in running then Tombstone(old(jobs)[id], now) else old(jobs)[id]
      ensures events == Without(old(events), running)
    {
      var todo := running;
      WithoutNone(events);
      assert running - running == {};
      while todo != {}
        invariant todo <= running && jobs.Keys == old(jobs).Keys
        invariant forall id | id in jobs ::
          jobs[id] == if id in running - todo then Tombstone(old(jobs)[id], now) else old(jobs)[id]
        invariant events == Without(old(events), running - todo)
        decreases todo
      {
        var id :| id in todo;
        WithoutTwice(old(events), running - todo, {id});
        assert running - todo + {id} == running - (todo - {id});
        todo := todo - {id};
        events := Without(events, {id});
        jobs := jobs[id := Tombstone(jobs[id], now)];
      }
      assert running - {} == running;
    }

    /** The second loop: empty the log of the idle jobs. */
    method DeleteEvents(idle: set<Str>)
      modifies this`events
      ensures events == Without(old(events), idle)
    {
      var todo := idle;
      WithoutNone(events);
      assert idle - idle == {};
      while todo != {}
        invariant todo <= idle
        invariant events == Without(old(events), idle - todo)
        decreases todo
      {
        var id :| id in todo;
        WithoutTwice(old(events), idle - todo, {id});
        assert idle - todo + {id} == idle - (todo - {id});
        todo := todo - {id};
        events := Without(events, {id});
      }
      assert idle - {} == idle;
    }

    /** Returns the numbers of deleted jobs, deleted events and tombstones. */
    method PurgePrincipal(principal: Str, now: Str) returns (r: Result<(nat, nat, nat), Error>)
      modifies this
      ensures principal == [] ==> r == Err(ValueError) && Contents() == old(Contents())
      ensures principal != [] ==>
        && Contents() == PurgeSpec(old(Contents()), principal, now)
        && r.Ok?
        && r.value.1 == |old(events)| - |events|
        && r.value.0 == |OwnedBy(old(Contents()), principal) - BusyOf(old(Contents()), principal)|
        && r.value.2 == |BusyOf(old(Contents()), principal)|
    {
      if principal == [] {
        return Err(ValueError);
      }
      ghost var start := Contents();
      var running := BusyOf(Contents(), principal);
      var before := |events|;
      TombstoneAll(running, now);
      var idle := set id | id in jobs && jobs[id].principal == Some(principal);
      IdleRemain(start, principal, now, jobs);
      DeletingIdleCompletesPurge(start, principal, now, jobs);
      DeleteEvents(idle);
      WithoutTwice(start.events, running, idle);
      WithoutShrinks(start.events, OwnedBy(start, principal));
      jobs := jobs - idle;
      assert running + idle == OwnedBy(start, principal) && running !! idle;
      return Ok((|idle|, before - |events|, |running|));
    }

    method SweepPurges(stale: Option<Str>) returns (n: nat)
      modifies this
      ensures Contents() == SweepSpec(old(Contents()), stale)
      ensures n == |Swept(old(Contents()), stale)|
    {
      var idents := Swept(Contents(), stale);
      var todo := idents;
      WithoutNone(events);
      assert idents - idents == {};
      while todo != {}
        invariant todo <= idents
        invariant jobs == old(jobs) - (idents - todo)
        invariant events == Without(old(events), idents - todo)
        decreases todo
      {
        var id :| id in todo;
        WithoutTwice(old(events), idents - todo, {id});
        assert idents - todo + {id} == idents - (todo - {id});
        todo := todo - {id};
        events := Without(events, {id});
        jobs := jobs - {id};
      }
      assert idents - {} == idents;
      assert jobs == SweepSpec(old(Contents()), stale).jobs;
      return |idents|;
    }
  }
}
