/** `meemee/monitors.py`: predicates over source events that fire a bounded number of times, with deduplication of
    identified events. Rows are kept in insertion order, which is the order the evaluation scans them in. Instants
    are integers (module Timestamps). */
module Monitors {
  import opened Text

  // ----- predicates -----

  /** JSON values of an event; `Other` is a list or an object. */
  datatype Value = Null | Bool(b: bool) | Number(n: real) | String(s: Str) | Other(text: Str)

  type Event = map<Str, Value>

  datatype Operator = Eq | Contains | Gt | Gte | Lt | Lte | Exists

  datatype Predicate = Predicate(field: Str, operator: Operator, expected: Value)

  /** `str(value).lower()`: how Python renders a value is not part of this model. */
  type Render = Value -> Str

  predicate Substring(a: Str, b: Str) {
    exists i, j | 0 <= i <= j <= |b| :: b[i..j] == a
  }

  function Field(event: Event, field: Str): Value {
    if field in event then event[field] else Null
  }

  /** Python's `<` on two JSON values; None where it raises TypeError. */
  function LessThan(a: Value, b: Value): Option<bool> {
    match (a, b)
    case (Number(x), Number(y)) => Some(x < y)
    case (String(x), String(y)) => Some(Less(x, y))
    case _ => None
  }

  function Matches(render: Render, p: Predicate, event: Event): bool {
    var value := Field(event, p.field);
    match p.operator
    case Exists => !value.Null?
    case Eq => value == p.expected && !value.Other?
    case Contains => Substring(render(p.expected), render(if value.Null? then String([]) else value))
    case Gt => LessThan(p.expected, value) == Some(true)
    case Gte => LessThan(value, p.expected) == Some(false)
    case Lt => LessThan(value, p.expected) == Some(true)
    case Lte => LessThan(p.expected, value) == Some(false)
  }

  /** The four orderings agree with each other and with equality; a boolean is never ordered, not even against the
      numbers 0 and 1. */
  lemma OrderingsAgree(render: Render, field: Str, expected: Value, event: Event)
    ensures var m := (op: Operator) => Matches(render, Predicate(field, op, expected), event);
      && (m(Gte) <==> m(Gt) || (m(Gte) && m(Eq)))
      && (m(Lte) <==> m(Lt) || (m(Lte) && m(Eq)))
      && !(m(Gt) && m(Lte)) && !(m(Lt) && m(Gte)) && !(m(Gt) && m(Lt))
      && (m(Gt) || m(Lte) <==> LessThan(expected, Field(event, field)).Some?)
    ensures expected.Bool? || Field(event, field).Bool? ==> LessThan(expected, Field(event, field)).None?
  {
    var value := Field(event, field);
    if value.String? && expected.String? {
      LessIsStrict(value.s, expected.s);
      LessIsTotal(value.s, expected.s);
    }
  }

  /** What the operators answer on a number. */
  lemma MatchesOnNumbers(render: Render, field: Str, x: real, expected: real, event: Event)
    requires field in event && event[field] == Number(x)
    ensures var m := (op: Operator) => Matches(render, Predicate(field, op, Number(expected)), event);
      && (m(Gt) <==> x > expected) && (m(Gte) <==> x >= expected)
      && (m(Lt) <==> x < expected) && (m(Lte) <==> x <= expected) && (m(Eq) <==> x == expected)
  {
  }

  /** And on a text. */
  lemma MatchesOnTexts(render: Render, field: Str, x: Str, expected: Str, event: Event)
    requires field in event && event[field] == String(x)
    ensures var m := (op: Operator) => Matches(render, Predicate(field, op, String(expected)), event);
      && (m(Gt) <==> Less(expected, x)) && (m(Gte) <==> Less(expected, x) || x == expected)
      && (m(Lt) <==> Less(x, expected)) && (m(Lte) <==> Less(x, expected) || x == expected)
      && (m(Eq) <==> x == expected)
  {
    LessIsStrict(x, expected);
    LessIsTotal(x, expected);
  }

  /** Everything else is never ordered. A missing field is like a null one, existence is not being null, equality needs
      equal scalars of one type, and containment is between rendered texts, a null field being empty. */
  lemma MatchesOtherwise(render: Render, p: Predicate, event: Event)
    ensures var value := if p.field in event then event[p.field] else Null;
      && (p.operator == Exists ==> (Matches(render, p, event) <==> value != Null))
      && (p.operator == Eq ==> (Matches(render, p, event) <==> value == p.expected && !value.Other?))
      && (p.operator == Contains ==>
            (Matches(render, p, event) <==>
             var text := render(if value == Null then String([]) else value);
             exists i, j | 0 <= i <= j <= |text| :: text[i..j] == render(p.expected)))
      && (p.operator in {Gt, Gte, Lt, Lte}
          && !(value.Number? && p.expected.Number?) && !(value.String? && p.expected.String?) ==>
            !Matches(render, p, event))
  {
  }

  /** How a store decides that a predicate holds of an event. The laws about runs hold for any way to decide it. */
  type Matcher = (Predicate, Event) -> bool

  function MatcherOf(render: Render): Matcher {
    (p, event) => Matches(render, p, event)
  }

  // ----- the tables -----

  datatype Status = Active | Completed | TimedOut | Cancelled

  datatype Monitor = Monitor(
    id: Str, owner: Str, source: Str, condition: Predicate, deadline: Option<int>, maxFires: int, fireCount: int,
    status: Status)

  datatype Kind = CreatedEvent | TriggeredEvent(event: Event) | TimedOutEvent | CancelledEvent

  datatype Entry = Entry(monitor: Str, owner: Str, kind: Kind)

  datatype EventKey = EventKey(owner: Str, source: Str, event: Str)

  /** monitors, monitor_source_events (payload digests) and monitor_events. */
  datatype State = State(monitors: seq<Monitor>, seen: map<EventKey, Str>, log: seq<Entry>)

  const EMPTY := State([], map[], [])

  /** A supplied event identity with the digest of the canonical payload. */
  datatype Identity = Identity(event: Str, digest: Str)

  datatype Outcome =
    | Created(ok: bool)
    | Fired(ids: seq<Str>)
    | Replay
    | Conflict
    | CancelledIs(changed: bool)
    | Deleted

  // ----- evaluation -----

  /** One scanned row: its new version and what is logged for it. */
  function EvaluateRow(matches: Matcher, m: Monitor, owner: Str, source: Str, event: Event, clock: int)
    : (Monitor, Option<Kind>)
  {
    if m.owner != owner || m.source != source || m.status != Active then (m, None)
    else if m.deadline.Some? && m.deadline.value <= clock then (m.(status := TimedOut), Some(TimedOutEvent))
    else if matches(m.condition, event) then
      var count := m.fireCount + 1;
      (m.(fireCount := count, status := if count >= m.maxFires then Completed else Active), Some(TriggeredEvent(event)))
    else (m, None)
  }

  function Logged(id: Str, owner: Str, kind: Option<Kind>): seq<Entry> {
    if kind.Some? then [Entry(id, owner, kind.value)] else []
  }

  function FiredIds(id: Str, kind: Option<Kind>): seq<Str> {
    if kind.Some? && kind.value.TriggeredEvent? then [id] else []
  }

  datatype Scan = Scan(monitors: seq<Monitor>, log: seq<Entry>, fired: seq<Str>)

  function EvaluateRows(matches: Matcher, ms: seq<Monitor>, owner: Str, source: Str, event: Event, clock: int)
    : (r: Scan)
    ensures |r.monitors| == |ms|
  {
    if ms == [] then Scan([], [], [])
    else
      var before := EvaluateRows(matches, ms[..|ms| - 1], owner, source, event, clock);
      var last := ms[|ms| - 1];
      var (m, kind) := EvaluateRow(matches, last, owner, source, event, clock);
      Scan(before.monitors + [m],
           before.log + Logged(last.id, owner, kind),
           before.fired + FiredIds(last.id, kind))
  }

  /** One row further. */
  lemma ScanStep(matches: Matcher, ms: seq<Monitor>, owner: Str, source: Str, event: Event, clock: int, i: nat)
    requires i < |ms|
    ensures var before := EvaluateRows(matches, ms[..i], owner, source, event, clock);
      var (m, kind) := EvaluateRow(matches, ms[i], owner, source, event, clock);
      EvaluateRows(matches, ms[..i + 1], owner, source, event, clock)
        == Scan(before.monitors + [m], before.log + Logged(ms[i].id, owner, kind),
                before.fired + FiredIds(ms[i].id, kind))
  {
    assert ms[..i + 1][..i] == ms[..i];
  }

  /** Where a scan in place has got to after i rows: `now` holds the table, the log and what fired. */
  ghost predicate ScannedTo(
    matches: Matcher, rows: seq<Monitor>, log: seq<Entry>, owner: Str, source: Str, event: Event, clock: int, i: int,
    now: Scan)
  {
    && 0 <= i <= |rows|
    && var done := EvaluateRows(matches, rows[..i], owner, source, event, clock);
       now == Scan(done.monitors + rows[i..], log + done.log, done.fired)
  }

  lemma OneRowFurther(
    matches: Matcher, rows: seq<Monitor>, log: seq<Entry>, owner: Str, source: Str, event: Event, clock: int, i: int,
    now: Scan)
    requires ScannedTo(matches, rows, log, owner, source, event, clock, i, now) && i < |rows|
    ensures |now.monitors| == |rows| && now.monitors[i] == rows[i]
    ensures var (m, kind) := EvaluateRow(matches, rows[i], owner, source, event, clock);
      ScannedTo(matches, rows, log, owner, source, event, clock, i + 1,
                Scan(now.monitors[i := m], now.log + Logged(rows[i].id, owner, kind),
                     now.fired + FiredIds(rows[i].id, kind)))
  {
    var done := EvaluateRows(matches, rows[..i], owner, source, event, clock);
    var (m, kind) := EvaluateRow(matches, rows[i], owner, source, event, clock);
    ScanStep(matches, rows, owner, source, event, clock, i);
    assert (log + done.log) + Logged(rows[i].id, owner, kind) == log + (done.log + Logged(rows[i].id, owner, kind));
    assert (done.monitors + rows[i..])[i := m] == (done.monitors + [m]) + rows[i + 1..];
  }

  datatype Op =
    | Create(monitor: Monitor)
    | Evaluate(owner: Str, source: Str, identity: Option<Identity>, event: Event, clock: int)
    | Cancel(owner: Str, id: Str)
    | DeleteOwner(owner: Str)

  /** `create` writes an active row that has not fired; max_fires is validated to be 1 to 1000. */
  predicate Creatable(s: State, m: Monitor) {
    && m.owner != []
    && (forall i | 0 <= i < |s.monitors| :: s.monitors[i].id != m.id)
    && 1 <= m.maxFires <= 1000
    && m.fireCount == 0
    && m.status == Active
  }

  function EvaluateSpec(
    matches: Matcher, s: State, owner: Str, source: Str, identity: Option<Identity>, event: Event, clock: int)
    : (State, Outcome)
  {
    var key := EventKey(owner, source, if identity.Some? then identity.value.event else []);
    if identity.Some? && key in s.seen then (s, if s.seen[key] == identity.value.digest then Replay else Conflict)
    else
      var seen := if identity.Some? then s.seen[key := identity.value.digest] else s.seen;
      var scan := EvaluateRows(matches, s.monitors, owner, source, event, clock);
      (State(scan.monitors, seen, s.log + scan.log), Fired(scan.fired))
  }

  function CancelRow(m: Monitor, owner: Str, id: Str): (Monitor, bool) {
    if m.owner == owner && m.id == id && m.status == Active then (m.(status := Cancelled), true) else (m, false)
  }

  function CancelRows(ms: seq<Monitor>, owner: Str, id: Str): seq<Monitor> {
    seq(|ms|, i requires 0 <= i < |ms| => CancelRow(ms[i], owner, id).0)
  }

  predicate Cancellable(s: State, owner: Str, id: Str) {
    exists i | 0 <= i < |s.monitors| :: CancelRow(s.monitors[i], owner, id).1
  }

  function CancelSpec(s: State, owner: Str, id: Str): (State, Outcome) {
    if Cancellable(s, owner, id) then
      (s.(monitors := CancelRows(s.monitors, owner, id),
          log := s.log + [Entry(id, owner, CancelledEvent)]),
       CancelledIs(true))
    else (s, CancelledIs(false))
  }

  function MonitorsExcept(ms: seq<Monitor>, owner: Str): seq<Monitor> {
    if ms == [] then []
    else MonitorsExcept(ms[..|ms| - 1], owner) + (if ms[|ms| - 1].owner == owner then [] else [ms[|ms| - 1]])
  }

  function LogExcept(log: seq<Entry>, owner: Str): seq<Entry> {
    if log == [] then []
    else LogExcept(log[..|log| - 1], owner) + (if log[|log| - 1].owner == owner then [] else [log[|log| - 1]])
  }

  function DeleteOwnerSpec(s: State, owner: Str): State {
    State(MonitorsExcept(s.monitors, owner), map k | k in s.seen && k.owner != owner :: s.seen[k],
          LogExcept(s.log, owner))
  }

  function Apply(matches: Matcher, s: State, op: Op): (State, Outcome) {
    match op
    case Create(m) =>
      if Creatable(s, m) then
        (s.(monitors := s.monitors + [m], log := s.log + [Entry(m.id, m.owner, CreatedEvent)]), Created(true))
      else (s, Created(false))
    case Evaluate(owner, source, identity, event, clock) =>
      EvaluateSpec(matches, s, owner, source, identity, event, clock)
    case Cancel(owner, id) => CancelSpec(s, owner, id)
    case DeleteOwner(owner) => if owner == [] then (s, Deleted) else (DeleteOwnerSpec(s, owner), Deleted)
  }

  function Run(matches: Matcher, s: State, ops: seq<Op>): State
    decreases |ops|
  {
    if ops == [] then s else Run(matches, Apply(matches, s, ops[0]).0, ops[1..])
  }

  // ----- what each operation records -----

  /** An active row of the event's owner and source times out at its deadline, fires before it if its condition holds,
      and is left alone otherwise, as is every other row. */
  lemma RowExactly(render: Render, m: Monitor, owner: Str, source: Str, event: Event, clock: int)
    ensures var (n, kind) := EvaluateRow(MatcherOf(render), m, owner, source, event, clock);
      var selected := m.owner == owner && m.source == source && m.status == Active;
      var over := m.deadline.Some? && m.deadline.value <= clock;
      && (kind == Some(TimedOutEvent) <==> selected && over)
      && (kind == Some(TriggeredEvent(event)) <==> selected && !over && Matches(render, m.condition, event))
      && (kind == None || kind == Some(TimedOutEvent) || kind == Some(TriggeredEvent(event)))
      && n == m.(status := n.status, fireCount := n.fireCount)
      && n.fireCount == (if kind == Some(TriggeredEvent(event)) then m.fireCount + 1 else m.fireCount)
      && n.status == (if kind == Some(TimedOutEvent) then TimedOut
                      else if kind == None || n.fireCount < m.maxFires then m.status else Completed)
  {
  }

  /** An evaluation answers with the rows that fired. */
  lemma {:induction false} FiredExactly(
    matches: Matcher, ms: seq<Monitor>, owner: Str, source: Str, event: Event, clock: int, id: Str)
    ensures id in EvaluateRows(matches, ms, owner, source, event, clock).fired <==>
      exists i | 0 <= i < |ms| ::
        ms[i].id == id && EvaluateRow(matches, ms[i], owner, source, event, clock).1 == Some(TriggeredEvent(event))
    decreases |ms|
  {
    if ms != [] {
      var front, last := ms[..|ms| - 1], ms[|ms| - 1];
      FiredExactly(matches, front, owner, source, event, clock, id);
      assert forall i | 0 <= i < |front| :: ms[i] == front[i];
    }
  }

  /** A repeated event identity is answered by its digest alone; otherwise the identity is written down and every row is
      evaluated by itself. */
  lemma EvaluateExactly(
    matches: Matcher, s: State, owner: Str, source: Str, identity: Option<Identity>, event: Event, clock: int)
    ensures var (t, r) := Apply(matches, s, Evaluate(owner, source, identity, event, clock));
      var repeated := identity.Some? && EventKey(owner, source, identity.value.event) in s.seen;
      && (repeated ==>
            && t == s
            && r == (if s.seen[EventKey(owner, source, identity.value.event)] == identity.value.digest then Replay
                     else Conflict))
      && (!repeated ==>
            && r.Fired?
            && t.seen == (if identity == None then s.seen
                          else s.seen[EventKey(owner, source, identity.value.event) := identity.value.digest])
            && |t.monitors| == |s.monitors|
            && (forall i | 0 <= i < |s.monitors| ::
                  t.monitors[i] == EvaluateRow(matches, s.monitors[i], owner, source, event, clock).0)
            && (forall id :: id in r.ids <==> exists i | 0 <= i < |s.monitors| ::
                  && s.monitors[i].id == id
                  && EvaluateRow(matches, s.monitors[i], owner, source, event, clock).1 == Some(TriggeredEvent(event))))
  {
    var scan := EvaluateRows(matches, s.monitors, owner, source, event, clock);
    forall i | 0 <= i < |s.monitors|
      ensures scan.monitors[i] == EvaluateRow(matches, s.monitors[i], owner, source, event, clock).0
    {
      ScanIsPointwise(matches, s.monitors, owner, source, event, clock, i);
    }
    forall id ensures id in scan.fired <==> exists i | 0 <= i < |s.monitors| ::
      && s.monitors[i].id == id
      && EvaluateRow(matches, s.monitors[i], owner, source, event, clock).1 == Some(TriggeredEvent(event))
    {
      FiredExactly(matches, s.monitors, owner, source, event, clock, id);
    }
  }

  /** A creation adds one row that has not fired, for an owner that is not empty, and logs it. */
  lemma CreateExactly(matches: Matcher, s: State, m: Monitor)
    ensures var (t, r) := Apply(matches, s, Create(m));
      && (r == Created(true) <==>
            && m.owner != [] && 1 <= m.maxFires <= 1000 && m.fireCount == 0 && m.status == Active
            && forall i | 0 <= i < |s.monitors| :: s.monitors[i].id != m.id)
      && (r == Created(true) ==>
            t == State(s.monitors + [m], s.seen, s.log + [Entry(m.id, m.owner, CreatedEvent)]))
      && (r != Created(true) ==> r == Created(false) && t == s)
  {
  }

  /** A cancellation ends the active monitor of this owner with this identifier, logs it, and changes nothing else. */
  lemma CancelExactly(matches: Matcher, s: State, owner: Str, id: Str)
    ensures var (t, r) := Apply(matches, s, Cancel(owner, id));
      && (r == CancelledIs(true) <==> exists i | 0 <= i < |s.monitors| ::
            s.monitors[i].id == id && s.monitors[i].owner == owner && s.monitors[i].status == Active)
      && (r != CancelledIs(true) ==> r == CancelledIs(false) && t == s)
      && (r == CancelledIs(true) ==>
            && t.seen == s.seen && t.log == s.log + [Entry(id, owner, CancelledEvent)]
            && |t.monitors| == |s.monitors|
            && forall i | 0 <= i < |s.monitors| ::
                 t.monitors[i] ==
                   if s.monitors[i].id == id && s.monitors[i].owner == owner && s.monitors[i].status == Active then
                     s.monitors[i].(status := Cancelled)
                   else s.monitors[i])
  {
    if i :| 0 <= i < |s.monitors| && s.monitors[i].id == id && s.monitors[i].owner == owner
            && s.monitors[i].status == Active {
      assert CancelRow(s.monitors[i], owner, id).1;
    }
  }

  /** Deleting an owner leaves no row, entry or recorded event of the owner, and everything of everybody else. */
  lemma DeleteOwnerExactly(matches: Matcher, s: State, owner: Str)
    requires owner != []
    ensures var t := Apply(matches, s, DeleteOwner(owner)).0;
      && (forall m :: m in t.monitors <==> m in s.monitors && m.owner != owner)
      && (forall e :: e in t.log <==> e in s.log && e.owner != owner)
      && (forall k :: k in t.seen <==> k in s.seen && k.owner != owner)
      && (forall k | k in t.seen :: t.seen[k] == s.seen[k])
  {
    MonitorsExceptAt(s.monitors, owner);
    LogExceptAt(s.log, owner);
    var t := DeleteOwnerSpec(s, owner);
    forall m | m in t.monitors ensures m in s.monitors && m.owner != owner {
      var i :| 0 <= i < |t.monitors| && t.monitors[i] == m;
    }
    forall e | e in t.log ensures e in s.log && e.owner != owner {
      var i :| 0 <= i < |t.log| && t.log[i] == e;
      assert LogExcept(s.log, owner)[i] in s.log;
    }
  }

  // ----- counting -----

  function Triggers(log: seq<Entry>, id: Str): nat {
    if log == [] then 0
    else
      var last := log[|log| - 1];
      Triggers(log[..|log| - 1], id) + (if last.monitor == id && last.kind.TriggeredEvent? then 1 else 0)
  }

  ghost predicate Distinct(ms: seq<Monitor>) {
    forall i, j | 0 <= i < j < |ms| :: ms[i].id != ms[j].id
  }

  ghost predicate RowInvariant(m: Monitor, log: seq<Entry>) {
    && m.fireCount == Triggers(log, m.id)
    && m.maxFires >= 1
    && (m.status == Completed ==> m.fireCount == m.maxFires)
    && (m.status != Completed ==> m.fireCount < m.maxFires)
  }

  ghost predicate LogInvariant(ms: seq<Monitor>, e: Entry) {
    exists i | 0 <= i < |ms| :: ms[i].id == e.monitor && ms[i].owner == e.owner
  }

  ghost predicate Invariant(s: State) {
    && Distinct(s.monitors)
    && (forall i | 0 <= i < |s.monitors| :: RowInvariant(s.monitors[i], s.log))
    && (forall i | 0 <= i < |s.log| :: LogInvariant(s.monitors, s.log[i]))
  }

  lemma {:induction false} TriggersConcat(a: seq<Entry>, b: seq<Entry>, id: Str)
    ensures Triggers(a + b, id) == Triggers(a, id) + Triggers(b, id)
    decreases |b|
  {
    if b == [] {
      assert a + b == a;
    } else {
      assert (a + b)[..|a + b| - 1] == a + b[..|b| - 1];
      TriggersConcat(a, b[..|b| - 1], id);
    }
  }

  lemma {:induction false} NoTriggers(log: seq<Entry>, id: Str)
    requires forall i | 0 <= i < |log| :: log[i].monitor != id
    ensures Triggers(log, id) == 0
  {
    if log != [] {
      NoTriggers(log[..|log| - 1], id);
    }
  }

  /** A scan treats each row by itself. */
  lemma {:induction false} ScanIsPointwise(
    matches: Matcher, ms: seq<Monitor>, owner: Str, source: Str, event: Event, clock: int, i: nat)
    requires i < |ms|
    ensures EvaluateRows(matches, ms, owner, source, event, clock).monitors[i]
      == EvaluateRow(matches, ms[i], owner, source, event, clock).0
    decreases |ms|
  {
    if i < |ms| - 1 {
      ScanIsPointwise(matches, ms[..|ms| - 1], owner, source, event, clock, i);
    }
  }

  /** A scan logs only for scanned rows of the event's owner. */
  lemma {:induction false} ScanLogsOwnRows(
    matches: Matcher, ms: seq<Monitor>, owner: Str, source: Str, event: Event, clock: int, j: nat)
    requires j < |EvaluateRows(matches, ms, owner, source, event, clock).log|
    ensures LogInvariant(ms, EvaluateRows(matches, ms, owner, source, event, clock).log[j])
    decreases |ms|
  {
    var front := ms[..|ms| - 1];
    var before := EvaluateRows(matches, front, owner, source, event, clock);
    if j < |before.log| {
      ScanLogsOwnRows(matches, front, owner, source, event, clock, j);
      var i :| 0 <= i < |front| && front[i].id == before.log[j].monitor && front[i].owner == before.log[j].owner;
      assert ms[i] == front[i];
    } else {
      assert ms[|ms| - 1].owner == owner;
    }
  }

  /** No entry of a scan is about a row that was not scanned. */
  lemma UnscannedRow(
    matches: Matcher, ms: seq<Monitor>, owner: Str, source: Str, event: Event, clock: int, id: Str)
    requires forall i | 0 <= i < |ms| :: ms[i].id != id
    ensures Triggers(EvaluateRows(matches, ms, owner, source, event, clock).log, id) == 0
  {
    var log := EvaluateRows(matches, ms, owner, source, event, clock).log;
    forall j | 0 <= j < |log| ensures log[j].monitor != id {
      ScanLogsOwnRows(matches, ms, owner, source, event, clock, j);
    }
    NoTriggers(log, id);
  }

  /** The last scanned row adds its own entry, if any, to the log of the rows before it. */
  lemma LastScanned(
    matches: Matcher, ms: seq<Monitor>, owner: Str, source: Str, event: Event, clock: int, id: Str)
    requires ms != []
    ensures var last := ms[|ms| - 1];
      Triggers(EvaluateRows(matches, ms, owner, source, event, clock).log, id)
        == Triggers(EvaluateRows(matches, ms[..|ms| - 1], owner, source, event, clock).log, id)
           + (if last.id == id then Raised(matches, last, owner, source, event, clock) else 0)
  {
    var last := ms[|ms| - 1];
    var before := EvaluateRows(matches, ms[..|ms| - 1], owner, source, event, clock);
    var (m, kind) := EvaluateRow(matches, last, owner, source, event, clock);
    if kind.Some? {
      AppendTrigger(before.log, Entry(last.id, owner, kind.value), id);
    } else {
      assert before.log + Logged(last.id, owner, kind) == before.log;
    }
  }

  /** By how much one evaluation raises a row's fire count. */
  function Raised(matches: Matcher, m: Monitor, owner: Str, source: Str, event: Event, clock: int): int {
    EvaluateRow(matches, m, owner, source, event, clock).0.fireCount - m.fireCount
  }

  /** A scan logs one trigger for a row exactly when it raises the row's count. */
  lemma {:induction false} ScanCountsTriggers(
    matches: Matcher, ms: seq<Monitor>, owner: Str, source: Str, event: Event, clock: int, i: nat)
    requires i < |ms| && (forall j | 0 <= j < |ms| && j != i :: ms[j].id != ms[i].id)
    ensures Triggers(EvaluateRows(matches, ms, owner, source, event, clock).log, ms[i].id)
      == Raised(matches, ms[i], owner, source, event, clock)
    decreases |ms|
  {
    var front := ms[..|ms| - 1];
    LastScanned(matches, ms, owner, source, event, clock, ms[i].id);
    if i < |front| {
      assert front[i] == ms[i];
      ScanCountsTriggers(matches, front, owner, source, event, clock, i);
    } else {
      UnscannedRow(matches, front, owner, source, event, clock, ms[i].id);
    }
  }

  lemma AppendTrigger(log: seq<Entry>, e: Entry, id: Str)
    ensures Triggers(log + [e], id) == Triggers(log, id) + (if e.monitor == id && e.kind.TriggeredEvent? then 1 else 0)
  {
    assert (log + [e])[..|log + [e]| - 1] == log;
  }

  /** Row `n` replaces row `m` while `added` is logged: identity kept, every logged trigger counted. */
  ghost predicate Replaces(m: Monitor, n: Monitor, added: seq<Entry>) {
    && n.id == m.id && n.owner == m.owner && n.maxFires == m.maxFires
    && n.fireCount == m.fireCount + Triggers(added, m.id)
    && (n.status == Completed ==> n.fireCount == n.maxFires)
    && (n.status != Completed ==> n.fireCount < n.maxFires)
  }

  lemma ReplacedRow(m: Monitor, n: Monitor, log: seq<Entry>, added: seq<Entry>)
    requires RowInvariant(m, log) && Replaces(m, n, added)
    ensures RowInvariant(n, log + added)
  {
    TriggersConcat(log, added, m.id);
  }

  /** Rows replaced one by one, with a log extension that accounts for the changed counts. */
  lemma ReplacingRows(s: State, ms: seq<Monitor>, added: seq<Entry>, seen: map<EventKey, Str>)
    requires Invariant(s) && |ms| == |s.monitors|
    requires forall i | 0 <= i < |ms| :: Replaces(s.monitors[i], ms[i], added)
    requires forall j | 0 <= j < |added| :: LogInvariant(s.monitors, added[j])
    ensures Invariant(State(ms, seen, s.log + added))
  {
    forall i | 0 <= i < |ms| ensures RowInvariant(ms[i], s.log + added) {
      ReplacedRow(s.monitors[i], ms[i], s.log, added);
    }
    forall j | 0 <= j < |s.log + added| ensures LogInvariant(ms, (s.log + added)[j]) {
      SameOwners(s.monitors, ms, (s.log + added)[j]);
    }
    assert Distinct(ms);
  }

  lemma SameOwners(ms: seq<Monitor>, ns: seq<Monitor>, e: Entry)
    requires LogInvariant(ms, e) && |ms| == |ns|
    requires forall i | 0 <= i < |ms| :: ns[i].id == ms[i].id && ns[i].owner == ms[i].owner
    ensures LogInvariant(ns, e)
  {
    var i :| 0 <= i < |ms| && ms[i].id == e.monitor && ms[i].owner == e.owner;
    assert ns[i].id == e.monitor;
  }

  lemma ScannedRow(
    matches: Matcher, ms: seq<Monitor>, log: seq<Entry>, owner: Str, source: Str, event: Event, clock: int, i: nat)
    requires Distinct(ms) && i < |ms| && RowInvariant(ms[i], log)
    ensures var r := EvaluateRows(matches, ms, owner, source, event, clock);
      Replaces(ms[i], r.monitors[i], r.log)
  {
    ScanIsPointwise(matches, ms, owner, source, event, clock, i);
    ScanCountsTriggers(matches, ms, owner, source, event, clock, i);
  }

  lemma EvaluateKeepsInvariant(
    matches: Matcher, s: State, owner: Str, source: Str, event: Event, clock: int, seen: map<EventKey, Str>)
    requires Invariant(s)
    ensures var r := EvaluateRows(matches, s.monitors, owner, source, event, clock);
      Invariant(State(r.monitors, seen, s.log + r.log))
  {
    var ms, r := s.monitors, EvaluateRows(matches, s.monitors, owner, source, event, clock);
    forall i | 0 <= i < |ms| ensures Replaces(ms[i], r.monitors[i], r.log) {
      ScannedRow(matches, ms, s.log, owner, source, event, clock, i);
    }
    forall j | 0 <= j < |r.log| ensures LogInvariant(ms, r.log[j]) {
      ScanLogsOwnRows(matches, ms, owner, source, event, clock, j);
    }
    ReplacingRows(s, r.monitors, r.log, seen);
  }

  lemma CancelKeepsInvariant(s: State, owner: Str, id: Str)
    requires Invariant(s)
    ensures Invariant(CancelSpec(s, owner, id).0)
  {
    if Cancellable(s, owner, id) {
      var t := CancelSpec(s, owner, id).0;
      var added := [Entry(id, owner, CancelledEvent)];
      forall i | 0 <= i < |s.monitors| ensures Replaces(s.monitors[i], t.monitors[i], added) {
        assert RowInvariant(s.monitors[i], s.log);
      }
      var i :| 0 <= i < |s.monitors| && CancelRow(s.monitors[i], owner, id).1;
      assert LogInvariant(s.monitors, added[0]);
      ReplacingRows(s, t.monitors, added, s.seen);
    }
  }

  lemma CreateKeepsInvariant(s: State, m: Monitor)
    requires Invariant(s) && Creatable(s, m)
    ensures Invariant(s.(monitors := s.monitors + [m], log := s.log + [Entry(m.id, m.owner, CreatedEvent)]))
  {
    var ms, log := s.monitors + [m], s.log + [Entry(m.id, m.owner, CreatedEvent)];
    forall j | 0 <= j < |s.log| ensures LogInvariant(ms, s.log[j]) && s.log[j].monitor != m.id {
      assert LogInvariant(s.monitors, s.log[j]);
      var i :| 0 <= i < |s.monitors| && s.monitors[i].id == s.log[j].monitor && s.monitors[i].owner == s.log[j].owner;
      assert ms[i] == s.monitors[i];
    }
    NoTriggers(s.log, m.id);
    forall i | 0 <= i < |ms| ensures RowInvariant(ms[i], log) {
      AppendTrigger(s.log, Entry(m.id, m.owner, CreatedEvent), ms[i].id);
      assert i < |s.monitors| ==> RowInvariant(s.monitors[i], s.log);
    }
    assert ms[|ms| - 1] == m;
  }

  // ----- deleting an owner -----

  /** Exactly the monitors of everybody else are left. */
  lemma {:induction false} MonitorsExceptAt(ms: seq<Monitor>, owner: Str)
    ensures var r := MonitorsExcept(ms, owner);
      && (forall i | 0 <= i < |r| :: r[i].owner != owner)
      && (forall i | 0 <= i < |r| :: r[i] in ms)
      && (forall m | m in ms && m.owner != owner :: m in r)
  {
    if ms != [] {
      MonitorsExceptAt(ms[..|ms| - 1], owner);
      assert ms == ms[..|ms| - 1] + [ms[|ms| - 1]];
    }
  }

  lemma {:induction false} MonitorsExceptIsDistinct(ms: seq<Monitor>, owner: Str)
    requires Distinct(ms)
    ensures Distinct(MonitorsExcept(ms, owner))
  {
    if ms != [] {
      var front, last := ms[..|ms| - 1], ms[|ms| - 1];
      var r := MonitorsExcept(front, owner);
      MonitorsExceptIsDistinct(front, owner);
      MonitorsExceptAt(front, owner);
      forall i | 0 <= i < |r| ensures r[i].id != last.id {
        assert r[i] in front;
      }
    }
  }

  lemma {:induction false} LogExceptKeeps(log: seq<Entry>, owner: Str, id: Str)
    requires forall j | 0 <= j < |log| && log[j].monitor == id :: log[j].owner != owner
    ensures Triggers(LogExcept(log, owner), id) == Triggers(log, id)
  {
    if log != [] {
      var front, last := log[..|log| - 1], log[|log| - 1];
      LogExceptKeeps(front, owner, id);
      if last.owner == owner {
        assert LogExcept(log, owner) == LogExcept(front, owner);
      } else {
        AppendTrigger(LogExcept(front, owner), last, id);
      }
    }
  }

  /** Exactly the entries of everybody else are left. */
  lemma {:induction false} LogExceptAt(log: seq<Entry>, owner: Str)
    ensures var r := LogExcept(log, owner);
      && (forall i | 0 <= i < |r| :: r[i].owner != owner)
      && (forall i | 0 <= i < |r| :: r[i] in log)
      && (forall e | e in log && e.owner != owner :: e in r)
  {
    if log != [] {
      LogExceptAt(log[..|log| - 1], owner);
      assert log == log[..|log| - 1] + [log[|log| - 1]];
    }
  }

  lemma DeleteOwnerKeepsInvariant(s: State, owner: Str)
    requires Invariant(s)
    ensures Invariant(DeleteOwnerSpec(s, owner))
  {
    var t := DeleteOwnerSpec(s, owner);
    MonitorsExceptAt(s.monitors, owner);
    MonitorsExceptIsDistinct(s.monitors, owner);
    LogExceptAt(s.log, owner);
    forall i | 0 <= i < |t.monitors| ensures RowInvariant(t.monitors[i], t.log) {
      var m := t.monitors[i];
      var k :| 0 <= k < |s.monitors| && s.monitors[k] == m;
      forall j | 0 <= j < |s.log| && s.log[j].monitor == m.id ensures s.log[j].owner != owner {
        assert LogInvariant(s.monitors, s.log[j]);
      }
      LogExceptKeeps(s.log, owner, m.id);
      assert RowInvariant(s.monitors[k], s.log);
    }
    forall j | 0 <= j < |t.log| ensures LogInvariant(t.monitors, t.log[j]) {
      var k :| 0 <= k < |s.log| && s.log[k] == t.log[j];
      assert LogInvariant(s.monitors, s.log[k]);
      var i :| 0 <= i < |s.monitors| && s.monitors[i].id == t.log[j].monitor && s.monitors[i].owner == t.log[j].owner;
      assert s.monitors[i] in t.monitors;
    }
  }

  lemma StepKeepsInvariant(matches: Matcher, s: State, op: Op)
    requires Invariant(s)
    ensures Invariant(Apply(matches, s, op).0)
  {
    match op
    case Create(m) =>
      if Creatable(s, m) {
        CreateKeepsInvariant(s, m);
      }
    case Evaluate(owner, source, identity, event, clock) =>
      EvaluateKeepsInvariant(matches, s, owner, source, event, clock, Apply(matches, s, op).0.seen);
    case Cancel(owner, id) => CancelKeepsInvariant(s, owner, id);
    case DeleteOwner(owner) => DeleteOwnerKeepsInvariant(s, owner);
  }

  lemma {:induction false} RunKeepsInvariant(matches: Matcher, s: State, ops: seq<Op>)
    requires Invariant(s)
    ensures Invariant(Run(matches, s, ops))
    decreases |ops|
  {
    if ops != [] {
      StepKeepsInvariant(matches, s, ops[0]);
      RunKeepsInvariant(matches, Apply(matches, s, ops[0]).0, ops[1..]);
    }
  }

  /** In every reachable state a monitor's fire count is the number of its triggered entries, never exceeds max_fires,
      and reaches it exactly when the monitor is completed. */
  lemma FireCountIsExact(matches: Matcher, ops: seq<Op>, i: nat)
    requires i < |Run(matches, EMPTY, ops).monitors|
    ensures var s := Run(matches, EMPTY, ops);
      var m := s.monitors[i];
      && m.fireCount == Triggers(s.log, m.id) <= m.maxFires
      && (m.fireCount == m.maxFires <==> m.status == Completed)
  {
    RunKeepsInvariant(matches, EMPTY, ops);
    assert RowInvariant(Run(matches, EMPTY, ops).monitors[i], Run(matches, EMPTY, ops).log);
  }

  // ----- deduplication -----

  function KeyOf(op: Op): Option<EventKey> {
    if op.Evaluate? && op.identity.Some? then Some(EventKey(op.owner, op.source, op.identity.value.event)) else None
  }

  predicate Repeated(keys: set<EventKey>, op: Op) {
    KeyOf(op).Some? && KeyOf(op).value in keys
  }

  function Remember(keys: set<EventKey>, op: Op): set<EventKey> {
    if KeyOf(op).Some? then keys + {KeyOf(op).value} else keys
  }

  /** The run without every identified evaluation whose key came before, in the run or in `keys`. */
  function Deduplicated(keys: set<EventKey>, ops: seq<Op>): seq<Op>
    decreases |ops|
  {
    if ops == [] then []
    else if Repeated(keys, ops[0]) then Deduplicated(keys, ops[1..])
    else [ops[0]] + Deduplicated(Remember(keys, ops[0]), ops[1..])
  }

  function Outcomes(matches: Matcher, s: State, ops: seq<Op>): seq<Outcome>
    decreases |ops|
  {
    if ops == [] then []
    else
      var (t, outcome) := Apply(matches, s, ops[0]);
      [outcome] + Outcomes(matches, t, ops[1..])
  }

  /** The outcomes, in the full run, of the operations that the deduplicated run keeps. */
  function KeptOutcomes(matches: Matcher, s: State, keys: set<EventKey>, ops: seq<Op>): seq<Outcome>
    decreases |ops|
  {
    if ops == [] then []
    else
      var (t, outcome) := Apply(matches, s, ops[0]);
      if Repeated(keys, ops[0]) then KeptOutcomes(matches, t, keys, ops[1..])
      else [outcome] + KeptOutcomes(matches, t, Remember(keys, ops[0]), ops[1..])
  }

  lemma KeysAreRecorded(matches: Matcher, s: State, op: Op)
    requires !op.DeleteOwner?
    ensures Apply(matches, s, op).0.seen.Keys == Remember(s.seen.Keys, op)
    ensures Repeated(s.seen.Keys, op) ==> Apply(matches, s, op).0 == s && Apply(matches, s, op).1 in {Replay, Conflict}
  {
  }

  /** Re-sent events change nothing: dropping every repeated identified evaluation leaves monitors, log, recorded keys
      and all other outcomes as they were. */
  lemma {:induction false} DeduplicationIsInvisible(matches: Matcher, s: State, ops: seq<Op>)
    requires forall op | op in ops :: !op.DeleteOwner?
    ensures Run(matches, s, Deduplicated(s.seen.Keys, ops)) == Run(matches, s, ops)
    ensures Outcomes(matches, s, Deduplicated(s.seen.Keys, ops)) == KeptOutcomes(matches, s, s.seen.Keys, ops)
    decreases |ops|
  {
    if ops != [] {
      var t := Apply(matches, s, ops[0]).0;
      KeysAreRecorded(matches, s, ops[0]);
      DeduplicationIsInvisible(matches, t, ops[1..]);
      if !Repeated(s.seen.Keys, ops[0]) {
        var kept := Deduplicated(s.seen.Keys, ops);
        assert kept[0] == ops[0] && kept[1..] == Deduplicated(t.seen.Keys, ops[1..]);
      }
    }
  }

  // ----- the store -----

  class MonitorStore {
    var monitors: seq<Monitor>
    var seen: map<EventKey, Str>
    var log: seq<Entry>
    const render: Render

    ghost function Contents(): State
      reads this
    {
      State(monitors, seen, log)
    }

    constructor (render: Render)
      ensures Contents() == EMPTY && this.render == render
    {
      this.render := render;
      monitors, seen, log := [], map[], [];
    }

    method Create(monitor: Monitor) returns (ok: bool)
      modifies this
      ensures (Contents(), Created(ok)) == Apply(MatcherOf(render), old(Contents()), Op.Create(monitor))
    {
      ok := Creatable(State(monitors, seen, log), monitor);
      if ok {
        monitors := monitors + [monitor];
        log := log + [Entry(monitor.id, monitor.owner, CreatedEvent)];
      }
    }

    /** One scanned row: timed out, fired or left alone. */
    method Settle(i: nat, owner: Str, source: Str, event: Event, clock: int) returns (kind: Option<Kind>)
      requires i < |monitors|
      modifies `monitors, `log
      ensures var (m, k) := EvaluateRow(MatcherOf(render), old(monitors[i]), owner, source, event, clock);
        && kind == k
        && monitors == old(monitors)[i := m]
        && log == old(log) + Logged(old(monitors[i]).id, owner, k)
    {
      var row := monitors[i];
      kind := None;
      if row.owner == owner && row.source == source && row.status == Active {
        if row.deadline.Some? && row.deadline.value <= clock {
          monitors := monitors[i := row.(status := TimedOut)];
          kind := Some(TimedOutEvent);
        } else if Matches(render, row.condition, event) {
          var count := row.fireCount + 1;
          monitors := monitors[i := row.(
            fireCount := count, status := if count >= row.maxFires then Completed else Active)];
          kind := Some(TriggeredEvent(event));
        }
      }
      log := log + Logged(row.id, owner, kind);
    }

    /** The scan of the selected rows. */
    method ScanRows(owner: Str, source: Str, event: Event, clock: int) returns (fired: seq<Str>)
      modifies `monitors, `log
      ensures var scan := EvaluateRows(MatcherOf(render), old(monitors), owner, source, event, clock);
        monitors == scan.monitors && log == old(log) + scan.log && fired == scan.fired
    {
      var rows := monitors;
      fired := [];
      assert rows[..0] == [];
      for i := 0 to |rows|
        invariant ScannedTo(
          MatcherOf(render), rows, old(log), owner, source, event, clock, i, Scan(monitors, log, fired))
      {
        OneRowFurther(
          MatcherOf(render), rows, old(log), owner, source, event, clock, i, Scan(monitors, log, fired));
        var kind := Settle(i, owner, source, event, clock);
        fired := fired + FiredIds(rows[i].id, kind);
      }
      assert rows[..|rows|] == rows;
    }

    /** One transaction: record the event identity, then scan the owner's active rows for the source. */
    method EvaluateIdentified(owner: Str, source: Str, identity: Option<Identity>, event: Event, clock: int)
      returns (outcome: Outcome)
      modifies this
      ensures (Contents(), outcome)
        == Apply(MatcherOf(render), old(Contents()), Evaluate(owner, source, identity, event, clock))
    {
      if identity.Some? {
        var key := EventKey(owner, source, identity.value.event);
        if key in seen {
          return if seen[key] == identity.value.digest then Replay else Conflict;
        }
        seen := seen[key := identity.value.digest];
      }
      var fired := ScanRows(owner, source, event, clock);
      outcome := Fired(fired);
    }

    method Cancel(owner: Str, id: Str) returns (changed: bool)
      modifies this
      ensures (Contents(), CancelledIs(changed)) == Apply(MatcherOf(render), old(Contents()), Op.Cancel(owner, id))
    {
      changed := Cancellable(State(monitors, seen, log), owner, id);
      if changed {
        monitors := CancelRows(monitors, owner, id);
        log := log + [Entry(id, owner, CancelledEvent)];
      }
    }

    /** Refuses an empty owner, as the source raises ValueError. */
    method DeleteOwner(owner: Str) returns (ok: bool)
      modifies this
      ensures ok <==> owner != []
      ensures (Contents(), Deleted) == Apply(MatcherOf(render), old(Contents()), Op.DeleteOwner(owner))
    {
      ok := owner != [];
      if ok {
        seen := map k | k in seen && k.owner != owner :: seen[k];
        log := LogExcept(log, owner);
        monitors := MonitorsExcept(monitors, owner);
      }
    }
  }
}
