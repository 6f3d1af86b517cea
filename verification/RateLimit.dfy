/** `meemee/rate_limit.py`: the fixed-window limiter, what it admits in aligned and in sliding intervals, and why
    dropping old rows is invisible. Clock readings are real seconds. */
module RateLimit {
  import opened Text

  datatype Limits = Limits(limit: int, window: int)

  predicate ValidConfig(c: Limits) {
    c.limit >= 1 && c.window >= 1
  }

  type Config = c: Limits | ValidConfig(c) witness Limits(60, 60)

  /** One counter per identity and window start. */
  type Rows = map<(Str, int), nat>

  /** Python's `int` of a float: towards zero. */
  function Truncated(now: real): (second: int)
    ensures now >= 0.0 ==> second as real <= now < second as real + 1.0
    ensures now <= 0.0 ==> second as real - 1.0 < now <= second as real
  {
    if now >= 0.0 then now.Floor else -(-now).Floor
  }

  /** The start of the aligned window of a second; the remainder has the sign of the window, as in Python. */
  function Start(c: Config, second: int): (r: int)
    ensures r <= second < r + c.window
    ensures r % c.window == 0
  {
    StartIsAligned(second, c.window);
    second - second % c.window
  }

  lemma StartIsAligned(second: int, window: int)
    requires window >= 1
    ensures (second - second % window) % window == 0
  {
    var q := second / window;
    assert second - second % window == q * window;
    MultipleHasNoRemainder(q, window);
  }

  lemma MultipleHasNoRemainder(q: int, window: int)
    requires window >= 1
    ensures (q * window) % window == 0
  {
    var m := q * window;
    var d, r := m / window, m % window;
    assert r == (q - d) * window;
    assert q - d >= 1 ==> r >= window;
    assert q - d <= -1 ==> r <= -window;
  }

  function Max(a: int, b: int): int {
    if a >= b then a else b
  }

  function Min(a: int, b: int): int {
    if a <= b then a else b
  }

  datatype Answer = Answer(identity: Str, second: int, allowed: bool, remaining: int, reset: int)

  function CountIn(rows: Rows, key: (Str, int)): nat {
    if key in rows then rows[key] else 0
  }

  function HitSpec(c: Config, rows: Rows, identity: Str, now: real): (Rows, Answer) {
    var second := Truncated(now);
    var start := Start(c, second);
    var count := CountIn(rows, (identity, start)) + 1;
    (rows[(identity, start) := count],
     Answer(identity, second, count <= c.limit, Max(c.limit - count, 0), start + c.window))
  }

  function CleanupSpec(c: Config, rows: Rows, now: real): Rows {
    map k | k in rows && k.1 >= Truncated(now) - c.window * 2 :: rows[k]
  }

  datatype Op = Hit(identity: Str, now: real) | Cleanup(now: real)

  function Apply(c: Config, rows: Rows, op: Op): Rows {
    match op
    case Hit(identity, now) => HitSpec(c, rows, identity, now).0
    case Cleanup(now) => CleanupSpec(c, rows, now)
  }

  /** The answers to the hits of a run. */
  function Answers(c: Config, rows: Rows, ops: seq<Op>): seq<Answer>
    decreases |ops|
  {
    if ops == [] then []
    else
      (if ops[0].Hit? then [HitSpec(c, rows, ops[0].identity, ops[0].now).1] else [])
        + Answers(c, Apply(c, rows, ops[0]), ops[1..])
  }

  function HitsOnly(ops: seq<Op>): seq<Op>
    decreases |ops|
  {
    if ops == [] then [] else (if ops[0].Hit? then [ops[0]] else []) + HitsOnly(ops[1..])
  }

  predicate Monotone(ops: seq<Op>) {
    forall i, j | 0 <= i < j < |ops| :: ops[i].now <= ops[j].now
  }

  // ----- cleaning up -----

  /** Two tables with the same counters in every window that a later hit can reach. */
  ghost predicate Agree(a: Rows, b: Rows, from: int) {
    forall k: (Str, int) | k.1 > from :: CountIn(a, k) == CountIn(b, k)
  }

  lemma TruncatedIsMonotone(a: real, b: real)
    requires a <= b
    ensures Truncated(a) <= Truncated(b)
  {
  }

  lemma HitKeepsAgreement(c: Config, a: Rows, b: Rows, from: int, identity: Str, now: real)
    requires Agree(a, b, from) && from <= Truncated(now) - c.window
    ensures HitSpec(c, a, identity, now).1 == HitSpec(c, b, identity, now).1
    ensures Agree(HitSpec(c, a, identity, now).0, HitSpec(c, b, identity, now).0, from)
  {
    var k := (identity, Start(c, Truncated(now)));
    assert k.1 > from;
    assert CountIn(a, k) == CountIn(b, k);
    var a', b' := HitSpec(c, a, identity, now).0, HitSpec(c, b, identity, now).0;
    forall j: (Str, int) | j.1 > from ensures CountIn(a', j) == CountIn(b', j) {
      assert CountIn(a, j) == CountIn(b, j);
    }
  }

  lemma CleanupKeepsAgreement(c: Config, a: Rows, b: Rows, from: int, now: real)
    requires Agree(a, b, from) && Truncated(now) - c.window <= from
    ensures Agree(CleanupSpec(c, a, now), b, from)
  {
    forall k: (Str, int) | k.1 > from ensures CountIn(CleanupSpec(c, a, now), k) == CountIn(b, k) {
      assert CountIn(a, k) == CountIn(b, k);
    }
  }

  lemma {:induction false} AgreeingRuns(c: Config, a: Rows, b: Rows, from: int, ops: seq<Op>)
    requires Agree(a, b, from) && Monotone(ops)
    requires ops != [] ==> from <= Truncated(ops[0].now) - c.window
    ensures Answers(c, a, ops) == Answers(c, b, HitsOnly(ops))
    decreases |ops|
  {
    if ops != [] {
      var op, next := ops[0], Truncated(ops[0].now) - c.window;
      assert Agree(a, b, next);
      if |ops| > 1 {
        TruncatedIsMonotone(op.now, ops[1].now);
      }
      var hits := HitsOnly(ops);
      if op.Hit? {
        HitKeepsAgreement(c, a, b, next, op.identity, op.now);
        AgreeingRuns(c, Apply(c, a, op), Apply(c, b, op), next, ops[1..]);
        assert hits[0] == op && hits[1..] == HitsOnly(ops[1..]);
      } else {
        CleanupKeepsAgreement(c, a, b, next, op.now);
        AgreeingRuns(c, Apply(c, a, op), b, next, ops[1..]);
        assert hits == HitsOnly(ops[1..]);
      }
    }
  }

  /** With a monotone clock, cleaning up at any points never changes an answer. */
  lemma CleanupIsInvisible(c: Config, rows: Rows, ops: seq<Op>)
    requires Monotone(ops)
    ensures Answers(c, rows, ops) == Answers(c, rows, HitsOnly(ops))
  {
    assert Agree(rows, rows, if ops == [] then 0 else Truncated(ops[0].now) - c.window);
    AgreeingRuns(c, rows, rows, if ops == [] then 0 else Truncated(ops[0].now) - c.window, ops);
  }

  /** A cleanup deletes exactly the counters of windows that began more than two windows ago. */
  lemma CleanupExactly(c: Config, rows: Rows, now: real, identity: Str, start: int)
    ensures var kept := CleanupSpec(c, rows, now);
      && ((identity, start) in kept <==> (identity, start) in rows && start + 2 * c.window >= Truncated(now))
      && ((identity, start) in kept ==> kept[(identity, start)] == rows[(identity, start)])
  {
  }

  // ----- counting -----

  /** Answers given to an identity in an aligned window; `allowed` selects the admitted ones only. */
  function InWindow(c: Config, answers: seq<Answer>, identity: Str, start: int, admitted: bool): nat {
    if answers == [] then 0
    else
      var last := answers[|answers| - 1];
      InWindow(c, answers[..|answers| - 1], identity, start, admitted)
        + (if last.identity == identity && Start(c, last.second) == start && (admitted ==> last.allowed) then 1 else 0)
  }

  lemma {:induction false} InWindowConcat(
    c: Config, a: seq<Answer>, b: seq<Answer>, identity: Str, start: int, admitted: bool)
    ensures InWindow(c, a + b, identity, start, admitted)
      == InWindow(c, a, identity, start, admitted) + InWindow(c, b, identity, start, admitted)
    decreases |b|
  {
    if b == [] {
      assert a + b == a;
    } else {
      assert (a + b)[..|a + b| - 1] == a + b[..|b| - 1];
      InWindowConcat(c, a, b[..|b| - 1], identity, start, admitted);
    }
  }

  /** What an exact limiter, given all earlier answers, would say: the hit's rank in its window decides. */
  ghost predicate Exact(c: Config, before: seq<Answer>, a: Answer) {
    var start := Start(c, a.second);
    var rank := InWindow(c, before, a.identity, start, false) + 1;
    && (a.allowed <==> rank <= c.limit)
    && a.remaining == Max(c.limit - rank, 0)
    && a.reset == start + c.window
    && a.second < a.reset
  }

  /** The table counts the answers given so far. */
  ghost predicate Counts(c: Config, rows: Rows, before: seq<Answer>) {
    forall k: (Str, int) :: CountIn(rows, k) == InWindow(c, before, k.0, k.1, false)
  }

  lemma HitIsExact(c: Config, rows: Rows, before: seq<Answer>, identity: Str, now: real)
    requires Counts(c, rows, before)
    ensures var (after, a) := HitSpec(c, rows, identity, now);
      Exact(c, before, a) && Counts(c, after, before + [a])
  {
    var (after, a) := HitSpec(c, rows, identity, now);
    var key := (identity, Start(c, a.second));
    assert CountIn(rows, key) == InWindow(c, before, identity, key.1, false);
    forall k: (Str, int) ensures CountIn(after, k) == InWindow(c, before + [a], k.0, k.1, false) {
      assert CountIn(rows, k) == InWindow(c, before, k.0, k.1, false);
      assert (before + [a])[..|before + [a]| - 1] == before;
    }
  }

  lemma {:induction false} HitsAreExact(c: Config, rows: Rows, before: seq<Answer>, ops: seq<Op>, i: nat)
    requires Counts(c, rows, before) && (forall op | op in ops :: op.Hit?)
    requires i < |Answers(c, rows, ops)|
    ensures Exact(c, before + Answers(c, rows, ops)[..i], Answers(c, rows, ops)[i])
    decreases |ops|
  {
    var op := ops[0];
    var (after, a) := HitSpec(c, rows, op.identity, op.now);
    var rest := Answers(c, after, ops[1..]);
    assert Answers(c, rows, ops) == [a] + rest;
    HitIsExact(c, rows, before, op.identity, op.now);
    PrefixMoves(before, a, rest, i);
    if i > 0 {
      HitsAreExact(c, after, before + [a], ops[1..], i - 1);
    }
  }

  lemma PrefixMoves<T>(before: seq<T>, a: T, rest: seq<T>, i: nat)
    requires i <= |rest|
    ensures i == 0 ==> before + ([a] + rest)[..i] == before && ([a] + rest)[i] == a
    ensures i > 0 ==> before + ([a] + rest)[..i] == (before + [a]) + rest[..i - 1] && ([a] + rest)[i] == rest[i - 1]
  {
  }

  lemma {:induction false} HitsOnlyAreHits(ops: seq<Op>)
    ensures forall op | op in HitsOnly(ops) :: op.Hit?
  {
    if ops != [] {
      HitsOnlyAreHits(ops[1..]);
    }
  }

  /** Over any run with a monotone clock, cleanups included, every answer is the exact limiter's. */
  lemma EveryAnswerIsExact(c: Config, ops: seq<Op>, i: nat)
    requires Monotone(ops) && i < |Answers(c, map[], ops)|
    ensures Exact(c, Answers(c, map[], ops)[..i], Answers(c, map[], ops)[i])
  {
    CleanupIsInvisible(c, map[], ops);
    HitsOnlyAreHits(ops);
    assert Counts(c, map[], []);
    HitsAreExact(c, map[], [], HitsOnly(ops), i);
    assert [] + Answers(c, map[], HitsOnly(ops))[..i] == Answers(c, map[], HitsOnly(ops))[..i];
  }

  lemma {:induction false} ExactAnswersAdmitMin(c: Config, answers: seq<Answer>, identity: Str, start: int)
    requires forall i | 0 <= i < |answers| :: Exact(c, answers[..i], answers[i])
    ensures InWindow(c, answers, identity, start, true) == Min(InWindow(c, answers, identity, start, false), c.limit)
    decreases |answers|
  {
    if answers != [] {
      var front := answers[..|answers| - 1];
      forall i | 0 <= i < |front| ensures Exact(c, front[..i], front[i]) {
        assert front[..i] == answers[..i];
      }
      ExactAnswersAdmitMin(c, front, identity, start);
      assert Exact(c, answers[..|answers| - 1], answers[|answers| - 1]);
    }
  }

  /** Each aligned window admits exactly min(hits, limit). */
  lemma WindowAdmitsMin(c: Config, ops: seq<Op>, identity: Str, start: int)
    requires Monotone(ops)
    ensures var answers := Answers(c, map[], ops);
      InWindow(c, answers, identity, start, true) == Min(InWindow(c, answers, identity, start, false), c.limit)
  {
    var answers := Answers(c, map[], ops);
    forall i | 0 <= i < |answers| ensures Exact(c, answers[..i], answers[i]) {
      EveryAnswerIsExact(c, ops, i);
    }
    ExactAnswersAdmitMin(c, answers, identity, start);
  }

  // ----- sliding intervals -----

  /** Admitted answers to an identity in the seconds from `first` to `first + window`, both ends included. */
  function Sliding(c: Config, answers: seq<Answer>, identity: Str, first: int): nat {
    if answers == [] then 0
    else
      var last := answers[|answers| - 1];
      Sliding(c, answers[..|answers| - 1], identity, first)
        + (if last.identity == identity && first <= last.second <= first + c.window && last.allowed then 1 else 0)
  }

  lemma TwoWindows(c: Config, first: int, second: int)
    requires first <= second <= first + c.window
    ensures Start(c, second) == Start(c, first) || Start(c, second) == Start(c, first) + c.window
  {
    var a, b := Start(c, first), Start(c, second);
    var p, q := a / c.window, b / c.window;
    assert a == p * c.window && b == q * c.window;
    assert b - a == (q - p) * c.window;
    assert -c.window < b - a < 2 * c.window;
    QuotientIsSmall(q - p, c.window);
  }

  lemma QuotientIsSmall(d: int, window: int)
    requires window >= 1 && -window < d * window < 2 * window
    ensures d == 0 || d == 1
  {
    assert d <= -1 ==> d * window <= -window;
    assert d >= 2 ==> d * window >= 2 * window;
  }

  lemma {:induction false} SlidingIsCovered(c: Config, answers: seq<Answer>, identity: Str, first: int)
    ensures var start := Start(c, first);
      Sliding(c, answers, identity, first)
        <= InWindow(c, answers, identity, start, true) + InWindow(c, answers, identity, start + c.window, true)
    decreases |answers|
  {
    if answers != [] {
      var last := answers[|answers| - 1];
      SlidingIsCovered(c, answers[..|answers| - 1], identity, first);
      if first <= last.second <= first + c.window {
        TwoWindows(c, first, last.second);
      }
    }
  }

  /** Any interval of `window` seconds, both ends included, admits at most twice the limit. */
  lemma SlidingBound(c: Config, ops: seq<Op>, identity: Str, first: int)
    requires Monotone(ops)
    ensures Sliding(c, Answers(c, map[], ops), identity, first) <= 2 * c.limit
  {
    var start := Start(c, first);
    SlidingIsCovered(c, Answers(c, map[], ops), identity, first);
    WindowAdmitsMin(c, ops, identity, start);
    WindowAdmitsMin(c, ops, identity, start + c.window);
  }

  /** The seconds that truncate from a real interval of length `window` are such an interval. */
  lemma RealIntervalIsCovered(c: Config, from: real, now: real)
    requires from <= now <= from + c.window as real
    ensures Truncated(from) <= Truncated(now) <= Truncated(from) + c.window
  {
  }

  function Repeat(identity: Str, now: real, n: nat): (ops: seq<Op>)
    ensures |ops| == n && forall i | 0 <= i < n :: ops[i] == Hit(identity, now)
  {
    seq(n, i => Hit(identity, now))
  }

  function After(c: Config, rows: Rows, ops: seq<Op>): Rows
    decreases |ops|
  {
    if ops == [] then rows else After(c, Apply(c, rows, ops[0]), ops[1..])
  }

  lemma {:induction false} AnswersConcat(c: Config, rows: Rows, a: seq<Op>, b: seq<Op>)
    ensures Answers(c, rows, a + b) == Answers(c, rows, a) + Answers(c, After(c, rows, a), b)
    decreases |a|
  {
    if a == [] {
      assert a + b == b;
    } else {
      assert (a + b)[0] == a[0] && (a + b)[1..] == a[1..] + b;
      AnswersConcat(c, Apply(c, rows, a[0]), a[1..], b);
    }
  }

  lemma {:induction false} RepeatedHits(c: Config, rows: Rows, identity: Str, now: real, n: nat)
    requires n <= c.limit - CountIn(rows, (identity, Start(c, Truncated(now))))
    ensures var answers := Answers(c, rows, Repeat(identity, now, n));
      && |answers| == n
      && (forall i | 0 <= i < n ::
            answers[i].identity == identity && answers[i].second == Truncated(now) && answers[i].allowed)
    ensures forall k: (Str, int) | k.1 != Start(c, Truncated(now)) ::
      CountIn(After(c, rows, Repeat(identity, now, n)), k) == CountIn(rows, k)
    decreases n
  {
    if n > 0 {
      var ops := Repeat(identity, now, n);
      assert ops[1..] == Repeat(identity, now, n - 1);
      RepeatedHits(c, Apply(c, rows, ops[0]), identity, now, n - 1);
    }
  }

  lemma {:induction false} AllInside(c: Config, answers: seq<Answer>, identity: Str, first: int)
    requires forall i | 0 <= i < |answers| ::
      answers[i].identity == identity && first <= answers[i].second <= first + c.window && answers[i].allowed
    ensures Sliding(c, answers, identity, first) == |answers|
  {
    if answers != [] {
      AllInside(c, answers[..|answers| - 1], identity, first);
    }
  }

  /** The sliding bound is tight for every limit and window: a burst on each side of a window's end is admitted. */
  lemma SlidingBoundIsTight(c: Config, identity: Str)
    ensures var ops := Repeat(identity, (c.window - 1) as real, c.limit) + Repeat(identity, c.window as real, c.limit);
      Monotone(ops) && Sliding(c, Answers(c, map[], ops), identity, c.window - 1) == 2 * c.limit
  {
    var a, b := Repeat(identity, (c.window - 1) as real, c.limit), Repeat(identity, c.window as real, c.limit);
    assert Truncated((c.window - 1) as real) == c.window - 1 && Truncated(c.window as real) == c.window;
    BothBurstsAdmitted(c, identity);
    AllInside(c, Answers(c, map[], a + b), identity, c.window - 1);
  }

  lemma BothBurstsAdmitted(c: Config, identity: Str)
    ensures var a, b := Repeat(identity, (c.window - 1) as real, c.limit), Repeat(identity, c.window as real, c.limit);
      var answers := Answers(c, map[], a + b);
      && |answers| == 2 * c.limit
      && (forall i | 0 <= i < |answers| ::
            answers[i].identity == identity && c.window - 1 <= answers[i].second <= c.window && answers[i].allowed)
  {
    var a, b := Repeat(identity, (c.window - 1) as real, c.limit), Repeat(identity, c.window as real, c.limit);
    assert Truncated((c.window - 1) as real) == c.window - 1 && Truncated(c.window as real) == c.window;
    TwoStarts(c);
    RepeatedHits(c, map[], identity, (c.window - 1) as real, c.limit);
    RepeatedHits(c, After(c, map[], a), identity, c.window as real, c.limit);
    AnswersConcat(c, map[], a, b);
  }

  lemma TwoStarts(c: Config)
    ensures Start(c, c.window - 1) != Start(c, c.window)
  {
    assert (c.window - 1) % c.window == c.window - 1;
    assert c.window % c.window == 0;
  }

  // ----- the limiter -----

  class SQLiteRateLimiter {
    var rows: Rows
    const config: Config

    /** The source raises ValueError where this answers null. */
    static method Open(c: Limits) returns (limiter: SQLiteRateLimiter?)
      ensures limiter != null <==> ValidConfig(c)
      ensures limiter != null ==> fresh(limiter) && limiter.rows == map[] && limiter.config == c
    {
      limiter := null;
      if c.limit >= 1 && c.window >= 1 {
        limiter := new SQLiteRateLimiter(c);
      }
    }

    constructor (c: Config)
      ensures rows == map[] && config == c
    {
      config := c;
      rows := map[];
    }

    method Hit(identity: Str, now: real) returns (answer: Answer)
      modifies this
      ensures (rows, answer) == HitSpec(config, old(rows), identity, now)
    {
      var second := Truncated(now);
      var start := second - second % config.window;
      var key := (identity, start);
      if key in rows {
        rows := rows[key := rows[key] + 1];
      } else {
        rows := rows[key := 1];
      }
      var count := rows[key];
      answer := Answer(identity, second, count <= config.limit, Max(config.limit - count, 0), start + config.window);
    }

    /** Answers the number of deleted rows. */
    method Cleanup(now: real) returns (deleted: nat)
      modifies this
      ensures rows == CleanupSpec(config, old(rows), now)
      ensures deleted == |old(rows).Keys - rows.Keys|
    {
      var cutoff := Truncated(now) - config.window * 2;
      var kept := map k | k in rows && k.1 >= cutoff :: rows[k];
      deleted := |rows.Keys - kept.Keys|;
      rows := kept;
    }
  }
}
