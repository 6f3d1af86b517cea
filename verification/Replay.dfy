/** `meemee/device_protocol.py`: signed device commands are fresh for a while and accepted once, although the guards
    forget every nonce when it expires. Guard clocks read real seconds, verifier clocks whole seconds. */
module Replay {
  import opened Text

  // ----- the guards -----

  /** Nonces with the second at which each expires. */
  type Seen = map<Str, real>

  function Unexpired(seen: Seen, now: real): Seen {
    map n | n in seen && seen[n] > now :: seen[n]
  }

  function Retention(ttl: int, retain: Option<real>): real {
    var asked := if retain.Some? then retain.value else 0.0;
    if asked > ttl as real then asked else ttl as real
  }

  function ClaimSpec(ttl: int, seen: Seen, now: real, nonce: Str, retain: Option<real>): (Seen, bool) {
    var kept := Unexpired(seen, now);
    if nonce in kept then (kept, false) else (kept[nonce := now + Retention(ttl, retain)], true)
  }

  /** Rows of `device_replay`, shared by every namespace. */
  type Table = map<(Str, Str), real>

  function Purged(table: Table, namespace: Str, now: real): Table {
    map k | k in table && !(k.0 == namespace && table[k] <= now) :: table[k]
  }

  function TableClaimSpec(ttl: int, table: Table, namespace: Str, now: real, nonce: Str, retain: Option<real>)
    : (Table, bool)
  {
    var kept := Purged(table, namespace, now);
    if (namespace, nonce) in kept then (kept, false)
    else (kept[(namespace, nonce) := now + Retention(ttl, retain)], true)
  }

  /** What one namespace holds. */
  function View(table: Table, namespace: Str): (seen: Seen)
    ensures forall n :: n in seen <==> (namespace, n) in table
    ensures forall n | n in seen :: seen[n] == table[(namespace, n)]
  {
    map k | k in table && k.0 == namespace :: k.1 := table[k]
  }

  lemma ViewOfPurged(table: Table, namespace: Str, now: real, other: Str)
    ensures View(Purged(table, namespace, now), other)
      == if other == namespace then Unexpired(View(table, namespace), now) else View(table, other)
  {
    var seen := if other == namespace then Unexpired(View(table, namespace), now) else View(table, other);
    var view := View(Purged(table, namespace, now), other);
    forall n ensures n in view <==> n in seen {
    }
    assert view.Keys == seen.Keys;
  }

  lemma ViewOfInserted(table: Table, namespace: Str, nonce: Str, expiry: real, other: Str)
    ensures View(table[(namespace, nonce) := expiry], other)
      == if other == namespace then View(table, namespace)[nonce := expiry] else View(table, other)
  {
    var seen := if other == namespace then View(table, namespace)[nonce := expiry] else View(table, other);
    assert View(table[(namespace, nonce) := expiry], other).Keys == seen.Keys;
  }

  /** A claim in the shared table answers, and changes its namespace, as the in-memory guard would; no other namespace
      sees it. */
  lemma TableClaimIsClaim(
    ttl: int, table: Table, namespace: Str, now: real, nonce: Str, retain: Option<real>, other: Str)
    ensures var (after, ok) := TableClaimSpec(ttl, table, namespace, now, nonce, retain);
      && (View(after, namespace), ok) == ClaimSpec(ttl, View(table, namespace), now, nonce, retain)
      && (other != namespace ==> View(after, other) == View(table, other))
  {
    var kept := Purged(table, namespace, now);
    ViewOfPurged(table, namespace, now, namespace);
    ViewOfPurged(table, namespace, now, other);
    ViewOfInserted(kept, namespace, nonce, now + Retention(ttl, retain), namespace);
    ViewOfInserted(kept, namespace, nonce, now + Retention(ttl, retain), other);
  }

  // ----- verification -----

  datatype Envelope = Envelope(
    version: int, commandId: Str, device: Str, capability: Str, arguments: Str, issuedAt: int, nonce: Str,
    signature: Str)

  datatype Error = InvalidEnvelope | InvalidSignature | Stale | OtherDevice | Undeclared | Replayed

  /** A verifier's settings. `sign` is the keyed hash of the canonical unsigned envelope; None where the arguments have
      no canonical form. */
  datatype Verifier = Verifier(
    sign: Envelope -> Option<Str>, device: Option<Str>, capabilities: Option<set<Str>>, tolerance: int, ttl: int)

  predicate Ascii(s: Str) {
    forall i | 0 <= i < |s| :: s[i] < 128
  }

  predicate Fresh(tolerance: int, issuedAt: int, clock: int) {
    -tolerance <= clock - issuedAt <= tolerance
  }

  /** The checks before the guard is asked, in order. */
  function Refusal(v: Verifier, e: Envelope, clock: int): Option<Error> {
    if e.version != 1 || e.commandId == [] || e.device == [] || e.capability == [] || e.nonce == [] then
      Some(InvalidEnvelope)
    else if !Ascii(e.signature) then Some(InvalidSignature)
    else if v.sign(e.(signature := [])) != Some(e.signature) then Some(InvalidSignature)
    else if !Fresh(v.tolerance, e.issuedAt, clock) then Some(Stale)
    else if v.device.Some? && e.device != v.device.value then Some(OtherDevice)
    else if v.capabilities.Some? && e.capability !in v.capabilities.value then Some(Undeclared)
    else None
  }

  function Retain(v: Verifier, e: Envelope, clock: int): real {
    (e.issuedAt + v.tolerance - clock + 1) as real
  }

  /** One call: the envelope, the verifier's clock and the guard's clock. */
  datatype Call = Call(envelope: Envelope, clock: int, now: real)

  function VerifySpec(v: Verifier, seen: Seen, c: Call): (Seen, Option<Error>) {
    var refusal := Refusal(v, c.envelope, c.clock);
    if refusal.Some? then (seen, refusal)
    else
      var (after, ok) := ClaimSpec(v.ttl, seen, c.now, c.envelope.nonce, Some(Retain(v, c.envelope, c.clock)));
      (after, if ok then None else Some(Replayed))
  }

  function After(v: Verifier, seen: Seen, calls: seq<Call>): Seen
    decreases |calls|
  {
    if calls == [] then seen else After(v, VerifySpec(v, seen, calls[0]).0, calls[1..])
  }

  function Answers(v: Verifier, seen: Seen, calls: seq<Call>): (r: seq<Option<Error>>)
    ensures |r| == |calls|
    decreases |calls|
  {
    if calls == [] then []
    else
      var (after, answer) := VerifySpec(v, seen, calls[0]);
      [answer] + Answers(v, after, calls[1..])
  }

  /** How far the guard's reading is ahead of the verifier's: it is read later, and from another clock. */
  function Skew(c: Call): real {
    c.now - c.clock as real
  }

  predicate Monotone(calls: seq<Call>) {
    forall i, j | 0 <= i < j < |calls| :: calls[i].now <= calls[j].now
  }

  // ----- what acceptance means -----

  /** The answer to a call, with the reasons in their order: a command is accepted exactly if it is well formed, signed,
      timely, for this device, declared by it, and its nonce is not remembered. */
  lemma AnswerExactly(v: Verifier, seen: Seen, c: Call)
    ensures var e := c.envelope;
      var formed := e.version == 1 && e.commandId != [] && e.device != [] && e.capability != [] && e.nonce != [];
      var signed :=
        && (forall k | 0 <= k < |e.signature| :: e.signature[k] < 128)
        && v.sign(e.(signature := [])) == Some(e.signature);
      var timely := -v.tolerance <= c.clock - e.issuedAt <= v.tolerance;
      var addressed := v.device.Some? ==> e.device == v.device.value;
      var declared := v.capabilities.Some? ==> e.capability in v.capabilities.value;
      var live := e.nonce in seen && seen[e.nonce] > c.now;
      VerifySpec(v, seen, c).1 ==
        if !formed then Some(InvalidEnvelope)
        else if !signed then Some(InvalidSignature)
        else if !timely then Some(Stale)
        else if !addressed then Some(OtherDevice)
        else if !declared then Some(Undeclared)
        else if live then Some(Replayed)
        else None
  {
  }

  /** What the guard remembers after a call: an accepted nonce for the TTL and for as long as its envelope is timely,
      and otherwise what has not expired; a call refused before the guard is asked changes nothing. */
  lemma MemoryExactly(v: Verifier, seen: Seen, c: Call, n: Str)
    ensures var (after, answer) := VerifySpec(v, seen, c);
      var nonce, needed := c.envelope.nonce, (c.envelope.issuedAt + v.tolerance + 1 - c.clock) as real;
      && (answer.None? && n == nonce ==>
            && n in after
            && after[n] >= c.now + v.ttl as real && after[n] >= c.now + needed
            && (after[n] == c.now + v.ttl as real || after[n] == c.now + needed))
      && (answer == Some(Replayed) || (answer.None? && n != nonce) ==>
            && (n in after <==> n in seen && seen[n] > c.now)
            && (n in after ==> after[n] == seen[n]))
      && (answer.Some? && answer != Some(Replayed) ==> after == seen)
  {
  }

  /** Distinct unsigned envelopes have distinct signatures. */
  ghost predicate Injective(sign: Envelope -> Option<Str>) {
    forall a: Envelope, b: Envelope | a.signature == b.signature && sign(a).Some? && sign(a) == sign(b) :: a == b
  }

  /** In every run, an accepted envelope is signed, timely, for this device and declared by it. */
  lemma {:induction false} AcceptedIsSigned(v: Verifier, seen: Seen, calls: seq<Call>, i: nat)
    requires i < |calls| && Answers(v, seen, calls)[i].None?
    ensures var e := calls[i].envelope;
      && v.sign(e.(signature := [])) == Some(e.signature)
      && -v.tolerance <= calls[i].clock - e.issuedAt <= v.tolerance
      && (v.device.Some? ==> e.device == v.device.value)
      && (v.capabilities.Some? ==> e.capability in v.capabilities.value)
    decreases i
  {
    if i > 0 {
      AcceptedIsSigned(v, VerifySpec(v, seen, calls[0]).0, calls[1..], i - 1);
    }
  }

  /** So, when no two envelopes have one signature, the only envelope that any run accepts under the signature of a
      signed one is that one: altering any of its fields makes it refused. */
  lemma AlteredIsRefused(v: Verifier, seen: Seen, calls: seq<Call>, i: nat, e: Envelope)
    requires Injective(v.sign) && i < |calls|
    requires v.sign(e.(signature := [])) == Some(e.signature) && calls[i].envelope.signature == e.signature
    ensures calls[i].envelope != e ==> Answers(v, seen, calls)[i].Some?
  {
    var other := calls[i].envelope;
    if Answers(v, seen, calls)[i].None? {
      AcceptedIsSigned(v, seen, calls, i);
      assert other.(signature := []) == e.(signature := []);
      assert other == other.(signature := []).(signature := e.signature);
    }
  }

  // ----- accepted at most once -----

  /** When the guard forgets an accepted call. */
  function Expiry(v: Verifier, c: Call): real {
    c.now + Retention(v.ttl, Some(Retain(v, c.envelope, c.clock)))
  }

  /** From `now` on, an envelope with this nonce is not accepted before `end`. */
  predicate Blocked(seen: Seen, now: real, nonce: Str, end: real) {
    now >= end || (nonce in seen && seen[nonce] >= end)
  }

  lemma AcceptanceBlocks(v: Verifier, seen: Seen, c: Call)
    requires VerifySpec(v, seen, c).1.None?
    ensures Blocked(VerifySpec(v, seen, c).0, c.now, c.envelope.nonce, Expiry(v, c))
  {
  }

  lemma BlockedStays(v: Verifier, seen: Seen, now: real, c: Call, nonce: Str, end: real)
    requires Blocked(seen, now, nonce, end) && now <= c.now
    ensures Blocked(VerifySpec(v, seen, c).0, c.now, nonce, end)
  {
  }

  lemma {:induction false} BlockedRun(
    v: Verifier, seen: Seen, now: real, calls: seq<Call>, nonce: Str, end: real, j: nat)
    requires Blocked(seen, now, nonce, end) && j < |calls|
    requires Monotone(calls) && now <= calls[0].now
    requires calls[j].envelope.nonce == nonce && calls[j].now < end
    ensures Answers(v, seen, calls)[j].Some?
    decreases |calls|
  {
    if j > 0 {
      BlockedStays(v, seen, now, calls[0], nonce, end);
      BlockedRun(v, VerifySpec(v, seen, calls[0]).0, calls[0].now, calls[1..], nonce, end, j - 1);
    }
  }

  /** From every state of the guard, a nonce is accepted again only after its first acceptance has expired. */
  lemma {:induction false} AcceptedAgainAfterExpiry(v: Verifier, seen: Seen, calls: seq<Call>, i: nat, j: nat)
    requires i < j < |calls| && Monotone(calls)
    requires calls[i].envelope.nonce == calls[j].envelope.nonce
    requires Answers(v, seen, calls)[i].None? && Answers(v, seen, calls)[j].None?
    ensures calls[j].now >= Expiry(v, calls[i])
    decreases i
  {
    var after := VerifySpec(v, seen, calls[0]).0;
    if i > 0 {
      AcceptedAgainAfterExpiry(v, after, calls[1..], i - 1, j - 1);
    } else if calls[j].now < Expiry(v, calls[0]) {
      AcceptanceBlocks(v, seen, calls[0]);
      BlockedRun(v, after, calls[0].now, calls[1..], calls[0].envelope.nonce, Expiry(v, calls[0]), j - 1);
    }
  }

  /** If a nonce is accepted twice, for an envelope issued no later, then the guard's clock has drifted by a second or
      more against the verifier's in between, and by enough to outlast the TTL. */
  lemma AcceptedTwiceNeedsDrift(v: Verifier, seen: Seen, calls: seq<Call>, i: nat, j: nat)
    requires i < j < |calls| && Monotone(calls)
    requires calls[i].envelope.nonce == calls[j].envelope.nonce
    requires calls[j].envelope.issuedAt <= calls[i].envelope.issuedAt
    requires Answers(v, seen, calls)[i].None? && Answers(v, seen, calls)[j].None?
    ensures var drift := Skew(calls[j]) - Skew(calls[i]);
      drift >= 1.0 && (2 * v.tolerance) as real + drift >= v.ttl as real
  {
    AcceptedAgainAfterExpiry(v, seen, calls, i, j);
    AcceptedIsSigned(v, seen, calls, i);
    AcceptedIsSigned(v, seen, calls, j);
    assert calls[j].clock - calls[i].clock <= 2 * v.tolerance;
    assert calls[j].clock - calls[i].clock <= calls[i].envelope.issuedAt + v.tolerance - calls[i].clock;
  }

  /** Over any run with a monotone guard clock that drifts less than a second against the verifier's, an accepted
      envelope is never accepted again, nor is any envelope with its nonce that was issued no later; this holds for
      every TTL and tolerance, from every state of the guard, and for any constant offset of the two clocks. */
  lemma AcceptedAtMostOnce(v: Verifier, seen: Seen, calls: seq<Call>, i: nat, j: nat)
    requires i < j < |calls| && Monotone(calls)
    requires Skew(calls[j]) < Skew(calls[i]) + 1.0
    requires calls[i].envelope.nonce == calls[j].envelope.nonce
    requires calls[j].envelope.issuedAt <= calls[i].envelope.issuedAt
    ensures Answers(v, seen, calls)[i].Some? || Answers(v, seen, calls)[j].Some?
  {
    if Answers(v, seen, calls)[i].None? && Answers(v, seen, calls)[j].None? {
      AcceptedTwiceNeedsDrift(v, seen, calls, i, j);
    }
  }

  /** Some run with a monotone guard clock and this drift between two calls accepts the envelope at both. */
  ghost predicate AcceptedTwice(v: Verifier, calls: seq<Call>, i: nat, j: nat, e: Envelope, drift: real) {
    && i < j < |calls|
    && Monotone(calls)
    && calls[i].envelope == calls[j].envelope == e
    && Skew(calls[j]) - Skew(calls[i]) == drift
    && Answers(v, map[], calls)[i].None?
    && Answers(v, map[], calls)[j].None?
  }

  /** The first and the last second in which an envelope is fresh, with the guard drifting in between. */
  function Extremes(v: Verifier, e: Envelope, skew: real, drift: real): seq<Call> {
    var first, last := e.issuedAt - v.tolerance, e.issuedAt + v.tolerance;
    [Call(e, first, first as real + skew), Call(e, last, last as real + skew + drift)]
  }

  /** Why the drift must stay below a second: whatever the verifier, a guard that has drifted by more forgets the
      envelope while it is fresh. */
  lemma GuardAheadReplays(v: Verifier, e: Envelope, skew: real, drift: real)
    requires Refusal(v, e, e.issuedAt).None?
    requires drift >= 1.0 && (2 * v.tolerance) as real + drift >= v.ttl as real
    ensures AcceptedTwice(v, Extremes(v, e, skew, drift), 0, 1, e, drift)
  {
    var calls := Extremes(v, e, skew, drift);
    var seen := VerifySpec(v, map[], calls[0]).0;
    assert seen == map[e.nonce := Expiry(v, calls[0])];
    assert calls[1..] == [calls[1]];
    assert Answers(v, seen, [calls[1]]) == [VerifySpec(v, seen, calls[1]).1];
    assert VerifySpec(v, seen, calls[1]).1.None?;
  }

  /** The exact condition, for every verifier and every envelope that it accepts at all: a drift lets some run accept
      the envelope twice if and only if it is a second or more and, with twice the tolerance, outlasts the TTL. */
  lemma TwiceExactlyByDrift(v: Verifier, e: Envelope, drift: real)
    requires Refusal(v, e, e.issuedAt).None?
    ensures (exists calls, i, j :: AcceptedTwice(v, calls, i, j, e, drift))
      <==> drift >= 1.0 && (2 * v.tolerance) as real + drift >= v.ttl as real
  {
    if drift >= 1.0 && (2 * v.tolerance) as real + drift >= v.ttl as real {
      GuardAheadReplays(v, e, 0.0, drift);
    }
    forall calls, i, j | AcceptedTwice(v, calls, i, j, e, drift)
      ensures drift >= 1.0 && (2 * v.tolerance) as real + drift >= v.ttl as real
    {
      AcceptedTwiceNeedsDrift(v, map[], calls, i, j);
    }
  }

  // ----- refused only when remembered -----

  /** Call k of a history was accepted, and no call after it that passed the checks read its expiry or later. */
  ghost predicate Live(v: Verifier, calls: seq<Call>, answers: seq<Option<Error>>, k: int)
    requires |calls| == |answers|
  {
    && 0 <= k < |calls|
    && answers[k].None?
    && forall m | k < m < |calls| && Refusal(v, calls[m].envelope, calls[m].clock).None? ::
         calls[m].now < Expiry(v, calls[k])
  }

  ghost predicate Remembered(v: Verifier, calls: seq<Call>, answers: seq<Option<Error>>, c: Call, k: int)
    requires |calls| == |answers|
  {
    Live(v, calls, answers, k) && calls[k].envelope.nonce == c.envelope.nonce && c.now < Expiry(v, calls[k])
  }

  /** What the history alone says about a call. */
  ghost function Verdict(v: Verifier, calls: seq<Call>, answers: seq<Option<Error>>, c: Call): Option<Error>
    requires |calls| == |answers|
  {
    var refusal := Refusal(v, c.envelope, c.clock);
    if refusal.Some? then refusal
    else if exists k :: Remembered(v, calls, answers, c, k) then Some(Replayed)
    else None
  }

  /** The guard holds exactly the live calls of the history. */
  ghost predicate Knows(v: Verifier, seen: Seen, calls: seq<Call>, answers: seq<Option<Error>>)
    requires |calls| == |answers|
  {
    && (forall n | n in seen :: exists k ::
          Live(v, calls, answers, k) && calls[k].envelope.nonce == n && Expiry(v, calls[k]) == seen[n])
    && (forall k | Live(v, calls, answers, k) ::
          calls[k].envelope.nonce in seen && seen[calls[k].envelope.nonce] == Expiry(v, calls[k]))
  }

  lemma KnowingGuardDecides(v: Verifier, seen: Seen, calls: seq<Call>, answers: seq<Option<Error>>, c: Call)
    requires |calls| == |answers| && Knows(v, seen, calls, answers)
    ensures VerifySpec(v, seen, c).1 == Verdict(v, calls, answers, c)
  {
    var n := c.envelope.nonce;
    if n in Unexpired(seen, c.now) {
      var k :| Live(v, calls, answers, k) && calls[k].envelope.nonce == n && Expiry(v, calls[k]) == seen[n];
      assert Remembered(v, calls, answers, c, k);
    }
  }

  /** One more call: what was live and is not outlasted stays live, and an accepted call is live. */
  lemma LiveAfter(v: Verifier, calls: seq<Call>, answers: seq<Option<Error>>, c: Call, answer: Option<Error>, k: int)
    requires |calls| == |answers|
    ensures Live(v, calls + [c], answers + [answer], k) <==>
      || (Live(v, calls, answers, k) && (Refusal(v, c.envelope, c.clock).None? ==> c.now < Expiry(v, calls[k])))
      || (k == |calls| && answer.None?)
  {
    var later, given := calls + [c], answers + [answer];
    if 0 <= k < |calls| && Live(v, later, given, k) {
      forall m | k < m < |calls| && Refusal(v, calls[m].envelope, calls[m].clock).None?
        ensures calls[m].now < Expiry(v, calls[k])
      {
        assert later[m] == calls[m];
      }
      assert later[|calls|] == c;
    }
  }

  lemma GuardGoesOnKnowing(v: Verifier, seen: Seen, calls: seq<Call>, answers: seq<Option<Error>>, c: Call)
    requires |calls| == |answers| && Knows(v, seen, calls, answers)
    ensures Knows(v, VerifySpec(v, seen, c).0, calls + [c], answers + [VerifySpec(v, seen, c).1])
  {
    var (after, answer) := VerifySpec(v, seen, c);
    var later, given := calls + [c], answers + [answer];
    forall n | n in after
      ensures exists k :: Live(v, later, given, k) && later[k].envelope.nonce == n && Expiry(v, later[k]) == after[n]
    {
      if answer.None? && n == c.envelope.nonce {
        LiveAfter(v, calls, answers, c, answer, |calls|);
        assert later[|calls|] == c;
      } else {
        var k :| Live(v, calls, answers, k) && calls[k].envelope.nonce == n && Expiry(v, calls[k]) == seen[n];
        LiveAfter(v, calls, answers, c, answer, k);
        assert later[k] == calls[k];
      }
    }
    forall k | Live(v, later, given, k)
      ensures later[k].envelope.nonce in after && after[later[k].envelope.nonce] == Expiry(v, later[k])
    {
      LiveAfter(v, calls, answers, c, answer, k);
    }
  }

  lemma {:induction false} KnowingRun(
    v: Verifier, seen: Seen, done: seq<Call>, given: seq<Option<Error>>, calls: seq<Call>, j: nat)
    requires |done| == |given| && Knows(v, seen, done, given) && j < |calls|
    ensures var answers := Answers(v, seen, calls);
      answers[j] == Verdict(v, done + calls[..j], given + answers[..j], calls[j])
    decreases j
  {
    var answers := Answers(v, seen, calls);
    if j == 0 {
      KnowingGuardDecides(v, seen, done, given, calls[0]);
      assert done + calls[..0] == done && given + answers[..0] == given;
    } else {
      var (after, answer) := VerifySpec(v, seen, calls[0]);
      GuardGoesOnKnowing(v, seen, done, given, calls[0]);
      KnowingRun(v, after, done + [calls[0]], given + [answer], calls[1..], j - 1);
      assert answers[0] == answer && answers[1..] == Answers(v, after, calls[1..]);
      PrefixMoves(done, calls, j);
      PrefixMoves(given, answers, j);
    }
  }

  lemma PrefixMoves<T>(done: seq<T>, rest: seq<T>, j: nat)
    requires 0 < j <= |rest|
    ensures done + rest[..j] == (done + [rest[0]]) + rest[1..][..j - 1]
  {
  }

  /** For arbitrary clocks the answer is decided by the history: after the other checks a call is refused as a replay if
      and only if a call with its nonce was accepted before, and every call since then that passed the checks, this one
      included, read less than its expiry. */
  lemma ReplayedExactlyWhenLive(v: Verifier, calls: seq<Call>, j: nat)
    requires j < |calls|
    ensures var answers := Answers(v, map[], calls);
      answers[j] == Verdict(v, calls[..j], answers[..j], calls[j])
  {
    var answers := Answers(v, map[], calls);
    KnowingRun(v, map[], [], [], calls, j);
    assert [] + calls[..j] == calls[..j] && [] + answers[..j] == answers[..j];
  }

  /** With a monotone guard clock the calls in between do not matter: a call that passes the other checks is refused if
      and only if a call with its nonce was accepted before and has not expired. */
  lemma RefusedExactlyWhenRemembered(v: Verifier, calls: seq<Call>, j: nat)
    requires j < |calls| && Monotone(calls)
    ensures var answers := Answers(v, map[], calls);
      answers[j] == Some(Replayed) <==>
        && Refusal(v, calls[j].envelope, calls[j].clock).None?
        && exists i | 0 <= i < j :: AcceptedAndUnexpired(v, calls, i, j)
  {
    var answers := Answers(v, map[], calls);
    ReplayedExactlyWhenLive(v, calls, j);
    if k :| Remembered(v, calls[..j], answers[..j], calls[j], k) {
      assert AcceptedAndUnexpired(v, calls, k, j);
    }
    if i :| 0 <= i < j && AcceptedAndUnexpired(v, calls, i, j) {
      assert Live(v, calls[..j], answers[..j], i);
      assert Remembered(v, calls[..j], answers[..j], calls[j], i);
    }
  }

  ghost predicate AcceptedAndUnexpired(v: Verifier, calls: seq<Call>, i: nat, j: nat)
    requires i < j < |calls|
  {
    && Answers(v, map[], calls)[i].None?
    && calls[i].envelope.nonce == calls[j].envelope.nonce
    && calls[j].now < Expiry(v, calls[i])
  }

  /** A nonce is not kept longer than its envelope can need: once its expiry has passed, the next claim forgets it. */
  lemma ExpiredIsForgotten(v: Verifier, seen: Seen, c: Call, nonce: Str)
    requires nonce in seen && seen[nonce] <= c.now && nonce != c.envelope.nonce
    requires Refusal(v, c.envelope, c.clock).None?
    ensures nonce !in VerifySpec(v, seen, c).0
  {
  }

  /** Why the clock must not step back, for every verifier: if another command reads the first one's expiry or later in
      between, and only then, stepping back to the first call accepts its envelope again. */
  lemma SteppingBackReplays(v: Verifier, c: Call, between: Call)
    requires Refusal(v, c.envelope, c.clock).None? && Refusal(v, between.envelope, between.clock).None?
    requires c.envelope.nonce != between.envelope.nonce
    ensures Answers(v, map[], [c, between, c])
      == [None, None, if between.now >= Expiry(v, c) then None else Some(Replayed)]
  {
    var s1 := VerifySpec(v, map[], c).0;
    assert s1 == map[c.envelope.nonce := Expiry(v, c)];
    var s2 := VerifySpec(v, s1, between).0;
    assert [c, between, c][1..] == [between, c] && [between, c][1..] == [c];
    assert Answers(v, s2, [c]) == [VerifySpec(v, s2, c).1];
    assert Answers(v, s1, [between, c]) == [None] + Answers(v, s2, [c]);
    assert c.envelope.nonce in s2 <==> between.now < Expiry(v, c);
  }

  // ----- the persistent guard -----

  /** A call by the peer that owns a namespace. */
  datatype Request = Request(namespace: Str, call: Call)

  function TableVerifySpec(v: Verifier, table: Table, namespace: Str, c: Call): (Table, Option<Error>) {
    var refusal := Refusal(v, c.envelope, c.clock);
    if refusal.Some? then (table, refusal)
    else
      var (after, ok) :=
        TableClaimSpec(v.ttl, table, namespace, c.now, c.envelope.nonce, Some(Retain(v, c.envelope, c.clock)));
      (after, if ok then None else Some(Replayed))
  }

  function TableAnswers(vs: Str -> Verifier, table: Table, requests: seq<Request>): (r: seq<Option<Error>>)
    ensures |r| == |requests|
    decreases |requests|
  {
    if requests == [] then []
    else
      var q := requests[0];
      var (after, answer) := TableVerifySpec(vs(q.namespace), table, q.namespace, q.call);
      [answer] + TableAnswers(vs, after, requests[1..])
  }

  function CallsOf(requests: seq<Request>, namespace: Str): seq<Call>
    decreases |requests|
  {
    if requests == [] then []
    else (if requests[0].namespace == namespace then [requests[0].call] else []) + CallsOf(requests[1..], namespace)
  }

  function AnswersOf(requests: seq<Request>, answers: seq<Option<Error>>, namespace: Str): seq<Option<Error>>
    requires |requests| == |answers|
    decreases |requests|
  {
    if requests == [] then []
    else
      (if requests[0].namespace == namespace then [answers[0]] else [])
        + AnswersOf(requests[1..], answers[1..], namespace)
  }

  /** Both guards answer identically: in any interleaving of peers over one table, the answers in a namespace are those
      of an in-memory guard that saw only that namespace's calls. */
  lemma {:induction false} TableAnswersLikeMemory(
    vs: Str -> Verifier, table: Table, requests: seq<Request>, namespace: Str)
    ensures AnswersOf(requests, TableAnswers(vs, table, requests), namespace)
      == Answers(vs(namespace), View(table, namespace), CallsOf(requests, namespace))
    decreases |requests|
  {
    if requests != [] {
      var q := requests[0];
      var (after, answer) := TableVerifySpec(vs(q.namespace), table, q.namespace, q.call);
      TableAnswersLikeMemory(vs, after, requests[1..], namespace);
      var answers := TableAnswers(vs, table, requests);
      assert answers[1..] == TableAnswers(vs, after, requests[1..]);
      var calls := CallsOf(requests, namespace);
      TableClaimIsClaim(vs(q.namespace).ttl, table, q.namespace, q.call.now, q.call.envelope.nonce,
                        Some(Retain(vs(q.namespace), q.call.envelope, q.call.clock)), namespace);
      if q.namespace == namespace {
        assert calls[0] == q.call && calls[1..] == CallsOf(requests[1..], namespace);
      } else {
        assert calls == CallsOf(requests[1..], namespace);
      }
    }
  }

  class ReplayGuard {
    var seen: Seen
    const ttl: int

    constructor (ttl: int)
      ensures seen == map[] && this.ttl == ttl
    {
      this.ttl := ttl;
      seen := map[];
    }

    method Claim(nonce: Str, retain: Option<real>, now: real) returns (ok: bool)
      modifies this
      ensures (seen, ok) == ClaimSpec(ttl, old(seen), now, nonce, retain)
    {
      seen := Unexpired(seen, now);
      if nonce in seen {
        return false;
      }
      seen := seen[nonce := now + Retention(ttl, retain)];
      ok := true;
    }

    method VerifyCommand(v: Verifier, c: Call) returns (error: Option<Error>)
      requires v.ttl == ttl
      modifies this
      ensures (seen, error) == VerifySpec(v, old(seen), c)
      ensures var e := c.envelope;
        var formed := e.version == 1 && e.commandId != [] && e.device != [] && e.capability != [] && e.nonce != [];
        var signed :=
          && (forall k | 0 <= k < |e.signature| :: e.signature[k] < 128)
          && v.sign(e.(signature := [])) == Some(e.signature);
        var timely := -v.tolerance <= c.clock - e.issuedAt <= v.tolerance;
        var addressed := v.device.Some? ==> e.device == v.device.value;
        var declared := v.capabilities.Some? ==> e.capability in v.capabilities.value;
        var live := e.nonce in old(seen) && old(seen)[e.nonce] > c.now;
        error ==
          if !formed then Some(InvalidEnvelope)
          else if !signed then Some(InvalidSignature)
          else if !timely then Some(Stale)
          else if !addressed then Some(OtherDevice)
          else if !declared then Some(Undeclared)
          else if live then Some(Replayed)
          else None
    {
      error := Refusal(v, c.envelope, c.clock);
      if error.None? {
        var ok := Claim(c.envelope.nonce, Some(Retain(v, c.envelope, c.clock)), c.now);
        if !ok {
          error := Some(Replayed);
        }
      }
    }
  }

  /** The database behind every guard of one host. */
  class ReplayTable {
    var rows: Table

    constructor ()
      ensures rows == map[]
    {
      rows := map[];
    }
  }

  class SQLiteReplayGuard {
    const db: ReplayTable
    const namespace: Str
    const ttl: int

    /** The source raises ValueError where this answers null. */
    static method Open(db: ReplayTable, namespace: Str, ttl: int) returns (guard: SQLiteReplayGuard?)
      ensures guard == null <==> ttl < 1 || namespace == []
      ensures guard != null ==> fresh(guard) && guard.db == db && guard.namespace == namespace && guard.ttl == ttl
    {
      if ttl < 1 || namespace == [] {
        return null;
      }
      guard := new SQLiteReplayGuard(db, namespace, ttl);
    }

    constructor (db: ReplayTable, namespace: Str, ttl: int)
      ensures this.db == db && this.namespace == namespace && this.ttl == ttl
    {
      this.db, this.namespace, this.ttl := db, namespace, ttl;
    }

    /** One transaction: delete the namespace's expired rows, then insert unless the nonce is there. */
    method Claim(nonce: Str, retain: Option<real>, now: real) returns (ok: bool)
      modifies db
      ensures (db.rows, ok) == TableClaimSpec(ttl, old(db.rows), namespace, now, nonce, retain)
    {
      db.rows := Purged(db.rows, namespace, now);
      ok := (namespace, nonce) !in db.rows;
      if ok {
        db.rows := db.rows[(namespace, nonce) := now + Retention(ttl, retain)];
      }
    }

    method VerifyCommand(v: Verifier, c: Call) returns (error: Option<Error>)
      requires v.ttl == ttl
      modifies db
      ensures (db.rows, error) == TableVerifySpec(v, old(db.rows), namespace, c)
      ensures var e := c.envelope;
        var formed := e.version == 1 && e.commandId != [] && e.device != [] && e.capability != [] && e.nonce != [];
        var signed :=
          && (forall k | 0 <= k < |e.signature| :: e.signature[k] < 128)
          && v.sign(e.(signature := [])) == Some(e.signature);
        var timely := -v.tolerance <= c.clock - e.issuedAt <= v.tolerance;
        var addressed := v.device.Some? ==> e.device == v.device.value;
        var declared := v.capabilities.Some? ==> e.capability in v.capabilities.value;
        var live := (namespace, e.nonce) in old(db.rows) && old(db.rows)[(namespace, e.nonce)] > c.now;
        error ==
          if !formed then Some(InvalidEnvelope)
          else if !signed then Some(InvalidSignature)
          else if !timely then Some(Stale)
          else if !addressed then Some(OtherDevice)
          else if !declared then Some(Undeclared)
          else if live then Some(Replayed)
          else None
    {
      error := Refusal(v, c.envelope, c.clock);
      if error.None? {
        var ok := Claim(c.envelope.nonce, Some(Retain(v, c.envelope, c.clock)), c.now);
        if !ok {
          error := Some(Replayed);
        }
      }
    }
  }
}
