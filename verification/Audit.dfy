/** The hash chain of `meemee/audit.py` and the signed anchors of `meemee/audit_anchor.py`. SHA-256 and HMAC are
    arbitrary functions: where a guarantee needs collision resistance, the lemma says that the two tables contain a
    collision. */
module Audit {
  import opened Text

  const SEPARATOR: CodePoint := 0x1F

  datatype Entry = Entry(
    sequence: int, occurred: Str, actor: Str, action: Str, resource: Str, outcome: Str, metadata: Str,
    previous: Str, hash: Str)

  datatype Base = Base(sequence: int, hash: Str)

  /** audit_log in sequence order, audit_chain_base, and the next AUTOINCREMENT value. */
  datatype State = State(rows: seq<Entry>, base: Option<Base>, next: int)

  datatype Error = ValueError | IntegrityError | FileExistsError | RuntimeError

  type Sha = Str -> Str

  const EMPTY := State([], None, 1)

  const GENESIS: Str := Codes("0000000000000000000000000000000000000000000000000000000000000000")

  function Canonical(previous: Str, e: Entry): Str {
    previous + ([SEPARATOR] + (e.occurred + ([SEPARATOR] + (e.actor + ([SEPARATOR] + (e.action + ([SEPARATOR]
    + (e.resource + ([SEPARATOR] + (e.outcome + ([SEPARATOR] + e.metadata)))))))))))
  }

  function BaseSequence(s: State): int {
    if s.base.Some? then s.base.value.sequence else 0
  }

  function BaseHash(s: State): Str {
    if s.base.Some? then s.base.value.hash else GENESIS
  }

  function HeadHash(s: State): Str {
    if s.rows != [] then s.rows[|s.rows| - 1].hash else BaseHash(s)
  }

  /** None if the rows continue the chain; otherwise the sequence where it breaks. */
  function VerifyFrom(sha: Sha, rows: seq<Entry>, previous: Str, expected: int): Option<int>
    decreases |rows|
  {
    if rows == [] then None
    else
      var row := rows[0];
      if row.sequence != expected then Some(expected)
      else if row.previous != previous || row.hash != sha(Canonical(previous, row)) then Some(row.sequence)
      else VerifyFrom(sha, rows[1..], row.hash, expected + 1)
  }

  function VerifySpec(sha: Sha, s: State): Option<int> {
    VerifyFrom(sha, s.rows, BaseHash(s), BaseSequence(s) + 1)
  }

  /** What a caller of `append` supplies, with the clock text. */
  datatype Record = Record(occurred: Str, actor: Str, action: Str, resource: Str, outcome: Str, metadata: Str)

  function NewEntry(sha: Sha, s: State, r: Record): Entry {
    var e := Entry(s.next, r.occurred, r.actor, r.action, r.resource, r.outcome, r.metadata, HeadHash(s), []);
    e.(hash := sha(Canonical(HeadHash(s), e)))
  }

  /** entry_hash is UNIQUE. */
  predicate Taken(rows: seq<Entry>, hash: Str) {
    exists row | row in rows :: row.hash == hash
  }

  function AppendSpec(sha: Sha, s: State, r: Record): (State, Result<int, Error>) {
    var e := NewEntry(sha, s, r);
    if Taken(s.rows, e.hash) then (s, Err(IntegrityError))
    else (State(s.rows + [e], s.base, s.next + 1), Ok(e.sequence))
  }

  // ----- anchors -----

  datatype Payload = Payload(sequence: int, hash: Str, occurred: Option<Str>, anchored: Str)

  datatype Anchor = Anchor(payload: Payload, signature: Str)

  /** HMAC of the canonical JSON of a payload. */
  type Mac = (Str, Payload) -> Str

  function HeadPayload(s: State, now: Str): Payload {
    if s.rows == [] then Payload(0, GENESIS, None, now)
    else
      var row := s.rows[|s.rows| - 1];
      Payload(row.sequence, row.hash, Some(row.occurred), now)
  }

  function CreateAnchorSpec(sha: Sha, mac: Mac, s: State, key: Str, taken: bool, now: Str): Result<Anchor, Error> {
    if Utf8Length(key) < 32 then Err(ValueError)
    else if taken then Err(FileExistsError)
    else if VerifySpec(sha, s).Some? then Err(ValueError)
    else Ok(Anchor(HeadPayload(s, now), mac(key, HeadPayload(s, now))))
  }

  function RowHash(rows: seq<Entry>, sequence: int): Option<Str> {
    if rows == [] then None
    else if rows[0].sequence == sequence then Some(rows[0].hash)
    else RowHash(rows[1..], sequence)
  }

  /** The hash recorded for a sequence number, in the log or as the chain base. */
  function HashAt(s: State, sequence: int): Option<Str> {
    var row := RowHash(s.rows, sequence);
    if row.Some? then row
    else if s.base.Some? && s.base.value.sequence == sequence then Some(s.base.value.hash)
    else None
  }

  function HeadMatches(s: State, p: Payload): bool {
    HashAt(s, p.sequence) == Some(p.hash) || (p.sequence == 0 && HashAt(s, 0).None?)
  }

  predicate Passes(sha: Sha, mac: Mac, s: State, a: Anchor, key: Str) {
    a.signature == mac(key, a.payload) && HeadMatches(s, a.payload) && VerifySpec(sha, s).None?
  }

  function After(rows: seq<Entry>, sequence: int): seq<Entry> {
    if rows == [] then []
    else (if rows[0].sequence <= sequence then [] else [rows[0]]) + After(rows[1..], sequence)
  }

  function Pruned(s: State, p: Payload): State {
    State(After(s.rows, p.sequence), Some(Base(p.sequence, p.hash)), s.next)
  }

  function PruneSpec(sha: Sha, mac: Mac, s: State, a: Anchor, key: Str): (State, Result<int, Error>) {
    if !Passes(sha, mac, s, a, key) then (s, Err(ValueError))
    else if a.payload.sequence < 1 then (s, Err(ValueError))
    else if s.base.Some? && s.base.value.sequence > a.payload.sequence then (s, Err(ValueError))
    else
      var t := Pruned(s, a.payload);
      (t, if VerifySpec(sha, t).Some? then Err(RuntimeError) else Ok(|s.rows| - |t.rows|))
  }

  // ----- reachable states -----

  datatype Op = Append(record: Record) | Prune(anchor: Anchor, key: Str)

  function Apply(sha: Sha, mac: Mac, s: State, op: Op): State {
    match op
    case Append(r) => AppendSpec(sha, s, r).0
    case Prune(a, key) => PruneSpec(sha, mac, s, a, key).0
  }

  function Run(sha: Sha, mac: Mac, s: State, ops: seq<Op>): State
    decreases |ops|
  {
    if ops == [] then s else Run(sha, mac, Apply(sha, mac, s, ops[0]), ops[1..])
  }

  ghost predicate Invariant(sha: Sha, s: State) {
    && VerifySpec(sha, s).None?
    && s.next == BaseSequence(s) + |s.rows| + 1
    && (s.base.Some? ==> s.base.value.sequence >= 1)
  }

  // ----- verified chains -----

  /** A verified chain is numbered without gaps. */
  lemma {:induction false} VerifiedAt(sha: Sha, rows: seq<Entry>, previous: Str, expected: int, i: nat)
    requires VerifyFrom(sha, rows, previous, expected).None? && i < |rows|
    ensures rows[i].sequence == expected + i
    ensures rows[i].previous == if i == 0 then previous else rows[i - 1].hash
    ensures rows[i].hash == sha(Canonical(rows[i].previous, rows[i]))
    decreases i
  {
    if i > 0 {
      VerifiedAt(sha, rows[1..], rows[0].hash, expected + 1, i - 1);
    }
  }

  /** Row i continues the chain: its number is its place's, it links to the row before it, or to the base, and its
      digest is that of its texts. */
  ghost predicate Continues(sha: Sha, rows: seq<Entry>, previous: Str, expected: int, i: int)
    requires 0 <= i < |rows|
  {
    && rows[i].sequence == expected + i
    && rows[i].previous == (if i == 0 then previous else rows[i - 1].hash)
    && rows[i].hash == sha(Canonical(rows[i].previous, rows[i]))
  }

  /** The answer is the number of the first place whose row does not continue the chain, if there is one. */
  lemma {:induction false} VerifyExactly(sha: Sha, rows: seq<Entry>, previous: Str, expected: int)
    ensures var broken := VerifyFrom(sha, rows, previous, expected);
      && (broken.None? ==> forall i | 0 <= i < |rows| :: Continues(sha, rows, previous, expected, i))
      && (broken.Some? ==>
            && expected <= broken.value < expected + |rows|
            && !Continues(sha, rows, previous, expected, broken.value - expected)
            && forall i | 0 <= i < broken.value - expected :: Continues(sha, rows, previous, expected, i))
    decreases |rows|
  {
    if rows != [] {
      var rest := rows[1..];
      VerifyExactly(sha, rest, rows[0].hash, expected + 1);
      forall i | 0 < i < |rows|
        ensures Continues(sha, rows, previous, expected, i)
          <==> Continues(sha, rest, rows[0].hash, expected + 1, i - 1)
      {
        assert rows[i] == rest[i - 1] && (i > 1 ==> rows[i - 1] == rest[i - 2]);
      }
    }
  }

  lemma {:induction false} VerifyConcat(sha: Sha, a: seq<Entry>, b: seq<Entry>, previous: Str, expected: int)
    requires VerifyFrom(sha, a, previous, expected).None?
    ensures VerifyFrom(sha, a + b, previous, expected)
      == VerifyFrom(sha, b, if a == [] then previous else a[|a| - 1].hash, expected + |a|)
    decreases |a|
  {
    if a == [] {
      assert a + b == b;
    } else {
      assert (a + b)[1..] == a[1..] + b;
      VerifyConcat(sha, a[1..], b, a[0].hash, expected + 1);
    }
  }

  lemma {:induction false} VerifyPrefix(sha: Sha, a: seq<Entry>, b: seq<Entry>, previous: Str, expected: int)
    requires VerifyFrom(sha, a + b, previous, expected).None?
    ensures VerifyFrom(sha, a, previous, expected).None?
    decreases |a|
  {
    if a != [] {
      assert (a + b)[1..] == a[1..] + b;
      VerifyPrefix(sha, a[1..], b, a[0].hash, expected + 1);
    }
  }

  /** In a verified chain the row of sequence n is found at its place, and pruning drops exactly the rows up to it. */
  lemma {:induction false} RowsByPlace(sha: Sha, rows: seq<Entry>, previous: Str, expected: int, n: int)
    requires VerifyFrom(sha, rows, previous, expected).None?
    ensures RowHash(rows, n) ==
      if expected <= n < expected + |rows| then Some(rows[n - expected].hash) else None
    ensures After(rows, n) ==
      if n < expected then rows else if n < expected + |rows| then rows[n - expected + 1..] else []
    decreases |rows|
  {
    if rows != [] {
      RowsByPlace(sha, rows[1..], rows[0].hash, expected + 1, n);
      assert rows == [rows[0]] + rows[1..];
    }
  }

  lemma AppendKeepsInvariant(sha: Sha, s: State, r: Record)
    requires Invariant(sha, s)
    ensures Invariant(sha, AppendSpec(sha, s, r).0)
  {
    var e := NewEntry(sha, s, r);
    VerifyConcat(sha, s.rows, [e], BaseHash(s), BaseSequence(s) + 1);
    assert Canonical(HeadHash(s), e) == Canonical(HeadHash(s), e.(hash := []));
  }

  /** The chain is still whole after the rows up to its k-th are deleted. */
  lemma SuffixVerifies(sha: Sha, rows: seq<Entry>, previous: Str, expected: int, k: nat)
    requires VerifyFrom(sha, rows, previous, expected).None? && k <= |rows|
    ensures VerifyFrom(sha, rows[k..], if k == 0 then previous else rows[k - 1].hash, expected + k).None?
  {
    assert rows == rows[..k] + rows[k..];
    VerifyPrefix(sha, rows[..k], rows[k..], previous, expected);
    VerifyConcat(sha, rows[..k], rows[k..], previous, expected);
  }

  /** A prune succeeds exactly with a passing anchor that is neither empty nor older than the base. It deletes the rows
      up to the anchor's, makes the anchor the base, and never breaks the chain: the RuntimeError is unreachable. */
  lemma PruneExactly(sha: Sha, mac: Mac, s: State, a: Anchor, key: Str)
    ensures var (t, r) := PruneSpec(sha, mac, s, a, key);
      var n := a.payload.sequence;
      && (r.Ok? <==> Passes(sha, mac, s, a, key) && n >= 1 && (s.base.Some? ==> s.base.value.sequence <= n))
      && (r.Err? ==> t == s && r.error == ValueError)
      && (r.Ok? ==>
            && 0 <= n - BaseSequence(s) <= |s.rows|
            && t == State(s.rows[n - BaseSequence(s)..], Some(Base(n, a.payload.hash)), s.next)
            && r.value == n - BaseSequence(s)
            && VerifySpec(sha, t).None?)
  {
    var n := a.payload.sequence;
    if Passes(sha, mac, s, a, key) && n >= 1 && (s.base.Some? ==> s.base.value.sequence <= n) {
      PrunedVerifies(sha, s, a.payload);
    }
  }

  lemma PrunedVerifies(sha: Sha, s: State, p: Payload)
    requires VerifySpec(sha, s).None? && HashAt(s, p.sequence) == Some(p.hash)
    requires s.base.Some? ==> s.base.value.sequence <= p.sequence
    ensures 0 <= p.sequence - BaseSequence(s) <= |s.rows|
    ensures Pruned(s, p).rows == s.rows[p.sequence - BaseSequence(s)..]
    ensures VerifySpec(sha, Pruned(s, p)).None?
  {
    var n, first := p.sequence, BaseSequence(s) + 1;
    RowsByPlace(sha, s.rows, BaseHash(s), first, n);
    PrunedByPlace(s, p, RowHash(s.rows, n), After(s.rows, n));
    SuffixVerifies(sha, s.rows, BaseHash(s), first, n - BaseSequence(s));
  }

  lemma PrunedByPlace(s: State, p: Payload, row: Option<Str>, after: seq<Entry>)
    requires s.base.Some? ==> s.base.value.sequence <= p.sequence
    requires var k := p.sequence - BaseSequence(s);
      && row == (if 0 < k <= |s.rows| then Some(s.rows[k - 1].hash) else None)
      && after == (if k <= 0 then s.rows else if k <= |s.rows| then s.rows[k..] else [])
    requires row == Some(p.hash) || (row.None? && s.base == Some(Base(p.sequence, p.hash)))
    ensures var k := p.sequence - BaseSequence(s);
      && 0 <= k <= |s.rows| && after == s.rows[k..]
      && p.hash == if k == 0 then BaseHash(s) else s.rows[k - 1].hash
  {
  }

  /** So it keeps the invariant. */
  lemma PruneKeepsInvariant(sha: Sha, mac: Mac, s: State, a: Anchor, key: Str)
    requires Invariant(sha, s)
    ensures Invariant(sha, PruneSpec(sha, mac, s, a, key).0)
  {
    PruneExactly(sha, mac, s, a, key);
  }

  /** Every state reached by appends and prunes passes `verify`. */
  lemma {:induction false} RunKeepsInvariant(sha: Sha, mac: Mac, s: State, ops: seq<Op>)
    requires Invariant(sha, s)
    ensures Invariant(sha, Run(sha, mac, s, ops))
    decreases |ops|
  {
    if ops != [] {
      match ops[0] {
        case Append(r) => AppendKeepsInvariant(sha, s, r);
        case Prune(a, key) => PruneKeepsInvariant(sha, mac, s, a, key);
      }
      RunKeepsInvariant(sha, mac, Apply(sha, mac, s, ops[0]), ops[1..]);
    }
  }

  // ----- anchors outlive growth -----

  /** In a reachable state the hash on record for n is the row's at its place, or the chain base's. */
  lemma HashAtPlace(sha: Sha, s: State, n: int)
    requires Invariant(sha, s)
    ensures HashAt(s, n) ==
      if BaseSequence(s) < n <= BaseSequence(s) + |s.rows| then Some(s.rows[n - BaseSequence(s) - 1].hash)
      else if s.base.Some? && n == BaseSequence(s) then Some(BaseHash(s))
      else None
  {
    RowsByPlace(sha, s.rows, BaseHash(s), BaseSequence(s) + 1, n);
  }

  lemma HeadIsFound(sha: Sha, s: State, now: Str)
    requires Invariant(sha, s)
    ensures HeadMatches(s, HeadPayload(s, now))
  {
    var n := HeadPayload(s, now).sequence;
    HashAtPlace(sha, s, n);
    if s.rows != [] {
      VerifiedAt(sha, s.rows, BaseHash(s), BaseSequence(s) + 1, |s.rows| - 1);
    }
  }

  /** An anchor passes in the state it was created in, also when pruning has emptied the log. */
  lemma CreatedAnchorPasses(sha: Sha, mac: Mac, s: State, key: Str, now: Str)
    requires Invariant(sha, s) && Utf8Length(key) >= 32
    ensures var r := CreateAnchorSpec(sha, mac, s, key, false, now);
      r.Ok? && Passes(sha, mac, s, r.value, key)
  {
    HeadIsFound(sha, s, now);
  }

  /** The whole verdict, for any table: the signature is that of the payload under the key, every row continues the
      chain, and the anchored hash is that of the row or of the base with its number; number 0 may also be on no row
      and no base. */
  lemma PassesExactly(sha: Sha, mac: Mac, s: State, a: Anchor, key: Str)
    ensures Passes(sha, mac, s, a, key) <==>
      && a.signature == mac(key, a.payload)
      && (forall i | 0 <= i < |s.rows| :: s.rows[i].sequence == BaseSequence(s) + 1 + i)
      && (s.rows != [] ==> s.rows[0].previous == BaseHash(s))
      && (forall i, j | 0 <= i < |s.rows| && j == i - 1 >= 0 :: s.rows[i].previous == s.rows[j].hash)
      && (forall i | 0 <= i < |s.rows| :: s.rows[i].hash == sha(Canonical(s.rows[i].previous, s.rows[i])))
      && (|| (exists i | 0 <= i < |s.rows| ::
                s.rows[i].sequence == a.payload.sequence && s.rows[i].hash == a.payload.hash)
          || s.base == Some(Base(a.payload.sequence, a.payload.hash))
          || (a.payload.sequence == 0 && (s.base.Some? ==> s.base.value.sequence != 0)
              && forall i | 0 <= i < |s.rows| :: s.rows[i].sequence != 0))
  {
    VerifiesExactly(sha, s);
    if VerifySpec(sha, s).None? {
      RowsByPlace(sha, s.rows, BaseHash(s), BaseSequence(s) + 1, a.payload.sequence);
      FoundByPlace(s, a.payload.sequence, a.payload.hash);
    }
  }

  lemma VerifiesExactly(sha: Sha, s: State)
    ensures VerifySpec(sha, s).None? <==>
      && (forall i | 0 <= i < |s.rows| :: s.rows[i].sequence == BaseSequence(s) + 1 + i)
      && (s.rows != [] ==> s.rows[0].previous == BaseHash(s))
      && (forall i, j | 0 <= i < |s.rows| && j == i - 1 >= 0 :: s.rows[i].previous == s.rows[j].hash)
      && (forall i | 0 <= i < |s.rows| :: s.rows[i].hash == sha(Canonical(s.rows[i].previous, s.rows[i])))
  {
    var broken, first := VerifySpec(sha, s), BaseSequence(s) + 1;
    VerifyExactly(sha, s.rows, BaseHash(s), first);
    if broken.None? {
      forall i | 0 <= i < |s.rows|
        ensures s.rows[i].sequence == first + i
        ensures s.rows[i].previous == (if i == 0 then BaseHash(s) else s.rows[i - 1].hash)
        ensures s.rows[i].hash == sha(Canonical(s.rows[i].previous, s.rows[i]))
      {
        assert Continues(sha, s.rows, BaseHash(s), first, i);
      }
    } else {
      var k := broken.value - first;
      assert !Continues(sha, s.rows, BaseHash(s), first, k);
      assert s.rows[k].sequence != first + k
        || s.rows[k].previous != (if k == 0 then BaseHash(s) else s.rows[k - 1].hash)
        || s.rows[k].hash != sha(Canonical(s.rows[k].previous, s.rows[k]));
    }
  }

  lemma FoundByPlace(s: State, n: int, hash: Str)
    requires forall i | 0 <= i < |s.rows| :: s.rows[i].sequence == BaseSequence(s) + 1 + i
    ensures var k := n - BaseSequence(s) - 1;
      && ((exists i | 0 <= i < |s.rows| :: s.rows[i].sequence == n && s.rows[i].hash == hash)
          <==> 0 <= k < |s.rows| && s.rows[k].hash == hash)
      && ((forall i | 0 <= i < |s.rows| :: s.rows[i].sequence != n) <==> !(0 <= k < |s.rows|))
  {
    var k := n - BaseSequence(s) - 1;
    if 0 <= k < |s.rows| {
      assert s.rows[k].sequence == n;
    }
  }

  /** Of the rows a prune deletes those numbered up to the anchor's, and no other; the anchor's hash is that of the last
      of them, or of the base when it deletes none. */
  lemma PruneDeletesUpTo(sha: Sha, mac: Mac, s: State, a: Anchor, key: Str)
    requires PruneSpec(sha, mac, s, a, key).1.Ok?
    ensures var (t, k) := (PruneSpec(sha, mac, s, a, key).0, PruneSpec(sha, mac, s, a, key).1.value);
      && 0 <= k <= |s.rows| && t.rows == s.rows[k..]
      && (forall i | 0 <= i < |s.rows| :: s.rows[i].sequence <= a.payload.sequence <==> i < k)
      && (if k > 0 then s.rows[k - 1].sequence == a.payload.sequence && s.rows[k - 1].hash == a.payload.hash
          else s.base == Some(Base(a.payload.sequence, a.payload.hash)))
  {
    PruneExactly(sha, mac, s, a, key);
    VerifiesExactly(sha, s);
    RowsByPlace(sha, s.rows, BaseHash(s), BaseSequence(s) + 1, a.payload.sequence);
  }

  /** What a created anchor holds, and exactly when none is created. */
  lemma AnchorExactly(sha: Sha, mac: Mac, s: State, key: Str, taken: bool, now: Str)
    ensures var r := CreateAnchorSpec(sha, mac, s, key, taken, now);
      && (r == Err(FileExistsError) <==> Utf8Length(key) >= 32 && taken)
      && (r == Err(ValueError) <==> Utf8Length(key) < 32 || (!taken && VerifySpec(sha, s).Some?))
      && (r.Err? ==> r.error in {ValueError, FileExistsError})
      && (r.Ok? ==>
            && r.value.signature == mac(key, r.value.payload)
            && r.value.payload.anchored == now
            && (s.rows == [] ==>
                  && r.value.payload.sequence == 0 && r.value.payload.occurred == None
                  && r.value.payload.hash == GENESIS)
            && (s.rows != [] ==>
                  && r.value.payload.sequence == s.rows[|s.rows| - 1].sequence
                  && r.value.payload.hash == s.rows[|s.rows| - 1].hash
                  && r.value.payload.occurred == Some(s.rows[|s.rows| - 1].occurred)))
  {
  }

  /** Two payloads or keys never give one signature. */
  ghost predicate InjectiveMac(mac: Mac) {
    forall k, p, l, q | mac(k, p) == mac(l, q) :: k == l && p == q
  }

  /** An issued anchor fails on every log once its payload, its signature or the key is another, and no log is pruned
      with it. */
  lemma AlteredAnchorFails(
    sha: Sha, mac: Mac, s: State, key: Str, taken: bool, now: Str, t: State, altered: Anchor, other: Str)
    requires InjectiveMac(mac) && CreateAnchorSpec(sha, mac, s, key, taken, now).Ok?
    requires var a := CreateAnchorSpec(sha, mac, s, key, taken, now).value;
      || (altered.signature == a.signature && (altered.payload != a.payload || other != key))
      || (altered.signature != a.signature && altered.payload == a.payload && other == key)
    ensures !Passes(sha, mac, t, altered, other)
    ensures PruneSpec(sha, mac, t, altered, other) == (t, Err(ValueError))
  {
    var a := CreateAnchorSpec(sha, mac, s, key, taken, now).value;
    assert a.signature == mac(key, a.payload);
    PassesExactly(sha, mac, t, altered, other);
  }

  lemma AppendKeepsAnchor(sha: Sha, mac: Mac, s: State, r: Record, a: Anchor, key: Str)
    requires Invariant(sha, s) && Passes(sha, mac, s, a, key)
    ensures Passes(sha, mac, AppendSpec(sha, s, r).0, a, key)
  {
    var t := AppendSpec(sha, s, r).0;
    AppendKeepsInvariant(sha, s, r);
    HashAtPlace(sha, s, a.payload.sequence);
    HashAtPlace(sha, t, a.payload.sequence);
  }

  /** After a successful prune to m an anchor at n >= 1 passes exactly when m <= n. */
  lemma PruneAndAnchor(sha: Sha, mac: Mac, s: State, p: Anchor, pkey: Str, a: Anchor, key: Str)
    requires Invariant(sha, s) && Passes(sha, mac, s, a, key)
    requires PruneSpec(sha, mac, s, p, pkey).1.Ok?
    ensures Passes(sha, mac, PruneSpec(sha, mac, s, p, pkey).0, a, key)
      <==> a.payload.sequence == 0 || p.payload.sequence <= a.payload.sequence
  {
    var t := PruneSpec(sha, mac, s, p, pkey).0;
    PruneExactly(sha, mac, s, p, pkey);
    HashAtPlace(sha, s, a.payload.sequence);
    HashAtPlace(sha, s, p.payload.sequence);
    HashAtPlace(sha, t, a.payload.sequence);
    HashAtPlace(sha, s, 0);
  }

  /** An anchor keeps passing through any appends and any prunes to sequences up to its own. */
  lemma {:induction false} AnchorOutlivesGrowth(sha: Sha, mac: Mac, s: State, ops: seq<Op>, a: Anchor, key: Str)
    requires Invariant(sha, s) && Passes(sha, mac, s, a, key)
    requires forall op | op in ops :: op.Prune? && a.payload.sequence != 0 ==>
      op.anchor.payload.sequence <= a.payload.sequence
    ensures Passes(sha, mac, Run(sha, mac, s, ops), a, key)
    decreases |ops|
  {
    if ops != [] {
      var t := Apply(sha, mac, s, ops[0]);
      match ops[0] {
        case Append(r) =>
          AppendKeepsAnchor(sha, mac, s, r, a, key);
          AppendKeepsInvariant(sha, s, r);
        case Prune(p, pkey) =>
          PruneKeepsInvariant(sha, mac, s, p, pkey);
          if PruneSpec(sha, mac, s, p, pkey).1.Ok? {
            PruneAndAnchor(sha, mac, s, p, pkey, a, key);
          }
      }
      AnchorOutlivesGrowth(sha, mac, t, ops[1..], a, key);
    }
  }

  // ----- tamper evidence -----

  predicate Plain(s: Str) {
    SEPARATOR !in s
  }

  predicate PlainEntry(e: Entry) {
    Plain(e.occurred) && Plain(e.actor) && Plain(e.action) && Plain(e.resource) && Plain(e.outcome)
  }

  /** Hex digests, like those of SHA-256, never contain the separator. */
  ghost predicate PlainDigests(sha: Sha) {
    forall x :: Plain(sha(x))
  }

  lemma {:induction false} FirstField(a: Str, x: Str, b: Str, y: Str)
    requires Plain(a) && Plain(b) && a + ([SEPARATOR] + x) == b + ([SEPARATOR] + y)
    ensures a == b && x == y
    decreases |a|
  {
    var s, t := a + ([SEPARATOR] + x), b + ([SEPARATOR] + y);
    assert s[0] == (if a == [] then SEPARATOR else a[0]) && t[0] == (if b == [] then SEPARATOR else b[0]);
    if a == [] || b == [] {
      assert s[1..] == x && t[1..] == y;
    } else {
      assert s[1..] == a[1..] + ([SEPARATOR] + x) && t[1..] == b[1..] + ([SEPARATOR] + y);
      FirstField(a[1..], x, b[1..], y);
      assert a == [a[0]] + a[1..] && b == [b[0]] + b[1..];
    }
  }

  /** The text after the first field and the separator that follows it. */
  function AfterOccurred(e: Entry): Str {
    e.actor + ([SEPARATOR] + (e.action + ([SEPARATOR] + (e.resource + ([SEPARATOR]
    + (e.outcome + ([SEPARATOR] + e.metadata)))))))
  }

  /** The separator-joined text determines all seven fields when no field but the last contains the separator. */
  lemma CanonicalIsInjective(p: Str, d: Entry, q: Str, e: Entry)
    requires Plain(p) && Plain(q) && PlainEntry(d) && PlainEntry(e)
    requires Canonical(p, d) == Canonical(q, e)
    ensures p == q && d.occurred == e.occurred && d.actor == e.actor && d.action == e.action
    ensures d.resource == e.resource && d.outcome == e.outcome && d.metadata == e.metadata
  {
    FirstField(p, d.occurred + ([SEPARATOR] + AfterOccurred(d)), q, e.occurred + ([SEPARATOR] + AfterOccurred(e)));
    FirstField(d.occurred, AfterOccurred(d), e.occurred, AfterOccurred(e));
    var d3, e3 := d.outcome + ([SEPARATOR] + d.metadata), e.outcome + ([SEPARATOR] + e.metadata);
    var d2, e2 := d.resource + ([SEPARATOR] + d3), e.resource + ([SEPARATOR] + e3);
    var d1, e1 := d.action + ([SEPARATOR] + d2), e.action + ([SEPARATOR] + e2);
    FirstField(d.actor, d1, e.actor, e1);
    FirstField(d.action, d2, e.action, e2);
    FirstField(d.resource, d3, e.resource, e3);
    FirstField(d.outcome, d.metadata, e.outcome, e.metadata);
  }

  /** The pieces of a text between separators. */
  function Split(s: Str): (pieces: seq<Str>)
    ensures pieces != []
  {
    if s == [] then [[]]
    else
      var rest := Split(s[1..]);
      if s[0] == SEPARATOR then [[]] + rest else [[s[0]] + rest[0]] + rest[1..]
  }

  lemma {:induction false} SplitFirst(a: Str, x: Str)
    requires Plain(a)
    ensures Split(a + ([SEPARATOR] + x)) == [a] + Split(x)
    decreases |a|
  {
    var s := a + ([SEPARATOR] + x);
    if a == [] {
      assert s[1..] == x;
    } else {
      assert s[1..] == a[1..] + ([SEPARATOR] + x);
      SplitFirst(a[1..], x);
      assert a == [a[0]] + a[1..];
      assert ([a[1..]] + Split(x))[1..] == Split(x);
    }
  }

  lemma {:induction false} SplitPlain(s: Str)
    requires Plain(s)
    ensures Split(s) == [s]
  {
    if s != [] {
      SplitPlain(s[1..]);
      assert s == [s[0]] + s[1..];
    }
  }

  /** The text that is hashed holds the previous hash and the row's six texts, in this order. */
  lemma CanonicalSplits(p: Str, e: Entry)
    requires Plain(p) && PlainEntry(e) && Plain(e.metadata)
    ensures Split(Canonical(p, e)) == [p, e.occurred, e.actor, e.action, e.resource, e.outcome, e.metadata]
  {
    var d4 := e.outcome + ([SEPARATOR] + e.metadata);
    var d3 := e.resource + ([SEPARATOR] + d4);
    var d2 := e.action + ([SEPARATOR] + d3);
    var d1 := e.actor + ([SEPARATOR] + d2);
    SplitFirst(p, e.occurred + ([SEPARATOR] + d1));
    SplitFirst(e.occurred, d1);
    SplitFirst(e.actor, d2);
    SplitFirst(e.action, d3);
    SplitFirst(e.resource, d4);
    SplitFirst(e.outcome, e.metadata);
    SplitPlain(e.metadata);
  }

  function JoinedText(e: Entry): Str {
    Canonical(e.previous, e)
  }

  /** Two rows at the same place hash different texts to the same digest. */
  ghost predicate Collision(sha: Sha, a: seq<Entry>, b: seq<Entry>) {
    exists i | 0 <= i < |a| && i < |b| ::
      JoinedText(a[i]) != JoinedText(b[i]) && sha(JoinedText(a[i])) == sha(JoinedText(b[i]))
  }

  /** Two verified chains from the same base that agree on one digest hash the same texts up to there. */
  lemma {:induction false} SameTexts(
    sha: Sha, a: seq<Entry>, b: seq<Entry>, previous: Str, expected: int, k: nat, i: nat)
    requires PlainDigests(sha) && !Collision(sha, a, b)
    requires VerifyFrom(sha, a, previous, expected).None? && VerifyFrom(sha, b, previous, expected).None?
    requires i <= k < |a| && k < |b| && a[k].hash == b[k].hash
    ensures JoinedText(a[i]) == JoinedText(b[i]) && a[i].hash == b[i].hash && a[i].previous == b[i].previous
    ensures a[i].sequence == b[i].sequence
    decreases k
  {
    VerifiedAt(sha, a, previous, expected, k);
    VerifiedAt(sha, b, previous, expected, k);
    assert JoinedText(a[k]) == JoinedText(b[k]);
    if k > 0 {
      VerifiedAt(sha, a, previous, expected, k - 1);
      VerifiedAt(sha, b, previous, expected, k - 1);
      FirstField(a[k].previous, a[k].occurred + ([SEPARATOR] + AfterOccurred(a[k])),
                 b[k].previous, b[k].occurred + ([SEPARATOR] + AfterOccurred(b[k])));
      if i < k {
        SameTexts(sha, a, b, previous, expected, k - 1, i);
      }
    }
  }

  // ----- separators -----

  /** None of the six texts of a row holds the separator. */
  predicate Clean(e: Entry) {
    PlainEntry(e) && Plain(e.metadata)
  }

  function Separators(s: Str): nat {
    if s == [] then 0 else (if s[0] == SEPARATOR then 1 else 0) + Separators(s[1..])
  }

  lemma {:induction false} NoSeparators(s: Str)
    ensures Separators(s) == 0 <==> Plain(s)
  {
    if s != [] {
      NoSeparators(s[1..]);
      assert s == [s[0]] + s[1..];
    }
  }

  lemma {:induction false} SeparatorsJoined(a: Str, b: Str)
    ensures Separators(a + ([SEPARATOR] + b)) == Separators(a) + 1 + Separators(b)
    decreases |a|
  {
    var s := a + ([SEPARATOR] + b);
    if a == [] {
      assert s[1..] == b;
    } else {
      assert s[1..] == a[1..] + ([SEPARATOR] + b);
      SeparatorsJoined(a[1..], b);
    }
  }

  function FieldSeparators(e: Entry): nat {
    Separators(e.occurred) + Separators(e.actor) + Separators(e.action) + Separators(e.resource)
    + Separators(e.outcome) + Separators(e.metadata)
  }

  lemma CleanHasNone(e: Entry)
    ensures FieldSeparators(e) == 0 <==> Clean(e)
  {
    NoSeparators(e.occurred);
    NoSeparators(e.actor);
    NoSeparators(e.action);
    NoSeparators(e.resource);
    NoSeparators(e.outcome);
    NoSeparators(e.metadata);
  }

  /** The joined text holds six separators and those of its fields. */
  lemma CanonicalSeparators(p: Str, e: Entry)
    ensures Separators(Canonical(p, e)) == Separators(p) + 6 + FieldSeparators(e)
  {
    var d4 := e.outcome + ([SEPARATOR] + e.metadata);
    var d3 := e.resource + ([SEPARATOR] + d4);
    var d2 := e.action + ([SEPARATOR] + d3);
    var d1 := e.actor + ([SEPARATOR] + d2);
    SeparatorsJoined(p, e.occurred + ([SEPARATOR] + d1));
    SeparatorsJoined(e.occurred, d1);
    SeparatorsJoined(e.actor, d2);
    SeparatorsJoined(e.action, d3);
    SeparatorsJoined(e.resource, d4);
    SeparatorsJoined(e.outcome, e.metadata);
  }

  /** Whatever has the text of a clean row is clean. */
  lemma CleanTextIsClean(p: Str, d: Entry, e: Entry)
    requires Clean(d) && Canonical(p, d) == Canonical(p, e)
    ensures Clean(e)
  {
    CanonicalSeparators(p, d);
    CanonicalSeparators(p, e);
    CleanHasNone(d);
    CleanHasNone(e);
  }

  /** Both tables reach sequence n and hold the same rows up to it. */
  ghost predicate IdenticalUpTo(s: State, t: State, n: int) {
    var k := n - BaseSequence(s);
    0 <= k <= |s.rows| && k <= |t.rows| && s.rows[..k] == t.rows[..k]
  }

  /** The rows up to sequence n are free of separators; plain rows may hold them in the metadata. */
  ghost predicate CleanUpTo(s: State, n: int) {
    forall i | 0 <= i < |s.rows| && i < n - BaseSequence(s) :: Clean(s.rows[i])
  }

  ghost predicate PlainUpTo(s: State, n: int) {
    forall i | 0 <= i < |s.rows| && i < n - BaseSequence(s) :: PlainEntry(s.rows[i])
  }

  /** A verified table with the same base and the same digest at sequence n, and no hash collision with `s`. */
  ghost predicate Rival(sha: Sha, s: State, t: State, n: int) {
    && t.base == s.base
    && VerifySpec(sha, t).None?
    && RowHash(t.rows, n) == RowHash(s.rows, n)
    && !Collision(sha, s.rows, t.rows)
  }

  /** A verified table determines its rows up to sequence n by the digest there: whatever else verifies from the same
      base with that digest is identical up to n, unless the two exhibit a hash collision. The other table's fields
      are arbitrary. */
  lemma TamperEvidence(sha: Sha, s: State, t: State, n: int)
    requires PlainDigests(sha) && VerifySpec(sha, s).None? && RowHash(s.rows, n).Some?
    requires CleanUpTo(s, n) || (PlainUpTo(s, n) && PlainUpTo(t, n))
    requires Rival(sha, s, t, n)
    ensures IdenticalUpTo(s, t, n)
  {
    var first := BaseSequence(s) + 1;
    RowsByPlace(sha, s.rows, BaseHash(s), first, n);
    RowsByPlace(sha, t.rows, BaseHash(s), first, n);
    forall i | 0 <= i <= n - first ensures s.rows[i] == t.rows[i] {
      SameRow(sha, s.rows, t.rows, BaseHash(s), first, n - first, i);
    }
  }

  lemma SameRow(sha: Sha, a: seq<Entry>, b: seq<Entry>, previous: Str, expected: int, k: nat, i: nat)
    requires PlainDigests(sha) && !Collision(sha, a, b)
    requires VerifyFrom(sha, a, previous, expected).None? && VerifyFrom(sha, b, previous, expected).None?
    requires i <= k < |a| && k < |b| && a[k].hash == b[k].hash
    requires Clean(a[i]) || (PlainEntry(a[i]) && PlainEntry(b[i]))
    ensures a[i] == b[i]
  {
    SameTexts(sha, a, b, previous, expected, k, i);
    SameFields(a[i], b[i]);
  }

  lemma SameFields(d: Entry, e: Entry)
    requires Clean(d) || (PlainEntry(d) && PlainEntry(e))
    requires JoinedText(d) == JoinedText(e)
    requires d.sequence == e.sequence && d.previous == e.previous && d.hash == e.hash
    ensures d == e
  {
    var p := d.previous;
    if Clean(d) {
      CleanTextIsClean(p, d, e);
    }
    assert Canonical(p, d)[|p|..] == [SEPARATOR] + (d.occurred + ([SEPARATOR] + AfterOccurred(d)));
    assert Canonical(p, e)[|p|..] == [SEPARATOR] + (e.occurred + ([SEPARATOR] + AfterOccurred(e)));
    assert Canonical([], d) == Canonical(p, d)[|p|..] && Canonical([], e) == Canonical(p, e)[|p|..];
    CanonicalIsInjective([], d, [], e);
  }

  /** Verification sees nothing but sequence numbers, digests and the joined texts. */
  lemma {:induction false} VerifySeesTexts(sha: Sha, a: seq<Entry>, b: seq<Entry>, previous: Str, expected: int)
    requires |a| == |b|
    requires forall i | 0 <= i < |a| ::
      && a[i].sequence == b[i].sequence && a[i].previous == b[i].previous && a[i].hash == b[i].hash
      && JoinedText(a[i]) == JoinedText(b[i])
    ensures VerifyFrom(sha, a, previous, expected) == VerifyFrom(sha, b, previous, expected)
    decreases |a|
  {
    if a != [] {
      VerifySeesTexts(sha, a[1..], b[1..], a[0].hash, expected + 1);
    }
  }

  // ----- moving a field boundary -----

  function FirstSeparator(s: Str): (i: nat)
    requires !Plain(s)
    ensures i < |s| && s[i] == SEPARATOR
  {
    if s[0] == SEPARATOR then 0 else assert s == [s[0]] + s[1..]; 1 + FirstSeparator(s[1..])
  }

  function Head(s: Str): Str
    requires !Plain(s)
  {
    s[..FirstSeparator(s)]
  }

  function Tail(s: Str): Str
    requires !Plain(s)
  {
    s[FirstSeparator(s) + 1..]
  }

  /** The first field with a separator gives what follows it to the next field; the last field gives what precedes it
      to the one before. */
  function Moved(e: Entry): Entry
    requires !Clean(e)
  {
    if !Plain(e.occurred) then e.(occurred := Head(e.occurred), actor := Tail(e.occurred) + ([SEPARATOR] + e.actor))
    else if !Plain(e.actor) then e.(actor := Head(e.actor), action := Tail(e.actor) + ([SEPARATOR] + e.action))
    else if !Plain(e.action) then e.(action := Head(e.action), resource := Tail(e.action) + ([SEPARATOR] + e.resource))
    else if !Plain(e.resource) then
      e.(resource := Head(e.resource), outcome := Tail(e.resource) + ([SEPARATOR] + e.outcome))
    else if !Plain(e.outcome) then
      e.(outcome := Head(e.outcome), metadata := Tail(e.outcome) + ([SEPARATOR] + e.metadata))
    else e.(outcome := e.outcome + ([SEPARATOR] + Head(e.metadata)), metadata := Tail(e.metadata))
  }

  lemma BoundaryMoves(f: Str, g: Str, rest: Str)
    requires !Plain(f)
    ensures f + ([SEPARATOR] + (g + rest)) == Head(f) + ([SEPARATOR] + ((Tail(f) + ([SEPARATOR] + g)) + rest))
  {
    assert f == Head(f) + ([SEPARATOR] + Tail(f));
  }

  lemma BoundaryMovesBack(f: Str, g: Str)
    requires !Plain(g)
    ensures f + ([SEPARATOR] + g) == (f + ([SEPARATOR] + Head(g))) + ([SEPARATOR] + Tail(g))
  {
    assert g == Head(g) + ([SEPARATOR] + Tail(g));
  }

  /** The moved row is another one with the same text. */
  lemma MovedHasSameText(p: Str, e: Entry)
    requires !Clean(e)
    ensures Moved(e) != e && Canonical(p, Moved(e)) == Canonical(p, e)
  {
    var d4 := e.outcome + ([SEPARATOR] + e.metadata);
    var d3 := e.resource + ([SEPARATOR] + d4);
    var d2 := e.action + ([SEPARATOR] + d3);
    if !Plain(e.occurred) {
      BoundaryMoves(e.occurred, e.actor, [SEPARATOR] + d2);
    } else if !Plain(e.actor) {
      BoundaryMoves(e.actor, e.action, [SEPARATOR] + d3);
    } else if !Plain(e.action) {
      BoundaryMoves(e.action, e.resource, [SEPARATOR] + d4);
    } else if !Plain(e.resource) {
      BoundaryMoves(e.resource, e.outcome, [SEPARATOR] + e.metadata);
    } else if !Plain(e.outcome) {
      BoundaryMoves(e.outcome, e.metadata, []);
      assert e.metadata + [] == e.metadata;
      assert (Tail(e.outcome) + ([SEPARATOR] + e.metadata)) + [] == Tail(e.outcome) + ([SEPARATOR] + e.metadata);
    } else {
      BoundaryMovesBack(e.outcome, e.metadata);
    }
  }

  /** Replacing a row by its moved form changes no hash and no verdict. */
  lemma MovedRowIsRival(sha: Sha, s: State, i: nat, n: int)
    requires VerifySpec(sha, s).None? && i < |s.rows| && !Clean(s.rows[i])
    ensures Rival(sha, s, s.(rows := s.rows[i := Moved(s.rows[i])]), n)
    ensures forall j | i < j <= |s.rows| :: s.rows[..j] != s.rows[i := Moved(s.rows[i])][..j]
  {
    var e := s.rows[i];
    var rows := s.rows[i := Moved(e)];
    MovedHasSameText(e.previous, e);
    forall j | 0 <= j < |rows|
      ensures rows[j].sequence == s.rows[j].sequence && rows[j].previous == s.rows[j].previous
      ensures rows[j].hash == s.rows[j].hash && JoinedText(rows[j]) == JoinedText(s.rows[j])
    {
    }
    VerifySeesTexts(sha, s.rows, rows, BaseHash(s), BaseSequence(s) + 1);
    SameHashes(s.rows, rows, n);
    forall j | i < j <= |rows| ensures s.rows[..j] != rows[..j] {
      assert s.rows[..j][i] != rows[..j][i];
    }
  }

  lemma {:induction false} SameHashes(a: seq<Entry>, b: seq<Entry>, n: int)
    requires |a| == |b|
    requires forall i | 0 <= i < |a| :: a[i].sequence == b[i].sequence && a[i].hash == b[i].hash
    ensures RowHash(a, n) == RowHash(b, n)
  {
    if a != [] {
      SameHashes(a[1..], b[1..], n);
    }
  }

  /** The exact condition: the digest at n determines the table up to n if and only if no row up to n has a separator
      in one of its six texts. */
  lemma TamperEvidenceExactly(sha: Sha, s: State, n: int)
    requires PlainDigests(sha) && VerifySpec(sha, s).None? && RowHash(s.rows, n).Some?
    ensures (forall t | Rival(sha, s, t, n) :: IdenticalUpTo(s, t, n)) <==> CleanUpTo(s, n)
  {
    RowsByPlace(sha, s.rows, BaseHash(s), BaseSequence(s) + 1, n);
    if CleanUpTo(s, n) {
      forall t | Rival(sha, s, t, n) ensures IdenticalUpTo(s, t, n) {
        TamperEvidence(sha, s, t, n);
      }
    } else {
      var i :| 0 <= i < |s.rows| && i < n - BaseSequence(s) && !Clean(s.rows[i]);
      MovedRowIsRival(sha, s, i, n);
      assert !IdenticalUpTo(s, s.(rows := s.rows[i := Moved(s.rows[i])]), n);
    }
  }

  /** A table with the same base that differs from `s` at or before sequence n, without a hash collision. */
  ghost predicate Tampered(sha: Sha, s: State, t: State, n: int) {
    t.base == s.base && !Collision(sha, s.rows, t.rows) && !IdenticalUpTo(s, t, n)
  }

  lemma PassingIsRival(sha: Sha, mac: Mac, s: State, t: State, a: Anchor, key: Str)
    requires Passes(sha, mac, s, a, key) && RowHash(s.rows, a.payload.sequence).Some? && a.payload.sequence >= 1
    requires t.base == s.base && !Collision(sha, s.rows, t.rows)
    ensures Passes(sha, mac, t, a, key) <==> Rival(sha, s, t, a.payload.sequence)
  {
    RowsByPlace(sha, s.rows, BaseHash(s), BaseSequence(s) + 1, a.payload.sequence);
  }

  /** So an anchor taken at a logged entry fails on every table with the same base that differs at or before it,
      whatever the other table's fields hold, if and only if no row up to it has a separator in its texts. */
  lemma AnchorDetectsTampering(sha: Sha, mac: Mac, s: State, a: Anchor, key: Str)
    requires PlainDigests(sha) && Passes(sha, mac, s, a, key)
    requires RowHash(s.rows, a.payload.sequence).Some? && a.payload.sequence >= 1
    ensures (forall t | Tampered(sha, s, t, a.payload.sequence) :: !Passes(sha, mac, t, a, key))
      <==> CleanUpTo(s, a.payload.sequence)
  {
    var n := a.payload.sequence;
    TamperEvidenceExactly(sha, s, n);
    forall t: State | t.base == s.base && !Collision(sha, s.rows, t.rows)
      ensures Passes(sha, mac, t, a, key) <==> Rival(sha, s, t, n)
    {
      PassingIsRival(sha, mac, s, t, a, key);
    }
    if !CleanUpTo(s, n) {
      var t :| Rival(sha, s, t, n) && !IdenticalUpTo(s, t, n);
      assert Tampered(sha, s, t, n);
    }
  }

  predicate CleanRecord(r: Record) {
    && Plain(r.occurred) && Plain(r.actor) && Plain(r.action) && Plain(r.resource) && Plain(r.outcome)
    && Plain(r.metadata)
  }

  /** The record whose row is the moved row. */
  function MovedRecord(sha: Sha, s: State, r: Record): Record
    requires !CleanRecord(r)
  {
    var e := Moved(NewEntry(sha, s, r));
    Record(e.occurred, e.actor, e.action, e.resource, e.outcome, e.metadata)
  }

  /** `append` accepts separators in its arguments: every record with one has another that gives a different row with
      the same digest, and every anchor passes on one of the two tables if and only if it passes on the other. */
  lemma SeparatorInFieldIsUndetected(sha: Sha, mac: Mac, s: State, r: Record, a: Anchor, key: Str)
    requires Invariant(sha, s) && AppendSpec(sha, s, r).1.Ok? && !CleanRecord(r)
    ensures var (t, u) := (AppendSpec(sha, s, r).0, AppendSpec(sha, s, MovedRecord(sha, s, r)).0);
      && AppendSpec(sha, s, MovedRecord(sha, s, r)).1.Ok?
      && Invariant(sha, t) && Invariant(sha, u)
      && t.rows[..|s.rows|] == s.rows == u.rows[..|s.rows|]
      && t.rows[|s.rows|] != u.rows[|s.rows|] && t.rows[|s.rows|].hash == u.rows[|s.rows|].hash
      && (Passes(sha, mac, t, a, key) <==> Passes(sha, mac, u, a, key))
  {
    var q := MovedRecord(sha, s, r);
    var e, moved := NewEntry(sha, s, r), NewEntry(sha, s, q);
    MovedHasSameText(HeadHash(s), e);
    assert Canonical(HeadHash(s), moved) == Canonical(HeadHash(s), Moved(e));
    assert Canonical(HeadHash(s), e) == Canonical(HeadHash(s), e.(hash := []));
    assert Canonical(HeadHash(s), moved) == Canonical(HeadHash(s), moved.(hash := []));
    assert moved == Moved(e);
    AppendKeepsInvariant(sha, s, r);
    AppendKeepsInvariant(sha, s, q);
    SameHashes(s.rows + [e], s.rows + [moved], a.payload.sequence);
    SameHashes(s.rows + [e], s.rows + [moved], 0);
  }

  // ----- the store -----

  class AuditLog {
    const sha: Sha
    var rows: seq<Entry>
    var base: Option<Base>
    var next: int

    function Contents(): State
      reads this
    {
      State(rows, base, next)
    }

    constructor (sha: Sha)
      ensures this.sha == sha && Contents() == EMPTY
    {
      this.sha := sha;
      rows, base, next := [], None, 1;
    }

    method Append(r: Record) returns (result: Result<int, Error>)
      modifies this
      ensures (Contents(), result) == AppendSpec(sha, old(Contents()), r)
      ensures result.Err? ==> result.error == IntegrityError && Contents() == old(Contents())
      ensures result.Ok? ==>
        && result.value == old(next) == next - 1 && base == old(base)
        && |rows| == |old(rows)| + 1 && rows[..|old(rows)|] == old(rows)
        && var e := rows[|old(rows)|];
           && e.sequence == result.value && e.occurred == r.occurred && e.actor == r.actor && e.action == r.action
           && e.resource == r.resource && e.outcome == r.outcome && e.metadata == r.metadata
           && e.previous == (if old(rows) != [] then old(rows)[|old(rows)| - 1].hash
                             else if base.Some? then base.value.hash else GENESIS)
           && e.hash == sha(Canonical(e.previous, e))
           && forall i | 0 <= i < |old(rows)| :: old(rows)[i].hash != e.hash
    {
      var previous;
      if rows != [] {
        previous := rows[|rows| - 1].hash;
      } else {
        previous := if base.Some? then base.value.hash else GENESIS;
      }
      var e := Entry(next, r.occurred, r.actor, r.action, r.resource, r.outcome, r.metadata, previous, []);
      var digest := sha(Canonical(previous, e));
      if Taken(rows, digest) {
        return Err(IntegrityError);
      }
      rows := rows + [e.(hash := digest)];
      next := next + 1;
      return Ok(next - 1);
    }

    method Verify() returns (broken: Option<int>)
      ensures broken == VerifySpec(sha, Contents())
    {
      var previous := if base.Some? then base.value.hash else GENESIS;
      var expected := if base.Some? then base.value.sequence + 1 else 1;
      for i := 0 to |rows|
        invariant VerifyFrom(sha, rows[i..], previous, expected) == VerifySpec(sha, Contents())
      {
        var row := rows[i];
        assert rows[i..][0] == row && rows[i..][1..] == rows[i + 1..];
        if row.sequence != expected {
          return Some(expected);
        }
        if row.previous != previous || row.hash != sha(Canonical(previous, row)) {
          return Some(row.sequence);
        }
        previous := row.hash;
        expected := expected + 1;
      }
      return None;
    }

    method CreateAnchor(mac: Mac, key: Str, taken: bool, now: Str) returns (r: Result<Anchor, Error>)
      ensures r == CreateAnchorSpec(sha, mac, Contents(), key, taken, now)
    {
      if Utf8Length(key) < 32 {
        return Err(ValueError);
      }
      if taken {
        return Err(FileExistsError);
      }
      var broken := Verify();
      if broken.Some? {
        return Err(ValueError);
      }
      var payload := Payload(0, GENESIS, None, now);
      if rows != [] {
        var row := rows[|rows| - 1];
        payload := Payload(row.sequence, row.hash, Some(row.occurred), now);
      }
      return Ok(Anchor(payload, mac(key, payload)));
    }

    method VerifyAnchor(mac: Mac, a: Anchor, key: Str) returns (pass: bool)
      ensures pass == Passes(sha, mac, Contents(), a, key)
      ensures pass <==>
        && a.signature == mac(key, a.payload)
        && (forall i | 0 <= i < |rows| ::
              rows[i].sequence == (if base.Some? then base.value.sequence else 0) + 1 + i)
        && (rows != [] ==> rows[0].previous == if base.Some? then base.value.hash else GENESIS)
        && (forall i, j | 0 <= i < |rows| && j == i - 1 >= 0 :: rows[i].previous == rows[j].hash)
        && (forall i | 0 <= i < |rows| :: rows[i].hash == sha(Canonical(rows[i].previous, rows[i])))
        && (|| (exists i | 0 <= i < |rows| ::
                  rows[i].sequence == a.payload.sequence && rows[i].hash == a.payload.hash)
            || base == Some(Base(a.payload.sequence, a.payload.hash))
            || (a.payload.sequence == 0 && (base.Some? ==> base.value.sequence != 0)
                && forall i | 0 <= i < |rows| :: rows[i].sequence != 0))
    {
      var signatureValid := a.signature == mac(key, a.payload);
      var row := RowHash(rows, a.payload.sequence);
      if row.None? && base.Some? && base.value.sequence == a.payload.sequence {
        row := Some(base.value.hash);
      }
      var broken := Verify();
      var headMatches := (row.Some? && row.value == a.payload.hash) || (a.payload.sequence == 0 && row.None?);
      pass := signatureValid && headMatches && broken.None?;
      ghost var s := Contents();
      PassesExactly(sha, mac, s, a, key);
      assert s.rows == rows && s.base == base;
    }

    method PruneToAnchor(mac: Mac, a: Anchor, key: Str) returns (r: Result<int, Error>)
      modifies this
      ensures (Contents(), r) == PruneSpec(sha, mac, old(Contents()), a, key)
      ensures r.Err? ==> r.error == ValueError && Contents() == old(Contents())
      ensures r.Ok? ==> a.signature == mac(key, a.payload) && a.payload.sequence >= 1
      ensures r.Ok? ==> old(base).Some? ==> old(base).value.sequence <= a.payload.sequence
      ensures r.Ok? ==> base == Some(Base(a.payload.sequence, a.payload.hash)) && next == old(next)
      ensures r.Ok? ==> 0 <= r.value <= |old(rows)| && rows == old(rows)[r.value..]
    {
      var pass := VerifyAnchor(mac, a, key);
      if !pass {
        return Err(ValueError);
      }
      r := PruneVerified(mac, a, key);
    }

    /** The rest of a prune, once its anchor has passed. */
    method PruneVerified(mac: Mac, a: Anchor, key: Str) returns (r: Result<int, Error>)
      requires Passes(sha, mac, Contents(), a, key)
      modifies this
      ensures (Contents(), r) == PruneSpec(sha, mac, old(Contents()), a, key)
      ensures r.Err? ==> r.error == ValueError && Contents() == old(Contents())
      ensures r.Ok? ==> a.payload.sequence >= 1
      ensures r.Ok? ==> old(base).Some? ==> old(base).value.sequence <= a.payload.sequence
      ensures r.Ok? ==> base == Some(Base(a.payload.sequence, a.payload.hash)) && next == old(next)
      ensures r.Ok? ==> 0 <= r.value <= |old(rows)| && rows == old(rows)[r.value..]
    {
      PruneExactly(sha, mac, Contents(), a, key);
      var sequence := a.payload.sequence;
      if sequence < 1 {
        return Err(ValueError);
      }
      if base.Some? && base.value.sequence > sequence {
        return Err(ValueError);
      }
      r := DeleteUpTo(a.payload);
    }

    /** The transaction of a prune, and the check after it. */
    method DeleteUpTo(p: Payload) returns (r: Result<int, Error>)
      modifies this
      ensures Contents() == Pruned(old(Contents()), p)
      ensures r == if VerifySpec(sha, Contents()).Some? then Err(RuntimeError) else Ok(|old(rows)| - |rows|)
    {
      var before := |rows|;
      rows := After(rows, p.sequence);
      base := Some(Base(p.sequence, p.hash));
      var broken := Verify();
      if broken.Some? {
        return Err(RuntimeError);
      }
      return Ok(before - |rows|);
    }
  }
}
