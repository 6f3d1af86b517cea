/** `meemee/idempotency.py`: stored responses keyed by principal, route and key. Each operation is one transaction;
    `claim` is two, an insert and a look-up. A request is its digest; instants are integers (microseconds). */
module Idempotency {
  import opened Text

  datatype Key = Key(principal: Str, route: Str, key: Str)

  /** A row. `birth` numbers the insertions: the row keeps it until it is deleted, so it names one lifetime of the
      key's record (the table itself does not store it). */
  datatype Record = Record(
    hash: Str, response: Str, status: int, created: int, expires: int, token: Option<Str>, birth: nat)

  datatype State = State(records: map<Key, Record>, births: nat)

  datatype Error = ValueError | Conflict | InProgress

  const EMPTY := State(map[], 0)
  const PENDING := 0
  const CLAIM_LEASE := 300_000_000

  predicate ValidKey(k: Key) {
    1 <= |k.key| <= 200
  }

  function Expire(s: State, now: int): State {
    s.(records := map k | k in s.records && s.records[k].expires > now :: s.records[k])
  }

  /** The first transaction of `claim`; true means that the row was inserted. */
  function InsertSpec(s: State, k: Key, digest: Str, token: Option<Str>, now: int): (State, bool) {
    var t := Expire(s, now);
    if k in t.records then (t, false)
    else
      (State(t.records[k := Record(digest, Codes("null"), PENDING, now, now + CLAIM_LEASE, token, t.births)],
             t.births + 1),
       true)
  }

  /** `get`; Ok(None) means no record. */
  function GetSpec(s: State, k: Key, digest: Str, now: int): (State, Result<Option<Record>, Error>) {
    var t := Expire(s, now);
    if k !in t.records then (t, Ok(None))
    else if t.records[k].hash != digest then (t, Err(Conflict))
    else if t.records[k].status == PENDING then (t, Err(InProgress))
    else (t, Ok(Some(t.records[k])))
  }

  predicate Releasable(s: State, k: Key, token: Option<Str>) {
    k in s.records && s.records[k].status == PENDING && s.records[k].token == token
  }

  function ReleaseSpec(s: State, k: Key, token: Option<Str>): State {
    if Releasable(s, k, token) then s.(records := s.records - {k}) else s
  }

  /** The arguments of `put`: `now` is read before the transaction, `clock` inside it. */
  datatype Publication = Publication(
    key: Key, digest: Str, status: int, response: Str, token: Option<Str>, ttl: int, now: int, clock: int)

  predicate PutConflict(s: State, p: Publication) {
    || (p.key in s.records && s.records[p.key].hash != p.digest)
    || ((p.token.Some? || (p.key in s.records && s.records[p.key].token.Some?))
        && (p.key !in s.records || s.records[p.key].token != p.token || s.records[p.key].status != PENDING
            || s.records[p.key].expires <= p.clock))
  }

  function PutSpec(s: State, p: Publication): (State, Result<(), Error>) {
    if !(100 <= p.status <= 599) || !ValidKey(p.key) then (s, Err(ValueError))
    else if PutConflict(s, p) then (s, Err(Conflict))
    else if p.key !in s.records then
      (State(s.records[p.key := Record(p.digest, p.response, p.status, p.now, p.now + p.ttl, p.token, s.births)],
             s.births + 1),
       Ok(()))
    else if s.records[p.key].status == PENDING then
      (s.(records := s.records[p.key := s.records[p.key].(hash := p.digest, response := p.response,
          status := p.status, created := p.now, expires := p.now + p.ttl)]),
       Ok(()))
    else (s, Ok(()))
  }

  function DeletePrincipalSpec(s: State, principal: Str): State {
    s.(records := map k | k in s.records && k.principal != principal :: s.records[k])
  }

  // ----- one step -----

  datatype Op =
    | Insert(key: Key, digest: Str, token: Option<Str>, now: int)
    | Get(key: Key, digest: Str, now: int)
    | Release(key: Key, token: Option<Str>)
    | Put(publication: Publication)
    | DeletePrincipal(principal: Str)

  function Apply(s: State, op: Op): State {
    match op
    case Insert(k, digest, token, now) => InsertSpec(s, k, digest, token, now).0
    case Get(k, digest, now) => GetSpec(s, k, digest, now).0
    case Release(k, token) => ReleaseSpec(s, k, token)
    case Put(p) => PutSpec(s, p).0
    case DeletePrincipal(principal) => DeletePrincipalSpec(s, principal)
  }

  ghost predicate Numbered(s: State) {
    && (forall k | k in s.records :: s.records[k].birth < s.births)
    && (forall j, k | j in s.records && k in s.records && s.records[j].birth == s.records[k].birth :: j == k)
  }

  /** A put that turns the pending record of `k` into a finished one. */
  predicate Finalises(s: State, op: Op, k: Key) {
    && op.Put?
    && op.publication.key == k
    && k in s.records
    && s.records[k].status == PENDING
    && PutSpec(s, op.publication).1.Ok?
  }

  lemma InsertKeepsNumbers(s: State, k: Key, digest: Str, token: Option<Str>, now: int)
    requires Numbered(s)
    ensures Numbered(InsertSpec(s, k, digest, token, now).0) && s.births <= InsertSpec(s, k, digest, token, now).0.births
  {
    assert Numbered(Expire(s, now));
  }

  lemma PutKeepsNumbers(s: State, p: Publication)
    requires Numbered(s)
    ensures Numbered(PutSpec(s, p).0) && s.births <= PutSpec(s, p).0.births
  {
    var t := PutSpec(s, p).0;
    forall j, k | j in t.records && k in t.records && t.records[j].birth == t.records[k].birth ensures j == k {
      assert j in s.records && k in s.records ==> s.records[j].birth == s.records[k].birth ==> j == k;
    }
  }

  lemma StepKeepsNumbers(s: State, op: Op)
    requires Numbered(s)
    ensures Numbered(Apply(s, op)) && s.births <= Apply(s, op).births
  {
    match op
    case Insert(k, digest, token, now) => InsertKeepsNumbers(s, k, digest, token, now);
    case Get(k, digest, now) =>
    case Release(k, token) =>
    case Put(p) => PutKeepsNumbers(s, p);
    case DeletePrincipal(principal) =>
  }

  /** An operation either leaves a record alone, deletes it (perhaps inserting a new one), or finishes it. */
  lemma StepOnRecord(s: State, op: Op, k: Key)
    requires Numbered(s) && k in s.records
    ensures var t := Apply(s, op);
      || k !in t.records
      || t.records[k] == s.records[k]
      || t.records[k].birth >= s.births
      || (Finalises(s, op, k) && t == PutSpec(s, op.publication).0)
  {
    match op
    case Insert(_, digest, token, now) =>
    case Get(_, digest, now) =>
    case Release(_, token) =>
    case Put(p) =>
    case DeletePrincipal(principal) =>
  }

  /** Within one lifetime of a record the request digest and the token never change, a finished record never changes
      at all, and only a put of the same request finishes it: with the claim's own token before the lease ends, if
      the claim has a token. */
  lemma LifetimeStep(s: State, op: Op, k: Key)
    requires Numbered(s) && k in s.records
    requires k in Apply(s, op).records && Apply(s, op).records[k].birth == s.records[k].birth
    ensures var r, r' := s.records[k], Apply(s, op).records[k];
      && r'.hash == r.hash
      && r'.token == r.token
      && (r.status != PENDING || !Finalises(s, op, k) ==> r' == r)
      && (Finalises(s, op, k) ==>
          && r'.status != PENDING
          && r'.response == op.publication.response
          && op.publication.digest == r.hash
          && (r.token.Some? ==> op.publication.token == r.token && op.publication.clock < r.expires))
  {
    StepOnRecord(s, op, k);
  }

  // ----- what each transaction answers and leaves -----

  /** The row of `k` is there and has not expired. */
  ghost predicate Alive(s: State, k: Key, now: int) {
    k in s.records && now < s.records[k].expires
  }

  /** `t` has dropped what expired by `now` and kept the rest, apart from the key in `except`. */
  ghost predicate OnlyExpires(s: State, t: State, now: int, except: Option<Key>) {
    forall k | except != Some(k) ::
      && (k in t.records <==> k in s.records && now < s.records[k].expires)
      && (k in t.records ==> t.records[k] == s.records[k])
  }

  /** `t` differs from `s` at most in the row of `k`. */
  ghost predicate OnlyTouches(s: State, t: State, k: Key) {
    forall j | j != k ::
      (j in t.records <==> j in s.records) && (j in t.records ==> t.records[j] == s.records[j])
  }

  /** A claim inserts exactly when no row of its key is alive: a pending one that lasts five minutes. */
  lemma InsertExactly(s: State, k: Key, digest: Str, token: Option<Str>, now: int)
    ensures var (t, inserted) := InsertSpec(s, k, digest, token, now);
      && (inserted <==> k !in s.records || s.records[k].expires <= now)
      && OnlyExpires(s, t, now, if inserted then Some(k) else None)
      && (inserted ==>
            && k in t.records
            && t.records[k] == Record(digest, Codes("null"), 0, now, now + 300_000_000, token, s.births))
  {
  }

  /** A look-up answers with the row of its key that is alive: none, a conflict with another request, in progress while
      it is pending, and otherwise the row. */
  lemma GetExactly(s: State, k: Key, digest: Str, now: int)
    ensures var (t, r) := GetSpec(s, k, digest, now);
      && OnlyExpires(s, t, now, None)
      && (r == Ok(None) <==> k !in s.records || s.records[k].expires <= now)
      && (Alive(s, k, now) ==>
            && (r == Err(Conflict) <==> s.records[k].hash != digest)
            && (r == Err(InProgress) <==> s.records[k].hash == digest && s.records[k].status == 0)
            && (r.Ok? ==> r.value == Some(s.records[k])))
  {
  }

  /** A release deletes the pending row of its own claim and nothing else. */
  lemma ReleaseExactly(s: State, k: Key, token: Option<Str>)
    ensures var t := ReleaseSpec(s, k, token);
      && OnlyTouches(s, t, k)
      && (k in t.records <==> k in s.records && (s.records[k].status != 0 || s.records[k].token != token))
      && (k in t.records ==> t.records[k] == s.records[k])
  {
  }

  /** A put with a token is accepted exactly into the pending and living row of its own claim and request. Without one
      it is accepted where no row has a token or another request; a finished row then stays as it is. What it stores
      lasts for the time to live, and the claim's token stays. */
  lemma PutExactly(s: State, p: Publication)
    ensures var (t, r) := PutSpec(s, p);
      var k, there := p.key, p.key in s.records;
      && OnlyTouches(s, t, k)
      && (r == Err(ValueError) <==> p.status < 100 || p.status > 599 || |k.key| == 0 || |k.key| > 200)
      && (r.Err? ==> t == s && r.error in {ValueError, Conflict})
      && (r != Err(ValueError) ==>
            && (p.token.Some? ==>
                  (r.Ok? <==> there && s.records[k].hash == p.digest && s.records[k].token == p.token
                              && s.records[k].status == 0 && p.clock < s.records[k].expires))
            && (p.token.None? ==> (r.Ok? <==> there ==> s.records[k].hash == p.digest && s.records[k].token == None)))
      && (r.Ok? && there && s.records[k].status != 0 ==> t == s)
      && (r.Ok? && (!there || s.records[k].status == 0) ==>
            && k in t.records
            && t.records[k] == Record(p.digest, p.response, p.status, p.now, p.now + p.ttl, p.token,
                                      if there then s.records[k].birth else s.births))
  {
  }

  /** Deleting a principal deletes exactly its rows. */
  lemma DeletePrincipalExactly(s: State, principal: Str, k: Key)
    ensures var t := DeletePrincipalSpec(s, principal);
      && (k in t.records <==> k in s.records && k.principal != principal)
      && (k in t.records ==> t.records[k] == s.records[k])
  {
  }

  // ----- the store -----

  class IdempotencyStore {
    const ttl: int
    var records: map<Key, Record>
    var births: nat

    function Contents(): State
      reads this
    {
      State(records, births)
    }

    constructor (ttlHours: int)
      ensures Contents() == EMPTY && ttl == ttlHours * 3_600_000_000
    {
      ttl := ttlHours * 3_600_000_000;
      records, births := map[], 0;
    }

    method Insert(k: Key, digest: Str, token: Option<Str>, now: int) returns (inserted: bool)
      modifies this
      ensures (Contents(), inserted) == InsertSpec(old(Contents()), k, digest, token, now)
    {
      records := map other | other in records && records[other].expires > now :: records[other];
      inserted := k !in records;
      if inserted {
        records := records[k := Record(digest, Codes("null"), PENDING, now, now + CLAIM_LEASE, token, births)];
        births := births + 1;
      }
    }

    method Get(k: Key, digest: Str, now: int) returns (r: Result<Option<Record>, Error>)
      modifies this
      ensures (Contents(), r) == GetSpec(old(Contents()), k, digest, now)
    {
      records := map other | other in records && records[other].expires > now :: records[other];
      if k !in records {
        return Ok(None);
      }
      var row := records[k];
      if row.hash != digest {
        return Err(Conflict);
      }
      if row.status == PENDING {
        return Err(InProgress);
      }
      return Ok(Some(row));
    }

    /** `claim` when no other transaction falls between its two. */
    method Claim(k: Key, digest: Str, token: Option<Str>, now: int, later: int)
      returns (r: Result<Option<Record>, Error>)
      modifies this
      ensures !ValidKey(k) ==> r == Err(ValueError) && Contents() == old(Contents())
      ensures ValidKey(k) && InsertSpec(old(Contents()), k, digest, token, now).1 ==>
        r == Ok(None) && Contents() == InsertSpec(old(Contents()), k, digest, token, now).0
      ensures ValidKey(k) && !InsertSpec(old(Contents()), k, digest, token, now).1 ==>
        (Contents(), r) == GetSpec(InsertSpec(old(Contents()), k, digest, token, now).0, k, digest, later)
    {
      if !ValidKey(k) {
        return Err(ValueError);
      }
      var inserted := Insert(k, digest, token, now);
      if inserted {
        return Ok(None);
      }
      r := Get(k, digest, later);
    }

    method Release(k: Key, token: Option<Str>)
      modifies this
      ensures Contents() == ReleaseSpec(old(Contents()), k, token)
    {
      if Releasable(Contents(), k, token) {
        records := records - {k};
      }
    }

    method Put(p: Publication) returns (r: Result<(), Error>)
      requires p.ttl == ttl
      modifies this
      ensures (Contents(), r) == PutSpec(old(Contents()), p)
    {
      if !(100 <= p.status <= 599) || !ValidKey(p.key) {
        return Err(ValueError);
      }
      if p.key in records && records[p.key].hash != p.digest {
        return Err(Conflict);
      }
      var guarded := p.token.Some? || (p.key in records && records[p.key].token.Some?);
      if guarded {
        if p.key !in records || records[p.key].token != p.token || records[p.key].status != PENDING
           || records[p.key].expires <= p.clock {
          return Err(Conflict);
        }
      }
      if p.key !in records {
        records := records[p.key := Record(p.digest, p.response, p.status, p.now, p.now + p.ttl, p.token, births)];
        births := births + 1;
      } else if records[p.key].status == PENDING {
        var row := records[p.key];
        records := records[p.key := row.(hash := p.digest, response := p.response, status := p.status,
                                         created := p.now, expires := p.now + p.ttl)];
      }
      return Ok(());
    }

    method DeletePrincipal(principal: Str) returns (n: nat)
      modifies this
      ensures Contents() == DeletePrincipalSpec(old(Contents()), principal)
      ensures n == |set k | k in old(records) && k.principal == principal|
    {
      n := |set k | k in records && k.principal == principal|;
      records := map k | k in records && k.principal != principal :: records[k];
    }
  }
}
