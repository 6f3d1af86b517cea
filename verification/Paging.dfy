/** `JobStore.list_for_principal`: keyset pages of a principal's jobs, newest first, chained by cursors. */
module Paging {
  import opened Text
  import Order
  import opened Jobs
  import Cursors
  import opened Chains

  datatype Filter = Filter(principal: Str, status: Option<Status>, before: Option<Str>)

  predicate Matches(job: Job, f: Filter) {
    && job.principal == Some(f.principal)
    && (f.status.Some? ==> job.status == f.status.value)
    && (f.before.Some? ==> Less(job.updated, f.before.value))
  }

  /** ORDER BY updated_at DESC, id DESC, on (updated_at, id) pairs. */
  predicate Newer(a: (Str, Str), b: (Str, Str)) {
    Less(b.0, a.0) || (a.0 == b.0 && Less(b.1, a.1))
  }

  function Position(s: State, id: Str): (Str, Str)
    requires id in s.jobs
  {
    (s.jobs[id].updated, id)
  }

  predicate Precedes(s: State, a: Str, b: Str) {
    a in s.jobs && b in s.jobs && Newer(Position(s, a), Position(s, b))
  }

  /** The rows of the WHERE clause; `after` is the decoded cursor. */
  function Rows(s: State, f: Filter, after: Option<(Str, Str)>): set<Str> {
    set id | id in s.jobs && Matches(s.jobs[id], f) && (after.Some? ==> Newer(after.value, Position(s, id)))
  }

  function PageSize(limit: int): (size: nat)
    ensures 1 <= size <= 500
    ensures size == limit || (limit < 1 && size == 1) || (limit > 500 && size == 500)
  {
    if limit < 1 then 1 else if limit > 500 then 500 else limit
  }

  ghost function RowOrder(s: State): (Str, Str) -> bool {
    (a, b) => Precedes(s, a, b)
  }

  lemma RowsAreOrdered(s: State, ids: set<Str>)
    requires ids <= s.jobs.Keys
    ensures Order.StrictOrder(ids, RowOrder(s))
  {
    forall a, b | a in ids && b in ids
      ensures a != b ==> Precedes(s, a, b) || Precedes(s, b, a)
      ensures Precedes(s, a, b) ==> a != b && !Precedes(s, b, a)
    {
      LessIsTotal(s.jobs[a].updated, s.jobs[b].updated);
      LessIsTotal(a, b);
      LessIsStrict(s.jobs[a].updated, s.jobs[b].updated);
      LessIsStrict(a, b);
    }
    forall a, b, c | a in ids && b in ids && c in ids && Precedes(s, a, b) && Precedes(s, b, c)
      ensures Precedes(s, a, c)
    {
      var x, y, z := s.jobs[a].updated, s.jobs[b].updated, s.jobs[c].updated;
      if Less(y, x) && Less(z, y) {
        LessIsTransitive(z, y, x);
      }
      if Less(b, a) && Less(c, b) {
        LessIsTransitive(c, b, a);
      }
    }
  }

  /** The plain listing: every matching row, newest first. */
  ghost function Listing(s: State, f: Filter): seq<Str> {
    RowsAreOrdered(s, Rows(s, f, None));
    Order.Sorted(Rows(s, f, None), RowOrder(s))
  }

  /** A page of (updated_at, id) positions: at most `size` rows after the given position, and the position of the
      last one if there are more. */
  ghost function PageAfter(s: State, f: Filter, size: nat, after: Option<(Str, Str)>): Page<(Str, Str)>
    requires size > 0
  {
    RowsAreOrdered(s, Rows(s, f, after));
    Order.SortedIsOrdered(Rows(s, f, after), RowOrder(s));
    Cut(s, Order.Sorted(Rows(s, f, after), RowOrder(s)), size)
  }

  /** The first `size` of the rows, and where they end if there are more. */
  function Cut(s: State, rows: seq<Str>, size: nat): Page<(Str, Str)>
    requires size > 0 && forall i | 0 <= i < |rows| :: rows[i] in s.jobs
  {
    if |rows| > size then Page(rows[..size], Some(Position(s, rows[size - 1]))) else Page(rows, None)
  }

  /** How positions become cursor texts and back. */
  datatype Codec = Codec(encode: ((Str, Str)) -> Str, decode: Str -> Option<(Str, Str)>)

  const CURSOR := Codec((at: (Str, Str)) => Cursors.EncodeCursor(at.0, at.1), (v: Str) => Cursors.DecodeCursor(v))

  /** Every position of the table survives the codec. */
  ghost predicate Faithful(codec: Codec, s: State) {
    forall id | id in s.jobs :: codec.decode(codec.encode(Position(s, id))) == Some(Position(s, id))
  }

  /** Texts that SQLite can store and that are never empty in these columns. */
  ghost predicate Storable(s: State) {
    forall id | id in s.jobs ::
      id != [] && Cursors.Unpaired(id) && s.jobs[id].updated != [] && Cursors.Unpaired(s.jobs[id].updated)
  }

  lemma CursorIsFaithful(s: State)
    requires Storable(s)
    ensures Faithful(CURSOR, s)
  {
    forall id | id in s.jobs ensures CURSOR.decode(CURSOR.encode(Position(s, id))) == Some(Position(s, id)) {
      Cursors.CursorRoundTrip(s.jobs[id].updated, id);
    }
  }

  function Textual(codec: Codec, page: Page<(Str, Str)>): Page<Str> {
    Page(page.items, if page.next.Some? then Some(codec.encode(page.next.value)) else None)
  }

  /** One page with textual cursors; None is the ValueError for an invalid cursor. */
  ghost function PageSpec(codec: Codec, s: State, f: Filter, limit: int, cursor: Option<Str>): Option<Page<Str>> {
    var after := if cursor.Some? then codec.decode(cursor.value) else None;
    if cursor.Some? && after.None? then None
    else Some(Textual(codec, PageAfter(s, f, PageSize(limit), after)))
  }

  /** The plain listing holds the principal's jobs of the asked status, if any, touched before the asked time, if any,
      each once: the last touched first, and of those touched at one time the greatest identifier. */
  lemma ListingExactly(s: State, f: Filter)
    ensures var l := Listing(s, f);
      && (forall id :: id in l <==>
            && id in s.jobs && s.jobs[id].principal == Some(f.principal)
            && (f.status.Some? ==> s.jobs[id].status == f.status.value)
            && (f.before.Some? ==> Less(s.jobs[id].updated, f.before.value)))
      && (forall i, j | 0 <= i < j < |l| ::
            && l[i] in s.jobs && l[j] in s.jobs && l[i] != l[j]
            && (|| Less(s.jobs[l[j]].updated, s.jobs[l[i]].updated)
                || (s.jobs[l[i]].updated == s.jobs[l[j]].updated && Less(l[j], l[i]))))
  {
    var l := Listing(s, f);
    ListingIsOrdered(s, f);
    forall i, j | 0 <= i < j < |l|
      ensures l[i] in s.jobs && l[j] in s.jobs && l[i] != l[j] && Precedes(s, l[i], l[j])
    {
      LessIsStrict(l[j], l[i]);
      LessIsStrict(s.jobs[l[j]].updated, s.jobs[l[i]].updated);
    }
  }

  lemma ListingIsOrdered(s: State, f: Filter)
    ensures var l := Listing(s, f);
      && |l| == |Rows(s, f, None)|
      && (forall id :: id in l <==> id in s.jobs && Matches(s.jobs[id], f))
      && (forall i, j | 0 <= i < j < |l| :: Precedes(s, l[i], l[j]))
  {
    RowsAreOrdered(s, Rows(s, f, None));
    Order.SortedIsOrdered(Rows(s, f, None), RowOrder(s));
    var l := Listing(s, f);
    assert forall id :: id in Rows(s, f, None) <==> id in s.jobs && Matches(s.jobs[id], f);
    forall i, j | 0 <= i < j < |l| ensures Precedes(s, l[i], l[j]) {
      assert RowOrder(s)(l[i], l[j]);
    }
  }

  /** The position that the first k rows of the listing end at. */
  ghost function PositionAt(s: State, f: Filter, k: nat): Option<(Str, Str)>
    requires k <= |Listing(s, f)|
  {
    if k == 0 then None
    else
      ListingIsOrdered(s, f);
      Some(Position(s, Listing(s, f)[k - 1]))
  }

  lemma RowsAfterPosition(s: State, f: Filter, k: nat)
    requires k <= |Listing(s, f)|
    ensures var ids := Rows(s, f, PositionAt(s, f, k));
      Order.StrictOrder(ids, RowOrder(s)) && Order.Sorted(ids, RowOrder(s)) == Listing(s, f)[k..]
  {
    var ids := Rows(s, f, None);
    RowsAreOrdered(s, ids);
    ListingIsOrdered(s, f);
    if k > 0 {
      var last := Listing(s, f)[k - 1];
      var after := Rows(s, f, PositionAt(s, f, k));
      assert forall x :: x in after <==> x in ids && RowOrder(s)(last, x);
      Order.SortedSuffix(ids, RowOrder(s), k, after);
    }
  }

  /** The page after the first k rows is the next slice of the listing. */
  lemma PageIsSlice(s: State, f: Filter, size: nat, k: nat)
    requires size > 0 && k <= |Listing(s, f)|
    ensures PageAfter(s, f, size, PositionAt(s, f, k)) ==
      if k + size < |Listing(s, f)| then Page(Listing(s, f)[k..k + size], PositionAt(s, f, k + size))
      else Page(Listing(s, f)[k..], None)
  {
    var l := Listing(s, f);
    RowsAfterPosition(s, f, k);
    if k + size < |l| {
      assert l[k..][..size] == l[k..k + size] && l[k..][size - 1] == l[k + size - 1];
    }
  }

  ghost function CursorAt(codec: Codec, s: State, f: Filter, k: nat): Option<Str>
    requires k <= |Listing(s, f)|
  {
    var at := PositionAt(s, f, k);
    if at.Some? then Some(codec.encode(at.value)) else None
  }

  ghost function Pages(codec: Codec, s: State, f: Filter, limit: int): Option<Str> -> Option<Page<Str>> {
    cursor => PageSpec(codec, s, f, limit, cursor)
  }

  ghost function CursorsOf(codec: Codec, s: State, f: Filter): nat -> Option<Str> {
    (k: nat) => if k <= |Listing(s, f)| then CursorAt(codec, s, f, k) else None
  }

  /** The cursor issued after k rows asks for the page after k rows. */
  lemma CursorAsksForNext(codec: Codec, s: State, f: Filter, limit: int, k: nat)
    requires Faithful(codec, s) && k <= |Listing(s, f)|
    ensures PageSpec(codec, s, f, limit, CursorAt(codec, s, f, k))
      == Some(Textual(codec, PageAfter(s, f, PageSize(limit), PositionAt(s, f, k))))
  {
    ListingIsOrdered(s, f);
    if k > 0 {
      assert Listing(s, f)[k - 1] in s.jobs;
      assert codec.decode(CursorAt(codec, s, f, k).value) == PositionAt(s, f, k);
    }
  }

  lemma PagesAreSlices(codec: Codec, s: State, f: Filter, limit: int, k: nat)
    requires Faithful(codec, s) && k <= |Listing(s, f)|
    ensures Slices(Pages(codec, s, f, limit), Listing(s, f), CursorsOf(codec, s, f), PageSize(limit), k)
  {
    PageIsSlice(s, f, PageSize(limit), k);
    CursorAsksForNext(codec, s, f, limit, k);
  }

  lemma FaithfulPagingRefinesListing(codec: Codec, s: State, f: Filter, limit: int)
    requires Faithful(codec, s)
    ensures Follow(Pages(codec, s, f, limit), None, |Listing(s, f)| + 1) == Some(Listing(s, f))
  {
    var l := Listing(s, f);
    forall k: nat | k <= |l|
      ensures Slices(Pages(codec, s, f, limit), l, CursorsOf(codec, s, f), PageSize(limit), k)
    {
      PagesAreSlices(codec, s, f, limit, k);
    }
    FollowCovers(Pages(codec, s, f, limit), l, CursorsOf(codec, s, f), PageSize(limit), 0);
    assert CursorsOf(codec, s, f)(0) == None;
    assert l[0..] == l;
  }

  /** A client that follows `next_cursor` from none until none sees exactly the plain listing: every matching row
      once, newest first, whatever the limit. */
  lemma PagingRefinesListing(s: State, f: Filter, limit: int)
    requires Storable(s)
    ensures Follow(Pages(CURSOR, s, f, limit), None, |Listing(s, f)| + 1) == Some(Listing(s, f))
  {
    CursorIsFaithful(s);
    FaithfulPagingRefinesListing(CURSOR, s, f, limit);
  }

  lemma FirstIsUnique(s: State, ids: set<Str>, m: Str)
    requires ids <= s.jobs.Keys && m in ids && forall x | x in ids && x != m :: Precedes(s, m, x)
    ensures Order.StrictOrder(ids, RowOrder(s)) && m == Order.TheFirst(ids, RowOrder(s))
  {
    RowsAreOrdered(s, ids);
    var first := Order.TheFirst(ids, RowOrder(s));
    assert first != m ==> RowOrder(s)(first, m) && Precedes(s, m, first);
  }

  lemma FirstCanBePicked(s: State, ids: set<Str>)
    requires ids <= s.jobs.Keys && ids != {}
    ensures exists m | m in ids :: forall x | x in ids && x != m :: Precedes(s, m, x)
  {
    RowsAreOrdered(s, ids);
    var first := Order.TheFirst(ids, RowOrder(s));
    forall x | x in ids && x != first ensures Precedes(s, first, x) {
      assert RowOrder(s)(first, x);
    }
  }

  /** The query ORDER BY updated_at DESC, id DESC LIMIT n. */
  method SelectNewest(s: State, f: Filter, after: Option<(Str, Str)>, limit: nat) returns (rows: seq<Str>)
    ensures Order.StrictOrder(Rows(s, f, after), RowOrder(s))
    ensures var all := Order.Sorted(Rows(s, f, after), RowOrder(s));
      rows == if |all| > limit then all[..limit] else all
  {
    var todo := Rows(s, f, after);
    RowsAreOrdered(s, todo);
    ghost var all := Order.Sorted(todo, RowOrder(s));
    rows := [];
    while todo != {} && |rows| < limit
      invariant todo <= s.jobs.Keys && Order.StrictOrder(todo, RowOrder(s))
      invariant all == rows + Order.Sorted(todo, RowOrder(s)) && |rows| <= limit
      decreases todo
    {
      FirstCanBePicked(s, todo);
      var m :| m in todo && forall x | x in todo && x != m :: Precedes(s, m, x);
      FirstIsUnique(s, todo, m);
      rows, todo := rows + [m], todo - {m};
    }
  }

  method SelectPage(s: State, f: Filter, size: nat, after: Option<(Str, Str)>) returns (page: Page<(Str, Str)>)
    requires size > 0
    ensures page == PageAfter(s, f, size, after)
  {
    var rows := SelectNewest(s, f, after, size + 1);
    ghost var all := Order.Sorted(Rows(s, f, after), RowOrder(s));
    Order.SortedIsOrdered(Rows(s, f, after), RowOrder(s));
    FetchedIsEnough(s, all, size);
    if |rows| > size {
      page := Page(rows[..size], Some(Position(s, rows[size - 1])));
    } else {
      page := Page(rows, None);
    }
  }

  /** One row more than the page is all that has to be fetched. */
  lemma FetchedIsEnough(s: State, all: seq<Str>, size: nat)
    requires size > 0 && forall i | 0 <= i < |all| :: all[i] in s.jobs
    ensures var fetched := if |all| > size + 1 then all[..size + 1] else all;
      && (forall i | 0 <= i < |fetched| :: fetched[i] in s.jobs)
      && Cut(s, fetched, size) == Cut(s, all, size)
  {
    if |all| > size + 1 {
      assert all[..size + 1][..size] == all[..size];
    }
  }

  method ListForPrincipal(codec: Codec, s: State, f: Filter, limit: int, cursor: Option<Str>)
    returns (r: Option<Page<Str>>)
    ensures r == PageSpec(codec, s, f, limit, cursor)
  {
    var after := None;
    if cursor.Some? {
      after := codec.decode(cursor.value);
      if after.None? {
        return None;
      }
    }
    var page := SelectPage(s, f, PageSize(limit), after);
    return Some(Textual(codec, page));
  }
}
