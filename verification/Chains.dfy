/** Walking a chain of pages, whatever the pages are. */
module Chains {
  import opened Text

  datatype Page<C> = Page(items: seq<Str>, next: Option<C>)

  /** Requests pages until the next cursor is none, at most `rounds` of them; None if a page is refused or the chain
      is longer. */
  ghost function Follow<C(!new)>(page: Option<C> -> Option<Page<C>>, cursor: Option<C>, rounds: nat): Option<seq<Str>>
    decreases rounds
  {
    if rounds == 0 then None
    else
      match page(cursor)
      case None => None
      case Some(Page(items, None)) => Some(items)
      case Some(Page(items, Some(next))) =>
        match Follow(page, Some(next), rounds - 1)
        case None => None
        case Some(rest) => Some(items + rest)
  }

  /** The page at the k-th cursor is the slice of the list from k on, and leads to the cursor where it ends. */
  ghost predicate Slices<C(!new)>(
    page: Option<C> -> Option<Page<C>>, list: seq<Str>, at: nat -> Option<C>, size: nat, k: nat)
    requires k <= |list|
  {
    if k + size < |list| then at(k + size).Some? && page(at(k)) == Some(Page(list[k..k + size], at(k + size)))
    else page(at(k)) == Some(Page(list[k..], None))
  }

  lemma {:induction false} FollowMore<C(!new)>(
    page: Option<C> -> Option<Page<C>>, cursor: Option<C>, m: nat, n: nat)
    requires m <= n && Follow(page, cursor, m).Some?
    ensures Follow(page, cursor, n) == Follow(page, cursor, m)
    decreases m
  {
    var p := page(cursor).value;
    if p.next.Some? {
      FollowMore(page, p.next, m - 1, n - 1);
    }
  }

  lemma {:induction false} FollowCovers<C(!new)>(
    page: Option<C> -> Option<Page<C>>, list: seq<Str>, at: nat -> Option<C>, size: nat, k: nat)
    requires size > 0 && k <= |list|
    requires forall i: nat | i <= |list| :: Slices(page, list, at, size, i)
    ensures Follow(page, at(k), |list| - k + 1) == Some(list[k..])
    decreases |list| - k
  {
    assert Slices(page, list, at, size, k);
    if k + size < |list| {
      var end := k + size;
      FollowCovers(page, list, at, size, end);
      FollowMore(page, at(end), |list| - end + 1, |list| - k);
      assert list[k..end] + list[end..] == list[k..];
    }
  }
}
