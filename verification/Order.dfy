/** Strict orders on finite sets: ORDER BY and LIMIT for the queries of the stores. */
module Order {

  ghost predicate StrictOrder<T(!new)>(ids: set<T>, before: (T, T) -> bool) {
    && (forall a, b | a in ids && b in ids && a != b :: before(a, b) || before(b, a))
    && (forall a, b | a in ids && b in ids && before(a, b) :: a != b && !before(b, a))
    && (forall a, b, c | a in ids && b in ids && c in ids && before(a, b) && before(b, c) :: before(a, c))
  }

  ghost predicate First<T(!new)>(ids: set<T>, before: (T, T) -> bool, m: T) {
    m in ids && forall x | x in ids && x != m :: before(m, x)
  }

  lemma {:induction false} FirstExists<T(!new)>(ids: set<T>, before: (T, T) -> bool)
    requires ids != {} && StrictOrder(ids, before)
    ensures exists m :: First(ids, before, m)
    decreases |ids|
  {
    var x :| x in ids;
    var rest := ids - {x};
    if rest == {} {
      assert ids == {x};
      assert First(ids, before, x);
    } else {
      FirstExists(rest, before);
      var m :| First(rest, before, m);
      assert forall y | y in ids && y != x :: y in rest;
      if before(m, x) {
        assert First(ids, before, m);
      } else {
        assert before(x, m);
        assert First(ids, before, x);
      }
    }
  }

  ghost function TheFirst<T(!new)>(ids: set<T>, before: (T, T) -> bool): (m: T)
    requires ids != {} && StrictOrder(ids, before)
    ensures First(ids, before, m)
  {
    FirstExists(ids, before);
    var m :| First(ids, before, m);
    m
  }

  /** The elements in order. */
  ghost function Sorted<T(!new)>(ids: set<T>, before: (T, T) -> bool): seq<T>
    requires StrictOrder(ids, before)
    decreases |ids|
  {
    if ids == {} then []
    else
      var m := TheFirst(ids, before);
      [m] + Sorted(ids - {m}, before)
  }

  /** The sorted list holds each element once, in order. */
  lemma {:induction false} SortedIsOrdered<T(!new)>(ids: set<T>, before: (T, T) -> bool)
    requires StrictOrder(ids, before)
    ensures var l := Sorted(ids, before);
      && |l| == |ids|
      && (forall i | 0 <= i < |l| :: l[i] in ids)
      && (forall x | x in ids :: x in l)
      && (forall i, j | 0 <= i < j < |l| :: before(l[i], l[j]))
    decreases |ids|
  {
    if ids != {} {
      var m := TheFirst(ids, before);
      var rest := ids - {m};
      var tail := Sorted(rest, before);
      SortedIsOrdered(rest, before);
      var l := [m] + tail;
      assert forall i | 1 <= i < |l| :: l[i] == tail[i - 1] && l[i] in rest;
      forall i, j | 0 <= i < j < |l| ensures before(l[i], l[j]) {
        if i > 0 {
          assert before(tail[i - 1], tail[j - 1]);
        }
      }
    }
  }

  /** Sorting what comes after the k-th element gives the rest of the list. */
  lemma {:induction false} SortedSuffix<T(!new)>(ids: set<T>, before: (T, T) -> bool, k: nat, after: set<T>)
    requires StrictOrder(ids, before) && 0 < k <= |Sorted(ids, before)|
    requires forall x :: x in after <==> x in ids && before(Sorted(ids, before)[k - 1], x)
    ensures StrictOrder(after, before)
    ensures Sorted(after, before) == Sorted(ids, before)[k..]
    decreases |ids|
  {
    var m := TheFirst(ids, before);
    var rest := ids - {m};
    var tail := Sorted(rest, before);
    assert Sorted(ids, before) == [m] + tail;
    SortedIsOrdered(rest, before);
    if k == 1 {
      assert after == rest;
      assert Sorted(ids, before)[1..] == tail;
    } else {
      var last := Sorted(ids, before)[k - 1];
      assert last == tail[k - 2] && last in rest && before(m, last);
      assert forall x :: x in after <==> x in rest && before(tail[k - 2], x);
      SortedSuffix(rest, before, k - 1, after);
      assert tail[k - 1..] == Sorted(ids, before)[k..];
    }
  }
}
