/** Going through a finite set in a strict total order. */
module Ordered {

  ghost predicate IsStrictOrder<T(!new)>(less: (T, T) -> bool) {
    && (forall a :: !less(a, a))
    && (forall a, b :: a == b || less(a, b) || less(b, a))
    && (forall a, b, c | less(a, b) && less(b, c) :: less(a, c))
  }

  lemma Irreflexive<T(!new)>(less: (T, T) -> bool, a: T)
    requires IsStrictOrder(less)
    ensures !less(a, a)
  {
  }

  lemma Total<T(!new)>(less: (T, T) -> bool, a: T, b: T)
    requires IsStrictOrder(less)
    ensures a == b || less(a, b) || less(b, a)
  {
  }

  lemma Transitive<T(!new)>(less: (T, T) -> bool, a: T, b: T, c: T)
    requires IsStrictOrder(less) && less(a, b) && less(b, c)
    ensures less(a, c)
  {
  }

  ghost predicate Ascending<T(!new)>(less: (T, T) -> bool, ids: seq<T>) {
    forall i, j | 0 <= i < j < |ids| :: less(ids[i], ids[j])
  }

  predicate IsLeast<T(==)>(less: (T, T) -> bool, ids: set<T>, least: T) {
    least in ids && forall id | id in ids && id != least :: less(least, id)
  }

  lemma {:induction false} LeastExists<T(!new)>(less: (T, T) -> bool, ids: set<T>)
    requires IsStrictOrder(less) && ids != {}
    ensures exists least :: IsLeast(less, ids, least)
  {
    hide IsStrictOrder;
    var some :| some in ids;
    var rest := ids - {some};
    if rest == {} {
      assert ids == {some};
      assert IsLeast(less, ids, some);
    } else {
      LeastExists(less, rest);
      var least :| IsLeast(less, rest, least);
      Total(less, some, least);
      if less(some, least) {
        forall id | id in ids && id != some
          ensures less(some, id)
        {
          if id != least {
            Transitive(less, some, least, id);
          }
        }
        assert IsLeast(less, ids, some);
      } else {
        assert IsLeast(less, ids, least);
      }
    }
  }

  lemma LeastIsFirst<T(!new)>(less: (T, T) -> bool, ids: set<T>, least: T)
    requires IsStrictOrder(less) && IsLeast(less, ids, least)
    ensures forall other | less(other, least) :: other !in ids
  {
    hide IsStrictOrder;
    forall other | less(other, least)
      ensures other !in ids
    {
      Irreflexive(less, least);
      if other in ids {
        Transitive(less, least, other, least);
      }
    }
  }

  /** The elements of a set, in order. */
  ghost function InOrder<T(!new)>(less: (T, T) -> bool, ids: set<T>): (r: seq<T>)
    requires IsStrictOrder(less)
    ensures forall id :: id in r <==> id in ids
  {
    if ids == {} then []
    else
      LeastExists(less, ids);
      var least :| IsLeast(less, ids, least);
      [least] + InOrder(less, ids - {least})
  }

  lemma {:induction false} InOrderAscends<T(!new)>(less: (T, T) -> bool, ids: set<T>)
    requires IsStrictOrder(less)
    ensures Ascending(less, InOrder(less, ids))
  {
    hide IsStrictOrder;
    if ids != {} {
      var ordered := InOrder(less, ids);
      assert exists least :: IsLeast(less, ids, least) by { LeastExists(less, ids); }
      var rest := ids - {ordered[0]};
      assert ordered == [ordered[0]] + InOrder(less, rest);
      InOrderAscends(less, rest);
      forall i, j | 0 <= i < j < |ordered|
        ensures less(ordered[i], ordered[j])
      {
        assert ordered[j] == InOrder(less, rest)[j - 1] && ordered[j] in InOrder(less, rest);
        if i > 0 {
          assert ordered[i] == InOrder(less, rest)[i - 1];
        }
      }
    }
  }

  /** There is one way only to list a set in ascending order. */
  lemma {:induction false} AscendingIsUnique<T(!new)>(less: (T, T) -> bool, a: seq<T>, b: seq<T>)
    requires IsStrictOrder(less) && Ascending(less, a) && Ascending(less, b) && forall id :: id in a <==> id in b
    ensures a == b
  {
    hide IsStrictOrder;
    HeadIsIn(a);
    HeadIsIn(b);
    if a != [] && b != [] {
      FirstIsLeast(less, a, b);
      FirstIsLeast(less, b, a);
      if a[0] != b[0] {
        Transitive(less, a[0], b[0], a[0]);
        Irreflexive(less, a[0]);
      }
      RestHasTheRest(less, a);
      RestHasTheRest(less, b);
      AscendingIsUnique(less, a[1..], b[1..]);
      assert a == [a[0]] + a[1..] && b == [b[0]] + b[1..];
    }
  }

  lemma HeadIsIn<T(!new)>(a: seq<T>)
    ensures a == [] || a[0] in a
  {
  }

  lemma FirstIsLeast<T(!new)>(less: (T, T) -> bool, a: seq<T>, b: seq<T>)
    requires Ascending(less, a) && a != [] && b != [] && forall id :: id in a <==> id in b
    ensures a[0] == b[0] || less(a[0], b[0])
  {
    assert b[0] in b;
    var i :| 0 <= i < |a| && a[i] == b[0];
  }

  lemma RestHasTheRest<T(!new)>(less: (T, T) -> bool, a: seq<T>)
    requires IsStrictOrder(less) && Ascending(less, a) && a != []
    ensures Ascending(less, a[1..]) && forall id :: id in a[1..] <==> id in a && id != a[0]
  {
    hide IsStrictOrder;
    if a[0] in a[1..] {
      var i :| 0 < i < |a| && a[i] == a[0];
      Irreflexive(less, a[0]);
    }
  }
}
