/** The two halves of the board queries: a WHERE clause over a table keyed by
    row id, and an ORDER BY on one integer column of the selected rows. */
module Ordering {

  /** The ids of the rows that satisfy `keep`. */
  function Where<T>(t: map<int, T>, keep: T -> bool): (ids: set<int>)
    ensures ids <= t.Keys
    ensures forall id :: id in t ==> (id in ids <==> keep(t[id]))
  {
    set id | id in t && keep(t[id])
  }

  /** Row `i` is listed no later than row `j` when ordering by `key`; equal
      keys are listed by ascending id. */
  predicate Precedes<T>(t: map<int, T>, key: T -> int, i: int, j: int)
    requires i in t && j in t
  {
    key(t[i]) < key(t[j]) || (key(t[i]) == key(t[j]) && i <= j)
  }

  predicate IsFirst<T>(t: map<int, T>, key: T -> int, m: int, ids: set<int>)
    requires ids <= t.Keys
  {
    m in ids && forall j :: j in ids ==> Precedes(t, key, m, j)
  }

  lemma {:induction false} FirstExists<T>(t: map<int, T>, key: T -> int, ids: set<int>)
    requires ids <= t.Keys && ids != {}
    ensures exists m :: IsFirst(t, key, m, ids)
    decreases ids
  {
    assert exists x :: x in ids by {
      if forall x :: x !in ids { assert false; }
    }
    var x :| x in ids;
    var rest := ids - {x};
    if rest == {} {
      assert ids == {x};
      assert IsFirst(t, key, x, ids);
    } else {
      FirstExists(t, key, rest);
      var m :| IsFirst(t, key, m, rest);
      if Precedes(t, key, m, x) {
        assert IsFirst(t, key, m, ids);
      } else {
        forall j | j in ids ensures Precedes(t, key, x, j) {
          if j != x { assert Precedes(t, key, m, j); }
        }
        assert IsFirst(t, key, x, ids);
      }
    }
  }

  /** The ids in `ids`, listed by ascending `key` (ORDER BY key ASC). */
  function OrderBy<T>(t: map<int, T>, ids: set<int>, key: T -> int): (r: seq<int>)
    requires ids <= t.Keys
    ensures |r| == |ids|
    ensures forall id :: id in r <==> id in ids
    ensures forall a, b :: 0 <= a < b < |r| ==> r[a] != r[b] && Precedes(t, key, r[a], r[b])
    decreases ids
  {
    if ids == {} then []
    else
      FirstExists(t, key, ids);
      var m :| IsFirst(t, key, m, ids);
      [m] + OrderBy(t, ids - {m}, key)
  }
}
