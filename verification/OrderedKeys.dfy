/** Searching the ordered keys of a std::map.  Keys are integers: only their order matters. */
module OrderedKeys {

  datatype Option<+T> = None | Some(value: T)

  /** m is the smallest key that is not less than k. */
  predicate IsLowerBound(keys: set<int>, k: int, m: int) {
    m in keys && k <= m && forall x | x in keys :: k <= x ==> m <= x
  }

  lemma {:induction false} LowerBoundExists(keys: set<int>, k: int, x: int)
    requires x in keys && k <= x
    ensures exists m :: IsLowerBound(keys, k, m)
    decreases |keys|
  {
    if y :| y in keys && k <= y < x {
      LowerBoundExists(keys - {x}, k, y);
      var m :| IsLowerBound(keys - {x}, k, m);
      forall z | z in keys && k <= z ensures m <= z {
        assert z == x || z in keys - {x};
        assert m <= y;
      }
      assert IsLowerBound(keys, k, m);
    } else {
      assert IsLowerBound(keys, k, x);
    }
  }

  lemma SomeLowerBound(keys: set<int>, k: int)
    requires exists x | x in keys :: k <= x
    ensures exists m :: IsLowerBound(keys, k, m)
  {
    var x :| x in keys && k <= x;
    LowerBoundExists(keys, k, x);
  }

  /** std::map::lower_bound on the keys; None is the end. */
  function LowerBound(keys: set<int>, k: int): (r: Option<int>)
    ensures r.None? <==> forall x :: x in keys ==> x < k
    ensures r.Some? ==> IsLowerBound(keys, k, r.value)
  {
    if exists x | x in keys :: k <= x then
      SomeLowerBound(keys, k);
      var m :| m in keys && IsLowerBound(keys, k, m);
      Some(m)
    else
      None
  }
}
