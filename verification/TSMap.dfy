/** The map wrapper: its lookups, its updates, and its loops over an ordered container. */
module TSMapModel {
  import opened OrderedKeys

  // ---- positions in the ordered container; None is the end ----

  predicate Before(k: int, it: Option<int>) {
    it.None? || k < it.value
  }

  predicate IsPosition(keys: set<int>, it: Option<int>) {
    it.Some? ==> it.value in keys
  }

  lemma {:induction false} SmallestExists(keys: set<int>, x: int)
    requires x in keys
    ensures exists m :: m in keys && forall y :: y in keys ==> m <= y
    decreases |keys|
  {
    if y :| y in keys && y < x {
      SmallestExists(keys - {x}, y);
      var m :| m in keys - {x} && forall z :: z in keys - {x} ==> m <= z;
      forall z | z in keys ensures m <= z {
        assert z == x || z in keys - {x};
      }
    }
  }

  lemma {:induction false} GreatestExists(keys: set<int>, x: int)
    requires x in keys
    ensures exists m :: m in keys && forall y :: y in keys ==> y <= m
    decreases |keys|
  {
    if y :| y in keys && x < y {
      GreatestExists(keys - {x}, y);
      var m :| m in keys - {x} && forall z :: z in keys - {x} ==> z <= m;
      forall z | z in keys ensures z <= m {
        assert z == x || z in keys - {x};
      }
    }
  }

  /** begin() */
  function First(keys: set<int>): (r: Option<int>)
    ensures IsPosition(keys, r)
    ensures r.None? <==> keys == {}
    ensures forall k :: k in keys ==> !Before(k, r)
  {
    if x :| x in keys then
      SmallestExists(keys, x);
      var m :| m in keys && forall y :: y in keys ==> m <= y;
      Some(m)
    else
      None
  }

  /** The position after key k. */
  function Next(keys: set<int>, k: int): (r: Option<int>)
    ensures IsPosition(keys, r)
    ensures forall x :: x in keys ==> (Before(x, r) <==> x <= k)
  {
    LowerBound(keys, k + 1)
  }

  /** The key one step back from a position that is not begin(). */
  function Previous(keys: set<int>, it: Option<int>): (r: int)
    requires exists k :: k in keys && Before(k, it)
    ensures r in keys && Before(r, it)
    ensures forall k :: k in keys && Before(k, it) ==> k <= r
  {
    var below := set k | k in keys && Before(k, it);
    var x :| x in below;
    GreatestExists(below, x);
    var m :| m in below && forall y :: y in below ==> y <= m;
    assert forall k :: k in keys && Before(k, it) ==> k in below;
    m
  }

  // ---- one pass over the container ----

  /** What a pass does at one entry: count it, keep it, and with which value. */
  datatype Visit<V> = Visit(hit: bool, keep: bool, value: V)

  /** The container when the pass has come to it: the entries before it are done, the others are untouched. */
  ghost function Swept<V>(m: map<int, V>, g: (int, V) -> Visit<V>, it: Option<int>): map<int, V> {
    map k | k in m && (Before(k, it) ==> g(k, m[k]).keep) :: if Before(k, it) then g(k, m[k]).value else m[k]
  }

  /** The entries counted so far. */
  ghost function Hits<V>(m: map<int, V>, g: (int, V) -> Visit<V>, it: Option<int>): set<int> {
    set k | k in m && Before(k, it) && g(k, m[k]).hit
  }

  ghost function Ahead<V>(m: map<int, V>, it: Option<int>): set<int> {
    set k | k in m && !Before(k, it)
  }

  lemma SweepStarts<V>(m: map<int, V>, g: (int, V) -> Visit<V>)
    ensures Swept(m, g, First(m.Keys)) == m
    ensures Hits(m, g, First(m.Keys)) == {}
  {
  }

  /** The next position depends only on the keys after k. */
  lemma SameNext(keys: set<int>, others: set<int>, k: int)
    requires forall x :: x > k ==> (x in keys <==> x in others)
    ensures Next(keys, k) == Next(others, k)
  {
    var a, b := Next(keys, k), Next(others, k);
    if a.Some? { assert a.value > k && a.value in others; }
    if b.Some? { assert b.value > k && b.value in keys; }
  }

  lemma VisitEntry<V>(m: map<int, V>, g: (int, V) -> Visit<V>, k: int)
    requires k in m
    ensures var now := Swept(m, g, Some(k)); var seen := g(k, m[k]); var next := Next(m.Keys, k);
      && k in now && now[k] == m[k]
      && Swept(m, g, next) == (if seen.keep then now[k := seen.value] else now - {k})
      && Next(Swept(m, g, next).Keys, k) == next
  {
    var now := Swept(m, g, Some(k));
    var next := Next(m.Keys, k);
    var then' := Swept(m, g, next);
    assert k in now && k in m.Keys;
    forall x | x in m ensures Before(x, next) <==> x == k || Before(x, Some(k)) {
      assert x in m.Keys;
    }
    SameNext(m.Keys, then'.Keys, k);
    if g(k, m[k]).keep {
      assert then' == now[k := g(k, m[k]).value];
    } else {
      assert then' == now - {k};
    }
  }

  lemma VisitCounts<V>(m: map<int, V>, g: (int, V) -> Visit<V>, k: int)
    requires k in m
    ensures |Hits(m, g, Next(m.Keys, k))| == |Hits(m, g, Some(k))| + (if g(k, m[k]).hit then 1 else 0)
    ensures |Ahead(m, Next(m.Keys, k))| < |Ahead(m, Some(k))|
  {
    var next := Next(m.Keys, k);
    forall x | x in m ensures Before(x, next) <==> x == k || Before(x, Some(k)) {
      assert x in m.Keys;
    }
    var more := if g(k, m[k]).hit then {k} else {};
    assert Hits(m, g, next) == Hits(m, g, Some(k)) + more;
    assert Ahead(m, Some(k)) == Ahead(m, next) + {k};
  }

  /** One visit carries the pass on to the next position, whether or not it removed its entry. */
  lemma SweepStep<V>(m: map<int, V>, g: (int, V) -> Visit<V>, k: int)
    requires k in m
    ensures var now := Swept(m, g, Some(k)); var seen := g(k, m[k]); var next := Next(m.Keys, k);
      && k in now && now[k] == m[k]
      && Swept(m, g, next) == (if seen.keep then now[k := seen.value] else now - {k})
      && Next(Swept(m, g, next).Keys, k) == next
      && |Hits(m, g, next)| == |Hits(m, g, Some(k))| + (if seen.hit then 1 else 0)
      && |Ahead(m, next)| < |Ahead(m, Some(k))|
  {
    VisitEntry(m, g, k);
    VisitCounts(m, g, k);
  }

  // ---- the three passes ----

  function Counting<V>(f: (int, V) -> bool): (int, V) -> Visit<V> {
    (k: int, v: V) => Visit(f(k, v), true, v)
  }

  function Updating<V>(f: (int, V) -> (bool, V)): (int, V) -> Visit<V> {
    (k: int, v: V) => Visit(f(k, v).0, true, f(k, v).1)
  }

  function Removing<V>(f: (int, V) -> (bool, V)): (int, V) -> Visit<V> {
    (k: int, v: V) => Visit(f(k, v).0, !f(k, v).0, f(k, v).1)
  }

  ghost function Satisfying<V>(m: map<int, V>, f: (int, V) -> bool): set<int> {
    set k | k in m && f(k, m[k])
  }

  ghost function Accepted<V>(m: map<int, V>, f: (int, V) -> (bool, V)): set<int> {
    set k | k in m && f(k, m[k]).0
  }

  ghost function Updated<V>(m: map<int, V>, f: (int, V) -> (bool, V)): map<int, V> {
    map k | k in m :: f(k, m[k]).1
  }

  ghost function Kept<V>(m: map<int, V>, f: (int, V) -> (bool, V)): map<int, V> {
    map k | k in m && !f(k, m[k]).0 :: f(k, m[k]).1
  }

  /** Where each pass ends. */
  lemma SweepEnds<V>(m: map<int, V>, f: (int, V) -> (bool, V), p: (int, V) -> bool)
    ensures Swept(m, Counting(p), None) == m && Hits(m, Counting(p), None) == Satisfying(m, p)
    ensures Swept(m, Updating(f), None) == Updated(m, f) && Hits(m, Updating(f), None) == Accepted(m, f)
    ensures Swept(m, Removing(f), None) == Kept(m, f) && Hits(m, Removing(f), None) == Accepted(m, f)
  {
  }

  /** A counting pass leaves the container alone at every position. */
  lemma CountingTouchesNothing<V>(m: map<int, V>, p: (int, V) -> bool, it: Option<int>)
    ensures Swept(m, Counting(p), it) == m
  {
  }

  /** Removed and kept entries make up the whole container. */
  lemma RemovedAndKept<V>(m: map<int, V>, f: (int, V) -> (bool, V))
    ensures |Accepted(m, f)| + |Kept(m, f)| == |m|
    ensures forall k :: k in Kept(m, f) <==> k in m && !f(k, m[k]).0
  {
    var kept := Kept(m, f).Keys;
    assert m.Keys == Accepted(m, f) + kept;
    assert Accepted(m, f) !! kept;
    assert |m.Keys| == |m| && |kept| == |Kept(m, f)|;
  }

  /** m is the greatest key that is not greater than k. */
  predicate IsInfimum(keys: set<int>, k: int, m: int) {
    m in keys && m <= k && forall x | x in keys :: x <= k ==> x <= m
  }

  predicate Ascending(s: seq<int>) {
    forall i, j :: 0 <= i < j < |s| ==> s[i] < s[j]
  }

  class TSMap<V> {
    const blank: V              // what Value{} gives
    var contents: map<int, V>

    constructor (blank: V)
      ensures this.blank == blank && contents == map[]
    {
      this.blank := blank;
      contents := map[];
    }

    method Find(k: int) returns (v: V, found: bool)
      ensures found <==> k in contents
      ensures v == if found then contents[k] else blank
    {
      if k in contents {
        return contents[k], true;
      }
      return blank, false;
    }

    method LowerBoundKey(k: int) returns (key: int, v: V, found: bool)
      ensures found <==> exists x :: x in contents && k <= x
      ensures found ==> IsLowerBound(contents.Keys, k, key) && v == contents[key]
      ensures !found ==> v == blank
    {
      var it := LowerBound(contents.Keys, k);
      if it.Some? {
        return it.value, contents[it.value], true;
      }
      return 0, blank, false;
    }

    /** The search goes by lower_bound and one step back; what it finds is the greatest key not above k. */
    method FindInfimumKey(k: int) returns (key: int, v: V, found: bool)
      ensures found <==> exists x :: x in contents && x <= k
      ensures found ==> IsInfimum(contents.Keys, k, key) && v == contents[key]
      ensures !found ==> v == blank
    {
      var it := LowerBound(contents.Keys, k);
      if it.Some? && it.value == k {
        return it.value, contents[it.value], true;
      } else if it == First(contents.Keys) {
        forall x | x in contents ensures k < x {
          assert !Before(x, it);
        }
        return 0, blank, false;
      } else {
        if forall x :: x in contents ==> !Before(x, it) {
          PositionUnique(contents.Keys, it, First(contents.Keys));
        }
        var back := Previous(contents.Keys, it);
        forall x | x in contents && x <= k ensures x <= back {
          assert Before(x, it);
        }
        return back, contents[back], true;
      }
    }

    method Size() returns (n: nat)
      ensures n == |contents|
    {
      n := |contents|;
    }

    /** true unless force was withheld and the key was taken: the answer says whether the key was free exactly if it
        was, or if force was withheld. */
    method Emplace(k: int, v: V, force: bool) returns (ok: bool)
      modifies this`contents
      ensures ok <==> force || k !in old(contents)
      ensures (ok <==> k !in old(contents)) <==> !force || k !in old(contents)
      ensures contents == if ok then old(contents)[k := v] else old(contents)
    {
      if !force && k in contents {
        return false;
      }
      contents := contents - {k};
      ok := k !in contents;
      if ok {
        contents := contents[k := v];
      }
    }

    method Replace(k: int, v: V, force: bool) returns (was: V, isNew: bool)
      modifies this`contents
      ensures isNew <==> k !in old(contents)
      ensures was == if isNew then v else old(contents)[k]
      ensures contents == if isNew || force then old(contents)[k := v] else old(contents)
    {
      var newVal := v;
      isNew := k !in contents;
      if isNew {
        contents := contents[k := newVal];
      }
      if !isNew {
        newVal := contents[k];
        if force {
          contents := contents[k := v];
        }
      }
      was := newVal;
    }

    /** f may change the value it looks at; a refusal leaves the entry in place with the value f left. */
    method Erase(k: int, f: Option<(int, V) -> (bool, V)>) returns (ok: bool)
      modifies this`contents
      ensures ok <==> k in old(contents) && (f.None? || f.value(k, old(contents)[k]).0)
      ensures contents ==
        if ok then old(contents) - {k}
        else if k in old(contents) then old(contents)[k := f.value(k, old(contents)[k]).1]
        else old(contents)
    {
      if k !in contents {
        return false;
      }
      ok := true;
      if f.Some? {
        var judged := f.value(k, contents[k]);
        contents := contents[k := judged.1];
        ok := judged.0;
      }
      if ok {
        contents := contents - {k};
      }
    }

    method Remove(k: int) returns (v: V, found: bool)
      modifies this`contents
      ensures found <==> k in old(contents)
      ensures v == if found then old(contents)[k] else blank
      ensures contents == old(contents) - {k}
    {
      if k in contents {
        v, found := contents[k], true;
        contents := contents - {k};
        return;
      }
      return blank, false;
    }

    /** Every key once, in ascending order. */
    method GetKeyList() returns (list: seq<int>)
      ensures Ascending(list)
      ensures forall k :: k in list <==> k in contents
      ensures |list| == |contents|
    {
      list := [];
      var it := First(contents.Keys);
      ghost var g := Counting((k: int, v: V) => true);
      SweepStarts(contents, g);
      while it.Some?
        invariant IsPosition(contents.Keys, it)
        invariant Ascending(list)
        invariant forall k :: k in list <==> k in contents && Before(k, it)
        invariant |list| == |Hits(contents, g, it)|
        decreases |Ahead(contents, it)|
      {
        SweepStep(contents, g, it.value);
        assert forall i :: 0 <= i < |list| ==> list[i] in list;
        list := list + [it.value];
        it := Next(contents.Keys, it.value);
      }
      assert Hits(contents, g, None) == contents.Keys;
      assert |contents.Keys| == |contents|;
    }

    method ForEachRo(f: (int, V) -> bool) returns (numSuccess: nat)
      ensures numSuccess == |Satisfying(contents, f)| == |set k | k in contents && f(k, contents[k])|
    {
      numSuccess := 0;
      var it := First(contents.Keys);
      ghost var g := Counting(f);
      SweepStarts(contents, g);
      while it.Some?
        invariant IsPosition(contents.Keys, it)
        invariant numSuccess == |Hits(contents, g, it)|
        decreases |Ahead(contents, it)|
      {
        SweepStep(contents, g, it.value);
        if f(it.value, contents[it.value]) {
          numSuccess := numSuccess + 1;
        }
        it := Next(contents.Keys, it.value);
      }
      assert Hits(contents, g, None) == Satisfying(contents, f);
    }

    method ForEach(f: (int, V) -> (bool, V)) returns (numSuccess: nat)
      modifies this`contents
      ensures numSuccess == |Accepted(old(contents), f)| == |set k | k in old(contents) && f(k, old(contents)[k]).0|
      ensures contents == Updated(old(contents), f) == map k | k in old(contents) :: f(k, old(contents)[k]).1
    {
      numSuccess := 0;
      var it := First(contents.Keys);
      ghost var start, g := contents, Updating(f);
      SweepStarts(start, g);
      while it.Some?
        invariant IsPosition(start.Keys, it)
        invariant contents == Swept(start, g, it)
        invariant numSuccess == |Hits(start, g, it)|
        decreases |Ahead(start, it)|
      {
        SweepStep(start, g, it.value);
        var called := f(it.value, contents[it.value]);
        contents := contents[it.value := called.1];
        if called.0 {
          numSuccess := numSuccess + 1;
        }
        it := Next(contents.Keys, it.value);
      }
      SweepEnds(start, f, (k: int, v: V) => true);
    }

    method DeleteIf(f: (int, V) -> (bool, V)) returns (numErased: nat)
      modifies this`contents
      ensures numErased == |Accepted(old(contents), f)| == |set k | k in old(contents) && f(k, old(contents)[k]).0|
      ensures contents == Kept(old(contents), f)
      ensures contents == map k | k in old(contents) && !f(k, old(contents)[k]).0 :: f(k, old(contents)[k]).1
      ensures numErased + |contents| == |old(contents)|
    {
      numErased := 0;
      var it := First(contents.Keys);
      ghost var start, g := contents, Removing(f);
      SweepStarts(start, g);
      while it.Some?
        invariant IsPosition(start.Keys, it)
        invariant contents == Swept(start, g, it)
        invariant numErased == |Hits(start, g, it)|
        decreases |Ahead(start, it)|
      {
        SweepStep(start, g, it.value);
        var called := f(it.value, contents[it.value]);
        if called.0 {
          contents := contents - {it.value};
          it := Next(contents.Keys, it.value);
          numErased := numErased + 1;
        } else {
          contents := contents[it.value := called.1];
          it := Next(contents.Keys, it.value);
        }
      }
      SweepEnds(start, f, (k: int, v: V) => true);
      RemovedAndKept(start, f);
    }
  }

  /** begin() is the only position with nothing before it. */
  lemma PositionUnique(keys: set<int>, a: Option<int>, b: Option<int>)
    requires IsPosition(keys, a) && IsPosition(keys, b)
    requires forall k :: k in keys ==> !Before(k, a) && !Before(k, b)
    ensures a == b
  {
    if a.Some? { assert !Before(a.value, b); }
    if b.Some? { assert !Before(b.value, a); }
  }
}
