/** What the cache does, on the list of its entries from least to most recently used. */
module LruSpec {
  import opened OrderedKeys

  datatype CacheNode<V> = CacheNode(key: int, value: V)

  /** The cleanup handler: what it answers may depend on how often it was called before. */
  type Handler<!V> = (nat, int, V) -> bool

  /** How the eviction loop ends.  `Orphan`: the handler refused the only entry, and the
      list has lost it. */
  datatype Eviction<V> = Kept(rest: seq<CacheNode<V>>, calls: nat) | Orphan(entry: CacheNode<V>, calls: nat)

  /** The eviction loop, with `count` refusals so far and `calls` calls of the handler. */
  ghost function Evict<V>(s: seq<CacheNode<V>>, max: nat, h: Option<Handler<V>>, count: nat, calls: nat): Eviction<V>
    requires count <= 5
    decreases |s| + (5 - count)
  {
    if |s| >= max && count < 5 && s != [] then
      if h.None? then Evict(s[1..], max, h, count, calls)
      else if h.value(calls, s[0].key, s[0].value) then Evict(s[1..], max, h, count, calls + 1)
      else if |s| == 1 then Orphan(s[0], calls + 1)
      else Evict(s[1..] + [s[0]], max, h, count + 1, calls + 1)
    else Kept(s, calls)
  }

  ghost predicate DistinctKeys<V>(s: seq<CacheNode<V>>) {
    forall i, j :: 0 <= i < j < |s| ==> s[i].key != s[j].key
  }

  ghost function Keys<V>(s: seq<CacheNode<V>>): set<int> { set e | e in s :: e.key }

  /** The list without its entry i. */
  ghost function Without<T>(s: seq<T>, i: nat): (t: seq<T>)
    requires i < |s|
    ensures |t| == |s| - 1
    ensures forall k :: 0 <= k < |t| ==> t[k] == s[if k < i then k else k + 1]
  {
    s[..i] + s[i + 1..]
  }

  lemma WithoutPlaces<T>(s: seq<T>, i: nat)
    requires i < |s| && forall a, b :: 0 <= a < b < |s| ==> s[a] != s[b]
    ensures s[i] !in Without(s, i) && forall a, b :: 0 <= a < b < |s| - 1 ==> Without(s, i)[a] != Without(s, i)[b]
    ensures forall k :: 0 <= k < i ==> Without(s, i)[k] == s[k]
    ensures forall k :: i <= k < |s| - 1 ==> Without(s, i)[k] == s[k + 1]
  {
  }

  /** Entry i moves behind all others. */
  ghost function Touch<T>(s: seq<T>, i: nat): (t: seq<T>)
    requires i < |s|
    ensures |t| == |s|
  {
    Without(s, i) + [s[i]]
  }

  lemma TouchLast<T>(s: seq<T>)
    requires s != []
    ensures Touch(s, |s| - 1) == s
  {
  }

  // ---- without a handler ---------------------------------------------------------

  /** How many entries are left when room is made for one more. */
  function Room(len: nat, max: nat): nat {
    if len < max then len else if max == 0 then 0 else max - 1
  }

  /** Without a handler the loop removes from the front just enough entries. */
  lemma {:induction false} EvictWithoutHandler<V>(s: seq<CacheNode<V>>, max: nat, calls: nat)
    ensures Room(|s|, max) <= |s|
    ensures Evict(s, max, None, 0, calls) == Kept(s[|s| - Room(|s|, max)..], calls)
    ensures Evict(s, max, None, 0, calls).rest ==
      if |s| < max then s else if max == 0 then [] else s[|s| - (max - 1)..]
    decreases |s|
  {
    if |s| >= max && s != [] {
      EvictWithoutHandler(s[1..], max, calls);
      assert s[1..][|s| - 1 - Room(|s| - 1, max)..] == s[|s| - Room(|s| - 1, max)..];
    } else {
      assert s[0..] == s;
    }
  }

  // ---- with a handler --------------------------------------------------------------

  /** The entries that the loop removes, in the order in which it does. */
  ghost function Evicted<V>(s: seq<CacheNode<V>>, max: nat, h: Option<Handler<V>>, count: nat, calls: nat)
      : seq<CacheNode<V>>
    requires count <= 5
    decreases |s| + (5 - count)
  {
    if |s| >= max && count < 5 && s != [] then
      if h.None? then [s[0]] + Evicted(s[1..], max, h, count, calls)
      else if h.value(calls, s[0].key, s[0].value) then [s[0]] + Evicted(s[1..], max, h, count, calls + 1)
      else if |s| == 1 then []
      else Evicted(s[1..] + [s[0]], max, h, count + 1, calls + 1)
    else []
  }

  lemma FirstGone<T>(s: seq<T>, left: seq<T>, gone: seq<T>)
    requires s != [] && multiset(left) + multiset(gone) == multiset(s[1..])
    ensures multiset(left) + multiset([s[0]] + gone) == multiset(s)
  {
    assert s == [s[0]] + s[1..];
    assert multiset([s[0]] + gone) == multiset{s[0]} + multiset(gone);
  }

  lemma FirstTurned<T>(s: seq<T>)
    requires s != []
    ensures multiset(s[1..] + [s[0]]) == multiset(s)
  {
    assert s == [s[0]] + s[1..];
  }

  /** Nothing is lost or duplicated: what was there is what is left and what was removed. */
  lemma {:induction false} EvictConserves<V>(s: seq<CacheNode<V>>, max: nat, h: Option<Handler<V>>,
                                             count: nat, calls: nat)
    requires count <= 5
    ensures multiset(Left(Evict(s, max, h, count, calls))) + multiset(Evicted(s, max, h, count, calls)) == multiset(s)
    decreases |s| + (5 - count)
  {
    if |s| >= max && count < 5 && s != [] {
      if h.None? || h.value(calls, s[0].key, s[0].value) {
        var n := if h.None? then calls else calls + 1;
        EvictConserves(s[1..], max, h, count, n);
        FirstGone(s, Left(Evict(s[1..], max, h, count, n)), Evicted(s[1..], max, h, count, n));
      } else if |s| > 1 {
        EvictConserves(s[1..] + [s[0]], max, h, count + 1, calls + 1);
        FirstTurned(s);
      } else {
        assert s == [s[0]];
      }
    }
  }

  /** The entries that the handler refuses, in the order in which it does; one that is refused twice is here twice. */
  ghost function Refusals<V>(s: seq<CacheNode<V>>, max: nat, h: Option<Handler<V>>, count: nat, calls: nat)
      : seq<CacheNode<V>>
    requires count <= 5
    decreases |s| + (5 - count)
  {
    if |s| >= max && count < 5 && s != [] then
      if h.None? then Refusals(s[1..], max, h, count, calls)
      else if h.value(calls, s[0].key, s[0].value) then Refusals(s[1..], max, h, count, calls + 1)
      else if |s| == 1 then [s[0]]
      else [s[0]] + Refusals(s[1..] + [s[0]], max, h, count + 1, calls + 1)
    else []
  }

  /** When h is asked about the entries of l, one after the other from call number calls on: those it answers so. */
  ghost function Judged<V>(l: seq<CacheNode<V>>, h: Handler<V>, calls: nat, verdict: bool): seq<CacheNode<V>> {
    if l == [] then []
    else (if h(calls, l[0].key, l[0].value) == verdict then [l[0]] else []) + Judged(l[1..], h, calls + 1, verdict)
  }

  /** What the loop leaves: the list, or the one entry with which the list was lost. */
  ghost function Left<V>(e: Eviction<V>): seq<CacheNode<V>> {
    match e
    case Kept(rest, _) => rest
    case Orphan(entry, _) => [entry]
  }

  /**
   * The loop with any handler, asked any number of times about any entry.  It goes along the list followed by what
   * it has refused so far, asks about one entry after the other, and stops with the part it has not reached: what
   * was removed is what the handler accepted, and what was refused is behind the rest in the order of the refusals.
   */
  ghost predicate GoesAlong<V>(s: seq<CacheNode<V>>, max: nat, h: Handler<V>, count: nat, calls: nat)
    requires count <= 5
  {
    var e := Evict(s, max, Some(h), count, calls);
    var r := Refusals(s, max, Some(h), count, calls);
    && calls <= e.calls <= calls + |s| + |r|
    && r == Judged((s + r)[..e.calls - calls], h, calls, false)
    && Evicted(s, max, Some(h), count, calls) == Judged((s + r)[..e.calls - calls], h, calls, true)
    && Left(e) == (s + r)[e.calls - calls..]
    && count + |r| <= 5
    && (e.Kept? ==> |e.rest| < max || e.rest == [] || count + |r| == 5)
  }

  /**
   * The handler is asked only while the cache is full: before its call number i it had refused fewer than five times,
   * and what it had accepted until then had not yet made room.
   */
  ghost predicate AskedWhileFull<V>(s: seq<CacheNode<V>>, max: nat, h: Handler<V>, count: nat, calls: nat)
    requires count <= 5
  {
    var e := Evict(s, max, Some(h), count, calls);
    var r := Refusals(s, max, Some(h), count, calls);
    forall i :: 0 <= i < e.calls - calls && i <= |s| + |r| ==>
      && |s| - |Judged((s + r)[..i], h, calls, true)| >= max
      && |s| > |Judged((s + r)[..i], h, calls, true)|
      && count + |Judged((s + r)[..i], h, calls, false)| < 5
  }

  /** One step further along: the judgements of the first i + 1 entries are the first one's and those of the next i. */
  lemma AskedStep<V>(tape: seq<CacheNode<V>>, i: nat, h: Handler<V>, calls: nat)
    requires 0 < i <= |tape|
    ensures var yes := h(calls, tape[0].key, tape[0].value);
      && |Judged(tape[..i], h, calls, true)|
         == (if yes then 1 else 0) + |Judged(tape[1..][..i - 1], h, calls + 1, true)|
      && |Judged(tape[..i], h, calls, false)|
         == (if yes then 0 else 1) + |Judged(tape[1..][..i - 1], h, calls + 1, false)|
  {
    JudgedFirst(tape, i, h, calls, true);
    JudgedFirst(tape, i, h, calls, false);
  }

  lemma AskedNext<V>(s: seq<CacheNode<V>>, t: seq<CacheNode<V>>, max: nat, h: Handler<V>, count: nat, calls: nat)
    requires count < 5 && s != [] && |s| >= max
    requires var yes := h(calls, s[0].key, s[0].value);
      (yes || |s| > 1) && t == s[1..] + (if yes then [] else [s[0]])
    requires var c := if h(calls, s[0].key, s[0].value) then count else count + 1;
      && AskedWhileFull(t, max, h, c, calls + 1)
      && Evict(s, max, Some(h), count, calls) == Evict(t, max, Some(h), c, calls + 1)
      && Refusals(s, max, Some(h), count, calls)
         == (if c == count then [] else [s[0]]) + Refusals(t, max, Some(h), c, calls + 1)
    ensures AskedWhileFull(s, max, h, count, calls)
  {
    var yes := h(calls, s[0].key, s[0].value);
    var c := if yes then count else count + 1;
    var e, r := Evict(s, max, Some(h), count, calls), Refusals(s, max, Some(h), count, calls);
    var r' := Refusals(t, max, Some(h), c, calls + 1);
    hide Evict, Refusals;
    assert (s + r)[1..] == t + r';
    forall i | 0 <= i < e.calls - calls && i <= |s| + |r|
      ensures |s| - |Judged((s + r)[..i], h, calls, true)| >= max
      ensures |s| > |Judged((s + r)[..i], h, calls, true)|
      ensures count + |Judged((s + r)[..i], h, calls, false)| < 5
    {
      if i > 0 {
        AskedStep(s + r, i, h, calls);
        hide Judged;
        assert 0 <= i - 1 < e.calls - (calls + 1) && i - 1 <= |t| + |r'|;
      }
    }
  }

  lemma {:induction false} EvictAsksWhileFull<V>(s: seq<CacheNode<V>>, max: nat, h: Handler<V>, count: nat, calls: nat)
    requires count <= 5
    ensures AskedWhileFull(s, max, h, count, calls)
    decreases |s| + (5 - count)
  {
    if |s| >= max && count < 5 && s != [] {
      if h(calls, s[0].key, s[0].value) {
        EvictAsksWhileFull(s[1..], max, h, count, calls + 1);
        assert s[1..] + [] == s[1..];
        AskedNext(s, s[1..], max, h, count, calls);
      } else if |s| > 1 {
        EvictAsksWhileFull(s[1..] + [s[0]], max, h, count + 1, calls + 1);
        AskedNext(s, s[1..] + [s[0]], max, h, count, calls);
      }
    }
  }

  /** Nothing is evicted beyond what makes room for one entry, whatever the handler answers. */
  lemma {:induction false} EvictLeavesRoomOnly<V>(s: seq<CacheNode<V>>, max: nat, h: Option<Handler<V>>, count: nat,
                                                  calls: nat)
    requires count <= 5
    ensures |Left(Evict(s, max, h, count, calls))| >= Room(|s|, max)
    decreases |s| + (5 - count)
  {
    if |s| >= max && count < 5 && s != [] {
      if h.None? {
        EvictLeavesRoomOnly(s[1..], max, h, count, calls);
      } else if h.value(calls, s[0].key, s[0].value) {
        EvictLeavesRoomOnly(s[1..], max, h, count, calls + 1);
      } else if |s| > 1 {
        EvictLeavesRoomOnly(s[1..] + [s[0]], max, h, count + 1, calls + 1);
      }
    }
  }

  lemma JudgedFirst<V>(l: seq<CacheNode<V>>, n: nat, h: Handler<V>, calls: nat, verdict: bool)
    requires 0 < n <= |l|
    ensures Judged(l[..n], h, calls, verdict)
         == (if h(calls, l[0].key, l[0].value) == verdict then [l[0]] else [])
            + Judged(l[1..][..n - 1], h, calls + 1, verdict)
  {
    assert l[..n][1..] == l[1..][..n - 1];
  }

  lemma AcceptedGoesAlong<V>(s: seq<CacheNode<V>>, max: nat, h: Handler<V>, count: nat, calls: nat)
    requires count < 5 && s != [] && |s| >= max && h(calls, s[0].key, s[0].value)
    requires GoesAlong(s[1..], max, h, count, calls + 1)
    ensures GoesAlong(s, max, h, count, calls)
  {
    var e := Evict(s, max, Some(h), count, calls);
    var r := Refusals(s, max, Some(h), count, calls);
    assert e == Evict(s[1..], max, Some(h), count, calls + 1);
    assert r == Refusals(s[1..], max, Some(h), count, calls + 1);
    assert Evicted(s, max, Some(h), count, calls) == [s[0]] + Evicted(s[1..], max, Some(h), count, calls + 1);
    assert (s + r)[1..] == s[1..] + r;
    var v := e.calls - calls;
    hide Evict, Evicted, Refusals, Judged;
    JudgedFirst(s + r, v, h, calls, false);
    JudgedFirst(s + r, v, h, calls, true);
    assert (s + r)[v..] == (s[1..] + r)[v - 1..];
  }

  lemma RefusedGoesAlong<V>(s: seq<CacheNode<V>>, max: nat, h: Handler<V>, count: nat, calls: nat)
    requires count < 5 && |s| > 1 && |s| >= max && !h(calls, s[0].key, s[0].value)
    requires GoesAlong(s[1..] + [s[0]], max, h, count + 1, calls + 1)
    ensures GoesAlong(s, max, h, count, calls)
  {
    var e := Evict(s, max, Some(h), count, calls);
    var r := Refusals(s, max, Some(h), count, calls);
    var t := s[1..] + [s[0]];
    var r' := Refusals(t, max, Some(h), count + 1, calls + 1);
    assert e == Evict(t, max, Some(h), count + 1, calls + 1) && r == [s[0]] + r';
    assert Evicted(s, max, Some(h), count, calls) == Evicted(t, max, Some(h), count + 1, calls + 1);
    assert (s + r)[1..] == t + r';
    var v := e.calls - calls;
    hide Evict, Evicted, Refusals, Judged;
    JudgedFirst(s + r, v, h, calls, false);
    JudgedFirst(s + r, v, h, calls, true);
    assert (s + r)[v..] == (t + r')[v - 1..];
  }

  lemma {:induction false} EvictGoesAlong<V>(s: seq<CacheNode<V>>, max: nat, h: Handler<V>, count: nat, calls: nat)
    requires count <= 5
    ensures GoesAlong(s, max, h, count, calls)
    decreases |s| + (5 - count)
  {
    if |s| >= max && count < 5 && s != [] {
      if h(calls, s[0].key, s[0].value) {
        EvictGoesAlong(s[1..], max, h, count, calls + 1);
        AcceptedGoesAlong(s, max, h, count, calls);
      } else if |s| > 1 {
        EvictGoesAlong(s[1..] + [s[0]], max, h, count + 1, calls + 1);
        RefusedGoesAlong(s, max, h, count, calls);
      } else {
        assert s == [s[0]];
        assert ([s[0]] + [s[0]])[..1] == [s[0]] && ([s[0]] + [s[0]])[1..] == [s[0]];
      }
    } else {
      assert s + [] == s;
    }
  }

  /** When the loop leaves a cache full, the handler has refused five times. */
  lemma EvictBound<V>(s: seq<CacheNode<V>>, max: nat, h: Option<Handler<V>>, calls: nat)
    ensures var e := Evict(s, max, h, 0, calls);
            e.Kept? ==> |e.rest| < max || e.rest == [] || |Refusals(s, max, h, 0, calls)| == 5
  {
    if h.Some? { EvictGoesAlong(s, max, h.value, 0, calls); } else { EvictWithoutHandler(s, max, calls); }
  }

  lemma {:induction false} AllRefused<V(!new)>(l: seq<CacheNode<V>>, h: Handler<V>, calls: nat)
    requires forall n, k, v :: !h(n, k, v)
    ensures Judged(l, h, calls, false) == l
  {
    if l != [] { AllRefused(l[1..], h, calls + 1); }
  }

  /** The place i steps on in a circle of n. */
  function Around(i: nat, n: nat): (k: nat)
    requires n > 0
    ensures k < n
  {
    if i < n then i else Around(i - n, n)
  }

  lemma {:induction false} RoundAndRound<T>(s: seq<T>, r: seq<T>, i: nat)
    requires s != [] && r == (s + r)[..|r|] && i < |s| + |r|
    ensures (s + r)[i] == s[Around(i, |s|)]
    decreases i
  {
    if i >= |s| {
      var k := i - |s|;
      RoundAndRound(s, r, k);
      assert r[k] == (s + r)[..|r|][k];
    }
  }

  /** A handler that never agrees is asked five times, and the list is turned by five places, round and round. */
  lemma EvictRotates<V(!new)>(s: seq<CacheNode<V>>, max: nat, h: Handler<V>, calls: nat)
    requires |s| >= 2 && |s| >= max && forall n, k, v :: !h(n, k, v)
    ensures var e := Evict(s, max, Some(h), 0, calls);
      && e.Kept? && e.calls == calls + 5 && |e.rest| == |s|
      && forall i :: 0 <= i < |s| ==> e.rest[i] == s[Around(i + 5, |s|)]
  {
    EvictGoesAlong(s, max, h, 0, calls);
    var e := Evict(s, max, Some(h), 0, calls);
    var r := Refusals(s, max, Some(h), 0, calls);
    AllRefused((s + r)[..e.calls - calls], h, calls);
    hide Evict, Evicted, Refusals, Judged;
    assert |r| == e.calls - calls;
    forall i | 0 <= i < |s| ensures e.rest[i] == s[Around(i + 5, |s|)] { RoundAndRound(s, r, i + 5); }
  }

  lemma {:induction false} EvictKeepsDistinct<V>(s: seq<CacheNode<V>>, max: nat, h: Option<Handler<V>>,
                                                 count: nat, calls: nat)
    requires count <= 5 && DistinctKeys(s)
    ensures var e := Evict(s, max, h, count, calls); e.Kept? ==> DistinctKeys(e.rest)
    decreases |s| + (5 - count)
  {
    if |s| >= max && count < 5 && s != [] {
      if h.None? {
        EvictKeepsDistinct(s[1..], max, h, count, calls);
      } else if h.value(calls, s[0].key, s[0].value) {
        EvictKeepsDistinct(s[1..], max, h, count, calls + 1);
      } else if |s| > 1 {
        EvictKeepsDistinct(s[1..] + [s[0]], max, h, count + 1, calls + 1);
      }
    }
  }

  // ---- when the list is lost --------------------------------------------------------

  /**
   * For every handler: with a limit of two or more the list is never lost, and with a smaller one exactly when the
   * handler's acceptances take all entries but one.
   */
  lemma {:induction false} LostIffOneLeft<V>(s: seq<CacheNode<V>>, max: nat, h: Option<Handler<V>>,
                                             count: nat, calls: nat)
    requires count <= 5 && (count < 5 || |s| != 1)
    ensures max >= 2 || h.None? ==> Evict(s, max, h, count, calls).Kept?
    ensures max <= 1 ==> (Evict(s, max, h, count, calls).Orphan? <==> |s| == |Evicted(s, max, h, count, calls)| + 1)
    decreases |s| + (5 - count)
  {
    if |s| >= max && count < 5 && s != [] {
      if h.None? {
        LostIffOneLeft(s[1..], max, h, count, calls);
      } else if h.value(calls, s[0].key, s[0].value) {
        LostIffOneLeft(s[1..], max, h, count, calls + 1);
      } else if |s| > 1 {
        LostIffOneLeft(s[1..] + [s[0]], max, h, count + 1, calls + 1);
      }
    }
  }

  // ---- a handler that decides by the entry -----------------------------------------

  /** h answers p, whenever it is asked. */
  ghost predicate Decides<V(!new)>(h: Handler<V>, p: CacheNode<V> -> bool) {
    forall n, k, v :: h(n, k, v) == p(CacheNode(k, v))
  }

  ghost function Refused<V>(s: seq<CacheNode<V>>, p: CacheNode<V> -> bool): (r: seq<CacheNode<V>>)
    ensures |r| <= |s|
  {
    if s == [] then [] else (if p(s[0]) then [] else [s[0]]) + Refused(s[1..], p)
  }

  lemma {:induction false} RefusedAppend<V>(s: seq<CacheNode<V>>, e: CacheNode<V>, p: CacheNode<V> -> bool)
    ensures Refused(s + [e], p) == Refused(s, p) + (if p(e) then [] else [e])
  {
    if s == [] {
      assert s + [e] == [e] && [e][1..] == [];
    } else {
      var t := s + [e];
      assert t[0] == s[0] && t[1..] == s[1..] + [e];
      RefusedAppend(s[1..], e, p);
      var first := if p(s[0]) then [] else [s[0]];
      assert Refused(t, p) == first + Refused(t[1..], p) && Refused(s, p) == first + Refused(s[1..], p);
    }
  }

  /** Unless the limit is at most one and exactly one entry is refused, nothing is orphaned. */
  lemma {:induction false} NoOrphan<V(!new)>(s: seq<CacheNode<V>>, max: nat, h: Handler<V>, p: CacheNode<V> -> bool,
                                             count: nat, calls: nat)
    requires count <= 5 && Decides(h, p) && (max >= 2 || |Refused(s, p)| != 1)
    ensures Evict(s, max, Some(h), count, calls).Kept?
    decreases |s| + (5 - count)
  {
    if |s| >= max && count < 5 && s != [] {
      assert h(calls, s[0].key, s[0].value) == p(s[0]);
      if p(s[0]) {
        NoOrphan(s[1..], max, h, p, count, calls + 1);
      } else if |s| > 1 {
        RefusedAppend(s[1..], s[0], p);
        NoOrphan(s[1..] + [s[0]], max, h, p, count + 1, calls + 1);
      }
    }
  }

  /** The one refused entry is the last: all others are removed before it is asked about. */
  lemma {:induction false} OrphanWhenLast<V(!new)>(s: seq<CacheNode<V>>, max: nat, h: Handler<V>,
                                                   p: CacheNode<V> -> bool, count: nat, calls: nat)
    requires count < 5 && Decides(h, p) && max <= 1
    requires |s| > 0 && !p(s[|s| - 1]) && forall i :: 0 <= i < |s| - 1 ==> p(s[i])
    ensures Evict(s, max, Some(h), count, calls).Orphan? && Evict(s, max, Some(h), count, calls).entry == s[|s| - 1]
    decreases |s|
  {
    assert h(calls, s[0].key, s[0].value) == p(s[0]);
    if |s| > 1 { OrphanWhenLast(s[1..], max, h, p, count, calls + 1); }
  }

  lemma {:induction false} NoneRefused<V>(s: seq<CacheNode<V>>, p: CacheNode<V> -> bool)
    requires Refused(s, p) == []
    ensures forall i :: 0 <= i < |s| ==> p(s[i])
  {
    if s != [] { NoneRefused(s[1..], p); }
  }

  /** One refused entry anywhere: it is rotated behind the others once, and then it is last. */
  lemma {:induction false} OrphanWhenOne<V(!new)>(s: seq<CacheNode<V>>, max: nat, h: Handler<V>,
                                                  p: CacheNode<V> -> bool, count: nat, calls: nat)
    requires count < 4 && Decides(h, p) && max <= 1 && |Refused(s, p)| == 1
    ensures Evict(s, max, Some(h), count, calls).Orphan?
    decreases |s|
  {
    assert h(calls, s[0].key, s[0].value) == p(s[0]);
    if p(s[0]) {
      OrphanWhenOne(s[1..], max, h, p, count, calls + 1);
    } else {
      NoneRefused(s[1..], p);
      if |s| > 1 { OrphanWhenLast(s[1..] + [s[0]], max, h, p, count + 1, calls + 1); }
    }
  }

  /** A caller can tell beforehand: the cache loses an entry exactly when its limit is at
      most one and the handler refuses exactly one of the entries. */
  lemma OrphanIff<V(!new)>(s: seq<CacheNode<V>>, max: nat, h: Handler<V>, p: CacheNode<V> -> bool, calls: nat)
    requires Decides(h, p)
    ensures Evict(s, max, Some(h), 0, calls).Orphan? <==> max <= 1 && |Refused(s, p)| == 1
  {
    if max <= 1 && |Refused(s, p)| == 1 {
      OrphanWhenOne(s, max, h, p, 0, calls);
    } else {
      NoOrphan(s, max, h, p, 0, calls);
    }
  }

  /** The smallest such case: one entry, limit one, and a handler that keeps everything. */
  lemma OrphanExample(v: int)
    ensures Evict([CacheNode(1, v)], 1, Some((n, k, w) => false), 0, 0) == Orphan(CacheNode(1, v), 1)
  {
  }

  /** A handler that refuses only when it is first asked: the same cache is lost at call 0 and kept at call 1. */
  lemma StatefulExample(v: int)
    ensures var h := (n: nat, k: int, w: int) => n > 0;
      && Evict([CacheNode(1, v)], 1, Some(h), 0, 0) == Orphan(CacheNode(1, v), 1)
      && Evict([CacheNode(1, v)], 1, Some(h), 0, 1) == Kept([], 2)
  {
    assert [CacheNode(1, v)][1..] == [];
  }
}
