/** Runs of the cache without a handler: the list is always ordered by last use, and what
    an insertion removes was used before everything it keeps. */
module LruRuns {
  import opened OrderedKeys
  import opened LruSpec

  datatype Op<V> = Add(key: int, value: V) | Get(key: int) | Lower(key: int) | SetMax(size: nat) | Empty

  datatype CacheState<V> = CacheState(entries: seq<CacheNode<V>>, max: nat)

  /** The place of a key in the list. */
  ghost function Find<V>(s: seq<CacheNode<V>>, k: int): (r: Option<nat>)
    ensures r.Some? ==> r.value < |s| && s[r.value].key == k
    ensures r.None? <==> k !in Keys(s)
  {
    if s == [] then None
    else if s[0].key == k then Some(0)
    else
      var r := Find(s[1..], k);
      assert s == [s[0]] + s[1..];
      if r.Some? then Some(r.value + 1) else None
  }

  /** The entries that an insertion finds after the eviction. */
  ghost function Survivors<V>(st: CacheState<V>): (s: seq<CacheNode<V>>)
  {
    st.entries[|st.entries| - Room(|st.entries|, st.max)..]
  }

  /** The key that an operation uses: the one it inserts, or the one it finds. */
  ghost function Used<V>(st: CacheState<V>, op: Op<V>): Option<int> {
    match op
    case Add(k, v) => if k in Keys(Survivors(st)) then None else Some(k)
    case Get(k) => if k in Keys(st.entries) then Some(k) else None
    case Lower(k) => LowerBound(Keys(st.entries), k)
    case SetMax(_) => None
    case Empty => None
  }

  /** The entry that was found moves behind all others. */
  ghost function Moved<V>(st: CacheState<V>, found: Option<int>): CacheState<V>
    requires found.Some? ==> found.value in Keys(st.entries)
  {
    if found.Some? then st.(entries := Touch(st.entries, Find(st.entries, found.value).value)) else st
  }

  ghost function Step<V>(st: CacheState<V>, op: Op<V>): CacheState<V> {
    match op
    case Add(k, v) =>
      st.(entries := if k in Keys(Survivors(st)) then Survivors(st) else Survivors(st) + [CacheNode(k, v)])
    case Get(_) => Moved(st, Used(st, op))
    case Lower(_) => Moved(st, Used(st, op))
    case SetMax(n) => st.(max := n)
    case Empty => st.(entries := [])
  }

  ghost function Run<V>(ops: seq<Op<V>>): CacheState<V> {
    if ops == [] then CacheState([], 0xFFFF_FFFF_FFFF_FFFF)
    else Step(Run(ops[..|ops| - 1]), ops[|ops| - 1])
  }

  /** The number of the last operation of the run that used k; 0 if there is none. */
  ghost function LastUse<V>(ops: seq<Op<V>>, k: int): (t: nat)
    ensures t <= |ops|
  {
    if ops == [] then 0
    else if Used(Run(ops[..|ops| - 1]), ops[|ops| - 1]) == Some(k) then |ops|
    else LastUse(ops[..|ops| - 1], k)
  }

  /** Least recently used first. */
  ghost predicate ByLastUse<V>(ops: seq<Op<V>>, s: seq<CacheNode<V>>) {
    forall i, j :: 0 <= i < j < |s| ==> LastUse(ops, s[i].key) < LastUse(ops, s[j].key)
  }

  /** Using entry i last keeps the order when that entry moves to the end. */
  lemma TouchOrdered<V>(before: seq<Op<V>>, ops: seq<Op<V>>, s: seq<CacheNode<V>>, i: nat)
    requires i < |s| && ByLastUse(before, s) && DistinctKeys(s) && |before| < |ops|
    requires forall k :: LastUse(ops, k) == if k == s[i].key then |ops| else LastUse(before, k)
    ensures ByLastUse(ops, Touch(s, i)) && DistinctKeys(Touch(s, i))
  {
    hide LastUse;
    var t := Touch(s, i);
    forall a, b | 0 <= a < b < |t| ensures LastUse(ops, t[a].key) < LastUse(ops, t[b].key) && t[a].key != t[b].key {
      var a' := if a < i then a else a + 1;
      assert t[a] == s[a'] && a' < |s| && a' != i;
      if b < |t| - 1 {
        var b' := if b < i then b else b + 1;
        assert t[b] == s[b'] && b' < |s| && b' != i && a' < b';
      }
    }
  }

  /** So does dropping entries from the front and putting a new key behind. */
  lemma AppendOrdered<V>(before: seq<Op<V>>, ops: seq<Op<V>>, s: seq<CacheNode<V>>, c: nat, e: CacheNode<V>)
    requires c <= |s| && ByLastUse(before, s) && DistinctKeys(s) && |before| < |ops| && e.key !in Keys(s[c..])
    requires forall k :: LastUse(ops, k) == if k == e.key then |ops| else LastUse(before, k)
    ensures ByLastUse(ops, s[c..] + [e]) && DistinctKeys(s[c..] + [e])
  {
    hide LastUse;
    var t := s[c..] + [e];
    forall a, b | 0 <= a < b < |t| ensures LastUse(ops, t[a].key) < LastUse(ops, t[b].key) && t[a].key != t[b].key {
      assert t[a] == s[c + a] && s[c..][a] in s[c..];
      if b < |t| - 1 { assert t[b] == s[c + b]; }
    }
  }

  lemma SuffixOrdered<V>(before: seq<Op<V>>, ops: seq<Op<V>>, s: seq<CacheNode<V>>, c: nat)
    requires c <= |s| && ByLastUse(before, s) && DistinctKeys(s)
    requires forall k :: LastUse(ops, k) == LastUse(before, k)
    ensures ByLastUse(ops, s[c..]) && DistinctKeys(s[c..])
  {
    hide LastUse;
    var t := s[c..];
    forall a, b | 0 <= a < b < |t| ensures LastUse(ops, t[a].key) < LastUse(ops, t[b].key) && t[a].key != t[b].key {
      assert t[a] == s[c + a] && t[b] == s[c + b];
    }
  }

  lemma LastUseStep<V>(ops: seq<Op<V>>)
    requires ops != []
    ensures var before, op := ops[..|ops| - 1], ops[|ops| - 1];
            forall k :: LastUse(ops, k) == if Used(Run(before), op) == Some(k) then |ops| else LastUse(before, k)
  {
  }

  lemma {:induction false} OrderedByLastUse<V>(ops: seq<Op<V>>)
    ensures ByLastUse(ops, Run(ops).entries)
    ensures DistinctKeys(Run(ops).entries)
  {
    if ops != [] {
      var before, op := ops[..|ops| - 1], ops[|ops| - 1];
      OrderedByLastUse(before);
      StepOrdered(ops, before, op);
    }
  }

  lemma StepOrdered<V>(ops: seq<Op<V>>, before: seq<Op<V>>, op: Op<V>)
    requires ops == before + [op] && ByLastUse(before, Run(before).entries) && DistinctKeys(Run(before).entries)
    ensures ByLastUse(ops, Step(Run(before), op).entries) && DistinctKeys(Step(Run(before), op).entries)
  {
    hide LastUse, ByLastUse, DistinctKeys, Run;
    var st := Run(before);
    var s, u := st.entries, Used(st, op);
    assert ops[..|ops| - 1] == before;
    LastUseStep(ops);
    if u.Some? && !op.Add? {
      TouchOrdered(before, ops, s, Find(s, u.value).value);
    } else if u.Some? {
      AppendOrdered(before, ops, s, |s| - Room(|s|, st.max), CacheNode(op.key, op.value));
    } else {
      SuffixOrdered(before, ops, s, if op.Add? then |s| - Room(|s|, st.max) else if op.Empty? then |s| else 0);
      assert s[0..] == s && s[|s|..] == [];
    }
  }

  lemma DroppedBefore<V>(ops: seq<Op<V>>, s: seq<CacheNode<V>>, c: nat, gone: CacheNode<V>, kept: CacheNode<V>)
    requires ByLastUse(ops, s) && c <= |s| && gone in s && gone !in s[c..] && kept in s[c..]
    ensures LastUse(ops, gone.key) < LastUse(ops, kept.key)
  {
    hide LastUse;
    var i :| 0 <= i < |s| && s[i] == gone;
    assert forall m :: c <= m < |s| ==> s[m] == s[c..][m - c];
    var j :| 0 <= j < |s| - c && s[c..][j] == kept;
    assert s[c + j] == kept;
  }

  /** An insertion removes entries only if they were used before all that survive. */
  lemma EvictsLeastRecentlyUsed<V>(ops: seq<Op<V>>, gone: CacheNode<V>, kept: CacheNode<V>)
    requires var st := Run(ops); gone in st.entries && gone !in Survivors(st) && kept in Survivors(st)
    ensures LastUse(ops, gone.key) < LastUse(ops, kept.key)
  {
    hide LastUse, ByLastUse, DistinctKeys;
    OrderedByLastUse(ops);
    var st := Run(ops);
    DroppedBefore(ops, st.entries, |st.entries| - Room(|st.entries|, st.max), gone, kept);
  }

  /** After every insertion the cache holds the survivors, in their order, and behind them the new entry unless its key
      survived; what survives is everything while there is room, and otherwise the latest entries, one fewer than the
      limit. */
  lemma SurvivorsAndNew<V>(ops: seq<Op<V>>, k: int, v: V)
    ensures var st, t := Run(ops), Run(ops + [Add(k, v)]).entries;
      t == Survivors(st) + if k in Keys(Survivors(st)) then [] else [CacheNode(k, v)]
    ensures var s, max := Run(ops).entries, Run(ops).max;
      Survivors(Run(ops)) == if |s| < max then s else if max == 0 then [] else s[|s| - (max - 1)..]
  {
    assert (ops + [Add(k, v)])[..|ops|] == ops;
  }

  /** A get that finds its key takes that entry out and puts it last; every other entry keeps its place among the rest,
      and a get that finds nothing changes nothing. */
  lemma GetMovesOne<V>(ops: seq<Op<V>>, k: int)
    ensures var s, r := Run(ops).entries, Run(ops + [Get(k)]);
      && r.max == Run(ops).max
      && if k in Keys(s)
         then exists i: nat | i < |s| :: s[i].key == k && r.entries == s[..i] + s[i + 1..] + [s[i]]
         else r.entries == s
  {
    assert (ops + [Get(k)])[..|ops|] == ops;
    var s := Run(ops).entries;
    if k in Keys(s) {
      var i := Find(s, k).value;
      assert s[i].key == k && Touch(s, i) == s[..i] + s[i + 1..] + [s[i]];
    }
  }

  /** A lower-bound lookup is the get of the smallest key that is not below; a new limit removes nothing, and emptying
      keeps the limit. */
  lemma OtherSteps<V>(ops: seq<Op<V>>, k: int, n: nat)
    ensures var st, m := Run(ops), LowerBound(Keys(Run(ops).entries), k);
      && Run(ops + [Lower(k)]) == (if m.Some? then Run(ops + [Get(m.value)]) else st)
      && Run(ops + [SetMax(n)]) == CacheState(st.entries, n)
      && Run(ops + [Empty]) == CacheState([], st.max)
  {
    var m := LowerBound(Keys(Run(ops).entries), k);
    assert (ops + [Lower(k)])[..|ops|] == ops && (ops + [SetMax(n)])[..|ops|] == ops && (ops + [Empty])[..|ops|] == ops;
    if m.Some? { assert (ops + [Get(m.value)])[..|ops|] == ops; }
  }

  /**
   * Without a handler adding a key that is there is a plain refusal exactly while there is room; in a full cache it
   * evicts all the same.
   */
  lemma DuplicateIsRefusedIff<V>(st: CacheState<V>, k: int, v: V)
    requires k in Keys(st.entries)
    ensures Used(st, Add(k, v)).None? && Step(st, Add(k, v)) == st <==> |st.entries| < st.max
  {
    var s := st.entries;
    if |s| < st.max {
      assert Survivors(st) == s;
    } else {
      assert |Step(st, Add(k, v)).entries| != |s| || Used(st, Add(k, v)).Some? || Survivors(st) != s;
    }
  }

  /** Two entries, limit two: adding the second key again answers false and the first entry is gone. */
  lemma DuplicateExample(a: int, b: int)
    ensures var st := CacheState([CacheNode(1, a), CacheNode(2, b)], 2);
      Used(st, Add(2, b)).None? && Step(st, Add(2, b)).entries == [CacheNode(2, b)]
  {
    var st := CacheState([CacheNode(1, a), CacheNode(2, b)], 2);
    assert Survivors(st) == [CacheNode(2, b)];
    assert CacheNode(2, b) in Survivors(st);
  }

  /** After a successful insertion the cache is within its limit, however far the limit was
      lowered before; a limit of zero counts as one. */
  lemma AddKeepsLimit<V>(ops: seq<Op<V>>, k: int, v: V)
    ensures var st, t := Run(ops), Run(ops + [Add(k, v)]);
            Used(st, Add(k, v)).Some? ==>
              && |t.entries| <= (if st.max == 0 then 1 else st.max)
              && t.entries != [] && t.entries[|t.entries| - 1] == CacheNode(k, v)
  {
    assert (ops + [Add(k, v)])[..|ops|] == ops;
  }

  lemma {:induction false} AllJudged<V>(l: seq<CacheNode<V>>, h: Handler<V>, calls: nat, verdict: bool)
    ensures |Judged(l, h, calls, verdict)| <= |l|
    ensures |Judged(l, h, calls, verdict)| == |l| ==>
      Judged(l, h, calls, verdict) == l && forall i :: 0 <= i < |l| ==> h(calls + i, l[i].key, l[i].value) == verdict
  {
    if l != [] {
      AllJudged(l[1..], h, calls + 1, verdict);
      if |Judged(l, h, calls, verdict)| == |l| {
        forall i | 0 <= i < |l| ensures h(calls + i, l[i].key, l[i].value) == verdict {
          if i > 0 { assert l[i] == l[1..][i - 1]; }
        }
      }
    }
  }

  /** The handler refuses the next five entries, one after the other. */
  ghost predicate RefusesFive<V>(s: seq<CacheNode<V>>, h: Handler<V>, calls: nat) {
    |s| == 5 && forall i :: 0 <= i < 5 ==> !h(calls + i, s[i].key, s[i].value)
  }

  lemma FiveComeRound<V>(s: seq<CacheNode<V>>, max: nat, h: Handler<V>, calls: nat)
    requires RefusesFive(s, h, calls) && |s| >= max
    ensures Evict(s, max, Some(h), 0, calls) == Kept(s, calls + 5)
  {
    var t1 := [s[1], s[2], s[3], s[4], s[0]];
    var t2 := [s[2], s[3], s[4], s[0], s[1]];
    var t3 := [s[3], s[4], s[0], s[1], s[2]];
    var t4 := [s[4], s[0], s[1], s[2], s[3]];
    assert s[1..] + [s[0]] == t1 && t1[1..] + [t1[0]] == t2 && t2[1..] + [t2[0]] == t3;
    assert t3[1..] + [t3[0]] == t4 && t4[1..] + [t4[0]] == s;
    assert !h(calls + 0, s[0].key, s[0].value);
    assert Evict(s, max, Some(h), 0, calls) == Evict(t1, max, Some(h), 1, calls + 1);
    assert Evict(t1, max, Some(h), 1, calls + 1) == Evict(t2, max, Some(h), 2, calls + 2);
    assert Evict(t2, max, Some(h), 2, calls + 2) == Evict(t3, max, Some(h), 3, calls + 3);
    assert Evict(t3, max, Some(h), 3, calls + 3) == Evict(t4, max, Some(h), 4, calls + 4);
    assert Evict(t4, max, Some(h), 4, calls + 4) == Evict(s, max, Some(h), 5, calls + 5);
  }

  /**
   * With a handler a full cache comes out of the eviction as it went in only if it has five entries and all are
   * refused.
   */
  lemma UnchangedIfFull<V>(s: seq<CacheNode<V>>, max: nat, h: Handler<V>, calls: nat)
    requires s != [] && |s| >= max && DistinctKeys(s)
    requires Left(Evict(s, max, Some(h), 0, calls)) == s && Evict(s, max, Some(h), 0, calls).Kept?
    ensures RefusesFive(s, h, calls)
  {
    EvictGoesAlong(s, max, h, 0, calls);
    var e := Evict(s, max, Some(h), 0, calls);
    var r := Refusals(s, max, Some(h), 0, calls);
    var v := e.calls - calls;
    AllJudged((s + r)[..v], h, calls, false);
    hide Evict, Evicted, Refusals, Judged;
    assert |r| == v == 5;
    RoundAndRound(s, r, 5);
    assert e.rest[0] == (s + r)[5] == s[Around(5, |s|)];
    assert Around(5, |s|) == 0;
    FiveOrOne(|s|);
    if |s| == 5 {
      assert (s + r)[..5] == s;
    } else {
      AloneIsLost(s, max, h, calls);
    }
  }

  lemma FiveOrOne(n: nat)
    requires n > 0 && Around(5, n) == 0
    ensures n == 5 || n == 1
  {
    assert Around(5, 2) == Around(3, 2) == Around(1, 2) == 1;
    assert Around(5, 3) == Around(2, 3) == 2;
    assert Around(5, 4) == Around(1, 4) == 1;
  }

  lemma AloneIsLost<V>(s: seq<CacheNode<V>>, max: nat, h: Handler<V>, calls: nat)
    requires |s| == 1 && |s| >= max
    ensures !(Evict(s, max, Some(h), 0, calls).Kept? && Left(Evict(s, max, Some(h), 0, calls)) == s)
  {
  }

  /**
   * With a handler an insertion leaves the entries as they are, and so refuses a key that is there at no cost, exactly
   * if there is room, or if there are five entries and the handler refuses them all.
   */
  lemma UnchangedWithHandlerIff<V>(s: seq<CacheNode<V>>, max: nat, h: Handler<V>, calls: nat)
    requires s != [] && DistinctKeys(s)
    ensures (Evict(s, max, Some(h), 0, calls).Kept? && Left(Evict(s, max, Some(h), 0, calls)) == s)
        <==> |s| < max || RefusesFive(s, h, calls)
  {
    if |s| >= max {
      if Evict(s, max, Some(h), 0, calls).Kept? && Left(Evict(s, max, Some(h), 0, calls)) == s {
        UnchangedIfFull(s, max, h, calls);
      }
      if RefusesFive(s, h, calls) { FiveComeRound(s, max, h, calls); }
    }
  }
}
