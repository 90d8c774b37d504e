/** The least-recently-used cache: the linked queue of its entries and an index into it. */
module LruCacheModel {
  import opened OrderedKeys
  import opened QueueModel
  import opened LruSpec
  import opened LruRuns

  class LruCache<V> {
    const q: TSQueue<CacheNode<V>>
    var keyMap: map<int, QNode<CacheNode<V>>>      // weak pointers into the queue
    var m_cleanupHandler: Option<Handler<V>>
    var calls: nat                                 // how often the handler was called

    /** The index has every key of the list, with its own node; its other keys name destroyed nodes. */
    ghost predicate Indexed()
      reads this`keyMap, q, q.nodes
    {
      && (forall k :: k in keyMap ==> (keyMap[k] in q.nodes && keyMap[k].data.key == k) || keyMap[k] in q.dead)
      && (forall n :: n in q.nodes ==> n.data.key in keyMap && keyMap[n.data.key] == n)
    }

    /** The list is sound.  The queue may count entries that it lost, and the index may still have their keys. */
    ghost predicate Intact()
      reads this`keyMap, q, q.nodes, q.dead
    {
      q.Sound() && Indexed() && q.length >= |q.nodes|
    }

    /** How many entries the queue counts that it does not have. */
    ghost function Extra(): int
      reads q
    {
      q.length - |q.nodes|
    }

    /** The keys of the index that name destroyed nodes. */
    ghost function Stale(): set<int>
      reads this`keyMap, q
    {
      set k | k in keyMap && keyMap[k] in q.dead
    }

    /** Nothing was ever lost, or all traces of it are gone. */
    ghost predicate Valid()
      reads this`keyMap, q, q.nodes, q.dead
    {
      Intact() && Extra() == 0 && Stale() == {}
    }

    /** The list was lost to the node n, which owns itself: nothing else that the index names is alive. */
    ghost predicate LostTo(n: QNode<CacheNode<V>>)
      reads this`keyMap, q, n, q.dead
    {
      q.Lost(n) && forall k :: k in keyMap ==> keyMap[k] in q.dead || (keyMap[k] == n && k == n.data.key)
    }

    ghost predicate Stray()
      reads this`keyMap, q, q.tail, q.dead
    {
      q.tail != null && LostTo(q.tail)
    }

    /** Every cache is in one of the two states, in only one of them, and the head tells whether there is a list. */
    lemma IntactOrStray()
      ensures Intact() ==> !Stray()
      ensures Intact() ==> |Entries()| == |q.nodes| && Extra() >= 0 && (q.head == null <==> q.nodes == [])
      ensures Stray() ==> q.head == null && q.nodes == []
      ensures Intact() ==> q.LiveTail() == {}
      ensures Stray() ==> q.LiveTail() == {q.tail}
    {
    }

    ghost function Entries(): (s: seq<CacheNode<V>>)
      reads q, q.nodes
      ensures |s| == |q.nodes|
    {
      q.Contents()
    }

    ghost function State(): CacheState<V>
      reads q, q.nodes
    {
      CacheState(Entries(), q.max_size)
    }

    /** The keys of the list are distinct, and with the stale ones they are the keys of the index. */
    lemma KeysOfIndex()
      requires Intact()
      ensures DistinctKeys(Entries()) && Keys(Entries()) + Stale() == keyMap.Keys && Keys(Entries()) !! Stale()
    {
      var s := Entries();
      forall i, j | 0 <= i < j < |s| ensures s[i].key != s[j].key {
        assert q.nodes[i] in q.nodes && q.nodes[j] in q.nodes;
      }
      forall k | k in keyMap.Keys && k !in Stale() ensures k in Keys(s) {
        var i :| 0 <= i < |q.nodes| && q.nodes[i] == keyMap[k];
        assert s[i] in s;
      }
      forall k | k in Keys(s) ensures k in keyMap.Keys && k !in Stale() {
        var e :| e in s && e.key == k;
        var i :| 0 <= i < |s| && s[i] == e;
        assert q.nodes[i] in q.nodes;
      }
    }

    constructor ()
      ensures Valid() && State() == CacheState([], 0xFFFF_FFFF_FFFF_FFFF)
      ensures m_cleanupHandler == None && calls == 0
    {
      q := new TSQueue();
      keyMap := map[];
      m_cleanupHandler := None;
      calls := 0;
    }

    /** empty_cache.  It removes every trace of lost entries, unless the tail keeps itself alive. */
    method EmptyCache()
      requires Intact() || Stray()
      modifies this`keyMap, q`head, q`length, q`nodes, q`dead, q.nodes`owners
      ensures q.max_size == old(q.max_size) && keyMap == map[] && q.length == 0
      ensures old(Intact()) ==> Valid() && State() == Step(old(State()), Empty)
      ensures old(Stray()) ==> Stray() && q.tail == old(q.tail)
    {
      IntactOrStray();
      keyMap := map[];
      q.DeleteAll();
    }

    method SetMaxSize(size: nat)
      modifies q`max_size
      ensures q.max_size == size && Entries() == old(Entries())
      ensures (Intact() <==> old(Intact())) && (Stray() <==> old(Stray()))
    {
      q.SetMaxSize(size);
    }

    method SetCleanupHandler(handler: Option<Handler<V>>)
      modifies this`m_cleanupHandler
      ensures m_cleanupHandler == handler && State() == old(State())
      ensures (Intact() <==> old(Intact())) && (Stray() <==> old(Stray()))
    {
      m_cleanupHandler := handler;
    }

    /** Moves a node that the caller holds behind all others.  A node that is its own neighbour lets go of itself. */
    method PushToBack(node: QNode<CacheNode<V>>, ghost i: nat) returns (moved: bool)
      requires (q.Wired(node) && i < |q.nodes| && q.nodes[i] == node) || q.SelfLinked(node, 2)
      modifies q`head, q`tail, q`nodes, q.nodes`prev, q.nodes`next, q.nodes`owners, node`prev, node`next, node`owners
      ensures node.owners > 0
      ensures old(q.nodes) != [] ==> q.Wired(node) && q.nodes == Touch(old(q.nodes), i)
      ensures old(q.nodes) != [] ==> (moved <==> i < |q.nodes| - 1)
      ensures old(q.nodes) == [] ==> q.nodes == [] && q.head == null && q.tail == node && LetGo(node)
    {
      assert i < |q.nodes| - 1 ==> node.prev == q.nodes[i + 1];
      if node.prev == null {
        TouchLast(q.nodes);
        return false;
      }
      Unlink(node, i);
      Append(node);
      return true;
    }

    /** Nothing but the caller's pointer owns the node, and the node owns nothing. */
    ghost predicate LetGo(node: QNode<CacheNode<V>>)
      reads node
    {
      node.owners == 1 && node.prev == null
    }

    /** The neighbours of a node are linked to each other; the node keeps its own links. */
    method Unlink(node: QNode<CacheNode<V>>, ghost i: nat)
      requires (q.Wired(node) && i < |q.nodes| - 1 && q.nodes[i] == node) || q.SelfLinked(node, 2)
      modifies q`head, q`nodes, q.nodes`prev, q.nodes`next, q.nodes`owners, node`prev, node`next, node`owners
      ensures old(q.nodes) != [] ==> q.nodes == Without(old(q.nodes), i) && node !in q.nodes && node.owners == 1
      ensures old(q.nodes) != [] ==> node.prev == old(node.prev) && node.prev in q.nodes && q.Wired(node.prev)
      ensures old(q.nodes) == [] ==> q.SelfLinked(node, 2)
    {
      hide TSQueue.WiredAs, Distinct, Spliced;
      ghost var s := q.nodes;
      LinkNeighbours(node, i);
      if s != [] {
        Bypassed(s, i);
        q.nodes := Without(s, i);
      }
    }

    /** The pointer updates: the two neighbours now name each other, and one owner of the node is gone. */
    method LinkNeighbours(node: QNode<CacheNode<V>>, ghost i: nat)
      requires (q.Wired(node) && i < |q.nodes| - 1 && q.nodes[i] == node) || q.SelfLinked(node, 2)
      modifies q`head, q.nodes`prev, q.nodes`next, q.nodes`owners, node`prev, node`next, node`owners
      ensures node.prev == old(node.prev)
      ensures q.nodes != [] ==> Spliced(q.nodes, i) && node.owners == 1 && node.prev == q.nodes[i + 1]
      ensures q.nodes == [] ==> q.SelfLinked(node, 2)
    {
      ghost var s := q.nodes;
      var behind := node.prev;
      assert s != [] ==> behind == s[i + 1];
      assert s != [] ==> if i > 0 then node.next == s[i - 1] else q.Expired(node.next);
      var next := Lock(node.next);
      if next != null {
        next.prev := behind;
      } else {
        q.head := behind;
      }
      behind.owners := behind.owners + 1;
      node.owners := node.owners - 1;
      behind.next := node.next;
    }

    /** The neighbours of s[i] are linked to each other; the rest is as in a list. */
    ghost predicate Spliced(s: seq<QNode<CacheNode<V>>>, i: nat)
      reads q`head, q`tail, q`dead, s, q.dead
    {
      && i < |s| - 1 && Distinct(s) && q.head == (if i > 0 then s[0] else s[1])
      && (forall k :: 0 <= k < |s| ==> s[k] !in q.dead)
      && (forall k {:trigger s[k].owners} :: 0 <= k < |s| && k != i ==> s[k].owners == if k == i + 1 then 2 else 1)
      && (forall k {:trigger s[k].prev} :: 0 <= k < |s| - 1 && k != i - 1 ==> s[k].prev == s[k + 1])
      && (i > 0 ==> s[i - 1].prev == s[i + 1] && s[i + 1].next == s[i - 1] && q.Expired(s[0].next))
      && (i == 0 ==> q.Expired(s[1].next))
      && (forall k {:trigger s[k].next} :: 1 <= k < |s| && k != i + 1 ==> s[k].next == s[k - 1])
      && s[|s| - 1].prev == null && q.tail == s[|s| - 1] && (forall d :: d in q.dead ==> d.owners == 0)
    }

    /** With the neighbours of s[i] linked to each other, the list is s without s[i]. */
    lemma Bypassed(s: seq<QNode<CacheNode<V>>>, i: nat)
      requires Spliced(s, i)
      ensures q.WiredAs(Without(s, i), s[i + 1]) && s[i] !in Without(s, i) && s[i + 1] in Without(s, i)
    {
      WithoutPlaces(s, i);
      assert Without(s, i)[i] == s[i + 1];
    }

    /** An unlinked node becomes the tail, and lets go of the node it was in front of. */
    method Append(node: QNode<CacheNode<V>>)
      requires (node.prev != null && node.prev in q.nodes && q.Wired(node.prev)
                && node !in q.nodes && node !in q.dead && node.owners == 1)
               || q.SelfLinked(node, 2)
      modifies q`tail, q`nodes, q.nodes`prev, q.nodes`owners, node`next, node`prev, node`owners
      ensures old(q.nodes) != [] ==> q.nodes == old(q.nodes) + [node] && q.Wired(node)
      ensures old(q.nodes) == [] ==> q.nodes == [] && q.tail == node && LetGo(node)
    {
      node.next := q.tail;
      var t := Lock(q.tail);
      var displaced := t.prev;
      t.prev := node;
      node.owners := node.owners + 1;
      if displaced != null { displaced.owners := displaced.owners - 1; }
      q.tail := node;
      var behind := node.prev;
      node.prev := null;
      behind.owners := behind.owners - 1;
      if q.nodes != [] {
        Appended(q.nodes, node);
        q.nodes := q.nodes + [node];
      }
    }

    /** With the old tail and the node linked to each other, the node ends the list. */
    lemma Appended(s: seq<QNode<CacheNode<V>>>, node: QNode<CacheNode<V>>)
      requires s != [] && Distinct(s) && node !in s && node !in q.dead && q.head == s[0] && q.tail == node
      requires forall k :: 0 <= k < |s| ==> s[k] !in q.dead && s[k].owners == 1
      requires forall k :: 0 <= k < |s| - 1 ==> s[k].prev == s[k + 1]
      requires forall k :: 1 <= k < |s| ==> s[k].next == s[k - 1]
      requires s[|s| - 1].prev == node && node.next == s[|s| - 1] && node.prev == null && node.owners == 2
      requires q.Expired(s[0].next) && forall d :: d in q.dead ==> d.owners == 0
      ensures q.WiredAs(s + [node], node)
    {
    }

    /** The place of a node of the list is where its key is found. */
    lemma PlaceOf(node: QNode<CacheNode<V>>) returns (i: nat)
      requires Intact() && node in q.nodes
      ensures i < |q.nodes| && q.nodes[i] == node && Find(Entries(), node.data.key) == Some(i)
      ensures Entries()[i] == node.data && node.data in Entries()
    {
      KeysOfIndex();
      i :| 0 <= i < |q.nodes| && q.nodes[i] == node;
      FindAt(Entries(), i);
      assert Entries()[i] in Entries();
    }

    /** A node is locked, read, moved to the back and let go.  A node that owned itself does not survive that. */
    method UseNode(node: QNode<CacheNode<V>>, ghost i: nat) returns (val: V)
      requires (Intact() && i < |q.nodes| && q.nodes[i] == node) || q.Lost(node)
      modifies q`head, q`tail, q`nodes, q`dead, q.nodes`prev, q.nodes`next, q.nodes`owners
      modifies node`prev, node`next, node`owners
      ensures val == node.data.value
      ensures old(q.nodes) != [] ==> Intact() && Entries() == Touch(old(Entries()), i) && q.dead == old(q.dead)
      ensures old(q.nodes) == [] ==> q.nodes == [] && q.head == null && q.tail == node
      ensures old(q.nodes) == [] ==> q.dead == old(q.dead) + {node} && forall d :: d in q.dead ==> d.owners == 0
    {
      hide TSQueue.WiredAs, Distinct, Touch, Without;
      ghost var s, e := q.nodes, Entries();
      q.Hold(node);
      val := node.data.value;
      var moved := PushToBack(node, i);
      if s != [] { TouchedContents(s, e, i); }
      q.Settle(node);
      if s != [] { TouchMembers(s, i); } else { q.dead := q.dead + {node}; }
    }

    lemma TouchedContents(s: seq<QNode<CacheNode<V>>>, e: seq<CacheNode<V>>, i: nat)
      requires i < |s| == |e| && q.nodes == Touch(s, i) && forall k :: 0 <= k < |s| ==> e[k] == s[k].data
      ensures q.Contents() == Touch(e, i) && s[i] in q.nodes
    {
      assert q.nodes[|s| - 1] == s[i];
    }

    /** On an intact cache every key of the index that is not stale names a node that is alive. */
    lemma LiveWhenIntact()
      ensures Intact() ==> Keys(Entries()) + Stale() == keyMap.Keys && Keys(Entries()) !! Stale()
      ensures Intact() ==> forall k :: k in keyMap ==>
        if k in Stale() then keyMap[k].owners == 0
        else keyMap[k].owners == 1 && keyMap[k] in q.nodes && keyMap[k].data.key == k
    {
      if Intact() {
        KeysOfIndex();
        forall k | k in keyMap && k !in Stale() ensures keyMap[k].owners == 1 && keyMap[k] in q.nodes {
          var i :| 0 <= i < |q.nodes| && q.nodes[i] == keyMap[k];
        }
      }
    }

    /** On a sound cache all of them are: the branches for destroyed nodes are not reached. */
    lemma LiveWhenValid()
      requires Valid()
      ensures Keys(Entries()) == keyMap.Keys
      ensures forall k :: k in keyMap ==> keyMap[k].owners == 1 && keyMap[k] in q.nodes && keyMap[k].data.key == k
    {
      LiveWhenIntact();
    }

    /** The list is empty and may grow again, but it is counted as count entries, and these keys are stale. */
    ghost predicate AllLost(keys: set<int>, count: int)
      reads this`keyMap, q, q.nodes, q.dead
    {
      Intact() && q.nodes == [] && keyMap.Keys == Stale() == keys && Extra() == count
    }

    lemma NothingLeft()
      ensures q.head == null && q.nodes == [] && q.Expired(q.tail) && (forall d :: d in q.dead ==> d.owners == 0)
              && (forall k :: k in keyMap ==> keyMap[k] in q.dead) ==>
        AllLost(keyMap.Keys, q.length)
    {
      if forall k :: k in keyMap ==> keyMap[k] in q.dead { assert Stale() == keyMap.Keys; }
    }

    /**
     * What get_value and get_lower_bound do when they have found a key in the index: a destroyed node makes them
     * forget the key that they were asked for, a live one is read and used.
     */
    method ReadFound(key: int, found: int, fallback: V) returns (ok: bool, val: V)
      requires (Intact() || Stray()) && found in keyMap && (key in keyMap ==> found == key)
      modifies this`keyMap, q`head, q`tail, q`nodes, q`dead, q.nodes`prev, q.nodes`next, q.nodes`owners
      modifies q.LiveTail()`prev, q.LiveTail()`next, q.LiveTail()`owners
      ensures ok <==> found !in old(Stale())
      ensures keyMap == if ok then old(keyMap) else old(keyMap) - {key}
      ensures old(Intact()) ==> Intact() && Extra() == old(Extra())
      ensures old(Intact()) ==> Stale() == old(Stale()) - (if ok then {} else {key})
      ensures old(Intact()) && ok ==> found in old(Keys(Entries())) && CacheNode(found, val) in old(Entries())
      ensures old(Intact()) && ok ==> Entries() == Touch(old(Entries()), old(Find(Entries(), found)).value)
      ensures old(Intact()) && !ok ==> found !in old(Keys(Entries())) && Entries() == old(Entries())
      ensures old(Stray()) && ok ==> val == old(q.tail.data.value) && AllLost(old(keyMap).Keys, old(q.length))
      ensures old(Stray()) && !ok ==> Stray() && q.tail == old(q.tail)
      ensures !ok ==> val == fallback
    {
      LiveWhenIntact();
      IntactOrStray();
      hide Touch, Without, Find, DistinctKeys, Keys, QueueModel.Distinct;
      var node := Lock(keyMap[found]);
      if node == null {
        keyMap := keyMap - {key};
        return false, fallback;
      }
      ghost var i := 0;
      if q.nodes != [] { i := PlaceOf(node); }
      val := UseNode(node, i);
      ok := true;
      NothingLeft();
    }

    /** get_value.  A stale key is forgotten.  When the list was lost, the one entry that is still alive is found once
        and does not survive that. */
    method GetValue(key: int, fallback: V) returns (ok: bool, val: V)
      requires Intact() || Stray()
      modifies this`keyMap, q`head, q`tail, q`nodes, q`dead, q.nodes`prev, q.nodes`next, q.nodes`owners
      modifies q.LiveTail()`prev, q.LiveTail()`next, q.LiveTail()`owners
      ensures old(Intact()) ==> Intact() && State() == Step(old(State()), Get(key))
      ensures old(Intact()) ==> (ok <==> Used(old(State()), Get(key)).Some?)
      ensures old(Intact()) && ok ==> CacheNode(key, val) in old(Entries())
      ensures old(Intact()) ==> Extra() == old(Extra()) && Stale() == old(Stale()) - {key}
      ensures old(Stray()) ==> (ok <==> key in old(keyMap) && key !in old(Stale()))
      ensures old(Stray()) && ok ==> val == old(q.tail.data.value) && AllLost(old(keyMap).Keys, old(q.length))
      ensures old(Stray()) && !ok ==> Stray() && q.tail == old(q.tail) && keyMap == old(keyMap) - {key}
      ensures !ok ==> val == fallback
    {
      hide Touch, Find, Keys, Intact, Stray, AllLost;
      LiveWhenIntact();
      if key !in keyMap { return false, fallback; }
      ok, val := ReadFound(key, key, fallback);
    }

    /** get_lower_bound.  When the key it finds is stale it answers false, and forgets the key it was asked for and not
        the one that it found. */
    method GetLowerBound(key: int, fallback: V) returns (ok: bool, val: V)
      requires Intact() || Stray()
      modifies this`keyMap, q`head, q`tail, q`nodes, q`dead, q.nodes`prev, q.nodes`next, q.nodes`owners
      modifies q.LiveTail()`prev, q.LiveTail()`next, q.LiveTail()`owners
      ensures var found := old(LowerBound(keyMap.Keys, key)); ok <==> found.Some? && found.value !in old(Stale())
      ensures keyMap == if ok then old(keyMap) else old(keyMap) - {key}
      ensures old(Intact()) ==> Intact() && Extra() == old(Extra())
      ensures old(Intact()) ==> Stale() == old(Stale()) - (if ok then {} else {key})
      ensures old(Intact()) && ok ==> var k := old(LowerBound(keyMap.Keys, key)).value;
        CacheNode(k, val) in old(Entries()) && State() == Step(old(State()), Get(k))
      ensures old(Intact()) && !ok ==> State() == old(State())
      ensures old(Intact() && Stale() == {}) ==>
        State() == Step(old(State()), Lower(key)) && (ok <==> Used(old(State()), Lower(key)).Some?)
      ensures old(Stray()) && ok ==> val == old(q.tail.data.value) && AllLost(old(keyMap).Keys, old(q.length))
      ensures old(Stray()) && !ok ==> Stray() && q.tail == old(q.tail)
      ensures !ok ==> val == fallback
    {
      hide Touch, Find, Keys, Intact, Stray, AllLost;
      LiveWhenIntact();
      var found := LowerBound(keyMap.Keys, key);
      if found.None? { return false, fallback; }
      ok, val := ReadFound(key, found.value, fallback);
    }

    // ---- insertion ---------------------------------------------------------------

    /** head moves one node towards the tail; the old head is now held by the caller alone. */
    method TakeHead() returns (temp: QNode<CacheNode<V>>)
      requires q.Sound() && q.nodes != [] && q.length > 0
      modifies q`head, q`length, q`nodes, q.nodes`prev, q.nodes`next, q.nodes`owners
      ensures temp == old(q.nodes)[0] && q.nodes == old(q.nodes)[1..] && q.length == old(q.length) - 1
      ensures q.Wired(null) && (q.nodes == [] ==> q.tail == temp)
      ensures temp !in q.nodes && temp !in q.dead && temp.owners == 1 && temp.prev == null && q.Expired(temp.next)
    {
      temp := q.head;
      ghost var s := q.nodes;
      assert temp.prev == if |s| > 1 then s[1] else null;
      q.head := temp.prev;
      temp.prev := null;
      if q.head != null { q.head.next := null; }
      q.length := q.length - 1;
      q.nodes := s[1..];
      assert forall k {:trigger q.nodes[k]} :: 0 <= k < |q.nodes| ==> q.nodes[k] == s[k + 1];
    }

    /** One pass of the eviction loop over a list that is not empty. */
    method EvictHead() returns (refused: bool)
      requires Intact() && q.nodes != []
      modifies this`keyMap, this`calls, q`head, q`tail, q`length, q`nodes, q`dead
      modifies q.nodes`prev, q.nodes`next, q.nodes`owners
      ensures q.max_size == old(q.max_size) && m_cleanupHandler == old(m_cleanupHandler)
      ensures calls == old(calls) + if m_cleanupHandler.Some? then 1 else 0
      ensures var e := old(Entries())[0];
              refused <==> m_cleanupHandler.Some? && !m_cleanupHandler.value(old(calls), e.key, e.value)
      ensures Extra() == old(Extra()) + (if refused && |old(q.nodes)| == 1 then 1 else 0) && Stale() == old(Stale())
      ensures !refused ==> Intact() && Entries() == old(Entries())[1..]
      ensures refused && |old(q.nodes)| > 1 ==> Intact() && Entries() == old(Entries())[1..] + [old(Entries())[0]]
      ensures refused && |old(q.nodes)| == 1 ==> StrayWith(old(Entries())[0]) && q.tail == old(q.nodes)[0]
      ensures forall n :: n in q.nodes ==> n in old(q.nodes)
    {
      hide TSQueue.WiredAs, Distinct, TSQueue.Lost, Indexed;
      var temp := TakeEntry();
      if m_cleanupHandler.Some? {
        var boot := m_cleanupHandler.value(calls, temp.data.key, temp.data.value);
        calls := calls + 1;
        if !boot {
          Resubmit(temp);
          return true;
        }
      }
      Discard(temp);
      return false;
    }

    /** The list was lost to this entry, and its key is the only one in the index that is not stale. */
    ghost predicate StrayWith(e: CacheNode<V>)
      reads this`keyMap, q, q.tail, q.dead
    {
      Stray() && q.tail.data == e && e.key !in Stale() && keyMap.Keys == Stale() + {e.key}
    }

    /** The first entry leaves the list and the index; the caller alone holds its node. */
    method TakeEntry() returns (temp: QNode<CacheNode<V>>)
      requires Intact() && q.nodes != []
      modifies this`keyMap, q`head, q`length, q`nodes, q.nodes`prev, q.nodes`next, q.nodes`owners
      ensures temp == old(q.nodes)[0] && q.nodes == old(q.nodes)[1..] && Entries() == old(Entries())[1..]
      ensures Taken(temp) && Extra() == old(Extra()) && Stale() == old(Stale())
    {
      hide TSQueue.WiredAs, TSQueue.Lost;
      ghost var m, s := keyMap, q.nodes;
      NodesAlive();
      temp := TakeHead();
      keyMap := keyMap - {temp.data.key};
      IndexShrinks(m, s, temp);
    }

    /** The first node left the list that m indexed, and its key the index. */
    lemma IndexShrinks(m: map<int, QNode<CacheNode<V>>>, s: seq<QNode<CacheNode<V>>>, temp: QNode<CacheNode<V>>)
      requires s != [] && temp == s[0] && q.nodes == s[1..] && temp !in q.nodes && temp !in q.dead
      requires keyMap == m - {temp.data.key}
      requires forall k :: k in m ==> (m[k] in s && m[k].data.key == k) || m[k] in q.dead
      requires forall n :: n in s ==> n.data.key in m && m[n.data.key] == n
      ensures Indexed() && Stale() == set k | k in m && m[k] in q.dead
    {
      forall n | n in q.nodes ensures n.data.key in keyMap && keyMap[n.data.key] == n {
        assert n in s;
      }
      forall k | k in keyMap ensures (keyMap[k] in q.nodes && keyMap[k].data.key == k) || keyMap[k] in q.dead {
        if m[k] in s { assert m[k] != temp; assert forall n :: n in s ==> n == s[0] || n in s[1..]; }
      }
    }

    lemma NodesAlive()
      requires q.Sound()
      ensures forall n :: n in q.nodes ==> n !in q.dead
    {
    }

    ghost predicate Taken(temp: QNode<CacheNode<V>>)
      reads this`keyMap, q, q.nodes, q.dead, temp
    {
      && q.Wired(null) && (q.nodes == [] ==> q.tail == temp) && Indexed() && q.length >= |q.nodes|
      && temp.data.key !in keyMap && temp !in q.nodes && temp !in q.dead
      && temp.owners == 1 && temp.prev == null && q.Expired(temp.next)
    }

    /** The local pointer to an entry that left the list goes out of scope. */
    method Discard(temp: QNode<CacheNode<V>>)
      requires Taken(temp)
      modifies temp`owners, q`dead
      ensures Intact() && Entries() == old(Entries()) && Stale() == old(Stale())
    {
      hide Find, Keys, Touch;
      Release(temp, [temp]);
      assert Indexed() && q.Wired(null);
      assert forall k :: k in keyMap ==> keyMap[k] != temp;
      q.dead := q.dead + {temp};
    }

    /** A node was appended to the list m indexed, and its key to the index. */
    lemma IndexGrows(m: map<int, QNode<CacheNode<V>>>, s: seq<QNode<CacheNode<V>>>, temp: QNode<CacheNode<V>>)
      requires temp.data.key !in m && keyMap == m[temp.data.key := temp] && q.nodes == s + [temp] && temp !in q.dead
      requires forall k :: k in m ==> (m[k] in s && m[k].data.key == k) || m[k] in q.dead
      requires forall n :: n in s ==> n.data.key in m && m[n.data.key] == n
      ensures Indexed() && Stale() == set k | k in m && m[k] in q.dead
    {
    }

    /** A refused entry goes back into the index and behind the tail.  When it was the only
        entry, the tail still names it, and the list loses it. */
    method Resubmit(temp: QNode<CacheNode<V>>)
      requires Taken(temp)
      modifies this`keyMap, q`head, q`tail, q`length, q`nodes, q`dead
      modifies q.nodes`prev, q.LiveTail()`prev, q.LiveTail()`owners
      modifies temp`prev, temp`next, temp`owners
      ensures q.length == old(q.length) + 1 && Stale() == old(Stale())
      ensures old(q.nodes) != [] ==> Intact() && q.nodes == old(q.nodes) + [temp]
      ensures old(q.nodes) != [] ==> Entries() == old(Entries()) + [temp.data]
      ensures old(q.nodes) == [] ==> StrayWith(temp.data) && q.tail == temp && q.nodes == []
    {
      hide TSQueue.WiredAs, Distinct;
      ghost var m, s := keyMap, q.nodes;
      keyMap := keyMap[temp.data.key := temp];
      assert s == [] ==> forall k :: k in m ==> m[k] in q.dead;
      q.EnqueueAndLetGo(temp);
      if s != [] {
        IndexGrows(m, s, temp);
      } else {
        assert q.dead == old(q.dead) && keyMap.Keys == m.Keys + {temp.data.key};
        assert forall k :: k in m ==> keyMap[k] == m[k];
        assert forall k :: k in m <==> k in old(Stale());
        assert forall k :: k in m <==> k in Stale();
      }
    }

    /** The limit on the entries that are there, when others are counted that are not. */
    ghost function Limit(): nat
      reads q
    {
      if q.max_size > Extra() then q.max_size - Extra() else 0
    }

    /** What the eviction loop makes of the entries. */
    ghost function Evicting(s: seq<CacheNode<V>>, count: nat, n: nat): Eviction<V>
      requires count <= 5 && Extra() >= 0
      reads this`m_cleanupHandler, q
    {
      Evict(s, Limit(), m_cleanupHandler, count, n)
    }

    /** The body of the loop of add_to_cache: one entry is evicted, or refused and counted. */
    method EvictOnce(count: nat, ghost goal: Eviction<V>) returns (now: nat, ghost lost: bool)
      requires Intact() && q.nodes != [] && q.length >= q.max_size && count < 5
      requires goal == Evicting(Entries(), count, calls)
      modifies this`keyMap, this`calls, q`head, q`tail, q`length, q`nodes, q`dead
      modifies q.nodes`prev, q.nodes`next, q.nodes`owners
      ensures q.max_size == old(q.max_size) && m_cleanupHandler == old(m_cleanupHandler)
      ensures now <= 5 && q.length + 5 - now < old(q.length) + 5 - count
      ensures Stale() == old(Stale()) && Extra() == old(Extra()) + if lost then 1 else 0
      ensures lost ==> q.tail != null && Stray() && StrayWith(q.tail.data) && q.tail in old(q.nodes)
      ensures lost ==> goal == Orphan(q.tail.data, calls)
      ensures !lost ==> Intact() && goal == Evicting(Entries(), now, calls)
      ensures forall n :: n in q.nodes ==> n in old(q.nodes)
    {
      hide TSQueue.WiredAs, Distinct, Indexed;
      IntactOrStray();
      ghost var n := |q.nodes|;
      var refused := EvictHead();
      lost := refused && n == 1;
      now := if refused then count + 1 else count;
      IntactOrStray();
    }

    /** The loop of add_to_cache.  On a cache that lost its list it does nothing. */
    method MakeRoom()
      requires Intact() || Stray()
      modifies this`keyMap, this`calls, q`head, q`tail, q`length, q`nodes, q`dead
      modifies q.nodes`prev, q.nodes`next, q.nodes`owners
      ensures q.max_size == old(q.max_size) && m_cleanupHandler == old(m_cleanupHandler)
      ensures old(Intact()) ==> Stale() == old(Stale())
      ensures old(Intact()) ==>
        match old(Evicting(Entries(), 0, calls))
        case Kept(rest, n) => Intact() && Entries() == rest && calls == n && Extra() == old(Extra())
        case Orphan(entry, n) =>
          StrayWith(entry) && calls == n && Extra() == old(Extra()) + 1 && q.tail in old(q.nodes)
      ensures old(Intact()) && Intact() ==> |Entries()| >= Room(|old(Entries())|, old(Limit()))
      ensures old(Stray()) ==> unchanged(this) && unchanged(q)
      ensures forall n :: n in q.nodes ==> n in old(q.nodes)
    {
      hide TSQueue.WiredAs, Distinct, Indexed, Room, Intact, Stray, LostTo, Stale;
      var count := 0;
      IntactOrStray();
      EvictLeavesRoomOnly(Entries(), Limit(), m_cleanupHandler, 0, calls);
      ghost var lost := false;
      ghost var goal := if Intact() then Evicting(Entries(), 0, calls) else Kept([], 0);
      while q.length >= q.max_size && count < 5
        invariant 0 <= count <= 5 && q.max_size == old(q.max_size) && m_cleanupHandler == old(m_cleanupHandler)
        invariant forall n :: n in q.nodes ==> n in old(q.nodes)
        invariant old(Stray()) ==> unchanged(this) && unchanged(q)
        invariant old(Intact()) ==> Stale() == old(Stale()) && Extra() == old(Extra()) + if lost then 1 else 0
        invariant old(Intact()) && lost ==> q.tail != null && Stray() && StrayWith(q.tail.data)
        invariant old(Intact()) && lost ==> q.tail in old(q.nodes) && goal == Orphan(q.tail.data, calls)
        invariant old(Intact()) && !lost ==> Intact() && Evicting(Entries(), count, calls) == goal
        decreases q.length + 5 - count
      {
        IntactOrStray();
        if q.head == null { break; }
        assert forall k :: 0 <= k < |q.nodes| ==> q.nodes[k] in old(q.nodes);
        hide Evict;
        count, lost := EvictOnce(count, goal);
      }
      IntactOrStray();
    }

    /** The rest of add_to_cache: the new entry goes into the index and behind the tail,
        unless its key is there. */
    method Insert(key: int, value: V) returns (ok: bool)
      requires Intact() || Stray()
      modifies this`keyMap, q`head, q`tail, q`length, q`nodes, q`dead
      modifies q.nodes`prev, q.LiveTail()`prev, q.LiveTail()`owners
      ensures ok <==> key !in old(keyMap)
      ensures !ok ==> keyMap == old(keyMap) && q.length == old(q.length) && q.tail == old(q.tail)
      ensures old(Intact()) ==> Intact() && Extra() == old(Extra()) && Stale() == old(Stale())
      ensures old(Intact()) ==> Entries() == old(Entries()) + if ok then [CacheNode(key, value)] else []
      ensures old(Stray()) ==> if ok then AllLost(old(keyMap).Keys + {key}, old(q.length) + 1) else Stray()
      ensures old(Stray()) && !ok ==> Stale() == old(Stale()) && Extra() == old(Extra())
      ensures forall n :: n in q.nodes ==> n in old(q.nodes) || fresh(n)
    {
      hide TSQueue.WiredAs, Distinct;
      IntactOrStray();
      var temp := new QNode(CacheNode(key, value));
      if key in keyMap { return false; }
      Link(temp);
      return true;
    }

    method Link(temp: QNode<CacheNode<V>>)
      requires Intact() || Stray()
      requires temp.data.key !in keyMap && temp !in q.nodes && temp !in q.dead && temp != q.tail
      requires temp.owners == 1 && temp.prev == null && temp.next == null
      modifies this`keyMap, q`head, q`tail, q`length, q`nodes, q`dead
      modifies q.nodes`prev, q.LiveTail()`prev, q.LiveTail()`owners
      modifies temp`prev, temp`next, temp`owners
      ensures q.nodes == old(q.nodes) + [temp] || q.nodes == []
      ensures old(Intact()) ==> Intact() && Extra() == old(Extra()) && Stale() == old(Stale())
      ensures old(Intact()) ==> Entries() == old(Entries()) + [temp.data]
      ensures old(Stray()) ==> AllLost(old(keyMap).Keys + {temp.data.key}, old(q.length) + 1)
    {
      hide TSQueue.WiredAs, Distinct, Find, Keys;
      ghost var m, s := keyMap, q.nodes;
      IntactOrStray();
      keyMap := keyMap[temp.data.key := temp];
      q.EnqueueAndLetGo(temp);
      assert keyMap.Keys == m.Keys + {temp.data.key};
      if old(Intact()) { IndexGrows(m, s, temp); } else { NothingLeft(); }
    }

    /** add_to_cache.  The entry is refused when its key survives the eviction or is stale; the eviction happens all the
        same.  When the loop loses the list and the new entry is linked behind the lost one, both are destroyed: the
        answer is true, the list is empty, both keys are stale, and the queue counts two entries more than it has. */
    method AddToCache(key: int, value: V) returns (ok: bool)
      requires Intact() || Stray()
      modifies this`keyMap, this`calls, q`head, q`tail, q`length, q`nodes, q`dead
      modifies q.nodes`prev, q.nodes`next, q.nodes`owners, q.LiveTail()`prev, q.LiveTail()`owners
      ensures q.max_size == old(q.max_size) && m_cleanupHandler == old(m_cleanupHandler)
      ensures old(Intact()) ==>
        match old(Evicting(Entries(), 0, calls))
        case Kept(rest, n) =>
          && Intact() && calls == n && Extra() == old(Extra()) && Stale() == old(Stale())
          && (ok <==> key !in Keys(rest) && key !in old(Stale()))
          && |rest| >= Room(|old(Entries())|, old(Limit()))
          && Entries() == if ok then rest + [CacheNode(key, value)] else rest
        case Orphan(entry, n) =>
          && calls == n && (ok <==> key != entry.key && key !in old(Stale()))
          && (ok ==> AllLost(old(Stale()) + {entry.key, key}, old(Extra()) + 2))
          && (!ok ==> StrayWith(entry) && Stale() == old(Stale()) && Extra() == old(Extra()) + 1)
      ensures old(Stray()) ==> calls == old(calls) && (ok <==> key !in old(keyMap))
      ensures old(Stray()) && ok ==> AllLost(old(keyMap).Keys + {key}, old(q.length) + 1)
      ensures old(Stray()) && !ok ==> Stray() && q.tail == old(q.tail)
      ensures old(Stray()) && !ok ==> keyMap == old(keyMap) && q.length == old(q.length)
      ensures forall n :: n in q.nodes ==> n in old(q.nodes) || fresh(n)
    {
      hide TSQueue.WiredAs, TSQueue.Sound, TSQueue.Wired, TSQueue.SelfLinked, TSQueue.Lost, Distinct, Evict;
      hide Indexed, Find, Keys, Intact, LostTo, Stray, Stale, DistinctKeys, AllLost, Limit, Room;
      IntactOrStray();
      ghost var goal := if Intact() then Evicting(Entries(), 0, calls) else Kept([], 0);
      MakeRoom();
      IntactOrStray();
      if Intact() { KeysOfIndex(); }
      assert forall k :: 0 <= k < |q.nodes| ==> q.nodes[k] in old(q.nodes);
      ghost var keys := keyMap.Keys;
      ok := Insert(key, value);
      if goal.Orphan? { assert keys + {key} == old(Stale()) + {goal.entry.key, key}; }
    }

    /** On a sound cache the limit is the one that was set. */
    lemma LimitWhenValid()
      requires Valid()
      ensures Limit() == q.max_size
    {
    }
  }

  /** Without a handler an insertion is the step that the runs are made of. */
  lemma AddIsStep<V>(s: seq<CacheNode<V>>, max: nat, key: int, value: V, calls: nat)
    ensures var e := Evict(s, max, None, 0, calls);
      && e.Kept?
      && Step(CacheState(s, max), Add(key, value)).entries
         == (if key in Keys(e.rest) then e.rest else e.rest + [CacheNode(key, value)])
      && (Used(CacheState(s, max), Add(key, value)).Some? <==> key !in Keys(e.rest))
  {
    EvictWithoutHandler(s, max, calls);
  }

  /**
   * An entry that was added with a true answer is found again exactly if there was a list and the insertion kept it.
   */
  method AddThenGet<V>(cache: LruCache<V>, key: int, value: V, fallback: V) returns (added: bool, found: bool, val: V)
    requires cache.Intact() || cache.Stray()
    modifies cache, cache.q, cache.q.nodes, cache.q.LiveTail()
    ensures added ==>
      (found <==> old(cache.Intact()) && old(cache.Intact() && cache.Evicting(cache.Entries(), 0, cache.calls).Kept?))
    ensures added && found ==> val == value
  {
    hide TSQueue.WiredAs, TSQueue.Sound, TSQueue.Wired, TSQueue.SelfLinked, QueueModel.Distinct, Evict, Touch, Find;
    hide LruCache.Indexed, LruCache.LostTo, LruCache.Stale, LruCache.Limit, LruCache.Intact, LruCache.Stray;
    cache.IntactOrStray();
    added := cache.AddToCache(key, value);
    found, val := false, fallback;
    if added {
      ghost var e := cache.Entries();
      cache.IntactOrStray();
      cache.KeysOfIndex();
      assert e != [] ==> e[|e| - 1] == CacheNode(key, value);
      assert forall k :: 0 <= k < |cache.q.nodes| ==>
        cache.q.nodes[k] in old(cache.q.nodes) || fresh(cache.q.nodes[k]);
      found, val := cache.GetValue(key, fallback);
    }
  }

  lemma {:induction false} FindAt<V>(s: seq<CacheNode<V>>, i: nat)
    requires i < |s| && DistinctKeys(s)
    ensures Find(s, s[i].key) == Some(i)
  {
    if i > 0 { FindAt(s[1..], i - 1); }
  }

  /** Moving an entry changes neither which entries there are nor how they are read. */
  lemma TouchMembers<T>(s: seq<T>, i: nat)
    requires i < |s|
    ensures forall x :: x in s <==> x in Touch(s, i)
  {
    var t := Touch(s, i);
    forall x | x in s ensures x in t {
      var k :| 0 <= k < |s| && s[k] == x;
      assert k != i ==> t[if k < i then k else k - 1] == x;
      assert t[|s| - 1] == s[i];
    }
  }
}
