/** The queue over an intrusive doubly linked list.

    `prev` (towards the tail) and `head` are owning pointers, `next` and `tail` are weak.
    `owners` is the use count of a node: every owning pointer that is set or dropped
    counts, and a node whose count reaches zero is destroyed, which drops its own `prev`.
    A weak pointer locks exactly when the count of its node is positive. */
module QueueModel {

  class QNode<T> {
    var data: T
    var next: QNode?<T>
    var prev: QNode?<T>
    var owners: nat

    /** A node held by the one pointer it is created into. */
    constructor (data: T)
      ensures this.data == data && next == null && prev == null && owners == 1
    {
      this.data := data;
      next := null;
      prev := null;
      owners := 1;
    }
  }

  /** weak_ptr::lock */
  function Lock<T>(w: QNode?<T>): (n: QNode?<T>)
    reads w
  {
    if w != null && w.owners > 0 then w else null
  }

  ghost predicate Distinct<T>(s: seq<T>) { forall i, j :: 0 <= i < j < |s| ==> s[i] != s[j] }

  /** Drops one owning pointer to n.  Each node of `chain` is owned by its predecessor
      alone, so the destruction runs through the whole chain and stops at the first node
      that has another owner. */
  method Release<T>(n: QNode<T>, ghost chain: seq<QNode<T>>)
    requires |chain| > 0 && chain[0] == n && Distinct(chain)
    requires forall i :: 0 <= i < |chain| ==> chain[i].owners == 1
    requires forall i :: 0 <= i < |chain| - 1 ==> chain[i].prev == chain[i + 1]
    requires var rest := chain[|chain| - 1].prev; rest != null ==> rest !in chain && rest.owners >= 2
    modifies chain`owners, {chain[|chain| - 1].prev}`owners
    ensures forall i :: 0 <= i < |chain| ==> chain[i].owners == 0
    ensures var rest := chain[|chain| - 1].prev; rest != null ==> rest.owners == old(rest.owners) - 1
  {
    var cur: QNode?<T> := n;
    ghost var i := 0;
    ghost var rest := chain[|chain| - 1].prev;
    while cur != null
      invariant 0 <= i <= |chain| + 1
      invariant i < |chain| ==> cur == chain[i]
      invariant i == |chain| ==> cur == rest
      invariant i == |chain| + 1 ==> cur == null
      invariant forall k :: 0 <= k < i && k < |chain| ==> chain[k].owners == 0
      invariant forall k :: i <= k < |chain| ==> chain[k].owners == 1
      invariant rest != null ==> rest.owners == old(rest.owners) - if i == |chain| + 1 then 1 else 0
      decreases |chain| + 1 - i
    {
      cur.owners := cur.owners - 1;
      i := i + 1;
      if cur.owners > 0 {
        cur := null;
      } else {
        cur := cur.prev;
      }
    }
  }

  class TSQueue<T> {
    var head: QNode?<T>
    var tail: QNode?<T>
    var length: nat
    var max_size: nat
    ghost var nodes: seq<QNode<T>>     // from head to tail
    ghost var dead: set<QNode<T>>      // destroyed nodes that weak pointers may still name

    /** The list from head along prev is s, each node owned once (and h, if it is one of
        them, once more by another pointer); next mirrors prev. */
    ghost predicate WiredAs(s: seq<QNode<T>>, h: QNode?<T>)
      reads `head, `tail, `dead, s, dead
    {
      && Distinct(s)
      && (forall i :: 0 <= i < |s| ==> s[i] !in dead)
      && (forall i {:trigger s[i].owners} :: 0 <= i < |s| ==> s[i].owners == if s[i] == h then 2 else 1)
      && head == (if s == [] then null else s[0])
      && (forall i {:trigger s[i].prev} :: 0 <= i < |s| - 1 ==> s[i].prev == s[i + 1])
      && (s != [] ==> s[|s| - 1].prev == null && tail == s[|s| - 1])
      && (forall i {:trigger s[i].next} :: 1 <= i < |s| ==> s[i].next == s[i - 1])
      && (s != [] ==> Expired(s[0].next))
      && (forall d :: d in dead ==> d.owners == 0)
    }

    ghost predicate Wired(h: QNode?<T>)
      reads `head, `tail, `nodes, `dead, nodes, dead
    {
      WiredAs(nodes, h)
    }

    ghost predicate Linked(h: QNode?<T>)
      reads this, nodes, dead
    {
      Wired(h) && length == |nodes|
    }

    /** w names nothing, or a destroyed node. */
    ghost predicate Expired(w: QNode?<T>)
      reads `dead
    {
      w == null || w in dead
    }

    /** Sound apart from the count. */
    ghost predicate Sound()
      reads this, nodes, dead
    {
      Wired(null) && (nodes == [] ==> Expired(tail))
    }

    ghost predicate Valid()
      reads this, nodes, dead
    {
      Sound() && length == |nodes|
    }

    ghost function Contents(): (s: seq<T>)
      reads this, nodes
      ensures |s| == |nodes|
    {
      seq(|nodes|, i requires 0 <= i < |nodes| reads this, nodes => nodes[i].data)
    }

    /** `tail` locks exactly when there is something in the queue. */
    lemma TailLocks()
      requires Valid()
      ensures Lock(tail) != null <==> nodes != []
      ensures (head == null <==> length == 0) && (length == 0 <==> nodes == [])
    {
    }

    constructor ()
      ensures Valid() && Contents() == [] && nodes == [] && dead == {} && max_size == 0xFFFF_FFFF_FFFF_FFFF
    {
      head := null;
      tail := null;
      length := 0;
      max_size := 0xFFFF_FFFF_FFFF_FFFF;
      nodes := [];
      dead := {};
    }

    /** The tail n is its own neighbour, no pointer of the queue owns anything, and n has k owners. */
    ghost predicate SelfLinked(n: QNode<T>, k: nat)
      reads this, n, dead
    {
      && head == null && nodes == [] && tail == n && n !in dead
      && n.owners == k && n.prev == n && n.next == n
      && (forall d :: d in dead ==> d.owners == 0)
    }

    /** The tail, if it is alive although the list is empty. */
    ghost function LiveTail(): (s: set<QNode<T>>)
      reads this
    {
      if nodes == [] && tail != null && tail !in dead then {tail} else {}
    }

    /** The list is lost: n, the tail, is its own only owner. */
    ghost predicate Lost(n: QNode<T>)
      reads this, n, dead
    {
      SelfLinked(n, 1)
    }

    /** Links a node that the caller holds behind the tail.

        The tail may still lock although the list is empty: because it is that very node,
        which is then made its own neighbour, or because the list was lost that way
        before.  In the second case the link from the old tail replaces the one pointer
        that kept the old tail alive. */
    method EnqueueNode(node: QNode<T>)
      requires node !in nodes && node !in dead && node.owners == 1 && node.prev == null
      requires nodes == [] ==> Expired(node.next)
      requires (Wired(null) && (nodes == [] ==> Expired(tail) || tail == node))
               || (tail != null && tail != node && Lost(tail))
      modifies this`head, this`tail, this`length, this`nodes, node`prev, node`next, node`owners
      modifies (if nodes == [] then {} else {nodes[|nodes| - 1]})`prev
      modifies LiveTail()`prev, LiveTail()`owners
      ensures dead == old(dead) && length == old(length) + 1 && tail == node && node.owners > 0
      ensures old(Sound()) ==> nodes == old(nodes) + [node] && Wired(node)
      ensures old(tail == node) ==> SelfLinked(node, 2)
      ensures old(!Sound() && tail != node) ==>
        nodes == [] && head == null && node.owners == 1 && node.prev == null && old(tail).owners == 0
    {
      var tailPtr := Lock(tail);
      if tailPtr != null {
        var displaced := tailPtr.prev;
        tailPtr.prev := node;
        node.owners := node.owners + 1;
        node.next := tailPtr;
        if displaced != null { Release(displaced, [displaced]); }
      } else {
        head := node;
        node.owners := node.owners + 1;
      }
      nodes := if old(Sound()) then nodes + [node] else nodes;
      tail := node;
      length := length + 1;
    }

    /** The same when the caller's pointer goes out of scope afterwards.  A list that was lost is then freed. */
    method EnqueueAndLetGo(node: QNode<T>)
      requires node !in nodes && node !in dead && node.owners == 1 && node.prev == null
      requires nodes == [] ==> Expired(node.next)
      requires Sound() || (Wired(null) && nodes == [] && tail == node)
               || (tail != null && tail != node && Lost(tail))
      modifies this`head, this`tail, this`length, this`nodes, this`dead, node`prev, node`next, node`owners
      modifies nodes`prev, LiveTail()`prev, LiveTail()`owners
      ensures length == old(length) + 1 && tail == node
      ensures old(Sound()) ==> Sound() && nodes == old(nodes) + [node] && dead == old(dead)
      ensures old(Sound()) ==> Contents() == old(Contents()) + [node.data]
      ensures old(tail == node) ==> Lost(node) && dead == old(dead)
      ensures old(!Sound() && tail != node) ==>
        && head == null && nodes == [] && dead == old(dead) + {old(tail), node}
        && forall d :: d in dead ==> d.owners == 0
    {
      hide WiredAs, Distinct;
      ghost var n := tail;
      EnqueueNode(node);
      Settle(node);
      if old(!Sound() && tail != node) { dead := dead + {n, node}; }
    }

    /** enqueue: appends, unless the queue is full and the caller does not force it. */
    method Enqueue(data: T, force: bool) returns (ok: bool)
      requires Valid()
      modifies this`head, this`tail, this`length, this`nodes, this`dead, nodes
      ensures Valid() && max_size == old(max_size) && dead == old(dead)
      ensures ok <==> force || old(length) < max_size
      ensures Contents() == if ok then old(Contents()) + [data] else old(Contents())
    {
      if !force && length >= max_size { return false; }
      var temp := new QNode(data);
      EnqueueAndLetGo(temp);
      return true;
    }

    /** dequeue and pop: removes the front; without data the wait runs out. */
    method Dequeue(fallback: T) returns (ok: bool, data: T)
      requires Valid()
      modifies this`head, this`length, this`nodes, this`dead, nodes`owners
      ensures Valid() && max_size == old(max_size)
      ensures ok <==> old(Contents()) != []
      ensures ok ==> data == old(Contents())[0] && Contents() == old(Contents())[1..]
      ensures !ok ==> data == fallback && Contents() == old(Contents())
    {
      if length == 0 { return false, fallback; }
      data := head.data;
      DropHead();
      length := length - 1;
      return true, data;
    }

    /** head = head->prev: the new head gains an owner, the old one is destroyed. */
    method DropHead()
      requires Valid() && nodes != []
      modifies this`head, this`nodes, this`dead, nodes`owners
      ensures nodes == old(nodes)[1..] && dead == old(dead) + {old(nodes)[0]}
      ensures head == (if nodes == [] then null else nodes[0]) && old(nodes)[0].owners == 0
      ensures forall i :: 0 <= i < |nodes| ==> nodes[i].owners == 1
    {
      var first := head;
      assert first.prev == if |nodes| == 1 then null else nodes[1];
      if first.prev != null { first.prev.owners := first.prev.owners + 1; }
      head := first.prev;
      Release(first, [first]);
      dead := dead + {first};
      nodes := nodes[1..];
    }

    /** push: puts the data in front. */
    method Push(data: T, force: bool) returns (ok: bool)
      requires Valid()
      modifies this`head, this`tail, this`length, this`nodes, nodes
      ensures Valid() && max_size == old(max_size)
      ensures ok <==> force || old(length) < max_size
      ensures Contents() == if ok then [data] + old(Contents()) else old(Contents())
    {
      if !force && length >= max_size { return false; }
      var temp := new QNode(data);
      PushNode(temp);
      Settle(temp);
      return true;
    }

    /** A local pointer locks a linked node. */
    method Hold(n: QNode<T>)
      requires (Sound() && n in nodes) || Lost(n)
      modifies n`owners
      ensures old(nodes) != [] ==> Wired(n)
      ensures old(nodes) == [] ==> SelfLinked(n, 2)
      ensures Contents() == old(Contents())
    {
      n.owners := n.owners + 1;
    }

    /** A local pointer to n, which is not the only owner, goes out of scope. */
    method Settle(n: QNode<T>)
      requires n.owners > 0
      modifies n`owners
      ensures n.owners == old(n.owners) - 1
      ensures old(Wired(n)) && n in nodes ==> Sound() && Contents() == old(Contents())
    {
      n.owners := n.owners - 1;
    }

    /** Links a node that the caller holds in front of the head. */
    method PushNode(temp: QNode<T>)
      requires Valid() && temp !in nodes && temp !in dead && temp.owners == 1
      requires temp.prev == null && temp.next == null
      modifies this`head, this`tail, this`length, this`nodes, temp
      modifies (if nodes == [] then {} else {nodes[0]})`next, (if nodes == [] then {} else {nodes[0]})`owners
      ensures nodes == [temp] + old(nodes) && dead == old(dead) && temp.data == old(temp.data)
      ensures Linked(temp) && Contents() == [temp.data] + old(Contents())
    {
      if head != null {
        head.next := temp;
        temp.prev := head;
        head.owners := head.owners + 1;
      } else {
        tail := temp;
      }
      temp.owners := temp.owners + 1;
      if head != null { head.owners := head.owners - 1; }
      head := temp;
      length := length + 1;
      nodes := [temp] + nodes;
      assert forall i :: 1 <= i < |nodes| ==> nodes[i] == old(nodes)[i - 1];
    }

    method Peek(fallback: T) returns (ok: bool, value: T)
      requires Valid()
      ensures ok <==> Contents() != []
      ensures value == if ok then Contents()[0] else fallback
    {
      if length == 0 { return false, fallback; }
      return true, head.data;
    }

    method Size() returns (n: nat)
      requires Valid()
      ensures n == |Contents()|
    {
      return length;
    }

    /** Lowering the limit below the length removes nothing. */
    method SetMaxSize(size: nat)
      modifies this`max_size
      ensures max_size == size && Contents() == old(Contents()) && (Valid() <==> old(Valid()))
    {
      max_size := size;
    }

    /** Nothing is left; but a node that owns itself stays alive, and the tail with it. */
    method DeleteAll()
      requires Sound() || (tail != null && Lost(tail))
      modifies this`head, this`length, this`nodes, this`dead, nodes`owners
      ensures max_size == old(max_size) && length == 0 && Contents() == []
      ensures old(Sound()) ==> Valid() && dead == old(dead) + (set n | n in old(nodes))
      ensures old(!Sound()) ==> Lost(tail)
    {
      if head != null { Release(head, nodes); }
      head := null;
      length := 0;
      dead := dead + (set n | n in nodes);
      nodes := [];
    }
  }
}
