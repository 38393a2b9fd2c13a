/** The linked lists of src/game/NoxThingClassDefs.h: MLIST, FASTLIST with its speed index, and the
    FIFO QUEUE. A ghost field holds the nodes in list order. */
module NodeLists {
  import opened Basics

  class Node<T(0)> {
    var msg: T
    var id: int
    var next: Node?<T>
    var prev: Node?<T>

    constructor ()
      ensures next == null && prev == null && id == 0
    {
      next := null;
      prev := null;
      id := 0;
    }
  }

  ghost predicate Distinct<T>(s: seq<T>) {
    forall i, j :: 0 <= i < j < |s| ==> s[i] != s[j]
  }

  /** s with the element at position k taken out. */
  ghost function Without<T>(s: seq<T>, k: nat): (r: seq<T>)
    requires k < |s|
    ensures |r| == |s| - 1
    ensures forall i :: 0 <= i < |r| ==> r[i] == s[if i < k then i else i + 1]
    ensures Distinct(s) ==> Distinct(r) && s[k] !in r
  {
    s[..k] + s[k + 1..]
  }

  class MList<T(0)> {
    var first: Node?<T>
    var last: Node?<T>
    var cur: Node?<T>
    var numNodes: int

    ghost var nodes: seq<Node<T>>
    ghost var repr: set<object>

    ghost function NodeAt(i: nat): Node?<T>
      reads this
    {
      if i < |nodes| then nodes[i] else null
    }

    /** The next links lead from first through exactly the ghost sequence. */
    ghost predicate Linked()
      reads this, repr
    {
      && this in repr && (forall n <- nodes :: n in repr)
      && numNodes == |nodes|
      && first == NodeAt(0)
      && (forall i {:trigger nodes[i].next} :: 0 <= i < |nodes| ==> nodes[i].next == NodeAt(i + 1))
      && Distinct(nodes)
    }

    /** Add goes through last; nobody looks at it while the list is empty. */
    ghost predicate LastIsLast()
      reads this
    {
      nodes != [] ==> last == nodes[|nodes| - 1]
    }

    ghost predicate Valid()
      reads this, repr
    {
      Linked() && LastIsLast()
    }

    ghost function Contents(): (s: seq<T>)
      reads this, nodes
      ensures |s| == |nodes| && forall i :: 0 <= i < |nodes| ==> s[i] == nodes[i].msg
    {
      seq(|nodes|, i requires 0 <= i < |nodes| reads this, nodes => nodes[i].msg)
    }

    constructor ()
      ensures Valid() && nodes == [] && cur == null && fresh(repr)
    {
      first, last, cur := null, null, null;
      numNodes := 0;
      nodes := [];
      repr := {this};
    }

    method Add(val: T, id: int)
      requires Valid()
      modifies repr
      ensures fresh(repr - old(repr))
      ensures Valid() && |nodes| == |old(nodes)| + 1 && nodes[..|old(nodes)|] == old(nodes)
      ensures fresh(last) && last.msg == val && last.id == id
      ensures forall n <- old(nodes) :: n.msg == old(n.msg) && n.id == old(n.id)
      ensures cur == if old(nodes) == [] then first else old(cur)
      ensures Contents() == old(Contents()) + [val]
    {
      hide Contents, Distinct;
      var isFirst := first == null;
      var node := new Node<T>();
      Link(node);
      last.msg := val;
      last.id := id;
      if isFirst {
        cur := first;
      }
    }

    /** Link a node that is nobody's behind the last one. */
    method Link(node: Node<T>)
      requires Valid() && node !in repr && node.next == null
      modifies repr
      ensures repr == old(repr) + {node} && nodes == old(nodes) + [node]
      ensures Valid() && cur == old(cur)
      ensures forall n <- old(nodes) :: n.msg == old(n.msg) && n.id == old(n.id)
    {
      hide Contents;
      if first != null {
        last.next := node;
      } else {
        first := node;
      }
      last := node;
      numNodes := numNodes + 1;
      nodes := nodes + [node];
      repr := repr + {node};
    }

    /** Walk number links from first; i is where the walk stopped. */
    method Walk(number: int) returns (temback: Node?<T>, tem: Node?<T>, i: nat)
      requires Linked()
      ensures i == (if number < 0 then 0 else if number < |nodes| then number else |nodes|)
      ensures tem == NodeAt(i) && temback == if i == 0 then null else nodes[i - 1]
    {
      tem := first;
      temback := null;
      i := 0;
      while i < number && tem != null
        invariant i <= |nodes| && (number < 0 ==> i == 0) && (0 <= number ==> i <= number)
        invariant tem == NodeAt(i) && temback == if i == 0 then null else nodes[i - 1]
        decreases |nodes| - i
      {
        temback, tem, i := tem, tem.next, i + 1;
      }
    }

    /** Walk count links from the node at the given position. */
    method WalkFrom(start: Node?<T>, count: nat, ghost at: nat) returns (tem: Node?<T>)
      requires Linked() && start == NodeAt(at)
      ensures tem == NodeAt(at + count)
    {
      tem := start;
      var i := 0;
      while i < count && tem != null
        invariant i <= count && tem == NodeAt(at + i)
        decreases count - i
      {
        tem, i := tem.next, i + 1;
      }
    }

    /** Unlinks the node at the given position, if there is one. It never repairs last, so the list
        can take another Add unless it was the last of several nodes that went. */
    method Remove(number: int)
      requires Valid()
      modifies repr
      ensures repr == old(repr)
      ensures Linked() && last == old(last)
      ensures nodes == if 0 <= number < |old(nodes)| then Without(old(nodes), number) else old(nodes)
      ensures cur == if 0 <= number < |old(nodes)| && old(cur) == old(nodes)[number] then first else old(cur)
      ensures forall n <- old(nodes) :: n.msg == old(n.msg) && n.id == old(n.id)
      ensures Valid() <==> !(1 <= number == |old(nodes)| - 1)
    {
      hide Contents, Without;
      var temback, tem, i := Walk(number);
      if tem != null && i == number {
        if temback != null {
          temback.next := tem.next;
        }
        if tem == first {
          first := tem.next;
        }
        if tem == cur {
          cur := first;
        }
        numNodes := numNodes - 1;
        nodes := Without(nodes, number);
      }
    }

    /** The node whose message is handed out; null for the source's null pointer. Number -1 asks for the
        cursor's node and advances the cursor, which starts over one call after running off the end. */
    method Get(number: int) returns (r: Node?<T>)
      requires Linked()
      requires number == -1 && cur != null ==> cur in nodes
      modifies `cur
      ensures number == -1 ==> r == old(cur) && cur == if old(cur) == null then first else old(cur).next
      ensures number != -1 ==> cur == old(cur) && r == NodeAt(if number < 0 then 0 else number)
    {
      if number == -1 {
        if cur == null {
          cur := first;
          return null;
        }
        var tem := cur;
        cur := cur.next;
        return tem;
      }
      var _, tem, _ := Walk(number);
      r := tem;
    }

    method Clear()
      requires Linked()
      modifies this
      ensures Valid() && nodes == [] && Contents() == [] && cur == old(cur) && repr == old(repr)
    {
      while first != null
        invariant Linked() && cur == old(cur) && repr == old(repr)
        decreases |nodes|
      {
        var tem := first.next;
        first := tem;
        numNodes := numNodes - 1;
        nodes := nodes[1..];
      }
      last := null;
      numNodes := 0;
    }
  }

  // ---------------------------------------------------------------------------
  // FASTLIST
  // ---------------------------------------------------------------------------

  const STRIDE := 1000

  class FastList<T(0)> {
    const base: MList<T>
    const speedList: MList<Node?<T>>

    ghost function Repr(): set<object>
      reads base, speedList
    {
      base.repr + speedList.repr
    }

    /** Entry k of the speed index is node 1000k, and there is an entry for every such node. */
    ghost predicate Indexed()
      reads base, speedList, speedList.nodes
    {
      && |speedList.nodes| == (|base.nodes| + STRIDE - 1) / STRIDE
      && forall k :: 0 <= k < |speedList.nodes| ==> speedList.nodes[k].msg == base.nodes[STRIDE * k]
    }

    ghost predicate Valid()
      reads base, speedList, Repr()
    {
      && base.Valid() && speedList.Valid() && Indexed()
      && base.repr !! speedList.repr
    }

    /** In numbers: entry k is what walking 1000 k links from first leads to. */
    lemma EntryIs(k: nat)
      requires Valid()
      ensures k < |speedList.nodes| <==> 1000 * k < |base.nodes|
      ensures k < |speedList.nodes| ==> speedList.nodes[k].msg == base.NodeAt(1000 * k)
    {
    }

    constructor ()
      ensures Valid() && base.nodes == [] && base.cur == null && fresh(Repr())
    {
      base := new MList<T>();
      speedList := new MList<Node?<T>>();
    }

    method Add(val: T, id: int)
      requires Valid()
      modifies Repr()
      ensures Valid()
      ensures |base.nodes| == |old(base.nodes)| + 1 && base.nodes[..|old(base.nodes)|] == old(base.nodes)
      ensures base.Contents() == old(base.Contents()) + [val] && base.last.id == id
      ensures fresh(Repr() - old(Repr()))
      ensures base.cur == if old(base.nodes) == [] then base.first else old(base.cur)
    {
      hide MList.Contents;
      base.Add(val, id);
      assert speedList.Valid();
      IndexLast();
    }

    /** Adds the last node to the speed index if it is the first of a new thousand. */
    method IndexLast()
      requires base.Valid() && speedList.Valid() && base.repr !! speedList.repr && base.nodes != []
      requires |speedList.nodes| == (|base.nodes| - 1 + STRIDE - 1) / STRIDE
      requires forall k :: 0 <= k < |speedList.nodes| ==> speedList.nodes[k].msg == base.nodes[STRIDE * k]
      modifies speedList.repr
      ensures Valid() && fresh(speedList.repr - old(speedList.repr))
    {
      hide MList.Contents;
      if base.numNodes % STRIDE - 1 == 0 {
        speedList.Add(base.last, 0);
      }
    }

    /** Below 1000 the number is ignored and the cursor's node is handed out. From 1000 on it is the
        node number links behind first; past the index the source dereferences a null pointer. */
    method Get(number: int) returns (r: Node?<T>)
      requires Valid()
      requires number < 1000 && base.cur != null ==> base.cur in base.nodes
      requires number > 1000 ==> number / STRIDE < |speedList.nodes|
      modifies base`cur, speedList`cur
      ensures Valid() && speedList.cur == old(speedList.cur)
      ensures number < 1000 ==> r == old(base.cur) && base.cur == if r == null then base.first else r.next
      ensures number >= 1000 ==> base.cur == old(base.cur) && r == base.NodeAt(number)
    {
      if number == -1 || number < 1000 {
        r := base.Get(-1);
        return;
      }
      var skipCount := 0;
      var leftCount := number;
      var tem := base.first;
      ghost var at := 0;
      if number > 1000 {
        skipCount := number / STRIDE;
        var entry := speedList.Get(skipCount);
        tem := entry.msg;
        leftCount := number % STRIDE;
        at := STRIDE * skipCount;
      }
      r := base.WalkFrom(tem, leftCount, at);
    }

    method Clear()
      requires Valid()
      modifies base, speedList
      ensures Valid() && base.nodes == [] && base.Contents() == [] && base.cur == old(base.cur)
    {
      base.Clear();
      speedList.Clear();
    }
  }

  // ---------------------------------------------------------------------------
  // QUEUE
  // ---------------------------------------------------------------------------

  const EMPTY_QUEUE := -1

  datatype ArgStruct = ArgStruct(msgId: int, arg1: int, arg2: int)

  class ActionQueue {
    const list: MList<ArgStruct>

    ghost predicate Valid()
      reads list, list.repr
    {
      list.Valid()
    }

    ghost function Contents(): seq<ArgStruct>
      reads list, list.nodes
    {
      list.Contents()
    }

    constructor ()
      ensures Valid() && Contents() == [] && fresh(list.repr)
    {
      list := new MList<ArgStruct>();
    }

    method Add(msgId: int, arg1: int, arg2: int)
      requires Valid()
      modifies list.repr
      ensures Valid() && fresh(list.repr - old(list.repr))
      ensures Contents() == After(old(Contents()), Arrive(ArgStruct(msgId, arg1, arg2)))
      ensures Contents() == old(Contents()) + [ArgStruct(msgId, arg1, arg2)]
    {
      list.Add(ArgStruct(msgId, arg1, arg2), 0);
    }

    method GetCount() returns (n: int)
      requires Valid()
      ensures n == |Contents()|
    {
      n := list.numNodes;
    }

    /** Takes the front message. Removing at the front is what keeps the list fit for another Add. */
    method Get() returns (r: ArgStruct)
      requires Valid()
      modifies list.repr
      ensures Valid() && list.repr == old(list.repr)
      ensures if old(Contents()) == [] then r.msgId == EMPTY_QUEUE else r == old(Contents())[0]
      ensures Contents() == After(old(Contents()), Serve)
      ensures old(Contents()) != [] ==> Contents() == old(Contents())[1..]
    {
      if list.numNodes == 0 {
        var arg1: int, arg2: int := *, *;
        return ArgStruct(EMPTY_QUEUE, arg1, arg2);
      }
      var front := list.Get(0);
      r := front.msg;
      list.Remove(0);
    }

    method Clear()
      requires Valid()
      modifies list
      ensures Valid() && list.repr == old(list.repr) && Contents() == After(old(Contents()), Discard)
    {
      list.Clear();
    }
  }

  /** The calls a queue sees: Add, Get and Clear. */
  datatype Call = Arrive(x: ArgStruct) | Serve | Discard

  function After(q: seq<ArgStruct>, c: Call): seq<ArgStruct> {
    match c
    case Arrive(x) => q + [x]
    case Serve => if q == [] then [] else q[1..]
    case Discard => []
  }

  /** The messages that leave the queue in a call, in order. */
  function Leaving(q: seq<ArgStruct>, c: Call): seq<ArgStruct> {
    match c
    case Arrive(_) => []
    case Serve => if q == [] then [] else [q[0]]
    case Discard => q
  }

  function Final(q: seq<ArgStruct>, calls: seq<Call>): seq<ArgStruct>
    decreases |calls|
  {
    if calls == [] then q else Final(After(q, calls[0]), calls[1..])
  }

  function Departures(q: seq<ArgStruct>, calls: seq<Call>): seq<ArgStruct>
    decreases |calls|
  {
    if calls == [] then [] else Leaving(q, calls[0]) + Departures(After(q, calls[0]), calls[1..])
  }

  function Arrivals(calls: seq<Call>): seq<ArgStruct> {
    if calls == [] then []
    else (if calls[0].Arrive? then [calls[0].x] else []) + Arrivals(calls[1..])
  }

  /** Over every interleaving of calls, what has left followed by what is still queued is what was
      there followed by what arrived: first in, first out, nothing lost or duplicated. */
  lemma {:induction false} FifoRun(q: seq<ArgStruct>, calls: seq<Call>)
    ensures Departures(q, calls) + Final(q, calls) == q + Arrivals(calls)
    decreases |calls|
  {
    if calls == [] {
    } else {
      hide After, Leaving;
      var c, rest := calls[0], calls[1..];
      var out, next := Leaving(q, c), After(q, c);
      FifoRun(next, rest);
      FifoStep(q, c);
      Associate(out, Departures(next, rest), Final(next, rest));
      Associate(out, next, Arrivals(rest));
      Associate(q, if c.Arrive? then [c.x] else [], Arrivals(rest));
    }
  }

  lemma FifoStep(q: seq<ArgStruct>, c: Call)
    ensures Leaving(q, c) + After(q, c) == q + if c.Arrive? then [c.x] else []
  {
  }

  function Serves(n: nat): seq<Call> {
    if n == 0 then [] else [Serve] + Serves(n - 1)
  }

  /** Getting n messages gets the first n, or all there are. */
  lemma {:induction false} DrainRun(q: seq<ArgStruct>, n: nat)
    ensures var k := if n <= |q| then n else |q|;
            Departures(q, Serves(n)) == q[..k] && Final(q, Serves(n)) == q[k..]
    decreases n
  {
    if n > 0 {
      assert Serves(n)[1..] == Serves(n - 1);
      DrainRun(After(q, Serve), n - 1);
    }
  }

  // ---------------------------------------------------------------------------
  // Where the lists do less than they seem to
  // ---------------------------------------------------------------------------

  /** After the last of two nodes is gone, last still points at it, and the next Add would be lost. */
  method RemoveLastOfTwo<T(0)>(x: T, y: T) returns (list: MList<T>)
    ensures list.Linked() && !list.Valid() && list.first != null && list.last !in list.nodes
  {
    list := new MList<T>();
    list.Add(x, 0);
    list.Add(y, 0);
    list.Remove(1);
  }

  /** Asked for element 1 of two, FASTLIST gives element 0. */
  method GetBelowStride() returns (r: int)
    ensures r == 7
  {
    var list := new FastList<int>();
    list.Add(7, 0);
    list.Add(8, 0);
    assert list.base.Contents()[0] == 7;
    var node := list.Get(1);
    r := node.msg;
  }
}
