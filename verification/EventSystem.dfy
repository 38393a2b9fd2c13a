/** The linked lists and the id allocator of src/shared/EventSystem.cpp. Each push, tick and removal
    is one atomic step. */
module EventSystem {
  import opened TimedEvents
  import opened PeriodicIds
  import opened Basics

  class Link<T> {
    const value: T
    var pNext: Link?<T>

    constructor (value: T)
      ensures this.value == value && pNext == null
    {
      this.value := value;
      pNext := null;
    }
  }

  function ValuesOf<T>(nodes: seq<Link<T>>): (s: seq<T>)
    ensures |s| == |nodes|
  {
    seq(|nodes|, i requires 0 <= i < |nodes| => nodes[i].value)
  }

  /** s with x in front of its k-th element. */
  ghost function Inserted<T>(s: seq<T>, k: nat, x: T): (r: seq<T>)
    requires k <= |s|
    ensures |r| == |s| + 1 && r[k] == x
    ensures forall i :: 0 <= i < |r| && i != k ==> r[i] == s[if i < k then i else i - 1]
  {
    s[..k] + [x] + s[k..]
  }

  lemma InsertedValues<T>(nodes: seq<Link<T>>, k: nat, node: Link<T>)
    requires k <= |nodes|
    ensures ValuesOf(Inserted(nodes, k, node)) == ValuesOf(nodes)[..k] + [node.value] + ValuesOf(nodes)[k..]
  {
  }

  /** A singly linked list with its nodes, in order, as ghost state. */
  class Chain<T> {
    var head: Link?<T>
    ghost var nodes: seq<Link<T>>
    ghost var repr: set<object>

    ghost function NodeAt(i: nat): Link?<T>
      reads this
    {
      if i < |nodes| then nodes[i] else null
    }

    ghost predicate Valid()
      reads this, repr
      ensures Valid() ==> this in repr
    {
      && this in repr && (forall n <- nodes :: n in repr)
      && head == NodeAt(0)
      && (forall i {:trigger nodes[i].pNext} :: 0 <= i < |nodes| ==> nodes[i].pNext == NodeAt(i + 1))
      && (forall i, j :: 0 <= i < j < |nodes| ==> nodes[i] != nodes[j])
    }

    ghost function Values(): seq<T>
      reads this
    {
      ValuesOf(nodes)
    }

    constructor ()
      ensures Valid() && Values() == [] && fresh(repr)
    {
      head := null;
      nodes := [];
      repr := {this};
    }

    lemma HeadValue()
      requires Valid()
      ensures head == null <==> Values() == []
      ensures head != null ==> nodes != [] && head == nodes[0] && head.value == Values()[0]
    {
    }

    lemma NodeValue(i: nat)
      requires Valid() && i < |nodes|
      ensures nodes[i].value == Values()[i] && nodes[i].pNext == NodeAt(i + 1)
    {
    }

    /** Link a new node behind pos, which is node i; in front of everything if pos is null. */
    method InsertBehind(pos: Link?<T>, ghost i: int, value: T)
      requires Valid() && -1 <= i < |nodes| && pos == if i < 0 then null else nodes[i]
      modifies repr
      ensures Valid() && fresh(repr - old(repr))
      ensures Values() == old(Values())[..i + 1] + [value] + old(Values())[i + 1..]
    {
      hide Inserted, ValuesOf;
      var node := new Link(value);
      if pos == null {
        node.pNext := head;
        head := node;
      } else {
        node.pNext := pos.pNext;
        pos.pNext := node;
      }
      nodes := Inserted(nodes, i + 1, node);
      repr := repr + {node};
      InsertedValues(old(nodes), i + 1, node);
    }

    /** Unlink pos, which is node i, with prev the node before it, if any. */
    method Unlink(prev: Link?<T>, pos: Link<T>, ghost i: nat)
      requires Valid() && i < |nodes| && pos == nodes[i] && prev == if i == 0 then null else nodes[i - 1]
      modifies repr
      ensures Valid() && repr == old(repr)
      ensures Values() == old(Values())[..i] + old(Values())[i + 1..]
    {
      if prev != null {
        prev.pNext := pos.pNext;
      } else {
        head := pos.pNext;
      }
      nodes := nodes[..i] + nodes[i + 1..];
    }
  }

  // ---------------------------------------------------------------------------
  // One-shot events
  // ---------------------------------------------------------------------------

  method PushEvent(events: Chain<Entry>, event: Entry)
    requires events.Valid()
    modifies events.repr
    ensures events.Valid() && fresh(events.repr - old(events.repr))
    ensures events.Values() == Pushed(old(events.Values()), event)
  {
    ghost var s := events.Values();
    ghost var i := 0;
    if events.head != null {
      var pos := events.head;
      while pos.pNext != null && pos.pNext.value.time <= event.time
        invariant i < |s| && pos == events.nodes[i]
        invariant InsertAt(s, event, i) == InsertAt(s, event, 0)
        decreases |s| - i
      {
        pos, i := pos.pNext, i + 1;
      }
      events.InsertBehind(pos, i, event);
    } else {
      events.InsertBehind(null, -1, event);
    }
  }

  /** One tick of the thread that serves a list: run and drop events from the front while they are due. */
  method Serve(events: Chain<Entry>, now: nat) returns (fired: seq<Entry>)
    requires events.Valid()
    modifies events.repr
    ensures events.Valid() && events.repr == old(events.repr)
    ensures fired == Fired(old(events.Values()), now)
    ensures events.Values() == Remaining(old(events.Values()), now)
  {
    hide Chain.Valid, Chain.Values, DueCount;
    ghost var s := events.Values();
    fired := [];
    events.HeadValue();
    var pos := events.head;
    DueStart(s, now);
    while pos != null && now >= pos.value.time
      invariant events.Valid() && events.repr == old(events.repr) && pos == events.head
      invariant |fired| <= |s| && fired == s[..|fired|] && events.Values() == s[|fired|..]
      invariant DueCount(s, now) == |fired| + DueCount(s[|fired|..], now)
      invariant pos == null <==> |fired| == |s|
      invariant pos != null ==> events.nodes != [] && pos == events.nodes[0] && pos.value == s[|fired|]
      decreases |s| - |fired|
    {
      DueNext(s, |fired|, now);
      fired := fired + [pos.value];
      events.Unlink(null, pos, 0);
      pos := events.head;
      events.HeadValue();
    }
    DueEnd(s, |fired|, now);
  }

  lemma DueStart(s: seq<Entry>, now: nat)
    ensures DueCount(s, now) == 0 + DueCount(s[0..], now)
  {
    assert s[0..] == s;
  }

  lemma DueNext(s: seq<Entry>, n: nat, now: nat)
    requires n < |s| && s[n].time <= now
    ensures DueCount(s[n..], now) == 1 + DueCount(s[n + 1..], now)
  {
    assert s[n..][1..] == s[n + 1..];
  }

  lemma DueEnd(s: seq<Entry>, n: nat, now: nat)
    requires n <= |s| && (n < |s| ==> now < s[n].time)
    ensures DueCount(s[n..], now) == 0
  {
  }

  // ---------------------------------------------------------------------------
  // Periodic events
  // ---------------------------------------------------------------------------

  method PushFront(list: Chain<Periodic>, event: Periodic)
    requires list.Valid()
    modifies list.repr
    ensures list.Valid() && fresh(list.repr - old(list.repr))
    ensures list.Values() == [event] + old(list.Values())
  {
    list.InsertBehind(null, -1, event);
  }

  /** Search a list and unlink the first event with that id. */
  method RemoveFrom(list: Chain<Periodic>, id: nat) returns (found: bool)
    requires list.Valid()
    modifies list.repr
    ensures list.Valid() && list.repr == old(list.repr)
    ensures found == (Find(old(list.Values()), id) < |old(list.Values())|)
    ensures list.Values() == if found then WithoutId(old(list.Values()), id) else old(list.Values())
  {
    hide Find, Chain.Valid, WithoutId;
    ghost var s := list.Values();
    ghost var i: nat := 0;
    var prev: Link?<Periodic> := null;
    list.HeadValue();
    var pos := list.head;
    assert s[0..] == s;
    while pos != null
      invariant list.Valid() && list.repr == old(list.repr) && list.Values() == s
      invariant i <= |s| == |list.nodes| && pos == list.NodeAt(i)
      invariant prev == if i == 0 then null else list.nodes[i - 1]
      invariant Find(s, id) == i + Find(s[i..], id)
      decreases |s| - i
    {
      list.NodeValue(i);
      FindFront(s, i, id);
      if pos.value.id == id {
        FoundAt(s, i, id);
        list.Unlink(prev, pos, i);
        return true;
      }
      prev, pos, i := pos, pos.pNext, i + 1;
    }
    FoundAt(s, i, id);
    found := false;
  }

  lemma FoundAt(s: seq<Periodic>, i: nat, id: nat)
    requires i <= |s| && Find(s, id) == i + Find(s[i..], id)
    ensures i == |s| ==> Find(s, id) == |s|
    ensures i < |s| && s[i].id == id ==> Find(s, id) == i && WithoutId(s, id) == s[..i] + s[i + 1..]
  {
  }

  lemma FindFront(s: seq<Periodic>, i: nat, id: nat)
    requires i < |s|
    ensures Find(s[i..], id) == if s[i].id == id then 0 else 1 + Find(s[i + 1..], id)
  {
    assert s[i..][1..] == s[i + 1..];
  }

  /** The three lists of one-shot events, by how far off an event is. */
  class SingleEvents {
    const msEvents: Chain<Entry>
    const sEvents: Chain<Entry>
    const mEvents: Chain<Entry>
    /** Stamps the events with their order of arrival; the source keeps no such number. */
    var pushes: nat

    ghost function Chains(): set<object>
      reads msEvents, sEvents, mEvents
    {
      msEvents.repr + sEvents.repr + mEvents.repr
    }

    ghost predicate Linked()
      reads msEvents, sEvents, mEvents, Chains()
    {
      && msEvents.Valid() && sEvents.Valid() && mEvents.Valid()
      && msEvents.repr !! sEvents.repr !! mEvents.repr
      && this !in Chains()
    }

    /** Every list is in order. */
    ghost predicate Valid()
      reads this, msEvents, sEvents, mEvents, Chains()
    {
      && Linked()
      && ListOk(msEvents.Values(), pushes) && ListOk(sEvents.Values(), pushes) && ListOk(mEvents.Values(), pushes)
    }

    constructor ()
      ensures Valid() && fresh(Chains()) && pushes == 0
      ensures msEvents.Values() == sEvents.Values() == mEvents.Values() == []
    {
      msEvents := new Chain<Entry>();
      sEvents := new Chain<Entry>();
      mEvents := new Chain<Entry>();
      pushes := 0;
    }

    method AddEvent(now: nat, timer: nat, handler: int, param: int, separateThread: bool)
      requires Valid()
      modifies `pushes, Chains()
      ensures Valid() && fresh(Chains() - old(Chains())) && pushes == old(pushes) + 1
      ensures var e := Entry((now + timer) % TWO_TO_THE_32, old(pushes), handler, param, separateThread);
              var ms, s, m := old(msEvents.Values()), old(sEvents.Values()), old(mEvents.Values());
              && msEvents.Values() == (if timer <= A_MINUTE then Pushed(ms, e) else ms)
              && sEvents.Values() == (if A_MINUTE < timer <= AN_HOUR then Pushed(s, e) else s)
              && mEvents.Values() == (if AN_HOUR < timer then Pushed(m, e) else m)
    {
      hide Chain.Valid, Chain.Values, Pushed, ListOk;
      var event := Entry((now + timer) % TWO_TO_THE_32, pushes, handler, param, separateThread);
      PushKeepsLists(msEvents.Values(), event);
      PushKeepsLists(sEvents.Values(), event);
      PushKeepsLists(mEvents.Values(), event);
      pushes := pushes + 1;
      if timer <= 60000 {
        PushEvent(msEvents, event);
      } else if timer <= 3600000 {
        PushEvent(sEvents, event);
      } else {
        PushEvent(mEvents, event);
      }
    }

    /** One tick of the thread that serves one of the lists. Nothing is fired early, and all lists stay in
        order. */
    method Tick(events: Chain<Entry>, now: nat) returns (fired: seq<Entry>)
      requires Valid() && (events == msEvents || events == sEvents || events == mEvents)
      modifies events.repr
      ensures Valid() && Chains() == old(Chains())
      ensures fired == Fired(old(events.Values()), now) && forall e <- fired :: e.time <= now
      ensures var ms, s, m := old(msEvents.Values()), old(sEvents.Values()), old(mEvents.Values());
              && msEvents.Values() == (if events == msEvents then Remaining(ms, now) else ms)
              && sEvents.Values() == (if events == sEvents then Remaining(s, now) else s)
              && mEvents.Values() == (if events == mEvents then Remaining(m, now) else m)
    {
      hide Chain.Valid, Chain.Values, ListOk, Fired, Remaining;
      TickFiresDuePrefix(events.Values(), now);
      TickKeepsListOk(events.Values(), now, pushes);
      fired := Serve(events, now);
    }
  }

  /** A list that gets the event and a list that does not both stay in order. */
  lemma PushKeepsLists(s: seq<Entry>, e: Entry)
    requires ListOk(s, e.arrival)
    ensures ListOk(Pushed(s, e), e.arrival + 1) && ListOk(s, e.arrival + 1)
  {
    PushKeepsListOk(s, e);
  }

  /** The three lists of periodic events and the id allocator. */
  class PeriodicEvents {
    const msPEvents: Chain<Periodic>
    const sPEvents: Chain<Periodic>
    const mPEvents: Chain<Periodic>
    var eventid: nat
    var avalabelid: nat

    ghost function Chains(): set<object>
      reads msPEvents, sPEvents, mPEvents
    {
      msPEvents.repr + sPEvents.repr + mPEvents.repr
    }

    ghost predicate Valid()
      reads msPEvents, sPEvents, mPEvents, Chains()
    {
      && msPEvents.Valid() && sPEvents.Valid() && mPEvents.Valid()
      && msPEvents.repr !! sPEvents.repr !! mPEvents.repr
      && this !in Chains()
    }

    ghost function Allocation(): Allocator
      reads this, msPEvents, sPEvents, mPEvents
    {
      Allocator(eventid, avalabelid, msPEvents.Values(), sPEvents.Values(), mPEvents.Values())
    }

    constructor ()
      ensures Valid() && Allocation() == PeriodicIds.Run([]) && fresh(Chains())
    {
      msPEvents := new Chain<Periodic>();
      sPEvents := new Chain<Periodic>();
      mPEvents := new Chain<Periodic>();
      eventid, avalabelid := 0, 0;
    }

    method AddEvent(now: nat, timer: nat, handler: int, param: int, separateThread: bool) returns (useid: nat)
      requires Valid()
      modifies this, Chains()
      ensures Valid() && fresh(Chains() - old(Chains()))
      ensures useid == NextId(old(Allocation()))
      ensures Allocation() == PeriodicIds.Step(old(Allocation()), Add((now + timer) % TWO_TO_THE_32, timer, handler, param, separateThread))
    {
      hide Chain.Valid, Chain.Values;
      if avalabelid == 0 {
        eventid := (eventid + 1) % TWO_TO_THE_32;
        avalabelid := eventid;
      }
      var event := Periodic(avalabelid, (now + timer) % TWO_TO_THE_32, timer, handler, param, separateThread);
      if timer <= 60000 {
        PushFront(msPEvents, event);
      } else if timer <= 3600000 {
        PushFront(sPEvents, event);
      } else {
        PushFront(mPEvents, event);
      }
      useid := avalabelid;
      avalabelid := 0;
    }

    method RemovePeriodicEvent(id: nat)
      requires Valid()
      modifies `avalabelid, Chains()
      ensures Valid() && Chains() == old(Chains())
      ensures Allocation() == PeriodicIds.Step(old(Allocation()), Remove(id))
    {
      hide Chain.Valid, Chain.Values, WithoutId, Find;
      var found := RemoveFrom(msPEvents, id);
      if !found {
        found := RemoveFrom(sPEvents, id);
      }
      if !found {
        found := RemoveFrom(mPEvents, id);
      }
      if found && avalabelid == 0 {
        avalabelid := id;
      }
    }
  }
}
