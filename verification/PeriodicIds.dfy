/** The ids of periodic events: a 32-bit counter and one recycled id, over three lists. */
module PeriodicIds {
  import opened Basics

  const A_MINUTE := 60000
  const AN_HOUR := 3600000

  datatype Periodic = Periodic(id: nat, time: nat, period: nat, handler: int, param: int, separateThread: bool)

  /** Id 0 in available means that there is none to recycle. */
  datatype Allocator = Allocator(counter: nat, available: nat, msList: seq<Periodic>, sList: seq<Periodic>, mList: seq<Periodic>)

  function Live(a: Allocator): seq<Periodic> {
    a.msList + a.sList + a.mList
  }

  /** The id the next periodic event gets. The counter is a 32-bit word and wraps. */
  function NextId(a: Allocator): nat {
    if a.available == 0 then (a.counter + 1) % TWO_TO_THE_32 else a.available
  }

  predicate Wraps(a: Allocator) {
    a.available == 0 && a.counter == TWO_TO_THE_32 - 1
  }

  function Added(a: Allocator, e: Periodic): Allocator {
    var b := a.(counter := if a.available == 0 then NextId(a) else a.counter, available := 0);
    if e.period <= A_MINUTE then b.(msList := [e] + b.msList)
    else if e.period <= AN_HOUR then b.(sList := [e] + b.sList)
    else b.(mList := [e] + b.mList)
  }

  /** The position of the first event with that id, or the length. */
  function Find(s: seq<Periodic>, id: nat): (k: nat)
    ensures k <= |s| && (k < |s| ==> s[k].id == id)
    ensures forall i :: 0 <= i < k ==> s[i].id != id
  {
    if s == [] || s[0].id == id then 0
    else
      var k := Find(s[1..], id);
      assert forall i :: 1 <= i < 1 + k ==> s[i] == s[1..][i - 1];
      1 + k
  }

  function WithoutId(s: seq<Periodic>, id: nat): seq<Periodic> {
    var k := Find(s, id);
    if k < |s| then s[..k] + s[k + 1..] else s
  }

  /** The lists are searched in turn; only the first list that holds the id loses it. */
  function Removed(a: Allocator, id: nat): Allocator {
    var b := a.(available := if a.available == 0 then id else a.available);
    if Find(a.msList, id) < |a.msList| then b.(msList := WithoutId(a.msList, id))
    else if Find(a.sList, id) < |a.sList| then b.(sList := WithoutId(a.sList, id))
    else if Find(a.mList, id) < |a.mList| then b.(mList := WithoutId(a.mList, id))
    else a
  }

  /** Live ids are pairwise distinct, nonzero and at most the counter, and the id to recycle is an
      old one that is not live. */
  ghost predicate IdsOk(a: Allocator) {
    && a.counter < TWO_TO_THE_32
    && DistinctIds(Live(a))
    && (forall e <- Live(a) :: 0 < e.id <= a.counter && e.id != a.available)
    && a.available <= a.counter
  }

  ghost predicate DistinctIds(s: seq<Periodic>) {
    forall i, j :: 0 <= i < j < |s| ==> s[i].id != s[j].id
  }

  lemma DistinctInserted(s: seq<Periodic>, t: seq<Periodic>, e: Periodic)
    requires DistinctIds(s + t) && forall x <- s + t :: x.id != e.id
    ensures DistinctIds(s + ([e] + t))
    ensures forall x <- s + ([e] + t) :: x == e || x in s + t
  {
    var u := s + ([e] + t);
    assert forall i :: 0 <= i < |u| && i != |s| ==> u[i] == (s + t)[if i < |s| then i else i - 1];
  }

  lemma DistinctRemoved(s: seq<Periodic>, m: seq<Periodic>, t: seq<Periodic>, k: nat)
    requires DistinctIds(s + m + t) && k < |m|
    ensures var u := s + (m[..k] + m[k + 1..]) + t;
            DistinctIds(u) && forall x <- u :: x in s + m + t && x.id != m[k].id
  {
    var all, u := s + m + t, s + (m[..k] + m[k + 1..]) + t;
    var at := |s| + k;
    assert all[at] == m[k];
    assert forall i :: 0 <= i < |u| ==> u[i] == all[if i < at then i else i + 1];
  }

  lemma LiveAdded(a: Allocator, e: Periodic) returns (s: seq<Periodic>, t: seq<Periodic>)
    ensures Live(a) == s + t && Live(Added(a, e)) == s + ([e] + t)
  {
    var p, q, r := a.msList, a.sList, a.mList;
    if e.period <= A_MINUTE {
      s, t := [], p + q + r;
      Associate([e], p, q);
      Associate([e], p + q, r);
    } else if e.period <= AN_HOUR {
      s, t := p, q + r;
      Associate(p, q, r);
      Associate(p, [e] + q, r);
      Associate([e], q, r);
    } else {
      s, t := p + q, r;
    }
  }

  lemma LiveRemoved(a: Allocator, id: nat) returns (s: seq<Periodic>, m: seq<Periodic>, t: seq<Periodic>)
    requires Removed(a, id) != a
    ensures Live(a) == s + m + t
    ensures Find(m, id) < |m| && Live(Removed(a, id)) == s + WithoutId(m, id) + t
  {
    hide WithoutId, Find;
    var p, q, r := a.msList, a.sList, a.mList;
    if Find(p, id) < |p| {
      s, m, t := [], p, q + r;
      InFront(p, q, r);
      InFront(WithoutId(p, id), q, r);
    } else if Find(q, id) < |q| {
      s, m, t := p, q, r;
    } else {
      s, m, t := p + q, r, [];
      AtEnd(p + q + r);
      AtEnd(p + q + WithoutId(r, id));
    }
  }

  lemma InFront<T>(a: seq<T>, b: seq<T>, c: seq<T>)
    ensures [] + a + (b + c) == a + b + c
  {
  }

  lemma AtEnd<T>(s: seq<T>)
    ensures s + [] == s
  {
  }

  /** Adding keeps the ids in order exactly while the counter does not wrap. */
  lemma AddKeepsIdsIff(a: Allocator, e: Periodic)
    requires IdsOk(a) && e.id == NextId(a)
    ensures IdsOk(Added(a, e)) <==> !Wraps(a)
    ensures !Wraps(a) ==> e.id != 0 && forall x <- Live(a) :: x.id != e.id
  {
    hide Live;
    var s, t := LiveAdded(a, e);
    var b := Added(a, e);
    if Wraps(a) {
      assert Live(b)[|s|] == e;
      assert e in Live(b) && e.id == 0;
    } else {
      DistinctInserted(s, t, e);
    }
  }

  /** A removal that changes nothing found the id in no list. */
  lemma RemovedFound(a: Allocator, id: nat)
    requires Removed(a, id) == a
    ensures forall x <- Live(a) :: x.id != id
  {
    forall x | x in Live(a)
      ensures x.id != id
    {
      assert x in a.msList || x in a.sList || x in a.mList;
    }
  }

  lemma RemovedIds(a: Allocator, id: nat)
    ensures var b := Removed(a, id);
            && b.counter == a.counter
            && b.available == (if b == a then a.available else if a.available == 0 then id else a.available)
  {
  }

  lemma DistinctWithout(s: seq<Periodic>, m: seq<Periodic>, t: seq<Periodic>, id: nat)
    requires DistinctIds(s + m + t) && Find(m, id) < |m|
    ensures var u := s + WithoutId(m, id) + t;
            DistinctIds(u) && forall x <- u :: x in s + m + t && x.id != id
    ensures exists x :: x in s + m + t && x.id == id
  {
    var k := Find(m, id);
    DistinctRemoved(s, m, t, k);
    assert m[k] in s + m + t;
  }

  /** Removing always does, and afterwards the id is not live. */
  lemma RemoveKeepsIds(a: Allocator, id: nat)
    requires IdsOk(a)
    ensures IdsOk(Removed(a, id))
    ensures forall x <- Live(Removed(a, id)) :: x in Live(a) && x.id != id
  {
    hide Live, Removed, Find, WithoutId, DistinctIds;
    RemovedIds(a, id);
    if Removed(a, id) == a {
      RemovedFound(a, id);
    } else {
      var s, m, t := LiveRemoved(a, id);
      DistinctWithout(s, m, t, id);
    }
  }

  // ---------------------------------------------------------------------------
  // What is added and what is taken out
  // ---------------------------------------------------------------------------

  /** The recycled id goes first; otherwise the counter counts on. Either way nothing is left to recycle. */
  lemma NextIdIs(a: Allocator, e: Periodic)
    requires a.counter < TWO_TO_THE_32 - 1
    ensures NextId(a) == if a.available != 0 then a.available else a.counter + 1
    ensures Added(a, e).available == 0
    ensures Added(a, e).counter == if a.available != 0 then a.counter else NextId(a)
  {
  }

  /** The period chooses the list; the event goes to its front, and nothing else moves. */
  lemma AddedToList(a: Allocator, e: Periodic)
    ensures var b := Added(a, e);
            && b.msList == (if e.period <= 60000 then [e] + a.msList else a.msList)
            && b.sList == (if 60000 < e.period <= 3600000 then [e] + a.sList else a.sList)
            && b.mList == (if 3600000 < e.period then [e] + a.mList else a.mList)
    ensures multiset(Live(Added(a, e))) == multiset(Live(a)) + multiset{e}
  {
    hide Live, Added;
    var s, t := LiveAdded(a, e);
    AddedLists(a, e);
    assert multiset(s + ([e] + t)) == multiset(s + t) + multiset{e};
  }

  lemma AddedLists(a: Allocator, e: Periodic)
    ensures var b := Added(a, e);
            && b.msList == (if e.period <= 60000 then [e] + a.msList else a.msList)
            && b.sList == (if 60000 < e.period <= 3600000 then [e] + a.sList else a.sList)
            && b.mList == (if 3600000 < e.period then [e] + a.mList else a.mList)
  {
  }

  /** The event a removal takes out, if any. */
  function TakenOut(a: Allocator, id: nat): (out: seq<Periodic>)
    ensures |out| <= 1
  {
    if Find(a.msList, id) < |a.msList| then [a.msList[Find(a.msList, id)]]
    else if Find(a.sList, id) < |a.sList| then [a.sList[Find(a.sList, id)]]
    else if Find(a.mList, id) < |a.mList| then [a.mList[Find(a.mList, id)]]
    else []
  }

  lemma WithoutIdMultiset(m: seq<Periodic>, id: nat)
    ensures var k := Find(m, id);
            k < |m| ==> multiset(m) == multiset(WithoutId(m, id)) + multiset{m[k]}
    ensures Find(m, id) == |m| ==> WithoutId(m, id) == m
  {
    var k := Find(m, id);
    if k < |m| {
      assert m == m[..k] + [m[k]] + m[k + 1..];
    }
  }

  lemma LiveMultiset(a: Allocator)
    ensures multiset(Live(a)) == multiset(a.msList) + multiset(a.sList) + multiset(a.mList)
  {
  }

  /** A removal takes one event with the id out exactly if one is live, and nothing else. */
  lemma RemoveTakesOne(a: Allocator, id: nat)
    ensures multiset(Live(a)) == multiset(Live(Removed(a, id))) + multiset(TakenOut(a, id))
    ensures TakenOut(a, id) == [] <==> forall e <- Live(a) :: e.id != id
    ensures TakenOut(a, id) != [] ==> TakenOut(a, id)[0].id == id
    ensures TakenOut(a, id) == [] ==> Removed(a, id) == a
  {
    hide WithoutId, Find, Live;
    LiveMultiset(a);
    LiveMultiset(Removed(a, id));
    WithoutIdMultiset(a.msList, id);
    WithoutIdMultiset(a.sList, id);
    WithoutIdMultiset(a.mList, id);
    NothingFound(a, id);
  }

  lemma NothingFound(a: Allocator, id: nat)
    ensures TakenOut(a, id) == [] <==> forall e <- Live(a) :: e.id != id
  {
    var p, q, r := a.msList, a.sList, a.mList;
    if TakenOut(a, id) == [] {
      forall e | e in Live(a)
        ensures e.id != id
      {
        assert e in p || e in q || e in r;
      }
    } else {
      assert TakenOut(a, id)[0] in p || TakenOut(a, id)[0] in q || TakenOut(a, id)[0] in r;
    }
  }

  /** A removed id is the next one to be handed out, unless another one is waiting. */
  lemma RemovedIsNext(a: Allocator, id: nat)
    requires id != 0 && exists e :: e in Live(a) && e.id == id
    ensures NextId(Removed(a, id)) == if a.available == 0 then id else a.available
  {
    hide Live, Find, WithoutId;
    NothingFound(a, id);
  }

  // ---------------------------------------------------------------------------
  // Runs
  // ---------------------------------------------------------------------------

  /** A periodic event is added, with the next id, or an id is removed. */
  datatype Action =
    | Add(time: nat, period: nat, handler: int, param: int, separateThread: bool)
    | Remove(id: nat)

  function Step(a: Allocator, x: Action): Allocator {
    match x
    case Add(time, period, handler, param, st) => Added(a, Periodic(NextId(a), time, period, handler, param, st))
    case Remove(id) => Removed(a, id)
  }

  function Run(actions: seq<Action>): Allocator {
    if actions == [] then Allocator(0, 0, [], [], []) else Step(Run(actions[..|actions| - 1]), actions[|actions| - 1])
  }

  predicate NeverWraps(actions: seq<Action>) {
    actions == [] ||
    var before := actions[..|actions| - 1];
    NeverWraps(before) && (actions[|actions| - 1].Add? ==> !Wraps(Run(before)))
  }

  ghost predicate AlwaysIdsOk(actions: seq<Action>) {
    forall n :: 0 <= n <= |actions| ==> IdsOk(Run(actions[..n]))
  }

  lemma StepKeepsIdsIff(a: Allocator, x: Action)
    requires IdsOk(a)
    ensures IdsOk(Step(a, x)) <==> !(x.Add? && Wraps(a))
  {
    hide IdsOk, Added, Removed, Wraps, NextId;
    match x
    case Add(time, period, handler, param, st) =>
      AddKeepsIdsIff(a, Periodic(NextId(a), time, period, handler, param, st));
    case Remove(id) =>
      RemoveKeepsIds(a, id);
  }

  lemma AlwaysIdsOkNext(actions: seq<Action>)
    requires actions != []
    ensures AlwaysIdsOk(actions) <==> AlwaysIdsOk(actions[..|actions| - 1]) && IdsOk(Run(actions))
  {
    hide IdsOk, Run;
    var n := |actions| - 1;
    var before := actions[..n];
    assert actions[..n + 1] == actions;
    if AlwaysIdsOk(actions) {
      forall k | 0 <= k <= n
        ensures IdsOk(Run(before[..k]))
      {
        assert before[..k] == actions[..k];
      }
    }
    if AlwaysIdsOk(before) && IdsOk(Run(actions)) {
      forall k | 0 <= k <= n + 1
        ensures IdsOk(Run(actions[..k]))
      {
        assert k <= n ==> before[..k] == actions[..k];
      }
    }
  }

  /** All through a run the ids are in order exactly if the counter never wraps. */
  lemma {:induction false} RunKeepsIdsIff(actions: seq<Action>)
    ensures AlwaysIdsOk(actions) <==> NeverWraps(actions)
  {
    if actions == [] {
      assert IdsOk(Run([]));
    } else {
      hide IdsOk, Step, Wraps, AlwaysIdsOk;
      var before := actions[..|actions| - 1];
      RunKeepsIdsIff(before);
      AlwaysIdsOkNext(actions);
      if AlwaysIdsOk(before) {
        LastIdsOk(before);
        StepKeepsIdsIff(Run(before), actions[|actions| - 1]);
      }
    }
  }

  lemma LastIdsOk(actions: seq<Action>)
    requires AlwaysIdsOk(actions)
    ensures IdsOk(Run(actions))
  {
    assert actions[..|actions|] == actions;
  }

  /** All events a run adds, and all it takes out. */
  function AddedIn(actions: seq<Action>): seq<Periodic> {
    if actions == [] then []
    else
      var before := actions[..|actions| - 1];
      AddedIn(before)
      + match actions[|actions| - 1]
        case Add(time, period, handler, param, st) => [Periodic(NextId(Run(before)), time, period, handler, param, st)]
        case Remove(_) => []
  }

  function TakenIn(actions: seq<Action>): seq<Periodic> {
    if actions == [] then []
    else
      var before := actions[..|actions| - 1];
      TakenIn(before)
      + match actions[|actions| - 1]
        case Add(_, _, _, _, _) => []
        case Remove(id) => TakenOut(Run(before), id)
  }

  /** Over any run, what is live and what was taken out are together what was added. */
  lemma {:induction false} RunConserves(actions: seq<Action>)
    ensures multiset(Live(Run(actions))) + multiset(TakenIn(actions)) == multiset(AddedIn(actions))
  {
    hide Live, Added, Removed, TakenOut, NextId;
    if actions == [] {
      NothingLive();
    } else {
      var before := actions[..|actions| - 1];
      RunConserves(before);
      match actions[|actions| - 1]
      case Add(time, period, handler, param, st) =>
        AddedToList(Run(before), Periodic(NextId(Run(before)), time, period, handler, param, st));
      case Remove(id) =>
        RemoveTakesOne(Run(before), id);
    }
  }

  lemma NothingLive()
    ensures Live(Run([])) == []
  {
  }

  function Adds(n: nat): seq<Action> {
    if n == 0 then [] else Adds(n - 1) + [Add(0, 0, 0, 0, false)]
  }

  lemma {:induction false} CounterAfterAdds(n: nat)
    requires n < TWO_TO_THE_32
    ensures Run(Adds(n)).counter == n && Run(Adds(n)).available == 0
  {
    if n > 0 {
      CounterAfterAdds(n - 1);
      assert Adds(n)[..|Adds(n)| - 1] == Adds(n - 1);
    }
  }

  /** The counter can wrap: 2^32 additions in a row put the ids out of order. */
  lemma AddsWrap()
    ensures !NeverWraps(Adds(TWO_TO_THE_32)) && !AlwaysIdsOk(Adds(TWO_TO_THE_32))
  {
    hide AlwaysIdsOk, Run;
    var before, all := Adds(TWO_TO_THE_32 - 1), Adds(TWO_TO_THE_32);
    CounterAfterAdds(TWO_TO_THE_32 - 1);
    assert all == before + [Add(0, 0, 0, 0, false)];
    assert all[..|all| - 1] == before;
    RunKeepsIdsIff(all);
  }
}
