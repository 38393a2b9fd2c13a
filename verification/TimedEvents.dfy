/** What the one-shot event lists of src/shared/EventSystem.cpp compute: where an event is queued and
    which events a tick fires. The methods in EventSystem.dfy are proved against this. */
module TimedEvents {

  /** An event is known by its time, by how many were pushed before it, and by what it calls. */
  datatype Entry = Entry(time: nat, arrival: nat, handler: int, param: int, separateThread: bool)

  /** Behind the head, the events at most as late as e. */
  function InsertAt(s: seq<Entry>, e: Entry, k: nat): (p: nat)
    requires k < |s|
    ensures k < p <= |s|
    decreases |s| - k
  {
    if k + 1 < |s| && s[k + 1].time <= e.time then InsertAt(s, e, k + 1) else k + 1
  }

  /** The head is never passed; behind it, e goes after every event that is not later. */
  function Pushed(s: seq<Entry>, e: Entry): seq<Entry> {
    if s == [] then [e]
    else var p := InsertAt(s, e, 0); s[..p] + [e] + s[p..]
  }

  /** How many events a tick takes off the front. */
  function DueCount(s: seq<Entry>, now: nat): (n: nat)
    ensures n <= |s|
  {
    if s != [] && s[0].time <= now then 1 + DueCount(s[1..], now) else 0
  }

  function Fired(s: seq<Entry>, now: nat): seq<Entry> {
    s[..DueCount(s, now)]
  }

  function Remaining(s: seq<Entry>, now: nat): seq<Entry> {
    s[DueCount(s, now)..]
  }

  /** Earlier, or at the same time but pushed first. */
  predicate Before(a: Entry, b: Entry) {
    a.time < b.time || (a.time == b.time && a.arrival < b.arrival)
  }

  ghost predicate SortedFrom(s: seq<Entry>, k: nat) {
    forall i, j :: k <= i < j < |s| ==> Before(s[i], s[j])
  }

  ghost predicate ArrivedBefore(s: seq<Entry>, n: nat) {
    forall e <- s :: e.arrival < n
  }

  lemma {:induction false} InsertAtSplits(s: seq<Entry>, e: Entry, k: nat)
    requires k < |s| && SortedFrom(s, 1)
    ensures forall i :: k < i < InsertAt(s, e, k) ==> s[i].time <= e.time
    ensures forall i :: InsertAt(s, e, k) <= i < |s| ==> e.time < s[i].time
    decreases |s| - k
  {
    if k + 1 < |s| && s[k + 1].time <= e.time {
      InsertAtSplits(s, e, k + 1);
    }
  }

  /** A push keeps everything behind the head sorted, ties in arrival order. */
  lemma PushKeepsSorted(s: seq<Entry>, e: Entry)
    requires SortedFrom(s, 1) && ArrivedBefore(s, e.arrival)
    ensures SortedFrom(Pushed(s, e), 1)
    ensures s != [] ==> Pushed(s, e)[0] == s[0]
  {
    if s != [] {
      var p := InsertAt(s, e, 0);
      InsertAtSplits(s, e, 0);
      var t := Pushed(s, e);
      forall i, j | 1 <= i < j < |t|
        ensures Before(t[i], t[j])
      {
        var i', j' := if i < p then i else i - 1, if j < p then j else j - 1;
        if i != p && j != p {
          assert t[i] == s[i'] && t[j] == s[j'];
        } else if j == p {
          assert t[i] == s[i'] && t[i] in s;
        } else {
          assert t[j] == s[j'];
        }
      }
    }
  }

  /** A tick fires a prefix of the list, all of it due, and stops at an event that is not. */
  lemma {:induction false} TickFiresDuePrefix(s: seq<Entry>, now: nat)
    ensures Fired(s, now) + Remaining(s, now) == s
    ensures forall e <- Fired(s, now) :: e.time <= now
    ensures Remaining(s, now) != [] ==> now < Remaining(s, now)[0].time
  {
    if s != [] && s[0].time <= now {
      TickFiresDuePrefix(s[1..], now);
      assert Fired(s, now) == [s[0]] + Fired(s[1..], now);
      assert Remaining(s, now) == Remaining(s[1..], now);
    }
  }

  /** Behind the head, the list is sorted with ties in arrival order; every stamp in it was given out. */
  ghost predicate ListOk(s: seq<Entry>, stamp: nat) {
    SortedFrom(s, 1) && ArrivedBefore(s, stamp)
  }

  lemma PushedMultiset(s: seq<Entry>, e: Entry)
    ensures multiset(Pushed(s, e)) == multiset(s) + multiset{e}
  {
    if s != [] {
      var p := InsertAt(s, e, 0);
      assert s == s[..p] + s[p..];
    }
  }

  lemma PushKeepsListOk(s: seq<Entry>, e: Entry)
    requires ListOk(s, e.arrival)
    ensures ListOk(Pushed(s, e), e.arrival + 1)
  {
    hide Pushed, SortedFrom;
    PushKeepsSorted(s, e);
    PushedMultiset(s, e);
    forall x | x in Pushed(s, e)
      ensures x.arrival < e.arrival + 1
    {
      assert x in multiset(Pushed(s, e));
    }
  }

  lemma TickKeepsListOk(s: seq<Entry>, now: nat, stamp: nat)
    requires ListOk(s, stamp)
    ensures ListOk(Remaining(s, now), stamp)
  {
    var n, rest := DueCount(s, now), Remaining(s, now);
    assert forall i :: 0 <= i < |rest| ==> rest[i] == s[n + i];
  }

  /** An event that is due stays behind exactly when a head that is not due hides it. */
  lemma DueStaysIff(s: seq<Entry>, now: nat)
    requires SortedFrom(s, 1)
    ensures (exists e :: e in Remaining(s, now) && e.time <= now)
       <==> s != [] && now < s[0].time && (exists e :: e in s && e.time <= now)
    ensures Fired(s, now) != [] ==> SortedFrom(Remaining(s, now), 0)
  {
    TickFiresDuePrefix(s, now);
    var n := DueCount(s, now);
    var rest := Remaining(s, now);
    forall i | n <= i < |s|
      ensures s[i] == rest[i - n]
    {
    }
    if n > 0 {
      forall e | e in rest
        ensures now < e.time
      {
        var i :| 0 <= i < |rest| && rest[i] == e;
        if i > 0 {
          assert Before(s[n], s[n + i]);
        }
      }
    }
  }

  // ---------------------------------------------------------------------------
  // Runs
  // ---------------------------------------------------------------------------

  /** A push to this list or to another one, or a tick. */
  datatype Action =
    | Push(time: nat, handler: int, param: int, separateThread: bool)
    | Elsewhere
    | Tick(now: nat)

  /** The list, every firing so far with the clock it happened at, all that was pushed, and the next
      stamp, which the lists share. */
  datatype Timeline = Timeline(queue: seq<Entry>, firings: seq<(Entry, nat)>, pushes: seq<Entry>, stamp: nat)

  function Firings(es: seq<Entry>, now: nat): seq<(Entry, nat)> {
    seq(|es|, i requires 0 <= i < |es| => (es[i], now))
  }

  function Step(t: Timeline, a: Action): Timeline {
    match a
    case Push(time, handler, param, st) =>
      var e := Entry(time, t.stamp, handler, param, st);
      t.(queue := Pushed(t.queue, e), pushes := t.pushes + [e], stamp := t.stamp + 1)
    case Elsewhere => t.(stamp := t.stamp + 1)
    case Tick(now) =>
      t.(queue := Remaining(t.queue, now), firings := t.firings + Firings(Fired(t.queue, now), now))
  }

  function Run(actions: seq<Action>): Timeline {
    if actions == [] then Timeline([], [], [], 0)
    else Step(Run(actions[..|actions| - 1]), actions[|actions| - 1])
  }

  function Entries(firings: seq<(Entry, nat)>): seq<Entry> {
    seq(|firings|, i requires 0 <= i < |firings| => firings[i].0)
  }

  ghost predicate RunOk(t: Timeline) {
    && ListOk(t.queue, t.stamp)
    && (forall f <- t.firings :: f.0.time <= f.1)
    && multiset(Entries(t.firings)) + multiset(t.queue) == multiset(t.pushes)
  }

  lemma EntriesSum(a: seq<(Entry, nat)>, b: seq<(Entry, nat)>)
    ensures Entries(a + b) == Entries(a) + Entries(b)
  {
  }

  lemma PushKeepsRunOk(t: Timeline, e: Entry)
    requires RunOk(t) && e.arrival == t.stamp
    ensures RunOk(t.(queue := Pushed(t.queue, e), pushes := t.pushes + [e], stamp := t.stamp + 1))
  {
    hide ListOk, Pushed, Entries;
    PushKeepsListOk(t.queue, e);
    PushedMultiset(t.queue, e);
  }

  lemma TickKeepsRunOk(t: Timeline, now: nat)
    requires RunOk(t)
    ensures RunOk(Step(t, Tick(now)))
  {
    var fired, rest := Fired(t.queue, now), Remaining(t.queue, now);
    TickFiresDuePrefix(t.queue, now);
    TickKeepsListOk(t.queue, now, t.stamp);
    EntriesSum(t.firings, Firings(fired, now));
    assert Entries(Firings(fired, now)) == fired;
    assert multiset(t.queue) == multiset(fired) + multiset(rest);
  }

  /** Every run keeps the list sorted behind its head with ties in arrival order, never fires an event
      before its time, and neither loses nor repeats one. */
  lemma {:induction false} RunKeepsOrder(actions: seq<Action>)
    ensures RunOk(Run(actions))
  {
    if actions != [] {
      RunKeepsOrder(actions[..|actions| - 1]);
      var t := Run(actions[..|actions| - 1]);
      match actions[|actions| - 1]
      case Push(time, handler, param, st) => PushKeepsRunOk(t, Entry(time, t.stamp, handler, param, st));
      case Elsewhere =>
      case Tick(now) => TickKeepsRunOk(t, now);
    }
  }

  /** A run after which an event due at 5 is still queued although the clock shows 7. */
  lemma HiddenDueEvent()
    ensures var t := Run([Push(10, 0, 0, false), Push(5, 0, 0, false), Tick(7)]);
            t.firings == [] && Entry(5, 1, 0, 0, false) in t.queue
  {
    var first, second := Push(10, 0, 0, false), Push(5, 0, 0, false);
    var all := [first, second, Tick(7)];
    assert all[..2] == [first, second] && all[..2][..1] == [first] && [first][..0] == [];
    assert Run([first]).queue == [Entry(10, 0, 0, 0, false)];
    assert Run([first, second]).queue == [Entry(10, 0, 0, 0, false), Entry(5, 1, 0, 0, false)];
  }
}
