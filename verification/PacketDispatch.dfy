/** How a session takes a received datagram apart again. The opcode handlers are parameters: a handler
    is known by how many of the unread bytes it reads, and by what it does to the part of the session
    that the receive loop looks at. */
module PacketDispatch {
  import opened PacketBatching

  datatype SessionStatus = Authed | Confirmed | LoggedIn

  /** What the loop looks at: m_status, _player, m_playerRecentlyLogout and _socket. */
  datatype Standing = Standing(status: SessionStatus, hasPlayer: bool, recentlyLogout: bool, hasSocket: bool)

  /** How many bytes were read, and how the session stands then. */
  datatype Reading = Reading(count: nat, after: Standing)

  /** A row of the opcode table: the status it asks for, and what the handler does with the unread bytes. */
  datatype Handler = Handler(status: SessionStatus, run: (Standing, seq<uint8>) -> Reading)

  type Table = map<uint8, Handler>

  /** What the loop does with one message. A read past the end fails an assertion that stops the
      server; everything else lets the loop go on. Only a recent logout silences the complaint about
      a message that needs a player. */
  datatype Outcome =
    | Handled(message: Packet)
    | JoinConfirmation
    | Unhandled(opcode: uint8)
    | Unexpected(opcode: uint8)
    | Skipped(opcode: uint8)
    | Aborted(opcode: uint8)

  /** The confirmation of a join carries account id 0xFF and opcode 0, and no handler of the table. */
  predicate IsJoinConfirmation(p: Packet) {
    p.opcode == 0 && p.accountId == 0xFF
  }

  predicate Runs(table: Table, st: Standing, p: Packet) {
    && !IsJoinConfirmation(p)
    && p.opcode in table
    && ((table[p.opcode].status == LoggedIn && st.hasPlayer) || table[p.opcode].status == Authed)
  }

  /** How the session stands when a handler is entered. */
  function Entered(h: Handler, st: Standing): Standing {
    if h.status == Authed then st.(recentlyLogout := false) else st
  }

  /** A session that is only authenticated is confirmed by a join confirmation. */
  function Joined(st: Standing): Standing {
    if st.status == Authed then st.(status := Confirmed) else st
  }

  /** What becomes of the message in front of p, whose payload is all that is still unread. */
  function Reads(table: Table, st: Standing, p: Packet): Reading {
    if Runs(table, st, p) then table[p.opcode].run(Entered(table[p.opcode], st), p.payload)
    else Reading(0, if IsJoinConfirmation(p) then Joined(st) else st)
  }

  function FrontOutcome(table: Table, st: Standing, p: Packet): Outcome {
    var n := Reads(table, st, p).count;
    if n > |p.payload| then Aborted(p.opcode)
    else if Runs(table, st, p) then Handled(p.(payload := p.payload[..n]))
    else if IsJoinConfirmation(p) then JoinConfirmation
    else if p.opcode !in table then Unhandled(p.opcode)
    else if st.recentlyLogout then Skipped(p.opcode)
    else Unexpected(p.opcode)
  }

  lemma AbortedIff(table: Table, st: Standing, p: Packet)
    ensures FrontOutcome(table, st, p).Aborted? <==> Reads(table, st, p).count > |p.payload|
  {
  }

  // What decides about a message, spelt out over the table and the session.

  /** A message is handled, or its handler reads past the end, exactly if it is no join confirmation, has
      a row, and the row asks for authentication, or for a logged-in player and there is one. The
      handler then sees the unread bytes, and the logout is forgotten only for the former. */
  lemma HandlerRunsIff(table: Table, st: Standing, p: Packet)
    ensures var o := FrontOutcome(table, st, p);
            o.Handled? || o.Aborted? <==>
              && (p.opcode != 0 || p.accountId != 0xFF)
              && p.opcode in table
              && (table[p.opcode].status == Authed || (table[p.opcode].status == LoggedIn && st.hasPlayer))
    ensures var o := FrontOutcome(table, st, p);
            o.Handled? || o.Aborted? ==>
              var seen := if table[p.opcode].status == Authed then st.(recentlyLogout := false) else st;
              var reading := table[p.opcode].run(seen, p.payload);
              && Reads(table, st, p) == reading
              && o == if reading.count <= |p.payload| then Handled(p.(payload := p.payload[..reading.count]))
                      else Aborted(p.opcode)
  {
  }

  /** Without a handler nothing is read, and only a first join confirmation changes anything. */
  lemma NoHandlerOutcome(table: Table, st: Standing, p: Packet)
    ensures var o, reading := FrontOutcome(table, st, p), Reads(table, st, p);
            !o.Handled? && !o.Aborted? ==>
              if p.opcode == 0 && p.accountId == 0xFF then
                && o == JoinConfirmation && reading.count == 0
                && reading.after.status == (if st.status == Authed then Confirmed else st.status)
                && reading.after == st.(status := reading.after.status)
              else
                && reading == Reading(0, st)
                && o == if p.opcode !in table then Unhandled(p.opcode)
                        else if st.recentlyLogout then Skipped(p.opcode)
                        else Unexpected(p.opcode)
  {
  }

  /** What is left of p once n bytes of it are done: nothing, or a packet whose opcode is the next
      unread byte. */
  function Remainder(p: Packet, n: nat): seq<Packet>
    requires n <= |p.payload|
  {
    var rest := p.payload[n..];
    if rest == [] then [] else [p.(opcode := rest[0], payload := rest[1..])]
  }

  function Rest(ps: seq<Packet>, n: nat): seq<Packet>
    requires ps != [] && n <= |ps[0].payload|
  {
    Remainder(ps[0], n) + ps[1..]
  }

  /** Unread bytes plus queued packets. */
  function Work(ps: seq<Packet>): nat {
    if ps == [] then 0 else 1 + |ps[0].payload| + Work(ps[1..])
  }

  lemma RestIsLess(ps: seq<Packet>, n: nat)
    requires ps != [] && n <= |ps[0].payload|
    ensures Work(Rest(ps, n)) == Work(ps) - 1 - n < Work(ps)
  {
    var first := Remainder(ps[0], n);
    if first == [] {
      assert Rest(ps, n) == ps[1..];
    } else {
      assert Rest(ps, n)[0] == first[0] && Rest(ps, n)[1..] == ps[1..];
    }
  }

  /** What the loop has done, how the session stands then, and whether the server still runs. */
  datatype Dispatched = Dispatched(outcomes: seq<Outcome>, standing: Standing, alive: bool)

  function Then(first: seq<Outcome>, d: Dispatched): Dispatched {
    d.(outcomes := first + d.outcomes)
  }

  lemma ThenThen(a: seq<Outcome>, b: seq<Outcome>, d: Dispatched)
    ensures Then(a, Then(b, d)) == Then(a + b, d)
  {
    assert a + (b + d.outcomes) == a + b + d.outcomes;
  }

  /** Everything the receive loop does with a queue of packets. It goes on while there is something to
      read and the session has a socket. */
  function Dispatch(table: Table, st: Standing, ps: seq<Packet>): Dispatched
    decreases Work(ps)
  {
    if ps == [] || !st.hasSocket then Dispatched([], st, true)
    else
      var outcome, reading := FrontOutcome(table, st, ps[0]), Reads(table, st, ps[0]);
      if reading.count > |ps[0].payload| then Dispatched([outcome], reading.after, false)
      else
        RestIsLess(ps, reading.count);
        Then([outcome], Dispatch(table, reading.after, Rest(ps, reading.count)))
  }

  lemma DispatchStep(table: Table, st: Standing, ps: seq<Packet>)
    requires ps != [] && st.hasSocket
    ensures var outcome, reading := FrontOutcome(table, st, ps[0]), Reads(table, st, ps[0]);
            Dispatch(table, st, ps) ==
            if reading.count > |ps[0].payload| then Dispatched([outcome], reading.after, false)
            else Then([outcome], Dispatch(table, reading.after, Rest(ps, reading.count)))
  {
  }

  // ---------------------------------------------------------------------------
  // What a player and a socket are needed for
  // ---------------------------------------------------------------------------

  /** No handler logs a player in. */
  ghost predicate NeverLogsIn(table: Table) {
    forall op: uint8, st: Standing, bytes: seq<uint8> :: op in table && !st.hasPlayer ==> !table[op].run(st, bytes).after.hasPlayer
  }

  /** No handler logs a player out. */
  ghost predicate NeverLogsOut(table: Table) {
    forall op: uint8, st: Standing, bytes: seq<uint8> :: op in table && st.hasPlayer ==> table[op].run(st, bytes).after.hasPlayer
  }

  /** Without a player, and as long as no handler makes one, no message of any queue that needs a player
      reaches a handler. */
  lemma {:induction false} NoPlayerNoGame(table: Table, st: Standing, ps: seq<Packet>)
    requires NeverLogsIn(table) && !st.hasPlayer
    ensures !Dispatch(table, st, ps).standing.hasPlayer
    ensures forall o <- Dispatch(table, st, ps).outcomes ::
              (o.Handled? ==> o.message.opcode in table && table[o.message.opcode].status == Authed)
              && (o.Aborted? ==> o.opcode in table && table[o.opcode].status == Authed)
    decreases Work(ps)
  {
    if ps != [] && st.hasSocket {
      hide FrontOutcome, Reads, Rest;
      var reading := Reads(table, st, ps[0]);
      HandlerRunsIff(table, st, ps[0]);
      NoHandlerOutcome(table, st, ps[0]);
      AbortedIff(table, st, ps[0]);
      if reading.count <= |ps[0].payload| {
        RestIsLess(ps, reading.count);
        NoPlayerNoGame(table, reading.after, Rest(ps, reading.count));
      }
    }
  }

  /** With a player, and as long as no handler logs it out, no message that needs one is turned away. */
  lemma {:induction false} PlayerIsServed(table: Table, st: Standing, ps: seq<Packet>)
    requires NeverLogsOut(table) && st.hasPlayer
    ensures Dispatch(table, st, ps).standing.hasPlayer
    ensures forall o <- Dispatch(table, st, ps).outcomes :: o.Unexpected? || o.Skipped? ==>
              o.opcode in table && table[o.opcode].status == Confirmed
    decreases Work(ps)
  {
    if ps != [] && st.hasSocket {
      hide FrontOutcome, Reads, Rest;
      var reading := Reads(table, st, ps[0]);
      HandlerRunsIff(table, st, ps[0]);
      NoHandlerOutcome(table, st, ps[0]);
      if reading.count <= |ps[0].payload| {
        RestIsLess(ps, reading.count);
        PlayerIsServed(table, reading.after, Rest(ps, reading.count));
      }
    }
  }

  /** The bytes of messages as dispatched: an opcode, and what its handler read. */
  function OutcomeBytes(os: seq<Outcome>): nat {
    if os == [] then 0 else 1 + (if os[0].Handled? then |os[0].message.payload| else 0) + OutcomeBytes(os[1..])
  }

  /** If the server still runs and the socket is still there, every byte of the queue was read: each is
      an opcode, or read by the handler of one. This holds for any handlers. */
  lemma {:induction false} EveryByteIsRead(table: Table, st: Standing, ps: seq<Packet>)
    ensures var d := Dispatch(table, st, ps);
            d.alive && d.standing.hasSocket ==> OutcomeBytes(d.outcomes) == Work(ps)
    decreases Work(ps)
  {
    if ps != [] && st.hasSocket {
      hide FrontOutcome, Reads, Rest;
      var reading := Reads(table, st, ps[0]);
      HandlerRunsIff(table, st, ps[0]);
      NoHandlerOutcome(table, st, ps[0]);
      if reading.count <= |ps[0].payload| {
        RestIsLess(ps, reading.count);
        EveryByteIsRead(table, reading.after, Rest(ps, reading.count));
        var later := Dispatch(table, reading.after, Rest(ps, reading.count)).outcomes;
        assert ([FrontOutcome(table, st, ps[0])] + later)[1..] == later;
      }
    }
  }

  /** There is a handler for m that reads exactly m's payload and does the same whatever follows it. */
  ghost predicate Deliverable(table: Table, st: Standing, m: Packet) {
    && st.hasSocket && Runs(table, st, m)
    && forall rest: seq<uint8> ::
         table[m.opcode].run(Entered(table[m.opcode], st), m.payload + rest) == Reading(|m.payload|, After(table, st, m))
  }

  function After(table: Table, st: Standing, m: Packet): Standing {
    Reads(table, st, m).after
  }

  function AfterAll(table: Table, st: Standing, ms: seq<Packet>): Standing
    decreases |ms|
  {
    if ms == [] then st else AfterAll(table, After(table, st, ms[0]), ms[1..])
  }

  /** Each message is deliverable as the session stands once those before it are handled. */
  ghost predicate AllDeliverable(table: Table, st: Standing, ms: seq<Packet>)
    decreases |ms|
  {
    ms != [] ==> Deliverable(table, st, ms[0]) && AllDeliverable(table, After(table, st, ms[0]), ms[1..])
  }

  lemma {:induction false} DeliverableSplit(table: Table, st: Standing, a: seq<Packet>, b: seq<Packet>)
    requires AllDeliverable(table, st, a + b)
    ensures AllDeliverable(table, st, a) && AllDeliverable(table, AfterAll(table, st, a), b)
    ensures AfterAll(table, st, a + b) == AfterAll(table, AfterAll(table, st, a), b)
    decreases |a|
  {
    hide Deliverable, After;
    if a == [] {
      assert a + b == b;
    } else {
      assert (a + b)[0] == a[0] && (a + b)[1..] == a[1..] + b;
      DeliverableSplit(table, After(table, st, a[0]), a[1..], b);
    }
  }

  function AllHandled(ms: seq<Packet>): seq<Outcome> {
    seq(|ms|, i requires 0 <= i < |ms| => Handled(ms[i]))
  }

  lemma {:induction false} TailFront(b: Batch)
    requires b != []
    ensures Tail(b) == [b[0].opcode] + b[0].payload + Tail(b[1..])
  {
    var n := |b| - 1;
    if n == 0 {
      assert b[..0] == [] && b[1..] == [];
    } else {
      var front, last := [b[0].opcode] + b[0].payload, [b[n].opcode] + b[n].payload;
      TailFront(b[..n]);
      assert b[..n][1..] == b[1..n] && b[1..][..n - 1] == b[1..n];
      assert Tail(b[1..]) == Tail(b[1..n]) + last;
      assert Tail(b) == front + Tail(b[1..n]) + last;
    }
  }

  /** A message in front of others is handled, and the others are next. */
  lemma DispatchFront(table: Table, st: Standing, m: Packet, later: Batch, ps: seq<Packet>)
    requires Deliverable(table, st, m) && (later != [] ==> SameKey(later[0], m))
    ensures var p := Encode([m] + later);
            && Reads(table, st, p) == Reading(|m.payload|, After(table, st, m))
            && |m.payload| <= |p.payload|
            && FrontOutcome(table, st, p) == Handled(m)
            && Rest([p] + ps, |m.payload|) == if later == [] then ps else [Encode(later)] + ps
  {
    var b := [m] + later;
    assert b[1..] == later;
    assert Encode(b).payload == m.payload + Tail(later);
    assert Encode(b).payload[|m.payload|..] == Tail(later);
    assert Encode(b).payload[..|m.payload|] == m.payload;
    assert ([Encode(b)] + ps)[1..] == ps;
    if later != [] {
      TailFront(later);
      assert Tail(later)[1..] == later[0].payload + Tail(later[1..]);
    }
  }

  lemma AllHandledFront(m: Packet, later: seq<Packet>)
    ensures AllHandled([m] + later) == [Handled(m)] + AllHandled(later)
  {
  }

  lemma AllHandledSum(a: seq<Packet>, b: seq<Packet>)
    ensures AllHandled(a + b) == AllHandled(a) + AllHandled(b)
  {
  }

  lemma ThenNothing(d: Dispatched)
    ensures Then(AllHandled([]), d) == d
  {
    assert AllHandled([]) + d.outcomes == d.outcomes;
  }

  /** Dispatching the encoding of a batch handles exactly its messages, in order, and then goes on
      with the packets behind it. */
  lemma {:induction false} DispatchUndoesEncode(table: Table, st: Standing, b: Batch, ps: seq<Packet>)
    requires IsBatch(b) && AllDeliverable(table, st, b)
    ensures Dispatch(table, st, [Encode(b)] + ps) == Then(AllHandled(b), Dispatch(table, AfterAll(table, st, b), ps))
    decreases |b|
  {
    hide Rest, FrontOutcome, Encode, Runs, Reads, After, Dispatch, AllHandled;
    var queue := [Encode(b)] + ps;
    var m, later := b[0], b[1..];
    var next := After(table, st, m);
    assert b == [m] + later;
    if later != [] {
      assert later[0] in b && forall p <- later :: p in b;
      assert IsBatch(later);
    }
    DispatchFront(table, st, m, later, ps);
    DispatchStep(table, st, queue);
    AllHandledFront(m, later);
    if later == [] {
      ThenNothing(Dispatch(table, next, ps));
    } else {
      DispatchUndoesEncode(table, next, later, ps);
    }
    ThenThen([Handled(m)], AllHandled(later), Dispatch(table, AfterAll(table, st, b), ps));
  }

  function Packets(sent: seq<Datagram>): seq<Packet> {
    seq(|sent|, i requires 0 <= i < |sent| => sent[i].packet)
  }

  lemma {:induction false} DispatchAllBatches(table: Table, st: Standing, sent: seq<Datagram>, batches: seq<Batch>,
                                              ps: seq<Packet>)
    requires Carries(sent, batches) && AllDeliverable(table, st, Flatten(batches))
    ensures Dispatch(table, st, Packets(sent) + ps)
         == Then(AllHandled(Flatten(batches)), Dispatch(table, AfterAll(table, st, Flatten(batches)), ps))
    decreases |sent|
  {
    hide Dispatch, Encode, Deliverable, AllDeliverable, AllHandled;
    if sent == [] {
      assert Packets(sent) + ps == ps;
      ThenNothing(Dispatch(table, st, ps));
    } else {
      var n := |sent| - 1;
      var b, before := batches[n], Flatten(batches[..n]);
      assert Flatten(batches) == before + b;
      DeliverableSplit(table, st, before, b);
      var middle := AfterAll(table, st, before);
      DispatchUndoesEncode(table, middle, b, ps);
      DispatchAllBatches(table, st, sent[..n], batches[..n], [Encode(b)] + ps);
      assert Packets(sent) + ps == Packets(sent[..n]) + ([Encode(b)] + ps);
      AllHandledSum(before, b);
      ThenThen(AllHandled(before), AllHandled(b), Dispatch(table, AfterAll(table, middle, b), ps));
    }
  }

  /** End to end: whatever a run sends and flushes, a receiver whose handlers read exactly their
      payloads handles the same messages, in the same order, under the same keys, each as the session
      stands after those before it. */
  lemma DispatchUndoesBatching(table: Table, st: Standing, w: Wire, actions: seq<Action>)
    requires w.sent == [] && w.pending.opcode == 0 && w.pending.payload == []
    requires actions != [] && actions[|actions| - 1].Flush? && ZeroNeverOpens(w, actions)
    requires AllDeliverable(table, st, Messages(actions))
    ensures Dispatch(table, st, Packets(Run(w, actions).sent))
         == Dispatched(AllHandled(Messages(actions)), AfterAll(table, st, Messages(actions)), true)
  {
    hide AllDeliverable, ZeroNeverOpens, Run, Messages, AllHandled;
    ConservesIff(w, actions);
    var sent := Run(w, actions).sent;
    var batches :| Carries(sent, batches) && Flatten(batches) == Messages(actions);
    DispatchAllBatches(table, st, sent, batches, []);
    assert Packets(sent) + [] == Packets(sent);
    assert AllHandled(Messages(actions)) + [] == AllHandled(Messages(actions));
  }
}
