/** What travels between a session and its client: messages, the datagrams that batch them, and the
    dispatch of a datagram back into messages. These are the specifications of the methods in
    WorldSession.dfy. */
module PacketBatching {

  newtype uint8 = x: int | 0 <= x < 0x100

  /** The value of a packet: one message, or a datagram whose payload goes on with more messages. */
  datatype Packet = Packet(opcode: uint8, accountId: uint8, unk: uint8, payload: seq<uint8>)

  /** A packet handed to the socket, with the address and xor key stamped on it. */
  datatype Datagram = Datagram(packet: Packet, client: nat, xorKey: uint8)

  /** The socket's queue and the packet being combined. Opcode 0 marks the latter as empty. */
  datatype Wire = Wire(sent: seq<Datagram>, pending: Packet, client: nat, xorKey: uint8)

  // ---------------------------------------------------------------------------
  // Batching
  // ---------------------------------------------------------------------------

  predicate SameKey(p: Packet, q: Packet) {
    p.unk == q.unk && p.accountId == q.accountId
  }

  /** Hand the combined packet to the socket and empty it. Its unk stays behind. */
  function Flushed(w: Wire): Wire {
    w.(sent := w.sent + [Datagram(w.pending, w.client, w.xorKey)], pending := Packet(0, 0, w.pending.unk, []))
  }

  /** The message does not join the pending batch. */
  predicate Opens(w: Wire, p: Packet) {
    w.pending.opcode == 0 || !SameKey(p, w.pending)
  }

  /** A message joins the combined packet, which takes its opcode and key from the first. */
  function Combined(pending: Packet, p: Packet): Packet {
    if pending.opcode == 0 then p.(payload := pending.payload + p.payload)
    else pending.(payload := pending.payload + [p.opcode] + p.payload)
  }

  function Sent(w: Wire, p: Packet): Wire {
    var v := if w.pending.opcode != 0 && !SameKey(p, w.pending) then Flushed(w) else w;
    v.(pending := Combined(v.pending, p))
  }

  /** What a session does to its wire: send a message, or flush at the end of an update. */
  datatype Action = Send(p: Packet) | Flush

  function Step(w: Wire, a: Action): Wire {
    match a
    case Send(p) => Sent(w, p)
    case Flush => if w.pending.opcode != 0 then Flushed(w) else w
  }

  function Run(w: Wire, actions: seq<Action>): Wire {
    if actions == [] then w else Step(Run(w, actions[..|actions| - 1]), actions[|actions| - 1])
  }

  function Messages(actions: seq<Action>): seq<Packet> {
    if actions == [] then []
    else Messages(actions[..|actions| - 1])
         + match actions[|actions| - 1] case Send(p) => [p] case Flush => []
  }

  /** No message with opcode 0 opens a batch. Opcode 0 inside a batch is harmless. */
  predicate ZeroNeverOpens(w: Wire, actions: seq<Action>) {
    actions == [] ||
    var before, a := actions[..|actions| - 1], actions[|actions| - 1];
    ZeroNeverOpens(w, before) && (a.Send? && a.p.opcode == 0 ==> !Opens(Run(w, before), a.p))
  }

  // ---------------------------------------------------------------------------
  // The messages a datagram stands for
  // ---------------------------------------------------------------------------

  type Batch = seq<Packet>

  /** Not empty, and all under one account id and unk. */
  ghost predicate IsBatch(b: Batch) {
    b != [] && forall p <- b :: p.unk == b[0].unk && p.accountId == b[0].accountId
  }

  /** Messages after the first are written as opcode and payload. */
  function Tail(b: Batch): seq<uint8> {
    if b == [] then [] else Tail(b[..|b| - 1]) + ([b[|b| - 1].opcode] + b[|b| - 1].payload)
  }

  function Encode(b: Batch): Packet
    requires b != []
  {
    b[0].(payload := b[0].payload + Tail(b[1..]))
  }

  function Flatten(batches: seq<Batch>): seq<Packet> {
    if batches == [] then [] else Flatten(batches[..|batches| - 1]) + batches[|batches| - 1]
  }

  /** The datagrams are exactly the encodings of the batches, in order. */
  ghost predicate Carries(sent: seq<Datagram>, batches: seq<Batch>) {
    && |sent| == |batches|
    && forall i :: 0 <= i < |sent| ==> IsBatch(batches[i]) && sent[i].packet == Encode(batches[i])
  }

  function Empty(client: nat, xorKey: uint8, unk: uint8): Wire {
    Wire([], Packet(0, 0, unk, []), client, xorKey)
  }

  /** The open batch as the pending packet stands for it. */
  ghost predicate Pends(pending: Packet, open: Batch) {
    if open == [] then pending.opcode == 0 && pending.payload == []
    else IsBatch(open) && open[0].opcode != 0 && pending == Encode(open)
  }

  lemma EncodeMore(b: Batch, p: Packet)
    requires b != []
    ensures Encode(b + [p]) == Encode(b).(payload := Encode(b).payload + [p.opcode] + p.payload)
  {
    assert (b + [p])[1..] == b[1..] + [p];
    assert (b[1..] + [p])[..|b| - 1] == b[1..];
    assert b[0].payload + (Tail(b[1..]) + ([p.opcode] + p.payload))
        == b[0].payload + Tail(b[1..]) + [p.opcode] + p.payload;
  }

  lemma EncodeOne(p: Packet)
    ensures Encode([p]) == p
  {
    assert p.payload + [] == p.payload;
  }

  lemma FlattenMore(batches: seq<Batch>, b: Batch)
    ensures Flatten(batches + [b]) == Flatten(batches) + b
  {
    assert (batches + [b])[..|batches|] == batches;
  }

  /** The batches a run has sent and the one still open, for a wire that started empty. */
  ghost function Grouped(w: Wire, actions: seq<Action>): (r: (seq<Batch>, Batch)) {
    if actions == [] then ([], [])
    else
      var (batches, open) := Grouped(w, actions[..|actions| - 1]);
      var a := actions[|actions| - 1];
      match a
      case Send(p) =>
        if open != [] && !SameKey(p, open[0]) then (batches + [open], [p]) else (batches, open + [p])
      case Flush => if open != [] then (batches + [open], []) else (batches, open)
  }

  lemma {:induction false} RunGroups(w: Wire, actions: seq<Action>)
    requires w.sent == [] && w.pending.opcode == 0 && w.pending.payload == []
    requires ZeroNeverOpens(w, actions)
    ensures var (batches, open) := Grouped(w, actions);
            && Carries(Run(w, actions).sent, batches)
            && Pends(Run(w, actions).pending, open)
            && Flatten(batches) + open == Messages(actions)
  {
    if actions == [] {
    } else {
      var before, a := actions[..|actions| - 1], actions[|actions| - 1];
      RunGroups(w, before);
      var (batches, open) := Grouped(w, before);
      GroupStep(Run(w, before), batches, open, a);
      if a.Send? {
        assert Flatten(batches) + (open + [a.p]) == Flatten(batches) + open + [a.p];
      }
      FlattenMore(batches, open);
    }
  }

  lemma GroupStep(w: Wire, batches: seq<Batch>, open: Batch, a: Action)
    requires Carries(w.sent, batches) && Pends(w.pending, open)
    requires a.Send? && a.p.opcode == 0 ==> !Opens(w, a.p)
    ensures var v := Step(w, a);
            match a
            case Send(p) =>
              if open != [] && !SameKey(p, open[0]) then Carries(v.sent, batches + [open]) && Pends(v.pending, [p])
              else Carries(v.sent, batches) && Pends(v.pending, open + [p])
            case Flush =>
              if open != [] then Carries(v.sent, batches + [open]) && Pends(v.pending, [])
              else Carries(v.sent, batches) && Pends(v.pending, open)
  {
    match a
    case Send(p) =>
      EncodeOne(p);
      if open == [] {
        assert open + [p] == [p];
      } else {
        EncodeMore(open, p);
      }
    case Flush =>
  }

  /** The datagrams a run emits hold its messages, whole, in order, each under its own key. */
  ghost predicate Conserves(w: Wire, actions: seq<Action>) {
    exists batches :: Carries(Run(w, actions).sent, batches) && Flatten(batches) == Messages(actions)
  }

  // A byte count that no grouping changes shows what a lost opcode costs.

  function PacketBytes(p: Packet): nat {
    1 + |p.payload|
  }

  function Bytes(ps: seq<Packet>): nat {
    if ps == [] then 0 else Bytes(ps[..|ps| - 1]) + PacketBytes(ps[|ps| - 1])
  }

  function SentBytes(sent: seq<Datagram>): nat {
    if sent == [] then 0 else SentBytes(sent[..|sent| - 1]) + PacketBytes(sent[|sent| - 1].packet)
  }

  /** Bytes sent and pending; a pending packet without opcode has only its payload. */
  function WireBytes(w: Wire): nat {
    SentBytes(w.sent) + |w.pending.payload| + if w.pending.opcode != 0 then 1 else 0
  }

  lemma {:induction false} BytesOfSum(a: seq<Packet>, b: seq<Packet>)
    ensures Bytes(a + b) == Bytes(a) + Bytes(b)
  {
    if b == [] {
      assert a + b == a;
    } else {
      BytesOfSum(a, b[..|b| - 1]);
      assert (a + b)[..|a + b| - 1] == a + b[..|b| - 1];
    }
  }

  lemma {:induction false} TailBytes(b: Batch)
    ensures |Tail(b)| == Bytes(b)
  {
    if b != [] {
      TailBytes(b[..|b| - 1]);
    }
  }

  lemma EncodeBytes(b: Batch)
    requires b != []
    ensures PacketBytes(Encode(b)) == Bytes(b)
  {
    TailBytes(b[1..]);
    assert b == [b[0]] + b[1..];
    BytesOfSum([b[0]], b[1..]);
    assert Bytes([b[0]]) == PacketBytes(b[0]) by {
      assert [b[0]][..0] == [];
    }
  }

  lemma {:induction false} CarriedBytes(sent: seq<Datagram>, batches: seq<Batch>)
    requires Carries(sent, batches)
    ensures SentBytes(sent) == Bytes(Flatten(batches))
  {
    if sent != [] {
      var n := |sent| - 1;
      CarriedBytes(sent[..n], batches[..n]);
      EncodeBytes(batches[n]);
      BytesOfSum(Flatten(batches[..n]), batches[n]);
    }
  }

  lemma FlushedBytes(w: Wire)
    requires w.pending.opcode != 0
    ensures WireBytes(Flushed(w)) == WireBytes(w)
  {
    assert Flushed(w).sent[..|w.sent|] == w.sent;
  }

  /** Sending adds the message's bytes, but for the opcode of a zero that opens a batch. */
  lemma SentBytesGrow(w: Wire, p: Packet)
    ensures WireBytes(Sent(w, p)) == WireBytes(w) + PacketBytes(p) - if p.opcode == 0 && Opens(w, p) then 1 else 0
  {
    if w.pending.opcode != 0 && !SameKey(p, w.pending) {
      FlushedBytes(w);
    }
  }

  lemma {:induction false} RunBytes(w: Wire, actions: seq<Action>)
    ensures WireBytes(Run(w, actions)) <= WireBytes(w) + Bytes(Messages(actions))
    ensures !ZeroNeverOpens(w, actions) ==> WireBytes(Run(w, actions)) < WireBytes(w) + Bytes(Messages(actions))
  {
    if actions == [] {
    } else {
      var before, a := actions[..|actions| - 1], actions[|actions| - 1];
      RunBytes(w, before);
      match a
      case Send(p) =>
        SentBytesGrow(Run(w, before), p);
        BytesOfSum(Messages(before), [p]);
        assert Bytes([p]) == PacketBytes(p) by {
          assert [p][..0] == [];
        }
      case Flush =>
        if Run(w, before).pending.opcode != 0 {
          FlushedBytes(Run(w, before));
        }
        assert Messages(before) + [] == Messages(before);
    }
  }

  /** Over any run that starts empty and ends with a flush, every message travels whole, in order and
      under its own account id and unk, exactly when no message with opcode 0 opens a batch. */
  lemma ConservesIff(w: Wire, actions: seq<Action>)
    requires w.sent == [] && w.pending.opcode == 0 && w.pending.payload == []
    requires actions != [] && actions[|actions| - 1].Flush?
    ensures Conserves(w, actions) <==> ZeroNeverOpens(w, actions)
  {
    if ZeroNeverOpens(w, actions) {
      RunGroups(w, actions);
      var (batches, open) := Grouped(w, actions);
      assert open == [];
      assert Flatten(batches) + [] == Flatten(batches);
    } else {
      RunBytes(w, actions);
      if Conserves(w, actions) {
        var batches :| Carries(Run(w, actions).sent, batches) && Flatten(batches) == Messages(actions);
        CarriedBytes(Run(w, actions).sent, batches);
      }
    }
  }

  /** The smallest loss: a lone message with opcode 0 never reaches the socket. */
  lemma ZeroOpcodeLost(w: Wire, p: Packet)
    requires w.sent == [] && w.pending.opcode == 0 && w.pending.payload == []
    requires p.opcode == 0
    ensures Run(w, [Send(p), Flush]).sent == [] && !Conserves(w, [Send(p), Flush])
  {
    var actions := [Send(p), Flush];
    assert actions[..1] == [Send(p)] && [Send(p)][..0] == [];
    assert Run(w, [Send(p)]) == Sent(w, p);
    assert !ZeroNeverOpens(w, [Send(p)]);
    ConservesIff(w, actions);
  }

  /** Every datagram of a run carries the session's address and xor key, and what was sent stays sent. */
  lemma {:induction false} AllStamped(w: Wire, actions: seq<Action>)
    ensures var v := Run(w, actions);
            && v.client == w.client && v.xorKey == w.xorKey
            && |w.sent| <= |v.sent| && v.sent[..|w.sent|] == w.sent
            && forall d <- v.sent[|w.sent|..] :: d.client == w.client && d.xorKey == w.xorKey
  {
    if actions != [] {
      var before, a := actions[..|actions| - 1], actions[|actions| - 1];
      AllStamped(w, before);
      StampedStep(Run(w, before), a);
      var u, v := Run(w, before).sent, Run(w, actions).sent;
      assert v[..|w.sent|] == u[..|w.sent|];
      assert v[|w.sent|..] == u[|w.sent|..] + v[|u|..];
    }
  }

  lemma StampedStep(w: Wire, a: Action)
    ensures var v := Step(w, a);
            && v.client == w.client && v.xorKey == w.xorKey
            && |w.sent| <= |v.sent| && v.sent[..|w.sent|] == w.sent
            && forall d <- v.sent[|w.sent|..] :: d.client == w.client && d.xorKey == w.xorKey
  {
    assert w.sent[|w.sent|..] == [];
    assert forall d :: (w.sent + [d])[..|w.sent|] == w.sent && (w.sent + [d])[|w.sent|..] == [d];
  }

  // ---------------------------------------------------------------------------
  // How much is combined
  // ---------------------------------------------------------------------------

  function Sends(ms: seq<Packet>): seq<Action> {
    seq(|ms|, i requires 0 <= i < |ms| => Send(ms[i]))
  }

  /** How often a message has another account id or unk than the one before. */
  function KeyChanges(ms: seq<Packet>): nat {
    if |ms| < 2 then 0
    else
      var n := |ms| - 1;
      KeyChanges(ms[..n]) + if ms[n].unk == ms[n - 1].unk && ms[n].accountId == ms[n - 1].accountId then 0 else 1
  }

  /** Messages are combined whenever they can be: sending closes a datagram only where the key changes,
      and the last one waits for a flush. */
  lemma {:induction false} ClosedDatagrams(w: Wire, ms: seq<Packet>)
    requires w.pending.opcode == 0 && ms != [] && forall m <- ms :: m.opcode != 0
    ensures var v := Run(w, Sends(ms));
            && |v.sent| == |w.sent| + KeyChanges(ms)
            && v.pending.opcode != 0
            && v.pending.unk == ms[|ms| - 1].unk && v.pending.accountId == ms[|ms| - 1].accountId
    decreases |ms|
  {
    var n := |ms| - 1;
    assert Sends(ms)[..n] == Sends(ms[..n]);
    if n == 0 {
      assert Run(w, Sends(ms)[..0]) == w;
    } else {
      ClosedDatagrams(w, ms[..n]);
    }
  }
}
