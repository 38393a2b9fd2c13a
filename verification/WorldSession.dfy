/** The session of src/game/WorldSession.cpp, as far as it sends, receives and transfers the map. */
module WorldSession {
  import opened PacketBatching
  import opened PacketDispatch
  import MapTransfer

  class WorldPacket {
    var opcode: uint8
    var accountId: uint8
    var unk: uint8
    var xorKey: uint8
    var client: nat
    var storage: seq<uint8>
    var rpos: nat

    constructor (opcode: uint8, id: uint8, client: nat)
      ensures View() == Packet(opcode, id, 0, []) && rpos == 0 && storage == []
    {
      this.opcode, this.accountId, this.client := opcode, id, client;
      unk, xorKey, storage, rpos := 0, 0, [], 0;
    }

    /** The packet as its reader sees it: what is before rpos is done. */
    function View(): Packet
      reads this
    {
      Packet(opcode, accountId, unk, if rpos <= |storage| then storage[rpos..] else [])
    }

    /** Clears the contents and everything but unk and xor. */
    method Initialize(opcode: uint8)
      modifies this
      ensures View() == Packet(opcode, 0, old(unk), []) && rpos == 0 && storage == []
    {
      storage, rpos := [], 0;
      this.opcode, client, accountId := opcode, 0, 0;
    }

    method Append(bytes: seq<uint8>)
      modifies `storage
      ensures storage == old(storage) + bytes
    {
      storage := storage + bytes;
    }
  }

  ghost function Views(ps: seq<WorldPacket>): seq<Packet>
    reads ps
  {
    seq(|ps|, i requires 0 <= i < |ps| reads ps => ps[i].View())
  }

  ghost function MaybeView(p: WorldPacket?): seq<Packet>
    reads if p == null then {} else {p}
  {
    if p == null then [] else [p.View()]
  }

  class Session {
    const sendPacket: WorldPacket
    const nxz: seq<uint8>
    const nxzName: seq<uint8>
    const table: Table

    var hasSocket: bool
    /** Everything handed to the socket so far. */
    var sent: seq<Datagram>
    var client: nat
    var xorKey: uint8
    var unk: uint8
    var unk2: uint8
    var playerLoading: bool
    var playerDownloading: int
    var status: SessionStatus
    var hasPlayer: bool
    var recentlyLogout: bool
    var recvQueue: seq<WorldPacket>
    /** What the receive loop has done so far. */
    var outcomes: seq<Outcome>

    /** The combined packet is only ever appended to. */
    ghost predicate Valid()
      reads this, sendPacket
    {
      sendPacket.rpos == 0
    }

    ghost function CurrentWire(): Wire
      reads this, sendPacket
    {
      Wire(sent, sendPacket.View(), client, xorKey)
    }

    /** Without a socket the combined packet is emptied all the same. */
    ghost function Dropped(w: Wire): Wire {
      w.(pending := Packet(0, 0, w.pending.unk, []))
    }

    /** What sending a message does to the wire; without a socket nothing. */
    ghost function AfterSend(w: Wire, p: Packet): Wire
      reads `hasSocket
    {
      if hasSocket then Step(w, Send(p)) else w
    }

    ghost function CurrentTransfer(): MapTransfer.Transfer
      reads this
    {
      MapTransfer.Transfer(playerDownloading, unk2)
    }

    /** The part of the session that the receive loop looks at. */
    function CurrentStanding(): Standing
      reads `status, `hasPlayer, `recentlyLogout, `hasSocket
    {
      Standing(status, hasPlayer, recentlyLogout, hasSocket)
    }

    constructor (hasSocket: bool, client: nat, table: Table, nxz: seq<uint8>, nxzName: seq<uint8>)
      ensures Valid() && CurrentWire() == Empty(client, 0, 0) && CurrentTransfer().downloading == 0
      ensures QueueOk() && Unread(null) == [] && outcomes == []
      ensures CurrentStanding() == Standing(Authed, false, false, hasSocket)
    {
      sendPacket := new WorldPacket(0, 0, 0);
      this.hasSocket, this.client, this.table, this.nxz, this.nxzName := hasSocket, client, table, nxz, nxzName;
      sent, xorKey, unk, unk2 := [], 0, 0, 0;
      playerLoading, playerDownloading, status, hasPlayer, recentlyLogout := false, 0, Authed, false, false;
      recvQueue, outcomes := [], [];
    }

    // -------------------------------------------------------------------------
    // Sending
    // -------------------------------------------------------------------------

    method SendPacket(packet: WorldPacket, ifReady: bool, changeUnk: bool)
      requires Valid() && packet != sendPacket && packet.rpos == 0
      modifies `sent, sendPacket, packet`unk
      ensures Valid()
      ensures var admitted := hasSocket && (!ifReady || !playerLoading);
              && packet.unk == (if admitted && changeUnk then unk else old(packet.unk))
              && CurrentWire() == if admitted then Step(old(CurrentWire()), Send(packet.View())) else old(CurrentWire())
    {
      hide Combined;
      if hasSocket && (!ifReady || !playerLoading) {
        if changeUnk {
          packet.unk := unk;
        }
        if sendPacket.opcode != 0 && (packet.unk != sendPacket.unk || packet.accountId != sendPacket.accountId) {
          FlushPacket();
        }
        Combine(packet);
      }
    }

    /** Append a message to the combined packet. */
    method Combine(packet: WorldPacket)
      requires Valid() && packet != sendPacket && packet.rpos == 0
      modifies sendPacket
      ensures Valid() && sendPacket.View() == Combined(old(sendPacket.View()), packet.View())
    {
      if sendPacket.opcode == 0 {
        sendPacket.opcode := packet.opcode;
        sendPacket.accountId := packet.accountId;
        sendPacket.unk := packet.unk;
      } else {
        sendPacket.Append([packet.opcode]);
      }
      if |packet.storage| > 0 {
        sendPacket.Append(packet.storage);
      }
    }

    /** Hand the combined packet to the socket, if there is one, and empty it. */
    method FlushPacket()
      requires Valid()
      modifies `sent, sendPacket
      ensures Valid()
      ensures CurrentWire() == if hasSocket then Flushed(old(CurrentWire())) else Dropped(old(CurrentWire()))
      ensures sent == old(sent) + if hasSocket then [Datagram(old(sendPacket.View()), client, xorKey)] else []
      ensures sendPacket.opcode == 0 && sendPacket.storage == []
    {
      if hasSocket {
        sendPacket.client := client;
        sendPacket.xorKey := xorKey;
        sent := sent + [Datagram(Packet(sendPacket.opcode, sendPacket.accountId, sendPacket.unk, sendPacket.storage),
                                 sendPacket.client, sendPacket.xorKey)];
      }
      sendPacket.Initialize(0);
    }

    /** The end of an update: flush, then one step of the map transfer. */
    method FinishUpdate()
      requires Valid()
      modifies `sent, `unk2, `playerDownloading, sendPacket
      ensures Valid()
      ensures var t, w := old(CurrentTransfer()), old(CurrentWire());
              var flushed := if hasSocket then Step(w, Flush) else if w.pending.opcode != 0 then Dropped(w) else w;
              && CurrentTransfer() == MapTransfer.After(nxz, t, MapTransfer.Tick)
              && CurrentWire() == if t.downloading > 0
                                  then AfterSend(flushed, MapTransfer.ChunkPacket(nxz, t.downloading, unk2))
                                  else flushed
    {
      if sendPacket.opcode != 0 {
        FlushPacket();
      }
      if playerDownloading > 0 {
        SendMapSendPacket();
      }
    }

    // -------------------------------------------------------------------------
    // Receiving
    // -------------------------------------------------------------------------

    /** The packet being read, if any, and those of the queue, in order. */
    ghost function Unread(current: WorldPacket?): seq<Packet>
      reads `recvQueue, recvQueue, if current == null then {} else {current}
    {
      MaybeView(current) + Views(recvQueue)
    }

    ghost predicate QueueOk()
      reads `recvQueue, recvQueue
    {
      && (forall p <- recvQueue :: p.rpos <= |p.storage| && p != sendPacket)
      && (forall i, j :: 0 <= i < j < |recvQueue| ==> recvQueue[i] != recvQueue[j])
    }

    method Copy(packet: WorldPacket) returns (copy: WorldPacket)
      requires packet.rpos <= |packet.storage|
      ensures fresh(copy) && copy.View() == packet.View() && copy.rpos <= |copy.storage|
    {
      copy := new WorldPacket(packet.opcode, packet.accountId, packet.client);
      copy.unk, copy.xorKey, copy.storage, copy.rpos := packet.unk, packet.xorKey, packet.storage, packet.rpos;
    }

    method QueuePacket(packet: WorldPacket)
      requires QueueOk() && packet.rpos <= |packet.storage|
      modifies `recvQueue
      ensures QueueOk() && Unread(null) == old(Unread(null)) + [packet.View()]
    {
      hide WorldPacket.View;
      var copy := Copy(packet);
      ghost var before := recvQueue;
      recvQueue := recvQueue + [copy];
      assert forall i :: 0 <= i < |before| ==> recvQueue[i] == before[i];
    }

    /** Let a handler read; its effect on the session is whatever the table says. */
    method RunHandler(packet: WorldPacket, handler: Handler) returns (outcome: Outcome)
      requires packet.rpos <= |packet.storage|
      modifies packet`rpos, `status, `hasPlayer, `recentlyLogout, `hasSocket
      ensures var p := old(packet.View());
              var reading := handler.run(old(CurrentStanding()), p.payload);
              && packet.rpos == old(packet.rpos) + reading.count && CurrentStanding() == reading.after
              && outcome == if reading.count > |p.payload| then Aborted(p.opcode)
                            else Handled(p.(payload := p.payload[..reading.count]))
    {
      var p := packet.View();
      var reading := handler.run(CurrentStanding(), p.payload);
      packet.rpos := packet.rpos + reading.count;
      status, hasPlayer := reading.after.status, reading.after.hasPlayer;
      recentlyLogout, hasSocket := reading.after.recentlyLogout, reading.after.hasSocket;
      outcome := if packet.rpos > |packet.storage| then Aborted(packet.opcode)
                 else Handled(p.(payload := p.payload[..reading.count]));
    }

    /** Look the opcode up and let its handler read. */
    method CallHandler(packet: WorldPacket) returns (outcome: Outcome)
      requires packet.rpos <= |packet.storage|
      modifies packet`rpos, `status, `hasPlayer, `recentlyLogout, `hasSocket
      ensures var st, p := old(CurrentStanding()), old(packet.View());
              && outcome == FrontOutcome(table, st, p)
              && packet.rpos == old(packet.rpos) + Reads(table, st, p).count
              && CurrentStanding() == Reads(table, st, p).after
    {
      if packet.opcode == 0 && packet.accountId == 0xFF {
        if status == Authed {
          status := Confirmed;
        }
        outcome := JoinConfirmation;
      } else if packet.opcode !in table {
        outcome := Unhandled(packet.opcode);
      } else {
        var handler := table[packet.opcode];
        if handler.status == LoggedIn && hasPlayer {
          outcome := RunHandler(packet, handler);
        } else if handler.status == Authed {
          recentlyLogout := false;
          outcome := RunHandler(packet, handler);
        } else if !recentlyLogout {
          outcome := Unexpected(packet.opcode);
        } else {
          outcome := Skipped(packet.opcode);
        }
      }
    }

    /** One pass of the loop body for the packet at hand; null when the packet is used up. */
    method HandleFront(packet: WorldPacket) returns (alive: bool, next: WorldPacket?)
      requires packet.rpos <= |packet.storage|
      modifies packet`rpos, packet`opcode, `status, `hasPlayer, `recentlyLogout, `hasSocket, `outcomes
      ensures var st, p := old(CurrentStanding()), old(packet.View());
              var reading := Reads(table, st, p);
              && outcomes == old(outcomes) + [FrontOutcome(table, st, p)]
              && CurrentStanding() == reading.after
              && alive == (reading.count <= |p.payload|)
              && (alive ==> (next == null || next == packet) && packet.rpos <= |packet.storage|
                            && MaybeView(next) == Remainder(p, reading.count))
    {
      hide FrontOutcome, Reads;
      ghost var st, p := CurrentStanding(), packet.View();
      var outcome := CallHandler(packet);
      AbortedIff(table, st, p);
      outcomes := outcomes + [outcome];
      if outcome.Aborted? {
        return false, null;
      }
      assert packet.storage[packet.rpos..] == p.payload[Reads(table, st, p).count..];
      if packet.rpos == |packet.storage| {
        next := null;
      } else {
        packet.opcode := packet.storage[packet.rpos];
        packet.rpos := packet.rpos + 1;
        next := packet;
      }
      alive := true;
    }

    method TakeFront() returns (packet: WorldPacket)
      requires QueueOk() && recvQueue != []
      modifies `recvQueue
      ensures packet in old(recvQueue) && forall q <- recvQueue :: q in old(recvQueue)
      ensures QueueOk() && packet !in recvQueue && packet.rpos <= |packet.storage|
      ensures Unread(packet) == old(Unread(null))
    {
      packet := recvQueue[0];
      recvQueue := recvQueue[1..];
    }

    /** HandleFront in terms of all that is unread. */
    method ReceiveNext(packet: WorldPacket) returns (alive: bool, next: WorldPacket?)
      requires QueueOk() && hasSocket && packet.rpos <= |packet.storage| && packet !in recvQueue
      modifies packet`rpos, packet`opcode, `status, `hasPlayer, `recentlyLogout, `hasSocket, `outcomes
      ensures QueueOk()
      ensures alive ==> (next == null || next == packet) && packet.rpos <= |packet.storage|
      ensures alive ==> Work(Unread(next)) < Work(old(Unread(packet)))
      ensures Then(old(outcomes), Dispatch(table, old(CurrentStanding()), old(Unread(packet))))
           == if alive then Then(outcomes, Dispatch(table, CurrentStanding(), Unread(next)))
              else Dispatched(outcomes, CurrentStanding(), false)
    {
      hide Remainder, FrontOutcome, Reads, Dispatch, QueueOk, Work, WorldPacket.View, CurrentStanding;
      ghost var st, before, queued := CurrentStanding(), Unread(packet), Views(recvQueue);
      ghost var reading := Reads(table, st, packet.View());
      assert before[0] == packet.View() && before[1..] == queued;
      assert st.hasSocket by {
        HasSocket();
      }
      DispatchStep(table, st, before);
      alive, next := HandleFront(packet);
      if alive {
        assert Unread(next) == Rest(before, reading.count) by {
          assert Views(recvQueue) == queued;
        }
        RestIsLess(before, reading.count);
        ThenThen(old(outcomes), [FrontOutcome(table, st, before[0])], Dispatch(table, reading.after, Unread(next)));
      }
    }

    lemma HasSocket()
      ensures CurrentStanding().hasSocket == hasSocket
    {
    }

    /** The receive loop. It ends because every pass reads a byte or uses up a packet. */
    method ReceiveAll() returns (alive: bool)
      requires QueueOk()
      modifies `recvQueue, `status, `hasPlayer, `recentlyLogout, `hasSocket, `outcomes, recvQueue
      ensures Dispatched(outcomes, CurrentStanding(), alive)
           == Then(old(outcomes), Dispatch(table, old(CurrentStanding()), old(Unread(null))))
      ensures alive ==> QueueOk() && (hasSocket ==> recvQueue == [])
      ensures !old(hasSocket) ==> recvQueue == old(recvQueue)
    {
      hide QueueOk, Unread, Dispatch, Work, CurrentStanding;
      ghost var all := Then(outcomes, Dispatch(table, CurrentStanding(), Unread(null)));
      ghost var packets := recvQueue;
      var packet: WorldPacket? := null;
      while (packet != null || recvQueue != []) && hasSocket
        invariant QueueOk() && (forall q <- recvQueue :: q in packets)
        invariant packet != null ==> packet in packets && packet !in recvQueue && packet.rpos <= |packet.storage|
        invariant Then(outcomes, Dispatch(table, CurrentStanding(), Unread(packet))) == all
        invariant !old(hasSocket) ==> !hasSocket && recvQueue == old(recvQueue)
        decreases Work(Unread(packet)), packet == null
      {
        if packet == null {
          packet := TakeFront();
        }
        alive, packet := ReceiveNext(packet);
        if !alive {
          return false;
        }
      }
      NothingToDo(packet);
      alive := true;
    }

    lemma NothingToDo(packet: WorldPacket?)
      requires !hasSocket || (packet == null && recvQueue == [])
      ensures Then(outcomes, Dispatch(table, CurrentStanding(), Unread(packet))) == Dispatched(outcomes, CurrentStanding(), true)
    {
    }

    // -------------------------------------------------------------------------
    // The map transfer
    // -------------------------------------------------------------------------

    method BuildStartPacket() returns (packet: WorldPacket)
      ensures fresh(packet) && packet.rpos == 0
      ensures packet.View() == MapTransfer.StartPacket(|nxz|, nxzName, 0)
    {
      packet := new WorldPacket(MapTransfer.MSG_MAP_SEND_START, 0x80, client);
      packet.Append([0xF8]);
      packet.Append(MapTransfer.LittleEndian16(0x13));
      packet.Append(MapTransfer.LittleEndian32(|nxz|));
      packet.Append(nxzName);
    }

    method BuildChunkPacket(data: seq<uint8>) returns (packet: WorldPacket)
      requires playerDownloading > 0 && data == MapTransfer.Chunk(nxz, playerDownloading)
      ensures fresh(packet) && packet.rpos == 0
      ensures packet.View() == MapTransfer.ChunkPacket(nxz, playerDownloading, unk2)
    {
      packet := new WorldPacket(MapTransfer.MSG_MAP_SEND_PACKET, 0x80, client);
      packet.Append([0xF8]);
      packet.Append(MapTransfer.LittleEndian16(playerDownloading));
      packet.Append(MapTransfer.LittleEndian16(|data|));
      packet.Append(data);
      packet.unk := unk2;
    }

    method SendMapSendStart()
      requires Valid()
      modifies `sent, `unk2, `playerDownloading, sendPacket
      ensures Valid()
      ensures CurrentTransfer() == MapTransfer.After(nxz, old(CurrentTransfer()), MapTransfer.Request(unk))
      ensures old(playerDownloading) == 0 ==> playerDownloading == 1 && unk2 == unk
      ensures old(playerDownloading) != 0 ==> playerDownloading == old(playerDownloading) && unk2 == old(unk2)
      ensures CurrentWire() == if old(playerDownloading) == 0
                               then AfterSend(old(CurrentWire()), MapTransfer.StartPacket(|nxz|, nxzName, unk))
                               else old(CurrentWire())
    {
      if playerDownloading == 0 {
        var packet := BuildStartPacket();
        SendPacket(packet, false, true);
        playerDownloading := 1;
        unk2 := unk;
      }
    }

    /** Read the next chunk of the file. */
    method ReadChunk() returns (data: seq<uint8>)
      requires playerDownloading > 0
      ensures data == MapTransfer.Chunk(nxz, playerDownloading)
    {
      var packetSize := 0x200;
      var offset := (playerDownloading - 1) * packetSize;
      data := MapTransfer.ReadNxzBytes(nxz, offset, packetSize);
    }

    method SendMapSendPacket()
      requires Valid() && playerDownloading > 0
      modifies `sent, `unk2, `playerDownloading, sendPacket
      ensures Valid()
      ensures CurrentTransfer() == MapTransfer.After(nxz, old(CurrentTransfer()), MapTransfer.Tick)
      ensures playerDownloading == old(playerDownloading) + 1
      ensures CurrentWire() == AfterSend(old(CurrentWire()), MapTransfer.ChunkPacket(nxz, old(playerDownloading), unk2))
    {
      hide MapTransfer.Chunk, MapTransfer.ReadNxzBytes, MapTransfer.After, MapTransfer.ChunkPacket, AfterSend, Step;
      MapTransfer.TickCountsUp(nxz, CurrentTransfer());
      unk2 := MapTransfer.Increment(unk2);
      var data := ReadChunk();
      var packet := BuildChunkPacket(data);
      SendChunk(packet);
      MapTransfer.SizeTestNeverFires(nxz, playerDownloading);
      playerDownloading := playerDownloading + 1;
      var done := (playerDownloading - 1) * |data|;
      playerDownloading := if done > |nxz| then 0 else playerDownloading;
    }

    /** A packet of the transfer keeps its own unk and is sent at once. */
    method SendChunk(packet: WorldPacket)
      requires Valid() && packet != sendPacket && packet.rpos == 0
      modifies `sent, sendPacket, packet`unk
      ensures Valid()
      ensures CurrentWire() == AfterSend(old(CurrentWire()), old(packet.View()))
    {
      SendPacket(packet, false, false);
    }

    method HandleReceivedMapOpcode()
      modifies `playerDownloading
      ensures CurrentTransfer() == MapTransfer.After(nxz, old(CurrentTransfer()), MapTransfer.Received)
      ensures playerDownloading == 0
    {
      playerDownloading := 0;
    }
  }
}
