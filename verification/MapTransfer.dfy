/** The chunked download of the map's nxz file: what the packets carry and how the counter moves.
    These are the specifications of the map methods in WorldSession.dfy. */
module MapTransfer {
  import opened PacketBatching
  import opened Basics

  const CHUNK := 0x200
  const MSG_MAP_SEND_START: uint8 := 0xB8
  const MSG_MAP_SEND_PACKET: uint8 := 0xB9
  const NAME_LENGTH := 0x50

  /** Reading count bytes at an offset stops at the end of the file. */
  function ReadNxzBytes(nxz: seq<uint8>, offset: nat, count: nat): (r: seq<uint8>)
    ensures |r| <= count && (|r| < count ==> |nxz| <= offset + |r|)
    ensures if offset < |nxz| then offset + |r| <= |nxz| && r == nxz[offset..offset + |r|] else r == []
  {
    if offset >= |nxz| then []
    else if offset + count <= |nxz| then nxz[offset..offset + count]
    else nxz[offset..]
  }

  /** Chunk number k; chunks are numbered from 1. */
  function Chunk(nxz: seq<uint8>, k: int): (r: seq<uint8>)
    requires k > 0
    ensures |r| <= CHUNK
  {
    ReadNxzBytes(nxz, (k - 1) * CHUNK, CHUNK)
  }

  function LittleEndian16(x: nat): seq<uint8> {
    [(x % 0x100) as uint8, (x / 0x100 % 0x100) as uint8]
  }

  function LittleEndian32(x: nat): seq<uint8> {
    LittleEndian16(x) + LittleEndian16(x / 0x1_0000)
  }

  function StartPacket(size: nat, name: seq<uint8>, unk: uint8): Packet {
    Packet(MSG_MAP_SEND_START, 0x80, unk, [0xF8] + LittleEndian16(0x13) + LittleEndian32(size) + name)
  }

  /** A marker byte, the chunk number, the data size and the data. */
  function ChunkPacket(nxz: seq<uint8>, k: int, unk: uint8): Packet
    requires k > 0
  {
    Packet(MSG_MAP_SEND_PACKET, 0x80, unk,
           [0xF8] + LittleEndian16(k) + LittleEndian16(|Chunk(nxz, k)|) + Chunk(nxz, k))
  }

  function ChunkData(p: Packet): seq<uint8>
    requires |p.payload| >= 5
  {
    p.payload[5..]
  }

  /** m_playerDownloading, 0 when no transfer is under way, and the transfer's own unk counter. */
  datatype Transfer = Transfer(downloading: int, unk2: uint8)

  datatype MapEvent = Request(unk: uint8) | Tick | Received

  function Increment(x: uint8): (y: uint8)
    ensures y as int == (x as int + 1) % 0x100
  {
    if x == 0xFF then 0 else x + 1
  }

  /** The size test at the end of a tick multiplies by the number of bytes just read. */
  function After(nxz: seq<uint8>, t: Transfer, e: MapEvent): Transfer {
    match e
    case Request(unk) => if t.downloading == 0 then Transfer(1, unk) else t
    case Tick =>
      if t.downloading <= 0 then t
      else if t.downloading * |Chunk(nxz, t.downloading)| > |nxz| then Transfer(0, Increment(t.unk2))
      else Transfer(t.downloading + 1, Increment(t.unk2))
    case Received => t.(downloading := 0)
  }

  /** The messages of the transfer that an event sends. */
  function Sends(nxz: seq<uint8>, name: seq<uint8>, t: Transfer, e: MapEvent): seq<Packet> {
    match e
    case Request(unk) => if t.downloading == 0 then [StartPacket(|nxz|, name, unk)] else []
    case Tick => if t.downloading > 0 then [ChunkPacket(nxz, t.downloading, Increment(t.unk2))] else []
    case Received => []
  }

  /** The size test never fires, because a chunk has at most 512 bytes. */
  lemma SizeTestNeverFires(nxz: seq<uint8>, k: int)
    requires k > 0
    ensures k * |Chunk(nxz, k)| <= |nxz|
  {
    var c := |Chunk(nxz, k)|;
    if c > 0 {
      MulMonotone(c, CHUNK, k - 1);
      assert k * c == (k - 1) * c + c;
    }
  }

  /** So once started, a transfer stops only at the client's received-map message. */
  lemma OnlyReceivedStops(nxz: seq<uint8>, t: Transfer, e: MapEvent)
    requires t.downloading > 0
    ensures After(nxz, t, e).downloading == 0 <==> e.Received?
    ensures After(nxz, t, e).downloading == match e case Request(_) => t.downloading
                                                    case Tick => t.downloading + 1
                                                    case Received => 0
  {
    SizeTestNeverFires(nxz, t.downloading);
  }

  lemma TickCountsUp(nxz: seq<uint8>, t: Transfer)
    requires t.downloading > 0
    ensures After(nxz, t, Tick) == Transfer(t.downloading + 1, Increment(t.unk2))
  {
    SizeTestNeverFires(nxz, t.downloading);
  }

  // ---------------------------------------------------------------------------
  // Runs
  // ---------------------------------------------------------------------------

  function Run(nxz: seq<uint8>, t: Transfer, events: seq<MapEvent>): Transfer {
    if events == [] then t else After(nxz, Run(nxz, t, events[..|events| - 1]), events[|events| - 1])
  }

  /** The data of all chunk packets a run sends. */
  function DataSent(nxz: seq<uint8>, name: seq<uint8>, t: Transfer, events: seq<MapEvent>): seq<uint8> {
    if events == [] then []
    else
      var before, e := events[..|events| - 1], events[|events| - 1];
      var ps := Sends(nxz, name, Run(nxz, t, before), e);
      DataSent(nxz, name, t, before)
      + if ps != [] && ps[0].opcode == MSG_MAP_SEND_PACKET && |ps[0].payload| >= 5 then ChunkData(ps[0]) else []
  }

  function Ticks(events: seq<MapEvent>): nat {
    if events == [] then 0
    else Ticks(events[..|events| - 1]) + if events[|events| - 1].Tick? then 1 else 0
  }

  /** The first min(512 k, size) bytes. */
  function Prefix(nxz: seq<uint8>, k: nat): seq<uint8> {
    if k * CHUNK <= |nxz| then nxz[..k * CHUNK] else nxz
  }

  lemma NextPrefix(nxz: seq<uint8>, k: nat)
    ensures Prefix(nxz, k) + Chunk(nxz, k + 1) == Prefix(nxz, k + 1)
  {
  }

  /** After a request, whatever happens until the client's received-map message: the data sent so far
      is exactly the beginning of the file, 512 bytes a tick, and later packets are empty. */
  lemma {:induction false} TransferRun(nxz: seq<uint8>, name: seq<uint8>, t: Transfer, events: seq<MapEvent>)
    requires t.downloading == 1 && Received !in events
    ensures Run(nxz, t, events).downloading == 1 + Ticks(events)
    ensures DataSent(nxz, name, t, events) == Prefix(nxz, Ticks(events))
  {
    if events == [] {
    } else {
      var before, e := events[..|events| - 1], events[|events| - 1];
      TransferRun(nxz, name, t, before);
      var u := Run(nxz, t, before);
      OnlyReceivedStops(nxz, u, e);
      if e.Tick? {
        NextPrefix(nxz, Ticks(before));
        assert ChunkData(ChunkPacket(nxz, u.downloading, Increment(u.unk2))) == Chunk(nxz, u.downloading);
      } else {
        assert e.Request?;
      }
    }
  }

  // ---------------------------------------------------------------------------
  // What the client gets to see
  // ---------------------------------------------------------------------------

  lemma BytePair(x: nat)
    ensures x % 0x100 + 0x100 * (x / 0x100 % 0x100) == x % 0x1_0000
  {
    var q := x / 0x100;
    assert x == 0x1_0000 * (q / 0x100) + (0x100 * (q % 0x100) + x % 0x100);
  }

  lemma WordPair(x: nat)
    ensures x % 0x1_0000 + 0x1_0000 * (x / 0x1_0000 % 0x1_0000) == x % 0x1_0000_0000
  {
    var q := x / 0x1_0000;
    assert x == 0x1_0000_0000 * (q / 0x1_0000) + (0x1_0000 * (q % 0x1_0000) + x % 0x1_0000);
  }

  lemma LittleEndian16Value(x: nat)
    ensures var b := LittleEndian16(x); |b| == 2 && b[0] as int + 0x100 * b[1] as int == x % 0x1_0000
  {
    BytePair(x);
  }

  lemma LittleEndian32Value(x: nat)
    ensures var b := LittleEndian32(x);
            && |b| == 4
            && b[0] as int + 0x100 * b[1] as int + 0x1_0000 * (b[2] as int + 0x100 * b[3] as int) == x % 0x1_0000_0000
  {
    hide LittleEndian16;
    LittleEndian16Value(x);
    LittleEndian16Value(x / 0x1_0000);
    WordPair(x);
  }

  lemma LaterNone(x: uint8)
    ensures Later(x, 0) == x
  {
  }

  lemma LaterNext(x: uint8, n: nat)
    ensures Increment(Later(x, n)) == Later(x, n + 1)
  {
  }

  /** The packet that announces a file. */
  lemma StartPacketFields(size: nat, name: seq<uint8>, unk: uint8)
    ensures var p := StartPacket(size, name, unk); var b := p.payload;
            && p.opcode == 0xB8 && p.accountId == 0x80 && p.unk == unk
            && |b| == 7 + |name| && b[..3] == [0xF8, 0x13, 0] && b[7..] == name
            && b[3] as int + 0x100 * b[4] as int + 0x1_0000 * (b[5] as int + 0x100 * b[6] as int) == size % 0x1_0000_0000
  {
    hide LittleEndian32;
    LittleEndian16Value(0x13);
    LittleEndian32Value(size);
  }

  /** The k-th data packet: its number, the size of its data, and the k-th 512 bytes of the file or what
      there is of them. */
  lemma ChunkPacketFields(nxz: seq<uint8>, k: int, unk: uint8)
    requires k > 0
    ensures var p := ChunkPacket(nxz, k, unk); var b := p.payload;
            && p.opcode == 0xB9 && p.accountId == 0x80 && p.unk == unk
            && |b| >= 5 && b[0] == 0xF8
            && b[1] as int + 0x100 * b[2] as int == k % 0x1_0000
            && b[3] as int + 0x100 * b[4] as int == |b| - 5 <= 512
            && (512 * (k - 1) <= |nxz| - 512 ==> b[5..] == nxz[512 * (k - 1)..512 * k])
            && (|nxz| - 512 < 512 * (k - 1) < |nxz| ==> b[5..] == nxz[512 * (k - 1)..])
            && (|nxz| <= 512 * (k - 1) ==> b[5..] == [])
  {
    hide LittleEndian16;
    LittleEndian16Value(k);
    LittleEndian16Value(|Chunk(nxz, k)|);
    assert ChunkPacket(nxz, k, unk).payload[5..] == Chunk(nxz, k);
  }

  /** The data packets a run sends. */
  function ChunkPackets(nxz: seq<uint8>, name: seq<uint8>, t: Transfer, events: seq<MapEvent>): seq<Packet> {
    if events == [] then []
    else
      var before, e := events[..|events| - 1], events[|events| - 1];
      var ps := Sends(nxz, name, Run(nxz, t, before), e);
      ChunkPackets(nxz, name, t, before) + if ps != [] && ps[0].opcode == 0xB9 then ps else []
  }

  /** A counter of bytes, n steps on. */
  function Later(x: uint8, n: nat): uint8 {
    ((x as int + n) % 0x100) as uint8
  }

  /** The data packets are number 1, 2, 3 and so on, one a tick, and their unks count on. */
  lemma {:induction false} ChunkPacketsInOrder(nxz: seq<uint8>, name: seq<uint8>, t: Transfer, events: seq<MapEvent>)
    requires t.downloading == 1 && Received !in events
    ensures var ps, k := ChunkPackets(nxz, name, t, events), Ticks(events);
            && Run(nxz, t, events) == Transfer(1 + k, Later(t.unk2, k))
            && |ps| == k && forall i :: 0 <= i < k ==> ps[i] == ChunkPacket(nxz, i + 1, Later(t.unk2, i + 1))
  {
    hide ChunkPacket, StartPacket, Later, Increment;
    if events == [] {
      LaterNone(t.unk2);
    } else {
      var before, e := events[..|events| - 1], events[|events| - 1];
      ChunkPacketsInOrder(nxz, name, t, before);
      var u := Run(nxz, t, before);
      if e.Tick? {
        TickCountsUp(nxz, u);
        LaterNext(t.unk2, Ticks(before));
        assert ChunkPacket(nxz, u.downloading, Increment(u.unk2)).opcode == 0xB9 by {
          ChunkPacketFields(nxz, u.downloading, Increment(u.unk2));
        }
      } else {
        assert e.Request? && After(nxz, u, e) == u && Sends(nxz, name, u, e) == [];
      }
    }
  }

  lemma {:induction false} RunSplit(nxz: seq<uint8>, name: seq<uint8>, t: Transfer, a: seq<MapEvent>, b: seq<MapEvent>)
    ensures Run(nxz, t, a + b) == Run(nxz, Run(nxz, t, a), b)
    ensures DataSent(nxz, name, t, a + b) == DataSent(nxz, name, t, a) + DataSent(nxz, name, Run(nxz, t, a), b)
    ensures ChunkPackets(nxz, name, t, a + b)
         == ChunkPackets(nxz, name, t, a) + ChunkPackets(nxz, name, Run(nxz, t, a), b)
    decreases |b|
  {
    hide Sends, After, ChunkData;
    if b == [] {
      assert a + b == a;
    } else {
      var n := |b| - 1;
      assert (a + b)[..|a + b| - 1] == a + b[..n];
      RunSplit(nxz, name, t, a, b[..n]);
    }
  }

  lemma RequestStarts(nxz: seq<uint8>, name: seq<uint8>, t: Transfer, u: uint8)
    requires t.downloading == 0
    ensures Run(nxz, t, [Request(u)]) == Transfer(1, u)
    ensures DataSent(nxz, name, t, [Request(u)]) == [] && ChunkPackets(nxz, name, t, [Request(u)]) == []
  {
    assert [Request(u)][..0] == [];
  }

  /** From the client's request on an idle session: the transfer starts with packet 1 and the first byte of
      the file, and goes on without a gap until the client's received-map message. */
  lemma TransferFromRequest(nxz: seq<uint8>, name: seq<uint8>, t: Transfer, u: uint8, events: seq<MapEvent>)
    requires t.downloading == 0 && Received !in events
    ensures var all, k := [Request(u)] + events, Ticks(events);
            && Run(nxz, t, all) == Transfer(1 + k, Later(u, k))
            && DataSent(nxz, name, t, all) == Prefix(nxz, k)
            && |ChunkPackets(nxz, name, t, all)| == k
            && forall i :: 0 <= i < k ==> ChunkPackets(nxz, name, t, all)[i] == ChunkPacket(nxz, i + 1, Later(u, i + 1))
  {
    hide ChunkPacket, Prefix, Later, Run, DataSent, ChunkPackets;
    var started := Transfer(1, u);
    RequestStarts(nxz, name, t, u);
    RunSplit(nxz, name, t, [Request(u)], events);
    TransferRun(nxz, name, started, events);
    ChunkPacketsInOrder(nxz, name, started, events);
  }

  /** Without a request nothing starts: an idle session stays idle and sends no data. */
  lemma {:induction false} IdleSendsNothing(nxz: seq<uint8>, name: seq<uint8>, t: Transfer, events: seq<MapEvent>)
    requires t.downloading == 0 && forall e <- events :: !e.Request?
    ensures Run(nxz, t, events) == t
    ensures ChunkPackets(nxz, name, t, events) == []
  {
    if events != [] {
      IdleSendsNothing(nxz, name, t, events[..|events| - 1]);
    }
  }
}
