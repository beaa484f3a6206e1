/** The relay loop in place, over the two rings of a connection. */
module Relay {
  import opened Bytes
  import opened RingSpec
  import opened IoRing
  import Smb2
  import Tcp
  import opened RelaySpec
  import opened BothWays

  type Inspector = Smb2.Inspector

  function Inspection(inspector: Inspector): Judge { Smb2.Inspection(inspector) }

  // The packet state of one direction and the ring it reads into.
  class Direction {
    const ring: IoRing
    const source: Tcp.Socket
    const sink: Tcp.Socket
    var phase: Phase
    var remain: int

    constructor (ring: IoRing, source: Tcp.Socket, sink: Tcp.Socket)
      ensures this.ring == ring && this.source == source && this.sink == sink
    {
      this.ring, this.source, this.sink := ring, source, sink;
      phase, remain := Header, 4;
    }

    ghost predicate Valid()
      reads this, ring, ring.data
    {
      ring.Valid() && ring.tail == 0 && remain >= 0
    }

    ghost function State(): Dir
      requires Valid()
      reads this, ring, ring.data
    {
      Dir(phase, remain, ring.data[..], ring.count)
    }

    // Whether the state, and the bytes moved since the streams stood at `from` and `to`, are
    // those of the run f.
    ghost predicate Carries(f: Flow, from: seq<byte>, to: seq<byte>)
      requires Valid()
      reads this, ring, ring.data, source`received, sink`sent
    {
      && State() == f.dir
      && source.received == from + f.received
      && sink.sent == to + f.delivered
    }

    method Advance(turn: Turn, inspector: Inspector, ghost f: Flow, ghost from: seq<byte>, ghost to: seq<byte>)
      returns (result: int)
      requires Valid() && f.status.Running? && Ready(f.dir) && Carries(f, from, to)
      modifies this, ring, ring.data, source`received, sink`sent
      ensures Valid() && Carries(Step(f, turn, Inspection(inspector)), from, to)
      ensures result == 0 <==> Step(f, turn, Inspection(inspector)).status.Running?
    {
      ghost var o, g := RelaySpec.Pass(f.dir, turn, Inspection(inspector)), Step(f, turn, Inspection(inspector));
      assert g.dir == o.dir && g.status == o.status;
      assert from + g.received == (from + f.received) + o.received;
      assert to + g.delivered == (to + f.delivered) + o.delivered;
      result := Pass(turn, inspector);
      assert State() == o.dir;
    }

    // Read towards the end of the packet; when it is complete, decode or forward it.
    method Pass(turn: Turn, inspector: Inspector) returns (result: int)
      requires Valid() && Ready(State())
      modifies this, ring, ring.data, source`received, sink`sent
      ensures Valid()
      ensures var o := RelaySpec.Pass(old(State()), turn, Inspection(inspector));
        && State() == o.dir
        && (result == 0 <==> o.status.Running?)
        && source.received == old(source.received) + o.received
        && sink.sent == old(sink.sent) + o.delivered
    {
      ghost var d := State();
      var ptr, room := ring.ContiguousWrite();
      var chunk := remain - ring.count;
      assert room == Room(d);
      if room < chunk { return -1; }
      result := Fill(ptr, chunk, turn.read);
      if result != 0 { return; }
      ghost var e := State();
      assert e == Filled(d, Tcp.Taken(turn.read, chunk));
      result := Continue(ptr, turn, inspector);
    }

    // With the packet complete, decode its header or forward it.
    method Continue(ptr: nat, turn: Turn, inspector: Inspector) returns (result: int)
      requires Valid() && ring.size >= 7 && ring.count <= remain
      requires phase.Header? ==> remain == 4 && ptr < 4
      requires phase.Body? ==> 4 <= ring.count && remain <= MAX_LENGTH + 4 && (ring.count > 4 ==> remain <= ring.size)
      modifies this, ring, ring.data, sink`sent
      ensures Valid()
      ensures var o := RelaySpec.Continue(old(State()), ptr, turn, Inspection(inspector));
        && State() == o.dir
        && (result == 0 <==> o.status.Running?)
        && sink.sent == old(sink.sent) + o.delivered
    {
      if ring.count != remain { return 0; }
      if phase == Header {
        var length := BigEndian32(ring.data[ptr..ptr + 4]);
        if length > MAX_LENGTH { return -1; }
        phase, remain := Body, length + 4;
        return 0;
      }
      result := Forward(turn, inspector);
    }

    // Read up to chunk bytes at the write pointer and commit them.
    method Fill(ptr: nat, chunk: nat, ev: Tcp.ReadEvent) returns (result: int)
      requires Valid() && ptr == ring.head == ring.count && ptr + chunk <= ring.size
      modifies ring, ring.data, source`received
      ensures Valid()
      ensures result == (if Tcp.ReadResult(ev, chunk) < 0 then -1 else 0)
      ensures State() == Filled(old(State()), Tcp.Taken(ev, chunk))
      ensures source.received == old(source.received) + Tcp.Taken(ev, chunk)
    {
      result := Tcp.Read(source, ring.data, ptr, chunk, ev);
      if result > 0 {
        ring.Commit(result);
        result := 0;
      }
    }

    // With a complete frame in the ring, inspect it and send it.
    method Forward(turn: Turn, inspector: Inspector) returns (result: int)
      requires Valid() && ring.size >= 7 && 4 <= ring.count <= MAX_LENGTH + 4
      modifies this, ring, ring.data, sink`sent
      ensures Valid()
      ensures var o := RelaySpec.Forward(old(State()), turn, Inspection(inspector));
        && State() == o.dir
        && (result == 0 <==> o.status.Running?)
        && sink.sent == old(sink.sent) + o.delivered
    {
      ghost var v := ring.Value();
      ring.Normalize(null);
      assert ring.Value() == v;
      var ptr, chunk := ring.ContiguousRead();
      if !turn.passthrough {
        var accepted := Inspect(ptr, chunk, inspector);
        if !accepted { return -1; }
      }
      result := Send(turn.sends);
    }

    // The frame goes out, and the ring is empty again, or the send fails.
    method Send(sends: seq<Tcp.SendEvent>) returns (result: int)
      requires Valid() && 0 < ring.count
      modifies this, ring, ring.data, sink`sent
      ensures Valid()
      ensures phase == Header && remain == 4 && ring.data[..] == old(ring.data[..])
      ensures match Tcp.WriteLoop(sends, 0, old(ring.count))
        case Done =>
          result == 0 && ring.count == 0 && sink.sent == old(sink.sent) + old(ring.data[..])[..old(ring.count)]
        case Failed(k) =>
          result != 0 && ring.count == old(ring.count) && sink.sent == old(sink.sent) + old(ring.data[..])[..k]
    {
      phase, remain := Header, 4;
      var ptr, chunk := ring.ContiguousRead();
      assert ptr == 0 && chunk == ring.count;
      result := 0;
      if chunk > 0 {
        result := Tcp.Write(sink, ring.data, ptr, chunk, sends);
        if result >= 0 {
          ring.Consume(result);
          result := 0;
        }
      }
    }

    // Inspection is given the ring from the packet on, with what is left over behind it.
    method Inspect(ptr: nat, chunk: nat, inspector: Inspector) returns (accepted: bool)
      requires Valid() && ptr + chunk <= ring.size && 4 <= chunk <= MAX_LENGTH + 4
      ensures accepted == Inspection(inspector)(ring.data[ptr + 4..], chunk - 4)
    {
      var visits;
      accepted, visits := Smb2.Packet(ring.data[ptr + 4..], chunk - 4, inspector);
    }
  }

  // A client connection and its server connection, each read into its own ring.
  class Connection {
    const client: Direction
    const server: Direction

    constructor (clientSocket: Tcp.Socket, serverSocket: Tcp.Socket, clientRing: IoRing, serverRing: IoRing)
      ensures client.ring == clientRing && server.ring == serverRing
      ensures client.source == clientSocket && client.sink == serverSocket
      ensures server.source == serverSocket && server.sink == clientSocket
      ensures fresh(client) && fresh(server) && client != server
    {
      client := new Direction(clientRing, clientSocket, serverSocket);
      server := new Direction(serverRing, serverSocket, clientSocket);
    }

    ghost predicate Apart()
      reads client, server
    {
      && client != server && client.ring != server.ring && client.ring.data != server.ring.data
      && client.source == server.sink && client.sink == server.source && client.source != client.sink
    }

    ghost predicate Valid()
      reads this, client, client.ring, client.ring.data, server, server.ring, server.ring.data
    {
      Apart() && client.Valid() && server.Valid()
    }

    ghost predicate At(l: Link, base: Base)
      requires Valid()
      reads this, client, client.ring, client.ring.data, client.source, client.sink
      reads server, server.ring, server.ring.data, server.source, server.sink
    {
      && client.Carries(l.client, base.fromClient, base.toServer)
      && server.Carries(l.server, base.fromServer, base.toClient)
    }

    ghost function Streams(): Base
      reads this, client, client.source, client.sink
    {
      Base(client.source.received, client.sink.sent, client.sink.received, client.source.sent)
    }

    // The relay loop: from empty rings, round after round, until a direction fails or the
    // events run out.
    method Relay(rounds: seq<Round>, inspector: Inspector, inspector': Inspector) returns (result: int, ghost l: Link)
      requires Valid() && client.ring.size >= 7 && server.ring.size >= 7
      requires client.ring.count == 0 && server.ring.count == 0
      modifies client, client.ring, client.ring.data, server, server.ring, server.ring.data
      modifies client.source, client.sink
      ensures Valid()
      ensures l == RunLink(Open(old(client.ring.data[..]), old(server.ring.data[..])), rounds, Inspection(inspector), Inspection(inspector'))
      ensures At(l, old(Streams()))
      ensures result == 0 <==> Up(l)
    {
      client.phase, client.remain := Header, 4;
      server.phase, server.remain := Header, 4;
      ghost var start := Open(client.ring.data[..], server.ring.data[..]);
      l := start;
      result := 0;
      var i := 0;
      assert rounds[..0] == [];
      while i < |rounds| && result == 0
        invariant 0 <= i <= |rounds| && Valid() && Able(l)
        invariant l == RunLink(start, rounds[..i], Inspection(inspector), Inspection(inspector'))
        invariant At(l, old(Streams()))
        invariant result == 0 <==> Up(l)
        decreases |rounds| - i
      {
        result := Both(rounds[i], inspector, inspector', l, old(Streams()));
        RunLinkSnoc(start, rounds, i, Inspection(inspector), Inspection(inspector'));
        l := Cycle(l, rounds[i], Inspection(inspector), Inspection(inspector'));
        i := i + 1;
      }
      StoppedStays(start, rounds, i, Inspection(inspector), Inspection(inspector'));
    }

    // The body of the loop.
    method Both(r: Round, inspector: Inspector, inspector': Inspector, ghost l: Link, ghost base: Base) returns (result: int)
      requires Valid() && Able(l) && Up(l) && At(l, base)
      modifies client, client.ring, client.ring.data, server, server.ring, server.ring.data
      modifies client.source, client.sink
      ensures Valid() && At(Cycle(l, r, Inspection(inspector), Inspection(inspector')), base)
      ensures result == 0 <==> Up(Cycle(l, r, Inspection(inspector), Inspection(inspector')))
    {
      result := client.Advance(r.client, inspector, l.client, base.fromClient, base.toServer);
      if result != 0 { return; }
      result := server.Advance(r.server, inspector', l.server, base.fromServer, base.toClient);
    }
  }

  // Where the four streams of a connection stood when its relay began.
  datatype Base = Base(fromClient: seq<byte>, toServer: seq<byte>, fromServer: seq<byte>, toClient: seq<byte>)

  lemma {:induction false} RunLinkSnoc(l: Link, rounds: seq<Round>, i: nat, judge: Judge, judge': Judge)
    requires i < |rounds| && Able(l)
    ensures RunLink(l, rounds[..i + 1], judge, judge') == Cycle(RunLink(l, rounds[..i], judge, judge'), rounds[i], judge, judge')
  {
    assert rounds[..i + 1][..i] == rounds[..i];
  }

  // A link that is down stays as it is, whatever events might follow.
  lemma {:induction false} StoppedStays(l: Link, rounds: seq<Round>, i: nat, judge: Judge, judge': Judge)
    requires i <= |rounds| && Able(l)
    requires i == |rounds| || !Up(RunLink(l, rounds[..i], judge, judge'))
    ensures RunLink(l, rounds, judge, judge') == RunLink(l, rounds[..i], judge, judge')
    decreases |rounds|
  {
    if i == |rounds| {
      assert rounds[..i] == rounds;
    } else {
      var most := rounds[..|rounds| - 1];
      assert rounds[..i] == most[..i];
      StoppedStays(l, most, i, judge, judge');
    }
  }
}
