/** The relay loop of a slot: what the hand-over leaves for it, and what it leaves behind. */
module Served {
  import opened Bytes
  import opened BothWays
  import Relay
  import Slots

  // The rings of the connection hold what the slot says.
  ghost predicate RingsOf(slot: Slots.Slot, conn: Relay.Connection)
    requires conn.Valid()
    reads conn, conn.client, conn.client.ring, conn.client.ring.data
    reads conn.server, conn.server.ring, conn.server.ring.data
  {
    && slot.clientRing == conn.client.ring.Value().Contents()
    && slot.serverRing == conn.server.ring.Value().Contents()
  }

  // The thread of slot i enters the loop and leaves these contents in its rings.
  function Looped(i: nat, clientRing: seq<byte>, serverRing: seq<byte>): seq<Slots.Event>
  {
    [Slots.RelayStep(i, false, false, [], [])] + [Slots.RelayStep(i, false, false, clientRing, serverRing)]
  }

  // In every interleaving, the loop of slot i finds the empty rings it needs: whatever ran before,
  // the rings of the connection it is about to relay are the slot's, and so they are empty. The
  // loop then is a run from empty rings, and what it leaves in them is what the slots step to.
  method Serve(conn: Relay.Connection, n: nat, ghost events: seq<Slots.Event>, ghost i: nat,
               rounds: seq<Round>, inspector: Relay.Inspector, inspector': Relay.Inspector)
    returns (result: int, ghost l: Link)
    requires conn.Valid() && conn.client.ring.size >= 7 && conn.server.ring.size >= 7
    requires i < |Slots.Run(Slots.Init(n), events).slots| && Slots.Run(Slots.Init(n), events).slots[i].pc.Entering?
    requires RingsOf(Slots.Run(Slots.Init(n), events).slots[i], conn)
    modifies conn.client, conn.client.ring, conn.client.ring.data
    modifies conn.server, conn.server.ring, conn.server.ring.data
    modifies conn.client.source, conn.client.sink
    ensures conn.Valid()
    ensures l == RunLink(Open(old(conn.client.ring.data[..]), old(conn.server.ring.data[..])), rounds,
      Relay.Inspection(inspector), Relay.Inspection(inspector'))
    ensures conn.At(l, old(conn.Streams())) && (result == 0 <==> Up(l))
    ensures var more := Looped(i, conn.client.ring.Value().Contents(), conn.server.ring.Value().Contents());
      var w, v := Slots.Run(Slots.Init(n), events), Slots.Run(Slots.Init(n), events + more);
      && |v.slots| == |w.slots| && RingsOf(v.slots[i], conn)
      && v.slots[i].pc.Looping? && v.slots[i].client == w.slots[i].client && v.slots[i].server == w.slots[i].server
  {
    Slots.RunOwned(n, events);
    Slots.SlotExclusion(n, events, i);
    result, l := conn.Relay(rounds, inspector, inspector');
    Loops(n, events, i, conn.client.ring.Value().Contents(), conn.server.ring.Value().Contents());
  }

  lemma Loops(n: nat, events: seq<Slots.Event>, i: nat, clientRing: seq<byte>, serverRing: seq<byte>)
    requires i < |Slots.Run(Slots.Init(n), events).slots| && Slots.Run(Slots.Init(n), events).slots[i].pc.Entering?
    ensures var w, v := Slots.Run(Slots.Init(n), events), Slots.Run(Slots.Init(n), events + Looped(i, clientRing, serverRing));
      && |v.slots| == |w.slots|
      && v.slots[i] == w.slots[i].(pc := Slots.Looping, clientRing := clientRing, serverRing := serverRing)
  {
    var a, b := Slots.RelayStep(i, false, false, [], []), Slots.RelayStep(i, false, false, clientRing, serverRing);
    var w, x := Slots.Run(Slots.Init(n), events), Slots.Run(Slots.Init(n), events + [a]);
    assert x == Slots.Next(w, a) by { Slots.RunSnoc(Slots.Init(n), events, a); }
    Enters(w, i);
    assert events + ([a] + [b]) == (events + [a]) + [b];
    Slots.RunSnoc(Slots.Init(n), events + [a], b);
    Fills(x, i, clientRing, serverRing);
  }

  lemma Enters(w: Slots.World, i: nat)
    requires i < |w.slots| && w.slots[i].pc.Entering?
    ensures Slots.Next(w, Slots.RelayStep(i, false, false, [], [])).slots == w.slots[i := w.slots[i].(pc := Slots.Looping)]
  {
  }

  lemma Fills(w: Slots.World, i: nat, clientRing: seq<byte>, serverRing: seq<byte>)
    requires i < |w.slots| && w.slots[i].pc.Looping?
    ensures Slots.Next(w, Slots.RelayStep(i, false, false, clientRing, serverRing)).slots
      == w.slots[i := w.slots[i].(clientRing := clientRing, serverRing := serverRing)]
  {
  }
}
