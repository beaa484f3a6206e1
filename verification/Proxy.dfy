/** smbgw_proxy_start in place: one call that no relay thread interrupts. */
module Proxy {
  import opened Slots

  datatype Placement = HandedTo(i: nat) | NoThread(i: nat) | NoSlot

  // The first free slot at k or later, or the number of slots.
  function FirstFree(slots: seq<Slot>, k: nat): (i: nat)
    requires k <= |slots|
    ensures k <= i <= |slots|
    ensures i < |slots| ==> slots[i].client == Invalid
    ensures forall j :: k <= j < i ==> slots[j].client != Invalid
    decreases |slots| - k
  {
    if k == |slots| || slots[k].client == Invalid then k else FirstFree(slots, k + 1)
  }

  function PlacementOf(slots: seq<Slot>, createFails: bool): Placement {
    var i := FirstFree(slots, 0);
    if i == |slots| then NoSlot
    else if !slots[i].hasThread && createFails then NoThread(i)
    else HandedTo(i)
  }

  // A slot that was given a client: empty rings, a thread, the client and its mode.
  function Given(s: Slot, t: Token, want: bool): Slot {
    s.(client := Open(t), clientRing := [], serverRing := [], passthrough := want,
       hasThread := true, pc := if s.hasThread then s.pc else Waiting)
  }

  // The slots after a call.
  function SlotsAfter(slots: seq<Slot>, t: Token, want: bool, createFails: bool): seq<Slot> {
    match PlacementOf(slots, createFails)
    case HandedTo(i) => if i < |slots| then slots[i := Given(slots[i], t, want)] else slots
    case _ => slots
  }

  class Proxy {
    var slots: seq<Slot>
    // The sockets the accept thread has closed.
    ghost var closed: multiset<Token>

    constructor (n: nat)
      ensures slots == Init(n).slots && closed == multiset{}
    {
      slots := seq(n, _ => Fresh());
      closed := multiset{};
    }

    // The first free slot takes the connection; with no slot free it is closed, and when no
    // thread can be made for the slot it is neither relayed nor closed.
    method Start(client: Handle, passthrough: bool, createFails: bool) returns (result: int)
      modifies this
      ensures client == Invalid ==> result == -1 && slots == old(slots) && closed == old(closed)
      ensures client.Open? ==>
        && slots == SlotsAfter(old(slots), client.t, passthrough, createFails)
        && (result == 0 <==> PlacementOf(old(slots), createFails).HandedTo?)
        && closed == (if PlacementOf(old(slots), createFails).NoSlot? then old(closed) + multiset{client.t} else old(closed))
    {
      if client == Invalid { return -1; }
      var i := 0;
      while i < |slots|
        invariant 0 <= i <= |slots| && slots == old(slots) && closed == old(closed)
        invariant FirstFree(slots, i) == FirstFree(slots, 0)
      {
        if slots[i].client == Invalid {
          if !slots[i].hasThread {
            if createFails { return -1; }
            slots := slots[i := slots[i].(hasThread := true, pc := Waiting)];
          }
          slots := slots[i := slots[i].(clientRing := [])];
          slots := slots[i := slots[i].(serverRing := [])];
          slots := slots[i := slots[i].(client := client)];
          slots := slots[i := slots[i].(passthrough := passthrough)];
          return 0;
        }
        i := i + 1;
      }
      closed := closed + multiset{client.t};
      return -1;
    }
  }

  // A call is the accept thread's steps taken one after another: from the moment a connection
  // came in until the thread is idle, with no relay step between.
  lemma StartIsTheSteps(w: World, t: Token, want: bool, createFails: bool) returns (n: nat)
    requires w.acceptor == Scanning(0, t, want)
    ensures var v := Times(w, AcceptStep(createFails), n);
      && v.acceptor == Idle
      && v.slots == SlotsAfter(w.slots, t, want, createFails)
      && v.closes == (if PlacementOf(w.slots, createFails).NoSlot? then w.closes + multiset{t} else w.closes)
      && v.leaked == (if PlacementOf(w.slots, createFails).NoThread? then w.leaked + {t} else w.leaked)
  {
    var e, i := AcceptStep(createFails), FirstFree(w.slots, 0);
    Scans(w, t, want, e, i);
    n := i + 2;
    if PlacementOf(w.slots, createFails).HandedTo? {
      HandsOver(w, i + 1, i, t, want, createFails);
      n := i + 6;
    } else {
      assert Times(w, e, n) == Next(Next(Times(w, e, i), e), e) by { assert Times(w, e, i + 1) == Next(Times(w, e, i), e); }
    }
  }

  lemma {:induction false} Scans(w: World, t: Token, want: bool, e: Event, k: nat)
    requires e.AcceptStep? && w.acceptor == Scanning(0, t, want) && k <= FirstFree(w.slots, 0)
    ensures Times(w, e, k) == w.(acceptor := Scanning(k, t, want))
    ensures Times(w, e, k + 1).acceptor == if k == |w.slots| then GivingUp(t)
      else if k == FirstFree(w.slots, 0) then Choosing(k, t, want) else Scanning(k + 1, t, want)
    ensures Times(w, e, k + 1) == w.(acceptor := Times(w, e, k + 1).acceptor)
  {
    if k > 0 { Scans(w, t, want, e, k - 1); }
  }

  // From the choice of slot i, after k steps, to the hand-over.
  lemma HandsOver(w: World, k: nat, i: nat, t: Token, want: bool, createFails: bool)
    requires i < |w.slots| && (w.slots[i].hasThread || !createFails)
    requires Times(w, AcceptStep(createFails), k) == w.(acceptor := Choosing(i, t, want))
    ensures var v := Times(w, AcceptStep(createFails), k + 5);
      v.acceptor == Idle && v.slots == w.slots[i := Given(w.slots[i], t, want)]
      && v.closes == w.closes && v.leaked == w.leaked
  {
    var e, s := AcceptStep(createFails), w.slots[i];
    var a, b := Times(w, e, k + 1), Times(w, e, k + 3);
    assert a == Next(Times(w, e, k), e);
    assert b == Next(Next(a, e), e) by { assert Times(w, e, k + 2) == Next(a, e); }
    assert Times(w, e, k + 5) == Next(Next(b, e), e) by { assert Times(w, e, k + 4) == Next(b, e); }
    MakesThread(Times(w, e, k), i, t, want, createFails);
    ResetsRings(a, i, t, want, createFails);
    Publishes(b, i, t, want, createFails);
    assert b.slots[i].(client := Open(t), passthrough := want) == Given(s, t, want);
  }

  lemma MakesThread(x: World, i: nat, t: Token, want: bool, createFails: bool)
    requires i < |x.slots| && x.acceptor == Choosing(i, t, want) && (x.slots[i].hasThread || !createFails)
    ensures var v, s := Next(x, AcceptStep(createFails)), x.slots[i];
      v.acceptor == ResetClient(i, t, want) && v.closes == x.closes && v.leaked == x.leaked
      && v.slots == x.slots[i := s.(hasThread := true, pc := if s.hasThread then s.pc else Waiting)]
  {
  }

  lemma ResetsRings(x: World, i: nat, t: Token, want: bool, createFails: bool)
    requires i < |x.slots| && x.acceptor == ResetClient(i, t, want)
    ensures var v := Next(Next(x, AcceptStep(createFails)), AcceptStep(createFails));
      v.acceptor == Publishing(i, t, want) && v.closes == x.closes && v.leaked == x.leaked
      && v.slots == x.slots[i := x.slots[i].(clientRing := [], serverRing := [])]
  {
  }

  lemma Publishes(x: World, i: nat, t: Token, want: bool, createFails: bool)
    requires i < |x.slots| && x.acceptor == Publishing(i, t, want)
    ensures var v := Next(Next(x, AcceptStep(createFails)), AcceptStep(createFails));
      v.acceptor == Idle && v.closes == x.closes && v.leaked == x.leaked
      && v.slots == x.slots[i := x.slots[i].(client := Open(t), passthrough := want)]
  {
  }
}
