/**
 What becomes of a connection in a slot: the steps of its relay thread, in order, with any steps of
 the accept thread and of the other relay threads between them.
 */
module Lives {
  import opened Bytes
  import opened Slots

  // None of these events is a step of relay thread i.
  predicate Quiet(events: seq<Event>, i: nat) {
    forall e :: e in events && e.RelayStep? ==> e.i != i
  }

  // A step of a thread, after steps of others.
  datatype Part = Part(quiet: seq<Event>, own: Event)

  predicate IsStepOf(part: Part, i: nat) {
    Quiet(part.quiet, i) && part.own.RelayStep? && part.own.i == i
  }

  predicate StepsOf(parts: seq<Part>, i: nat) {
    forall k :: 0 <= k < |parts| ==> IsStepOf(parts[k], i)
  }

  function Woven(parts: seq<Part>): seq<Event> {
    if parts == [] then []
    else Woven(parts[..|parts| - 1]) + (parts[|parts| - 1].quiet + [parts[|parts| - 1].own])
  }

  // What others leave alone in a slot whose thread exists: where the thread is, its server, and its
  // client as long as there is one. No socket that was closed is reopened.
  predicate Untouched(w: World, v: World, i: nat) {
    && i < |w.slots| == |v.slots|
    && v.slots[i].pc == w.slots[i].pc && v.slots[i].server == w.slots[i].server
    && (w.slots[i].client.Open? ==> v.slots[i].client == w.slots[i].client)
    && w.closes <= v.closes
  }

  lemma OthersLeaveAlone(w: World, e: Event, i: nat)
    requires Owned(w) && i < |w.slots| && !w.slots[i].pc.Unborn?
    requires e.RelayStep? ==> e.i != i
    ensures Untouched(w, Next(w, e), i)
  {
    assert SlotOk(w.slots[i], i, w.acceptor);
  }

  lemma {:induction false} QuietLeavesAlone(w: World, events: seq<Event>, i: nat)
    requires Owned(w) && i < |w.slots| && !w.slots[i].pc.Unborn? && Quiet(events, i)
    ensures Owned(Run(w, events)) && Untouched(w, Run(w, events), i)
  {
    if events != [] {
      var most, last := events[..|events| - 1], events[|events| - 1];
      assert last in events && forall e :: e in most ==> e in events;
      QuietLeavesAlone(w, most, i);
      StepKeepsOwned(Run(w, most), last);
      OthersLeaveAlone(Run(w, most), last, i);
    }
  }

  // A thread's own step moves its slot, and closes what it closes.
  lemma OwnStep(w: World, own: Event)
    requires own.RelayStep? && own.i < |w.slots| && Owned(w)
    ensures var v, s := Next(w, own), w.slots[own.i];
      && Owned(v) && |v.slots| == |w.slots|
      && v.slots[own.i] == Moved(s, w.next, own.connectFails, own.stop, own.clientRing, own.serverRing)
      && v.closes == w.closes + Once(Shut(s))
  {
    StepKeepsOwned(w, own);
  }

  // The quiet part and the thread's step after it.
  lemma {:induction false} OnePart(w: World, part: Part, i: nat) returns (x: World)
    requires Owned(w) && i < |w.slots| && !w.slots[i].pc.Unborn?
    requires IsStepOf(part, i)
    ensures Owned(x) && Untouched(w, x, i)
    ensures var v, s := Run(w, part.quiet + [part.own]), x.slots[i];
      && Owned(v) && |v.slots| == |w.slots|
      && v.slots[i] == Moved(s, x.next, part.own.connectFails, part.own.stop, part.own.clientRing, part.own.serverRing)
      && v.closes == x.closes + Once(Shut(s))
  {
    x := Run(w, part.quiet);
    QuietLeavesAlone(w, part.quiet, i);
    OwnStep(x, part.own);
    RunSnoc(w, part.quiet, part.own);
  }

  lemma {:induction false} RunKeepsOwned(w: World, events: seq<Event>)
    requires Owned(w)
    ensures Owned(Run(w, events))
  {
    if events != [] {
      RunKeepsOwned(w, events[..|events| - 1]);
      StepKeepsOwned(Run(w, events[..|events| - 1]), events[|events| - 1]);
    }
  }

  lemma NoParts(w: World)
    ensures Run(w, Woven([])) == w
  {
  }

  lemma RunMore(w: World, most: seq<Part>, last: Part)
    ensures Run(w, Woven(most + [last])) == Run(Run(w, Woven(most)), last.quiet + [last.own])
  {
    assert (most + [last])[..|most|] == most;
    RunParts(w, most + [last]);
  }

  lemma RunParts(w: World, parts: seq<Part>)
    requires parts != []
    ensures var last := parts[|parts| - 1];
      Run(w, Woven(parts)) == Run(Run(w, Woven(parts[..|parts| - 1])), last.quiet + [last.own])
  {
    var last := parts[|parts| - 1];
    RunAppend(w, Woven(parts[..|parts| - 1]), last.quiet + [last.own]);
  }

  // ---- From the hand-over into the loop ----

  // After k steps of a thread that found client t and got a connection.
  predicate Inbound(w: World, i: nat, t: Token, k: nat) {
    && i < |w.slots| && w.slots[i].client == Open(t) && w.slots[i].pc == Inward(k)
    && (k >= 4 ==> w.slots[i].server.Open?)
    && w.slots[i].clientRing == [] && w.slots[i].serverRing == []
  }

  lemma MovesIn(s: Slot, token: Token, own: Event, k: nat)
    requires own.RelayStep? && k < 6 && s.pc == Inward(k) && s.client.Open? && (k >= 4 ==> s.server.Open?)
    requires k == 3 ==> !own.connectFails
    ensures var now := Moved(s, token, own.connectFails, own.stop, own.clientRing, own.serverRing);
      && now.pc == Inward(k + 1) && now.client == s.client && (k + 1 >= 4 ==> now.server.Open?)
      && now.clientRing == s.clientRing && now.serverRing == s.serverRing
  {
  }

  lemma {:induction false} PartInward(w: World, part: Part, i: nat, t: Token, k: nat)
    requires Owned(w) && Inbound(w, i, t, k) && k < 6 && IsStepOf(part, i) && (k == 3 ==> !part.own.connectFails)
    ensures Inbound(Run(w, part.quiet + [part.own]), i, t, k + 1)
  {
    var x := OnePart(w, part, i);
    assert SlotOk(x.slots[i], i, x.acceptor);
    MovesIn(x.slots[i], x.next, part.own, k);
  }

  lemma {:induction false} GoesIn(w: World, parts: seq<Part>, i: nat, t: Token) returns (v: World)
    requires Owned(w) && Inbound(w, i, t, 0) && StepsOf(parts, i) && |parts| <= 6
    requires |parts| > 3 ==> !parts[3].own.connectFails
    ensures v == Run(w, Woven(parts)) && Inbound(v, i, t, |parts|)
  {
    if parts == [] {
      v := w;
      NoParts(w);
    } else {
      var most, last := parts[..|parts| - 1], parts[|parts| - 1];
      LastIsLast(parts);
      var before := GoesIn(w, most, i, t);
      v := OneMoreIn(w, before, most, last, i, t);
    }
  }

  lemma OneMoreIn(w: World, before: World, most: seq<Part>, last: Part, i: nat, t: Token) returns (v: World)
    requires Owned(w) && before == Run(w, Woven(most)) && |most| < 6 && Inbound(before, i, t, |most|)
    requires IsStepOf(last, i) && (|most| == 3 ==> !last.own.connectFails)
    ensures v == Run(w, Woven(most + [last])) && Inbound(v, i, t, |most| + 1)
  {
    v := Run(before, last.quiet + [last.own]);
    RunKeepsOwned(w, Woven(most));
    PartInward(before, last, i, t, |most|);
    RunMore(w, most, last);
  }

  // A client that was handed over is connected: if the server answers, the thread's sixth step has it
  // in the relay loop, with the client, an open server and empty rings.
  lemma {:induction false} ClientIsRelayed(n: nat, events: seq<Event>, parts: seq<Part>, i: nat, t: Token)
    requires var w := Run(Init(n), events); i < |w.slots| && w.slots[i].pc.Waiting? && w.slots[i].client == Open(t)
    requires StepsOf(parts, i) && |parts| == 6 && !parts[3].own.connectFails
    ensures var v := Run(Init(n), events + Woven(parts));
      && i < |v.slots| && v.slots[i].pc.Looping? && v.slots[i].client == Open(t) && v.slots[i].server.Open?
      && v.slots[i].clientRing == [] && v.slots[i].serverRing == []
  {
    var w := Run(Init(n), events);
    RunOwned(n, events);
    assert SlotOk(w.slots[i], i, w.acceptor);
    RunAppend(Init(n), events, Woven(parts));
    var v := GoesIn(w, parts, i, t);
  }

  // ---- When the server cannot be reached ----

  // A connect that fails closes the client, once, and frees its slot two steps later, whatever happens
  // in between.
  lemma {:induction false} FailedConnectFreesSlot(n: nat, events: seq<Event>, parts: seq<Part>, i: nat, t: Token)
    requires var w := Run(Init(n), events); i < |w.slots| && w.slots[i].pc.Dialing? && w.slots[i].client == Open(t)
    requires StepsOf(parts, i) && |parts| == 3 && parts[0].own.connectFails
    ensures var v := Run(Init(n), events + Woven(parts));
      i < |v.slots| && v.slots[i].pc.Waiting? && v.slots[i].client == Invalid && v.slots[i].server == Invalid && v.closes[t] == 1
  {
    var w := Run(Init(n), events);
    RunOwned(n, events);
    RunAppend(Init(n), events, Woven(parts));
    var p1, p2 := parts[..1], parts[..2];
    assert p1[..0] == [] && p2[..1] == p1 && parts[..2] == p2;
    RunParts(w, p1);
    RunParts(w, p2);
    RunParts(w, parts);
    var a, b := Run(w, Woven(p1)), Run(w, Woven(p2));
    DialFails(w, parts[0], i, t);
    ClosesEarly(a, parts[1], i, t);
    ClearsEarly(b, parts[2], i, t);
    RunAccounted(n, events + Woven(parts));
  }

  lemma {:induction false} DialFails(w: World, part: Part, i: nat, t: Token)
    requires Owned(w) && i < |w.slots| && w.slots[i].pc.Dialing? && w.slots[i].client == Open(t)
    requires IsStepOf(part, i) && part.own.connectFails
    ensures var v := Run(w, part.quiet + [part.own]);
      Owned(v) && i < |v.slots| && v.slots[i].pc.EarlyClosing? && v.slots[i].client == Open(t)
  {
    var x := OnePart(w, part, i);
  }

  lemma {:induction false} ClosesEarly(w: World, part: Part, i: nat, t: Token)
    requires Owned(w) && i < |w.slots| && w.slots[i].pc.EarlyClosing? && w.slots[i].client == Open(t)
    requires IsStepOf(part, i)
    ensures var v := Run(w, part.quiet + [part.own]);
      && Owned(v) && i < |v.slots| && v.slots[i].pc.EarlyClearing? && v.slots[i].client == Open(t) && v.closes[t] >= 1
  {
    var x := OnePart(w, part, i);
  }

  lemma {:induction false} ClearsEarly(w: World, part: Part, i: nat, t: Token)
    requires Owned(w) && i < |w.slots| && w.slots[i].pc.EarlyClearing? && w.slots[i].client == Open(t) && w.closes[t] >= 1
    requires IsStepOf(part, i)
    ensures var v := Run(w, part.quiet + [part.own]);
      && Owned(v) && i < |v.slots| && v.slots[i].pc.Waiting? && v.slots[i].client == Invalid && v.slots[i].server == Invalid
      && v.closes[t] >= 1
  {
    var x := OnePart(w, part, i);
    assert SlotOk(x.slots[i], i, x.acceptor);
  }

  // ---- From the end of the loop ----

  // After k steps of a thread that left the loop with client t and server s.
  predicate Outbound(w: World, i: nat, t: Token, s: Token, k: nat) {
    && i < |w.slots| && w.slots[i].pc == Outward(k)
    && (k <= 3 ==> w.slots[i].client == Open(t))
    && w.slots[i].server == (if k <= 6 then Open(s) else Invalid)
    && (k >= 3 ==> w.closes[t] >= 1) && (k >= 6 ==> w.closes[s] >= 1)
  }

  lemma MovesOut(slot: Slot, token: Token, own: Event, k: nat, t: Token, s: Token)
    requires own.RelayStep? && k < 7 && slot.pc == Outward(k) && (k == 0 ==> own.stop)
    requires (k <= 3 ==> slot.client == Open(t)) && slot.server == Open(s)
    ensures var now := Moved(slot, token, own.connectFails, own.stop, own.clientRing, own.serverRing);
      && now.pc == Outward(k + 1) && (k + 1 <= 3 ==> now.client == Open(t))
      && now.server == (if k + 1 <= 6 then Open(s) else Invalid)
    ensures Shut(slot) == if k == 2 then Open(t) else if k == 5 then Open(s) else Invalid
  {
  }

  lemma {:induction false} PartOutward(w: World, part: Part, i: nat, t: Token, s: Token, k: nat)
    requires Owned(w) && Outbound(w, i, t, s, k) && k < 7 && IsStepOf(part, i) && (k == 0 ==> part.own.stop)
    ensures Outbound(Run(w, part.quiet + [part.own]), i, t, s, k + 1)
  {
    var x := OnePart(w, part, i);
    MovesOut(x.slots[i], x.next, part.own, k, t, s);
  }

  lemma {:induction false} GoesOut(w: World, parts: seq<Part>, i: nat, t: Token, s: Token) returns (v: World)
    requires Owned(w) && Outbound(w, i, t, s, 0) && StepsOf(parts, i) && |parts| <= 7
    requires |parts| > 0 ==> parts[0].own.stop
    ensures v == Run(w, Woven(parts)) && Outbound(v, i, t, s, |parts|)
  {
    if parts == [] {
      v := w;
      NoParts(w);
    } else {
      var most, last := parts[..|parts| - 1], parts[|parts| - 1];
      LastIsLast(parts);
      var before := GoesOut(w, most, i, t, s);
      v := OneMoreOut(w, before, most, last, i, t, s);
    }
  }

  lemma OneMoreOut(w: World, before: World, most: seq<Part>, last: Part, i: nat, t: Token, s: Token) returns (v: World)
    requires Owned(w) && before == Run(w, Woven(most)) && |most| < 7 && Outbound(before, i, t, s, |most|)
    requires IsStepOf(last, i) && (|most| == 0 ==> last.own.stop)
    ensures v == Run(w, Woven(most + [last])) && Outbound(v, i, t, s, |most| + 1)
  {
    v := Run(before, last.quiet + [last.own]);
    RunKeepsOwned(w, Woven(most));
    PartOutward(before, last, i, t, s, |most|);
    RunMore(w, most, last);
  }

  // A loop that ends closes both its sockets, once each, and has its slot's thread waiting again six
  // steps later, with no server and not with that client.
  lemma {:induction false} LoopEndFreesSlot(n: nat, events: seq<Event>, parts: seq<Part>, i: nat, t: Token, s: Token)
    requires var w := Run(Init(n), events);
      i < |w.slots| && w.slots[i].pc.Looping? && w.slots[i].client == Open(t) && w.slots[i].server == Open(s)
    requires StepsOf(parts, i) && |parts| == 7 && parts[0].own.stop
    ensures var v := Run(Init(n), events + Woven(parts));
      && i < |v.slots| && v.slots[i].pc.Waiting? && v.slots[i].server == Invalid && v.slots[i].client != Open(t)
      && v.closes[t] == 1 && v.closes[s] == 1
  {
    var w := Run(Init(n), events);
    RunOwned(n, events);
    RunAppend(Init(n), events, Woven(parts));
    var v := GoesOut(w, parts, i, t, s);
    RunAccounted(n, events + Woven(parts));
    assert SlotTokens(v, i);
  }
}
