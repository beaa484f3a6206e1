/**
 The hand-over of connections from the accept thread to the relay threads: every interleaving
 of their steps on the shared slots. Each step reads or writes one field.
 */
module Slots {
  import opened Bytes

  // Sockets are numbered as they are opened and never reused.
  type Token = nat

  datatype Handle = Invalid | Open(t: Token)

  // Where a relay thread is; the numbers are those of smbgw.c.
  datatype RelayPc =
    | Unborn
    | Waiting        // 60
    | Rechecking     // 65
    | Connecting     // 71, gwtcp.c 152
    | Dialing        // gwtcp.c 154
    | Verifying      // 80
    | EarlyClosing   // 75, 83
    | EarlyClearing  // 76, 84
    | Entering       // 92
    | Looping        // 102
    | Testing        // 330
    | Closing        // 332
    | Clearing       // 333
    | TestingServer  // 336
    | ClosingServer  // 338
    | ClearingServer // 339

  // Where the accept thread is, with the connection it holds.
  datatype AcceptPc =
    | Idle
    | Scanning(i: nat, t: Token, want: bool)       // 442
    | Choosing(i: nat, t: Token, want: bool)       // 446
    | ResetClient(i: nat, t: Token, want: bool)    // 456
    | ResetServer(i: nat, t: Token, want: bool)    // 457
    | Publishing(i: nat, t: Token, want: bool)     // 459
    | SettingMode(i: nat, t: Token, want: bool)    // 460
    | GivingUp(t: Token)                           // 469

  datatype Slot = Slot(
    client: Handle, server: Handle,
    clientRing: seq<byte>, serverRing: seq<byte>,
    passthrough: bool, hasThread: bool, pc: RelayPc)

  // The last five fields record what happened: the next token, who got which, what each client
  // asked for, how often each was closed, how many threads were made for each slot.
  datatype World = World(
    slots: seq<Slot>, acceptor: AcceptPc, next: Token,
    clients: map<Token, bool>, servers: set<Token>, closes: multiset<Token>,
    leaked: set<Token>, threads: multiset<nat>)

  datatype Event =
    // A connection comes in; it is to be relayed with the given mode.
    | Arrive(want: bool)
    // The accept thread moves; pthread_create fails when asked to.
    | AcceptStep(createFails: bool)
    // Relay thread i moves. Connecting fails when asked to; in the loop it leaves the given
    // contents in the rings, or stops.
    | RelayStep(i: nat, connectFails: bool, stop: bool, clientRing: seq<byte>, serverRing: seq<byte>)

  function Fresh(): Slot {
    Slot(Invalid, Invalid, [], [], false, false, Unborn)
  }

  function Init(n: nat): World {
    World(seq(n, _ => Fresh()), Idle, 0, map[], {}, multiset{}, {}, multiset{})
  }

  function Once(h: Handle): multiset<Token> {
    match h
    case Invalid => multiset{}
    case Open(t) => multiset{t}
  }

  function Put(w: World, i: nat, s: Slot): World
    requires i < |w.slots|
  {
    w.(slots := w.slots[i := s])
  }

  function Next(w: World, e: Event): World {
    match e
    case Arrive(want) =>
      if w.acceptor.Idle? then
        w.(acceptor := Scanning(0, w.next, want), next := w.next + 1, clients := w.clients[w.next := want])
      else w
    case AcceptStep(createFails) => Accept(w, createFails)
    case RelayStep(i, connectFails, stop, c, s) =>
      if i < |w.slots| then Relay(w, i, connectFails, stop, c, s) else w
  }

  // One step of smbgw_proxy_start.
  function Accept(w: World, createFails: bool): World {
    match w.acceptor
    case Idle => w
    case Scanning(i, t, want) =>
      if i >= |w.slots| then w.(acceptor := GivingUp(t))
      else if w.slots[i].client == Invalid then w.(acceptor := Choosing(i, t, want))
      else w.(acceptor := Scanning(i + 1, t, want))
    case Choosing(i, t, want) =>
      if i >= |w.slots| then w
      else if w.slots[i].hasThread then w.(acceptor := ResetClient(i, t, want))
      else if createFails then w.(acceptor := Idle, leaked := w.leaked + {t})
      else Put(w, i, w.slots[i].(hasThread := true, pc := Waiting))
             .(acceptor := ResetClient(i, t, want), threads := w.threads + multiset{i})
    case ResetClient(i, t, want) =>
      if i >= |w.slots| then w
      else Put(w, i, w.slots[i].(clientRing := [])).(acceptor := ResetServer(i, t, want))
    case ResetServer(i, t, want) =>
      if i >= |w.slots| then w
      else Put(w, i, w.slots[i].(serverRing := [])).(acceptor := Publishing(i, t, want))
    case Publishing(i, t, want) =>
      if i >= |w.slots| then w
      else Put(w, i, w.slots[i].(client := Open(t))).(acceptor := SettingMode(i, t, want))
    case SettingMode(i, t, want) =>
      if i >= |w.slots| then w
      else Put(w, i, w.slots[i].(passthrough := want)).(acceptor := Idle)
    case GivingUp(t) => w.(closes := w.closes + multiset{t}, acceptor := Idle)
  }

  // One step of smbgw_thread on its own slot. Connecting yields the socket `token`, unless it
  // fails; in the loop the thread fills the rings as it likes, or stops.
  function Moved(slot: Slot, token: Token, connectFails: bool, stop: bool, c: seq<byte>, s: seq<byte>): Slot {
    match slot.pc
    case Unborn => slot
    case Waiting => if slot.client == Invalid then slot else slot.(pc := Rechecking)
    case Rechecking => slot.(pc := if slot.client == Invalid then Waiting else Connecting)
    case Connecting => slot.(server := Invalid, pc := Dialing)
    case Dialing => if connectFails then slot.(pc := EarlyClosing) else slot.(server := Open(token), pc := Verifying)
    case Verifying => slot.(pc := if slot.server == Invalid then EarlyClosing else Entering)
    case EarlyClosing => slot.(pc := EarlyClearing)
    case EarlyClearing => slot.(client := Invalid, pc := Waiting)
    case Entering => slot.(pc := Looping)
    case Looping => if stop then slot.(pc := Testing) else slot.(clientRing := c, serverRing := s)
    case Testing => slot.(pc := if slot.client == Invalid then TestingServer else Closing)
    case Closing => slot.(pc := Clearing)
    case Clearing => slot.(client := Invalid, pc := TestingServer)
    case TestingServer => slot.(pc := if slot.server == Invalid then Waiting else ClosingServer)
    case ClosingServer => slot.(pc := ClearingServer)
    case ClearingServer => slot.(server := Invalid, pc := Waiting)
  }

  // The socket that step closes.
  function Shut(slot: Slot): Handle {
    if slot.pc.EarlyClosing? || slot.pc.Closing? then slot.client
    else if slot.pc.ClosingServer? then slot.server
    else Invalid
  }

  predicate Dials(slot: Slot, connectFails: bool) {
    slot.pc.Dialing? && !connectFails
  }

  function Relay(w: World, i: nat, connectFails: bool, stop: bool, c: seq<byte>, s: seq<byte>): World
    requires i < |w.slots|
  {
    var slot := w.slots[i];
    var v := Put(w, i, Moved(slot, w.next, connectFails, stop, c, s)).(closes := w.closes + Once(Shut(slot)));
    if Dials(slot, connectFails) then v.(next := w.next + 1, servers := w.servers + {w.next}) else v
  }

  function Run(w: World, events: seq<Event>): World
  {
    if events == [] then w else Next(Run(w, events[..|events| - 1]), events[|events| - 1])
  }

  // ---- Who may touch a slot ----

  // The relay thread works for the client in the slot.
  predicate Serving(pc: RelayPc) {
    !(pc.Unborn? || pc.Waiting? || pc.TestingServer? || pc.ClosingServer? || pc.ClearingServer?)
  }

  predicate Unconnected(pc: RelayPc) {
    pc.Unborn? || pc.Waiting? || pc.Rechecking? || pc.Connecting? || pc.Dialing? || pc.EarlyClosing? || pc.EarlyClearing?
  }

  // The accept thread has chosen slot i and has not yet handed it over.
  predicate Taking(a: AcceptPc, i: nat) {
    Chosen(a) && a.i == i
  }

  predicate Chosen(a: AcceptPc) {
    a.Choosing? || a.ResetClient? || a.ResetServer? || a.Publishing?
  }

  // The accept thread holds a connection that is in no slot yet.
  predicate Holding(a: AcceptPc) {
    !(a.Idle? || a.SettingMode?)
  }

  predicate SlotOk(s: Slot, i: nat, a: AcceptPc) {
    // the thread
    && (s.pc.Unborn? <==> !s.hasThread)
    && (s.pc.Unborn? ==> s.client == Invalid)
    // the client socket says who owns the slot
    && (Serving(s.pc) ==> s.client != Invalid)
    && (Taking(a, i) ==> s.client == Invalid)
    && (Taking(a, i) && !a.Choosing? ==> s.hasThread)
    // the rings are empty from the hand-over until the loop
    && (Taking(a, i) && (a.ResetServer? || a.Publishing?) ==> s.clientRing == [])
    && (Taking(a, i) && a.Publishing? ==> s.serverRing == [])
    && (s.client != Invalid && !(s.pc.Looping? || s.pc.Testing? || s.pc.Closing? || s.pc.Clearing?) ==>
          s.clientRing == [] && s.serverRing == [])
    // the server socket is open from connecting to teardown
    && (Unconnected(s.pc) <==> s.server == Invalid)
  }

  // The acceptor's slot exists, and while a mode is being set, no other client is in its slot.
  predicate AcceptOk(w: World) {
    && (w.acceptor.SettingMode? || Chosen(w.acceptor) ==> w.acceptor.i < |w.slots|)
    && (w.acceptor.SettingMode? ==>
          w.slots[w.acceptor.i].client == Invalid || w.slots[w.acceptor.i].client == Open(w.acceptor.t))
    && (!w.acceptor.Idle? ==> w.acceptor.t in w.clients)
    && (!w.acceptor.Idle? && !w.acceptor.GivingUp? ==> w.clients[w.acceptor.t] == w.acceptor.want)
  }

  predicate Owned(w: World) {
    && AcceptOk(w)
    && (forall t :: t in w.clients ==> t < w.next)
    && (forall i :: 0 <= i < |w.slots| ==> SlotOk(w.slots[i], i, w.acceptor))
  }

  // The slot the accept thread has chosen, and any other.
  lemma ChosenKeepsSlotOk(w: World, createFails: bool, j: nat)
    requires AcceptOk(w) && j < |w.slots| && SlotOk(w.slots[j], j, w.acceptor) && Taking(w.acceptor, j)
    ensures |Accept(w, createFails).slots| == |w.slots|
    ensures SlotOk(Accept(w, createFails).slots[j], j, Accept(w, createFails).acceptor)
  {
  }

  lemma OtherKeepsSlotOk(w: World, createFails: bool, j: nat)
    requires AcceptOk(w) && j < |w.slots| && SlotOk(w.slots[j], j, w.acceptor) && !Taking(w.acceptor, j)
    ensures |Accept(w, createFails).slots| == |w.slots|
    ensures SlotOk(Accept(w, createFails).slots[j], j, Accept(w, createFails).acceptor)
  {
    var s, v := w.slots[j], Accept(w, createFails);
    assert v.slots[j] == s || v.slots[j] == s.(passthrough := v.slots[j].passthrough);
    assert Taking(v.acceptor, j) ==> v.acceptor.Choosing? && s.client == Invalid;
  }

  lemma AcceptKeepsSlotOk(w: World, createFails: bool, j: nat)
    requires AcceptOk(w) && j < |w.slots| && SlotOk(w.slots[j], j, w.acceptor)
    ensures |Accept(w, createFails).slots| == |w.slots|
    ensures SlotOk(Accept(w, createFails).slots[j], j, Accept(w, createFails).acceptor)
  {
    if Taking(w.acceptor, j) { ChosenKeepsSlotOk(w, createFails, j); } else { OtherKeepsSlotOk(w, createFails, j); }
  }

  lemma {:induction false} AcceptKeepsOwned(w: World, createFails: bool)
    requires Owned(w)
    ensures Owned(Accept(w, createFails)) && |Accept(w, createFails).slots| == |w.slots|
  {
    forall j | 0 <= j < |w.slots| ensures SlotOk(Accept(w, createFails).slots[j], j, Accept(w, createFails).acceptor) {
      AcceptKeepsSlotOk(w, createFails, j);
    }
    assert Chosen(w.acceptor) ==> SlotOk(w.slots[w.acceptor.i], w.acceptor.i, w.acceptor);
  }

  lemma MovedKeepsSlotOk(slot: Slot, i: nat, a: AcceptPc, token: Token, connectFails: bool, stop: bool, c: seq<byte>, s: seq<byte>)
    requires SlotOk(slot, i, a)
    ensures SlotOk(Moved(slot, token, connectFails, stop, c, s), i, a)
    ensures Moved(slot, token, connectFails, stop, c, s).client in {slot.client, Invalid}
  {
  }

  lemma {:induction false} RelayKeepsOwned(w: World, i: nat, connectFails: bool, stop: bool, c: seq<byte>, s: seq<byte>)
    requires i < |w.slots| && Owned(w)
    ensures Owned(Relay(w, i, connectFails, stop, c, s)) && |Relay(w, i, connectFails, stop, c, s).slots| == |w.slots|
  {
    MovedKeepsSlotOk(w.slots[i], i, w.acceptor, w.next, connectFails, stop, c, s);
  }

  lemma {:induction false} StepKeepsOwned(w: World, e: Event)
    requires Owned(w)
    ensures Owned(Next(w, e)) && |Next(w, e).slots| == |w.slots|
  {
    match e
    case Arrive(want) =>
    case AcceptStep(createFails) => AcceptKeepsOwned(w, createFails);
    case RelayStep(i, connectFails, stop, c, s) =>
      if i < |w.slots| { RelayKeepsOwned(w, i, connectFails, stop, c, s); }
  }

  lemma {:induction false} RunOwned(n: nat, events: seq<Event>)
    ensures Owned(Run(Init(n), events)) && |Run(Init(n), events).slots| == n
  {
    if events != [] {
      RunOwned(n, events[..|events| - 1]);
      StepKeepsOwned(Run(Init(n), events[..|events| - 1]), events[|events| - 1]);
    }
  }

  // The accept thread resets the rings of a slot, and hands it over, only while its relay
  // thread is outside the relay loop, and indeed not working for any client; the relay loop
  // starts only with both rings empty.
  lemma SlotExclusion(n: nat, events: seq<Event>, i: nat)
    requires i < n
    ensures var w := Run(Init(n), events);
      && |w.slots| == n
      && (Taking(w.acceptor, i) ==> !Serving(w.slots[i].pc))
      && (w.slots[i].pc.Entering? ==> w.slots[i].clientRing == [] && w.slots[i].serverRing == [])
  {
    RunOwned(n, events);
  }

  // ---- Where each connection is ----

  predicate Held(w: World, t: Token) {
    Holding(w.acceptor) && w.acceptor.t == t
  }

  predicate InSlot(w: World, t: Token) {
    exists i :: 0 <= i < |w.slots| && w.slots[i].client == Open(t)
  }

  predicate InServerSlot(w: World, t: Token) {
    exists i :: 0 <= i < |w.slots| && w.slots[i].server == Open(t)
  }

  // The client socket of the slot is closed but its field is not cleared yet.
  predicate ClientShut(s: Slot) {
    s.pc.EarlyClearing? || s.pc.Clearing?
  }

  predicate ServerShut(s: Slot) {
    s.pc.ClearingServer?
  }

  predicate SlotTokens(w: World, i: nat)
    requires i < |w.slots|
  {
    var s := w.slots[i];
    && (s.client.Open? ==>
          && s.client.t in w.clients && !Held(w, s.client.t) && s.client.t !in w.leaked
          && w.closes[s.client.t] == if ClientShut(s) then 1 else 0)
    && (s.server.Open? ==>
          s.server.t in w.servers && w.closes[s.server.t] == if ServerShut(s) then 1 else 0)
    && (w.threads[i] == if s.hasThread then 1 else 0)
  }

  predicate Distinct(w: World) {
    forall i, j :: 0 <= i < |w.slots| && 0 <= j < |w.slots| && i != j ==>
      && (w.slots[i].client == w.slots[j].client ==> w.slots[i].client == Invalid)
      && (w.slots[i].server == w.slots[j].server ==> w.slots[i].server == Invalid)
  }

  predicate Numbered(w: World) {
    && (forall t :: t in w.clients ==> t < w.next)
    && (forall t :: t in w.servers ==> t < w.next && t !in w.clients)
    && (forall t :: t in w.leaked ==> t in w.clients && w.closes[t] == 0 && !Held(w, t))
    && (forall t :: t in w.closes ==> w.closes[t] == 1 && (t in w.clients || t in w.servers))
    && (Holding(w.acceptor) ==> w.acceptor.t in w.clients && w.closes[w.acceptor.t] == 0)
  }

  predicate Placed(w: World) {
    && (forall t :: t in w.clients ==> Held(w, t) || InSlot(w, t) || t in w.leaked || w.closes[t] == 1)
    && (forall t :: t in w.servers ==> InServerSlot(w, t) || w.closes[t] == 1)
  }

  predicate Accounted(w: World) {
    && Numbered(w) && Distinct(w) && Placed(w)
    && (forall i :: 0 <= i < |w.slots| ==> SlotTokens(w, i))
  }

  // All that a relay step does to the sockets of slot i: it may close the client or the server
  // (h says which), clear the field of one it closed before, or put a new server in it.
  predicate Touches(w: World, v: World, i: nat, h: Handle)
    requires i < |w.slots|
  {
    && |v.slots| == |w.slots| && v == w.(slots := v.slots, closes := v.closes, next := v.next, servers := v.servers)
    && (forall j :: 0 <= j < |w.slots| && j != i ==> v.slots[j] == w.slots[j])
    && v.closes == w.closes + Once(h)
    && var was, now := w.slots[i], v.slots[i];
       && now.hasThread == was.hasThread
       && (h.Open? ==>
            || (h == was.client == now.client && !ClientShut(was) && ClientShut(now) && ServerShut(now) == ServerShut(was))
            || (h == was.server == now.server && !ServerShut(was) && ServerShut(now) && ClientShut(now) == ClientShut(was)))
       && (h == Invalid && now.client != Invalid ==> ClientShut(now) == ClientShut(was))
       && (h == Invalid && now.server != Invalid ==> ServerShut(now) == ServerShut(was))
       && (now.client == was.client || (now.client == Invalid && ClientShut(was)))
       && (if v.servers == w.servers then
             v.next == w.next && (now.server == was.server || (now.server == Invalid && ServerShut(was)))
           else
             v.next == w.next + 1 && v.servers == w.servers + {w.next}
             && was.server == Invalid && now.server == Open(w.next) && h == Invalid && !ServerShut(now))
  }

  lemma RelayTouches(w: World, i: nat, connectFails: bool, stop: bool, c: seq<byte>, s: seq<byte>)
    requires i < |w.slots| && Owned(w) && Numbered(w)
    ensures Touches(w, Relay(w, i, connectFails, stop, c, s), i, Shut(w.slots[i]))
  {
    assert SlotOk(w.slots[i], i, w.acceptor);
    assert w.next !in w.servers;
  }

  lemma TouchKeepsNumbered(w: World, v: World, i: nat, h: Handle)
    requires i < |w.slots| && Accounted(w) && Touches(w, v, i, h)
    ensures Numbered(v)
  {
    assert SlotTokens(w, i);
  }

  lemma TouchKeepsDistinct(w: World, v: World, i: nat, h: Handle)
    requires i < |w.slots| && Accounted(w) && Touches(w, v, i, h)
    ensures Distinct(v)
  {
    forall j, k | 0 <= j < |v.slots| && 0 <= k < |v.slots| && j != k
      ensures v.slots[j].client == v.slots[k].client ==> v.slots[j].client == Invalid
      ensures v.slots[j].server == v.slots[k].server ==> v.slots[j].server == Invalid
    {
      assert SlotTokens(w, j) && SlotTokens(w, k);
    }
  }

  lemma TouchKeepsSlotTokens(w: World, v: World, i: nat, h: Handle, j: nat)
    requires i < |w.slots| && j < |w.slots| && Accounted(w) && Touches(w, v, i, h)
    ensures SlotTokens(v, j)
  {
    assert SlotTokens(w, i) && SlotTokens(w, j);
  }

  lemma TouchKeepsPlaced(w: World, v: World, i: nat, h: Handle)
    requires i < |w.slots| && Accounted(w) && Touches(w, v, i, h) && Numbered(v)
    ensures Placed(v)
  {
    assert SlotTokens(w, i);
    forall t | t in v.clients && InSlot(w, t) ensures InSlot(v, t) || v.closes[t] == 1 {
      var j :| 0 <= j < |w.slots| && w.slots[j].client == Open(t);
      assert v.slots[j].client == Open(t) || w.closes[t] == 1;
    }
    forall t | t in v.servers ensures InServerSlot(v, t) || v.closes[t] == 1 {
      if t in w.servers && InServerSlot(w, t) {
        var j :| 0 <= j < |w.slots| && w.slots[j].server == Open(t);
        assert v.slots[j].server == Open(t) || w.closes[t] == 1;
      } else if t !in w.servers {
        assert v.slots[i].server == Open(t);
      }
    }
  }

  lemma RelayKeepsAccounted(w: World, i: nat, connectFails: bool, stop: bool, c: seq<byte>, s: seq<byte>)
    requires i < |w.slots| && Owned(w) && Accounted(w)
    ensures Accounted(Relay(w, i, connectFails, stop, c, s))
  {
    var v, h := Relay(w, i, connectFails, stop, c, s), Shut(w.slots[i]);
    RelayTouches(w, i, connectFails, stop, c, s);
    TouchKeepsNumbered(w, v, i, h);
    TouchKeepsDistinct(w, v, i, h);
    TouchKeepsPlaced(w, v, i, h);
    forall j | 0 <= j < |v.slots| ensures SlotTokens(v, j) {
      TouchKeepsSlotTokens(w, v, i, h, j);
    }
  }

  // All that a step of the accept thread does to the sockets: it may give up the connection it
  // holds, by closing it or by losing it, or put it in slot i, which was free; it may start the
  // thread of slot i.
  datatype Release = Keeps | Closes | Loses | Publishes

  predicate Releases(w: World, v: World, i: nat, r: Release)
  {
    && (i < |w.slots| || w.slots == v.slots)
    && |v.slots| == |w.slots|
    && v == w.(slots := v.slots, acceptor := v.acceptor, closes := v.closes, leaked := v.leaked, threads := v.threads)
    && (forall j :: 0 <= j < |w.slots| && j != i ==> v.slots[j] == w.slots[j] && v.threads[j] == w.threads[j])
    && (if r.Keeps? then Holding(v.acceptor) == Holding(w.acceptor) && (Holding(w.acceptor) ==> v.acceptor.t == w.acceptor.t)
        else Holding(w.acceptor) && !Holding(v.acceptor))
    && v.closes == (if r.Closes? then w.closes + multiset{w.acceptor.t} else w.closes)
    && v.leaked == (if r.Loses? then w.leaked + {w.acceptor.t} else w.leaked)
    && (i < |w.slots| ==>
          var was, now := w.slots[i], v.slots[i];
          && now.server == was.server
          && ClientShut(now) == ClientShut(was) && ServerShut(now) == ServerShut(was)
          && (if r.Publishes? then was.client == Invalid && now.client == Open(w.acceptor.t) && !ClientShut(now)
              else now.client == was.client)
          && (if now.hasThread == was.hasThread then v.threads[i] == w.threads[i]
              else now.hasThread && v.threads[i] == w.threads[i] + 1))
    && (r.Publishes? ==> i < |w.slots|)
  }

  function ReleaseOf(w: World, createFails: bool): Release {
    match w.acceptor
    case GivingUp(_) => Closes
    case Publishing(_, _, _) => Publishes
    case Choosing(i, _, _) => if i < |w.slots| && !w.slots[i].hasThread && createFails then Loses else Keeps
    case _ => Keeps
  }

  lemma AcceptReleases(w: World, createFails: bool)
    requires Owned(w)
    ensures Releases(w, Accept(w, createFails), if Chosen(w.acceptor) || w.acceptor.SettingMode? then w.acceptor.i else |w.slots|, ReleaseOf(w, createFails))
  {
    var i := if Chosen(w.acceptor) || w.acceptor.SettingMode? then w.acceptor.i else |w.slots|;
    assert i < |w.slots| ==> SlotOk(w.slots[i], i, w.acceptor);
  }

  lemma ReleaseKeepsNumbered(w: World, v: World, i: nat, r: Release)
    requires Accounted(w) && Releases(w, v, i, r)
    ensures Numbered(v)
  {
    assert i < |w.slots| ==> SlotTokens(w, i);
  }

  lemma ReleaseKeepsDistinct(w: World, v: World, i: nat, r: Release)
    requires Accounted(w) && Releases(w, v, i, r)
    ensures Distinct(v)
  {
    forall j, k | 0 <= j < |v.slots| && 0 <= k < |v.slots| && j != k
      ensures v.slots[j].client == v.slots[k].client ==> v.slots[j].client == Invalid
      ensures v.slots[j].server == v.slots[k].server ==> v.slots[j].server == Invalid
    {
      assert SlotTokens(w, j) && SlotTokens(w, k);
    }
  }

  lemma ReleaseKeepsSlotTokens(w: World, v: World, i: nat, r: Release, j: nat)
    requires j < |w.slots| && Accounted(w) && Releases(w, v, i, r)
    ensures SlotTokens(v, j)
  {
    assert SlotTokens(w, j);
  }

  lemma ReleaseKeepsPlaced(w: World, v: World, i: nat, r: Release)
    requires Accounted(w) && Releases(w, v, i, r)
    ensures Placed(v)
  {
    forall t | t in v.clients ensures Held(v, t) || InSlot(v, t) || t in v.leaked || v.closes[t] == 1 {
      if InSlot(w, t) {
        var j :| 0 <= j < |w.slots| && w.slots[j].client == Open(t);
        assert v.slots[j].client == Open(t);
      } else if r.Publishes? && w.acceptor.t == t {
        assert v.slots[i].client == Open(t);
      }
    }
    forall t | t in v.servers ensures InServerSlot(v, t) || v.closes[t] == 1 {
      if InServerSlot(w, t) {
        var j :| 0 <= j < |w.slots| && w.slots[j].server == Open(t);
        assert v.slots[j].server == Open(t);
      }
    }
  }

  lemma AcceptKeepsAccounted(w: World, createFails: bool)
    requires Owned(w) && Accounted(w)
    ensures Accounted(Accept(w, createFails))
  {
    var i := if Chosen(w.acceptor) || w.acceptor.SettingMode? then w.acceptor.i else |w.slots|;
    var v, r := Accept(w, createFails), ReleaseOf(w, createFails);
    AcceptReleases(w, createFails);
    ReleaseKeepsNumbered(w, v, i, r);
    ReleaseKeepsDistinct(w, v, i, r);
    ReleaseKeepsPlaced(w, v, i, r);
    forall j | 0 <= j < |v.slots| ensures SlotTokens(v, j) {
      ReleaseKeepsSlotTokens(w, v, i, r, j);
    }
  }

  lemma ArriveKeepsAccounted(w: World, want: bool)
    requires Accounted(w)
    ensures Accounted(Next(w, Arrive(want)))
  {
    var v := Next(w, Arrive(want));
    assert w.next !in w.closes;
    forall j | 0 <= j < |v.slots| ensures SlotTokens(v, j) { assert SlotTokens(w, j); }
    forall t | t in v.clients ensures Held(v, t) || InSlot(v, t) || t in v.leaked || v.closes[t] == 1 {
      if t in w.clients && InSlot(w, t) { assert InSlot(v, t); }
    }
    forall t | t in v.servers ensures InServerSlot(v, t) || v.closes[t] == 1 {
      if InServerSlot(w, t) { assert InServerSlot(v, t); }
    }
  }

  lemma {:induction false} RunAccounted(n: nat, events: seq<Event>)
    ensures Accounted(Run(Init(n), events))
  {
    if events != [] {
      var w := Run(Init(n), events[..|events| - 1]);
      RunAccounted(n, events[..|events| - 1]);
      RunOwned(n, events[..|events| - 1]);
      match events[|events| - 1]
      case Arrive(want) => ArriveKeepsAccounted(w, want);
      case AcceptStep(createFails) => AcceptKeepsAccounted(w, createFails);
      case RelayStep(i, connectFails, stop, c, s) =>
        if i < |w.slots| { RelayKeepsAccounted(w, i, connectFails, stop, c, s); }
    }
  }

  // The connection is open in a slot.
  predicate Served(w: World, t: Token) {
    exists i :: 0 <= i < |w.slots| && w.slots[i].client == Open(t) && !ClientShut(w.slots[i])
  }

  // Every accepted connection is in exactly one place: in the accept thread's hands, open in
  // one slot, lost to a failed pthread_create, or closed; and it is closed at most once.
  lemma {:induction false} ConnectionConservation(n: nat, events: seq<Event>, t: Token)
    requires t in Run(Init(n), events).clients
    ensures var w := Run(Init(n), events);
      && w.closes[t] <= 1
      && (w.closes[t] == 1 <==> !Held(w, t) && !Served(w, t) && t !in w.leaked)
      && !(Held(w, t) && Served(w, t)) && !(Held(w, t) && t in w.leaked) && !(Served(w, t) && t in w.leaked)
      && (forall i, j | 0 <= i < |w.slots| && 0 <= j < |w.slots| ::
            w.slots[i].client == Open(t) && w.slots[j].client == Open(t) ==> i == j)
  {
    RunAccounted(n, events);
    var w := Run(Init(n), events);
    if Served(w, t) {
      var i :| 0 <= i < |w.slots| && w.slots[i].client == Open(t) && !ClientShut(w.slots[i]);
      assert SlotTokens(w, i);
    }
    if InSlot(w, t) {
      var i :| 0 <= i < |w.slots| && w.slots[i].client == Open(t);
      assert SlotTokens(w, i);
    }
    assert t in w.closes <==> w.closes[t] > 0;
  }

  // Every server connection is open in one slot or was closed, once; and none is left open, nor
  // its field set, when the thread of the slot is waiting for a client.
  lemma {:induction false} ServerConservation(n: nat, events: seq<Event>, t: Token)
    requires t in Run(Init(n), events).servers
    ensures var w := Run(Init(n), events);
      && w.closes[t] <= 1
      && (w.closes[t] == 1 <==>
            !exists i :: 0 <= i < |w.slots| && w.slots[i].server == Open(t) && !ServerShut(w.slots[i]))
      && (forall i :: 0 <= i < |w.slots| && w.slots[i].pc.Waiting? ==> w.slots[i].server == Invalid)
  {
    RunAccounted(n, events);
    RunOwned(n, events);
    var w := Run(Init(n), events);
    if i :| 0 <= i < |w.slots| && w.slots[i].server == Open(t) && !ServerShut(w.slots[i]) {
      assert SlotTokens(w, i);
    } else if InServerSlot(w, t) {
      var i :| 0 <= i < |w.slots| && w.slots[i].server == Open(t);
      assert SlotTokens(w, i);
    }
    assert t in w.closes <==> w.closes[t] > 0;
    assert forall i :: 0 <= i < |w.slots| ==> SlotOk(w.slots[i], i, w.acceptor);
  }

  lemma OneThreadPerSlot(n: nat, events: seq<Event>, i: nat)
    requires i < n
    ensures var w := Run(Init(n), events);
      |w.slots| == n && w.threads[i] == if w.slots[i].pc.Unborn? then 0 else 1
  {
    RunAccounted(n, events);
    RunOwned(n, events);
    var w := Run(Init(n), events);
    assert SlotTokens(w, i) && SlotOk(w.slots[i], i, w.acceptor);
  }

  // A connection is closed, for the first and last time, by the end of its relay loop, by a
  // failed connect, and by a scan that found no slot.
  lemma {:induction false} EndsCloseOnce(n: nat, events: seq<Event>, t: Token, e: Event)
    requires var w := Run(Init(n), events);
      || (e.AcceptStep? && w.acceptor == GivingUp(t))
      || (e.RelayStep? && e.i < |w.slots| && w.slots[e.i].client == Open(t)
          && (w.slots[e.i].pc.EarlyClosing? || w.slots[e.i].pc.Closing?))
    ensures Run(Init(n), events).closes[t] == 0
    ensures Run(Init(n), events + [e]).closes[t] == 1
  {
    var w := Run(Init(n), events);
    RunAccounted(n, events);
    RunSnoc(Init(n), events, e);
    if e.RelayStep? { assert SlotTokens(w, e.i); }
  }

  // Nothing but a failed pthread_create loses a connection: without one, every accepted
  // connection is in the accept thread's hands, open in a slot, or closed.
  lemma {:induction false} NothingElseIsLost(n: nat, events: seq<Event>, t: Token)
    requires AcceptStep(true) !in events
    requires t in Run(Init(n), events).clients
    ensures var w := Run(Init(n), events);
      w.leaked == {} && (Held(w, t) || Served(w, t) || w.closes[t] == 1)
  {
    NoLeaks(n, events);
    ConnectionConservation(n, events, t);
  }

  // And a failed pthread_create always does: the step that loses a connection is the one that asks
  // for a thread and gets none. The connection is then neither held nor served nor closed.
  lemma {:induction false} LosesExactly(n: nat, events: seq<Event>, e: Event, t: Token)
    requires t !in Run(Init(n), events).leaked
    ensures var w, v := Run(Init(n), events), Run(Init(n), events + [e]);
      && (t in v.leaked <==>
            && e == AcceptStep(true) && w.acceptor.Choosing? && w.acceptor.t == t
            && w.acceptor.i < |w.slots| && !w.slots[w.acceptor.i].hasThread)
      && (t in v.leaked ==> !Held(v, t) && !Served(v, t) && v.closes[t] == 0)
  {
    var w, v := Run(Init(n), events), Run(Init(n), events + [e]);
    RunSnoc(Init(n), events, e);
    LeaksExactly(w, e, t);
    RunAccounted(n, events + [e]);
    if t in v.leaked { ConnectionConservation(n, events + [e], t); }
  }

  // Such a run: a connection comes in, its slot is found, and there is no thread for it.
  lemma {:induction false} LossHappens()
    ensures var w := Run(Init(1), [Arrive(false)] + [AcceptStep(false)] + [AcceptStep(true)]);
      w.leaked == {0} && w.closes[0] == 0 && !Held(w, 0) && !Served(w, 0)
  {
    var a, b, c := Arrive(false), AcceptStep(false), AcceptStep(true);
    assert [] + [a] == [a];
    RunSnoc(Init(1), [], a);
    RunSnoc(Init(1), [a], b);
    RunSnoc(Init(1), [a] + [b], c);
    var x := Next(Init(1), a);
    assert x.acceptor == Scanning(0, 0, false) && x.slots == [Fresh()];
    assert Next(x, b) == x.(acceptor := Choosing(0, 0, false));
  }

  lemma LeaksExactly(w: World, e: Event, t: Token)
    requires t !in w.leaked
    ensures t in Next(w, e).leaked <==>
      && e == AcceptStep(true) && w.acceptor.Choosing? && w.acceptor.t == t
      && w.acceptor.i < |w.slots| && !w.slots[w.acceptor.i].hasThread
  {
  }

  lemma {:induction false} NoLeaks(n: nat, events: seq<Event>)
    requires AcceptStep(true) !in events
    ensures Run(Init(n), events).leaked == {}
  {
    if events != [] {
      NoLeaks(n, events[..|events| - 1]);
      assert events[|events| - 1] in events;
    }
  }

  lemma RunSnoc(w: World, events: seq<Event>, e: Event)
    ensures Run(w, events + [e]) == Next(Run(w, events), e)
  {
    assert (events + [e])[..|events|] == events;
  }

  lemma {:induction false} RunAppend(w: World, first: seq<Event>, more: seq<Event>)
    ensures Run(w, first + more) == Run(Run(w, first), more)
  {
    if more == [] {
      assert first + more == first;
    } else {
      var most, last := more[..|more| - 1], more[|more| - 1];
      assert more == most + [last];
      RunAppend(w, first, most);
      RunAppendOne(w, first, most, last);
    }
  }

  lemma RunAppendOne(w: World, first: seq<Event>, most: seq<Event>, last: Event)
    requires Run(w, first + most) == Run(Run(w, first), most)
    ensures Run(w, first + (most + [last])) == Run(Run(w, first), most + [last])
  {
    RunSnoc(w, first + most, last);
    RunSnoc(Run(w, first), most, last);
    assert first + (most + [last]) == (first + most) + [last];
  }

  // ---- The mode of a connection ----

  // The mode that was last written to the slot: what the client before asked for, unless the
  // accept thread has come to write that of the present one; false before the first.
  function LastMode(n: nat, events: seq<Event>, i: nat): bool {
    if events == [] then false
    else
      var most := events[..|events| - 1];
      var a := Run(Init(n), most).acceptor;
      if events[|events| - 1].AcceptStep? && a.SettingMode? && a.i == i then a.want else LastMode(n, most, i)
  }

  // Every slot relays in the mode its client was accepted with, except between the hand-over
  // of that client and the accept thread's next write.
  predicate ModesMatch(w: World) {
    forall i :: 0 <= i < |w.slots| && w.slots[i].client.Open? ==> ModeMatches(w, i)
  }

  predicate ModeMatches(w: World, i: nat)
    requires i < |w.slots| && w.slots[i].client.Open?
  {
    var t := w.slots[i].client.t;
    && t in w.clients
    && (w.slots[i].passthrough == w.clients[t] || w.acceptor == SettingMode(i, t, w.clients[t]))
  }

  lemma {:induction false} RelayKeepsModes(w: World, i: nat, connectFails: bool, stop: bool, c: seq<byte>, s: seq<byte>)
    requires i < |w.slots| && ModesMatch(w)
    ensures ModesMatch(Relay(w, i, connectFails, stop, c, s))
  {
    var v := Relay(w, i, connectFails, stop, c, s);
    MovedKeepsMode(w.slots[i], w.next, connectFails, stop, c, s);
    forall j | 0 <= j < |v.slots| && v.slots[j].client.Open? ensures ModeMatches(v, j) {
      assert ModeMatches(w, j);
    }
  }

  lemma MovedKeepsMode(slot: Slot, token: Token, connectFails: bool, stop: bool, c: seq<byte>, s: seq<byte>)
    ensures var now := Moved(slot, token, connectFails, stop, c, s);
      now.passthrough == slot.passthrough && now.client in {slot.client, Invalid}
  {
  }

  lemma {:induction false} AcceptKeepsModes(w: World, createFails: bool)
    requires Owned(w) && ModesMatch(w)
    ensures ModesMatch(Accept(w, createFails))
  {
    var v := Accept(w, createFails);
    assert Chosen(w.acceptor) && w.acceptor.i < |w.slots| ==> SlotOk(w.slots[w.acceptor.i], w.acceptor.i, w.acceptor);
    forall j | 0 <= j < |v.slots| && v.slots[j].client.Open? ensures ModeMatches(v, j) {
      if w.slots[j].client.Open? { assert ModeMatches(w, j); }
    }
  }

  lemma {:induction false} RunModesMatch(n: nat, events: seq<Event>)
    ensures ModesMatch(Run(Init(n), events))
  {
    if events != [] {
      var w := Run(Init(n), events[..|events| - 1]);
      RunModesMatch(n, events[..|events| - 1]);
      RunOwned(n, events[..|events| - 1]);
      match events[|events| - 1]
      case Arrive(want) => ArriveKeepsModes(w, want);
      case AcceptStep(createFails) => AcceptKeepsModes(w, createFails);
      case RelayStep(i, connectFails, stop, c, s) =>
        if i < |w.slots| { RelayKeepsModes(w, i, connectFails, stop, c, s); }
    }
  }

  lemma ArriveKeepsModes(w: World, want: bool)
    requires ModesMatch(w) && Owned(w)
    ensures ModesMatch(Next(w, Arrive(want)))
  {
    var v := Next(w, Arrive(want));
    forall j | 0 <= j < |v.slots| && v.slots[j].client.Open? ensures ModeMatches(v, j) {
      assert ModeMatches(w, j);
    }
  }

  // The mode of a slot is the last one written to it.
  lemma {:induction false} ModeIsLastMode(n: nat, events: seq<Event>, i: nat)
    requires i < n
    ensures var w := Run(Init(n), events); |w.slots| == n && w.slots[i].passthrough == LastMode(n, events, i)
  {
    RunOwned(n, events);
    if events != [] {
      var most, last := events[..|events| - 1], events[|events| - 1];
      var w := Run(Init(n), most);
      RunOwned(n, most);
      ModeIsLastMode(n, most, i);
      if last.RelayStep? && last.i == i {
        MovedKeepsMode(w.slots[i], w.next, last.connectFails, last.stop, last.clientRing, last.serverRing);
      } else if last.AcceptStep? {
        AcceptMode(w, last.createFails, i);
      }
    }
  }

  lemma AcceptMode(w: World, createFails: bool, i: nat)
    requires AcceptOk(w) && i < |w.slots|
    ensures |Accept(w, createFails).slots| == |w.slots|
    ensures Accept(w, createFails).slots[i].passthrough ==
      if w.acceptor.SettingMode? && w.acceptor.i == i then w.acceptor.want else w.slots[i].passthrough
  {
  }

  // A client is relayed in another mode than it was accepted with exactly while the accept thread
  // has handed it over and not yet written its mode, and the mode written to the slot before it
  // is the other one.
  lemma StaleModeExactly(n: nat, events: seq<Event>, i: nat)
    requires i < |Run(Init(n), events).slots| && Run(Init(n), events).slots[i].client.Open?
    ensures var w := Run(Init(n), events); var t := w.slots[i].client.t;
      && t in w.clients
      && (w.slots[i].passthrough != w.clients[t] <==>
            w.acceptor == SettingMode(i, t, w.clients[t]) && LastMode(n, events, i) != w.clients[t])
  {
    RunModesMatch(n, events);
    RunOwned(n, events);
    ModeIsLastMode(n, events, i);
    assert ModeMatches(Run(Init(n), events), i);
  }

  // When every connection asks for the same mode, as one flag of the program makes them, a slot
  // has that mode or the initial one: a proxy started to inspect never relays uninspected.
  lemma {:induction false} OneModeForAll(n: nat, events: seq<Event>, m: bool, i: nat)
    requires i < n && forall e :: e in events && e.Arrive? ==> e.want == m
    ensures var w := Run(Init(n), events);
      && (!w.acceptor.Idle? && !w.acceptor.GivingUp? ==> w.acceptor.want == m)
      && |w.slots| == n && (w.slots[i].passthrough == m || !w.slots[i].passthrough)
  {
    RunOwned(n, events);
    if events != [] {
      var most, last := events[..|events| - 1], events[|events| - 1];
      RunOwned(n, most);
      OneModeForAll(n, most, m, i);
      assert last in events && forall e :: e in most ==> e in events;
      var w := Run(Init(n), most);
      if last.RelayStep? && last.i == i {
        MovedKeepsMode(w.slots[i], w.next, last.connectFails, last.stop, last.clientRing, last.serverRing);
      } else if last.AcceptStep? {
        AcceptMode(w, last.createFails, i);
        AcceptWant(w, last.createFails);
      }
    }
  }

  lemma AcceptWant(w: World, createFails: bool)
    ensures var a := Accept(w, createFails).acceptor;
      !a.Idle? && !a.GivingUp? ==> !w.acceptor.Idle? && !w.acceptor.GivingUp? && a.want == w.acceptor.want
  {
  }

  // The same event n times over.
  function Times(w: World, e: Event, n: nat): World {
    if n == 0 then w else Next(Times(w, e, n - 1), e)
  }

  function Repeated(e: Event, n: nat): seq<Event> {
    if n == 0 then [] else Repeated(e, n - 1) + [e]
  }

  lemma {:induction false} RunRepeated(w: World, e: Event, n: nat)
    ensures Run(w, Repeated(e, n)) == Times(w, e, n)
  {
    if n > 0 {
      RunRepeated(w, e, n - 1);
      RunSnoc(w, Repeated(e, n - 1), e);
    }
  }

  // ---- A relay loop that starts in the old mode ----

  // One slot whose thread waits, and the accept thread idle.
  predicate Free(w: World, mode: bool) {
    && |w.slots| == 1 && w.acceptor.Idle?
    && w.slots[0].client == Invalid && w.slots[0].passthrough == mode
    && (if w.slots[0].hasThread then w.slots[0].pc.Waiting? else w.slots[0].pc.Unborn?)
  }

  // The client t of the one slot was handed over, its mode not yet written; its thread is at pc.
  predicate HandedOver(w: World, t: Token, want: bool, mode: bool, pc: RelayPc) {
    && |w.slots| == 1 && w.acceptor == SettingMode(0, t, want) && t in w.clients && w.clients[t] == want
    && w.slots[0].client == Open(t) && w.slots[0].passthrough == mode && w.slots[0].hasThread && w.slots[0].pc == pc
    && (pc in {Verifying, Entering, Looping} ==> w.slots[0].server != Invalid)
  }

  // A connection comes in and is handed over.
  lemma HandOver(w: World, want: bool, mode: bool) returns (events: seq<Event>)
    requires Free(w, mode)
    ensures HandedOver(Run(w, events), w.next, want, mode, Waiting)
  {
    var a, x := AcceptStep(false), Next(w, Arrive(want));
    events := [Arrive(want)] + Repeated(a, 5);
    RunAppend(w, [Arrive(want)], Repeated(a, 5));
    RunSnoc(w, [], Arrive(want));
    assert [] + [Arrive(want)] == [Arrive(want)];
    RunRepeated(x, a, 5);
    var y, z := Next(Next(x, a), a), Next(Next(Next(Next(x, a), a), a), a);
    assert Times(x, a, 2) == y by { assert Times(x, a, 1) == Next(x, a); }
    assert Times(x, a, 4) == z by { assert Times(x, a, 3) == Next(y, a); }
    ChooseFirst(x, y, a, w.next, want);
    ResetBoth(y, z, a, w.next, want);
    PublishFirst(z, Next(z, a), a, w.next, want);
  }

  lemma ChooseFirst(x: World, y: World, a: Event, t: Token, want: bool)
    requires a == AcceptStep(false) && y == Next(Next(x, a), a)
    requires x.acceptor == Scanning(0, t, want) && |x.slots| == 1 && x.slots[0].client == Invalid
    ensures y.acceptor == ResetClient(0, t, want) && y.clients == x.clients
    ensures y.slots == [if x.slots[0].hasThread then x.slots[0] else x.slots[0].(hasThread := true, pc := Waiting)]
  {
    assert Next(x, a) == x.(acceptor := Choosing(0, t, want));
  }

  lemma ResetBoth(y: World, z: World, a: Event, t: Token, want: bool)
    requires a == AcceptStep(false) && z == Next(Next(y, a), a)
    requires y.acceptor == ResetClient(0, t, want) && |y.slots| == 1
    ensures z.acceptor == Publishing(0, t, want) && z.slots == [y.slots[0].(clientRing := [], serverRing := [])]
    ensures z.clients == y.clients
  {
  }

  lemma PublishFirst(z: World, w: World, a: Event, t: Token, want: bool)
    requires a == AcceptStep(false) && w == Next(z, a)
    requires z.acceptor == Publishing(0, t, want) && |z.slots| == 1
    ensures w.acceptor == SettingMode(0, t, want) && w.clients == z.clients
    ensures w.slots == [z.slots[0].(client := Open(t))]
  {
  }

  // Where k steps take a relay thread that finds a client and connects.
  function Inward(k: nat): RelayPc {
    match k
    case 0 => Waiting
    case 1 => Rechecking
    case 2 => Connecting
    case 3 => Dialing
    case 4 => Verifying
    case 5 => Entering
    case _ => Looping
  }

  lemma {:induction false} StepsInward(w: World, t: Token, want: bool, mode: bool, r: Event, k: nat)
    requires HandedOver(w, t, want, mode, Waiting) && r == RelayStep(0, false, false, [], []) && k <= 6
    ensures HandedOver(Times(w, r, k), t, want, mode, Inward(k))
  {
    if k > 0 {
      StepsInward(w, t, want, mode, r, k - 1);
      StepInward(Times(w, r, k - 1), t, want, mode, r, k - 1);
    }
  }

  lemma StepInward(w: World, t: Token, want: bool, mode: bool, r: Event, k: nat)
    requires HandedOver(w, t, want, mode, Inward(k)) && r == RelayStep(0, false, false, [], []) && k < 6
    ensures HandedOver(Next(w, r), t, want, mode, Inward(k + 1))
  {
    MovedInward(w.slots[0], w.next, k);
    assert Next(w, r).slots == [Moved(w.slots[0], w.next, false, false, [], [])];
  }

  lemma MovedInward(slot: Slot, token: Token, k: nat)
    requires k < 6 && slot.pc == Inward(k) && slot.client != Invalid
    requires slot.pc in {Verifying, Entering, Looping} ==> slot.server != Invalid
    ensures var now := Moved(slot, token, false, false, [], []);
      && now.pc == Inward(k + 1) && now.client == slot.client
      && now.passthrough == slot.passthrough && now.hasThread == slot.hasThread
      && (now.pc in {Verifying, Entering, Looping} ==> now.server != Invalid)
  {
  }

  lemma EnterLoop(w: World, t: Token, want: bool, mode: bool) returns (events: seq<Event>)
    requires HandedOver(w, t, want, mode, Waiting)
    ensures HandedOver(Run(w, events), t, want, mode, Looping)
  {
    var r := RelayStep(0, false, false, [], []);
    events := Repeated(r, 6);
    RunRepeated(w, r, 6);
    StepsInward(w, t, want, mode, r, 6);
  }

  // Where k steps take it out of the loop again.
  function Outward(k: nat): RelayPc {
    match k
    case 0 => Looping
    case 1 => Testing
    case 2 => Closing
    case 3 => Clearing
    case 4 => TestingServer
    case 5 => ClosingServer
    case 6 => ClearingServer
    case _ => Waiting
  }

  // The one slot on its way out.
  predicate Leaving(w: World, mode: bool, k: nat) {
    && |w.slots| == 1 && w.acceptor.Idle? && w.slots[0].passthrough == mode && w.slots[0].hasThread
    && w.slots[0].pc == Outward(k)
    && (w.slots[0].client == Invalid <==> k >= 4) && (w.slots[0].server == Invalid <==> k >= 7)
  }

  lemma {:induction false} StepsOutward(w: World, mode: bool, r: Event, k: nat)
    requires Leaving(w, mode, 0) && r == RelayStep(0, false, true, [], []) && k <= 7
    ensures Leaving(Times(w, r, k), mode, k)
  {
    if k > 0 {
      StepsOutward(w, mode, r, k - 1);
      StepOutward(Times(w, r, k - 1), mode, r, k - 1);
    }
  }

  lemma StepOutward(w: World, mode: bool, r: Event, k: nat)
    requires Leaving(w, mode, k) && r == RelayStep(0, false, true, [], []) && k < 7
    ensures Leaving(Next(w, r), mode, k + 1)
  {
    MovedOutward(w.slots[0], w.next, k);
    assert Next(w, r).slots == [Moved(w.slots[0], w.next, false, true, [], [])];
  }

  lemma MovedOutward(slot: Slot, token: Token, k: nat)
    requires k < 7 && slot.pc == Outward(k)
    requires (slot.client == Invalid <==> k >= 4) && slot.server != Invalid
    ensures var now := Moved(slot, token, false, true, [], []);
      && now.pc == Outward(k + 1) && now.passthrough == slot.passthrough && now.hasThread == slot.hasThread
      && (now.client == Invalid <==> k + 1 >= 4) && (now.server == Invalid <==> k + 1 >= 7)
  {
  }

  // The accept thread writes the mode, the loop ends, and the slot is free again.
  lemma FinishUp(w: World, t: Token, want: bool, mode: bool) returns (events: seq<Event>)
    requires HandedOver(w, t, want, mode, Looping)
    ensures Free(Run(w, events), want)
  {
    var a, r := AcceptStep(false), RelayStep(0, false, true, [], []);
    var x := Next(w, a);
    events := [a] + Repeated(r, 7);
    assert Run(w, [a]) == x by { RunSnoc(w, [], a); assert [] + [a] == [a]; }
    RunAppend(w, [a], Repeated(r, 7));
    RunRepeated(x, r, 7);
    ModeWritten(w, t, want, mode);
    StepsOutward(x, want, r, 7);
  }

  lemma ModeWritten(w: World, t: Token, want: bool, mode: bool)
    requires HandedOver(w, t, want, mode, Looping)
    ensures Leaving(Next(w, AcceptStep(false)), want, 0)
  {
  }

  // That gap is wide enough for a relay loop to start in the old mode, either way round: a client
  // that is to pass uninspected is inspected, or, after one of those, a client that is to be
  // inspected passes uninspected.
  lemma StaleModeHappens(want: bool) returns (events: seq<Event>)
    ensures var w := Run(Init(1), events);
      && |w.slots| == 1 && w.slots[0].pc.Looping? && w.slots[0].client.Open?
      && w.slots[0].client.t in w.clients && w.clients[w.slots[0].client.t] == want
      && w.slots[0].passthrough == !want
  {
    if want { events := []; } else { events := FirstClientLeaves(); }
    var w := Run(Init(1), events);
    assert Free(w, !want);
    var more := HandOver(w, want, !want);
    var x := Run(w, more);
    var last := EnterLoop(x, w.next, want, !want);
    RunAppend(w, more, last);
    RunAppend(Init(1), events, more + last);
    events := events + (more + last);
  }

  // A client that passes uninspected comes and goes.
  lemma FirstClientLeaves() returns (events: seq<Event>)
    ensures Free(Run(Init(1), events), true)
  {
    var w := Init(1);
    var first := HandOver(w, true, false);
    var x := Run(w, first);
    var more := EnterLoop(x, w.next, true, false);
    RunAppend(w, first, more);
    var last := FinishUp(Run(x, more), w.next, true, false);
    RunAppend(w, first + more, last);
    events := (first + more) + last;
  }
}
