/** The two directions of one connection, taking turns in one loop. */
module BothWays {
  import opened Bytes
  import opened Tcp
  import opened RelaySpec
  import opened Framing

  // The client's packets go to the server and the server's to the client.
  datatype Link = Link(client: Flow, server: Flow)

  datatype Round = Round(client: Turn, server: Turn)

  function Open(clientMem: seq<byte>, serverMem: seq<byte>): Link {
    Link(Start(clientMem), Start(serverMem))
  }

  predicate Able(l: Link) {
    Going(l.client) && Going(l.server)
  }

  predicate Up(l: Link) {
    l.client.status.Running? && l.server.status.Running?
  }

  // One pass of the do-while body: a failure in the first direction skips the second.
  function Cycle(l: Link, r: Round, judge: Judge, judge': Judge): (m: Link)
    requires Able(l)
    ensures Able(m)
  {
    if !Up(l) then l
    else
      var c := Step(l.client, r.client, judge);
      if c.status.Stopped? then Link(c, l.server) else Link(c, Step(l.server, r.server, judge'))
  }

  function RunLink(l: Link, rounds: seq<Round>, judge: Judge, judge': Judge): (m: Link)
    requires Able(l)
    ensures Able(m)
  {
    if rounds == [] then l
    else Cycle(RunLink(l, rounds[..|rounds| - 1], judge, judge'), rounds[|rounds| - 1], judge, judge')
  }

  function ClientTurns(rounds: seq<Round>): seq<Turn> {
    seq(|rounds|, i requires 0 <= i < |rounds| => rounds[i].client)
  }

  function ServerTurns(rounds: seq<Round>): seq<Turn> {
    seq(|rounds|, i requires 0 <= i < |rounds| => rounds[i].server)
  }

  // Each direction of a link runs as it would alone, for as many of its turns as the link
  // reached: the directions share nothing but the decision to stop. The client's turn comes first,
  // and after a failure in it the server's is skipped.
  lemma {:induction false} DirectionsAreIndependent(mem: seq<byte>, mem': seq<byte>, rounds: seq<Round>, judge: Judge, judge': Judge)
    returns (c: nat, s: nat)
    requires |mem| >= 7 && |mem'| >= 7
    ensures s <= c <= |rounds| && c <= s + 1
    ensures var l := RunLink(Open(mem, mem'), rounds, judge, judge');
      && l.client == Run(Start(mem), ClientTurns(rounds)[..c], judge)
      && l.server == Run(Start(mem'), ServerTurns(rounds)[..s], judge')
      && (Up(l) ==> c == s == |rounds|)
      && (l.client.status.Stopped? ==> c == s + 1)
      && (l.client.status.Running? ==> c == s)
      && (l.client.status.Running? || l.server.status.Running?)
  {
    if rounds == [] {
      c, s := 0, 0;
    } else {
      var most, last, n := rounds[..|rounds| - 1], rounds[|rounds| - 1], |rounds| - 1;
      c, s := DirectionsAreIndependent(mem, mem', most, judge, judge');
      SameTurns(rounds, n, c);
      SameTurns(rounds, n, s);
      var l := RunLink(Open(mem, mem'), most, judge, judge');
      if Up(l) {
        RunSnoc(Start(mem), ClientTurns(rounds), n, judge);
        RunSnoc(Start(mem'), ServerTurns(rounds), n, judge');
        c := n + 1;
        if Step(l.client, last.client, judge).status.Running? { s := n + 1; }
      }
    }
  }

  lemma SameTurns(rounds: seq<Round>, n: nat, k: nat)
    requires k <= n <= |rounds|
    ensures ClientTurns(rounds)[..k] == ClientTurns(rounds[..n])[..k]
    ensures ServerTurns(rounds)[..k] == ServerTurns(rounds[..n])[..k]
  {
  }

  lemma {:induction false} RunSnoc(f: Flow, turns: seq<Turn>, n: nat, judge: Judge)
    requires Going(f) && n < |turns|
    ensures Run(f, turns[..n + 1], judge) == Step(Run(f, turns[..n], judge), turns[n], judge)
  {
    assert turns[..n + 1][..n] == turns[..n];
  }

  // Both ways at once no byte is lost, added or reordered.
  lemma {:induction false} LinkConservation(mem: seq<byte>, mem': seq<byte>, rounds: seq<Round>, judge: Judge, judge': Judge)
    requires |mem| >= 7 && |mem'| >= 7
    ensures var l := RunLink(Open(mem, mem'), rounds, judge, judge');
      && l.client.delivered <= l.client.received && l.server.delivered <= l.server.received
      && l.client.dir.count <= |l.client.dir.mem| && l.server.dir.count <= |l.server.dir.mem|
      && (l.client.status.Running? ==>
            l.client.received == l.client.delivered + l.client.dir.mem[..l.client.dir.count])
      && (l.server.status.Running? ==>
            l.server.received == l.server.delivered + l.server.dir.mem[..l.server.dir.count])
  {
    var c, s := DirectionsAreIndependent(mem, mem', rounds, judge, judge');
    ByteConservation(mem, ClientTurns(rounds)[..c], judge);
    ByteConservation(mem', ServerTurns(rounds)[..s], judge');
  }

  // Every header of the link so far was read right.
  predicate LinkIntact(mem: seq<byte>, mem': seq<byte>, rounds: seq<Round>, judge: Judge, judge': Judge)
    requires |mem| >= 7 && |mem'| >= 7
  {
    forall k :: 0 <= k <= |rounds| ==>
      && Intact(Start(mem), ClientTurns(rounds)[..k], judge)
      && Intact(Start(mem'), ServerTurns(rounds)[..k], judge')
  }

  // Both ways at once the frames forwarded are the complete frames received, but for one in hand.
  lemma LinkForwardsTheFramesReceived(mem: seq<byte>, mem': seq<byte>, rounds: seq<Round>, judge: Judge, judge': Judge)
    requires |mem| >= 7 && |mem'| >= 7
    requires LinkIntact(mem, mem', rounds, judge, judge')
    ensures var l := RunLink(Open(mem, mem'), rounds, judge, judge');
      && l.client.dir.count <= |l.client.dir.mem| && l.server.dir.count <= |l.server.dir.mem|
      && Frames(l.client.received, |mem|) == l.client.frames + InHand(l.client)
      && Frames(l.server.received, |mem'|) == l.server.frames + InHand(l.server)
  {
    var c, s := DirectionsAreIndependent(mem, mem', rounds, judge, judge');
    ForwardsTheFramesReceived(mem, ClientTurns(rounds)[..c], judge);
    ForwardsTheFramesReceived(mem', ServerTurns(rounds)[..s], judge');
  }
}
