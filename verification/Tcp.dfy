/**
 The two stream calls of gwtcp.c. What the operating system answers is a parameter: a theorem
 over all events is a theorem over all networks.
 */
module Tcp {
  import opened Bytes

  // What select and recv do in one call of tcp_read.
  datatype ReadEvent =
    | SelectBroken
    | NothingToRead
    | RecvFails(wouldBlock: bool)
    // `avail` is queued on the socket; it is empty when the peer has closed.
    | Arrives(avail: seq<byte>)

  // What select and send do in one round of tcp_write.
  datatype SendEvent =
    | WriteSelectBroken
    | WriteSelectTimeout
    | SendFails
    | Accepts(n: nat)

  // The bytes recv copies out: never more than were asked for.
  function Taken(ev: ReadEvent, count: nat): (b: seq<byte>)
    ensures |b| <= count
  {
    match ev
    case Arrives(avail) => if |avail| <= count then avail else avail[..count]
    case _ => []
  }

  // The value tcp_read returns. A read of no bytes from a readable socket is a close,
  // even when no bytes were asked for.
  function ReadResult(ev: ReadEvent, count: nat): (r: int)
    ensures -1 <= r <= count && (r > 0 ==> r == |Taken(ev, count)|)
    ensures r <= 0 ==> Taken(ev, count) == []
  {
    match ev
    case SelectBroken => -1
    case NothingToRead => 0
    case RecvFails(wouldBlock) => if wouldBlock then 0 else -1
    case Arrives(_) => if Taken(ev, count) == [] then -1 else |Taken(ev, count)|
  }

  // How far the write loop gets from `sent` of `count` bytes.
  datatype WriteRun = Done | Failed(sent: nat)

  function WriteLoop(evs: seq<SendEvent>, sent: nat, count: nat): (r: WriteRun)
    requires sent < count
    ensures r.Failed? ==> sent <= r.sent < count
    decreases |evs|
  {
    if evs == [] then Failed(sent)  // never writable again: select times out
    else match evs[0]
      case Accepts(n) =>
        var wc := if n < count - sent then n else count - sent;
        if wc == 0 then Failed(sent)
        else if sent + wc == count then Done
        else WriteLoop(evs[1..], sent + wc, count)
      case _ => Failed(sent)
  }

  // The bytes the network takes before its first refusal.
  function Capacity(evs: seq<SendEvent>): nat {
    if evs == [] || !evs[0].Accepts? || evs[0].n == 0 then 0
    else evs[0].n + Capacity(evs[1..])
  }

  // The loop delivers everything if and only if the network takes that much before it
  // refuses, and otherwise delivers exactly what the network took.
  lemma {:induction false} WriteLoopMeaning(evs: seq<SendEvent>, sent: nat, count: nat)
    requires sent < count
    ensures WriteLoop(evs, sent, count) ==
      if sent + Capacity(evs) >= count then Done else Failed(sent + Capacity(evs))
    decreases |evs|
  {
    if evs != [] && evs[0].Accepts? && 0 < evs[0].n < count - sent {
      WriteLoopMeaning(evs[1..], sent + evs[0].n, count);
    }
  }

  class Socket {
    // Everything the proxy has read from, and everything the system has taken for, this peer.
    ghost var received: seq<byte>
    ghost var sent: seq<byte>

    constructor ()
      ensures received == [] && sent == []
    {
      received, sent := [], [];
    }
  }

  // tcp_read into buffer[at..at + count].
  method Read(sock: Socket, buffer: array<byte>, at: nat, count: nat, ev: ReadEvent) returns (r: int)
    requires at + count <= buffer.Length
    modifies buffer, sock`received
    ensures r == ReadResult(ev, count)
    ensures buffer[..] == Splice(old(buffer[..]), at, Taken(ev, count))
    ensures sock.received == old(sock.received) + Taken(ev, count)
  {
    match ev
    case SelectBroken => return -1;
    case NothingToRead => return 0;
    case RecvFails(wouldBlock) => return if wouldBlock then 0 else -1;
    case Arrives(avail) =>
      var rc := if |avail| <= count then |avail| else count;
      forall i | 0 <= i < rc {
        buffer[at + i] := avail[i];
      }
      sock.received := sock.received + avail[..rc];
      if rc == 0 { return -1; }
      return rc;
  }

  // tcp_write of buffer[at..at + count]; the loop body runs before the first test of `sent`.
  method Write(sock: Socket, buffer: array<byte>, at: nat, count: nat, evs: seq<SendEvent>) returns (r: int)
    requires count > 0 && at + count <= buffer.Length
    modifies sock`sent
    ensures match WriteLoop(evs, 0, count)
      case Done => r == count && sock.sent == old(sock.sent) + buffer[..][at..at + count]
      case Failed(k) => r < 0 && sock.sent == old(sock.sent) + buffer[..][at..at + k]
  {
    var sent, i := 0, 0;
    ghost var before := sock.sent;
    while true
      invariant 0 <= i <= |evs| && 0 <= sent < count
      invariant sock.sent == before + buffer[..][at..at + sent]
      invariant WriteLoop(evs[i..], sent, count) == WriteLoop(evs, 0, count)
      decreases count - sent
    {
      if i == |evs| { return -1; }
      match evs[i]
      case WriteSelectBroken => return -1;
      case WriteSelectTimeout => return -1;
      case SendFails => return -1;
      case Accepts(n) =>
        var wc := if n < count - sent then n else count - sent;
        sock.sent := sock.sent + buffer[at + sent..at + sent + wc];
        if wc == 0 { return -1; }
        sent, i := sent + wc, i + 1;
        assert sock.sent == before + buffer[..][at..at + sent];
        if sent >= count { return count; }
    }
  }
}
