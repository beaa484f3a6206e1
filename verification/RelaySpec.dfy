/**
 One direction of the relay loop as a step function, run over any sequence of turns, and the
 theorems about those runs.
 */
module RelaySpec {
  import opened Bytes
  import opened Tcp
  import Smb2

  // The largest length a direct-TCP header may announce.
  const MAX_LENGTH := 0x1FFFFF

  datatype Phase = Header | Body

  // The packet state of one direction and its ring. At the loop head the ring starts at 0, so
  // the queue is mem[..count]; what lies above it is left over from earlier frames.
  datatype Dir = Dir(phase: Phase, remain: nat, mem: seq<byte>, count: nat)

  datatype Cause = Oversize | ReadFailed | BadHeader | Rejected | WriteFailed(sent: nat)

  datatype Status = Running | Stopped(cause: Cause)

  // What one pass meets: the read, the passthrough flag as it is seen, the sends.
  datatype Turn = Turn(read: ReadEvent, passthrough: bool, sends: seq<SendEvent>)

  // Packet inspection: it is given the ring from the packet on, and how long the packet is.
  type Judge = Smb2.Judge

  // The result of one pass: the new state, and what moved.
  datatype Outcome = Outcome(dir: Dir, status: Status, received: seq<byte>, delivered: seq<byte>, frames: seq<seq<byte>>)

  // What holds of a direction at the head of a running loop.
  predicate Ready(d: Dir) {
    && |d.mem| >= 7
    && (d.phase.Header? ==> d.remain == 4 && d.count < 4)
    && (d.phase.Body? ==> 4 <= d.count <= d.remain <= MAX_LENGTH + 4 && d.count <= |d.mem|)
    && (d.count == d.remain ==> d.remain == 4)
    && (d.count > 4 ==> d.remain <= |d.mem|)
  }

  function Room(d: Dir): int {
    if d.count < |d.mem| then |d.mem| - d.count else 0
  }

  // One pass over one direction: read towards the end of the packet, and if that completes it,
  // go on with the packet.
  function Pass(d: Dir, turn: Turn, judge: Judge): (o: Outcome)
    requires Ready(d)
    ensures |o.dir.mem| == |d.mem| && o.dir.count <= |d.mem|
    ensures o.status.Running? ==> Ready(o.dir)
  {
    var chunk := d.remain - d.count;
    if Room(d) < chunk then Outcome(d, Stopped(Oversize), [], [], [])
    else if ReadResult(turn.read, chunk) < 0 then Outcome(d, Stopped(ReadFailed), [], [], [])
    else Continue(Filled(d, Taken(turn.read, chunk)), d.count, turn, judge).(received := Taken(turn.read, chunk))
  }

  function Filled(d: Dir, got: seq<byte>): (e: Dir)
    requires d.count + |got| <= |d.mem|
    ensures |e.mem| == |d.mem|
  {
    d.(mem := Splice(d.mem, d.count, got), count := d.count + |got|)
  }

  // The rest of a pass whose read was stored at `at`. A header is taken from there, which is
  // the start of the ring only when all four bytes came in that read.
  function Continue(e: Dir, at: nat, turn: Turn, judge: Judge): (o: Outcome)
    requires |e.mem| >= 7 && e.count <= |e.mem| && e.count <= e.remain
    requires e.phase.Header? ==> e.remain == 4 && at < 4
    requires e.phase.Body? ==> 4 <= e.count && e.remain <= MAX_LENGTH + 4 && (e.count > 4 ==> e.remain <= |e.mem|)
    ensures |o.dir.mem| == |e.mem| && o.dir.count <= |e.mem|
    ensures o.status.Running? ==> Ready(o.dir)
  {
    if e.count != e.remain then Outcome(e, Running, [], [], [])
    else if e.phase.Header? then
      var length := BigEndian32(e.mem[at..at + 4]);
      if length > MAX_LENGTH then Outcome(e, Stopped(BadHeader), [], [], [])
      else Outcome(e.(phase := Body, remain := length + 4), Running, [], [], [])
    else Forward(e, turn, judge)
  }

  // The second half of a pass whose frame is complete: inspect it, then send it.
  function Forward(e: Dir, turn: Turn, judge: Judge): (o: Outcome)
    requires |e.mem| >= 7 && 4 <= e.count <= |e.mem|
    ensures |o.dir.mem| == |e.mem| && o.dir.count <= |e.mem|
    ensures o.status.Running? ==> Ready(o.dir)
  {
    var frame := e.mem[..e.count];
    if !turn.passthrough && !judge(e.mem[4..], e.count - 4) then Outcome(e, Stopped(Rejected), [], [], [])
    else match WriteLoop(turn.sends, 0, e.count)
      case Done => Outcome(Dir(Header, 4, e.mem, 0), Running, [], frame, [frame])
      case Failed(k) => Outcome(Dir(Header, 4, e.mem, e.count), Stopped(WriteFailed(k)), [], frame[..k], [])
  }

  // A run so far: the direction, and everything that moved since the connection began.
  datatype Flow = Flow(dir: Dir, status: Status, received: seq<byte>, delivered: seq<byte>, frames: seq<seq<byte>>)

  // A new connection finds an empty ring, over memory of any content.
  function Start(mem: seq<byte>): Flow {
    Flow(Dir(Header, 4, mem, 0), Running, [], [], [])
  }

  predicate Going(f: Flow) {
    f.status.Running? ==> Ready(f.dir)
  }

  function Step(f: Flow, turn: Turn, judge: Judge): (g: Flow)
    requires Going(f)
    ensures Going(g) && |g.dir.mem| == |f.dir.mem|
  {
    if f.status.Stopped? then f
    else
      var o := Pass(f.dir, turn, judge);
      Flow(o.dir, o.status, f.received + o.received, f.delivered + o.delivered, f.frames + o.frames)
  }

  function Run(f: Flow, turns: seq<Turn>, judge: Judge): (g: Flow)
    requires Going(f)
    ensures Going(g) && |g.dir.mem| == |f.dir.mem|
  {
    if turns == [] then f
    else Step(Run(f, turns[..|turns| - 1], judge), turns[|turns| - 1], judge)
  }

  // ---- Conservation: holds however headers were read ----

  // What came in is whole frames and then what the ring holds; what went out is the same
  // frames, and after a failed send the start of the frame being sent.
  predicate Conserved(f: Flow) {
    && f.dir.count <= |f.dir.mem|
    && f.received == Flatten(f.frames) + f.dir.mem[..f.dir.count]
    && match f.status
       case Stopped(WriteFailed(k)) =>
         k < f.dir.count && f.delivered == Flatten(f.frames) + f.dir.mem[..k]
       case _ => f.delivered == Flatten(f.frames)
  }

  // A pass turns what the ring held and what arrived into what it sent and what it holds.
  predicate Balanced(held: seq<byte>, o: Outcome)
    requires o.dir.count <= |o.dir.mem|
  {
    && held + o.received == Flatten(o.frames) + o.dir.mem[..o.dir.count]
    && match o.status
       case Stopped(WriteFailed(k)) => k < o.dir.count && o.frames == [] && o.delivered == o.dir.mem[..k]
       case _ => o.delivered == Flatten(o.frames)
  }

  lemma ForwardBalanced(held: seq<byte>, e: Dir, turn: Turn, judge: Judge, got: seq<byte>)
    requires |e.mem| >= 7 && 4 <= e.count <= |e.mem|
    requires e.mem[..e.count] == held + got
    ensures Balanced(held, Forward(e, turn, judge).(received := got))
  {
    assert Flatten([e.mem[..e.count]]) == e.mem[..e.count] + Flatten([]);
  }

  // The same once the read is stored, whether or not it completes anything.
  lemma ContinueBalanced(held: seq<byte>, e: Dir, at: nat, turn: Turn, judge: Judge, got: seq<byte>)
    requires |e.mem| >= 7 && e.count <= |e.mem| && e.count <= e.remain
    requires e.phase.Header? ==> e.remain == 4 && at < 4
    requires e.phase.Body? ==> 4 <= e.count && e.remain <= MAX_LENGTH + 4 && (e.count > 4 ==> e.remain <= |e.mem|)
    requires e.mem[..e.count] == held + got
    ensures Balanced(held, Continue(e, at, turn, judge).(received := got))
  {
    if e.count == e.remain && e.phase.Body? { ForwardBalanced(held, e, turn, judge, got); }
  }

  // A read that is stored moves what arrived into the ring.
  lemma FilledHolds(d: Dir, got: seq<byte>)
    requires d.count + |got| <= |d.mem|
    ensures Filled(d, got).mem[..d.count + |got|] == d.mem[..d.count] + got
  {
  }

  // A pass that stops at once moves nothing.
  lemma StoppedBalanced(d: Dir, cause: Cause)
    requires d.count <= |d.mem| && cause in {Oversize, ReadFailed}
    ensures Balanced(d.mem[..d.count], Outcome(d, Stopped(cause), [], [], []))
  {
  }

  lemma PassBalanced(d: Dir, turn: Turn, judge: Judge)
    requires Ready(d)
    ensures Balanced(d.mem[..d.count], Pass(d, turn, judge))
  {
    var chunk := d.remain - d.count;
    if Room(d) < chunk {
      StoppedBalanced(d, Oversize);
    } else if ReadResult(turn.read, chunk) < 0 {
      StoppedBalanced(d, ReadFailed);
    } else {
      var got := Taken(turn.read, chunk);
      FilledHolds(d, got);
      ContinueBalanced(d.mem[..d.count], Filled(d, got), d.count, turn, judge, got);
    }
  }

  lemma {:induction false} StepConserves(f: Flow, turn: Turn, judge: Judge)
    requires Going(f) && Conserved(f)
    ensures Conserved(Step(f, turn, judge))
  {
    if f.status.Running? {
      PassBalanced(f.dir, turn, judge);
      var o, past := Pass(f.dir, turn, judge), Flatten(f.frames);
      FlattenAppend(f.frames, o.frames);
      Regroup(past, f.dir.mem[..f.dir.count], o.received, Flatten(o.frames), o.dir.mem[..o.dir.count]);
      assert o.frames == [] ==> past + Flatten(o.frames) == past;
    }
  }

  lemma {:induction false} RunConserves(mem: seq<byte>, turns: seq<Turn>, judge: Judge)
    requires |mem| >= 7
    ensures Conserved(Run(Start(mem), turns, judge))
  {
    if turns != [] {
      RunConserves(mem, turns[..|turns| - 1], judge);
      StepConserves(Run(Start(mem), turns[..|turns| - 1], judge), turns[|turns| - 1], judge);
    }
  }

  // No byte is lost, added or reordered: while the loop runs, what was delivered followed by
  // what the ring holds is what was received; after any failure the delivered bytes are still
  // a prefix of the received ones.
  lemma {:induction false} ByteConservation(mem: seq<byte>, turns: seq<Turn>, judge: Judge)
    requires |mem| >= 7
    ensures var f := Run(Start(mem), turns, judge);
      && f.delivered <= f.received
      && f.dir.count <= |f.dir.mem|
      && (f.status.Running? ==> f.received == f.delivered + f.dir.mem[..f.dir.count])
  {
    RunConserves(mem, turns, judge);
    var f := Run(Start(mem), turns, judge);
    if f.status.Stopped? && f.status.cause.WriteFailed? {
      assert f.dir.mem[..f.dir.count] == f.dir.mem[..f.status.cause.sent] + f.dir.mem[f.status.cause.sent..f.dir.count];
    }
  }
}
