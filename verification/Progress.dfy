/**
 What the relay does with traffic that gives it no reason to stop: lengths, bytes and frames are
 written out here, not taken from the definitions of the other modules.
 */
module Progress {
  import opened Bytes
  import opened Tcp
  import opened RelaySpec
  import opened Framing

  // ---- One pass ----

  // While bytes are wanted, a poll that finds none changes nothing.
  lemma IdlePass(d: Dir, turn: Turn, judge: Judge)
    requires Ready(d) && d.count < d.remain <= |d.mem|
    requires turn.read == NothingToRead || turn.read == RecvFails(true)
    ensures Pass(d, turn, judge) == Outcome(d, Running, [], [], [])
  {
    assert Splice(d.mem, d.count, []) == d.mem;
  }

  // And only a broken poll, a failing read and a close end the pass for want of bytes.
  lemma ReadFailsExactly(d: Dir, turn: Turn, judge: Judge)
    requires Ready(d) && d.count < d.remain <= |d.mem|
    ensures Pass(d, turn, judge).status == Stopped(ReadFailed) <==>
      turn.read in {SelectBroken, RecvFails(false), Arrives([])}
  {
    var n := d.remain - d.count;
    assert turn.read.Arrives? ==> (Taken(turn.read, n) == [] <==> turn.read.avail == []);
  }

  // A read takes the front of what is there, as much as is wanted.
  lemma TakesTheFront(first: seq<byte>, more: seq<byte>, count: nat)
    ensures |first| == count ==> Taken(Arrives(first + more), count) == first
    ensures |first| <= count ==> Taken(Arrives(first), count) == first
  {
    assert |first| == count ==> (first + more)[..count] == first;
  }

  // The length in a header, most significant byte first.
  function LengthOf(b0: byte, b1: byte, b2: byte, b3: byte): nat {
    ((b0 as nat * 0x100 + b1) * 0x100 + b2) * 0x100 + b3
  }

  // A header that comes in one read announces a body of up to 0x1FFFFF bytes, or ends the run.
  lemma HeaderDecides(d: Dir, b0: byte, b1: byte, b2: byte, b3: byte, turn: Turn, judge: Judge)
    requires Ready(d) && d.phase.Header? && d.count == 0 && turn.read == Arrives([b0, b1, b2, b3])
    ensures var o, length := Pass(d, turn, judge), LengthOf(b0, b1, b2, b3);
      && o.received == [b0, b1, b2, b3] && o.delivered == [] && o.dir.mem[..4] == [b0, b1, b2, b3]
      && (if length <= 0x1FFFFF then o.status.Running? && o.dir == Dir(Body, length + 4, o.dir.mem, 4)
          else o.status == Stopped(BadHeader))
  {
    var h: seq<byte> := [b0, b1, b2, b3];
    assert Filled(d, h).mem[0..4] == h;
    assert BigEndian32(h) == LengthOf(b0, b1, b2, b3);
  }

  // The body that was announced completes the frame, and a network that takes it gets header and body.
  lemma BodyGoesOut(d: Dir, body: seq<byte>, turn: Turn, judge: Judge)
    requires |d.mem| >= 7 && d == Dir(Body, |body| + 4, d.mem, 4)
    requires 0 < |body| <= 0x1FFFFF && |body| + 4 <= |d.mem|
    requires turn.read == Arrives(body) && turn.passthrough && Capacity(turn.sends) >= |body| + 4
    ensures Ready(d)
    ensures var o := Pass(d, turn, judge);
      && o.status.Running? && o.dir == Dir(Header, 4, Splice(d.mem, 4, body), 0)
      && o.received == body && o.delivered == d.mem[..4] + body && o.frames == [d.mem[..4] + body]
  {
    assert Splice(d.mem, 4, body)[..|body| + 4] == d.mem[..4] + body;
    WriteLoopMeaning(turn.sends, 0, |body| + 4);
  }

  // The four bytes that announce a length below 2^24.
  function HeaderOf(length: nat): (h: seq<byte>)
    requires length < 0x1000000
    ensures |h| == 4
  {
    [0, length / 0x10000, length / 0x100 % 0x100, length % 0x100]
  }

  lemma LengthOfHeader(length: nat)
    requires length < 0x1000000
    ensures var h := HeaderOf(length); LengthOf(h[0], h[1], h[2], h[3]) == length
  {
  }

  // In the ring the program allocates, a header of length 1 to 0x1FFFFF opens a body and a larger one
  // ends the run; a body of up to 0x20004 bytes goes out with its header.
  lemma FrameGoesThrough(mem: seq<byte>, length: nat, first: Turn, second: Turn, judge: Judge)
    requires |mem| == 0x20008 && 0 < length < 0x1000000 && first.read == Arrives(HeaderOf(length))
    requires second.read.Arrives? && |second.read.avail| == length && second.passthrough
    requires Capacity(second.sends) >= length + 4
    ensures var f := Step(Start(mem), first, judge);
      if length <= 0x1FFFFF then f.status.Running? && f.dir.phase.Body? && f.dir.remain == length + 4
      else f.status == Stopped(BadHeader)
    ensures length <= 0x20004 ==>
      var g := Step(Step(Start(mem), first, judge), second, judge);
      g.status.Running? && g.delivered == HeaderOf(length) + second.read.avail
  {
    var h := HeaderOf(length);
    LengthOfHeader(length);
    assert h == [h[0], h[1], h[2], h[3]];
    HeaderDecides(Start(mem).dir, h[0], h[1], h[2], h[3], first, judge);
    if length <= 0x20004 {
      BodyGoesOut(Step(Start(mem), first, judge).dir, second.read.avail, second, judge);
    }
  }

  // ---- Whole streams ----

  // A frame as it is on the wire, that a ring of this size holds: header, length and body.
  predicate DirectFrame(frame: seq<byte>, size: nat) {
    && 4 < |frame| <= size && |frame| <= 0x200003
    && LengthOf(frame[0], frame[1], frame[2], frame[3]) == |frame| - 4
  }

  // A turn that gives no reason to stop: something arrives or nothing does, and the network takes
  // what is sent.
  predicate Healthy(turn: Turn, size: nat) {
    && (turn.read in {NothingToRead, RecvFails(true)} || (turn.read.Arrives? && turn.read.avail != []))
    && Capacity(turn.sends) >= size
  }

  // Inspection lets the frame through, whatever is left over behind it.
  ghost predicate Welcome(judge: Judge, frame: seq<byte>, size: nat) {
    forall mem :: Holds(mem, frame, size) ==> judge(mem[4..], |frame| - 4)
  }

  // These frames, in this mode, meet no refusal.
  ghost predicate Unrefused(frames: seq<seq<byte>>, turn: Turn, judge: Judge, size: nat) {
    turn.passthrough || forall i :: 0 <= i < |frames| ==> Welcome(judge, frames[i], size)
  }

  lemma DirectIsWhole(frame: seq<byte>, size: nat)
    requires DirectFrame(frame, size)
    ensures WholeFrame(frame, size)
  {
    assert frame[..4] == [frame[0], frame[1], frame[2], frame[3]];
  }

  lemma {:induction false} FramesOfDirect(frames: seq<seq<byte>>, size: nat)
    requires forall i :: 0 <= i < |frames| ==> DirectFrame(frames[i], size)
    ensures Frames(Flatten(frames), size) == frames
  {
    forall i | 0 <= i < |frames| ensures WholeFrame(frames[i], size) { DirectIsWhole(frames[i], size); }
    FramesOfFlattened(frames, [], size);
    assert Flatten(frames) + [] == Flatten(frames) && frames + [] == frames;
  }

  // A body that is completed in this turn is not inspected, or is let through.
  predicate LetThrough(d: Dir, turn: Turn, judge: Judge)
    requires Ready(d) && d.count < d.remain <= |d.mem|
  {
    var e := Filled(d, Taken(turn.read, d.remain - d.count));
    d.phase.Body? && e.count == e.remain ==> turn.passthrough || judge(e.mem[4..], e.count - 4)
  }

  // A pass over such a turn goes on, when the length in use fits, a header that is completed announces
  // one that does, and a frame that is completed meets no refusal.
  lemma HealthyPass(d: Dir, turn: Turn, judge: Judge)
    requires Ready(d) && Healthy(turn, |d.mem|) && d.count < d.remain <= |d.mem|
    requires CompletesHeader(d, turn) ==> Admit(Decoded(d, turn), |d.mem|).Length?
    requires LetThrough(d, turn, judge)
    ensures Pass(d, turn, judge).status.Running?
  {
    ReadFailsExactly(d, turn, judge);
    var e := Filled(d, Taken(turn.read, d.remain - d.count));
    if e.count == e.remain {
      if d.phase.Header? {
        assert e.mem == After(d, turn);
      } else {
        WriteLoopMeaning(turn.sends, 0, e.count);
      }
    }
  }

  // What comes after the frames forwarded so far is the front of the others.
  lemma {:induction false} RestOfStream(frames: seq<seq<byte>>, done: seq<seq<byte>>, ring: seq<byte>)
    requires done <= frames && Flatten(done) + ring <= Flatten(frames)
    ensures ring <= Flatten(frames[|done|..])
  {
    var past, rest := Flatten(done), frames[|done|..];
    assert frames == done + rest;
    FlattenAppend(done, rest);
    assert (past + ring)[|past|..] == ring && (past + Flatten(rest))[|past|..] == Flatten(rest);
  }

  // So four bytes or more of it are the header of the next frame, and as many as that frame has are it.
  lemma {:induction false} NextFrame(frames: seq<seq<byte>>, done: seq<seq<byte>>, ring: seq<byte>, size: nat)
    requires forall i :: 0 <= i < |frames| ==> DirectFrame(frames[i], size)
    requires done <= frames && Flatten(done) + ring <= Flatten(frames) && |ring| >= 4
    ensures |done| < |frames| && |frames[|done|]| >= 4 && ring[..4] == frames[|done|][..4]
    ensures |ring| == |frames[|done|]| ==> ring == frames[|done|]
  {
    var rest := frames[|done|..];
    RestOfStream(frames, done, ring);
    assert rest != [];
    assert frames[|done|] == rest[0] && rest[0] <= Flatten(rest);
  }

  // A stream of frames the ring can hold goes through: as long as the turns are healthy, headers are
  // read right, and inspection is off or lets the frames through, the relay keeps running, forwards
  // the frames in order, and has forwarded all of them when all of the stream has arrived.
  lemma {:induction false} StreamGoesThrough(frames: seq<seq<byte>>, mem: seq<byte>, turns: seq<Turn>, judge: Judge)
    requires |mem| >= 7 && Intact(Start(mem), turns, judge)
    requires forall i :: 0 <= i < |frames| ==> DirectFrame(frames[i], |mem|)
    requires forall i :: 0 <= i < |turns| ==> Healthy(turns[i], |mem|) && Unrefused(frames, turns[i], judge, |mem|)
    requires Run(Start(mem), turns, judge).received <= Flatten(frames)
    ensures var f := Run(Start(mem), turns, judge);
      && f.status.Running? && f.frames <= frames && f.delivered == Flatten(f.frames)
      && (f.received == Flatten(frames) ==> f.frames == frames)
    decreases |turns|
  {
    var f := Run(Start(mem), turns, judge);
    if turns != [] {
      var most, last := turns[..|turns| - 1], turns[|turns| - 1];
      var before := Run(Start(mem), most, judge);
      assert before.received <= f.received;
      StreamGoesThrough(frames, mem, most, judge);
      AtTheHead(mem, most, judge);
      StepGoesOn(frames, before, last, judge);
    }
    AtTheHead(mem, turns, judge);
    AllForwarded(frames, f);
  }

  // A running state that headers read right have led to.
  predicate AtHead(f: Flow) {
    && f.status.Running? && Ready(f.dir) && Framed(f) && Conserved(f)
    && Frames(f.received, |f.dir.mem|) == f.frames + InHand(f)
  }

  lemma AtTheHead(mem: seq<byte>, turns: seq<Turn>, judge: Judge)
    requires |mem| >= 7 && Intact(Start(mem), turns, judge) && Run(Start(mem), turns, judge).status.Running?
    ensures AtHead(Run(Start(mem), turns, judge))
  {
    RunConserves(mem, turns, judge);
    RunFramed(mem, turns, judge);
    ForwardsTheFramesReceived(mem, turns, judge);
  }

  // What was forwarded then is what the stream says, and no frame waits.
  lemma {:induction false} AllForwarded(frames: seq<seq<byte>>, f: Flow)
    requires AtHead(f) && f.received <= Flatten(frames)
    requires forall i :: 0 <= i < |frames| ==> DirectFrame(frames[i], |f.dir.mem|)
    ensures f.frames <= frames && f.delivered == Flatten(f.frames)
    ensures f.received == Flatten(f.frames) + f.dir.mem[..f.dir.count]
    ensures f.received == Flatten(frames) ==> f.frames == frames
  {
    var size := |f.dir.mem|;
    FramesOfDirect(frames, size);
    FramesOfPrefix(f.received, Flatten(frames), size);
    NoneWaits(frames, f);
  }

  lemma NoneWaits(frames: seq<seq<byte>>, f: Flow)
    requires AtHead(f) && f.frames + InHand(f) <= frames
    requires forall i :: 0 <= i < |frames| ==> DirectFrame(frames[i], |f.dir.mem|)
    ensures InHand(f) == []
  {
    WaitingIsEmpty(f);
    MoreOfTheSame(f.frames, InHand(f), frames);
    assert forall i :: 0 <= i < |frames| ==> |frames[i]| > 4;
  }

  lemma WaitingIsEmpty(f: Flow)
    requires AtHead(f)
    ensures InHand(f) == [] || (|InHand(f)| == 1 && |InHand(f)[0]| == 4)
  {
  }

  lemma MoreOfTheSame(s: seq<seq<byte>>, t: seq<seq<byte>>, all: seq<seq<byte>>)
    requires s + t <= all
    ensures |t| > 0 ==> |s| < |all| && all[|s|] == t[0]
  {
    assert |t| > 0 ==> (s + t)[|s|] == t[0];
  }

  lemma {:induction false} StepGoesOn(frames: seq<seq<byte>>, f: Flow, last: Turn, judge: Judge)
    requires AtHead(f) && HeaderIntact(f.dir, last)
    requires Healthy(last, |f.dir.mem|) && Unrefused(frames, last, judge, |f.dir.mem|)
    requires forall i :: 0 <= i < |frames| ==> DirectFrame(frames[i], |f.dir.mem|)
    requires f.received <= Flatten(frames) && Step(f, last, judge).received <= Flatten(frames)
    ensures Step(f, last, judge).status.Running?
  {
    AllForwarded(frames, f);
    BodyFits(frames, f);
    ReadFailsExactly(f.dir, last, judge);
    RingAfter(f, last, judge);
    if CompletesHeader(f.dir, last) { HeaderFits(frames, f, last); }
    FrameWelcome(frames, f, last, judge);
    HealthyPass(f.dir, last, judge);
  }

  // The frame in the ring has a length, and that is the length in use.
  lemma {:induction false} BodyFits(frames: seq<seq<byte>>, f: Flow)
    requires f.status.Running? && Ready(f.dir) && Tracks(f) && f.frames <= frames
    requires forall i :: 0 <= i < |frames| ==> DirectFrame(frames[i], |f.dir.mem|)
    requires Flatten(f.frames) + f.dir.mem[..f.dir.count] <= Flatten(frames)
    ensures f.dir.count < f.dir.remain <= |f.dir.mem|
    ensures f.dir.phase.Body? ==> |f.frames| < |frames| && f.dir.remain == |frames[|f.frames|]|
  {
    if f.dir.phase.Body? {
      var size := |f.dir.mem|;
      NextFrame(frames, f.frames, f.dir.mem[..f.dir.count], size);
      DirectIsWhole(frames[|f.frames|], size);
      assert f.dir.mem[..f.dir.count][..4] == f.dir.mem[..4];
    }
  }

  // What the ring holds after the read of a turn.
  function RingWith(d: Dir, turn: Turn): (ring: seq<byte>)
    requires Ready(d) && d.count < d.remain <= |d.mem|
  {
    d.mem[..d.count] + Taken(turn.read, d.remain - d.count)
  }

  lemma RingAfter(f: Flow, last: Turn, judge: Judge)
    requires f.status.Running? && Ready(f.dir) && f.dir.count < f.dir.remain <= |f.dir.mem|
    requires f.received == Flatten(f.frames) + f.dir.mem[..f.dir.count]
    requires ReadResult(last.read, f.dir.remain - f.dir.count) >= 0
    ensures Step(f, last, judge).received == Flatten(f.frames) + RingWith(f.dir, last)
  {
    Associate(Flatten(f.frames), f.dir.mem[..f.dir.count], Taken(last.read, f.dir.remain - f.dir.count));
  }

  lemma {:induction false} HeaderFits(frames: seq<seq<byte>>, f: Flow, last: Turn)
    requires Ready(f.dir) && f.dir.count < f.dir.remain <= |f.dir.mem| && f.frames <= frames
    requires CompletesHeader(f.dir, last) && HeaderIntact(f.dir, last)
    requires forall i :: 0 <= i < |frames| ==> DirectFrame(frames[i], |f.dir.mem|)
    requires Flatten(f.frames) + RingWith(f.dir, last) <= Flatten(frames)
    ensures Admit(Decoded(f.dir, last), |f.dir.mem|).Length?
  {
    var sent := Sent(f.dir, last);
    assert sent == RingWith(f.dir, last);
    NextFrame(frames, f.frames, sent, |f.dir.mem|);
    DirectIsWhole(frames[|f.frames|], |f.dir.mem|);
    assert sent[..4] == sent;
  }

  lemma {:induction false} FrameWelcome(frames: seq<seq<byte>>, f: Flow, last: Turn, judge: Judge)
    requires Ready(f.dir) && f.dir.count < f.dir.remain <= |f.dir.mem| && f.frames <= frames
    requires Unrefused(frames, last, judge, |f.dir.mem|)
    requires forall i :: 0 <= i < |frames| ==> DirectFrame(frames[i], |f.dir.mem|)
    requires f.dir.phase.Body? ==> |f.frames| < |frames| && f.dir.remain == |frames[|f.frames|]|
    requires Flatten(f.frames) + RingWith(f.dir, last) <= Flatten(frames)
    ensures LetThrough(f.dir, last, judge)
  {
    var d, ring := f.dir, RingWith(f.dir, last);
    var e := Filled(d, Taken(last.read, d.remain - d.count));
    if d.phase.Body? && e.count == e.remain && !last.passthrough {
      NextFrame(frames, f.frames, ring, |d.mem|);
      assert e.mem[..e.count] == ring;
      assert Welcome(judge, ring, |d.mem|) && Holds(e.mem, ring, |d.mem|);
    }
  }
}
