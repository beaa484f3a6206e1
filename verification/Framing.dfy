/**
 What the relay forwards, measured against the frames of the stream it received: chunking,
 inspection and the admission bound.
 */
module Framing {
  import opened Bytes
  import opened Tcp
  import opened RelaySpec

  // ---- The frames of a stream ----

  predicate Admissible(length: nat, size: nat) {
    length <= MAX_LENGTH && length + 4 <= size
  }

  // The complete frames of a byte stream, up to the first header that is refused.
  function Frames(s: seq<byte>, size: nat): seq<seq<byte>>
    decreases |s|
  {
    if |s| < 4 then []
    else
      var n := BigEndian32(s[..4]) + 4;
      if !Admissible(n - 4, size) || |s| < n then []
      else [s[..n]] + Frames(s[n..], size)
  }

  predicate WholeFrame(b: seq<byte>, size: nat) {
    |b| >= 4 && |b| == BigEndian32(b[..4]) + 4 && Admissible(|b| - 4, size)
  }

  lemma FirstFrame(b: seq<byte>, rest: seq<byte>, size: nat)
    requires WholeFrame(b, size)
    ensures Frames(b + rest, size) == [b] + Frames(rest, size)
  {
    assert (b + rest)[..4] == b[..4];
    assert (b + rest)[..|b|] == b && (b + rest)[|b|..] == rest;
  }

  lemma {:induction false} FramesOfFlattened(frames: seq<seq<byte>>, rest: seq<byte>, size: nat)
    requires forall i :: 0 <= i < |frames| ==> WholeFrame(frames[i], size)
    ensures Frames(Flatten(frames) + rest, size) == frames + Frames(rest, size)
  {
    if frames == [] {
      assert Flatten(frames) + rest == rest;
    } else {
      var first, more, left := frames[0], Flatten(frames[1..]), Frames(rest, size);
      calc {
        Frames(Flatten(frames) + rest, size);
        { assert (first + more) + rest == first + (more + rest); }
        Frames(first + (more + rest), size);
        { FirstFrame(first, more + rest, size); }
        [first] + Frames(more + rest, size);
        { FramesOfFlattened(frames[1..], rest, size); }
        [first] + (frames[1..] + left);
        { assert [first] + (frames[1..] + left) == ([first] + frames[1..]) + left; }
        frames + left;
      }
    }
  }

  // A longer stream has the same frames first.
  lemma {:induction false} FramesOfLonger(s: seq<byte>, more: seq<byte>, size: nat)
    ensures Frames(s, size) <= Frames(s + more, size)
    decreases |s|
  {
    if |s| >= 4 {
      var n := BigEndian32(s[..4]) + 4;
      if Admissible(n - 4, size) && |s| >= n {
        FramesOfLonger(s[n..], more, size);
        SameFirst(s, more, n);
        SamePrefix(s[..n], Frames(s[n..], size), Frames(s[n..] + more, size));
      }
    }
  }

  lemma SameFirst(s: seq<byte>, more: seq<byte>, n: nat)
    requires 4 <= n <= |s|
    ensures (s + more)[..4] == s[..4] && (s + more)[..n] == s[..n] && (s + more)[n..] == s[n..] + more
  {
  }

  lemma SamePrefix(first: seq<byte>, s: seq<seq<byte>>, t: seq<seq<byte>>)
    requires s <= t
    ensures [first] + s <= [first] + t
  {
  }

  lemma FramesOfPrefix(s: seq<byte>, t: seq<byte>, size: nat)
    requires s <= t
    ensures Frames(s, size) <= Frames(t, size)
  {
    FramesOfLonger(s, t[|s|..], size);
    assert t == s + t[|s|..];
  }

  // ---- Inspection of frames ----

  // A verdict on packets by their own bytes.
  type Rule = seq<byte> -> bool

  function Payload(frame: seq<byte>): seq<byte> {
    if |frame| < 4 then [] else frame[4..]
  }

  // The frames before the first one the rule refuses.
  function UpToRefusal(frames: seq<seq<byte>>, rule: Rule): seq<seq<byte>> {
    if frames == [] || !rule(Payload(frames[0])) then [] else [frames[0]] + UpToRefusal(frames[1..], rule)
  }

  // The frame at the start of a ring of the given size, with anything left over behind it.
  predicate Holds(mem: seq<byte>, frame: seq<byte>, size: nat) {
    4 <= |frame| && |mem| == size && frame <= mem
  }

  // Inspection decides on this frame as the rule does, whatever is left over behind it.
  ghost predicate Obeys(judge: Judge, rule: Rule, frame: seq<byte>, size: nat) {
    forall mem :: Holds(mem, frame, size) ==> judge(mem[4..], |frame| - 4) == rule(Payload(frame))
  }

  // It does so on each frame up to the first one refused.
  ghost predicate ObeysUpTo(judge: Judge, rule: Rule, frames: seq<seq<byte>>, size: nat) {
    frames != [] ==>
      && Obeys(judge, rule, frames[0], size)
      && (rule(Payload(frames[0])) ==> ObeysUpTo(judge, rule, frames[1..], size))
  }

  // Inspection came to this verdict on the frame, over one content of the ring or another.
  ghost predicate Seen(judge: Judge, frame: seq<byte>, size: nat, verdict: bool) {
    exists mem :: Holds(mem, frame, size) && judge(mem[4..], |frame| - 4) == verdict
  }

  // ---- Reading a header from the right place ----

  // What a 32-bit header word admits to a ring of this size: a length, or nothing.
  datatype Admitted = Refused | Length(n: nat)

  function Admit(word: seq<byte>, size: nat): Admitted
    requires |word| == 4
  {
    if Admissible(BigEndian32(word), size) then Length(BigEndian32(word)) else Refused
  }

  // This turn stores the fourth byte of a header.
  predicate CompletesHeader(d: Dir, turn: Turn)
    requires Ready(d)
  {
    && d.phase.Header?
    && Room(d) >= d.remain - d.count
    && ReadResult(turn.read, d.remain - d.count) >= 0
    && d.count + |Taken(turn.read, d.remain - d.count)| == 4
  }

  function After(d: Dir, turn: Turn): (mem: seq<byte>)
    requires Ready(d) && CompletesHeader(d, turn)
    ensures |mem| == |d.mem|
  {
    Splice(d.mem, d.count, Taken(turn.read, d.remain - d.count))
  }

  // The four bytes the code decodes, and the four bytes of the header.
  function Decoded(d: Dir, turn: Turn): (word: seq<byte>)
    requires Ready(d) && CompletesHeader(d, turn)
    ensures |word| == 4
  {
    After(d, turn)[d.count..d.count + 4]
  }

  function Sent(d: Dir, turn: Turn): (word: seq<byte>)
    requires Ready(d) && CompletesHeader(d, turn)
    ensures |word| == 4
  {
    After(d, turn)[..4]
  }

  // If this turn completes a header, the word decoded admits what the header does.
  predicate HeaderIntact(d: Dir, turn: Turn)
    requires Ready(d)
  {
    CompletesHeader(d, turn) ==> Admit(Decoded(d, turn), |d.mem|) == Admit(Sent(d, turn), |d.mem|)
  }

  // A header that comes in one read is always intact.
  lemma WholeHeaderIsIntact(d: Dir, turn: Turn)
    requires Ready(d) && CompletesHeader(d, turn) && d.count == 0
    ensures Decoded(d, turn) == Sent(d, turn) && HeaderIntact(d, turn)
  {
  }

  // The header is the same when shifted by the bytes that were read before its last read began, and
  // filled up from what is left over above it.
  predicate SameShifted(d: Dir, turn: Turn)
    requires Ready(d) && CompletesHeader(d, turn)
  {
    var sent := Sent(d, turn);
    forall i :: 0 <= i < 4 ==> sent[i] == if i + d.count < 4 then sent[i + d.count] else d.mem[i + d.count]
  }

  // Neither the header nor what was made of it is admissible.
  predicate BothRefused(d: Dir, turn: Turn)
    requires Ready(d) && CompletesHeader(d, turn)
  {
    !Admissible(BigEndian32(Sent(d, turn)), |d.mem|) && !Admissible(BigEndian32(Decoded(d, turn)), |d.mem|)
  }

  // What is decoded is the header shifted and filled up. It is read right exactly when that changes
  // nothing, or when both are refused.
  lemma {:induction false} SplitHeader(d: Dir, turn: Turn)
    requires Ready(d) && CompletesHeader(d, turn)
    ensures Decoded(d, turn) == Sent(d, turn)[d.count..] + d.mem[4..4 + d.count]
    ensures HeaderIntact(d, turn) <==> BothRefused(d, turn) || SameShifted(d, turn)
  {
    Shifted(d, turn);
    SameWord(d, turn);
    if Admit(Sent(d, turn), |d.mem|).Length? && HeaderIntact(d, turn) {
      BigEndian32Injective(Sent(d, turn), Decoded(d, turn));
    }
  }

  lemma SameWord(d: Dir, turn: Turn)
    requires Ready(d) && CompletesHeader(d, turn)
    ensures SameShifted(d, turn) <==> Decoded(d, turn) == Sent(d, turn)
  {
    Shifted(d, turn);
    var sent, decoded := Sent(d, turn), Decoded(d, turn);
    assert (forall i :: 0 <= i < 4 ==> sent[i] == decoded[i]) <==> sent == decoded;
  }

  lemma Shifted(d: Dir, turn: Turn)
    requires Ready(d) && CompletesHeader(d, turn)
    ensures Decoded(d, turn) == Sent(d, turn)[d.count..] + d.mem[4..4 + d.count]
    ensures forall i :: 0 <= i < 4 ==>
      Decoded(d, turn)[i] == if i + d.count < 4 then Sent(d, turn)[i + d.count] else d.mem[i + d.count]
  {
    var sent, decoded, all := Sent(d, turn), Decoded(d, turn), After(d, turn);
    assert forall i :: 4 <= i < |all| ==> all[i] == d.mem[i];
    assert forall i :: 0 <= i < 4 ==> decoded[i] == all[i + d.count];
    assert decoded == sent[d.count..] + d.mem[4..4 + d.count];
  }

  // In particular a header of a nonempty frame cut after its first byte always yields another length,
  // and that is noticed unless neither is admissible.
  lemma {:induction false} HeaderCutAfterOneByte(d: Dir, turn: Turn)
    requires Ready(d) && CompletesHeader(d, turn) && d.count == 1
    requires 0 < BigEndian32(Sent(d, turn)) <= MAX_LENGTH
    ensures BigEndian32(Decoded(d, turn)) != BigEndian32(Sent(d, turn))
    ensures HeaderIntact(d, turn) <==> BothRefused(d, turn)
  {
    Shifted(d, turn);
    if BigEndian32(Decoded(d, turn)) == BigEndian32(Sent(d, turn)) {
      BigEndian32Injective(Sent(d, turn), Decoded(d, turn));
      assert false;
    }
  }

  // Every header of a run is read right.
  predicate Intact(f: Flow, turns: seq<Turn>, judge: Judge)
    requires Going(f)
  {
    turns != [] ==>
      var most := turns[..|turns| - 1];
      var g := Run(f, most, judge);
      && Intact(f, most, judge)
      && (g.status.Running? ==> HeaderIntact(g.dir, turns[|turns| - 1]))
  }

  // Each read for a header brings all four bytes of it, or nothing.
  predicate HeadersWhole(f: Flow, turns: seq<Turn>, judge: Judge)
    requires Going(f)
  {
    turns != [] ==>
      var most := turns[..|turns| - 1];
      && HeadersWhole(f, most, judge)
      && (Run(f, most, judge).dir.phase.Header? ==> |Taken(turns[|turns| - 1].read, 4)| in {0, 4})
  }

  // Then every header is read right.
  lemma {:induction false} WholeHeadersAreIntact(mem: seq<byte>, turns: seq<Turn>, judge: Judge)
    requires |mem| >= 7 && HeadersWhole(Start(mem), turns, judge)
    ensures Intact(Start(mem), turns, judge)
    ensures var f := Run(Start(mem), turns, judge); f.status.Running? && f.dir.phase.Header? ==> f.dir.count == 0
  {
    if turns != [] {
      var most, last := turns[..|turns| - 1], turns[|turns| - 1];
      var f := Run(Start(mem), most, judge);
      WholeHeadersAreIntact(mem, most, judge);
      if f.status.Running? {
        if CompletesHeader(f.dir, last) { WholeHeaderIsIntact(f.dir, last); }
        BetweenHeaders(f.dir, last, judge);
      }
    }
  }

  lemma BetweenHeaders(d: Dir, turn: Turn, judge: Judge)
    requires Ready(d) && (d.phase.Header? ==> d.count == 0 && |Taken(turn.read, 4)| in {0, 4})
    ensures var o := Pass(d, turn, judge); o.status.Running? && o.dir.phase.Header? ==> o.dir.count == 0
  {
    var chunk := d.remain - d.count;
    if Room(d) >= chunk && ReadResult(turn.read, chunk) >= 0 {
      var e := Filled(d, Taken(turn.read, chunk));
      if e.phase.Header? { assert e.count in {0, 4}; }
    }
  }

  // The packet state agrees with the header in the ring: the length in use is the length sent, or
  // neither fits the ring, and a header was refused only if it had to be.
  predicate Tracks(f: Flow) {
    && |f.dir.mem| >= 4
    && (f.dir.phase.Body? ==>
          match Admit(f.dir.mem[..4], |f.dir.mem|)
          case Length(n) => f.dir.remain == n + 4
          case Refused => f.dir.remain > |f.dir.mem|)
    && (f.status == Stopped(BadHeader) ==> Admit(f.dir.mem[..4], |f.dir.mem|) == Refused)
  }

  lemma StepTracks(f: Flow, turn: Turn, judge: Judge)
    requires f.status.Running? && Ready(f.dir) && Tracks(f)
    ensures Tracks(Step(f, turn, judge)) <==> HeaderIntact(f.dir, turn)
  {
    var d := f.dir;
    if CompletesHeader(d, turn) {
      var e := Filled(d, Taken(turn.read, d.remain - d.count));
      assert e.mem == After(d, turn);
      DecodeTracks(f, e, turn, judge);
    } else if d.phase.Body? {
      BodyKeepsHeader(d, turn, judge);
    }
  }

  // Decoding at the wrong place is noticed unless the word there admits the same.
  lemma DecodeTracks(f: Flow, e: Dir, turn: Turn, judge: Judge)
    requires |e.mem| >= 7 && e.phase.Header? && e.count == e.remain == 4 && f.dir.count < 4
    ensures var o := Continue(e, f.dir.count, turn, judge);
      Tracks(Flow(o.dir, o.status, f.received, f.delivered, f.frames)) <==>
        Admit(e.mem[f.dir.count..f.dir.count + 4], |e.mem|) == Admit(e.mem[..4], |e.mem|)
  {
  }

  // A pass over a body leaves the header in place, and the state too unless the frame is sent.
  lemma BodyKeepsHeader(d: Dir, turn: Turn, judge: Judge)
    requires Ready(d) && d.phase.Body?
    ensures var o := Pass(d, turn, judge);
      && o.dir.mem[..4] == d.mem[..4]
      && (o.dir.phase.Body? ==> o.dir.remain == d.remain)
      && o.status != Stopped(BadHeader)
  {
  }

  // The relay's idea of where frames begin is right throughout a run exactly when every
  // header of the run is read right.
  lemma {:induction false} TracksExactlyWhenIntact(mem: seq<byte>, turns: seq<Turn>, judge: Judge)
    requires |mem| >= 7
    ensures Intact(Start(mem), turns, judge) <==>
      forall i :: 0 <= i <= |turns| ==> Tracks(Run(Start(mem), turns[..i], judge))
  {
    if turns == [] {
      assert turns[..0] == turns;
    } else {
      var most := turns[..|turns| - 1];
      var f := Run(Start(mem), most, judge);
      TracksExactlyWhenIntact(mem, most, judge);
      assert forall i :: 0 <= i < |turns| ==> turns[..i] == most[..i];
      assert turns[..|turns|] == turns && most[..|most|] == most;
      if f.status.Running? && Tracks(f) {
        StepTracks(f, turns[|turns| - 1], judge);
      }
    }
  }

  // ---- Chunking independence ----

  // A complete frame that is in the ring and was not, or not entirely, sent: one that was
  // rejected, one whose sending failed, or an empty frame that waits for the next turn.
  function InHand(f: Flow): seq<seq<byte>>
    requires f.dir.count <= |f.dir.mem|
  {
    if (f.status.Stopped? && f.status.cause.WriteFailed?) || (f.dir.phase.Body? && f.dir.count == f.dir.remain)
    then [f.dir.mem[..f.dir.count]] else []
  }

  // What a run keeps as long as headers are read right: only whole frames were forwarded, and
  // the ring holds no other complete frame than the one in hand.
  predicate Framed(f: Flow) {
    && Tracks(f)
    && f.dir.count <= |f.dir.mem|
    && (forall i :: 0 <= i < |f.frames| ==> WholeFrame(f.frames[i], |f.dir.mem|))
    && Frames(f.dir.mem[..f.dir.count], |f.dir.mem|) == InHand(f)
  }

  // A queue that ends in the middle of a frame, or at a header that is refused, holds no frame.
  lemma FramesOfRing(g: Flow)
    requires Tracks(g) && g.dir.count <= |g.dir.mem|
    requires g.dir.phase.Body? ==> 4 <= g.dir.count <= g.dir.remain
    requires g.dir.phase.Header? ==> g.dir.count < 4 || (g.dir.count == 4 && g.status == Stopped(BadHeader))
    requires g.status.Stopped? ==> !g.status.cause.WriteFailed?
    ensures Frames(g.dir.mem[..g.dir.count], |g.dir.mem|) == InHand(g)
  {
    var s := g.dir.mem[..g.dir.count];
    if |s| >= 4 {
      assert s[..4] == g.dir.mem[..4];
      if g.dir.count == g.dir.remain {
        assert s[..g.dir.remain] == s && s[g.dir.remain..] == [];
      }
    }
  }

  // When a frame was sent, or its sending failed, the ring held exactly that frame.
  lemma FrameJustSent(d: Dir, turn: Turn, judge: Judge)
    requires Ready(d) && d.phase.Body? && d.remain == BigEndian32(d.mem[..4]) + 4
    requires Pass(d, turn, judge).dir.phase.Header?
    ensures var o := Pass(d, turn, judge); var frame := o.dir.mem[..d.remain];
      && WholeFrame(frame, |d.mem|)
      && Frames(frame, |d.mem|) == [frame]
      && (if o.status.Running? then o.frames == [frame] && o.dir.count == 0
          else o.status.cause.WriteFailed? && o.frames == [] && o.dir.count == d.remain)
  {
    var o := Pass(d, turn, judge);
    var frame := o.dir.mem[..d.remain];
    BodyKeepsHeader(d, turn, judge);
    assert frame[..4] == o.dir.mem[..4];
    assert frame[..|frame|] == frame && frame[|frame|..] == [];
  }

  // A step over a frame that is complete, and any other step.
  lemma {:induction false} SendingFramed(f: Flow, turn: Turn, judge: Judge)
    requires f.status.Running? && Ready(f.dir) && Framed(f) && f.dir.phase.Body?
    requires Step(f, turn, judge).dir.phase.Header? && Tracks(Step(f, turn, judge))
    ensures Framed(Step(f, turn, judge))
  {
    FrameJustSent(f.dir, turn, judge);
  }

  lemma {:induction false} ReadingFramed(f: Flow, turn: Turn, judge: Judge)
    requires f.status.Running? && Ready(f.dir) && Framed(f)
    requires f.dir.phase.Header? || Step(f, turn, judge).dir.phase.Body?
    requires Tracks(Step(f, turn, judge))
    ensures Framed(Step(f, turn, judge))
  {
    var o, g := Pass(f.dir, turn, judge), Step(f, turn, judge);
    NothingSent(f.dir, turn, judge);
    FramesOfRing(g);
    assert g.frames == f.frames;
  }

  lemma NothingSent(d: Dir, turn: Turn, judge: Judge)
    requires Ready(d) && (d.phase.Header? || Pass(d, turn, judge).dir.phase.Body?)
    ensures var o := Pass(d, turn, judge);
      && o.frames == []
      && (o.status.Stopped? ==> !o.status.cause.WriteFailed?)
      && (o.dir.phase.Body? ==> 4 <= o.dir.count <= o.dir.remain)
      && (o.dir.phase.Header? ==> o.dir.count < 4 || (o.dir.count == 4 && o.status == Stopped(BadHeader)))
  {
  }

  lemma {:induction false} StepFramed(f: Flow, turn: Turn, judge: Judge)
    requires f.status.Running? && Ready(f.dir) && Framed(f)
    requires HeaderIntact(f.dir, turn)
    ensures Framed(Step(f, turn, judge))
  {
    StepTracks(f, turn, judge);
    if f.dir.phase.Body? && Step(f, turn, judge).dir.phase.Header? {
      SendingFramed(f, turn, judge);
    } else {
      ReadingFramed(f, turn, judge);
    }
  }

  lemma {:induction false} RunFramed(mem: seq<byte>, turns: seq<Turn>, judge: Judge)
    requires |mem| >= 7 && Intact(Start(mem), turns, judge)
    ensures Framed(Run(Start(mem), turns, judge))
  {
    if turns != [] {
      var most := turns[..|turns| - 1];
      RunFramed(mem, most, judge);
      if Run(Start(mem), most, judge).status.Running? {
        StepFramed(Run(Start(mem), most, judge), turns[|turns| - 1], judge);
      }
    }
  }

  // However the stream was cut into reads, the frames forwarded are the complete frames of the
  // stream received, in order; at most the last one is still in hand.
  lemma {:induction false} ForwardsTheFramesReceived(mem: seq<byte>, turns: seq<Turn>, judge: Judge)
    requires |mem| >= 7 && Intact(Start(mem), turns, judge)
    ensures var f := Run(Start(mem), turns, judge);
      f.dir.count <= |f.dir.mem| && Frames(f.received, |mem|) == f.frames + InHand(f)
  {
    var f := Run(Start(mem), turns, judge);
    RunConserves(mem, turns, judge);
    RunFramed(mem, turns, judge);
    FramesOfFlattened(f.frames, f.dir.mem[..f.dir.count], |mem|);
  }

  // ---- That condition is exact ----

  // The relay has given up over a header.
  predicate GaveUp(f: Flow) {
    f.status == Stopped(Oversize) || f.status == Stopped(BadHeader)
  }

  // The frames forwarded, and the one in hand, are those of the stream received, and the relay gave
  // up only over a header that admits no frame.
  predicate FramesRight(f: Flow) {
    && 4 <= |f.dir.mem| && f.dir.count <= |f.dir.mem|
    && Frames(f.received, |f.dir.mem|) == f.frames + InHand(f)
    && (GaveUp(f) ==> f.dir.count == 4 && !Admissible(BigEndian32(f.dir.mem[..4]), |f.dir.mem|))
  }

  // They are, and will be whatever the next turn brings to the body of a frame.
  ghost predicate StaysRight(f: Flow, judge: Judge)
    requires Going(f)
  {
    FramesRight(f) && (f.status.Running? && f.dir.phase.Body? ==> forall more :: FramesRight(Step(f, more, judge)))
  }

  // Where a direction stands that gave up.
  predicate StoppedThere(f: Flow) {
    && (GaveUp(f) ==> f.dir.count == 4)
    && (f.status == Stopped(Oversize) ==> f.dir.phase.Body? && f.dir.remain > |f.dir.mem|)
  }

  lemma PassStopsThere(d: Dir, turn: Turn, judge: Judge)
    requires Ready(d)
    ensures var o := Pass(d, turn, judge);
      && (o.status == Stopped(Oversize) ==> o.dir == d && d.count == 4 && d.phase.Body? && d.remain > |d.mem|)
      && (o.status == Stopped(BadHeader) ==> o.dir.count == 4)
  {
    PassOversize(d, turn, judge);
  }

  lemma {:induction false} RunStopsThere(mem: seq<byte>, turns: seq<Turn>, judge: Judge)
    requires |mem| >= 7
    ensures StoppedThere(Run(Start(mem), turns, judge))
  {
    if turns != [] {
      var f := Run(Start(mem), turns[..|turns| - 1], judge);
      RunStopsThere(mem, turns[..|turns| - 1], judge);
      if f.status.Running? { PassStopsThere(f.dir, turns[|turns| - 1], judge); }
    }
  }

  lemma {:induction false} IntactFramesRight(mem: seq<byte>, turns: seq<Turn>, judge: Judge)
    requires |mem| >= 7 && Intact(Start(mem), turns, judge)
    ensures FramesRight(Run(Start(mem), turns, judge))
  {
    RunStopsThere(mem, turns, judge);
    RunFramed(mem, turns, judge);
    ForwardsTheFramesReceived(mem, turns, judge);
  }

  // Into a body, whatever comes completes no header.
  lemma {:induction false} IntactStaysRight(mem: seq<byte>, turns: seq<Turn>, judge: Judge)
    requires |mem| >= 7 && Intact(Start(mem), turns, judge)
    ensures StaysRight(Run(Start(mem), turns, judge), judge)
  {
    var f := Run(Start(mem), turns, judge);
    IntactFramesRight(mem, turns, judge);
    if f.status.Running? && f.dir.phase.Body? {
      forall more ensures FramesRight(Step(f, more, judge)) {
        IntactSnoc(Start(mem), turns, more, judge);
        IntactFramesRight(mem, turns + [more], judge);
      }
    }
  }

  lemma IntactSnoc(f: Flow, turns: seq<Turn>, last: Turn, judge: Judge)
    requires Going(f)
    ensures Run(f, turns + [last], judge) == Step(Run(f, turns, judge), last, judge)
    ensures var g := Run(f, turns, judge);
      Intact(f, turns + [last], judge) <==> Intact(f, turns, judge) && (g.status.Running? ==> HeaderIntact(g.dir, last))
  {
    assert (turns + [last])[..|turns|] == turns;
  }

  // Another length than the header's makes another frame.
  lemma OtherLength(word: seq<byte>, body: seq<byte>, size: nat)
    requires |word| == 4 && Admit(word, size) != Length(|body|)
    ensures Frames(word + body, size) != [word + body]
  {
    var s := word + body;
    assert s[..4] == word;
    FramesAreWhole(s, size);
    assert !WholeFrame(s, size);
    assert |Frames(s, size)| == 1 ==> Frames(s, size)[0] != s;
  }

  lemma BodyForwarded(g: Flow, d: nat, body: seq<byte>, judge: Judge)
    requires g.status.Running? && |g.dir.mem| >= 7 && g.dir == Dir(Body, d + 4, g.dir.mem, 4)
    requires 0 < d == |body| && Admissible(d, |g.dir.mem|)
    ensures Ready(g.dir)
    ensures var h := Step(g, Turn(Arrives(body), true, [Accepts(d + 4)]), judge); var frame := g.dir.mem[..4] + body;
      && h.status.Running? && h.dir == Dir(Header, 4, Splice(g.dir.mem, 4, body), 0)
      && h.received == g.received + body && h.frames == g.frames + [frame] && h.delivered == g.delivered + frame
  {
    assert Splice(g.dir.mem, 4, body)[..d + 4] == g.dir.mem[..4] + body;
  }

  // A decoded length that fits: the relay takes that many bytes for the frame.
  lemma {:induction false} WrongFrameShows(g: Flow, word: seq<byte>, judge: Judge) returns (more: Turn)
    requires g.status.Running? && Conserved(g) && |g.dir.mem| >= 7 && word == g.dir.mem[..4]
    requires g.dir.phase.Body? && g.dir.count == 4 && g.dir.remain >= 4 && Admissible(g.dir.remain - 4, |g.dir.mem|)
    requires Admit(word, |g.dir.mem|) != Length(g.dir.remain - 4)
    requires forall i :: 0 <= i < |g.frames| ==> WholeFrame(g.frames[i], |g.dir.mem|)
    ensures Ready(g.dir)
    ensures !FramesRight(g) || !FramesRight(Step(g, more, judge))
  {
    var d, size, past := g.dir.remain - 4, |g.dir.mem|, Flatten(g.frames);
    var body := seq(d, _ => 0 as byte);
    more := Turn(Arrives(body), true, [Accepts(d + 4)]);
    OtherLength(word, body, size);
    if d == 0 {
      assert word + body == word;
      FramesOfFlattened(g.frames, word, size);
      SameStart(g.frames, Frames(word, size), [word]);
    } else {
      BodyForwarded(g, d, body, judge);
      assert (past + word) + body == past + (word + body);
      FramesOfFlattened(g.frames, word + body, size);
      SameStart(g.frames, Frames(word + body, size), [word + body]);
    }
  }

  lemma SameStart(s: seq<seq<byte>>, t: seq<seq<byte>>, u: seq<seq<byte>>)
    requires t != u
    ensures s + t != s + u
  {
    assert (s + t)[|s|..] == t && (s + u)[|s|..] == u;
  }

  // A misread header shows: at once, or in the next turn that brings the body.
  lemma {:induction false} MisreadShows(f: Flow, last: Turn, judge: Judge) returns (more: Turn)
    requires f.status.Running? && Ready(f.dir) && Framed(f) && Conserved(f)
    requires !HeaderIntact(f.dir, last)
    ensures var g := Step(f, last, judge);
      !FramesRight(g) || (g.status.Running? && g.dir.phase.Body? && !FramesRight(Step(g, more, judge)))
  {
    var g, size := Step(f, last, judge), |f.dir.mem|;
    more := Turn(NothingToRead, true, []);
    StepConserves(f, last, judge);
    HeaderDecoded(f, last, judge);
    if Admissible(BigEndian32(Decoded(f.dir, last)), size) {
      more := WrongFrameShows(g, Sent(f.dir, last), judge);
    } else if g.status.Running? {
      PassOversize(g.dir, more, judge);
    }
  }

  // What a pass makes of a completed header.
  lemma HeaderDecoded(f: Flow, last: Turn, judge: Judge)
    requires f.status.Running? && Ready(f.dir) && CompletesHeader(f.dir, last)
    ensures var g, length := Step(f, last, judge), BigEndian32(Decoded(f.dir, last));
      && g.dir.count == 4 && |g.dir.mem| == |f.dir.mem| && g.dir.mem[..4] == Sent(f.dir, last) && g.frames == f.frames
      && (if length > MAX_LENGTH then g.status == Stopped(BadHeader)
          else g.status.Running? && g.dir.phase.Body? && g.dir.remain == length + 4)
  {
    assert Filled(f.dir, Taken(last.read, 4 - f.dir.count)).mem == After(f.dir, last);
  }

  // Headers are read right in a run if and only if after each of its turns, and whatever the next
  // one brings to a body, the frames forwarded are those of the stream and no frame was given up.
  lemma {:induction false} FramesExactlyWhenIntact(mem: seq<byte>, turns: seq<Turn>, judge: Judge)
    requires |mem| >= 7
    ensures Intact(Start(mem), turns, judge) <==>
      forall i :: 0 <= i <= |turns| ==> StaysRight(Run(Start(mem), turns[..i], judge), judge)
  {
    if Intact(Start(mem), turns, judge) {
      forall i | 0 <= i <= |turns| ensures StaysRight(Run(Start(mem), turns[..i], judge), judge) {
        IntactPrefix(Start(mem), turns, i, judge);
        IntactStaysRight(mem, turns[..i], judge);
      }
    }
    if forall i :: 0 <= i <= |turns| ==> StaysRight(Run(Start(mem), turns[..i], judge), judge) {
      IntactIfRight(mem, turns, judge);
    }
  }

  // For one header, with those before it read right: what follows stays right if and only if it is.
  lemma HeaderRightExactly(mem: seq<byte>, turns: seq<Turn>, last: Turn, judge: Judge)
    requires |mem| >= 7 && Intact(Start(mem), turns, judge) && Run(Start(mem), turns, judge).status.Running?
    ensures StaysRight(Run(Start(mem), turns + [last], judge), judge) <==> HeaderIntact(Run(Start(mem), turns, judge).dir, last)
  {
    IntactSnoc(Start(mem), turns, last, judge);
    if HeaderIntact(Run(Start(mem), turns, judge).dir, last) {
      IntactStaysRight(mem, turns + [last], judge);
    } else {
      RunFramed(mem, turns, judge);
      RunConserves(mem, turns, judge);
      var more := MisreadShows(Run(Start(mem), turns, judge), last, judge);
    }
  }

  // In terms of the cut: if and only if shifting the header and filling it up changes nothing, or
  // both are refused.
  lemma HeaderCutExactly(mem: seq<byte>, turns: seq<Turn>, last: Turn, judge: Judge)
    requires |mem| >= 7 && Intact(Start(mem), turns, judge) && Run(Start(mem), turns, judge).status.Running?
    requires CompletesHeader(Run(Start(mem), turns, judge).dir, last)
    ensures var d := Run(Start(mem), turns, judge).dir;
      StaysRight(Run(Start(mem), turns + [last], judge), judge) <==> BothRefused(d, last) || SameShifted(d, last)
  {
    HeaderRightExactly(mem, turns, last, judge);
    SplitHeader(Run(Start(mem), turns, judge).dir, last);
  }

  lemma {:induction false} IntactPrefix(f: Flow, turns: seq<Turn>, i: nat, judge: Judge)
    requires Going(f) && Intact(f, turns, judge) && i <= |turns|
    ensures Intact(f, turns[..i], judge)
    decreases |turns|
  {
    if i == |turns| {
      assert turns[..i] == turns;
    } else {
      assert turns[..|turns| - 1][..i] == turns[..i];
      IntactPrefix(f, turns[..|turns| - 1], i, judge);
    }
  }

  lemma {:induction false} IntactIfRight(mem: seq<byte>, turns: seq<Turn>, judge: Judge)
    requires |mem| >= 7
    requires forall i :: 0 <= i <= |turns| ==> StaysRight(Run(Start(mem), turns[..i], judge), judge)
    ensures Intact(Start(mem), turns, judge)
  {
    if turns != [] {
      var most, last := turns[..|turns| - 1], turns[|turns| - 1];
      forall i | 0 <= i <= |most| ensures StaysRight(Run(Start(mem), most[..i], judge), judge) {
        assert most[..i] == turns[..i];
      }
      IntactIfRight(mem, most, judge);
      var f := Run(Start(mem), most, judge);
      assert StaysRight(Run(Start(mem), turns, judge), judge) by { assert turns[..|turns|] == turns; }
      if f.status.Running? && !HeaderIntact(f.dir, last) {
        RunFramed(mem, most, judge);
        RunConserves(mem, most, judge);
        var more := MisreadShows(f, last, judge);
      }
    }
  }

  // Neither an empty frame nor a failed send is pending.
  predicate Settled(f: Flow) {
    && !(f.status.Stopped? && f.status.cause.WriteFailed?)
    && (f.dir.phase.Body? && f.dir.count == f.dir.remain ==> f.status == Stopped(Rejected))
  }

  predicate Inspecting(turns: seq<Turn>) {
    forall i :: 0 <= i < |turns| ==> !turns[i].passthrough
  }

  predicate Passing(turns: seq<Turn>) {
    forall i :: 0 <= i < |turns| ==> turns[i].passthrough
  }

  // Inspection let every forwarded frame through, and stopped the run only over a frame it
  // refused.
  ghost predicate Judged(f: Flow, judge: Judge) {
    && (forall i :: 0 <= i < |f.frames| ==> Seen(judge, f.frames[i], |f.dir.mem|, true))
    && (f.status == Stopped(Rejected) ==>
          && 4 <= f.dir.count == f.dir.remain <= |f.dir.mem| && f.dir.phase.Body?
          && Seen(judge, f.dir.mem[..f.dir.count], |f.dir.mem|, false))
  }

  // An inspecting pass sends nothing, or one frame that was let through.
  lemma ForwardJudged(e: Dir, turn: Turn, judge: Judge)
    requires |e.mem| >= 7 && 4 <= e.count <= |e.mem| && !turn.passthrough
    ensures var o := Forward(e, turn, judge);
      && (o.frames == [] || (o.frames == [e.mem[..e.count]] && Seen(judge, e.mem[..e.count], |e.mem|, true)))
      && (o.status == Stopped(Rejected) ==> o.dir == e && Seen(judge, e.mem[..e.count], |e.mem|, false))
  {
    assert Holds(e.mem, e.mem[..e.count], |e.mem|);
  }

  lemma PassJudged(d: Dir, turn: Turn, judge: Judge)
    requires Ready(d) && !turn.passthrough
    ensures var o := Pass(d, turn, judge); var size := |d.mem|;
      && (o.frames == [] || (|o.frames| == 1 && Seen(judge, o.frames[0], size, true)))
      && (o.status == Stopped(Rejected) ==>
            && 4 <= o.dir.count == o.dir.remain <= size && o.dir.phase.Body?
            && Seen(judge, o.dir.mem[..o.dir.count], size, false))
  {
    var chunk := d.remain - d.count;
    if d.phase.Body? && Room(d) >= chunk && ReadResult(turn.read, chunk) >= 0 {
      var e := Filled(d, Taken(turn.read, chunk));
      if e.count == e.remain { ForwardJudged(e, turn, judge); }
    }
  }

  lemma StepJudged(f: Flow, turn: Turn, judge: Judge)
    requires Going(f) && Judged(f, judge) && !turn.passthrough
    ensures Judged(Step(f, turn, judge), judge)
  {
    if f.status.Running? {
      PassJudged(f.dir, turn, judge);
      var o, g := Pass(f.dir, turn, judge), Step(f, turn, judge);
      forall i | 0 <= i < |g.frames| ensures Seen(judge, g.frames[i], |g.dir.mem|, true) {
        assert g.frames[i] == if i < |f.frames| then f.frames[i] else o.frames[0];
      }
    }
  }

  lemma {:induction false} RunJudged(mem: seq<byte>, turns: seq<Turn>, judge: Judge)
    requires |mem| >= 7 && Inspecting(turns)
    ensures Judged(Run(Start(mem), turns, judge), judge)
  {
    if turns != [] {
      var most := turns[..|turns| - 1];
      RunJudged(mem, most, judge);
      StepJudged(Run(Start(mem), most, judge), turns[|turns| - 1], judge);
    }
  }

  lemma PassNotRejected(d: Dir, turn: Turn, judge: Judge)
    requires Ready(d) && turn.passthrough
    ensures Pass(d, turn, judge).status != Stopped(Rejected)
  {
  }

  lemma {:induction false} RunNotRejected(mem: seq<byte>, turns: seq<Turn>, judge: Judge)
    requires |mem| >= 7 && Passing(turns)
    ensures Run(Start(mem), turns, judge).status != Stopped(Rejected)
  {
    if turns != [] {
      var f := Run(Start(mem), turns[..|turns| - 1], judge);
      RunNotRejected(mem, turns[..|turns| - 1], judge);
      if f.status.Running? { PassNotRejected(f.dir, turns[|turns| - 1], judge); }
    }
  }

  // Frames that were let through, and others: the rule lets the same ones through.
  lemma {:induction false} RefusedLater(good: seq<seq<byte>>, more: seq<seq<byte>>, judge: Judge, rule: Rule, size: nat)
    requires forall i :: 0 <= i < |good| ==> Seen(judge, good[i], size, true)
    requires ObeysUpTo(judge, rule, good + more, size)
    ensures UpToRefusal(good + more, rule) == good + UpToRefusal(more, rule)
    ensures ObeysUpTo(judge, rule, more, size)
  {
    if good == [] {
      assert good + more == more;
    } else {
      var first, rest := [good[0]], good[1..];
      assert good == first + rest && Seen(judge, good[0], size, true);
      assert good + more == first + (rest + more) by { Associate(first, rest, more); }
      RefusedLaterThan(good[0], rest + more, judge, rule, size);
      RefusedLater(rest, more, judge, rule, size);
      Associate(first, rest, UpToRefusal(more, rule));
    }
  }

  lemma RefusedLaterThan(first: seq<byte>, rest: seq<seq<byte>>, judge: Judge, rule: Rule, size: nat)
    requires Seen(judge, first, size, true) && ObeysUpTo(judge, rule, [first] + rest, size)
    ensures UpToRefusal([first] + rest, rule) == [first] + UpToRefusal(rest, rule)
    ensures ObeysUpTo(judge, rule, rest, size)
  {
    assert ([first] + rest)[1..] == rest && ([first] + rest)[0] == first;
  }

  lemma RefusedHere(good: seq<seq<byte>>, bad: seq<byte>, all: seq<seq<byte>>, judge: Judge, rule: Rule, size: nat)
    requires good + [bad] <= all
    requires forall i :: 0 <= i < |good| ==> Seen(judge, good[i], size, true)
    requires Seen(judge, bad, size, false) && ObeysUpTo(judge, rule, all, size)
    ensures UpToRefusal(all, rule) == good
  {
    var more := all[|good|..];
    assert all == good + more;
    assert more[0] == bad by { assert (good + [bad])[|good|] == bad; }
    RefusedLater(good, more, judge, rule, size);
  }

  lemma {:induction false} FramesAreWhole(s: seq<byte>, size: nat)
    ensures forall i :: 0 <= i < |Frames(s, size)| ==> WholeFrame(Frames(s, size)[i], size)
    decreases |s|
  {
    if |s| >= 4 {
      var n := BigEndian32(s[..4]) + 4;
      if Admissible(n - 4, size) && |s| >= n {
        assert s[..n][..4] == s[..4];
        FramesAreWhole(s[n..], size);
      }
    }
  }

  // As long as inspection follows a rule on the frames of the stream up to the first one refused,
  // what an inspecting run forwards is a function of the stream alone: those frames.
  lemma {:induction false} InspectedRun(mem: seq<byte>, turns: seq<Turn>, judge: Judge, rule: Rule)
    requires |mem| >= 7 && Intact(Start(mem), turns, judge)
    requires Inspecting(turns) && Settled(Run(Start(mem), turns, judge))
    requires ObeysUpTo(judge, rule, Frames(Run(Start(mem), turns, judge).received, |mem|), |mem|)
    ensures var f := Run(Start(mem), turns, judge);
      f.frames == UpToRefusal(Frames(f.received, |mem|), rule) && f.delivered == Flatten(f.frames)
  {
    var f := Run(Start(mem), turns, judge);
    RunConserves(mem, turns, judge);
    ForwardsTheFramesReceived(mem, turns, judge);
    RunJudged(mem, turns, judge);
    RefusedLater(f.frames, InHand(f), judge, rule, |mem|);
    InHandRefused(f, judge, rule);
    assert f.frames + [] == f.frames;
  }

  // In a settled inspecting run a frame in hand is one that was refused.
  lemma InHandRefused(f: Flow, judge: Judge, rule: Rule)
    requires Judged(f, judge) && Settled(f) && f.dir.count <= |f.dir.mem|
    requires ObeysUpTo(judge, rule, InHand(f), |f.dir.mem|)
    ensures UpToRefusal(InHand(f), rule) == []
  {
    if InHand(f) != [] {
      assert Seen(judge, InHand(f)[0], |f.dir.mem|, false);
    }
  }

  // Without inspection it is all the complete frames.
  lemma {:induction false} PassthroughRun(mem: seq<byte>, turns: seq<Turn>, judge: Judge)
    requires |mem| >= 7 && Intact(Start(mem), turns, judge)
    requires Passing(turns) && Settled(Run(Start(mem), turns, judge))
    ensures var f := Run(Start(mem), turns, judge);
      f.frames == Frames(f.received, |mem|) && f.delivered == Flatten(f.frames)
  {
    RunConserves(mem, turns, judge);
    ForwardsTheFramesReceived(mem, turns, judge);
    RunNotRejected(mem, turns, judge);
  }

  // Two runs over the same stream deliver the same bytes, whatever the reads, the sends, the
  // idle turns and the memory left over from earlier connections; with inspection, as long as it
  // follows a rule on the frames of the stream.
  lemma {:induction false} ChunkingIndependence(mem: seq<byte>, turns: seq<Turn>, mem': seq<byte>, turns': seq<Turn>, judge: Judge, rule: Rule)
    requires |mem| == |mem'| >= 7
    requires Intact(Start(mem), turns, judge) && Intact(Start(mem'), turns', judge)
    requires Settled(Run(Start(mem), turns, judge)) && Settled(Run(Start(mem'), turns', judge))
    requires Run(Start(mem), turns, judge).received == Run(Start(mem'), turns', judge).received
    requires
      || (Passing(turns) && Passing(turns'))
      || (Inspecting(turns) && Inspecting(turns')
          && ObeysUpTo(judge, rule, Frames(Run(Start(mem), turns, judge).received, |mem|), |mem|))
    ensures Run(Start(mem), turns, judge).frames == Run(Start(mem'), turns', judge).frames
    ensures Run(Start(mem), turns, judge).delivered == Run(Start(mem'), turns', judge).delivered
  {
    if Passing(turns) && Passing(turns') {
      PassthroughRun(mem, turns, judge);
      PassthroughRun(mem', turns', judge);
    } else {
      InspectedRun(mem, turns, judge, rule);
      InspectedRun(mem', turns', judge, rule);
    }
  }

  // Inspection changes nothing but where the stream is cut: against any passthrough run of
  // the stream, an inspecting run that saw all of it, or stopped at a refused frame, delivers
  // the frames before the first refused one.
  lemma {:induction false} InspectionIsTransparent(mem: seq<byte>, turns: seq<Turn>, mem': seq<byte>, turns': seq<Turn>, judge: Judge, rule: Rule)
    requires |mem| == |mem'| >= 7
    requires Intact(Start(mem), turns, judge) && Intact(Start(mem'), turns', judge)
    requires Inspecting(turns) && Passing(turns')
    requires Settled(Run(Start(mem), turns, judge)) && Settled(Run(Start(mem'), turns', judge))
    requires var f, g := Run(Start(mem), turns, judge), Run(Start(mem'), turns', judge);
      f.received == g.received || (f.received <= g.received && f.status == Stopped(Rejected))
    requires ObeysUpTo(judge, rule, Frames(Run(Start(mem'), turns', judge).received, |mem|), |mem|)
    ensures var f, g := Run(Start(mem), turns, judge), Run(Start(mem'), turns', judge);
      && f.frames == UpToRefusal(g.frames, rule)
      && f.delivered == Flatten(UpToRefusal(g.frames, rule)) <= g.delivered
  {
    var f, g := Run(Start(mem), turns, judge), Run(Start(mem'), turns', judge);
    PassthroughRun(mem', turns', judge);
    if f.received == g.received {
      InspectedRun(mem, turns, judge, rule);
    } else {
      RunConserves(mem, turns, judge);
      ForwardsTheFramesReceived(mem, turns, judge);
      RunJudged(mem, turns, judge);
      FramesOfPrefix(f.received, g.received, |mem|);
      RefusedHere(f.frames, InHand(f)[0], g.frames, judge, rule, |mem|);
    }
    UpToRefusalIsPrefix(g.frames, rule);
  }

  lemma {:induction false} UpToRefusalIsPrefix(frames: seq<seq<byte>>, rule: Rule)
    ensures Flatten(UpToRefusal(frames, rule)) <= Flatten(frames)
  {
    if frames != [] {
      UpToRefusalIsPrefix(frames[1..], rule);
    }
  }

  // The condition on inspection cannot be dropped: a frame on which leftover memory decides makes
  // two inspecting runs over the same stream deliver different bytes.
  lemma {:induction false} LeftoverDecides(mem: seq<byte>, mem': seq<byte>, b: seq<byte>, judge: Judge) returns (turns: seq<Turn>)
    requires |mem| >= 7 && WholeFrame(b, |mem|) && |b| > 4
    requires Holds(mem, b, |mem|) && Holds(mem', b, |mem|)
    requires judge(mem[4..], |b| - 4) && !judge(mem'[4..], |b| - 4)
    ensures Inspecting(turns) && Intact(Start(mem), turns, judge) && Intact(Start(mem'), turns, judge)
    ensures var f, g := Run(Start(mem), turns, judge), Run(Start(mem'), turns, judge);
      && Settled(f) && Settled(g) && f.received == g.received == b
      && f.delivered == b && g.delivered == []
  {
    turns := [Turn(Arrives(b[..4]), false, []), Turn(Arrives(b[4..]), false, [Accepts(|b|)])];
    OneFrameRun(mem, b, turns, judge);
    OneFrameRun(mem', b, turns, judge);
    OneFrameSettled(mem, b);
    OneFrameSettled(mem', b);
  }

  // A run of one frame, let through or not.
  function OneFrameFlow(mem: seq<byte>, b: seq<byte>, through: bool): Flow {
    if through then Flow(Dir(Header, 4, mem, 0), Running, b, b, [b])
    else Flow(Dir(Body, |b|, mem, |b|), Stopped(Rejected), b, [], [])
  }

  lemma OneFrameSettled(mem: seq<byte>, b: seq<byte>)
    ensures Settled(OneFrameFlow(mem, b, true)) && Settled(OneFrameFlow(mem, b, false))
  {
  }

  lemma {:induction false} OneFrameRun(mem: seq<byte>, b: seq<byte>, turns: seq<Turn>, judge: Judge)
    requires |mem| >= 7 && WholeFrame(b, |mem|) && |b| > 4 && Holds(mem, b, |mem|)
    requires turns == [Turn(Arrives(b[..4]), false, []), Turn(Arrives(b[4..]), false, [Accepts(|b|)])]
    ensures Intact(Start(mem), turns, judge)
    ensures Run(Start(mem), turns, judge) == OneFrameFlow(mem, b, judge(mem[4..], |b| - 4))
  {
    var a, b' := turns[0], turns[1];
    HeaderArrives(mem, b, a, judge);
    BodyArrives(mem, b, b', judge);
    RunOfTwo(Start(mem), a, b', judge);
    assert turns == [a] + [b'];
  }

  lemma HeaderArrives(mem: seq<byte>, b: seq<byte>, turn: Turn, judge: Judge)
    requires |mem| >= 7 && WholeFrame(b, |mem|) && |b| > 4 && Holds(mem, b, |mem|)
    requires turn.read == Arrives(b[..4])
    ensures Step(Start(mem), turn, judge) == Flow(Dir(Body, |b|, mem, 4), Running, b[..4], [], [])
    ensures HeaderIntact(Start(mem).dir, turn)
  {
    assert Splice(mem, 0, b[..4]) == mem && mem[..4] == b[..4];
  }

  lemma BodyArrives(mem: seq<byte>, b: seq<byte>, turn: Turn, judge: Judge)
    requires |mem| >= 7 && WholeFrame(b, |mem|) && |b| > 4 && Holds(mem, b, |mem|)
    requires turn == Turn(Arrives(b[4..]), false, [Accepts(|b|)])
    ensures Step(Flow(Dir(Body, |b|, mem, 4), Running, b[..4], [], []), turn, judge)
      == OneFrameFlow(mem, b, judge(mem[4..], |b| - 4))
  {
    assert Splice(mem, 4, b[4..]) == mem && mem[..|b|] == b && b[..4] + b[4..] == b;
  }

  // ---- Inspection on the same turns ----

  function With(turns: seq<Turn>, passthrough: bool): (r: seq<Turn>)
    ensures |r| == |turns|
  {
    seq(|turns|, i requires 0 <= i < |turns| => turns[i].(passthrough := passthrough))
  }

  // An inspecting pass is the passthrough one unless inspection refuses its frame.
  lemma PassAlongside(d: Dir, turn: Turn, judge: Judge)
    requires Ready(d)
    ensures var o := Pass(d, turn.(passthrough := false), judge);
      if o.status == Stopped(Rejected) then o.delivered == [] && o.frames == []
      else o == Pass(d, turn.(passthrough := true), judge)
  {
  }

  predicate Alongside(f: Flow, g: Flow) {
    if f.status == Stopped(Rejected) then
      g.status.Running? && f.delivered == g.delivered && f.frames == g.frames && g.received <= f.received
    else f == g
  }

  lemma StepAlongside(f: Flow, turn: Turn, judge: Judge)
    requires Going(f) && f.status != Stopped(Rejected)
    ensures var f' := Step(f, turn.(passthrough := false), judge);
      Alongside(f', if f'.status == Stopped(Rejected) then f else Step(f, turn.(passthrough := true), judge))
  {
    if f.status.Running? { PassAlongside(f.dir, turn, judge); }
  }

  // The runs over these turns are the same up to turn k, which inspection refuses if there is one.
  predicate Locked(mem: seq<byte>, turns: seq<Turn>, judge: Judge, k: nat)
    requires |mem| >= 7 && k <= |turns|
  {
    var f := Run(Start(mem), With(turns, false), judge);
    Alongside(f, Run(Start(mem), With(turns[..k], true), judge)) && (f.status == Stopped(Rejected) <==> k < |turns|)
  }

  // On the same events, and however headers are read, the two runs are the same pass for pass
  // until inspection refuses a frame; there the inspecting run has delivered exactly what the
  // other had when that frame came up.
  lemma {:induction false} InspectionLockstep(mem: seq<byte>, turns: seq<Turn>, judge: Judge) returns (k: nat)
    requires |mem| >= 7
    ensures k <= |turns|
    ensures Alongside(Run(Start(mem), With(turns, false), judge), Run(Start(mem), With(turns[..k], true), judge))
    ensures Run(Start(mem), With(turns, false), judge).status == Stopped(Rejected) <==> k < |turns|
  {
    k := LockedAt(mem, turns, judge);
  }

  lemma {:induction false} LockedAt(mem: seq<byte>, turns: seq<Turn>, judge: Judge) returns (k: nat)
    requires |mem| >= 7
    ensures k <= |turns| && Locked(mem, turns, judge, k)
  {
    if turns == [] {
      k := 0;
      LockedAtFirst(mem, judge);
    } else {
      var most, last := turns[..|turns| - 1], turns[|turns| - 1];
      assert turns == most + [last];
      var n := LockedAt(mem, most, judge);
      k := LockedSnoc(mem, most, last, judge, n);
    }
  }

  lemma LockedAtFirst(mem: seq<byte>, judge: Judge)
    requires |mem| >= 7
    ensures Locked(mem, [], judge, 0)
  {
    assert With([], false) == With([][..0], true) == [];
  }

  lemma {:induction false} LockedSnoc(mem: seq<byte>, most: seq<Turn>, last: Turn, judge: Judge, k: nat) returns (n: nat)
    requires |mem| >= 7 && k <= |most| && Locked(mem, most, judge, k)
    ensures n <= |most| + 1 && Locked(mem, most + [last], judge, n)
  {
    var turns := most + [last];
    RunWithSnoc(mem, most, last, false, judge);
    if k < |most| {
      n := k;
      assert turns[..k] == most[..k];
    } else {
      assert most[..k] == most && turns[..|most|] == most && turns[..|most| + 1] == turns;
      StepAlongside(Run(Start(mem), With(most, false), judge), last, judge);
      if Run(Start(mem), With(turns, false), judge).status == Stopped(Rejected) {
        n := |most|;
      } else {
        n := |most| + 1;
        RunWithSnoc(mem, most, last, true, judge);
      }
    }
  }

  lemma RunWithSnoc(mem: seq<byte>, most: seq<Turn>, last: Turn, passthrough: bool, judge: Judge)
    requires |mem| >= 7
    ensures Run(Start(mem), With(most + [last], passthrough), judge)
      == Step(Run(Start(mem), With(most, passthrough), judge), last.(passthrough := passthrough), judge)
  {
    WithSnoc(most, last, passthrough);
    IntactSnoc(Start(mem), With(most, passthrough), last.(passthrough := passthrough), judge);
  }

  lemma WithSnoc(most: seq<Turn>, last: Turn, passthrough: bool)
    ensures With(most + [last], passthrough) == With(most, passthrough) + [last.(passthrough := passthrough)]
  {
  }

  // ---- The admission bound ----

  // A pass stops over a size exactly when the length in use does not fit, before reading anything.
  lemma PassOversize(d: Dir, turn: Turn, judge: Judge)
    requires Ready(d)
    ensures var o := Pass(d, turn, judge);
      && (o.status == Stopped(Oversize) <==> Room(d) < d.remain - d.count)
      && (o.status == Stopped(Oversize) ==> o.received == [])
      && (Room(d) < d.remain - d.count <==> d.phase.Body? && d.remain > |d.mem|)
      && (d.phase.Body? && d.remain > |d.mem| ==> d.count == 4)
  {
  }

  // However headers were read, a direction stops over a size exactly when the length accepted
  // from a header and the header exceed the ring; that is found out before any byte of the body is
  // read. With the ring the program allocates, 0x20008 bytes, the effective limit is 0x20004 and
  // not the 0x1FFFFF of the header check.
  lemma {:induction false} AdmissionBound(mem: seq<byte>, turns: seq<Turn>, turn: Turn, judge: Judge)
    requires |mem| >= 7 && Run(Start(mem), turns, judge).status.Running?
    ensures var f := Run(Start(mem), turns, judge); var g := Step(f, turn, judge);
      && (g.status == Stopped(Oversize) <==> f.dir.phase.Body? && f.dir.remain > |mem|)
      && (g.status == Stopped(Oversize) ==> f.dir.count == 4 && g.received == f.received)
      && (|mem| == 0x20008 && f.dir.phase.Body? ==>
            (g.status == Stopped(Oversize) <==> f.dir.remain - 4 > 0x20004))
  {
    PassOversize(Run(Start(mem), turns, judge).dir, turn, judge);
  }

  // When headers were read right, that length is the one that was sent.
  lemma {:induction false} AdmissionBoundOfHeader(mem: seq<byte>, turns: seq<Turn>, turn: Turn, judge: Judge)
    requires |mem| >= 7 && Intact(Start(mem), turns, judge)
    requires Run(Start(mem), turns, judge).status.Running?
    ensures var f := Run(Start(mem), turns, judge); var g := Step(f, turn, judge);
      && (g.status == Stopped(Oversize) <==>
            f.dir.phase.Body? && !Admissible(BigEndian32(f.dir.mem[..4]), |mem|))
      && (|mem| == 0x20008 && f.dir.phase.Body? ==>
            (g.status == Stopped(Oversize) <==> BigEndian32(f.dir.mem[..4]) > 0x20004))
  {
    RunFramed(mem, turns, judge);
    AdmissionBound(mem, turns, turn, judge);
  }

  // ---- Where the code departs from framing ----

  // A ring of zeros.
  function Zeros(n: nat): (mem: seq<byte>)
    ensures |mem| == n && forall i :: 0 <= i < n ==> mem[i] == 0
  {
    seq(n, _ => 0)
  }

  // A header 0, 0, 0, 1 cut after its first byte, over such a ring.
  function CutHeader(): (turns: seq<Turn>)
    ensures |turns| == 2
  {
    [Turn(Arrives([0]), true, [])] + [Turn(Arrives([0, 0, 1]), true, [])]
  }

  // The relay takes it for a frame of 260 bytes.
  lemma CutHeaderRun(n: nat, judge: Judge)
    requires n >= 16
    ensures var f := Run(Start(Zeros(n)), CutHeader(), judge);
      && f == Flow(Dir(Body, 260, f.dir.mem, 4), Running, [0, 0, 0, 1], [], [])
      && |f.dir.mem| == n && f.dir.mem[..4] == [0, 0, 0, 1]
    ensures !Intact(Start(Zeros(n)), CutHeader(), judge)
  {
    var a, b := CutHeader()[0], CutHeader()[1];
    var f := Start(Zeros(n));
    RunOfTwo(f, a, b, judge);
    FirstRead(Zeros(n), a, judge);
    SecondRead(Zeros(n), Step(f, a, judge), b, judge);
  }

  lemma RunOfTwo(f: Flow, a: Turn, b: Turn, judge: Judge)
    requires f.status.Running? && Ready(f.dir)
    ensures var g := Step(f, a, judge);
      && Run(f, [a] + [b], judge) == Step(g, b, judge)
      && (Intact(f, [a] + [b], judge) <==> HeaderIntact(f.dir, a) && (g.status.Running? ==> HeaderIntact(g.dir, b)))
  {
    assert [] + [a] == [a];
    IntactSnoc(f, [], a, judge);
    IntactSnoc(f, [a], b, judge);
  }

  lemma FirstRead(mem: seq<byte>, a: Turn, judge: Judge)
    requires mem == Zeros(|mem|) && |mem| >= 16 && a.read == Arrives([0])
    ensures Step(Start(mem), a, judge) == Flow(Dir(Header, 4, mem, 1), Running, [0], [], [])
  {
    assert Splice(mem, 0, [0]) == mem;
  }

  lemma SecondRead(mem: seq<byte>, f: Flow, b: Turn, judge: Judge)
    requires mem == Zeros(|mem|) && |mem| >= 16 && b.read == Arrives([0, 0, 1])
    requires f == Flow(Dir(Header, 4, mem, 1), Running, [0], [], [])
    ensures !HeaderIntact(f.dir, b)
    ensures var g := Step(f, b, judge);
      && g == Flow(Dir(Body, 260, g.dir.mem, 4), Running, [0, 0, 0, 1], [], [])
      && |g.dir.mem| == |mem| && g.dir.mem[..4] == [0, 0, 0, 1]
  {
    var word := After(f.dir, b);
    assert word[0] == 0 && word[1] == 0 && word[2] == 0 && word[3] == 1 && word[4] == 0;
    assert Decoded(f.dir, b) == [0, 0, 1, 0];
    assert Sent(f.dir, b) == [0, 0, 0, 1];
    assert BigEndian32([0, 0, 1, 0]) == 256 && BigEndian32([0, 0, 0, 1]) == 1;
    HeaderDecoded(f, b, judge);
    assert Step(f, b, judge).received == [0, 0, 0, 1];
  }

  // 170 and 255 zeros.
  function LongBody(): (body: seq<byte>)
    ensures |body| == 256
  {
    [170] + Zeros(255)
  }

  // In a ring with room for the length it made up, the relay forwards the wrong frame: the stream's
  // first one is 0, 0, 0, 1, 170, but it goes out with 255 bytes more.
  lemma SplitHeaderForwardsAWrongFrame(judge: Judge)
    ensures var turns := CutHeader() + [Turn(Arrives(LongBody()), true, [Accepts(260)])];
      var f, wrong := Run(Start(Zeros(300)), turns, judge), [0, 0, 0, 1] + LongBody();
      f.status.Running? && f.received == wrong && f.frames == [wrong] && f.delivered == wrong
    ensures var frames := Frames([0, 0, 0, 1] + LongBody(), 300); frames != [] && frames[0] == [0, 0, 0, 1, 170]
  {
    var last := Turn(Arrives(LongBody()), true, [Accepts(260)]);
    CutHeaderRun(300, judge);
    IntactSnoc(Start(Zeros(300)), CutHeader(), last, judge);
    WrongFrameGoesOut(Run(Start(Zeros(300)), CutHeader(), judge), last, judge);
    assert [0, 0, 0, 1] + LongBody() == [0, 0, 0, 1, 170] + Zeros(255);
    OneFrame(Zeros(255), 300);
  }

  lemma WrongFrameGoesOut(g: Flow, last: Turn, judge: Judge)
    requires g == Flow(Dir(Body, 260, g.dir.mem, 4), Running, [0, 0, 0, 1], [], [])
    requires |g.dir.mem| == 300 && g.dir.mem[..4] == [0, 0, 0, 1]
    requires last == Turn(Arrives(LongBody()), true, [Accepts(260)])
    ensures Ready(g.dir)
    ensures var f, wrong := Step(g, last, judge), [0, 0, 0, 1] + LongBody();
      f.status.Running? && f.received == wrong && f.frames == [wrong] && f.delivered == wrong
  {
    BodyForwarded(g, 256, LongBody(), judge);
    assert [] + ([0, 0, 0, 1] + LongBody()) == [0, 0, 0, 1] + LongBody();
  }

  lemma OneFrame(rest: seq<byte>, size: nat)
    requires size >= 5
    ensures Frames([0, 0, 0, 1, 170] + rest, size) == [[0, 0, 0, 1, 170]] + Frames(rest, size)
  {
    var s: seq<byte> := [0, 0, 0, 1, 170];
    assert s[..4] == [0, 0, 0, 1];
    FirstFrame(s, rest, size);
  }

  // In a smaller ring it finds that length too large, and gives up an admissible frame.
  lemma {:induction false} SplitHeaderLosesAFrame(turn: Turn, judge: Judge)
    ensures var f := Run(Start(Zeros(16)), CutHeader() + [turn], judge);
      && f.status == Stopped(Oversize) && f.delivered == [] && f.received == [0, 0, 0, 1] && !FramesRight(f)
      && Frames(f.received + [170], 16) == [[0, 0, 0, 1, 170]]
  {
    var g := Run(Start(Zeros(16)), CutHeader(), judge);
    CutHeaderRun(16, judge);
    IntactSnoc(Start(Zeros(16)), CutHeader(), turn, judge);
    PassOversize(g.dir, turn, judge);
    OneFrame([], 16);
    assert [0, 0, 0, 1] + [170] == [0, 0, 0, 1, 170] + [];
    assert BigEndian32([0, 0, 0, 1]) == 1;
  }

  // An empty frame is handled only in a turn that finds nothing to read: when the next bytes
  // are already there, reading none of them is taken for a close.
  lemma EmptyFrameNeedsSilence(d: Dir, turn: Turn, judge: Judge)
    requires Ready(d) && d.phase.Body? && d.count == d.remain
    ensures Pass(d, turn, judge).status == Stopped(ReadFailed) <==>
      turn.read != NothingToRead && turn.read != RecvFails(true)
    ensures Pass(d, turn, judge).status.Running? ==> Pass(d, turn, judge).frames == [d.mem[..4]]
  {
    assert Splice(d.mem, 4, [])[..4] == d.mem[..4];
  }
}
