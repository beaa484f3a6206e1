/** The relay with the SMB2 walker as its inspection. */
module Inspected {
  import opened Bytes
  import opened RelaySpec
  import opened Framing
  import opened Progress
  import Smb2
  import Tcp

  // What the packet's own bytes settle.
  function Own(): Rule {
    pkt => Smb2.OwnVerdict(pkt)
  }

  // The frame's packet is too short for SMB2, or the walk along its headers stays inside it, or its
  // bytes settle the walk and the ring has room for one more header behind it.
  predicate SelfContained(frame: seq<byte>, size: nat) {
    var pkt := Payload(frame);
    && (pkt == [] || pkt[0] != 0xFF)
    && (|| |pkt| < Smb2.HEADER_SIZE
        || Smb2.WalkFrom(pkt, 0).end != Smb2.OffTheEnd
        || (Smb2.Fate(pkt, 0) != Smb2.OffTheEnd && |frame| + Smb2.HEADER_SIZE <= size))
  }

  // On such frames inspection needs nothing but the frame.
  lemma SelfContainedObeys(frame: seq<byte>, size: nat, inspector: Smb2.Inspector)
    requires SelfContained(frame, size)
    ensures Obeys(Smb2.Inspection(inspector), Own(), frame, size)
  {
    forall mem | Holds(mem, frame, size)
      ensures Smb2.Inspection(inspector)(mem[4..], |frame| - 4) == Own()(Payload(frame))
    {
      assert frame[4..] <= mem[4..];
      Smb2.InspectionIsLocal(frame[4..], mem[4..], inspector);
    }
  }

  // On a frame whose packet leaves the walk open inspection obeys no rule: in a ring that is large
  // enough, what is left over behind the frame decides.
  lemma OpenObeysNoRule(frame: seq<byte>, inspector: Smb2.Inspector, rule: Rule) returns (size: nat)
    requires |Payload(frame)| >= Smb2.HEADER_SIZE && Payload(frame)[0] != 0xFF
    requires Smb2.Fate(Payload(frame), 0) == Smb2.OffTheEnd
    ensures size >= |frame| + Smb2.HEADER_SIZE && !Obeys(Smb2.Inspection(inspector), rule, frame, size)
  {
    var judge, n := Smb2.Inspection(inspector), |frame| - 4;
    var mem, mem' := Smb2.OpenWalk(frame[4..], 0);
    size := |mem| + 4;
    var ring, ring' := frame[..4] + mem, frame[..4] + mem';
    assert ring[4..] == mem && ring'[4..] == mem';
    assert Holds(ring, frame, size) && Holds(ring', frame, size) by {
      assert frame == frame[..4] + frame[4..];
    }
    assert mem[0] == frame[4..][0] && mem'[0] == frame[4..][0];
    assert judge(ring[4..], n) && !judge(ring'[4..], n);
  }

  // So an SMB2 frame is judged by itself, in every ring with room for one more header behind it, if
  // and only if its bytes settle the walk.
  lemma {:induction false} ObeysExactlyWhenSettled(frame: seq<byte>, inspector: Smb2.Inspector)
    requires |Payload(frame)| >= Smb2.HEADER_SIZE && Payload(frame)[0] != 0xFF
    ensures Smb2.Fate(Payload(frame), 0) != Smb2.OffTheEnd <==>
      forall size: nat :: size >= |frame| + Smb2.HEADER_SIZE ==> Obeys(Smb2.Inspection(inspector), Own(), frame, size)
  {
    if Smb2.Fate(Payload(frame), 0) != Smb2.OffTheEnd {
      forall size: nat | size >= |frame| + Smb2.HEADER_SIZE
        ensures Obeys(Smb2.Inspection(inspector), Own(), frame, size)
      {
        SelfContainedObeys(frame, size, inspector);
      }
    } else {
      var size := OpenObeysNoRule(frame, inspector, Own());
    }
  }

  predicate AllSelfContained(frames: seq<seq<byte>>, size: nat) {
    forall i :: 0 <= i < |frames| ==> SelfContained(frames[i], size)
  }

  lemma {:induction false} SelfContainedStream(frames: seq<seq<byte>>, size: nat, inspector: Smb2.Inspector)
    requires AllSelfContained(frames, size)
    ensures ObeysUpTo(Smb2.Inspection(inspector), Own(), frames, size)
  {
    if frames != [] {
      SelfContainedObeys(frames[0], size, inspector);
      SelfContainedStream(frames[1..], size, inspector);
    }
  }

  // So for a stream of such frames what an inspecting relay delivers is a function of the stream.
  lemma SelfContainedRun(mem: seq<byte>, turns: seq<Turn>, inspector: Smb2.Inspector, judge: Judge)
    requires judge == Smb2.Inspection(inspector)
    requires |mem| >= 7 && Intact(Start(mem), turns, judge)
    requires Inspecting(turns) && Settled(Run(Start(mem), turns, judge))
    requires AllSelfContained(Frames(Run(Start(mem), turns, judge).received, |mem|), |mem|)
    ensures var f := Run(Start(mem), turns, judge);
      f.frames == UpToRefusal(Frames(f.received, |mem|), Own()) && f.delivered == Flatten(f.frames)
  {
    SelfContainedStream(Frames(Run(Start(mem), turns, judge).received, |mem|), |mem|, inspector);
    InspectedRun(mem, turns, judge, Own());
  }

  // A frame whose payload is an SMB2 packet laid out as it should be, with every magic good.
  predicate CompoundFrame(frame: seq<byte>, size: nat) {
    && WholeFrame(frame, size)
    && Smb2.Contained(frame[4..], 0)
    && Smb2.AllGood(frame[4..], Smb2.Chain(frame[4..], 0))
  }

  lemma CompoundFrameAccepted(frame: seq<byte>, size: nat)
    requires CompoundFrame(frame, size)
    ensures SelfContained(frame, size) && Own()(Payload(frame))
  {
    var pkt := frame[4..];
    assert Smb2.GoodMagic(pkt, Smb2.Chain(pkt, 0)[0]);
    Smb2.MagicBytes(pkt, 0);
    Smb2.WalkFollowsChain(pkt, 0);
    Smb2.InsideIsSettled(pkt, 0);
  }

  lemma {:induction false} CompoundFramesAccepted(frames: seq<seq<byte>>, size: nat)
    requires forall i :: 0 <= i < |frames| ==> CompoundFrame(frames[i], size)
    ensures UpToRefusal(frames, Own()) == frames
    ensures AllSelfContained(frames, size)
  {
    if frames != [] {
      CompoundFrameAccepted(frames[0], size);
      CompoundFramesAccepted(frames[1..], size);
      assert frames == [frames[0]] + frames[1..];
    }
  }

  // Well-formed SMB2 traffic goes through the inspecting relay unchanged, however it is cut
  // into reads and whatever was left over in the ring.
  lemma {:induction false} CompoundStreamPasses(frames: seq<seq<byte>>, mem: seq<byte>, turns: seq<Turn>, inspector: Smb2.Inspector, judge: Judge)
    requires judge == Smb2.Inspection(inspector)
    requires |mem| >= 7 && Intact(Start(mem), turns, judge)
    requires Inspecting(turns) && Settled(Run(Start(mem), turns, judge))
    requires forall i :: 0 <= i < |frames| ==> CompoundFrame(frames[i], |mem|)
    requires Run(Start(mem), turns, judge).received == Flatten(frames)
    ensures var f := Run(Start(mem), turns, judge); f.frames == frames && f.delivered == f.received
  {
    CompoundFramesAccepted(frames, |mem|);
    assert Flatten(frames) + [] == Flatten(frames) && frames + [] == frames;
    FramesOfFlattened(frames, [], |mem|);
    SelfContainedRun(mem, turns, inspector, judge);
  }

  lemma CompoundFrameWelcome(frame: seq<byte>, size: nat, inspector: Smb2.Inspector)
    requires CompoundFrame(frame, size)
    ensures Welcome(Smb2.Inspection(inspector), frame, size)
  {
    CompoundFrameAccepted(frame, size);
    SelfContainedObeys(frame, size, inspector);
  }

  // And it does go through, as long as the network is up: nothing but a bad header, a refusal by the
  // network or a close can stop it.
  lemma {:induction false} CompoundStreamGoesThrough(frames: seq<seq<byte>>, mem: seq<byte>, turns: seq<Turn>, inspector: Smb2.Inspector, judge: Judge)
    requires judge == Smb2.Inspection(inspector)
    requires |mem| >= 7 && Intact(Start(mem), turns, judge)
    requires forall i :: 0 <= i < |frames| ==> DirectFrame(frames[i], |mem|) && CompoundFrame(frames[i], |mem|)
    requires forall i :: 0 <= i < |turns| ==> Healthy(turns[i], |mem|)
    requires Run(Start(mem), turns, judge).received == Flatten(frames)
    ensures var f := Run(Start(mem), turns, judge);
      f.status.Running? && f.frames == frames && f.delivered == Flatten(frames)
  {
    forall i | 0 <= i < |frames| ensures Welcome(judge, frames[i], |mem|) {
      CompoundFrameWelcome(frames[i], |mem|, inspector);
    }
    StreamGoesThrough(frames, mem, turns, judge);
  }

  // A frame that is completed with a packet of version 1, which starts with 0xFF, goes out if and only
  // if the version 1 walk accepts it over the ring behind the header; otherwise it ends the run.
  lemma Version1Decides(d: Dir, turn: Turn, got: seq<byte>, inspector: Smb2.Inspector)
    requires Ready(d) && d.phase.Body? && d.count + |got| == d.remain <= |d.mem| && 4 < d.remain
    requires turn.read == Tcp.Arrives(got) && got != [] && !turn.passthrough && Tcp.Capacity(turn.sends) >= d.remain
    requires Splice(d.mem, d.count, got)[4] == 0xFF
    ensures var o := Pass(d, turn, Smb2.Inspection(inspector)); var mem := Splice(d.mem, d.count, got);
      if inspector.v1(mem[4..], d.remain - 4) then o.status.Running? && o.delivered == mem[..d.remain]
      else o.status == Stopped(Rejected) && o.delivered == []
  {
    Tcp.WriteLoopMeaning(turn.sends, 0, d.remain);
    assert Splice(d.mem, d.count, got)[4..][0] == 0xFF;
  }

  // Other frames may not: one frame of 68 bytes over two contents of a ring of 132 bytes, and two
  // runs over the same stream, one that delivers it and one that refuses it.
  lemma LeftoverDecidesSmb2(inspector: Smb2.Inspector) returns (frame: seq<byte>, mem: seq<byte>, mem': seq<byte>, turns: seq<Turn>)
    ensures |mem| == |mem'| == 132 && |frame| == 68
    ensures var judge := Smb2.Inspection(inspector); var f, g := Run(Start(mem), turns, judge), Run(Start(mem'), turns, judge);
      && Inspecting(turns) && Intact(Start(mem), turns, judge) && Intact(Start(mem'), turns, judge)
      && f.received == g.received == frame && f.delivered == frame && g.delivered == []
  {
    var pkt, head: seq<byte>, zeros := Smb2.Dangling(), [0, 0, 0, 64], seq(64, _ => 0 as byte);
    frame, mem, mem' := head + pkt, head + (pkt + Smb2.LastHeader()), head + (pkt + zeros);
    assert mem[4..] == pkt + Smb2.LastHeader() && mem'[4..] == pkt + zeros;
    assert frame[..4] == head && frame[4..] == pkt;
    Smb2.LeftoverVerdicts();
    Smb2.FirstLeadsTo64(pkt + Smb2.LastHeader());
    Smb2.FirstLeadsTo64(pkt + zeros);
    Smb2.MagicBytes(pkt + Smb2.LastHeader(), 0);
    Smb2.MagicBytes(pkt + zeros, 0);
    turns := LeftoverDecides(mem, mem', frame, Smb2.Inspection(inspector));
  }

  // An inspecting relay never lets an empty frame through.
  lemma EmptyFrameRefused(d: Dir, turn: Turn, inspector: Smb2.Inspector)
    requires Ready(d) && d.phase.Body? && d.count == d.remain && !turn.passthrough
    ensures Pass(d, turn, Smb2.Inspection(inspector)).status.Stopped?
    ensures Pass(d, turn, Smb2.Inspection(inspector)).delivered == []
  {
  }
}
