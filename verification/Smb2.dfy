/** Packet inspection: the walk along the headers of an SMB2 compound packet. */
module Smb2 {
  import opened Bytes

  const HEADER_SIZE := 64

  // 0xFE 'S' 'M' 'B'
  const MAGIC: seq<byte> := [0xFE, 0x53, 0x4D, 0x42]

  datatype Verdict = Accepted | Refused | OffTheEnd

  // One header handed to smbproto_handle_v2_command: where it is, the command as narrowed to
  // 8 bits, and the byte_count passed along.
  datatype Visit = Visit(offset: nat, command: byte, byteCount: nat)

  predicate Fits(mem: seq<byte>, off: nat) {
    off + HEADER_SIZE <= |mem|
  }

  function NextCommand(mem: seq<byte>, off: nat): (n: nat)
    requires Fits(mem, off)
  {
    LittleEndian32(mem[off + 20..off + 24])
  }

  function Command(mem: seq<byte>, off: nat): (c: nat)
    requires Fits(mem, off)
    ensures c < 0x10000
  {
    mem[off + 13] as nat * 0x100 + mem[off + 12]
  }

  predicate GoodMagic(mem: seq<byte>, off: nat)
    requires Fits(mem, off)
  {
    mem[off..off + 4] == MAGIC
  }

  // The offset of the next header is a little-endian word at byte 20 of a header.
  lemma NextIsAt20(mem: seq<byte>, off: nat)
    requires off + 64 <= |mem|
    ensures NextCommand(mem, off) ==
      ((mem[off + 23] as nat * 0x100 + mem[off + 22]) * 0x100 + mem[off + 21]) * 0x100 + mem[off + 20]
  {
  }

  // byte_count is a uint32_t: it wraps below zero.
  function Counted(bytes: nat, visits: nat): (c: nat)
    ensures c < 0x1_0000_0000
  {
    (bytes - HEADER_SIZE * visits) % 0x1_0000_0000
  }

  lemma CountedMore(bytes: nat, visits: nat)
    ensures (Counted(bytes, visits) - HEADER_SIZE) % 0x1_0000_0000 == Counted(bytes, visits + 1)
  {
  }

  // The offsets of the headers visited from `off` on, and how the walk ends. The code does not
  // check that a header lies inside the packet; OffTheEnd is a walk that leaves the memory given.
  datatype Walk = Walk(offsets: seq<nat>, end: Verdict)

  function WalkFrom(mem: seq<byte>, off: nat): Walk
    decreases |mem| - off
  {
    if !Fits(mem, off) then Walk([], OffTheEnd)
    else if !GoodMagic(mem, off) then Walk([], Refused)
    else if NextCommand(mem, off) == 0 then Walk([off], Accepted)
    else
      var rest := WalkFrom(mem, off + NextCommand(mem, off));
      Walk([off] + rest.offsets, rest.end)
  }

  // What the caller sees visited: header k carries the command at its byte 12, and the count
  // left after k + 1 headers.
  predicate VisitsOf(visits: seq<Visit>, mem: seq<byte>, bytes: nat, offsets: seq<nat>) {
    && |visits| == |offsets|
    && forall k :: 0 <= k < |visits| ==>
         && Fits(mem, offsets[k])
         && visits[k] == Visit(offsets[k], mem[offsets[k] + 12], Counted(bytes, k + 1))
  }

  // The command of a header is 16 bits wide at its byte 12, and the handler takes 8: it is told the
  // command if and only if that is below 256, and otherwise the remainder.
  lemma CommandIsNarrowed(visits: seq<Visit>, mem: seq<byte>, bytes: nat, offsets: seq<nat>, k: nat)
    requires VisitsOf(visits, mem, bytes, offsets) && k < |visits|
    ensures Fits(mem, visits[k].offset)
    ensures var command := Command(mem, visits[k].offset);
      && visits[k].command == command % 0x100
      && (visits[k].command == command <==> command < 0x100)
  {
    assert Fits(mem, offsets[k]);
  }

  // smbproto_v2_packet over the memory at pkt, of which the packet is the first `bytes`.
  method V2Packet(mem: seq<byte>, bytes: nat) returns (verdict: Verdict, visits: seq<Visit>)
    requires bytes <= |mem| && bytes < 0x8000_0000
    ensures bytes < HEADER_SIZE ==> verdict == Refused && visits == []
    ensures bytes >= HEADER_SIZE ==> verdict == WalkFrom(mem, 0).end
    ensures bytes >= HEADER_SIZE ==> VisitsOf(visits, mem, bytes, WalkFrom(mem, 0).offsets)
  {
    visits := [];
    if bytes < HEADER_SIZE { return Refused, []; }
    var byteCount, at := bytes, 0;
    ghost var offsets: seq<nat> := [];
    while true
      invariant VisitsOf(visits, mem, bytes, offsets)
      invariant byteCount == Counted(bytes, |visits|)
      invariant WalkFrom(mem, 0) == Behind(offsets, WalkFrom(mem, at))
      decreases |mem| - at
    {
      if !Fits(mem, at) { return OffTheEnd, visits; }
      var good := HasMagic(mem, at);
      if !good { return Refused, visits; }
      BehindSnoc(offsets, mem, at);
      visits, byteCount := VisitHeader(mem, at, byteCount, visits, bytes, offsets);
      offsets := offsets + [at];
      var next := NextCommand(mem, at);
      if next == 0 { return Accepted, visits; }
      at := at + next;
    }
  }

  method HasMagic(mem: seq<byte>, at: nat) returns (good: bool)
    requires Fits(mem, at)
    ensures good == GoodMagic(mem, at)
  {
    MagicBytes(mem, at);
    return !(mem[at] != 0xFE || mem[at + 1] != 0x53 || mem[at + 2] != 0x4D || mem[at + 3] != 0x42);
  }

  // The header at `at` is counted off and handed to the command handler.
  method VisitHeader(mem: seq<byte>, at: nat, before: nat, seen: seq<Visit>, ghost bytes: nat, ghost offsets: seq<nat>)
    returns (visits: seq<Visit>, byteCount: nat)
    requires Fits(mem, at) && VisitsOf(seen, mem, bytes, offsets) && before == Counted(bytes, |seen|)
    ensures VisitsOf(visits, mem, bytes, offsets + [at])
    ensures |visits| == |seen| + 1 && byteCount == Counted(bytes, |visits|)
  {
    byteCount := (before - HEADER_SIZE) % 0x1_0000_0000;
    visits := seen + [Visit(at, mem[at + 12], byteCount)];
    CountedMore(bytes, |seen|);
    assert visits[..|seen|] == seen;
    VisitsSnoc(visits, mem, bytes, offsets, at);
  }

  // A walk that has the given offsets behind it.
  function Behind(offsets: seq<nat>, rest: Walk): Walk {
    Walk(offsets + rest.offsets, rest.end)
  }

  lemma BehindSnoc(offsets: seq<nat>, mem: seq<byte>, at: nat)
    requires Fits(mem, at) && GoodMagic(mem, at)
    ensures Behind(offsets, WalkFrom(mem, at)) ==
      if NextCommand(mem, at) == 0 then Walk(offsets + [at], Accepted)
      else Behind(offsets + [at], WalkFrom(mem, at + NextCommand(mem, at)))
  {
    assert forall s: seq<nat> :: offsets + ([at] + s) == (offsets + [at]) + s;
  }

  lemma MagicBytes(mem: seq<byte>, at: nat)
    requires Fits(mem, at)
    ensures GoodMagic(mem, at) <==>
      mem[at] == 0xFE && mem[at + 1] == 0x53 && mem[at + 2] == 0x4D && mem[at + 3] == 0x42
  {
    assert mem[at..at + 4] == [mem[at], mem[at + 1], mem[at + 2], mem[at + 3]];
  }

  lemma VisitsSnoc(visits: seq<Visit>, mem: seq<byte>, bytes: nat, offsets: seq<nat>, at: nat)
    requires |visits| > 0 && VisitsOf(visits[..|visits| - 1], mem, bytes, offsets)
    requires Fits(mem, at)
    requires visits[|visits| - 1] == Visit(at, mem[at + 12], Counted(bytes, |visits|))
    ensures VisitsOf(visits, mem, bytes, offsets + [at])
  {
    assert forall k :: 0 <= k < |visits| - 1 ==> visits[k] == visits[..|visits| - 1][k];
  }

  // ---- Compound packets that are laid out as they should be ----

  // Every header of the chain from `off` is inside the packet, and the next one starts no
  // earlier than where it ends.
  predicate Contained(pkt: seq<byte>, off: nat)
    decreases |pkt| - off
  {
    && Fits(pkt, off)
    && (NextCommand(pkt, off) != 0 ==>
          NextCommand(pkt, off) >= HEADER_SIZE && Contained(pkt, off + NextCommand(pkt, off)))
  }

  // The headers of the chain, whatever their magic.
  function Chain(pkt: seq<byte>, off: nat): (c: seq<nat>)
    ensures |c| > 0 ==> c[0] == off
    decreases |pkt| - off
  {
    if !Fits(pkt, off) then []
    else if NextCommand(pkt, off) == 0 then [off]
    else [off] + Chain(pkt, off + NextCommand(pkt, off))
  }

  predicate AllGood(pkt: seq<byte>, chain: seq<nat>) {
    forall i :: 0 <= i < |chain| ==> Fits(pkt, chain[i]) && GoodMagic(pkt, chain[i])
  }

  // The walk visits each header of the chain once, in order, up to the first bad magic, and
  // accepts the packet if and only if every magic is good.
  lemma {:induction false} WalkFollowsChain(pkt: seq<byte>, off: nat)
    requires Contained(pkt, off)
    ensures var w, c := WalkFrom(pkt, off), Chain(pkt, off);
      && w.end != OffTheEnd
      && w.offsets <= c && AllGood(pkt, w.offsets)
      && (w.end == Accepted <==> AllGood(pkt, c))
      && (w.end == Accepted ==> w.offsets == c)
      && (w.end == Refused ==> |w.offsets| < |c| && Fits(pkt, c[|w.offsets|]) && !GoodMagic(pkt, c[|w.offsets|]))
    decreases |pkt| - off
  {
    if NextCommand(pkt, off) != 0 {
      var next := off + NextCommand(pkt, off);
      WalkFollowsChain(pkt, next);
      var c := Chain(pkt, off);
      assert c[1..] == Chain(pkt, next);
      assert AllGood(pkt, c) <==> GoodMagic(pkt, off) && AllGood(pkt, c[1..]) by {
        assert forall i :: 0 <= i < |c[1..]| ==> c[1..][i] == c[i + 1];
        assert forall i :: 1 <= i < |c| ==> c[i] == c[1..][i - 1];
      }
    } else {
      assert Chain(pkt, off) == [off];
    }
  }

  // Headers are 64 bytes apart at least, so the k-th one starts at 64 k or later and there are
  // no more of them than fit.
  lemma {:induction false} WalkSpread(pkt: seq<byte>, off: nat)
    requires Contained(pkt, off)
    ensures var w := WalkFrom(pkt, off).offsets;
      && off + HEADER_SIZE * |w| <= |pkt|
      && forall k :: 0 <= k < |w| ==> w[k] >= off + HEADER_SIZE * k && Fits(pkt, w[k])
    decreases |pkt| - off
  {
    if GoodMagic(pkt, off) && NextCommand(pkt, off) != 0 {
      var next := off + NextCommand(pkt, off);
      WalkSpread(pkt, next);
      var w := WalkFrom(pkt, off).offsets;
      forall k | 0 <= k < |w| ensures w[k] >= off + HEADER_SIZE * k && Fits(pkt, w[k]) {
        if k > 0 { assert w[k] == WalkFrom(pkt, next).offsets[k - 1]; }
      }
    }
  }

  // ---- The count handed along ----

  // How often byte_count has gone below zero after that many headers.
  function Wraps(bytes: nat, visits: nat): (w: nat)
    ensures w == 0 <==> HEADER_SIZE * visits <= bytes
  {
    if HEADER_SIZE * visits <= bytes then 0 else (HEADER_SIZE * visits - bytes + 0xFFFF_FFFF) / 0x1_0000_0000
  }

  lemma CountedIs(bytes: nat, visits: nat)
    requires bytes < 0x1_0000_0000
    ensures Counted(bytes, visits) == bytes - HEADER_SIZE * visits + 0x1_0000_0000 * Wraps(bytes, visits)
  {
    Reduced(bytes - HEADER_SIZE * visits, Wraps(bytes, visits));
  }

  lemma {:induction false} Reduced(x: int, w: nat)
    requires 0 <= x + 0x1_0000_0000 * w < 0x1_0000_0000
    ensures x % 0x1_0000_0000 == x + 0x1_0000_0000 * w
    decreases w
  {
    if w > 0 { Reduced(x + 0x1_0000_0000, w - 1); }
  }

  // Over any packet, and any memory behind it, no count wraps if and only if the headers visited
  // would fit side by side.
  lemma {:induction false} ByteCountExactly(visits: seq<Visit>, mem: seq<byte>, bytes: nat, offsets: seq<nat>)
    requires bytes < 0x8000_0000 && VisitsOf(visits, mem, bytes, offsets)
    ensures (forall k :: 0 <= k < |visits| ==> visits[k].byteCount == bytes - HEADER_SIZE * (k + 1))
      <==> HEADER_SIZE * |visits| <= bytes
  {
    forall k | 0 <= k < |visits|
      ensures visits[k].byteCount == bytes - HEADER_SIZE * (k + 1) <==> HEADER_SIZE * (k + 1) <= bytes
    {
      CountedIs(bytes, k + 1);
    }
    if |visits| > 0 && HEADER_SIZE * |visits| > bytes {
      assert visits[|visits| - 1].byteCount != bytes - HEADER_SIZE * (|visits| - 1 + 1);
    }
  }

  // The count passed with header k covers what follows that header in the packet if and only if
  // the header starts at 64 k or later; it is exact if and only if it starts there. Each time the
  // count wrapped moves that place down by 2^32.
  lemma CoversWhatFollows(visits: seq<Visit>, mem: seq<byte>, bytes: nat, offsets: seq<nat>, k: nat)
    requires bytes < 0x8000_0000 && VisitsOf(visits, mem, bytes, offsets) && k < |visits|
    ensures var follows := bytes - visits[k].offset - HEADER_SIZE;
      var place := visits[k].offset + 0x1_0000_0000 * Wraps(bytes, k + 1);
      && (visits[k].byteCount >= follows <==> place >= HEADER_SIZE * k)
      && (visits[k].byteCount == follows <==> place == HEADER_SIZE * k)
  {
    CountedIs(bytes, k + 1);
  }

  // On a contained packet byte_count never wraps. It is never less than the bytes after the
  // current header, and it is exactly that many if and only if the headers so far are adjacent.
  lemma {:induction false} ByteCountBounds(pkt: seq<byte>, visits: seq<Visit>, k: nat)
    requires |pkt| < 0x8000_0000 && Contained(pkt, 0)
    requires VisitsOf(visits, pkt, |pkt|, WalkFrom(pkt, 0).offsets) && k < |visits|
    ensures |visits| <= |pkt| / HEADER_SIZE
    ensures visits[k].byteCount == |pkt| - HEADER_SIZE * (k + 1)
    ensures visits[k].byteCount >= |pkt| - visits[k].offset - HEADER_SIZE
    ensures visits[k].byteCount == |pkt| - visits[k].offset - HEADER_SIZE <==> visits[k].offset == HEADER_SIZE * k
  {
    WalkSpread(pkt, 0);
  }

  // What lies after the packet has no say in a walk that stays inside.
  lemma {:induction false} WalkIsLocal(pkt: seq<byte>, mem: seq<byte>, off: nat)
    requires pkt <= mem && WalkFrom(pkt, off).end != OffTheEnd
    ensures WalkFrom(mem, off) == WalkFrom(pkt, off)
    decreases |pkt| - off
  {
    assert pkt[off..off + 4] == mem[off..off + 4];
    assert pkt[off + 20..off + 24] == mem[off + 20..off + 24];
    if GoodMagic(pkt, off) && NextCommand(pkt, off) != 0 {
      WalkIsLocal(pkt, mem, off + NextCommand(pkt, off));
    }
  }

  // ---- What the packet's own bytes settle ----

  // A byte of the magic at `off` lies in the packet and is wrong.
  predicate MagicBroken(pkt: seq<byte>, off: nat) {
    exists i :: 0 <= i < 4 && off + i < |pkt| && pkt[off + i] != MAGIC[i]
  }

  // How the walk from `off` ends as far as the bytes of the packet alone tell; OffTheEnd if they
  // do not. The walk looks at the magic and at the 32 bits that lead on.
  function Fate(pkt: seq<byte>, off: nat): Verdict
    decreases |pkt| - off
  {
    if MagicBroken(pkt, off) then Refused
    else if off + 24 > |pkt| then OffTheEnd
    else
      var next := LittleEndian32(pkt[off + 20..off + 24]);
      if next == 0 then Accepted else Fate(pkt, off + next)
  }

  lemma {:induction false} FateHolds(pkt: seq<byte>, mem: seq<byte>, off: nat)
    requires pkt <= mem && Fate(pkt, off) != OffTheEnd && WalkFrom(mem, off).end != OffTheEnd
    ensures WalkFrom(mem, off).end == Fate(pkt, off)
    decreases |pkt| - off
  {
    MagicBytes(mem, off);
    if MagicBroken(pkt, off) {
      var i :| 0 <= i < 4 && off + i < |pkt| && pkt[off + i] != MAGIC[i];
      assert mem[off + i] != MAGIC[i];
    } else if GoodMagic(mem, off) {
      assert pkt[off + 20..off + 24] == mem[off + 20..off + 24];
      if NextCommand(mem, off) != 0 { FateHolds(pkt, mem, off + NextCommand(mem, off)); }
    }
  }

  // With room for a header behind the packet, a settled walk stays in the memory.
  lemma {:induction false} SettledStays(pkt: seq<byte>, mem: seq<byte>, off: nat)
    requires pkt <= mem && |pkt| + HEADER_SIZE <= |mem| && Fate(pkt, off) != OffTheEnd
    ensures WalkFrom(mem, off).end != OffTheEnd
    decreases |pkt| - off
  {
    assert off < |pkt| && Fits(mem, off);
    if GoodMagic(mem, off) {
      MagicBytes(mem, off);
      assert !MagicBroken(pkt, off);
      assert pkt[off + 20..off + 24] == mem[off + 20..off + 24];
      if NextCommand(mem, off) != 0 { SettledStays(pkt, mem, off + NextCommand(mem, off)); }
    }
  }

  // A walk that stays inside the packet is settled.
  lemma {:induction false} InsideIsSettled(pkt: seq<byte>, off: nat)
    requires WalkFrom(pkt, off).end != OffTheEnd
    ensures Fate(pkt, off) == WalkFrom(pkt, off).end
    decreases |pkt| - off
  {
    MagicBytes(pkt, off);
    assert GoodMagic(pkt, off) <==> !MagicBroken(pkt, off) by {
      assert !MagicBroken(pkt, off) ==>
        forall i :: 0 <= i < 4 ==> pkt[off + i] == MAGIC[i];
    }
    if GoodMagic(pkt, off) && NextCommand(pkt, off) != 0 { InsideIsSettled(pkt, off + NextCommand(pkt, off)); }
  }

  // Byte i of the packet, or zero behind it.
  function ByteAt(pkt: seq<byte>, i: nat): byte {
    if i < |pkt| then pkt[i] else 0
  }

  // Where a header at `off` whose last byte of NextCommand is 1 leads to.
  function Far(pkt: seq<byte>, off: nat): (to: nat)
    ensures to >= off + 0x100_0000
  {
    off + ByteAt(pkt, off + 20) as nat + 0x100 * ByteAt(pkt, off + 21) as nat + 0x1_0000 * ByteAt(pkt, off + 22) as nat + 0x100_0000
  }

  // The packet with memory behind it that completes its last header, leads far on, and there
  // holds a last header or none.
  function Continued(pkt: seq<byte>, off: nat, good: bool): (mem: seq<byte>)
    requires |pkt| < off + 24
    ensures pkt <= mem && |mem| == Far(pkt, off) + HEADER_SIZE
  {
    var to := Far(pkt, off);
    var mem := seq(to + HEADER_SIZE, i requires i >= 0 => ContinuedAt(pkt, off, to, good, i));
    assert forall i :: 0 <= i < |pkt| ==> mem[i] == pkt[i];
    mem
  }

  function ContinuedAt(pkt: seq<byte>, off: nat, to: nat, good: bool, i: nat): byte {
    if i < |pkt| then pkt[i]
    else if off <= i < off + 4 then MAGIC[i - off]
    else if i == off + 23 then 1
    else if good && to <= i < to + 4 then MAGIC[i - to]
    else 0
  }

  lemma ContinuedEnds(pkt: seq<byte>, off: nat, good: bool)
    requires |pkt| < off + 24 && !MagicBroken(pkt, off)
    ensures WalkFrom(Continued(pkt, off, good), off).end == if good then Accepted else Refused
  {
    var mem, to := Continued(pkt, off, good), Far(pkt, off);
    assert forall i :: 0 <= i < |mem| ==> mem[i] == ContinuedAt(pkt, off, to, good, i);
    ContinuedHead(pkt, off, good);
    MagicBytes(mem, to);
    NextIsAt20(mem, to);
  }

  // Its first header has the magic and leads on to the place of the last one.
  lemma ContinuedHead(pkt: seq<byte>, off: nat, good: bool)
    requires |pkt| < off + 24 && !MagicBroken(pkt, off)
    ensures var mem, to := Continued(pkt, off, good), Far(pkt, off);
      && off + HEADER_SIZE <= to && Fits(mem, off) && Fits(mem, to)
      && GoodMagic(mem, off) && NextCommand(mem, off) == to - off
  {
    var mem, to := Continued(pkt, off, good), Far(pkt, off);
    assert forall i :: 0 <= i < |mem| ==> mem[i] == ContinuedAt(pkt, off, to, good, i);
    MagicBytes(mem, off);
    assert forall i :: 0 <= i < 4 ==> mem[off + i] == MAGIC[i];
    NextIsAt20(mem, off);
  }

  // While the packet leaves the walk open, the memory behind it can decide either way.
  lemma {:induction false} OpenWalk(pkt: seq<byte>, off: nat) returns (mem: seq<byte>, mem': seq<byte>)
    requires Fate(pkt, off) == OffTheEnd
    ensures pkt <= mem && Fits(mem, off) && WalkFrom(mem, off).end == Accepted
    ensures pkt <= mem' && Fits(mem', off) && WalkFrom(mem', off).end == Refused
    ensures |mem| == |mem'| >= |pkt| + HEADER_SIZE
    decreases |pkt| - off
  {
    if off + 24 > |pkt| {
      mem, mem' := Continued(pkt, off, true), Continued(pkt, off, false);
      ContinuedEnds(pkt, off, true);
      ContinuedEnds(pkt, off, false);
    } else {
      var next := LittleEndian32(pkt[off + 20..off + 24]);
      mem, mem' := OpenWalk(pkt, off + next);
      StepsOn(pkt, mem, off);
      StepsOn(pkt, mem', off);
    }
  }

  lemma StepsOn(pkt: seq<byte>, mem: seq<byte>, off: nat)
    requires pkt <= mem && !MagicBroken(pkt, off) && off + 24 <= |pkt|
    requires var next := LittleEndian32(pkt[off + 20..off + 24]); next != 0 && Fits(mem, off + next)
    ensures Fits(mem, off)
    ensures WalkFrom(mem, off).end == WalkFrom(mem, off + LittleEndian32(pkt[off + 20..off + 24])).end
  {
    assert mem[off + 20..off + 24] == pkt[off + 20..off + 24];
    assert forall i :: 0 <= i < 4 ==> pkt[off + i] == MAGIC[i] == mem[off + i];
    MagicBytes(mem, off);
  }

  // The verdict on a packet is its own, whatever lies behind it, if and only if its bytes settle
  // how the walk ends: a magic that is wrong as far as it is in the packet, or a last header whose
  // NextCommand is in the packet. Walks that leave even the memory are not compared. The memories that
  // tell an open walk apart may be longer than 16 MB, because an open NextCommand may be that large.
  lemma {:induction false} VerdictIsOwnExactly(pkt: seq<byte>)
    ensures Fate(pkt, 0) != OffTheEnd <==>
      forall mem, mem' :: pkt <= mem && pkt <= mem' && WalkFrom(mem, 0).end != OffTheEnd && WalkFrom(mem', 0).end != OffTheEnd
        ==> WalkFrom(mem, 0).end == WalkFrom(mem', 0).end
  {
    if Fate(pkt, 0) != OffTheEnd {
      forall mem | pkt <= mem && WalkFrom(mem, 0).end != OffTheEnd ensures WalkFrom(mem, 0).end == Fate(pkt, 0) {
        FateHolds(pkt, mem, 0);
      }
    } else {
      var mem, mem' := OpenWalk(pkt, 0);
    }
  }

  // ---- Where the code departs from that ----

  // Two headers that overlap, the second four bytes after the first, in 68 bytes.
  function Overlapping(): (pkt: seq<byte>)
    ensures |pkt| == 68
  {
    seq(68, i =>
      if i == 0 || i == 4 then 0xFE else if i == 1 || i == 5 then 0x53
      else if i == 2 || i == 6 then 0x4D else if i == 3 || i == 7 then 0x42
      else if i == 20 then 4 else 0)
  }

  lemma OverlappingHeadersExist()
    ensures GoodMagic(Overlapping(), 0) && GoodMagic(Overlapping(), 4)
    ensures NextCommand(Overlapping(), 0) == 4 && NextCommand(Overlapping(), 4) == 0
  {
    MagicBytes(Overlapping(), 0);
    MagicBytes(Overlapping(), 4);
  }

  // Nothing stops a chain whose steps are shorter than a header: the packet is accepted and
  // byte_count wraps at the second header.
  lemma OverlappingHeadersUnderflow(pkt: seq<byte>, visits: seq<Visit>)
    requires |pkt| == 68 && GoodMagic(pkt, 0) && GoodMagic(pkt, 4)
    requires NextCommand(pkt, 0) == 4 && NextCommand(pkt, 4) == 0
    requires VisitsOf(visits, pkt, 68, WalkFrom(pkt, 0).offsets)
    ensures !Contained(pkt, 0)
    ensures WalkFrom(pkt, 0) == Walk([0, 4], Accepted)
    ensures visits[0].byteCount == 4 && visits[1].byteCount == 0x1_0000_0000 - 60
  {
    assert WalkFrom(pkt, 4) == Walk([4], Accepted);
  }

  // In a longer packet the count does not wrap, but it still misses bytes after the second header.
  lemma OverlappingHeadersMiscount(pkt: seq<byte>, visits: seq<Visit>)
    requires 128 <= |pkt| < 0x8000_0000 && GoodMagic(pkt, 0) && GoodMagic(pkt, 4)
    requires NextCommand(pkt, 0) == 4 && NextCommand(pkt, 4) == 0
    requires VisitsOf(visits, pkt, |pkt|, WalkFrom(pkt, 0).offsets)
    ensures WalkFrom(pkt, 0) == Walk([0, 4], Accepted) && visits[1].offset == 4
    ensures visits[1].byteCount == |pkt| - 128 < |pkt| - visits[1].offset - HEADER_SIZE
  {
    assert WalkFrom(pkt, 4) == Walk([4], Accepted);
    CountedIs(|pkt|, 2);
  }

  // A header alone whose successor would start right behind it.
  function Dangling(): (pkt: seq<byte>)
    ensures |pkt| == 64
  {
    seq(64, i => if i == 0 then 0xFE else if i == 1 then 0x53 else if i == 2 then 0x4D else if i == 3 then 0x42
      else if i == 20 then 64 else 0)
  }

  // A header that ends the chain.
  function LastHeader(): (pkt: seq<byte>)
    ensures |pkt| == 64
  {
    seq(64, i => if i == 0 then 0xFE else if i == 1 then 0x53 else if i == 2 then 0x4D else if i == 3 then 0x42 else 0)
  }

  // One packet, two memories, two verdicts: what an earlier packet left behind decides.
  lemma LeftoverVerdicts()
    ensures WalkFrom(Dangling() + LastHeader(), 0).end == Accepted
    ensures WalkFrom(Dangling() + seq(64, _ => 0 as byte), 0).end == Refused
    ensures WalkFrom(Dangling(), 0).end == OffTheEnd == Fate(Dangling(), 0)
  {
    var good, bad := Dangling() + LastHeader(), Dangling() + seq(64, _ => 0 as byte);
    FirstLeadsTo64(good);
    FirstLeadsTo64(bad);
    FirstLeadsTo64(Dangling());
    MagicBytes(good, 64);
    MagicBytes(bad, 64);
    assert good[84..88] == [0, 0, 0, 0];
  }

  lemma FirstLeadsTo64(mem: seq<byte>)
    requires Dangling() <= mem
    ensures Fits(mem, 0) && GoodMagic(mem, 0) && NextCommand(mem, 0) == 64
    ensures mem == Dangling() ==> Fate(mem, 0) == OffTheEnd
  {
    assert forall i :: 0 <= i < 64 ==> mem[i] == Dangling()[i];
    MagicBytes(mem, 0);
    assert mem[20..24] == [64, 0, 0, 0];
  }

  // ---- The dispatch ----

  // A verdict on the packet that is the first n bytes of the memory given.
  type Judge = (seq<byte>, nat) -> bool

  // What the model takes from outside: the version 1 walk, and what comes of an SMB2 walk that
  // leaves the memory given.
  datatype Inspector = Inspector(v1: Judge, beyond: Judge)

  // smbproto_packet as the relay uses it: an empty packet is refused, a packet that starts with
  // 0xFF is left to the version 1 walker, anything else is walked as SMB2.
  function Inspection(inspector: Inspector): (judge: Judge)
    ensures forall mem :: !judge(mem, 0)
  {
    (mem: seq<byte>, n: nat) =>
      if n < 1 || |mem| < n then false
      else if mem[0] == 0xFF then inspector.v1(mem, n)
      else if n < HEADER_SIZE then false
      else if WalkFrom(mem, 0).end == OffTheEnd then inspector.beyond(mem, n)
      else WalkFrom(mem, 0).end == Accepted
  }

  // For a packet whose chain lies inside it, inspection accepts exactly when every header of
  // the chain carries the SMB2 magic, whatever lies behind it.
  lemma InspectionOfCompound(pkt: seq<byte>, mem: seq<byte>, inspector: Inspector)
    requires Contained(pkt, 0) && pkt[0] != 0xFF && pkt <= mem
    ensures Inspection(inspector)(mem, |pkt|) <==> AllGood(pkt, Chain(pkt, 0))
  {
    WalkFollowsChain(pkt, 0);
    WalkIsLocal(pkt, mem, 0);
  }

  // Who is asked: the version 1 walk for a packet that starts with 0xFF, whatever its length, and the
  // world outside for an SMB2 walk that leaves the memory.
  lemma OthersAreAsked(mem: seq<byte>, n: nat, inspector: Inspector)
    requires 1 <= n <= |mem|
    ensures mem[0] == 0xFF ==> Inspection(inspector)(mem, n) == inspector.v1(mem, n)
    ensures mem[0] != 0xFF && n >= 64 && WalkFrom(mem, 0).end == OffTheEnd ==>
      Inspection(inspector)(mem, n) == inspector.beyond(mem, n)
    ensures mem[0] != 0xFF && n < 64 ==> !Inspection(inspector)(mem, n)
  {
  }

  // The verdict on an SMB2 packet as far as its own bytes settle it.
  function OwnVerdict(pkt: seq<byte>): bool {
    |pkt| >= HEADER_SIZE && Fate(pkt, 0) == Accepted
  }

  // A packet too short for SMB2, one whose walk stays inside, and, with room for a header behind it,
  // one whose bytes settle the walk, is judged by its own bytes alone.
  lemma {:induction false} InspectionIsLocal(pkt: seq<byte>, mem: seq<byte>, inspector: Inspector)
    requires pkt <= mem && (pkt == [] || pkt[0] != 0xFF)
    requires
      || |pkt| < HEADER_SIZE
      || WalkFrom(pkt, 0).end != OffTheEnd
      || (Fate(pkt, 0) != OffTheEnd && |pkt| + HEADER_SIZE <= |mem|)
    ensures Inspection(inspector)(mem, |pkt|) == OwnVerdict(pkt)
  {
    if |pkt| >= HEADER_SIZE {
      if WalkFrom(pkt, 0).end != OffTheEnd {
        InsideIsSettled(pkt, 0);
        WalkIsLocal(pkt, mem, 0);
      } else {
        SettledStays(pkt, mem, 0);
      }
      FateHolds(pkt, mem, 0);
    }
  }

  // smbproto_packet over the memory at pkt.
  method Packet(mem: seq<byte>, bytes: nat, inspector: Inspector) returns (accepted: bool, visits: seq<Visit>)
    requires bytes <= |mem| && bytes < 0x8000_0000
    ensures accepted == Inspection(inspector)(mem, bytes)
    ensures if bytes >= HEADER_SIZE && mem[0] != 0xFF then VisitsOf(visits, mem, bytes, WalkFrom(mem, 0).offsets)
      else visits == []
  {
    if bytes < 1 { return false, []; }
    if mem[0] == 0xFF { return inspector.v1(mem, bytes), []; }
    var verdict;
    verdict, visits := V2Packet(mem, bytes);
    accepted := if verdict == OffTheEnd then inspector.beyond(mem, bytes) else verdict == Accepted;
  }
}
