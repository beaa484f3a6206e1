/**
 The I/O ring as a value: its four indices and its memory. The class IoRing updates these in
 place and is proved equal to the functions here; the laws of the ring are lemmas about them.
 */
module RingSpec {
  import opened Bytes

  // x reduced into [0, size) by at most one subtraction.
  function Wrap(x: nat, size: nat): (r: nat)
    requires size > 0 && x < 2 * size
    ensures r == x % size
  {
    if x >= size then x - size else x
  }

  datatype Ring = Ring(head: nat, tail: nat, count: nat, data: seq<byte>) {

    function Size(): nat { |data| }

    predicate Valid() {
      && tail < Size()
      && count <= Size()
      && head == Wrap(tail + count, Size())
    }

    // The state the fast path of normalization can also leave: a full ring whose head
    // is one past the end instead of back at 0.
    predicate Sound() {
      Valid() || (tail == 0 && Size() > 0 && head == count == Size())
    }

    // The queued bytes, oldest first.
    function Contents(): (s: seq<byte>)
      requires Sound()
      ensures |s| == count
    {
      if tail + count <= Size() then data[tail..tail + count]
      else data[tail..] + data[..tail + count - Size()]
    }

    predicate Live(k: nat)
      requires Sound() && k < Size()
    {
      if tail + count <= Size() then tail <= k < tail + count
      else tail <= k || k < tail + count - Size()
    }

    // butil_ring_contiguous_write_ptr: how many bytes may be stored at data[head..].
    function WriteWindow(): int {
      if head < tail then tail - head
      else if count < Size() then Size() - head
      else 0
    }

    // butil_ring_contiguous_read_ptr: how many bytes may be taken from data[tail..].
    function ReadWindow(): int {
      if head > tail then head - tail
      else if count > 0 then Size() - tail
      else 0
    }

    // The commit after a read into the write window.
    function Committed(n: nat): Ring {
      this.(count := count + n, head := if head + n >= Size() then 0 else head + n)
    }

    // The commit after n bytes of the read window were sent; an empty ring is reset.
    function Consumed(n: nat): Ring
      requires n <= count
    {
      if count == n then Ring(0, 0, 0, data)
      else this.(count := count - n, tail := if tail + n >= Size() then 0 else tail + n)
    }

    function Reset(): Ring { Ring(0, 0, 0, data) }

    // Bytes stored at data[head..] and then committed.
    function Stored(b: seq<byte>): Ring
      requires head + |b| <= Size()
    {
      this.(data := Splice(data, head, b)).Committed(|b|)
    }

    // The result of butil_normalize_ring(ring, NULL).
    function Normalized(): Ring
      requires Valid()
    {
      if tail == 0 then this
      else if count == 0 then this.(tail := 0, head := 0)
      else if tail < head then Ring(count, 0, count, Splice(data, 0, data[tail..tail + count]))
      else Ring(Wrap(count, Size()), 0, count, Rotate(data, tail))
    }

    // The result of butil_normalize_ring(ring, temp).
    function NormalizedVia(): Ring
      requires Valid()
    {
      if tail > 0 && count > 0 && head <= tail then
        Ring(count, 0, count, data[tail..] + data[..head] + data[count..])
      else Normalized()
    }
  }

  // Normalizing keeps the queue, and lays it out from the start of the memory.
  lemma NormalizeKeepsContents(r: Ring)
    requires r.Valid()
    ensures r.Normalized().Valid() && r.Normalized().tail == 0
    ensures r.Normalized().count == r.count && r.Normalized().Size() == r.Size()
    ensures r.Normalized().Contents() == r.Contents() == r.Normalized().data[..r.count]
  {
    var n := r.Normalized();
    assert n.Contents() == n.data[..r.count];
    assert r.Contents() == n.data[..r.count];
  }

  // A ring that starts at 0 is its own normal form, and both windows are all there is: the relay
  // only ever has such rings.
  lemma StraightRing(r: Ring)
    requires r.Valid() && r.tail == 0
    ensures r.Normalized() == r && r.Contents() == r.data[..r.count]
    ensures r.ReadWindow() == r.count && r.WriteWindow() == r.Size() - r.count
    ensures r.head == if r.count == r.Size() then 0 else r.count
  {
  }

  // With a scratch buffer the queue is the same and so are tail and count; head differs
  // exactly when a wrapped ring is full, where it stays one past the end.
  lemma FastPathAgrees(r: Ring)
    requires r.Valid()
    ensures r.NormalizedVia().Sound()
    ensures r.NormalizedVia().Contents() == r.Normalized().Contents()
    ensures r.NormalizedVia().tail == r.Normalized().tail
    ensures r.NormalizedVia().count == r.Normalized().count
    ensures r.NormalizedVia().data[..r.count] == r.Normalized().data[..r.count]
    ensures r.NormalizedVia().head != r.Normalized().head <==> r.tail > 0 && r.count == r.Size()
    ensures r.NormalizedVia().head != r.Normalized().head ==>
      r.NormalizedVia().head == r.Size() && r.Normalized().head == 0
  {
    NormalizeKeepsContents(r);
    var v := r.NormalizedVia();
    assert v.Contents() == v.data[..r.count];
    assert v.data[..r.count] == r.Normalized().data[..r.count];
  }

  // What the different head costs: after a full wrapped ring went through the fast path,
  // taking n of its bytes opens no write window, while the in-place path opens one of n.
  lemma FastPathStallsAFullRing(r: Ring, n: nat)
    requires r.Valid() && r.tail > 0 && r.count == r.Size()
    requires 0 < n < r.count
    ensures r.NormalizedVia().Consumed(n).WriteWindow() == 0
    ensures r.Normalized().Consumed(n).WriteWindow() == n
  {
  }

  // The write window is free memory, and it is empty only when the ring is full.
  lemma WriteWindowIsFree(r: Ring)
    requires r.Valid()
    ensures 0 <= r.WriteWindow() <= r.Size() - r.count
    ensures r.head + r.WriteWindow() <= r.Size()
    ensures r.WriteWindow() == 0 <==> r.count == r.Size()
    ensures forall k :: r.head <= k < r.head + r.WriteWindow() ==> !r.Live(k)
    ensures r.head + r.WriteWindow() < r.Size() ==> r.Live(r.head + r.WriteWindow())
  {
  }

  // The read window is the front of the queue, and it is empty only when the ring is.
  lemma ReadWindowIsFront(r: Ring)
    requires r.Sound()
    ensures 0 <= r.ReadWindow() <= r.count
    ensures r.tail + r.ReadWindow() <= r.Size()
    ensures r.ReadWindow() == 0 <==> r.count == 0
    ensures r.data[r.tail..r.tail + r.ReadWindow()] == r.Contents()[..r.ReadWindow()]
    ensures r.tail + r.ReadWindow() < r.Size() ==> r.ReadWindow() == r.count
  {
  }

  // A ring that is emptied, by taking its last byte or by a reset, starts at 0 again.
  lemma EmptiedStartsOver(r: Ring, n: nat)
    requires r.Valid() && n <= r.count
    ensures r.Consumed(n).count == 0 <==> n == r.count
    ensures r.Consumed(n).count == 0 ==> r.Consumed(n) == Ring(0, 0, 0, r.data) == r.Reset()
    ensures r.Reset().WriteWindow() == r.Size() && r.Reset().ReadWindow() == 0
  {
  }

  lemma {:induction false} StoredAppends(r: Ring, b: seq<byte>)
    requires r.Valid() && |b| <= r.WriteWindow()
    ensures r.head + |b| <= r.Size()
    ensures r.Stored(b).Valid() && r.Stored(b).Size() == r.Size()
    ensures r.Stored(b).Contents() == r.Contents() + b
  {
    var q := r.Stored(b);
    assert q.Contents() == r.Contents() + b;
  }

  lemma ConsumedDrops(r: Ring, n: nat)
    requires r.Valid() && n <= r.ReadWindow()
    ensures n <= r.count
    ensures r.Consumed(n).Valid() && r.Consumed(n).Size() == r.Size()
    ensures r.Consumed(n).Contents() == r.Contents()[n..]
  {
    var q := r.Consumed(n);
    assert q.Contents() == r.Contents()[n..];
  }

  // One use of the ring: store bytes and commit them, take bytes, reset, or normalize.
  datatype Op = Write(b: seq<byte>) | Read(n: nat) | Clear | Normalize

  predicate Enabled(r: Ring, op: Op)
    requires r.Valid()
  {
    match op
    case Write(b) => |b| <= r.WriteWindow()
    case Read(n) => n <= r.ReadWindow()
    case _ => true
  }

  function Apply(r: Ring, op: Op): (q: Ring)
    requires r.Valid() && Enabled(r, op)
    ensures q.Valid() && q.Size() == r.Size()
  {
    WriteWindowIsFree(r);
    ReadWindowIsFront(r);
    match op
    case Write(b) => StoredAppends(r, b); r.Stored(b)
    case Read(n) => ConsumedDrops(r, n); r.Consumed(n)
    case Clear => r.Reset()
    case Normalize => NormalizeKeepsContents(r); r.Normalized()
  }

  // The bytes an operation hands to its caller.
  function Output(r: Ring, op: Op): (s: seq<byte>)
    requires r.Valid() && Enabled(r, op)
  {
    ReadWindowIsFront(r);
    match op
    case Read(n) => r.data[r.tail..r.tail + n]
    case _ => []
  }

  // The same operations on an unbounded queue of bytes.
  function QueueApply(q: seq<byte>, op: Op): seq<byte>
    requires op.Read? ==> op.n <= |q|
  {
    match op
    case Write(b) => q + b
    case Read(n) => q[n..]
    case Clear => []
    case Normalize => q
  }

  function QueueOutput(q: seq<byte>, op: Op): seq<byte>
    requires op.Read? ==> op.n <= |q|
  {
    if op.Read? then q[..op.n] else []
  }

  // A sequence of operations, each inside the window it finds.
  predicate Usable(r: Ring, ops: seq<Op>)
    requires r.Valid()
    decreases |ops|
  {
    ops != [] ==> Enabled(r, ops[0]) && Usable(Apply(r, ops[0]), ops[1..])
  }

  function Outputs(r: Ring, ops: seq<Op>): seq<byte>
    requires r.Valid() && Usable(r, ops)
    decreases |ops|
  {
    if ops == [] then [] else Output(r, ops[0]) + Outputs(Apply(r, ops[0]), ops[1..])
  }

  function Final(r: Ring, ops: seq<Op>): (q: Ring)
    requires r.Valid() && Usable(r, ops)
    ensures q.Valid()
    decreases |ops|
  {
    if ops == [] then r else Final(Apply(r, ops[0]), ops[1..])
  }

  // The queue's answer to the same operations; None when more is taken than was put in.
  datatype QueueRun = Underflow | Ran(left: seq<byte>, out: seq<byte>)

  function QueueRuns(q: seq<byte>, ops: seq<Op>): QueueRun
    decreases |ops|
  {
    if ops == [] then Ran(q, [])
    else if ops[0].Read? && ops[0].n > |q| then Underflow
    else match QueueRuns(QueueApply(q, ops[0]), ops[1..])
      case Underflow => Underflow
      case Ran(left, out) => Ran(left, QueueOutput(q, ops[0]) + out)
  }

  // The ring refines the queue: whatever is done to it within its windows, it hands out
  // and still holds exactly what the queue would.
  lemma {:induction false} RingRefinesQueue(r: Ring, ops: seq<Op>)
    requires r.Valid() && Usable(r, ops)
    ensures QueueRuns(r.Contents(), ops) == Ran(Final(r, ops).Contents(), Outputs(r, ops))
    decreases |ops|
  {
    if ops != [] {
      StepRefinesQueue(r, ops[0]);
      RingRefinesQueue(Apply(r, ops[0]), ops[1..]);
    }
  }

  lemma {:induction false} StepRefinesQueue(r: Ring, op: Op)
    requires r.Valid() && Enabled(r, op)
    ensures op.Read? ==> op.n <= r.count
    ensures Apply(r, op).Contents() == QueueApply(r.Contents(), op)
    ensures Output(r, op) == QueueOutput(r.Contents(), op)
  {
    ReadWindowIsFront(r);
    match op
    case Write(b) => WriteWindowIsFree(r); StoredAppends(r, b);
    case Read(n) =>
      ConsumedDrops(r, n);
      assert r.Contents()[..r.ReadWindow()][..n] == r.Contents()[..n];
      assert r.data[r.tail..r.tail + r.ReadWindow()][..n] == r.data[r.tail..r.tail + n];
    case Clear =>
    case Normalize => NormalizeKeepsContents(r);
  }

  // All the bytes that were put in, in order.
  function Inputs(ops: seq<Op>): seq<byte> {
    if ops == [] then [] else (if ops[0].Write? then ops[0].b else []) + Inputs(ops[1..])
  }

  // First in, first out: unless the ring is cleared, what came out followed by what is
  // still held is what was held at first followed by what was put in.
  lemma {:induction false} FirstInFirstOut(r: Ring, ops: seq<Op>)
    requires r.Valid() && Usable(r, ops)
    requires Clear !in ops
    ensures Outputs(r, ops) + Final(r, ops).Contents() == r.Contents() + Inputs(ops)
  {
    RingRefinesQueue(r, ops);
    QueueConserves(r.Contents(), ops);
  }

  lemma {:induction false} QueueConserves(q: seq<byte>, ops: seq<Op>)
    requires QueueRuns(q, ops).Ran? && Clear !in ops
    ensures QueueRuns(q, ops).out + QueueRuns(q, ops).left == q + Inputs(ops)
    decreases |ops|
  {
    if ops != [] {
      var next := QueueApply(q, ops[0]);
      QueueConserves(next, ops[1..]);
      Carry(QueueOutput(q, ops[0]), next, q, if ops[0].Write? then ops[0].b else [],
            QueueRuns(next, ops[1..]).out, QueueRuns(next, ops[1..]).left, Inputs(ops[1..]));
    }
  }

  // Bytes carried over one step, and over the rest, are carried over both.
  lemma Carry(out: seq<byte>, mid: seq<byte>, start: seq<byte>, put: seq<byte>,
              outs: seq<byte>, end: seq<byte>, puts: seq<byte>)
    requires out + mid == start + put
    requires outs + end == mid + puts
    ensures (out + outs) + end == start + (put + puts)
  {
    assert (out + outs) + end == out + (outs + end) == (out + mid) + puts;
    assert (start + put) + puts == start + (put + puts);
  }
}
