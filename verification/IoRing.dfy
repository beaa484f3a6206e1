/** The I/O ring in place: indices and memory updated the way butil.c and smbgw.c update them. */
module IoRing {
  import opened Bytes
  import opened RingSpec

  class IoRing {
    var head: int
    var tail: int
    var count: int
    const size: int
    const data: array<byte>

    constructor (n: nat)
      requires n > 0
      ensures Valid() && fresh(data) && size == n
      ensures Value().count == 0 && Value().tail == 0 && Value().head == 0
    {
      size := n;
      data := new byte[n];
      head, tail, count := 0, 0, 0;
    }

    ghost predicate Shaped()
      reads this
    {
      head >= 0 && tail >= 0 && count >= 0 && size == data.Length
    }

    ghost function Value(): Ring
      requires Shaped()
      reads this, data
    {
      Ring(head, tail, count, data[..])
    }

    ghost predicate Valid()
      reads this, data
    {
      Shaped() && Value().Valid()
    }

    method Reset()
      requires Shaped()
      modifies this
      ensures Shaped() && Value() == old(Value()).Reset()
    {
      head, tail, count := 0, 0, 0;
    }

    // The returned pointer is an offset into data.
    method ContiguousWrite() returns (ptr: int, room: int)
      requires Shaped()
      ensures ptr == head && room == Value().WriteWindow()
      ensures Valid() ==> 0 <= room && ptr + room <= size && (room == 0 <==> count == size)
    {
      if Valid() { WriteWindowIsFree(Value()); }
      ptr := head;
      if head < tail { return ptr, tail - head; }
      if count < size { return ptr, size - head; }
      return ptr, 0;
    }

    method ContiguousRead() returns (ptr: int, avail: int)
      requires Shaped()
      ensures ptr == tail && avail == Value().ReadWindow()
      ensures Valid() ==> 0 <= avail <= count && ptr + avail <= size
    {
      if Valid() { ReadWindowIsFront(Value()); }
      ptr := tail;
      if head > tail { return ptr, head - tail; }
      if count > 0 { return ptr, size - tail; }
      return ptr, 0;
    }

    // n bytes were stored at the write pointer.
    method Commit(n: int)
      requires Shaped() && n >= 0
      modifies this
      ensures Shaped() && Value() == old(Value()).Committed(n)
    {
      count := count + n;
      head := head + n;
      if head >= size { head := 0; }
    }

    // n bytes were taken from the read pointer; an emptied ring starts over.
    method Consume(n: int)
      requires Shaped() && 0 <= n <= count
      modifies this
      ensures Shaped() && Value() == old(Value()).Consumed(n)
    {
      count := count - n;
      tail := tail + n;
      if tail >= size { tail := 0; }
      if count == 0 { Reset(); }
    }

    // Lays the queue out from the start of the memory. A wrapped ring is rotated in
    // place, four bytes and then one byte at a time, unless scratch memory is given.
    method Normalize(temp: array?<byte>)
      requires Valid()
      requires temp != null ==> temp != data && temp.Length >= head
      modifies this, data
      modifies if temp != null then {temp} else {}
      ensures Shaped()
      ensures Value() == if temp != null then old(Value()).NormalizedVia() else old(Value()).Normalized()
    {
      if tail == 0 { return; }
      if count == 0 {
        tail, head := 0, 0;
        return;
      }
      if tail < head {
        Memmove(data, 0, tail, count);
        tail, head := 0, count;
        return;
      }
      if temp != null {
        JoinWith(temp);
      } else {
        RotateInPlace();
      }
    }

    // The part of a wrapped ring before head goes through the scratch memory.
    method JoinWith(temp: array<byte>)
      requires Valid() && 0 < count && 0 < tail && head <= tail
      requires temp != data && temp.Length >= head
      modifies this, data, temp
      ensures Shaped() && Value() == old(Value()).NormalizedVia()
    {
      JoinThrough(data, temp, head, tail);
      tail, head := 0, count;
    }

    method RotateInPlace()
      requires Valid() && 0 < count && 0 < tail && head <= tail
      modifies this, data
      ensures Shaped() && Value() == old(Value()).Normalized()
    {
      ghost var was, k := data[..], tail;
      RotateFours(was);
      RotateOnes(was, k - tail);
    }

    // head follows the rotation down, around the end of the memory.
    ghost predicate Follows(now: int, start: int, moved: int)
    {
      0 <= now < size && (now == start - moved || now == start - moved + size)
    }

    method RotateFours(ghost was: seq<byte>)
      requires Shaped() && tail < size && head < size && was == data[..]
      modifies this, data
      ensures Shaped() && tail < 4 && tail <= old(tail) && count == old(count)
      ensures Follows(head, old(head), old(tail) - tail)
      ensures data[..] == Rotate(was, old(tail) - tail)
    {
      ghost var k := 0;
      assert data[..] == Rotate(was, 0);
      while tail >= 4
        invariant 0 <= tail && k == old(tail) - tail >= 0 && count == old(count)
        invariant Follows(head, old(head), k)
        invariant data[..] == Rotate(was, k)
      {
        RotateRotate(was, k, 4);
        RotateFour(data);
        tail, k := tail - 4, k + 4;
        head := head - 4;
        if head < 0 { head := head + size; }
      }
    }

    method RotateOnes(ghost was: seq<byte>, ghost done: nat)
      requires Shaped() && done + tail < size == |was| && head < size
      requires data[..] == Rotate(was, done)
      modifies this, data
      ensures Shaped() && tail == 0 && count == old(count)
      ensures Follows(head, old(head), old(tail))
      ensures data[..] == Rotate(was, done + old(tail))
    {
      ghost var k := 0;
      while tail > 0
        invariant 0 <= tail && k == old(tail) - tail >= 0 && count == old(count)
        invariant Follows(head, old(head), k)
        invariant data[..] == Rotate(was, done + k)
      {
        RotateRotate(was, done + k, 1);
        RotateOne(data);
        tail, k := tail - 1, k + 1;
        head := head - 1;
        if head < 0 { head := head + size; }
      }
    }
  }

  // The three copies through scratch memory that join a wrapped queue.
  method JoinThrough(a: array<byte>, temp: array<byte>, head: nat, tail: nat)
    requires a != temp && head <= tail <= a.Length && head <= temp.Length
    modifies a, temp
    ensures a[..] == Joined(old(a[..]), head, tail)
  {
    ghost var was := a[..];
    Memcpy(temp, 0, a, 0, head);
    ghost var saved := temp[..][0..head];
    assert saved == was[..head];
    Memmove(a, 0, tail, a.Length - tail);
    ghost var mid := a[..];
    Memcpy(a, a.Length - tail, temp, 0, head);
    JoinedParts(was, head, tail, mid, saved, a[..]);
  }

  function Joined(s: seq<byte>, head: nat, tail: nat): seq<byte>
    requires head <= tail <= |s|
  {
    s[tail..] + s[..head] + s[|s| - tail + head..]
  }

  lemma JoinedParts(was: seq<byte>, head: nat, tail: nat, mid: seq<byte>, saved: seq<byte>, end: seq<byte>)
    requires head <= tail <= |was|
    requires mid == Splice(was, 0, was[tail..|was|])
    requires saved == was[..head] && end == Splice(mid, |was| - tail, saved)
    ensures end == Joined(was, head, tail)
  {
    assert mid[..|was| - tail] == was[tail..];
    assert mid[|was| - tail + head..] == was[|was| - tail + head..];
  }

  method RotateFour(a: array<byte>)
    requires a.Length >= 4
    modifies a
    ensures a[..] == Rotate(old(a[..]), 4)
  {
    ghost var was := a[..];
    var n := a.Length - 4;
    var m0, m1, m2, m3 := a[0], a[1], a[2], a[3];
    Memmove(a, 0, 4, n);
    assert a[..n] == a[..][..n] == was[4..];
    a[n], a[n + 1], a[n + 2], a[n + 3] := m0, m1, m2, m3;
    assert a[..] == a[..n] + a[n..];
    assert a[n..] == was[..4];
  }

  method RotateOne(a: array<byte>)
    requires a.Length >= 1
    modifies a
    ensures a[..] == Rotate(old(a[..]), 1)
  {
    var m0 := a[0];
    Memmove(a, 0, 1, a.Length - 1);
    a[a.Length - 1] := m0;
  }

  lemma RotateRotate(s: seq<byte>, j: nat, k: nat)
    requires j + k <= |s|
    ensures Rotate(Rotate(s, j), k) == Rotate(s, j + k)
  {
    assert Rotate(s, j)[k..] == s[j + k..] + s[..j];
    assert Rotate(s, j)[..k] == s[j..j + k];
    assert s[..j] + s[j..j + k] == s[..j + k];
  }
}
