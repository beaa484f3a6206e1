/** Octets, and the few operations on memory regions that the other modules share. */
module Bytes {

  type byte = x: int | 0 <= x < 256

  // The four octets of a header read in network order: what memcpy followed by ntohl yields.
  function BigEndian32(s: seq<byte>): (v: nat)
    requires |s| == 4
    ensures v < 0x1_0000_0000
  {
    s[0] as int * 0x1000000 + s[1] as int * 0x10000 + s[2] as int * 0x100 + s[3]
  }

  // A 32-bit field copied out of a packet on a little-endian host.
  function LittleEndian32(s: seq<byte>): (v: nat)
    requires |s| == 4
    ensures v < 0x1_0000_0000
  {
    s[3] as int * 0x1000000 + s[2] as int * 0x10000 + s[1] as int * 0x100 + s[0]
  }

  lemma BigEndian32Injective(s: seq<byte>, t: seq<byte>)
    requires |s| == |t| == 4
    requires BigEndian32(s) == BigEndian32(t)
    ensures s == t
  {
    assert s[0] == t[0] && s[1] == t[1] && s[2] == t[2] && s[3] == t[3];
  }

  // The region s with the bytes at `at` replaced by b.
  function Splice(s: seq<byte>, at: nat, b: seq<byte>): (r: seq<byte>)
    requires at + |b| <= |s|
    ensures |r| == |s|
  {
    s[..at] + b + s[at + |b|..]
  }

  // Writing on where a text at the start of the region ends makes it longer.
  lemma SpliceAppend(s: seq<byte>, text: seq<byte>, more: seq<byte>)
    requires |text| + |more| <= |s|
    ensures Splice(Splice(s, 0, text), |text|, more) == Splice(s, 0, text + more)
  {
  }

  // The whole region rotated left by k.
  function Rotate(s: seq<byte>, k: nat): (r: seq<byte>)
    requires k <= |s|
    ensures |r| == |s|
  {
    s[k..] + s[..k]
  }

  function Flatten(parts: seq<seq<byte>>): (r: seq<byte>)
  {
    if parts == [] then [] else parts[0] + Flatten(parts[1..])
  }

  lemma {:induction false} FlattenAppend(a: seq<seq<byte>>, b: seq<seq<byte>>)
    ensures Flatten(a + b) == Flatten(a) + Flatten(b)
  {
    if a == [] {
      assert [] + b == b;
    } else {
      calc {
        Flatten(a + b);
        { assert a + b == [a[0]] + (a[1..] + b); }
        a[0] + Flatten(a[1..] + b);
        { FlattenAppend(a[1..], b); }
        a[0] + (Flatten(a[1..]) + Flatten(b));
        Flatten(a) + Flatten(b);
      }
    }
  }

  lemma Associate<T>(x: seq<T>, y: seq<T>, z: seq<T>)
    ensures x + (y + z) == (x + y) + z
  {
  }

  lemma LastIsLast<T>(s: seq<T>)
    requires s != []
    ensures s == s[..|s| - 1] + [s[|s| - 1]]
  {
  }

  // One part trades what it held and got for what it sent and kept; what went before stays.
  lemma Regroup(past: seq<byte>, held: seq<byte>, got: seq<byte>, sent: seq<byte>, kept: seq<byte>)
    requires held + got == sent + kept
    ensures (past + held) + got == (past + sent) + kept
  {
    assert (past + held) + got == past + (held + got);
    assert (past + sent) + kept == past + (sent + kept);
  }

  // Dividing by 64 step by step, and peeling off six bits at a time.
  lemma Sixes(u: nat)
    ensures u / 0x1000 == u / 0x40 / 0x40 && u / 0x40000 == u / 0x40 / 0x40 / 0x40
  {
  }

  lemma Peel(high: nat, low: nat)
    requires low < 0x40
    ensures (high * 0x40 + low) / 0x40 == high && (high * 0x40 + low) % 0x40 == low
  {
  }

  // memmove within one array: the source is read before anything is written, so the
  // ranges may overlap.
  method Memmove(a: array<byte>, dst: nat, src: nat, n: nat)
    requires dst + n <= a.Length && src + n <= a.Length
    modifies a
    ensures a[..] == Splice(old(a[..]), dst, old(a[..])[src..src + n])
  {
    forall i | 0 <= i < n {
      a[dst + i] := a[src + i];
    }
  }

  // memcpy between two distinct arrays.
  method Memcpy(to: array<byte>, dst: nat, from: array<byte>, src: nat, n: nat)
    requires to != from
    requires dst + n <= to.Length && src + n <= from.Length
    modifies to
    ensures to[..] == Splice(old(to[..]), dst, from[..][src..src + n])
  {
    forall i | 0 <= i < n {
      to[dst + i] := from[src + i];
    }
  }
}
