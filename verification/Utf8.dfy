/**
 UTF-8 (RFC 3629 section 3), for every code that fits in four bytes. Shifts and masks are
 written as division and remainder by powers of two, and the union of disjoint bit fields as a
 sum.
 */
module Utf8 {
  import opened Bytes

  const SIZE_MAX: nat := 0xFFFF_FFFF_FFFF_FFFF

  const LIMIT: nat := 0x200000

  // A continuation byte carrying the low six bits of x.
  function Tail(x: nat): byte { 0x80 + x % 0x40 }

  // The bytes butil_utf8_encode stores before the terminator; none for a larger code.
  function Encode(u: nat): (s: seq<byte>)
    ensures |s| <= 4 && (s == [] <==> u >= LIMIT)
  {
    if u < 0x80 then [u]
    else if u < 0x800 then [0xC0 + u / 0x40, Tail(u)]
    else if u < 0x10000 then [0xE0 + u / 0x1000, Tail(u / 0x40), Tail(u)]
    else if u < LIMIT then [0xF0 + u / 0x40000, Tail(u / 0x1000), Tail(u / 0x40), Tail(u)]
    else []
  }

  // The code and its length, or the value returned for a truncated one.
  datatype Decoded = Code(n: nat, u: nat) | Truncated(result: nat)

  // How many bytes the first one announces: its bits 0x80, 0x20 and 0x10 are looked at.
  function Announced(b: byte): (n: nat)
    ensures 1 <= n <= 4
  {
    if b < 0x80 then 1 else if b / 0x20 % 2 == 0 then 2 else if b / 0x10 % 2 == 0 then 3 else 4
  }

  function Join2(b: byte, c: byte): (u: nat)
    ensures u < 0x800
  {
    b % 0x20 as int * 0x40 + c % 0x40
  }

  function Join3(b: byte, c: byte, d: byte): (u: nat)
    ensures u < 0x10000
  {
    b % 0x10 as int * 0x1000 + c % 0x40 as int * 0x40 + d % 0x40
  }

  function Join4(b: byte, c: byte, d: byte, e: byte): (u: nat)
    ensures u < LIMIT
  {
    b % 8 as int * 0x40000 + c % 0x40 as int * 0x1000 + d % 0x40 as int * 0x40 + e % 0x40
  }

  function Decode(s: seq<byte>): Decoded
    requires |s| > 0
  {
    var n := Announced(s[0]);
    if |s| < n then Truncated(if n == 2 then SIZE_MAX else 0)
    else if n == 1 then Code(1, s[0])
    else if n == 2 then Code(2, Join2(s[0], s[1]))
    else if n == 3 then Code(3, Join3(s[0], s[1], s[2]))
    else Code(4, Join4(s[0], s[1], s[2], s[3]))
  }

  // butil_utf8_encode into a buffer of at least five bytes.
  method Utf8Encode(unicode: nat, utfbuf: array<byte>) returns (n: nat)
    requires utfbuf.Length >= 5
    modifies utfbuf
    ensures n == |Encode(unicode)|
    ensures utfbuf[..] == Encode(unicode) + [0] + old(utfbuf[..])[n + 1..]
  {
    var j := 0;
    if unicode < 0x80 {
      utfbuf[j] := unicode; j := j + 1;
    } else if unicode < 0x800 {
      utfbuf[j] := 0xC0 + unicode / 0x40; j := j + 1;
      utfbuf[j] := 0x80 + unicode % 0x40; j := j + 1;
    } else if unicode < 0x10000 {
      utfbuf[j] := 0xE0 + unicode / 0x1000; j := j + 1;
      utfbuf[j] := 0x80 + unicode / 0x40 % 0x40; j := j + 1;
      utfbuf[j] := 0x80 + unicode % 0x40; j := j + 1;
    } else if unicode < 0x200000 {
      utfbuf[j] := 0xF0 + unicode / 0x40000; j := j + 1;
      utfbuf[j] := 0x80 + unicode / 0x1000 % 0x40; j := j + 1;
      utfbuf[j] := 0x80 + unicode / 0x40 % 0x40; j := j + 1;
      utfbuf[j] := 0x80 + unicode % 0x40; j := j + 1;
    }
    utfbuf[j] := 0;
    n := j;
  }

  // butil_utf8_decode of the first nutf bytes; `unicode` is what the caller's variable holds
  // before, and keeps when the code is truncated. With nutf 0 the count of bytes left wraps around,
  // and the code is read from whatever is there.
  method Utf8Decode(utfbuf: seq<byte>, nutf: nat, unicode: nat) returns (result: nat, code: nat)
    requires nutf <= |utfbuf| && utfbuf != [] && (nutf == 0 ==> Announced(utfbuf[0]) <= |utfbuf|)
    ensures match Decode(if nutf == 0 then utfbuf else utfbuf[..nutf])
      case Code(n, u) => result == n && code == u
      case Truncated(r) => result == r && code == unicode
  {
    var i, left: nat := 1, if nutf == 0 then SIZE_MAX else nutf - 1;
    var b: int := utfbuf[0];
    var c: int;
    code := unicode;
    if b >= 0x80 {
      if b / 0x20 % 2 == 1 {
        if b / 0x10 % 2 == 1 {
          b := b % 8 * 0x40000;
          if left < 1 { return 0, unicode; }
          c, i, left := utfbuf[i], i + 1, left - 1;
          b := b + c % 0x40 * 0x1000;
          if left < 1 { return 0, unicode; }
          c, i, left := utfbuf[i], i + 1, left - 1;
          b := b + c % 0x40 * 0x40;
          if left < 1 { return 0, unicode; }
          c, i, left := utfbuf[i], i + 1, left - 1;
          b := b + c % 0x40;
        } else {
          b := b % 0x10 * 0x1000;
          if left < 1 { return 0, unicode; }
          c, i, left := utfbuf[i], i + 1, left - 1;
          b := b + c % 0x40 * 0x40;
          if left < 1 { return 0, unicode; }
          c, i, left := utfbuf[i], i + 1, left - 1;
          b := b + c % 0x40;
        }
      } else {
        b := b % 0x20 * 0x40;
        if left < 1 { return SIZE_MAX, unicode; }
        c, i, left := utfbuf[i], i + 1, left - 1;
        b := b + c % 0x40;
      }
    }
    result, code := i, b;
  }

  // ---- Single codes ----

  lemma AnnouncedIsLength(u: nat)
    requires u < LIMIT
    ensures Announced(Encode(u)[0]) == |Encode(u)|
  {
  }

  lemma TailBits(x: nat)
    ensures Tail(x) % 0x40 == x % 0x40
  {
  }

  lemma JoinSplit3(u: nat)
    requires 0x800 <= u < 0x10000
    ensures Join3(0xE0 + u / 0x1000, Tail(u / 0x40), Tail(u)) == u
  {
    Sixes(u);
    TailBits(u);
    TailBits(u / 0x40);
  }

  lemma {:induction false} JoinSplit4(u: nat)
    requires 0x10000 <= u < LIMIT
    ensures Join4(0xF0 + u / 0x40000, Tail(u / 0x1000), Tail(u / 0x40), Tail(u)) == u
  {
    Sixes(u);
    TailBits(u);
    TailBits(u / 0x40);
    TailBits(u / 0x1000);
    assert (0xF0 + u / 0x40000) % 8 == u / 0x40000;
  }

  // Decoding reads back one code, whatever follows it.
  lemma {:induction false} DecodeEncode(u: nat, rest: seq<byte>)
    requires u < LIMIT
    ensures Decode(Encode(u) + rest) == Code(|Encode(u)|, u)
  {
    AnnouncedIsLength(u);
    if u < 0x80 {
    } else if u < 0x800 { TailBits(u); }
    else if u < 0x10000 { JoinSplit3(u); }
    else { JoinSplit4(u); }
  }

  // A code cut short is reported, never read as another one; the report is (size_t)-1 for a
  // two-byte code and 0 for a longer one.
  lemma CutCodeIsTruncated(u: nat, k: nat)
    requires u < LIMIT && 0 < k < |Encode(u)|
    ensures Decode(Encode(u)[..k]) == Truncated(if |Encode(u)| == 2 then SIZE_MAX else 0)
  {
    AnnouncedIsLength(u);
  }

  // ---- Streams ----

  function EncodeAll(codes: seq<nat>): seq<byte> {
    if codes == [] then [] else Encode(codes[0]) + EncodeAll(codes[1..])
  }

  datatype Stream = Broken(codes: seq<nat>, left: seq<byte>) | Whole(codes: seq<nat>)

  // Decode again and again, each time past the bytes just read.
  function DecodeAll(s: seq<byte>): Stream {
    if s == [] then Whole([])
    else match Decode(s)
      case Truncated(_) => Broken([], s)
      case Code(n, u) => match DecodeAll(s[n..])
        case Whole(us) => Whole([u] + us)
        case Broken(us, left) => Broken([u] + us, left)
  }

  predicate InRange(codes: seq<nat>) {
    forall i :: 0 <= i < |codes| ==> codes[i] < LIMIT
  }

  // Decoding a stream of encodings gives back the codes and consumes every byte.
  lemma {:induction false} StreamRoundTrip(codes: seq<nat>)
    requires InRange(codes)
    ensures DecodeAll(EncodeAll(codes)) == Whole(codes)
  {
    if codes != [] {
      var rest := EncodeAll(codes[1..]);
      DecodeEncode(codes[0], rest);
      assert (Encode(codes[0]) + rest)[|Encode(codes[0])|..] == rest;
      StreamRoundTrip(codes[1..]);
    }
  }

  // A stream cut inside a code yields the codes before it and leaves its bytes.
  lemma {:induction false} CutStream(codes: seq<nat>, u: nat, k: nat)
    requires InRange(codes) && u < LIMIT && 0 < k < |Encode(u)|
    ensures DecodeAll(EncodeAll(codes) + Encode(u)[..k]) == Broken(codes, Encode(u)[..k])
  {
    var cut := Encode(u)[..k];
    if codes == [] {
      assert EncodeAll(codes) + cut == cut;
      CutCodeIsTruncated(u, k);
    } else {
      var rest := EncodeAll(codes[1..]) + cut;
      assert EncodeAll(codes) + cut == Encode(codes[0]) + rest;
      DecodeEncode(codes[0], rest);
      assert (Encode(codes[0]) + rest)[|Encode(codes[0])|..] == rest;
      CutStream(codes[1..], u, k);
    }
  }

  // ---- Order ----

  // Bytewise lexicographic order; a proper prefix comes first.
  predicate Before(s: seq<byte>, t: seq<byte>) {
    t != [] && (s == [] || s[0] < t[0] || (s[0] == t[0] && Before(s[1..], t[1..])))
  }

  // The first difference, at k, decides, and keeps either from being a prefix of the other.
  lemma {:induction false} DecidedAt(s: seq<byte>, t: seq<byte>, k: nat)
    requires k < |s| && k < |t| && s[k] < t[k]
    requires forall i :: 0 <= i < k ==> s[i] == t[i]
    ensures Before(s, t) && !Before(t, s) && !(s <= t) && !(t <= s)
  {
    if k > 0 { DecidedAt(s[1..], t[1..], k - 1); }
  }

  // Of two codes the larger has the larger high part, or the same and the larger low bits.
  lemma HighThenLow(u: nat, v: nat)
    requires u < v
    ensures u / 0x40 < v / 0x40 || (u / 0x40 == v / 0x40 && u % 0x40 < v % 0x40)
  {
  }

  // Where the encodings of two codes first differ.
  lemma FirstDifference(u: nat, v: nat) returns (k: nat)
    requires u < v < LIMIT
    ensures k < |Encode(u)| && k < |Encode(v)| && Encode(u)[k] < Encode(v)[k]
    ensures forall i :: 0 <= i < k ==> Encode(u)[i] == Encode(v)[i]
  {
    if |Encode(u)| != |Encode(v)| || v < 0x80 {
      k := 0;
    } else {
      Sixes(u);
      Sixes(v);
      HighThenLow(u, v);
      k := |Encode(u)| - 1;
      if u / 0x40 < v / 0x40 {
        HighThenLow(u / 0x40, v / 0x40);
        k := if v < 0x800 then 0 else k - 1;
        if u / 0x1000 < v / 0x1000 {
          HighThenLow(u / 0x1000, v / 0x1000);
          k := if v < 0x10000 || u / 0x40000 < v / 0x40000 then 0 else k - 1;
        }
      }
    }
  }

  // Bytewise order of encodings is numeric order of codes.
  lemma OrderPreserved(u: nat, v: nat)
    requires u < LIMIT && v < LIMIT
    ensures Before(Encode(u), Encode(v)) <==> u < v
  {
    if u < v {
      var k := FirstDifference(u, v);
      DecidedAt(Encode(u), Encode(v), k);
    } else if v < u {
      var k := FirstDifference(v, u);
      DecidedAt(Encode(v), Encode(u), k);
    } else {
      NotBeforeItself(Encode(u));
    }
  }

  lemma {:induction false} NotBeforeItself(s: seq<byte>)
    ensures !Before(s, s)
  {
    if s != [] { NotBeforeItself(s[1..]); }
  }

  // No encoding is a prefix of another, and different codes have different encodings.
  lemma PrefixFree(u: nat, v: nat)
    requires u < LIMIT && v < LIMIT && Encode(u) <= Encode(v)
    ensures u == v
  {
    if u < v {
      var k := FirstDifference(u, v);
    } else if v < u {
      var k := FirstDifference(v, u);
    }
  }

  // ---- Which bytes are an encoding ----

  predicate IsTail(b: byte) { 0x80 <= b <= 0xBF }

  // The shortest forms: RFC 3629 section 4 without its exclusion of surrogates and of codes
  // above 0x10FFFF.
  predicate Shortest(s: seq<byte>) {
    if |s| == 1 then s[0] <= 0x7F
    else if |s| == 2 then 0xC2 <= s[0] <= 0xDF && IsTail(s[1])
    else if |s| == 3 then 0xE0 <= s[0] <= 0xEF && IsTail(s[1]) && IsTail(s[2]) && (s[0] == 0xE0 ==> s[1] >= 0xA0)
    else if |s| == 4 then
      0xF0 <= s[0] <= 0xF7 && IsTail(s[1]) && IsTail(s[2]) && IsTail(s[3]) && (s[0] == 0xF0 ==> s[1] >= 0x90)
    else false
  }

  lemma ReadBack2(b: byte, c: byte)
    requires Announced(b) == 2
    ensures Encode(Join2(b, c)) == [b, c] <==> Shortest([b, c])
  {
    Peel(b % 0x20, c % 0x40);
  }

  lemma Join3Digits(b: byte, c: byte, d: byte)
    ensures var u := Join3(b, c, d);
      u / 0x1000 == b % 0x10 && u / 0x40 % 0x40 == c % 0x40 && u % 0x40 == d % 0x40
  {
    Sixes(Join3(b, c, d));
    Peel(b % 0x10 as int * 0x40 + c % 0x40, d % 0x40);
    Peel(b % 0x10, c % 0x40);
  }

  lemma {:induction false} ReadBack3(b: byte, c: byte, d: byte)
    requires Announced(b) == 3
    ensures Encode(Join3(b, c, d)) == [b, c, d] <==> Shortest([b, c, d])
  {
    Join3Digits(b, c, d);
  }

  lemma {:induction false} Join4Digits(b: byte, c: byte, d: byte, e: byte)
    ensures var u := Join4(b, c, d, e);
      u / 0x40000 == b % 8 && u / 0x1000 % 0x40 == c % 0x40 && u / 0x40 % 0x40 == d % 0x40 && u % 0x40 == e % 0x40
  {
    Sixes(Join4(b, c, d, e));
    Peel(b % 8 as int * 0x1000 + c % 0x40 as int * 0x40 + d % 0x40, e % 0x40);
    Peel(b % 8 as int * 0x40 + c % 0x40, d % 0x40);
    Peel(b % 8, c % 0x40);
  }

  lemma {:induction false} ReadBack4(b: byte, c: byte, d: byte, e: byte)
    requires Announced(b) == 4
    ensures Encode(Join4(b, c, d, e)) == [b, c, d, e] <==> Shortest([b, c, d, e])
  {
    Join4Digits(b, c, d, e);
  }

  // The decoder also takes longer forms and stray bytes; encoding gives the bytes back exactly
  // when they were a shortest form.
  lemma {:induction false} EncodeDecode(s: seq<byte>)
    requires |s| > 0 && Decode(s).Code?
    ensures Decode(s).n <= |s| && Decode(s).u < LIMIT
    ensures Encode(Decode(s).u) == s[..Decode(s).n] <==> Shortest(s[..Decode(s).n])
  {
    var n := Decode(s).n;
    match n {
      case 1 => assert s[..n] == [s[0]];
      case 2 => assert s[..n] == [s[0], s[1]]; ReadBack2(s[0], s[1]);
      case 3 => assert s[..n] == [s[0], s[1], s[2]]; ReadBack3(s[0], s[1], s[2]);
      case _ => assert s[..n] == [s[0], s[1], s[2], s[3]]; ReadBack4(s[0], s[1], s[2], s[3]);
    }
  }

  // ---- What the decoder reads ----

  // How many bytes each first byte announces: the program looks at three of its bits, so the bytes of
  // other codes' tails count as first bytes too.
  lemma AnnouncedRanges(b: byte)
    ensures Announced(b) == 1 <==> b <= 0x7F
    ensures Announced(b) == 2 <==> 0x80 <= b <= 0x9F || 0xC0 <= b <= 0xDF
    ensures Announced(b) == 3 <==> 0xA0 <= b <= 0xAF || 0xE0 <= b <= 0xEF
    ensures Announced(b) == 4 <==> 0xB0 <= b <= 0xBF || 0xF0 <= b
  {
  }

  // Fewer bytes than announced, and only those, are reported: (size_t)-1 for one of two, 0 for others.
  lemma TruncatedExactly(s: seq<byte>)
    requires |s| > 0
    ensures Decode(s).Truncated? <==> |s| < Announced(s[0])
    ensures Decode(s).Truncated? ==> Decode(s).result == if Announced(s[0]) == 2 then 0xFFFF_FFFF_FFFF_FFFF else 0
    ensures Decode(s).Code? ==> Decode(s).n == Announced(s[0])
  {
  }

  // The values of the bits carried, whatever length was needed: a code may be read from more bytes
  // than its encoding has. None is larger than 0x1FFFFF.
  lemma {:induction false} CodeForms(a: nat, b: nat, c: nat, d: nat, rest: seq<byte>)
    requires a < 0x80 && b < 0x40 && c < 0x40 && d < 0x40
    ensures Decode([a] + rest) == Code(1, a)
    ensures a < 0x20 ==> Decode([0xC0 + a] + ([0x80 + b] + rest)) == Code(2, a * 64 + b)
    ensures a < 0x10 ==> Decode([0xE0 + a] + ([0x80 + b] + ([0x80 + c] + rest))) == Code(3, (a * 64 + b) * 64 + c)
    ensures a < 8 ==>
      Decode([0xF0 + a] + ([0x80 + b] + ([0x80 + c] + ([0x80 + d] + rest)))) == Code(4, ((a * 64 + b) * 64 + c) * 64 + d)
  {
    Marked(b);
    Marked(c);
    Marked(d);
    if a < 0x20 { First2(a); }
    if a < 0x10 { First3(a); }
    if a < 8 { First4(a); }
  }

  lemma Marked(b: nat)
    requires b < 0x40
    ensures (0x80 + b) % 0x40 == b
  {
  }

  lemma First2(a: nat)
    requires a < 0x20
    ensures Announced(0xC0 + a) == 2 && (0xC0 + a) % 0x20 == a
  {
  }

  lemma First3(a: nat)
    requires a < 0x10
    ensures Announced(0xE0 + a) == 3 && (0xE0 + a) % 0x10 == a
  {
  }

  lemma First4(a: nat)
    requires a < 8
    ensures Announced(0xF0 + a) == 4 && (0xF0 + a) % 8 == a
  {
  }

  // The marks of the bytes have no say: of the others only the low six bits are read, and a first byte
  // is read the same without its bit 0x40, in a code of four bytes also with its bit 8.
  lemma MarksAreIgnored(s: seq<byte>, t: seq<byte>)
    requires |s| == |t| > 0 && s[0] == t[0]
    requires forall i :: 0 < i < |s| ==> s[i] % 0x40 == t[i] % 0x40
    ensures Decode(s) == Decode(t)
  {
  }

  lemma {:induction false} FirstMarks(b: byte, rest: seq<byte>)
    ensures 0x80 <= b < 0xC0 ==> Decode([b] + rest) == Decode([b + 0x40] + rest)
    ensures 0xF0 <= b < 0xF8 ==> Decode([b] + rest) == Decode([b + 8] + rest)
  {
    if 0x80 <= b < 0xC0 { WithoutForty(b); }
    if 0xF0 <= b < 0xF8 { WithoutEight(b); }
    var more: byte := if 0x80 <= b < 0xC0 then b + 0x40 else if 0xF0 <= b < 0xF8 then b + 8 else b;
    SameFirst(b, more, rest);
  }

  lemma WithoutForty(b: byte)
    requires 0x80 <= b < 0xC0
    ensures Announced(b) == Announced(b + 0x40) && b % 0x20 == (b + 0x40) % 0x20
    ensures b % 0x10 == (b + 0x40) % 0x10 && b % 8 == (b + 0x40) % 8
  {
  }

  lemma WithoutEight(b: byte)
    requires 0xF0 <= b < 0xF8
    ensures Announced(b) == Announced(b + 8) == 4 && b % 8 == (b + 8) % 8
  {
  }

  lemma SameFirst(b: byte, c: byte, rest: seq<byte>)
    requires Announced(b) == Announced(c) && (Announced(b) == 1 ==> b == c)
    requires Announced(b) == 2 ==> b % 0x20 == c % 0x20
    requires Announced(b) == 3 ==> b % 0x10 == c % 0x10
    requires Announced(b) == 4 ==> b % 8 == c % 8
    ensures Decode([b] + rest) == Decode([c] + rest)
  {
  }

  // The encoder takes codes below 0x200000 and stores nothing for others.
  lemma EncodedExactly(u: nat)
    ensures Encode(u) != [] <==> u < 0x200000
    ensures |Encode(u)| == (if u < 0x80 then 1 else if u < 0x800 then 2 else if u < 0x10000 then 3 else if u < 0x200000 then 4 else 0)
  {
  }
}
