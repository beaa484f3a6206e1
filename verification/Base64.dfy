/**
 Base64 (RFC 4648 sections 4 and 5) over caller buffers. Shifts and masks are written as
 division and remainder by powers of two. A C string is the sequence of its characters up to the
 terminator; where a sequence ends, a terminator follows.
 */
module Base64 {
  import opened Bytes

  const PAD: byte := 0x3D      // '='
  const PERCENT: byte := 0x25  // '%'

  type sextet = x: int | 0 <= x < 64

  // The alphabets: A-Z a-z 0-9 and then + / or - _.
  function Symbol(v: sextet, url: bool): byte {
    if v < 26 then 0x41 + v
    else if v < 52 then 0x61 + v - 26
    else if v < 62 then 0x30 + v - 52
    else if v == 62 then (if url then 0x2D else 0x2B)
    else (if url then 0x5F else 0x2F)
  }

  // The tables of the program: these letters and digits, and two marks.
  const UPPER := "ABCDEFGHIJKLMNOPQRSTUVWXYZ"
  const LOWER := "abcdefghijklmnopqrstuvwxyz"
  const DIGITS := "0123456789"

  function Alphabet(url: bool): string {
    UPPER + LOWER + DIGITS + if url then "-_" else "+/"
  }

  lemma {:induction false} SymbolIsInTable(v: sextet, url: bool)
    ensures |Alphabet(url)| == 64 && Alphabet(url)[v] as int == Symbol(v, url)
  {
    if v < 26 { LetterOf(v); } else if v < 52 { LetterOf(v - 26); } else if v < 62 { DigitOf(v - 52); }
  }

  lemma LetterOf(v: nat)
    requires v < 26
    ensures UPPER[v] as int == 0x41 + v && LOWER[v] as int == 0x61 + v
  {
  }

  lemma DigitOf(v: nat)
    requires v < 10
    ensures DIGITS[v] as int == 0x30 + v
  {
  }

  datatype Reading = NotASymbol | Sextet(v: sextet)

  // What the decoder makes of a character: it takes both alphabets.
  function Read(c: byte): Reading {
    if 0x41 <= c <= 0x5A then Sextet(c - 0x41)
    else if 0x61 <= c <= 0x7A then Sextet(c - 0x61 + 26)
    else if 0x30 <= c <= 0x39 then Sextet(c - 0x30 + 52)
    else if c == 0x2B || c == 0x2D then Sextet(62)
    else if c == 0x2F || c == 0x5F then Sextet(63)
    else NotASymbol
  }

  lemma ReadSymbol(v: sextet, url: bool)
    ensures Read(Symbol(v, url)) == Sextet(v)
    ensures Symbol(v, url) != 0 && Symbol(v, url) != PERCENT && Symbol(v, url) != PAD
  {
  }

  // ---- Bytes and sextets ----

  // The bits of the bytes, six at a time, the last ones filled up with zeros.
  function Split(src: seq<byte>): (v: seq<sextet>)
    ensures |v| == |src| / 3 * 4 + (if |src| % 3 == 0 then 0 else |src| % 3 + 1)
    decreases |src|
  {
    if src == [] then []
    else if |src| == 1 then [src[0] / 4, src[0] % 4 * 16]
    else if |src| == 2 then [src[0] / 4, src[0] % 4 * 16 + src[1] / 16, src[1] % 16 * 4]
    else Quadruple(src[0], src[1], src[2]) + Split(src[3..])
  }

  function Quadruple(a: byte, b: byte, c: byte): (q: seq<sextet>)
    ensures |q| == 4
  {
    [a / 4, a % 4 * 16 + b / 16, b % 16 * 4 + c / 64, c % 64]
  }

  // The whole bytes in the bits of the sextets.
  function Join(v: seq<sextet>): (b: seq<byte>)
    ensures |b| == |v| / 4 * 3 + (if |v| % 4 < 2 then 0 else |v| % 4 - 1)
    decreases |v|
  {
    if |v| < 2 then []
    else if |v| == 2 then [v[0] as int * 4 + v[1] / 16]
    else if |v| == 3 then [v[0] as int * 4 + v[1] / 16, v[1] as int % 16 * 16 + v[2] / 4]
    else Triple(v[0], v[1], v[2], v[3]) + Join(v[4..])
  }

  function Triple(a: sextet, b: sextet, c: sextet, d: sextet): (t: seq<byte>)
    ensures |t| == 3
  {
    [a as int * 4 + b / 16, b as int % 16 * 16 + c / 4, c as int % 4 * 64 + d]
  }

  lemma {:induction false} JoinSplit(src: seq<byte>)
    ensures Join(Split(src)) == src
    decreases |src|
  {
    if |src| >= 3 {
      var q := Quadruple(src[0], src[1], src[2]);
      calc {
        Join(Split(src));
        { assert Split(src) == q + Split(src[3..]); JoinGroup(q, Split(src[3..])); }
        Triple(q[0], q[1], q[2], q[3]) + Join(Split(src[3..]));
        { TripleOfQuadruple(src[0], src[1], src[2]); JoinSplit(src[3..]); }
        [src[0], src[1], src[2]] + src[3..];
        src;
      }
    }
  }

  lemma JoinGroup(q: seq<sextet>, v: seq<sextet>)
    requires |q| == 4
    ensures Join(q + v) == Triple(q[0], q[1], q[2], q[3]) + Join(v)
  {
    assert (q + v)[4..] == v;
  }

  lemma TripleOfQuadruple(a: byte, b: byte, c: byte)
    ensures var q := Quadruple(a, b, c); Triple(q[0], q[1], q[2], q[3]) == [a, b, c]
  {
  }

  // ---- The bits ----

  // The number whose digits these are, most significant first, after those that made acc.
  function Number256(acc: nat, src: seq<byte>): nat
    decreases |src|
  {
    if src == [] then acc else Number256(acc * 256 + src[0], src[1..])
  }

  function Number64(acc: nat, v: seq<sextet>): nat
    decreases |v|
  {
    if v == [] then acc else Number64(acc * 64 + v[0], v[1..])
  }

  function ThreeDigits(acc: nat, a: byte, b: byte, c: byte): nat {
    ((acc * 256 + a) * 256 + b) * 256 + c
  }

  function FourDigits(acc: nat, a: sextet, b: sextet, c: sextet, d: sextet): nat {
    (((acc * 64 + a) * 64 + b) * 64 + c) * 64 + d
  }

  lemma Number256OfGroup(acc: nat, src: seq<byte>)
    requires |src| >= 3
    ensures Number256(acc, src) == Number256(ThreeDigits(acc, src[0], src[1], src[2]), src[3..])
  {
    calc {
      Number256(acc, src);
      Number256(acc * 256 + src[0], src[1..]);
      { assert src[1..][1..] == src[2..]; }
      Number256((acc * 256 + src[0]) * 256 + src[1], src[2..]);
      { assert src[2..][1..] == src[3..]; }
      Number256(ThreeDigits(acc, src[0], src[1], src[2]), src[3..]);
    }
  }

  lemma Number64OfGroup(acc: nat, q: seq<sextet>, rest: seq<sextet>)
    requires |q| == 4
    ensures Number64(acc, q + rest) == Number64(FourDigits(acc, q[0], q[1], q[2], q[3]), rest)
  {
    var v, n2 := q + rest, (acc * 64 + q[0]) * 64 + q[1];
    calc {
      Number64(acc, v);
      Number64(acc * 64 + q[0], v[1..]);
      { assert v[1..][1..] == v[2..]; }
      Number64(n2, v[2..]);
      { assert v[2..][1..] == v[3..]; }
      Number64(n2 * 64 + q[2], v[3..]);
      { assert v[3..][1..] == rest; }
      Number64((n2 * 64 + q[2]) * 64 + q[3], rest);
    }
  }

  // RFC 4648 section 4: the sextets are the bits of the bytes one after another, cut into groups
  // of six, the last one filled up with four or two zeros. They are the digits in base 64 of
  // the number the bytes write in base 256, shifted by that many bits.
  lemma {:induction false} SplitIsTheBits(acc: nat, src: seq<byte>)
    ensures Number64(acc, Split(src)) ==
      Number256(acc, src) * (if |src| % 3 == 0 then 1 else if |src| % 3 == 1 then 16 else 4)
    decreases |src|
  {
    if |src| >= 3 {
      var q, rest := Quadruple(src[0], src[1], src[2]), Split(src[3..]);
      var next := ThreeDigits(acc, src[0], src[1], src[2]);
      calc {
        Number64(acc, Split(src));
        Number64(acc, q + rest);
        { Number64OfGroup(acc, q, rest); SameGroup(acc, src[0], src[1], src[2]); }
        Number64(next, rest);
      }
      SplitIsTheBits(next, src[3..]);
      Number256OfGroup(acc, src);
    } else if |src| == 2 {
      SplitOfTwo(acc, src[0], src[1]);
      assert src == [src[0], src[1]];
    } else if |src| == 1 {
      SplitOfOne(acc, src[0]);
      assert src == [src[0]];
    }
  }

  lemma SplitOfOne(acc: nat, a: byte)
    ensures Number64(acc, Split([a])) == Number256(acc, [a]) * 16
  {
    var src := [a];
    var s0: sextet, s1: sextet := a / 4, a % 4 * 16;
    var v := [s0, s1];
    assert Split(src) == v;
    assert Number256(acc, src) == acc * 256 + a by {
      assert src[1..] == [];
    }
    Number64OfPair(acc, s0, s1);
  }

  lemma Number64OfPair(acc: nat, a: sextet, b: sextet)
    ensures Number64(acc, [a, b]) == (acc * 64 + a) * 64 + b
  {
    assert [a, b][1..] == [b];
    assert Number64(acc * 64 + a, [b]) == (acc * 64 + a) * 64 + b by {
      assert [b][1..] == [];
    }
  }

  lemma SplitOfTwo(acc: nat, a: byte, b: byte)
    ensures Number64(acc, Split([a, b])) == Number256(acc, [a, b]) * 4
  {
    var src := [a, b];
    var s0: sextet, s1: sextet, s2: sextet := a / 4, a % 4 * 16 + b / 16, b % 16 * 4;
    assert Split(src) == [s0, s1, s2];
    assert [s0, s1, s2][1..] == [s1, s2];
    Number64OfPair(acc * 64 + s0, s1, s2);
    assert Number256(acc, src) == (acc * 256 + a) * 256 + b by {
      assert src[1..] == [b];
      assert Number256(acc * 256 + a, [b]) == (acc * 256 + a) * 256 + b by {
        assert [b][1..] == [];
      }
    }
  }

  lemma SameGroup(acc: nat, a: byte, b: byte, c: byte)
    ensures var q := Quadruple(a, b, c); FourDigits(acc, q[0], q[1], q[2], q[3]) == ThreeDigits(acc, a, b, c)
  {
  }

  lemma {:induction false} SplitAppend(a: seq<byte>, b: seq<byte>)
    requires |a| % 3 == 0
    ensures Split(a + b) == Split(a) + Split(b)
    decreases |a|
  {
    if a == [] {
      assert a + b == b;
    } else {
      SplitAppend(a[3..], b);
      assert (a + b)[3..] == a[3..] + b;
      Attach(Quadruple(a[0], a[1], a[2]), Split(a[3..]), Split(b), Split(a), Split(a + b));
    }
  }

  lemma Attach<T>(first: seq<T>, x: seq<T>, y: seq<T>, part: seq<T>, whole: seq<T>)
    requires part == first + x && whole == first + (x + y)
    ensures whole == part + y
  {
  }

  lemma {:induction false} JoinAppend(a: seq<sextet>, b: seq<sextet>)
    requires |a| % 4 == 0
    ensures Join(a + b) == Join(a) + Join(b)
    decreases |a|
  {
    if a == [] {
      assert a + b == b;
    } else {
      var first := Triple(a[0], a[1], a[2], a[3]);
      calc {
        Join(a + b);
        { assert (a + b)[4..] == a[4..] + b; }
        first + Join(a[4..] + b);
        { JoinAppend(a[4..], b); }
        first + (Join(a[4..]) + Join(b));
        Join(a) + Join(b);
      }
    }
  }

  // ---- Text ----

  function Symbols(v: seq<sextet>, url: bool): (s: seq<byte>)
    ensures |s| == |v|
  {
    if v == [] then [] else [Symbol(v[0], url)] + Symbols(v[1..], url)
  }

  // The '=' that fill the last group of four.
  function Padding(n: nat): seq<byte> {
    if n % 3 == 0 then [] else if n % 3 == 1 then [PAD, PAD] else [PAD]
  }

  // The encoding of src in the chosen alphabet.
  function Encoded(src: seq<byte>, url: bool, pad: bool): seq<byte> {
    Symbols(Split(src), url) + if pad then Padding(|src|) else []
  }

  // The sextets of the leading symbols of a text.
  function Sextets(s: seq<byte>): seq<sextet> {
    if s == [] || Read(s[0]).NotASymbol? then [] else [Read(s[0]).v] + Sextets(s[1..])
  }

  lemma {:induction false} SymbolsAppend(a: seq<sextet>, b: seq<sextet>, url: bool)
    ensures Symbols(a + b, url) == Symbols(a, url) + Symbols(b, url)
  {
    if a == [] {
      assert a + b == b;
    } else {
      SymbolsAppend(a[1..], b, url);
      assert (a + b)[1..] == a[1..] + b;
    }
  }

  lemma {:induction false} SextetsOfSymbols(v: seq<sextet>, url: bool, tail: seq<byte>)
    requires tail == [] || Read(tail[0]).NotASymbol?
    ensures Sextets(Symbols(v, url) + tail) == v
  {
    if v == [] {
      assert Symbols(v, url) + tail == tail;
    } else {
      var first, more := Symbol(v[0], url), Symbols(v[1..], url);
      ReadSymbol(v[0], url);
      calc {
        Sextets(Symbols(v, url) + tail);
        { assert ([first] + more) + tail == [first] + (more + tail); }
        Sextets([first] + (more + tail));
        { assert ([first] + (more + tail))[1..] == more + tail; }
        [v[0]] + Sextets(more + tail);
        { SextetsOfSymbols(v[1..], url, tail); }
        v;
      }
    }
  }

  // Decoding an encoding gives back the bytes: both alphabets, padded or not, tails of one
  // and of two bytes included.
  lemma RoundTrip(src: seq<byte>, url: bool, pad: bool)
    ensures Join(Sextets(Encoded(src, url, pad))) == src
    ensures |Sextets(Encoded(src, url, pad))| % 4 != 1
  {
    SextetsOfSymbols(Split(src), url, if pad then Padding(|src|) else []);
    JoinSplit(src);
  }

  // ---- Escapes (RFC 3986 section 2.1) ----

  // base64_hexencode_byte: '+', '/' and '=' become %2B, %2F and %3D.
  function Escape(c: byte): (s: seq<byte>)
    ensures 1 <= |s| <= 3
  {
    if c == 0x2B then [PERCENT, 0x32, 0x42]
    else if c == 0x2F then [PERCENT, 0x32, 0x46]
    else if c == PAD then [PERCENT, 0x33, 0x44]
    else [c]
  }

  function Escaped(s: seq<byte>): (e: seq<byte>)
    ensures |s| <= |e| <= 3 * |s|
  {
    if s == [] then [] else Escape(s[0]) + Escaped(s[1..])
  }

  lemma {:induction false} EscapedAppend(a: seq<byte>, b: seq<byte>)
    ensures Escaped(a + b) == Escaped(a) + Escaped(b)
  {
    if a == [] {
      assert a + b == b;
    } else {
      var first, x, y := Escape(a[0]), Escaped(a[1..]), Escaped(b);
      calc {
        Escaped(a + b);
        { assert a + b == [a[0]] + (a[1..] + b); }
        first + Escaped(a[1..] + b);
        { EscapedAppend(a[1..], b); }
        first + (x + y);
        { Associate(first, x, y); }
        (first + x) + y;
        Escaped(a) + y;
      }
    }
  }

  // The value of a hexadecimal digit, or 16.
  function HexDigit(c: byte): (v: nat)
    ensures v <= 16
  {
    if 0x30 <= c <= 0x39 then c - 0x30
    else if 0x41 <= c <= 0x46 then c - 0x41 + 10
    else if 0x61 <= c <= 0x66 then c - 0x61 + 10
    else 16
  }

  // Percent-decoding; a '%' without two digits stands for itself.
  function PercentDecoded(s: seq<byte>): seq<byte> {
    if s == [] then []
    else if s[0] == PERCENT && |s| >= 3 && HexDigit(s[1]) < 16 && HexDigit(s[2]) < 16 then
      [HexDigit(s[1]) * 16 + HexDigit(s[2])] + PercentDecoded(s[3..])
    else [s[0]] + PercentDecoded(s[1..])
  }

  lemma {:induction false} UnescapeEscaped(s: seq<byte>)
    requires PERCENT !in s
    ensures PercentDecoded(Escaped(s)) == s
  {
    if s != [] {
      UnescapeEscaped(s[1..]);
      var e, rest := Escape(s[0]), Escaped(s[1..]);
      assert (e + rest)[|e|..] == rest;
    }
  }

  lemma {:induction false} NoPercentInSymbols(v: seq<sextet>, url: bool)
    ensures PERCENT !in Symbols(v, url)
  {
    if v != [] {
      ReadSymbol(v[0], url);
      NoPercentInSymbols(v[1..], url);
    }
  }

  // ---- The encoder ----

  // What the encoder stores for src: escaped and always padded, or padded unless the URL
  // alphabet is used.
  function Text(src: seq<byte>, url: bool, hex: bool): seq<byte> {
    if hex then Escaped(Encoded(src, url, true)) else Encoded(src, url, !url)
  }

  // Percent-decoding the escaped text gives the padded encoding in the chosen alphabet.
  lemma HexTextDecodes(src: seq<byte>, url: bool)
    ensures PercentDecoded(Text(src, url, true)) == Encoded(src, url, true)
  {
    NoPercentInSymbols(Split(src), url);
    UnescapeEscaped(Encoded(src, url, true));
  }

  // Hence also the escaped text decodes to the bytes.
  lemma HexRoundTrip(src: seq<byte>, url: bool)
    ensures Join(Sextets(PercentDecoded(Text(src, url, true)))) == src
  {
    HexTextDecodes(src, url);
    RoundTrip(src, url, true);
  }

  // The loop guard compares with outsize - 4, a size_t.
  function Guard(outsize: nat): nat {
    if outsize >= 4 then outsize - 4 else outsize - 4 + 0x1_0000_0000_0000_0000
  }

  // The count j kept for k bytes: characters in the escaped form, else four for each group.
  function Counted(src: seq<byte>, url: bool, hex: bool, k: nat): nat
    requires k <= |src|
  {
    if hex then |Text(src[..k], url, hex)| else k / 3 * 4
  }

  // Where the loop stops, when it has come to k.
  function StopsAt(src: seq<byte>, url: bool, hex: bool, outsize: nat, k: nat): (stop: nat)
    requires k <= |src|
    ensures k <= stop <= |src|
    decreases |src| - k
  {
    if k < |src| && Counted(src, url, hex, k) < Guard(outsize)
    then StopsAt(src, url, hex, outsize, if k + 3 <= |src| then k + 3 else |src|)
    else k
  }

  lemma EncodedAppend(a: seq<byte>, b: seq<byte>, url: bool, pad: bool)
    requires |a| % 3 == 0
    ensures Encoded(a, url, pad) == Symbols(Split(a), url)
    ensures Encoded(a + b, url, pad) == Encoded(a, url, pad) + Encoded(b, url, pad)
  {
    SplitAppend(a, b);
    SymbolsAppend(Split(a), Split(b), url);
    var x, y, p := Symbols(Split(a), url), Symbols(Split(b), url), if pad then Padding(|b|) else [];
    assert Padding(|a + b|) == Padding(|b|) && Padding(|a|) == [];
    assert x + [] == x;
    Attach(x, y, p, x + y, x + (y + p));
  }

  lemma TextAppend(a: seq<byte>, b: seq<byte>, url: bool, hex: bool)
    requires |a| % 3 == 0
    ensures Text(a + b, url, hex) == Text(a, url, hex) + Text(b, url, hex)
  {
    EncodedAppend(a, b, url, hex || !url);
    if hex { EscapedAppend(Encoded(a, url, true), Encoded(b, url, true)); }
  }

  // Characters in the chosen form.
  function Emitted(s: seq<byte>, hex: bool): seq<byte> {
    if hex then Escaped(s) else s
  }

  lemma EmittedAppend(s: seq<byte>, c: byte, hex: bool)
    ensures Emitted(s + [c], hex) == Emitted(s, hex) + (if hex then Escape(c) else [c])
  {
    EscapedAppend(s, [c]);
    assert Escaped([c]) == Escape(c) + Escaped([]);
  }

  // The sextets of a group, picked out of its 24 bits.
  lemma {:induction false} GroupBits(b1: byte, b2: byte, b3: byte)
    ensures var d := b1 as int * 0x10000 + b2 as int * 0x100 + b3;
      && d / 0x40000 == b1 / 4
      && d / 0x1000 % 0x40 == b1 % 4 * 16 + b2 / 16
      && d / 0x40 % 0x40 == b2 % 16 * 4 + b3 / 64
      && d % 0x40 == b3 % 64
  {
    var d := b1 as int * 0x10000 + b2 as int * 0x100 + b3;
    var v2: nat, v3: nat, v4: nat := b1 % 4 * 16 + b2 / 16, b2 % 16 * 4 + b3 / 64, b3 % 64;
    var high: nat := b1 / 4;
    assert d == ((high * 0x40 + v2) * 0x40 + v3) * 0x40 + v4;
    Sixes(d);
    Peel((high * 0x40 + v2) * 0x40 + v3, v4);
    Peel(high * 0x40 + v2, v3);
    Peel(high, v2);
  }

  // The characters of one group: '=' stands in for what is missing, except in the plain URL form.
  function GroupChars(g: seq<byte>, url: bool, full: bool): (s: seq<byte>)
    requires 1 <= |g| <= 3
  {
    var v := Split(g);
    [Symbol(v[0], url)] + [Symbol(v[1], url)]
    + (if |g| > 1 then [Symbol(v[2], url)] else if full then [PAD] else [])
    + (if |g| > 2 then [Symbol(v[3], url)] else if full then [PAD] else [])
  }

  lemma GroupText(g: seq<byte>, url: bool, hex: bool)
    requires 1 <= |g| <= 3
    ensures Text(g, url, hex) == Emitted(GroupChars(g, url, hex || !url), hex)
  {
    GroupEncoded(g, url, hex || !url);
  }

  lemma GroupEncoded(g: seq<byte>, url: bool, full: bool)
    requires 1 <= |g| <= 3
    ensures Encoded(g, url, full) == GroupChars(g, url, full)
  {
    var v := Split(g);
    var two := Symbols(v[2..], url);
    assert v[1..][1..] == v[2..];
    assert Symbols(v, url) == [Symbol(v[0], url)] + [Symbol(v[1], url)] + two;
    assert |g| > 1 ==> two == [Symbol(v[2], url)] + Symbols(v[3..], url) by {
      if |g| > 1 { assert v[2..][1..] == v[3..]; }
    }
    assert |g| > 2 ==> Symbols(v[3..], url) == [Symbol(v[3], url)] by {
      if |g| > 2 { assert v[3..][1..] == []; }
    }
  }

  // An escaped or a plain store: one more character of the text.
  method Emit(out: array<byte>, at: nat, c: byte, hex: bool, ghost was: seq<byte>, ghost text: seq<byte>, ghost s: seq<byte>)
    returns (next: nat)
    requires |was| == out.Length && at == |text + Emitted(s, hex)| <= out.Length
    requires |text + Emitted(s + [c], hex)| <= out.Length
    requires out[..] == Splice(was, 0, text + Emitted(s, hex))
    modifies out
    ensures next == |text + Emitted(s + [c], hex)|
    ensures out[..] == Splice(was, 0, text + Emitted(s + [c], hex))
  {
    EmittedAppend(s, c, hex);
    var e := if hex then Escape(c) else [c];
    assert text + Emitted(s + [c], hex) == (text + Emitted(s, hex)) + e;
    next := Store(out, at, c, hex, was, text + Emitted(s, hex));
  }

  method Store(out: array<byte>, at: nat, c: byte, hex: bool, ghost was: seq<byte>, ghost text: seq<byte>) returns (next: nat)
    requires |was| == out.Length && at == |text| && at + |if hex then Escape(c) else [c]| <= out.Length
    requires out[..] == Splice(was, 0, text)
    modifies out
    ensures next == at + |if hex then Escape(c) else [c]|
    ensures out[..] == Splice(was, 0, text + if hex then Escape(c) else [c])
  {
    SpliceAppend(was, text, if hex then Escape(c) else [c]);
    if hex {
      var i := HexEncodeByte(out, at, c);
      return at + i;
    }
    StoreOne(out, at, c);
    return at + 1;
  }

  method StoreOne(out: array<byte>, at: nat, c: byte)
    requires at < out.Length
    modifies out
    ensures out[..] == Splice(old(out[..]), at, [c])
  {
    out[at] := c;
  }

  // base64_hexencode_byte
  method HexEncodeByte(out: array<byte>, at: nat, c: byte) returns (i: nat)
    requires at + |Escape(c)| <= out.Length
    modifies out
    ensures i == |Escape(c)| && out[..] == Splice(old(out[..]), at, Escape(c))
  {
    if c == 0x2B {
      out[at], out[at + 1], out[at + 2] := PERCENT, 0x32, 0x42;
      return 3;
    }
    if c == 0x2F {
      out[at], out[at + 1], out[at + 2] := PERCENT, 0x32, 0x46;
      return 3;
    }
    if c == PAD {
      out[at], out[at + 1], out[at + 2] := PERCENT, 0x33, 0x44;
      return 3;
    }
    out[at] := c;
    return 1;
  }

  // The characters of the group of src at k; those that are not stored are '='.
  method Pick(src: seq<byte>, k: nat, url: bool, ghost full: bool, ghost group: seq<byte>) returns (c1: byte, c2: byte, c3: byte, c4: byte)
    requires k < |src| && group == src[k..if k + 3 <= |src| then k + 3 else |src|]
    ensures GroupChars(group, url, full) == [c1] + [c2]
      + (if k + 1 < |src| || full then [c3] else []) + (if k + 2 < |src| || full then [c4] else [])
  {
    var b1 := src[k];
    var b2: byte := if k + 1 < |src| then src[k + 1] else 0;
    var b3: byte := if k + 2 < |src| then src[k + 2] else 0;
    var d := b1 as int * 0x10000 + b2 as int * 0x100 + b3;
    GroupBits(b1, b2, b3);
    c1, c2 := Symbol(d / 0x40000, url), Symbol(d / 0x1000 % 0x40, url);
    c3 := if k + 1 < |src| then Symbol(d / 0x40 % 0x40, url) else PAD;
    c4 := if k + 2 < |src| then Symbol(d % 0x40, url) else PAD;
  }

  // One round of the loop: the group of src at k.
  method WriteGroup(out: array<byte>, at: nat, src: seq<byte>, k: nat, url: bool, hex: bool,
                    ghost was: seq<byte>, ghost text: seq<byte>, ghost group: seq<byte>) returns (p: nat)
    requires k < |src| && group == src[k..if k + 3 <= |src| then k + 3 else |src|]
    requires |was| == out.Length && at == |text| && at + |Text(group, url, hex)| <= out.Length
    requires out[..] == Splice(was, 0, text)
    modifies out
    ensures p == |text + Text(group, url, hex)|
    ensures out[..] == Splice(was, 0, text + Text(group, url, hex))
  {
    GroupText(group, url, hex);
    var c1, c2, c3, c4 := Pick(src, k, url, hex || !url, group);
    ghost var t3 := if k + 1 < |src| || hex || !url then [c3] else [];
    ghost var t4 := if k + 2 < |src| || hex || !url then [c4] else [];
    EmittedFits([c1], [c2], hex);
    EmittedFits([c1] + [c2], t3, hex);
    EmittedFits([c1] + [c2] + t3, t4, hex);
    assert text + Emitted([], hex) == text && [] + [c1] == [c1];
    p := Emit(out, at, c1, hex, was, text, []);
    p := Emit(out, p, c2, hex, was, text, [c1]);
    if k + 1 < |src| || hex || !url { p := Emit(out, p, c3, hex, was, text, [c1] + [c2]); }
    else { assert [c1] + [c2] + t3 == [c1] + [c2]; }
    if k + 2 < |src| || hex || !url { p := Emit(out, p, c4, hex, was, text, [c1] + [c2] + t3); }
    else { assert [c1] + [c2] + t3 + t4 == [c1] + [c2] + t3; }
  }

  // The text of the first characters is no longer than the text of all of them.
  lemma EmittedFits(s: seq<byte>, t: seq<byte>, hex: bool)
    ensures |Emitted(s, hex)| <= |Emitted(s + t, hex)|
  {
    EscapedAppend(s, t);
  }

  // butil_base64_encode. The caller's buffer has room for what the loop stores and for the
  // terminator; see EncoderRespectsOutsize for when outsize is that room.
  method Base64Encode(out: array<byte>, outsize: nat, src: seq<byte>, urlencode: bool, hexescape: bool) returns (r: int)
    requires outsize < 0x1_0000_0000_0000_0000
    requires |Text(src[..StopsAt(src, urlencode, hexescape, outsize, 0)], urlencode, hexescape)| < out.Length
    modifies out
    ensures var stop := StopsAt(src, urlencode, hexescape, outsize, 0);
      var text := Text(src[..stop], urlencode, hexescape);
      && out[..] == Splice(old(out[..]), 0, text + [0])
      && r == (if stop < |src| then -1 else |text|)
  {
    ghost var was := out[..];
    var p, k := EncodeGroups(out, outsize, src, urlencode, hexescape);
    var q := Store(out, p, 0, false, was, Text(src[..k], urlencode, hexescape));
    r := if k < |src| then -1 else p;
  }

  // The loop over the groups.
  method EncodeGroups(out: array<byte>, outsize: nat, src: seq<byte>, urlencode: bool, hexescape: bool) returns (p: nat, k: nat)
    requires outsize < 0x1_0000_0000_0000_0000
    requires |Text(src[..StopsAt(src, urlencode, hexescape, outsize, 0)], urlencode, hexescape)| < out.Length
    modifies out
    ensures k == StopsAt(src, urlencode, hexescape, outsize, 0)
    ensures p == |Text(src[..k], urlencode, hexescape)| && out[..] == Splice(old(out[..]), 0, Text(src[..k], urlencode, hexescape))
  {
    var j: nat := 0;
    p, k := 0, 0;
    ghost var was, text := out[..], [];
    EmptyText(src, urlencode, hexescape);
    while j < (if outsize >= 4 then outsize - 4 else outsize - 4 + 0x1_0000_0000_0000_0000) && k < |src|
      invariant Reached(src, urlencode, hexescape, outsize, k, j, text)
      invariant p == |text| && |text| < out.Length && out[..] == Splice(was, 0, text)
      decreases |src| - k
    {
      p, k, j, text := EncodeGroup(out, outsize, src, urlencode, hexescape, p, k, j, was, text);
    }
    Finished(src, urlencode, hexescape, outsize, k, j, text);
  }

  // One round of it.
  method EncodeGroup(out: array<byte>, outsize: nat, src: seq<byte>, urlencode: bool, hexescape: bool,
                     at: nat, from: nat, counted: nat, ghost was: seq<byte>, ghost before: seq<byte>)
    returns (p: nat, k: nat, j: nat, ghost text: seq<byte>)
    requires Reached(src, urlencode, hexescape, outsize, from, counted, before) && from < |src| && counted < Guard(outsize)
    requires |Text(src[..StopsAt(src, urlencode, hexescape, outsize, 0)], urlencode, hexescape)| < out.Length == |was|
    requires at == |before| < out.Length && out[..] == Splice(was, 0, before)
    modifies out
    ensures from < k && Reached(src, urlencode, hexescape, outsize, k, j, text)
    ensures p == |text| && |text| < out.Length && out[..] == Splice(was, 0, text)
  {
    k := if from + 3 <= |src| then from + 3 else |src|;
    ghost var more := Text(src[from..k], urlencode, hexescape);
    OneRound(src, urlencode, hexescape, outsize, from, counted, before, k);
    ReachedFits(src, urlencode, hexescape, outsize, k, if hexescape then counted + |more| else counted + 4, before + more);
    p := WriteGroup(out, at, src, from, urlencode, hexescape, was, before, src[from..k]);
    text := before + more;
    j := if hexescape then counted + (p - at) else counted + 4;
  }

  // The loop has come to k with the count j, having stored the text.
  ghost predicate Reached(src: seq<byte>, url: bool, hex: bool, outsize: nat, k: nat, j: nat, text: seq<byte>) {
    && k <= |src|
    && StopsAt(src, url, hex, outsize, k) == StopsAt(src, url, hex, outsize, 0)
    && (k < |src| ==> k % 3 == 0 && j == Counted(src, url, hex, k))
    && text == Text(src[..k], url, hex)
  }

  lemma Finished(src: seq<byte>, url: bool, hex: bool, outsize: nat, k: nat, j: nat, text: seq<byte>)
    requires Reached(src, url, hex, outsize, k, j, text) && (k == |src| || j >= Guard(outsize))
    ensures k == StopsAt(src, url, hex, outsize, 0) && text == Text(src[..k], url, hex)
  {
  }

  // What one round adds to the text and to the count.
  lemma OneRound(src: seq<byte>, url: bool, hex: bool, outsize: nat, k: nat, j: nat, text: seq<byte>, next: nat)
    requires Reached(src, url, hex, outsize, k, j, text) && k < |src| && j < Guard(outsize)
    requires next == if k + 3 <= |src| then k + 3 else |src|
    ensures var more := Text(src[k..next], url, hex);
      Reached(src, url, hex, outsize, next, if hex then j + |more| else j + 4, text + more)
  {
    StopsLater(src, url, hex, outsize, k, next);
    RoundText(src, url, hex, k, next);
    RoundCount(src, url, hex, k, j, Text(src[k..next], url, hex), next);
  }

  lemma RoundCount(src: seq<byte>, url: bool, hex: bool, k: nat, j: nat, more: seq<byte>, next: nat)
    requires k < |src| && k % 3 == 0 && j == Counted(src, url, hex, k)
    requires next == if k + 3 <= |src| then k + 3 else |src|
    requires Text(src[..next], url, hex) == Text(src[..k], url, hex) + more
    ensures next < |src| ==> next % 3 == 0 && Counted(src, url, hex, next) == if hex then j + |more| else j + 4
  {
  }

  // What was stored so far is no longer than what the whole loop stores.
  lemma ReachedFits(src: seq<byte>, url: bool, hex: bool, outsize: nat, k: nat, j: nat, text: seq<byte>)
    requires Reached(src, url, hex, outsize, k, j, text)
    ensures |text| <= |Text(src[..StopsAt(src, url, hex, outsize, 0)], url, hex)|
  {
    TextGrows(src, k, StopsAt(src, url, hex, outsize, 0), url, hex);
  }

  lemma {:induction false} RoundText(src: seq<byte>, url: bool, hex: bool, k: nat, next: nat)
    requires k < next <= |src| && k % 3 == 0 && next <= k + 3
    ensures Text(src[..next], url, hex) == Text(src[..k], url, hex) + Text(src[k..next], url, hex)
  {
    assert src[..next] == src[..k] + src[k..next];
    TextAppend(src[..k], src[k..next], url, hex);
  }

  lemma StopsLater(src: seq<byte>, url: bool, hex: bool, outsize: nat, k: nat, next: nat)
    requires k < next <= |src| && next == if k + 3 <= |src| then k + 3 else |src|
    requires Counted(src, url, hex, k) < Guard(outsize)
    ensures StopsAt(src, url, hex, outsize, k) == StopsAt(src, url, hex, outsize, next) >= next
  {
  }

  lemma EmptyText(src: seq<byte>, url: bool, hex: bool)
    ensures Text(src[..0], url, hex) == [] && Counted(src, url, hex, 0) == 0
  {
    assert src[..0] == [];
  }

  lemma TextGrows(src: seq<byte>, k: nat, stop: nat, url: bool, hex: bool)
    requires k <= stop <= |src| && (k % 3 == 0 || k == stop)
    ensures |Text(src[..k], url, hex)| <= |Text(src[..stop], url, hex)|
  {
    if k < stop {
      assert src[..stop] == src[..k] + src[k..stop];
      TextAppend(src[..k], src[k..stop], url, hex);
    }
  }

  // ---- How much fits ----

  // The start of the last group.
  function LastGroup(n: nat): (k: nat)
    ensures n > 0 ==> k < n
  {
    if n == 0 then 0 else (n - 1) / 3 * 3
  }

  lemma TextLength(src: seq<byte>, url: bool)
    ensures |Encoded(src, url, true)| == (|src| + 2) / 3 * 4
    ensures |Encoded(src, url, false)| == |src| / 3 * 4 + (if |src| % 3 == 0 then 0 else |src| % 3 + 1)
    ensures |Text(src, url, true)| <= (|src| + 2) / 3 * 12
  {
  }

  // The loop gets to the end exactly when it gets past the guard before the last group.
  lemma {:induction false} StopsShort(src: seq<byte>, url: bool, hex: bool, outsize: nat, k: nat)
    requires k < |src| && k % 3 == 0
    ensures StopsAt(src, url, hex, outsize, k) == |src| <==> Counted(src, url, hex, LastGroup(|src|)) < Guard(outsize)
    decreases |src| - k
  {
    var last := LastGroup(|src|);
    if k < last {
      CountGrows(src, url, hex, k, last);
      StopsShort(src, url, hex, outsize, k + 3);
    } else {
      assert k == last;
    }
  }

  lemma CountGrows(src: seq<byte>, url: bool, hex: bool, k: nat, last: nat)
    requires k <= last <= |src| && k % 3 == 0
    ensures Counted(src, url, hex, k) <= Counted(src, url, hex, last)
  {
    TextGrows(src, k, last, url, hex);
  }

  // The encoder succeeds if and only if the padded text and its terminator fit, whether or not
  // padding is stored; with outsize below 4 the guard wraps around and nothing stops it.
  lemma EncoderBound(src: seq<byte>, url: bool, outsize: nat)
    requires |src| < 0x1000_0000_0000_0000 && outsize < 0x1_0000_0000_0000_0000
    ensures StopsAt(src, url, false, outsize, 0) == |src| <==>
      src == [] || outsize < 4 || (|src| + 2) / 3 * 4 + 1 <= outsize
  {
    if src != [] { StopsShort(src, url, false, outsize, 0); }
  }

  lemma {:induction false} StopsInside(src: seq<byte>, url: bool, outsize: nat, k: nat)
    requires outsize >= 4 && k <= |src| && (k % 3 == 0 || k == |src|) && (k + 2) / 3 * 4 < outsize
    ensures (StopsAt(src, url, false, outsize, k) + 2) / 3 * 4 < outsize
    decreases |src| - k
  {
    if k < |src| && Counted(src, url, false, k) < Guard(outsize) {
      StopsInside(src, url, outsize, if k + 3 <= |src| then k + 3 else |src|);
    }
  }

  // Without escapes and with outsize at least 4, success or not, text and terminator stay
  // within outsize. With escapes, twelve characters for each group are always enough.
  lemma EncoderFits(src: seq<byte>, url: bool, outsize: nat)
    requires outsize >= 4
    ensures |Text(src[..StopsAt(src, url, false, outsize, 0)], url, false)| + 1 <= outsize
  {
    StopsInside(src, url, outsize, 0);
    var stop := StopsAt(src, url, false, outsize, 0);
    TextLength(src[..stop], url);
  }

  lemma EscapesFit(src: seq<byte>, url: bool, outsize: nat)
    ensures |Text(src[..StopsAt(src, url, true, outsize, 0)], url, true)| <= (|src| + 2) / 3 * 12
  {
    var stop := StopsAt(src, url, true, outsize, 0);
    TextLength(src[..stop], url);
  }

  // ---- What outsize bounds, and what it does not ----

  // Where the group that starts at k ends.
  function GroupEnd(src: seq<byte>, k: nat): (end: nat)
    requires k <= |src|
    ensures k <= end <= |src| && end <= k + 3
  {
    if k + 3 <= |src| then k + 3 else |src|
  }

  // The last group written was begun because the count before it passed the guard.
  lemma {:induction false} LastGroupPassed(src: seq<byte>, url: bool, hex: bool, outsize: nat, k: nat)
    requires k <= |src| && k % 3 == 0
    ensures var stop := StopsAt(src, url, hex, outsize, k); var last := LastGroup(stop);
      stop > k ==>
        && k <= last < stop == GroupEnd(src, last) && last % 3 == 0
        && Counted(src, url, hex, last) < Guard(outsize)
    decreases |src| - k
  {
    if k < |src| && Counted(src, url, hex, k) < Guard(outsize) {
      var next := if k + 3 <= |src| then k + 3 else |src|;
      StopsLater(src, url, hex, outsize, k, next);
      var stop := StopsAt(src, url, hex, outsize, next);
      if stop == next {
        LastGroupIs(stop, k);
      } else {
        LastGroupPassed(src, url, hex, outsize, next);
      }
    }
  }

  lemma LastGroupIs(n: nat, k: nat)
    requires k % 3 == 0 && k < n <= k + 3
    ensures LastGroup(n) == k
  {
  }

  // The count is the text stored, as long as the groups are whole.
  lemma CountedIsStored(src: seq<byte>, url: bool, hex: bool, k: nat)
    requires k <= |src| && k % 3 == 0
    ensures Counted(src, url, hex, k) == |Text(src[..k], url, hex)|
  {
    TextLength(src[..k], url);
  }

  // What is stored is what the count says before the last group, and that group.
  lemma {:induction false} StoredByGroups(src: seq<byte>, url: bool, hex: bool, outsize: nat)
    requires StopsAt(src, url, hex, outsize, 0) > 0
    ensures var stop := StopsAt(src, url, hex, outsize, 0); var last := LastGroup(stop);
      && last < stop && last < |src|
      && |Text(src[..stop], url, hex)| == Counted(src, url, hex, last) + |Text(src[last..stop], url, hex)|
  {
    var stop := StopsAt(src, url, hex, outsize, 0);
    var last := LastGroup(stop);
    LastGroupPassed(src, url, hex, outsize, 0);
    CountedIsStored(src, url, hex, last);
    assert src[..stop] == src[..last] + src[last..stop];
    TextAppend(src[..last], src[last..stop], url, hex);
  }

  // A group whose count passes the guard is written.
  lemma {:induction false} PassedIsWritten(src: seq<byte>, url: bool, hex: bool, outsize: nat, j: nat, k: nat)
    requires j <= k < |src| && j % 3 == 0 && k % 3 == 0 && Counted(src, url, hex, k) < Guard(outsize)
    ensures GroupEnd(src, k) <= StopsAt(src, url, hex, outsize, j)
    decreases k - j
  {
    CountGrows(src, url, hex, j, k);
    StopsLater(src, url, hex, outsize, j, GroupEnd(src, j));
    if j < k { PassedIsWritten(src, url, hex, outsize, j + 3, k); }
  }

  // This group's count passes the guard, and its text does not go past outsize.
  predicate GroupInside(src: seq<byte>, url: bool, hex: bool, outsize: nat, k: nat)
    requires k < |src|
  {
    Counted(src, url, hex, k) < Guard(outsize) ==> |Text(src[..GroupEnd(src, k)], url, hex)| < outsize
  }

  // Text and terminator stay within outsize if and only if every group whose count passes the guard,
  // which is four characters short of it, fits with all that comes before it.
  lemma {:induction false} EncoderRespectsOutsize(src: seq<byte>, url: bool, hex: bool, outsize: nat)
    ensures |Text(src[..StopsAt(src, url, hex, outsize, 0)], url, hex)| + 1 <= outsize <==>
      outsize > 0 && forall k :: 0 <= k < |src| && k % 3 == 0 ==> GroupInside(src, url, hex, outsize, k)
  {
    var stop := StopsAt(src, url, hex, outsize, 0);
    forall k | 0 <= k < |src| && k % 3 == 0 && Counted(src, url, hex, k) < Guard(outsize)
      ensures |Text(src[..GroupEnd(src, k)], url, hex)| <= |Text(src[..stop], url, hex)|
    {
      PassedIsWritten(src, url, hex, outsize, 0, k);
      StopIsAGroupEnd(src, url, hex, outsize);
      TextGrows(src, GroupEnd(src, k), stop, url, hex);
    }
    if stop > 0 {
      LastGroupPassed(src, url, hex, outsize, 0);
      assert GroupInside(src, url, hex, outsize, LastGroup(stop)) ==> |Text(src[..stop], url, hex)| < outsize;
    } else {
      EmptyText(src, url, hex);
    }
  }

  lemma StopIsAGroupEnd(src: seq<byte>, url: bool, hex: bool, outsize: nat)
    ensures var stop := StopsAt(src, url, hex, outsize, 0); stop % 3 == 0 || stop == |src|
  {
    if StopsAt(src, url, hex, outsize, 0) > 0 { LastGroupPassed(src, url, hex, outsize, 0); }
  }

  // With outsize below 4 that is the whole text of src, however long, because nothing stops the loop.
  lemma {:induction false} SmallOutsizeStopsNothing(src: seq<byte>, url: bool, hex: bool, outsize: nat)
    requires outsize < 4 && |src| < 0x1000_0000_0000_0000
    ensures StopsAt(src, url, hex, outsize, 0) == |src|
  {
    if src != [] {
      var last := LastGroup(|src|);
      StopsShort(src, url, hex, outsize, 0);
      TextLength(src[..last], url);
    }
  }

  // The guard leaves room for four characters where escapes can take twelve: from outsize 4 on,
  // escaped text and terminator go past outsize by no more than the other eight.
  lemma EscapedOvershoot(src: seq<byte>, url: bool, outsize: nat)
    requires outsize >= 4
    ensures |Text(src[..StopsAt(src, url, true, outsize, 0)], url, true)| + 1 <= outsize + 8
  {
    var stop := StopsAt(src, url, true, outsize, 0);
    if stop > 0 {
      LastGroupPassed(src, url, true, outsize, 0);
      StoredByGroups(src, url, true, outsize);
      GroupFitsTwelve(src[LastGroup(stop)..stop], url);
    } else {
      EmptyText(src, url, true);
    }
  }

  lemma GroupFitsTwelve(g: seq<byte>, url: bool)
    requires |g| <= 3
    ensures |Text(g, url, true)| <= 12
  {
    TextLength(g, url);
  }

  // A group of three bytes n times over.
  function Groups(g: seq<byte>, n: nat): (src: seq<byte>)
    requires |g| == 3
    ensures |src| == 3 * n
  {
    if n == 0 then [] else g + Groups(g, n - 1)
  }

  lemma {:induction false} GroupsText(g: seq<byte>, n: nat, url: bool)
    requires |g| == 3 && |Text(g, url, true)| == 12
    ensures |Text(Groups(g, n), url, true)| == 12 * n
  {
    if n > 0 {
      GroupsText(g, n - 1, url);
      TextAppend(g, Groups(g, n - 1), url, true);
    } else {
      EmptyText([], url, true);
    }
  }

  lemma {:induction false} GroupsPrefix(g: seq<byte>, n: nat)
    requires |g| == 3
    ensures Groups(g, n + 1)[..3 * n] == Groups(g, n)
  {
    if n > 0 {
      GroupsPrefix(g, n - 1);
      var more := Groups(g, n);
      assert (g + more)[..3 * n] == g + more[..3 * n - 3];
    }
  }

  // Three bytes that are encoded as "++++".
  const FOUR_PLUSSES: seq<byte> := [0xFB, 0xEF, 0xBE]

  lemma FourPlusses()
    ensures |Text(FOUR_PLUSSES, false, true)| == 12
  {
    GroupText(FOUR_PLUSSES, false, true);
    PlusChars();
    EscapedPlusses();
  }

  lemma PlusChars()
    ensures GroupChars(FOUR_PLUSSES, false, true) == [0x2B] + [0x2B] + [0x2B] + [0x2B]
  {
    var v := Quadruple(0xFB, 0xEF, 0xBE);
    assert Split(FOUR_PLUSSES) == v + [] == v && v[0] == v[1] == v[2] == v[3] == 62;
  }

  lemma EscapedPlusses()
    ensures |Escaped([0x2B] + [0x2B] + [0x2B] + [0x2B])| == 12
  {
    EscapedAppend([0x2B] + [0x2B] + [0x2B], [0x2B]);
    EscapedAppend([0x2B] + [0x2B], [0x2B]);
    EscapedAppend([0x2B], [0x2B]);
    assert Escaped([0x2B]) == Escape(0x2B) + Escaped([]);
  }

  // That bound is reached, with groups that need every escape, for every outsize that leaves the
  // guard at a multiple of twelve and one more; ShortestOvershoot is such a case.
  lemma EscapedOvershootIsTight(g: seq<byte>, n: nat, src: seq<byte>, url: bool, outsize: nat)
    requires |g| == 3 && |Text(g, url, true)| == 12
    requires src == Groups(g, n + 1) && outsize == 12 * n + 5
    ensures StopsAt(src, url, true, outsize, 0) == |src|
    ensures |Text(src, url, true)| + 1 == outsize + 8
  {
    var last := 3 * n;
    assert Counted(src, url, true, last) == 12 * n by {
      GroupsPrefix(g, n);
      GroupsText(g, n, url);
    }
    ReachesEnd(src, url, true, outsize, last);
    GroupsText(g, n + 1, url);
  }

  lemma ReachesEnd(src: seq<byte>, url: bool, hex: bool, outsize: nat, last: nat)
    requires last % 3 == 0 && last < |src| <= last + 3 && Counted(src, url, hex, last) < Guard(outsize)
    ensures StopsAt(src, url, hex, outsize, 0) == |src|
  {
    StopsShort(src, url, hex, outsize, 0);
    LastGroupIs(|src|, last);
  }

  // Three bytes with an outsize of 5 store 12 characters and a terminator.
  lemma {:induction false} ShortestOvershoot()
    ensures StopsAt(FOUR_PLUSSES, false, true, 5, 0) == 3 && |Text(FOUR_PLUSSES, false, true)| == 12
    ensures FOUR_PLUSSES == [0xFB, 0xEF, 0xBE]
  {
    FourPlusses();
    EmptyText(FOUR_PLUSSES, false, true);
    ReachesEnd(FOUR_PLUSSES, false, true, 5, 0);
  }

  // ---- The decoder ----

  // What the accumulator holds after up to three sextets: each was added, then six bits shifted in.
  function Bits(v: seq<sextet>): nat
    requires |v| <= 3
  {
    if v == [] then 0
    else if |v| == 1 then v[0] as int * 0x40
    else if |v| == 2 then (v[0] as int * 0x40 + v[1]) * 0x40
    else ((v[0] as int * 0x40 + v[1]) * 0x40 + v[2]) * 0x40
  }

  lemma PeelByte(high: nat, low: byte)
    ensures (high * 0x100 + low) / 0x100 == high && (high * 0x100 + low) % 0x100 == low
  {
  }

  lemma Eights(x: nat)
    ensures x / 0x10000 == x / 0x100 / 0x100 && x / 0x400 == x / 0x100 / 4
  {
  }

  lemma FourBits(a: sextet, b: sextet, c: sextet, d: sextet)
    ensures var bits := Bits([a, b, c]) + d; var t := Triple(a, b, c, d);
      bits < 0x1000000 && bits / 0x10000 == t[0] && bits / 0x100 % 0x100 == t[1] && bits % 0x100 == t[2]
  {
    var bits, t := Bits([a, b, c]) + d, Triple(a, b, c, d);
    assert bits == (t[0] as int * 0x100 + t[1]) * 0x100 + t[2];
    Eights(bits);
    PeelByte(t[0] as int * 0x100 + t[1], t[2]);
    PeelByte(t[0], t[1]);
  }

  lemma TailBits(v: seq<sextet>)
    requires 2 <= |v| <= 3
    ensures Join(v) == TailBytes(|v|, Bits(v))
  {
    if |v| == 3 {
      FourBits(v[0], v[1], v[2], 0);
      assert [v[0], v[1], v[2]] == v;
    }
  }

  // The guard looks at outsize before any character: below 4 nothing is decoded.
  function Stored(src: seq<byte>, outsize: nat): seq<byte> {
    if outsize < 4 then [] else Join(Sextets(src))
  }

  predicate Faulty(src: seq<byte>, outsize: nat) {
    if outsize < 4 then src != [] && src[0] != 0 else |Sextets(src)| % 4 == 1
  }

  // Bytes and terminator stay within outsize if and only if three quarters of the leading symbols
  // are fewer than outsize, or outsize lets only the terminator be stored.
  lemma DecoderRespectsOutsize(src: seq<byte>, outsize: nat)
    ensures |Stored(src, outsize)| + 1 <= outsize <==>
      outsize > 0 && (outsize < 4 || |Sextets(src)| * 3 / 4 < outsize)
  {
  }

  // From 4 on, outsize changes nothing: what was encoded is stored, all of it.
  lemma OutsizeBoundsNoDecoding(b: seq<byte>, url: bool, pad: bool, outsize: nat)
    requires outsize >= 4
    ensures Stored(Encoded(b, url, pad), outsize) == b && !Faulty(Encoded(b, url, pad), outsize)
  {
    RoundTrip(b, url, pad);
  }

  // "++++++++" with an outsize of 4 stores six bytes and a terminator.
  lemma {:induction false} DecoderOvershoots()
    ensures var four: seq<byte> := [0x2B] + [0x2B] + [0x2B] + [0x2B];
      Stored(four + four, 4) == FOUR_PLUSSES + FOUR_PLUSSES && !Faulty(four + four, 4)
  {
    GroupText(FOUR_PLUSSES, false, false);
    PlusChars();
    TextAppend(FOUR_PLUSSES, FOUR_PLUSSES, false, false);
    OutsizeBoundsNoDecoding(FOUR_PLUSSES + FOUR_PLUSSES, false, true, 4);
  }

  // butil_base64_decode. outsize is never counted down, so the caller's buffer must have room
  // for all the bytes and a terminator.
  method Base64Decode(out: array<byte>, outsize: nat, src: seq<byte>) returns (r: int)
    requires |Join(Sextets(src))| < out.Length
    modifies out
    ensures out[..] == Splice(old(out[..]), 0, Stored(src, outsize) + [0])
    ensures r == if Faulty(src, outsize) then -1 else |Stored(src, outsize)|
  {
    ghost var was := out[..];
    var p, outchars, bits, errors, whole := DecodeSymbols(out, outsize, src);
    p, errors := StoreTail(out, p, outsize, outchars, bits, errors, was, Join(whole));
    r := if errors > 0 then -1 else p;
  }

  // The loop over the characters: it stores whole groups and leaves the rest in the accumulator.
  method DecodeSymbols(out: array<byte>, outsize: nat, src: seq<byte>)
    returns (p: nat, outchars: nat, bits: nat, errors: int, ghost whole: seq<sextet>)
    requires |Join(Sextets(src))| < out.Length
    modifies out
    ensures p == |Join(whole)| && p < out.Length && out[..] == Splice(old(out[..]), 0, Join(whole))
    ensures Decoded(src, outsize, whole, outchars, bits, errors)
  {
    var i: nat := 0;
    ghost var was, rest: seq<sextet> := out[..], [];
    p, bits, outchars, errors, whole := 0, 0, 0, 0, [];
    assert src[0..] == src;
    while i < |src| && src[i] != 0
      invariant i <= |src| && errors == 0
      invariant outsize < 4 ==> i == 0 && whole == [] && outchars == bits == 0
      invariant Consumed(src, i, whole, rest, outchars, bits)
      invariant p == |Join(whole)| && p < out.Length && out[..] == Splice(was, 0, Join(whole))
      decreases |src| - i
    {
      if outsize < 4 {
        errors := errors + 1;
        NoRoom(src, outsize, errors);
        return;
      }
      var c := Read(src[i]);
      if c.NotASymbol? { break; }
      p, outchars, bits, whole, rest := TakeSymbol(out, p, src, i, c.v, outchars, bits, was, whole, rest);
      i := i + 1;
    }
    if outsize < 4 { NoRoom(src, outsize, 0); } else { Ends(src, outsize, i, whole, rest, outchars, bits); }
  }

  // One more symbol for the accumulator; four of them are stored as three bytes.
  method TakeSymbol(out: array<byte>, at: nat, src: seq<byte>, i: nat, v: sextet, taken: nat, before: nat,
                    ghost was: seq<byte>, ghost groups: seq<sextet>, ghost tail: seq<sextet>)
    returns (p: nat, outchars: nat, bits: nat, ghost whole: seq<sextet>, ghost rest: seq<sextet>)
    requires i < |src| && Read(src[i]) == Sextet(v) && Consumed(src, i, groups, tail, taken, before)
    requires |was| == out.Length && |Join(Sextets(src))| < out.Length && at == |Join(groups)| < out.Length
    requires out[..] == Splice(was, 0, Join(groups))
    modifies out
    ensures Consumed(src, i + 1, whole, rest, outchars, bits)
    ensures p == |Join(whole)| && p < out.Length && out[..] == Splice(was, 0, Join(whole))
  {
    OneMore(src, i, groups, tail, taken, before);
    p, outchars, bits := at, taken + 1, before + v;
    whole, rest := groups, tail + [v];
    if outchars == 4 {
      p := StoreGroup(out, p, src, i + 1, bits, was, whole, rest);
      whole, rest := whole + rest, [];
      bits, outchars := 0, 0;
    } else {
      bits := bits * 0x40;
    }
  }

  // What the loop leaves: the tail in the accumulator is all that is missing, and an odd
  // character of it is the only fault not yet counted.
  ghost predicate Decoded(src: seq<byte>, outsize: nat, whole: seq<sextet>, outchars: nat, bits: nat, errors: int) {
    && outchars <= 3 && (outchars >= 2 ==> outsize >= 4)
    && (outchars == 2 ==> bits < 0x40000) && (outchars == 3 ==> bits < 0x1000000)
    && Stored(src, outsize) == Join(whole) + TailBytes(outchars, bits)
    && errors >= 0 && (Faulty(src, outsize) <==> errors > 0 || outchars == 1)
  }

  lemma NoRoom(src: seq<byte>, outsize: nat, errors: int)
    requires outsize < 4 && errors == if src != [] && src[0] != 0 then 1 else 0
    ensures Decoded(src, outsize, [], 0, 0, errors)
  {
  }

  // The bytes in a tail of two or three characters.
  function TailBytes(outchars: nat, bits: nat): seq<int> {
    if outchars == 2 then [bits / 0x400]
    else if outchars == 3 then [bits / 0x10000] + [bits / 0x100 % 0x100]
    else []
  }

  method StoreTail(out: array<byte>, at: nat, outsize: nat, outchars: nat, bits: nat, before: int, ghost was: seq<byte>, ghost text: seq<byte>)
    returns (p: nat, errors: int)
    requires outchars <= 3 && (outchars >= 2 ==> outsize >= 4)
    requires (outchars == 2 ==> bits < 0x40000) && (outchars == 3 ==> bits < 0x1000000)
    requires |was| == out.Length && at == |text| && at + |TailBytes(outchars, bits)| < out.Length
    requires out[..] == Splice(was, 0, text)
    modifies out
    ensures p == at + |TailBytes(outchars, bits)|
    ensures out[..] == Splice(was, 0, text + TailBytes(outchars, bits) + [0])
    ensures errors == if outchars == 1 then before + 1 else before
  {
    p, errors := at, before;
    match outchars {
      case 1 => errors := errors + 1;
      case 2 =>
        if outsize < 2 { errors := errors + 1; }
        else { p := Store(out, p, bits / 0x400, false, was, text); }
      case 3 =>
        if outsize < 3 { errors := errors + 1; }
        else { p := StoreBits(out, p, bits, 2, was, text); }
      case _ =>
    }
    assert text + [] == text;
    var q := Store(out, p, 0, false, was, text + TailBytes(outchars, bits));
  }

  method StoreGroup(out: array<byte>, at: nat, src: seq<byte>, i: nat, bits: nat,
                    ghost was: seq<byte>, ghost whole: seq<sextet>, ghost rest: seq<sextet>) returns (p: nat)
    requires i <= |src| && Sextets(src) == whole + rest + Sextets(src[i..])
    requires |whole| % 4 == 0 && |rest| == 4 && bits == Bits(rest[..3]) + rest[3]
    requires |was| == out.Length && |Join(Sextets(src))| < out.Length && at == |Join(whole)| < out.Length
    requires out[..] == Splice(was, 0, Join(whole))
    modifies out
    ensures p == |Join(whole + rest)| < out.Length && out[..] == Splice(was, 0, Join(whole + rest))
    ensures Consumed(src, i, whole + rest, [], 0, 0)
  {
    WholeGroup(src, i, whole, rest, bits);
    p := StoreBits(out, at, bits, 3, was, Join(whole));
  }

  // The first two or all three bytes of the accumulator.
  method StoreBits(out: array<byte>, at: nat, bits: nat, n: nat, ghost was: seq<byte>, ghost text: seq<byte>) returns (p: nat)
    requires bits < 0x1000000 && 2 <= n <= 3
    requires |was| == out.Length && at == |text| && at + n <= out.Length && out[..] == Splice(was, 0, text)
    modifies out
    ensures p == at + n
    ensures out[..] == Splice(was, 0,
      text + ([bits / 0x10000] + [bits / 0x100 % 0x100]) + if n == 3 then [bits % 0x100] else [])
  {
    p := Store(out, at, bits / 0x10000, false, was, text);
    p := Store(out, p, bits / 0x100 % 0x100, false, was, text + [bits / 0x10000]);
    ghost var two := text + ([bits / 0x10000] + [bits / 0x100 % 0x100]);
    assert two + [] == two == text + [bits / 0x10000] + [bits / 0x100 % 0x100];
    if n == 3 { p := Store(out, p, bits % 0x100, false, was, two); }
  }

  // The first i characters were symbols: whole groups, and the rest in the accumulator.
  ghost predicate Consumed(src: seq<byte>, i: nat, whole: seq<sextet>, rest: seq<sextet>, outchars: nat, bits: nat)
    requires i <= |src|
  {
    && Sextets(src) == whole + rest + Sextets(src[i..])
    && |whole| % 4 == 0 && outchars == |rest| <= 3
    && bits == Bits(rest)
  }

  lemma {:induction false} OneMore(src: seq<byte>, i: nat, whole: seq<sextet>, rest: seq<sextet>, outchars: nat, bits: nat)
    requires i < |src| && Consumed(src, i, whole, rest, outchars, bits) && Read(src[i]).Sextet?
    ensures var c := Read(src[i]).v;
      && Sextets(src) == whole + (rest + [c]) + Sextets(src[i + 1..])
      && (|rest| < 3 ==> Consumed(src, i + 1, whole, rest + [c], outchars + 1, (bits + c) * 0x40))
  {
    NextSextet(src, i);
    Shift(whole, rest, Read(src[i]).v, Sextets(src[i + 1..]));
    MoreBits(rest, Read(src[i]).v);
  }

  lemma NextSextet(src: seq<byte>, i: nat)
    requires i < |src| && Read(src[i]).Sextet?
    ensures Sextets(src[i..]) == [Read(src[i]).v] + Sextets(src[i + 1..])
  {
    assert src[i..][1..] == src[i + 1..];
  }

  lemma Shift(a: seq<sextet>, b: seq<sextet>, c: sextet, d: seq<sextet>)
    ensures a + b + ([c] + d) == a + (b + [c]) + d
  {
  }

  lemma MoreBits(rest: seq<sextet>, c: sextet)
    requires |rest| < 4
    ensures |rest| < 3 ==> (Bits(rest) + c) * 0x40 == Bits(rest + [c])
  {
  }

  lemma {:induction false} WholeGroup(src: seq<byte>, i: nat, whole: seq<sextet>, rest: seq<sextet>, bits: nat)
    requires i <= |src| && Sextets(src) == whole + rest + Sextets(src[i..])
    requires |whole| % 4 == 0 && |rest| == 4 && bits == Bits(rest[..3]) + rest[3]
    ensures bits < 0x1000000
    ensures Join(whole + rest) == Join(whole) + ([bits / 0x10000] + [bits / 0x100 % 0x100]) + [bits % 0x100]
    ensures |Join(whole + rest)| <= |Join(Sextets(src))|
    ensures Consumed(src, i, whole + rest, [], 0, 0)
  {
    JoinAppend(whole, rest);
    assert rest[..3] == [rest[0], rest[1], rest[2]];
    FourBits(rest[0], rest[1], rest[2], rest[3]);
    var t := Triple(rest[0], rest[1], rest[2], rest[3]);
    assert Join(rest) == t + Join(rest[4..]) && Join(rest[4..]) == [];
    assert Join(whole) + t == Join(whole) + ([t[0]] + [t[1]]) + [t[2]];
  }

  lemma Ends(src: seq<byte>, outsize: nat, i: nat, whole: seq<sextet>, rest: seq<sextet>, outchars: nat, bits: nat)
    requires outsize >= 4 && i <= |src| && Consumed(src, i, whole, rest, outchars, bits)
    requires i == |src| || src[i] == 0 || Read(src[i]).NotASymbol?
    ensures Decoded(src, outsize, whole, outchars, bits, 0)
  {
    assert Sextets(src[i..]) == [] && Sextets(src) == whole + rest;
    JoinAppend(whole, rest);
    if outchars >= 2 { TailBits(rest); }
  }
}
