/**
 Base64 written out: which characters a text may hold, what becomes of each when it is escaped, and
 how the bits of a text make up the bytes. Characters and limits are literals here.
 */
module Base64Forms {
  import opened Bytes
  import opened Base64

  // ---- Characters ----

  predicate LetterOrDigit(c: byte) {
    0x41 <= c <= 0x5A || 0x61 <= c <= 0x7A || 0x30 <= c <= 0x39
  }

  // The decoder reads a character as a value if and only if it stands for that value in one of the two
  // alphabets, and these are the letters, the digits, and two marks each.
  lemma ReadExactly(c: byte, v: sextet)
    ensures Read(c) == Sextet(v) <==> Symbol(v, false) == c || Symbol(v, true) == c
    ensures Read(c).Sextet? <==> LetterOrDigit(c) || c in {0x2B, 0x2F, 0x2D, 0x5F}
  {
  }

  lemma SymbolForms(v: sextet, url: bool)
    ensures LetterOrDigit(Symbol(v, url)) || Symbol(v, url) in (if url then {0x2D, 0x5F} else {0x2B, 0x2F})
  {
  }

  // Where the letters and digits begin, and the two marks of each alphabet.
  lemma SymbolsInOrder(v: sextet, url: bool)
    ensures v < 26 ==> Symbol(v, url) == 0x41 + v
    ensures 26 <= v < 52 ==> Symbol(v, url) == 0x61 + (v - 26)
    ensures 52 <= v < 62 ==> Symbol(v, url) == 0x30 + (v - 52)
    ensures Symbol(62, false) == 0x2B && Symbol(63, false) == 0x2F
    ensures Symbol(62, true) == 0x2D && Symbol(63, true) == 0x5F
  {
  }

  // '+', '/' and '=' are escaped, and nothing else is.
  lemma EscapeForms(c: byte)
    ensures Escape(0x2B) == [0x25, 0x32, 0x42] && Escape(0x2F) == [0x25, 0x32, 0x46] && Escape(0x3D) == [0x25, 0x33, 0x44]
    ensures Escape(c) == [c] <==> c != 0x2B && c != 0x2F && c != 0x3D
  {
    assert |Escape(c)| == 3 || |Escape(c)| == 1;
  }

  // None of the three is left in an escaped text.
  lemma {:induction false} EscapedIsSafe(s: seq<byte>)
    ensures 0x2B !in Escaped(s) && 0x2F !in Escaped(s) && 0x3D !in Escaped(s)
  {
    if s != [] {
      EscapedIsSafe(s[1..]);
      EscapeForms(s[0]);
    }
  }

  // A text without them is its own escape.
  lemma {:induction false} SafeIsUnescaped(s: seq<byte>)
    requires 0x2B !in s && 0x2F !in s && 0x3D !in s
    ensures Escaped(s) == s
  {
    if s != [] {
      EscapeForms(s[0]);
      SafeIsUnescaped(s[1..]);
    }
  }

  lemma {:induction false} SymbolsOf(v: seq<sextet>, url: bool, c: byte)
    requires c in Symbols(v, url)
    ensures LetterOrDigit(c) || c in (if url then {0x2D, 0x5F} else {0x2B, 0x2F})
  {
    SymbolForms(v[0], url);
    if c != Symbol(v[0], url) { SymbolsOf(v[1..], url, c); }
  }

  // So the plain text in the URL alphabet needs no escapes, and without escapes there is a '=' only in
  // the other alphabet.
  lemma {:induction false} UrlTextIsSafe(src: seq<byte>)
    ensures Escaped(Text(src, true, false)) == Text(src, true, false)
    ensures 0x3D in Text(src, false, false) <==> |src| % 3 != 0
  {
    forall c | c in Symbols(Split(src), true) ensures c !in {0x2B, 0x2F, 0x3D} { SymbolsOf(Split(src), true, c); }
    forall c | c in Symbols(Split(src), false) ensures c != 0x3D { SymbolsOf(Split(src), false, c); }
    PlainForms(src);
    SafeIsUnescaped(Text(src, true, false));
  }

  // ---- Texts ----

  // The plain text ends in "==", "=" or nothing as 1, 2 or 0 bytes are left over, in the first alphabet
  // only; the escaped text is that of the padded one, in both.
  lemma PlainForms(src: seq<byte>)
    ensures Text(src, true, false) == Symbols(Split(src), true)
    ensures |src| % 3 == 0 ==> Text(src, false, false) == Symbols(Split(src), false)
    ensures |src| % 3 == 1 ==> Text(src, false, false) == Symbols(Split(src), false) + ([0x3D] + [0x3D])
    ensures |src| % 3 == 2 ==> Text(src, false, false) == Symbols(Split(src), false) + [0x3D]
  {
    NoneAdded(Symbols(Split(src), true));
    NoneAdded(Symbols(Split(src), false));
    Pads(|src|);
  }

  lemma NoneAdded(s: seq<byte>)
    ensures s + [] == s
  {
  }

  lemma Pads(n: nat)
    ensures Padding(n) == if n % 3 == 0 then [] else if n % 3 == 1 then [0x3D] + [0x3D] else [0x3D]
  {
  }

  lemma {:induction false} EscapedForms(src: seq<byte>, url: bool)
    ensures |src| % 3 == 0 ==> Text(src, url, true) == Escaped(Symbols(Split(src), url))
    ensures |src| % 3 == 1 ==>
      Text(src, url, true) == Escaped(Symbols(Split(src), url)) + ([0x25, 0x33, 0x44] + [0x25, 0x33, 0x44])
    ensures |src| % 3 == 2 ==> Text(src, url, true) == Escaped(Symbols(Split(src), url)) + [0x25, 0x33, 0x44]
  {
    var s := Symbols(Split(src), url);
    EscapedAppend(s, Padding(|src|));
    NoneAdded(Escaped(s));
    Pads(|src|);
    EscapedPads();
  }

  lemma EscapedPads()
    ensures Escaped([0x3D]) == [0x25, 0x33, 0x44]
    ensures Escaped([0x3D] + [0x3D]) == [0x25, 0x33, 0x44] + [0x25, 0x33, 0x44]
  {
    EscapeForms(0x3D);
    assert Escaped([0x3D]) == Escape(0x3D) + Escaped([]);
    EscapedAppend([0x3D], [0x3D]);
  }

  // One byte.
  lemma OneByte(a: byte, url: bool)
    ensures Text([a], true, false) == [Symbol(a / 4, true)] + [Symbol(a % 4 * 16, true)]
    ensures Text([a], false, false) == [Symbol(a / 4, false)] + [Symbol(a % 4 * 16, false)] + [0x3D] + [0x3D]
  {
    GroupEncoded([a], true, false);
    GroupEncoded([a], false, true);
    assert [Symbol(a / 4, true)] + [Symbol(a % 4 * 16, true)] + [] + [] == [Symbol(a / 4, true)] + [Symbol(a % 4 * 16, true)];
  }

  // ---- Decoding ----

  // Decoding reads values up to the first character that stands for none, and stops there.
  lemma {:induction false} StopsAtOther(v: seq<sextet>, url: bool, other: byte, tail: seq<byte>)
    requires !LetterOrDigit(other) && other !in {0x2B, 0x2F, 0x2D, 0x5F}
    ensures Sextets(Symbols(v, url) + ([other] + tail)) == v
  {
    SextetsOfSymbols(v, url, [other] + tail);
  }

  // What decoding such a text stores and returns: the whole bytes among its bits, and a failure when one
  // value is left over; with outsize below 4 nothing, and a failure unless the text is empty.
  lemma {:induction false} DecodingSymbols(v: seq<sextet>, url: bool, other: byte, tail: seq<byte>, outsize: nat)
    requires !LetterOrDigit(other) && other !in {0x2B, 0x2F, 0x2D, 0x5F}
    ensures var src := Symbols(v, url) + ([other] + tail);
      && (outsize >= 4 ==> Stored(src, outsize) == Join(v) && (Faulty(src, outsize) <==> |v| % 4 == 1))
      && (outsize < 4 ==> Stored(src, outsize) == [] && (Faulty(src, outsize) <==> v != [] || other != 0))
  {
    StopsAtOther(v, url, other, tail);
    if v != [] { ReadSymbol(v[0], url); }
  }

  lemma FourAreThree(acc: nat, a: sextet, b: sextet, c: sextet, d: sextet)
    ensures var t := Triple(a, b, c, d); FourDigits(acc, a, b, c, d) == ThreeDigits(acc, t[0], t[1], t[2])
  {
  }

  lemma TwoAreOne(acc: nat, a: sextet, b: sextet)
    ensures ((acc * 64 + a) * 64 + b) / 16 == acc * 256 + (a as nat * 4 + b / 16)
  {
  }

  lemma ThreeAreTwo(acc: nat, a: sextet, b: sextet, c: sextet)
    ensures (((acc * 64 + a) * 64 + b) * 64 + c) / 4 ==
      (acc * 256 + (a as nat * 4 + b / 16)) * 256 + (b as nat % 16 * 16 + c / 4)
  {
  }

  lemma JoinOfTail(acc: nat, v: seq<sextet>)
    requires |v| < 4
    ensures Number256(acc, Join(v)) ==
      Number64(acc, v) / (if |v| == 0 then 1 else if |v| == 1 then 64 else if |v| == 2 then 16 else 4)
  {
    if |v| == 1 {
      assert v[1..] == [];
    } else if |v| == 2 {
      assert v == [v[0], v[1]] && Join(v)[1..] == [];
      Number64OfPair(acc, v[0], v[1]);
      TwoAreOne(acc, v[0], v[1]);
    } else if |v| == 3 {
      assert v[1..] == [v[1], v[2]];
      Number64OfPair(acc * 64 + v[0], v[1], v[2]);
      ThreeAreTwo(acc, v[0], v[1], v[2]);
      NumberOfTwo(acc, Join(v));
    }
  }

  lemma NumberOfTwo(acc: nat, b: seq<byte>)
    requires |b| == 2
    ensures Number256(acc, b) == (acc * 256 + b[0]) * 256 + b[1]
  {
    assert b[1..][0] == b[1];
    assert Number256(acc * 256 + b[0], b[1..]) == Number256((acc * 256 + b[0]) * 256 + b[1], b[1..][1..]);
  }

  // RFC 4648 section 4 the other way: the bytes are the bits of the values one after another, without
  // the bits that do not make up a whole byte.
  lemma {:induction false} JoinIsTheBits(acc: nat, v: seq<sextet>)
    ensures Number256(acc, Join(v)) ==
      Number64(acc, v) / (if |v| % 4 == 0 then 1 else if |v| % 4 == 1 then 64 else if |v| % 4 == 2 then 16 else 4)
    decreases |v|
  {
    if |v| < 4 {
      JoinOfTail(acc, v);
    } else {
      var first, t := v[..4], Triple(v[0], v[1], v[2], v[3]);
      var next := ThreeDigits(acc, t[0], t[1], t[2]);
      assert v == first + v[4..];
      Number64OfGroup(acc, first, v[4..]);
      FourAreThree(acc, v[0], v[1], v[2], v[3]);
      JoinIsTheBits(next, v[4..]);
      Number256OfGroup(acc, Join(v));
      assert Join(v)[3..] == Join(v[4..]);
    }
  }
}
