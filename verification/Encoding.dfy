/** Well-formed texts are the encodings of sequences of Unicode scalar values: section 3 of
    RFC 3629. */
module Encoding {
  import opened Utf8
  import opened Characters

  predicate IsScalar(c: int) {
    0 <= c <= 0x10FFFF && !(0xD800 <= c <= 0xDFFF)
  }

  function Encode(c: int): (r: Text)
    requires IsScalar(c)
    ensures 1 <= |r| <= 4
  {
    if c <= 0x7F then [c]
    else if c <= 0x7FF then [0xC0 + c / 64, 0x80 + c % 64]
    else if c <= 0xFFFF then [0xE0 + c / 64 / 64, 0x80 + c / 64 % 64, 0x80 + c % 64]
    else [0xF0 + c / 64 / 64 / 64, 0x80 + c / 64 / 64 % 64, 0x80 + c / 64 % 64, 0x80 + c % 64]
  }

  predicate AllScalar(cs: seq<int>) {
    forall i :: 0 <= i < |cs| ==> IsScalar(cs[i])
  }

  function EncodeAll(cs: seq<int>): Text
    requires AllScalar(cs)
  {
    if cs == [] then [] else Encode(cs[0]) + EncodeAll(cs[1..])
  }

  /** Six more bits, from a continuation byte. */
  function Six(high: int, b: int): int {
    high * 64 + (b - 0x80)
  }

  lemma SixIs(high: int, b: int)
    requires 0x80 <= b < 0xC0
    ensures Six(high, b) / 64 == high && 0x80 + Six(high, b) % 64 == b
  {
  }

  /** The scalar value of the character at the front. */
  function Decode(s: Text): int
    requires CharLen(s) > 0
  {
    var a: int := s[0];
    match CharLen(s)
    case 1 => a
    case 2 => Six(a - 0xC0, s[1])
    case 3 => Six(Six(a - 0xE0, s[1]), s[2])
    case _ => Six(Six(Six(a - 0xF0, s[1]), s[2]), s[3])
  }

  /** An encoded value is one character, whatever follows, */
  lemma EncodedIsChar(c: int, rest: Text)
    requires IsScalar(c)
    ensures CharLen(Encode(c) + rest) == |Encode(c)| && Decode(Encode(c) + rest) == c
  {
    var b := c / 64;
    var d := b / 64;
  }

  lemma TwoBytes(a: byte, b: byte)
    requires 0xC2 <= a <= 0xDF && IsContinuation(b)
    ensures var c := Six(a - 0xC0, b); IsScalar(c) && Encode(c) == [a, b]
  {
    SixIs(a - 0xC0, b);
  }

  lemma ThreeBytes(a: byte, b: byte, d: byte)
    requires 0xE0 <= a <= 0xEF && SecondOfThree(a, b) && IsContinuation(d)
    ensures var c := Six(Six(a - 0xE0, b), d); IsScalar(c) && Encode(c) == [a, b, d]
  {
    var high := Six(a - 0xE0, b);
    SixIs(a - 0xE0, b);
    SixIs(high, d);
    assert 0x20 <= high <= 0x3FF && !(0x360 <= high <= 0x37F);
  }

  lemma FourBytes(a: byte, b: byte, d: byte, e: byte)
    requires 0xF0 <= a <= 0xF4 && SecondOfFour(a, b) && IsContinuation(d) && IsContinuation(e)
    ensures var c := Six(Six(Six(a - 0xF0, b), d), e); IsScalar(c) && Encode(c) == [a, b, d, e]
  {
    var high := Six(a - 0xF0, b);
    SixIs(a - 0xF0, b);
    SixIs(high, d);
    SixIs(Six(high, d), e);
    assert 0x10 <= high <= 0x10F;
  }

  /** and a character is an encoded value. */
  lemma CharIsEncoded(s: Text)
    requires CharLen(s) > 0
    ensures IsScalar(Decode(s)) && Encode(Decode(s)) == s[..CharLen(s)]
  {
    hide Six, Encode;
    match CharLen(s)
    case 1 =>
      OneByte(s[0]);
    case 2 =>
      TwoBytes(s[0], s[1]);
    case 3 =>
      ThreeBytes(s[0], s[1], s[2]);
    case _ =>
      FourBytes(s[0], s[1], s[2], s[3]);
  }

  lemma OneByte(a: byte)
    requires a <= 0x7F
    ensures IsScalar(a) && Encode(a) == [a]
  {
  }

  ghost predicate Encodes(cs: seq<int>, s: Text) {
    AllScalar(cs) && EncodeAll(cs) == s
  }

  lemma {:induction false} EncodedIsWellFormed(cs: seq<int>)
    requires AllScalar(cs)
    ensures WellFormed(EncodeAll(cs))
    ensures |Chars(EncodeAll(cs))| == |cs| && forall i :: 0 <= i < |cs| ==> Chars(EncodeAll(cs))[i] == Encode(cs[i])
  {
    if cs != [] {
      var first, rest := Encode(cs[0]), EncodeAll(cs[1..]);
      EncodedIsWellFormed(cs[1..]);
      EncodedIsChar(cs[0], rest);
      var s := first + rest;
      assert s[..|first|] == first && s[|first|..] == rest;
      assert Chars(s) == [first] + Chars(rest);
    }
  }

  lemma {:induction false} WellFormedIsEncoded(s: Text) returns (cs: seq<int>)
    requires WellFormed(s)
    ensures Encodes(cs, s)
    decreases |s|
  {
    if s == [] {
      cs := [];
    } else {
      var n := CharLen(s);
      var rest := WellFormedIsEncoded(s[n..]);
      CharIsEncoded(s);
      cs := [Decode(s)] + rest;
      assert cs[1..] == rest && s == s[..n] + s[n..];
    }
  }

  /** A text is well-formed exactly when it encodes scalar values. */
  lemma WellFormedIff(s: Text)
    ensures WellFormed(s) <==> exists cs :: Encodes(cs, s)
  {
    if WellFormed(s) {
      var cs := WellFormedIsEncoded(s);
    }
    if cs :| Encodes(cs, s) {
      EncodedIsWellFormed(cs);
    }
  }

  /** Two texts that encode the same values are the same, and the other way round. */
  lemma EncodedOnce(a: seq<int>, b: seq<int>)
    requires AllScalar(a) && AllScalar(b) && EncodeAll(a) == EncodeAll(b)
    ensures a == b
  {
    EncodedIsWellFormed(a);
    EncodedIsWellFormed(b);
    hide EncodeAll, Chars, WellFormed;
    forall i | 0 <= i < |a| ensures a[i] == b[i] {
      EncodedIsChar(a[i], []);
      EncodedIsChar(b[i], []);
    }
  }
}
