/** Byte strings and the validity of UTF-8 (section 4 of RFC 3629). */
module Utf8 {
  import opened Prelude

  type byte = b: int | 0 <= b < 256

  type Bytes = seq<byte>

  /** What one read brings: at least one byte. */
  type Chunk = c: Bytes | c != [] witness [0]

  const NEWLINE: byte := 0x0A
  const SLASH: byte := 0x2F

  /** The first place of a byte, or the length. */
  function IndexOf(s: Bytes, b: byte): (i: nat)
    ensures i <= |s| && (i < |s| ==> s[i] == b) && b !in s[..i]
  {
    if s == [] || s[0] == b then 0 else 1 + IndexOf(s[1..], b)
  }

  lemma {:induction false} IndexAfter(s: Bytes, t: Bytes, b: byte)
    requires b !in s
    ensures IndexOf(s + t, b) == |s| + IndexOf(t, b)
  {
    if s == [] {
      assert s + t == t;
    } else {
      assert (s + t)[1..] == s[1..] + t;
      IndexAfter(s[1..], t, b);
    }
  }

  predicate Tail(b: byte) {
    0x80 <= b <= 0xBF
  }

  /** The length of the well-formed character at the start of `s`, or 0. */
  function CharLen(s: Bytes): nat {
    if |s| >= 1 && s[0] <= 0x7F then 1
    else if |s| >= 2 && 0xC2 <= s[0] <= 0xDF && Tail(s[1]) then 2
    else if |s| >= 3 && Three(s[0], s[1]) && Tail(s[2]) then 3
    else if |s| >= 4 && Four(s[0], s[1]) && Tail(s[2]) && Tail(s[3]) then 4
    else 0
  }

  predicate Three(a: byte, b: byte) {
    || (a == 0xE0 && 0xA0 <= b <= 0xBF)
    || (0xE1 <= a <= 0xEC && Tail(b))
    || (a == 0xED && 0x80 <= b <= 0x9F)
    || (0xEE <= a <= 0xEF && Tail(b))
  }

  predicate Four(a: byte, b: byte) {
    || (a == 0xF0 && 0x90 <= b <= 0xBF)
    || (0xF1 <= a <= 0xF3 && Tail(b))
    || (a == 0xF4 && 0x80 <= b <= 0x8F)
  }

  predicate Valid(s: Bytes) {
    s == [] || (0 < CharLen(s) <= |s| && Valid(s[CharLen(s)..]))
  }

  /** The text type of the source: bytes that are always valid UTF-8. */
  type Text = s: Bytes | Valid(s)

  /** Where a text may be cut: at its ends or before a byte that starts a character. */
  predicate IsBoundary(s: Bytes, i: int) {
    0 <= i <= |s| && (i == 0 || i == |s| || !Tail(s[i]))
  }

  /** One whole character. */
  predicate IsChar(c: Bytes) {
    c != [] && CharLen(c) == |c|
  }

  lemma CharShape(c: Bytes)
    requires IsChar(c)
    ensures |c| <= 4 && !Tail(c[0]) && forall k :: 0 < k < |c| ==> Tail(c[k])
  {
  }

  lemma Prepend(c: Bytes, rest: Bytes)
    requires IsChar(c)
    ensures CharLen(c + rest) == |c|
    ensures Valid(rest) <==> Valid(c + rest)
  {
    var s := c + rest;
    assert forall k :: 0 <= k < |c| ==> s[k] == c[k];
    assert s[|c|..] == rest;
    hide Three, Four, Tail;
  }

  lemma FirstChar(s: Bytes) returns (c: Bytes, rest: Bytes)
    requires Valid(s) && s != []
    ensures s == c + rest && c != [] && IsChar(c) && Valid(rest)
  {
    var n := CharLen(s);
    c, rest := s[..n], s[n..];
    hide Three, Four, Tail;
  }

  lemma {:induction false} ConcatValid(a: Bytes, b: Bytes)
    requires Valid(a) && Valid(b)
    ensures Valid(a + b)
    decreases |a|
  {
    hide Valid, IsChar;
    if a == [] {
      assert a + b == b;
    } else {
      var c, rest := FirstChar(a);
      Whole(c);
      ConcatValid(rest, b);
      Prepend(c, rest + b);
      assert a + b == c + (rest + b);
    }
  }

  lemma {:induction false} AsciiValid(s: Bytes)
    requires forall k :: 0 <= k < |s| ==> s[k] <= 0x7F
    ensures Valid(s)
  {
    if s != [] {
      AsciiValid(s[1..]);
    }
  }

  lemma Whole(c: Bytes)
    requires IsChar(c)
    ensures |c| > 0 && Valid(c)
  {
    assert c[|c|..] == [];
  }

  /** Removing a valid front from valid text leaves valid text. */
  lemma {:induction false} RestValid(a: Bytes, b: Bytes)
    requires Valid(a) && Valid(a + b)
    ensures Valid(b)
    decreases |a|
  {
    hide Valid, IsChar;
    if a == [] {
      assert a + b == b;
    } else {
      var c, rest := FirstChar(a);
      Whole(c);
      assert a + b == c + (rest + b);
      Prepend(c, rest + b);
      RestValid(rest, b);
    }
  }

  /** No boundary lies inside a character; later ones are boundaries of the rest. */
  lemma BoundaryPastChar(c: Bytes, rest: Bytes, i: int)
    requires c != [] && IsChar(c) && IsBoundary(c + rest, i) && i != 0
    ensures |c| <= i && IsBoundary(rest, i - |c|)
  {
    CharShape(c);
    hide Tail, IsChar;
    assert forall k :: 0 <= k < |c| ==> (c + rest)[k] == c[k];
  }

  lemma {:induction false} Split(s: Bytes, i: int) returns (a: Bytes, b: Bytes)
    requires Valid(s) && IsBoundary(s, i)
    ensures s == a + b && |a| == i && Valid(a) && Valid(b)
    decreases |s|
  {
    if i == 0 {
      a, b := [], s;
    } else {
      hide Valid, IsChar;
      var c, rest := FirstChar(s);
      BoundaryPastChar(c, rest, i);
      hide IsBoundary;
      Whole(c);
      var a', b' := Split(rest, i - |c|);
      ConcatValid(c, a');
      Assoc(c, a', b');
      a, b := c + a', b';
    }
  }

  /** Cutting valid text at a boundary leaves two valid texts. */
  lemma SplitValid(s: Bytes, i: int)
    requires Valid(s) && IsBoundary(s, i)
    ensures Valid(s[..i]) && Valid(s[i..])
  {
    hide Valid, IsBoundary;
    var a, b := Split(s, i);
    assert s[..i] == a && s[i..] == b;
  }

  lemma StartsAtBoundary(s: Bytes)
    requires Valid(s) && s != []
    ensures !Tail(s[0])
  {
  }

  /** A valid part found at a boundary of valid text also ends at a boundary. */
  lemma MatchEndsAtBoundary(s: Bytes, i: int, part: Bytes)
    requires Valid(s) && IsBoundary(s, i) && Valid(part)
    requires i + |part| <= |s| && s[i..i + |part|] == part
    ensures IsBoundary(s, i + |part|)
  {
    hide CharLen, Valid, Tail;
    SplitValid(s, i);
    var rest := s[i + |part|..];
    assert s[i..] == part + rest;
    RestValid(part, rest);
    if rest != [] {
      StartsAtBoundary(rest);
      assert rest[0] == s[i + |part|];
    }
  }

  /** Every position has a boundary at most three bytes below it. */
  lemma {:induction false} BoundaryBelow(s: Bytes, i: int) returns (j: int)
    requires Valid(s) && 0 <= i <= |s|
    ensures i - 3 <= j <= i && IsBoundary(s, j)
    decreases |s|
  {
    if s == [] || i == |s| {
      j := i;
    } else {
      hide Valid, CharLen, Tail;
      var c, rest := FirstChar(s);
      CharShape(c);
      if i < |c| {
        j := 0;
      } else {
        j := BoundaryBelow(rest, i - |c|);
        StillBoundary(c, rest, j);
        j := j + |c|;
      }
    }
  }

  lemma StillBoundary(c: Bytes, rest: Bytes, j: int)
    requires Valid(rest) && IsBoundary(rest, j)
    ensures IsBoundary(c + rest, |c| + j)
  {
    hide Tail;
    if rest != [] {
      StartsAtBoundary(rest);
    }
    hide Valid;
  }

  /** ... and one at most three bytes above it. */
  lemma {:induction false} BoundaryAbove(s: Bytes, i: int) returns (j: int)
    requires Valid(s) && 0 <= i <= |s|
    ensures i <= j <= i + 3 && IsBoundary(s, j)
    decreases |s|
  {
    if i == 0 || i == |s| {
      j := i;
    } else {
      hide Valid, CharLen, Tail;
      var c, rest := FirstChar(s);
      CharShape(c);
      if i <= |c| {
        StillBoundary(c, rest, 0);
        j := |c|;
      } else {
        j := BoundaryAbove(rest, i - |c|);
        StillBoundary(c, rest, j);
        j := j + |c|;
      }
    }
  }

  // ------------------------------------------------- texts as Unicode scalars

  /** A Unicode scalar value: a code point that is no surrogate. */
  type Scalar = c: int | 0 <= c <= 0x10FFFF && !(0xD800 <= c <= 0xDFFF)

  /** The encoding of section 3 of RFC 3629. */
  function Encoding(c: Scalar): Bytes {
    if c <= 0x7F then [c]
    else if c <= 0x7FF then [0xC0 + c / 0x40, 0x80 + c % 0x40]
    else if c <= 0xFFFF then [0xE0 + c / 0x1000, 0x80 + c / 0x40 % 0x40, 0x80 + c % 0x40]
    else [0xF0 + c / 0x40000, 0x80 + c / 0x1000 % 0x40, 0x80 + c / 0x40 % 0x40, 0x80 + c % 0x40]
  }

  function EncodingOf(text: seq<Scalar>): Bytes {
    if text == [] then [] else Encoding(text[0]) + EncodingOf(text[1..])
  }

  lemma ShortEncoding(c: Scalar)
    requires c <= 0x7FF
    ensures IsChar(Encoding(c))
  {
  }

  lemma MiddleEncoding(c: Scalar)
    requires 0x7FF < c <= 0xFFFF
    ensures IsChar(Encoding(c))
  {
    var s := Encoding(c);
    assert s[0] == 0xE0 ==> s[1] >= 0xA0;
    assert s[0] == 0xED ==> s[1] <= 0x9F;
  }

  lemma LongEncoding(c: Scalar)
    requires 0xFFFF < c
    ensures IsChar(Encoding(c))
  {
    var s := Encoding(c);
    assert s[0] == 0xF0 ==> s[1] >= 0x90;
    assert s[0] == 0xF4 ==> s[1] <= 0x8F;
  }

  lemma EncodingIsChar(c: Scalar)
    ensures IsChar(Encoding(c))
  {
    hide Encoding, IsChar;
    if c <= 0x7FF {
      ShortEncoding(c);
    } else if c <= 0xFFFF {
      MiddleEncoding(c);
    } else {
      LongEncoding(c);
    }
  }

  /** The low six bits and the rest. */
  lemma SixBits(high: nat, low: nat)
    requires low < 0x40
    ensures (0x40 * high + low) / 0x40 == high && (0x40 * high + low) % 0x40 == low
  {
  }

  lemma TwoBytes(s: Bytes) returns (c: Scalar)
    requires |s| == 2 && IsChar(s)
    ensures Encoding(c) == s
  {
    var a: nat, b: nat := s[0] - 0xC0, s[1] - 0x80;
    SixBits(a, b);
    c := 0x40 * a + b;
  }

  lemma ThreeBytes(s: Bytes) returns (c: Scalar)
    requires |s| == 3 && IsChar(s)
    ensures Encoding(c) == s
  {
    var a: nat, b: nat, d: nat := s[0] - 0xE0, s[1] - 0x80, s[2] - 0x80;
    var v := 0x40 * (0x40 * a + b) + d;
    SixBits(a, b);
    SixBits(0x40 * a + b, d);
    assert v / 0x1000 == a;
    assert 0x800 <= v <= 0xFFFF && !(0xD800 <= v <= 0xDFFF);
    c := v;
  }

  lemma FourBytes(s: Bytes) returns (c: Scalar)
    requires |s| == 4 && IsChar(s)
    ensures Encoding(c) == s
  {
    var a: nat, b: nat, d: nat, e: nat := s[0] - 0xF0, s[1] - 0x80, s[2] - 0x80, s[3] - 0x80;
    var v := 0x40 * (0x40 * (0x40 * a + b) + d) + e;
    SixBits(a, b);
    SixBits(0x40 * a + b, d);
    SixBits(0x40 * (0x40 * a + b) + d, e);
    assert v / 0x1000 == 0x40 * a + b;
    assert v / 0x40000 == a;
    assert 0x10000 <= v <= 0x10FFFF;
    c := v;
  }

  lemma CharIsEncoding(s: Bytes) returns (c: Scalar)
    requires IsChar(s)
    ensures Encoding(c) == s
  {
    CharShape(s);
    if |s| == 1 {
      c := s[0];
    } else if |s| == 2 {
      c := TwoBytes(s);
    } else if |s| == 3 {
      c := ThreeBytes(s);
    } else {
      c := FourBytes(s);
    }
  }

  lemma {:induction false} EncodingIsValid(text: seq<Scalar>)
    ensures Valid(EncodingOf(text))
  {
    hide IsChar, Encoding, Valid;
    if text != [] {
      EncodingIsValid(text[1..]);
      EncodingIsChar(text[0]);
      Prepend(Encoding(text[0]), EncodingOf(text[1..]));
    } else {
      NothingIsValid();
    }
  }

  lemma NothingIsValid()
    ensures Valid([])
  {
  }

  lemma {:induction false} Decoded(s: Bytes) returns (text: seq<Scalar>)
    requires Valid(s)
    ensures EncodingOf(text) == s
    decreases |s|
  {
    hide IsChar, Encoding, Valid;
    if s == [] {
      text := [];
    } else {
      var first, rest := FirstChar(s);
      var c := CharIsEncoding(first);
      var more := Decoded(rest);
      text := [c] + more;
      assert text[1..] == more;
    }
  }

  /** The valid byte strings are exactly the encodings of sequences of scalar values. */
  lemma ValidIsEncoding(s: Bytes)
    ensures Valid(s) <==> exists text :: EncodingOf(text) == s
  {
    if Valid(s) {
      var text := Decoded(s);
    }
    if exists text :: EncodingOf(text) == s {
      var text :| EncodingOf(text) == s;
      EncodingIsValid(text);
    }
  }
}
