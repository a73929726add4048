/** Percent-coding of `file://` URIs (sections 2.1 and 2.3 of RFC 3986). */
module UriCodec {
  import opened Prelude
  import opened Utf8

  datatype UriError = UnsupportedScheme | IncompleteEscape | InvalidEscape | NotUtf8

  const PERCENT: byte := 0x25
  const PLUS: byte := 0x2B
  const BACKSLASH: byte := 0x5C

  /** "file://" */
  const SCHEME: Bytes := [0x66, 0x69, 0x6C, 0x65, 0x3A, 0x2F, 0x2F]

  // ---------------------------------------------------------------- source

  predicate IsAlphanumeric(b: byte) {
    0x30 <= b <= 0x39 || 0x41 <= b <= 0x5A || 0x61 <= b <= 0x7A
  }

  /** The bytes that are written as they are: unreserved characters, "/" and ":". */
  predicate Kept(b: byte) {
    IsAlphanumeric(b) || b in {0x2D, 0x2E, 0x5F, 0x7E, 0x2F, 0x3A}
  }

  function HexDigit(n: int): byte
    requires 0 <= n < 16
  {
    if n < 10 then 0x30 + n else 0x37 + n
  }

  function HexValue(b: byte): Option<nat> {
    if 0x30 <= b <= 0x39 then Some(b - 0x30)
    else if 0x41 <= b <= 0x46 then Some(b - 0x37)
    else if 0x61 <= b <= 0x66 then Some(b - 0x57)
    else None
  }

  /** A two-byte number in base 16; a leading plus sign is accepted as well. */
  function HexPair(a: byte, b: byte): (r: Option<byte>)
    ensures r.Some? <==> (HexValue(a).Some? || a == PLUS) && HexValue(b).Some?
  {
    match HexValue(b)
    case None => None
    case Some(low) =>
      if a == PLUS then Some(low)
      else
        match HexValue(a)
        case None => None
        case Some(high) => Some(16 * high + low)
  }

  function EncodeByte(b: byte): Bytes {
    if Kept(b) then [b] else [PERCENT, HexDigit(b / 16), HexDigit(b % 16)]
  }

  function Encode(s: Bytes): Bytes {
    if s == [] then [] else EncodeByte(s[0]) + Encode(s[1..])
  }

  method EncodeUriPath(value: Bytes) returns (output: Bytes)
    ensures output == Encode(value)
  {
    output := [];
    for k := 0 to |value|
      invariant output == Encode(value[..k])
    {
      EncodeConcat(value[..k], [value[k]]);
      assert value[..k + 1] == value[..k] + [value[k]];
      EncodeOne(value[k]);
      if Kept(value[k]) {
        output := output + [value[k]];
      } else {
        output := output + [PERCENT, HexDigit(value[k] / 16), HexDigit(value[k] % 16)];
      }
    }
    assert value[..|value|] == value;
  }

  /** The bytes that a percent-coded string stands for, or its first error. */
  function DecodeBytes(u: Bytes): Result<Bytes, UriError> {
    if u == [] then Ok([])
    else if u[0] != PERCENT then Prefixed(u[0], DecodeBytes(u[1..]))
    else if |u| <= 2 then Err(IncompleteEscape)
    else
      match HexPair(u[1], u[2])
      case None => Err(InvalidEscape)
      case Some(b) => Prefixed(b, DecodeBytes(u[3..]))
  }

  function Prefixed(b: byte, r: Result<Bytes, UriError>): Result<Bytes, UriError> {
    match r
    case Ok(s) => Ok([b] + s)
    case Err(e) => Err(e)
  }

  function Decode(u: Bytes): Result<Text, UriError> {
    match DecodeBytes(u)
    case Ok(s) => if Valid(s) then Ok(s) else Err(NotUtf8)
    case Err(e) => Err(e)
  }

  method DecodeUriPath(value: Bytes) returns (r: Result<Text, UriError>)
    ensures r == Decode(value)
  {
    hide Valid, HexPair;
    var output: Bytes := [];
    var index := 0;
    ResumeBounds(output, DecodeBytes(value));
    assert value[0..] == value;
    while index < |value|
      invariant index <= |value|
      invariant DecodeBytes(value) == Resumed(output, DecodeBytes(value[index..]))
    {
      var rest := value[index..];
      if value[index] == PERCENT {
        if index + 2 >= |value| {
          return Err(IncompleteEscape);
        }
        var pair := HexPair(value[index + 1], value[index + 2]);
        if pair.None? {
          return Err(InvalidEscape);
        }
        assert value[index + 3..] == rest[3..];
        ResumeStep(output, pair.value, DecodeBytes(rest[3..]));
        output := output + [pair.value];
        index := index + 3;
      } else {
        assert value[index + 1..] == rest[1..];
        ResumeStep(output, value[index], DecodeBytes(rest[1..]));
        output := output + [value[index]];
        index := index + 1;
      }
    }
    assert output + [] == output;
    r := if Valid(output) then Ok(output) else Err(NotUtf8);
  }

  lemma ResumeBounds(done: Bytes, r: Result<Bytes, UriError>)
    ensures Resumed([], r) == r && Resumed(done, Ok([])) == Ok(done)
  {
    assert done + [] == done;
    if r.Ok? {
      assert [] + r.value == r.value;
    }
  }

  lemma ResumeStep(done: Bytes, b: byte, r: Result<Bytes, UriError>)
    ensures Resumed(done, Prefixed(b, r)) == Resumed(done + [b], r)
  {
    if r.Ok? {
      Assoc(done, [b], r.value);
    }
  }

  function Resumed(done: Bytes, r: Result<Bytes, UriError>): Result<Bytes, UriError> {
    match r
    case Ok(s) => Ok(done + s)
    case Err(e) => Err(e)
  }

  function PathToFileUri(path: Bytes): Bytes {
    var rendered := ForwardSlashes(path);
    SCHEME + Encode(if [SLASH] <= rendered then rendered else [SLASH] + rendered)
  }

  function ForwardSlashes(path: Bytes): (r: Bytes)
    ensures |r| == |path|
    ensures BACKSLASH !in r && forall i :: 0 <= i < |r| ==> r[i] == if path[i] == 0x5C then 0x2F else path[i]
    ensures r == path <==> BACKSLASH !in path
  {
    if path == [] then [] else
      [if path[0] == BACKSLASH then SLASH else path[0]] + ForwardSlashes(path[1..])
  }

  function FileUriToPath(uri: Bytes): Result<Text, UriError> {
    if SCHEME <= uri then Decode(uri[|SCHEME|..]) else Err(UnsupportedScheme)
  }

  // ------------------------------------------------------------ round trips

  lemma EncodeOne(b: byte)
    ensures Encode([b]) == EncodeByte(b)
  {
    assert [b][1..] == [];
  }

  /** Encoding goes byte by byte, so it distributes over concatenation. */
  lemma {:induction false} EncodeConcat(a: Bytes, b: Bytes)
    ensures Encode(a + b) == Encode(a) + Encode(b)
  {
    if a == [] {
      assert a + b == b;
    } else {
      assert (a + b)[1..] == a[1..] + b;
      EncodeConcat(a[1..], b);
      Assoc(EncodeByte(a[0]), Encode(a[1..]), Encode(b));
    }
  }

  lemma HexRoundTrip(b: byte)
    ensures HexPair(HexDigit(b / 16), HexDigit(b % 16)) == Some(b)
  {
  }

  lemma DecodeStep(b: byte, rest: Bytes)
    ensures DecodeBytes(EncodeByte(b) + rest) == Prefixed(b, DecodeBytes(rest))
  {
    hide HexPair, HexDigit;
    var u := EncodeByte(b) + rest;
    if Kept(b) {
      assert u[1..] == rest;
    } else {
      HexRoundTrip(b);
      assert u[3..] == rest;
    }
  }

  /** Decoding undoes encoding on every byte string, hence on every text. */
  lemma {:induction false} DecodeOfEncode(s: Bytes)
    ensures DecodeBytes(Encode(s)) == Ok(s)
    ensures Valid(s) ==> Decode(Encode(s)) == Ok(s)
  {
    hide EncodeByte, HexPair, Valid;
    if s != [] {
      DecodeOfEncode(s[1..]);
      DecodeStep(s[0], Encode(s[1..]));
      assert [s[0]] + s[1..] == s;
    }
  }

  lemma EncodeInjective(s: Bytes, t: Bytes)
    ensures Encode(s) == Encode(t) <==> s == t
  {
    DecodeOfEncode(s);
    DecodeOfEncode(t);
  }

  // -------------------------------------------------- the characters of a URI

  /** ASCII letters and digits, and "-", ".", "_", "~", "/" and ":". */
  predicate Plain(b: byte) {
    || 'A' <= b as char <= 'Z' || 'a' <= b as char <= 'z' || '0' <= b as char <= '9'
    || b as char in "-._~/:"
  }

  const DIGITS: string := "0123456789ABCDEF"

  predicate AllPlain(s: Bytes) {
    forall i :: 0 <= i < |s| ==> Plain(s[i])
  }

  lemma KeptIsPlain(b: byte)
    ensures Kept(b) <==> Plain(b)
  {
    assert b as char in "-._~/:" <==> b in {0x2D, 0x2E, 0x5F, 0x7E, 0x2F, 0x3A} by {
      var extra := "-._~/:";
      assert b as char in extra <==> exists i :: 0 <= i < |extra| && extra[i] == b as char;
    }
  }

  /** A plain byte is written as it is, any other as a percent sign and two upper-case
      hexadecimal digits. */
  lemma ByteEncoding(b: byte)
    ensures EncodeByte(b) == if Plain(b) then [b] else [0x25, DIGITS[b / 16] as byte, DIGITS[b % 16] as byte]
  {
    KeptIsPlain(b);
    HexDigits();
  }

  lemma HexDigits()
    ensures forall n :: 0 <= n < 16 ==> HexDigit(n) as char == DIGITS[n]
  {
  }

  lemma DigitsArePlain(n: nat)
    requires n < 16
    ensures Plain(DIGITS[n] as byte)
  {
  }

  lemma {:induction false} EncodeLength(s: Bytes)
    ensures |Encode(s)| >= |s| && (|Encode(s)| == |s| <==> AllPlain(s))
    ensures AllPlain(s) ==> Encode(s) == s
  {
    hide Plain, EncodeByte;
    if s != [] {
      ByteEncoding(s[0]);
      EncodeLength(s[1..]);
      assert AllPlain(s) <==> Plain(s[0]) && AllPlain(s[1..]) by {
        assert s == [s[0]] + s[1..];
      }
    }
  }

  /** Only plain bytes and percent signs come out, and exactly the plain texts come out
      as they are. */
  lemma {:induction false} EncodeCharacters(s: Bytes)
    ensures forall i :: 0 <= i < |Encode(s)| ==> Plain(Encode(s)[i]) || Encode(s)[i] == 0x25
    ensures Encode(s) == s <==> AllPlain(s)
  {
    hide Plain, EncodeByte;
    EncodeLength(s);
    if s != [] {
      EncodeCharacters(s[1..]);
      ByteEncoding(s[0]);
      DigitsArePlain(s[0] / 16);
      DigitsArePlain(s[0] % 16);
    }
  }

  // ----------------------------------------------------- the digits of an escape

  function UpperCase(b: byte): byte {
    if 'a' <= b as char <= 'f' then b - 32 else b
  }

  /** An escape stands for the byte that its two digits write in base 16, and whether the
      letters among them are small or capital makes no difference. */
  lemma EscapeMeaning(i: nat, j: nat, a: byte, b: byte, rest: Bytes)
    requires i < 16 && j < 16 && UpperCase(a) as char == DIGITS[i] && UpperCase(b) as char == DIGITS[j]
    ensures DecodeBytes([0x25, a, b] + rest) == Prefixed(16 * i + j, DecodeBytes(rest))
  {
    DigitValue(i, a);
    DigitValue(j, b);
    hide HexValue;
    assert ([0x25, a, b] + rest)[3..] == rest;
  }

  lemma DigitValue(n: nat, a: byte)
    requires n < 16 && UpperCase(a) as char == DIGITS[n]
    ensures HexValue(a) == Some(n)
  {
  }

  // ---------------------------------------------------- what decodes to what

  predicate UpperHex(b: byte) {
    0x30 <= b <= 0x39 || 0x41 <= b <= 0x46
  }

  /** The normal form of section 6.2.2 of RFC 3986: kept bytes are bare, all
      others are escaped with upper-case digits. */
  predicate NormalForm(u: Bytes) {
    u == [] ||
    (if u[0] != PERCENT then Kept(u[0]) && NormalForm(u[1..])
     else && |u| > 2 && UpperHex(u[1]) && UpperHex(u[2])
          && !Kept(HexPair(u[1], u[2]).value) && NormalForm(u[3..]))
  }

  lemma {:induction false} EncodeIsNormal(s: Bytes)
    ensures NormalForm(Encode(s))
  {
    if s != [] {
      EncodeIsNormal(s[1..]);
      var u := Encode(s);
      HexRoundTrip(s[0]);
      if Kept(s[0]) {
        assert u[1..] == Encode(s[1..]);
      } else {
        assert u[3..] == Encode(s[1..]);
      }
    }
  }

  lemma {:induction false} EncodeOfDecode(u: Bytes)
    requires NormalForm(u)
    ensures DecodeBytes(u).Ok? && Encode(DecodeBytes(u).value) == u
  {
    if u != [] {
      var n := if u[0] == PERCENT then 3 else 1;
      EncodeOfDecode(u[n..]);
      var s := DecodeBytes(u).value;
      assert s[1..] == DecodeBytes(u[n..]).value;
      if n == 3 {
        NormalPair(u[1], u[2]);
      }
      assert u == u[..n] + u[n..];
    }
  }

  lemma NormalPair(a: byte, b: byte)
    requires UpperHex(a) && UpperHex(b)
    ensures HexPair(a, b).Some?
    ensures HexDigit(HexPair(a, b).value / 16) == a && HexDigit(HexPair(a, b).value % 16) == b
  {
  }

  /** Re-encoding gives a string back exactly when it is in normal form, and the
      normal forms are exactly the encoder's outputs. */
  lemma NormalFormIsImage(u: Bytes)
    ensures NormalForm(u) <==> exists s :: Encode(s) == u
    ensures NormalForm(u) <==> DecodeBytes(u).Ok? && Encode(DecodeBytes(u).value) == u
  {
    if NormalForm(u) {
      EncodeOfDecode(u);
    } else if exists s :: Encode(s) == u {
      var s :| Encode(s) == u;
      EncodeIsNormal(s);
    }
  }

  predicate IsHex(b: byte) {
    HexValue(b).Some?
  }

  predicate EscapedAt(u: Bytes, i: int)
    requires 0 <= i < |u|
  {
    u[i] == PERCENT ==> i + 2 < |u| && IsHex(u[i + 1]) && IsHex(u[i + 2])
  }

  /** Every percent sign starts an escape of section 2.1 of RFC 3986. */
  predicate WellEscaped(u: Bytes) {
    forall i :: 0 <= i < |u| ==> EscapedAt(u, i)
  }

  predicate PlusAt(u: Bytes, i: int)
    requires 0 <= i < |u|
  {
    u[i] == PERCENT && i + 1 < |u| && u[i + 1] == PLUS
  }

  predicate PlusEscape(u: Bytes) {
    exists i :: 0 <= i < |u| && PlusAt(u, i)
  }

  predicate AcceptedAt(u: Bytes, i: int)
    requires 0 <= i < |u|
  {
    u[i] == PERCENT ==> i + 2 < |u| && (IsHex(u[i + 1]) || u[i + 1] == PLUS) && IsHex(u[i + 2])
  }

  /** Behind every percent sign stands a hexadecimal digit or a plus sign, and then a digit. */
  predicate Accepted(u: Bytes) {
    forall i :: 0 <= i < |u| ==> AcceptedAt(u, i)
  }

  /** What the decoder accepts: the escapes of section 2.1 of RFC 3986, and the plus sign
      that the number parser lets through in place of the first digit. Apart from strings
      with such a plus sign these are exactly the well-escaped strings. */
  lemma {:induction false} DecodeAccepts(u: Bytes)
    ensures DecodeBytes(u).Ok? <==> Accepted(u)
    ensures DecodeBytes(u).Ok? && !PlusEscape(u) <==> WellEscaped(u)
  {
    AcceptedWithoutPlus(u);
    hide PlusEscape, WellEscaped, HexValue;
    if u != [] {
      if u[0] != PERCENT {
        AcceptedTail(u, 1);
        DecodeAccepts(u[1..]);
      } else if |u| > 2 && AcceptedAt(u, 0) {
        AcceptedTail(u, 3);
        DecodeAccepts(u[3..]);
      }
      assert Accepted(u) ==> AcceptedAt(u, 0);
    }
  }

  lemma AcceptedWithoutPlus(u: Bytes)
    ensures WellEscaped(u) <==> Accepted(u) && !PlusEscape(u)
  {
    hide IsHex;
    forall i | 0 <= i < |u|
      ensures EscapedAt(u, i) <==> AcceptedAt(u, i) && !PlusAt(u, i)
    {
      PlusIsNoDigit();
    }
  }

  lemma PlusIsNoDigit()
    ensures !IsHex(PLUS) && !IsHex(PERCENT)
  {
  }

  lemma AcceptedTail(u: Bytes, n: nat)
    requires 0 < n <= |u| && AcceptedAt(u, 0)
    requires if u[0] == PERCENT then n == 3 else n == 1
    ensures Accepted(u) <==> Accepted(u[n..])
  {
    PlusIsNoDigit();
    hide IsHex;
    var rest := u[n..];
    forall i | 0 <= i < |rest|
      ensures AcceptedAt(rest, i) == AcceptedAt(u, i + n)
    {
    }
    if Accepted(rest) {
      forall i | 0 <= i < |u|
        ensures AcceptedAt(u, i)
      {
        assert i >= n ==> AcceptedAt(rest, i - n);
      }
    }
  }

  /** "%+F" is not an escape, yet it decodes to the byte 15. */
  lemma PlusIsAccepted()
    ensures var u: Bytes := [PERCENT, PLUS, 0x46]; !WellEscaped(u) && DecodeBytes(u) == Ok([0x0F])
  {
    var u: Bytes := [PERCENT, PLUS, 0x46];
    assert !EscapedAt(u, 0);
    assert u[3..] == [] && HexPair(u[1], u[2]) == Some(15);
    assert [0x0F] + [] == [0x0F];
  }

  /** A path survives the trip to a file URI and back exactly when it is absolute
      and has no backslash. */
  lemma FileUriRoundTrip(path: Text)
    ensures FileUriToPath(PathToFileUri(path)) == Ok(path) <==> [SLASH] <= path && BACKSLASH !in path
  {
    hide Valid, Encode, DecodeBytes;
    var rendered := ForwardSlashes(path);
    var full := if [SLASH] <= rendered then rendered else [SLASH] + rendered;
    assert PathToFileUri(path)[|SCHEME|..] == Encode(full);
    DecodeOfEncode(full);
    assert FileUriToPath(PathToFileUri(path)) == if Valid(full) then Ok(full) else Err(NotUtf8);
    if BACKSLASH in path {
      assert full != path;
    } else {
      assert rendered == path;
    }
  }

  /** The bytes "file:///" */
  const FILE_URI: Bytes := [0x66, 0x69, 0x6C, 0x65, 0x3A, 0x2F, 0x2F, 0x2F]

  /** Every file URI starts with "file:///", and only what starts with "file://" is read. */
  lemma FileUriStart(path: Bytes, uri: Bytes)
    ensures FILE_URI <= PathToFileUri(path)
    ensures !(FILE_URI[..7] <= uri) ==> FileUriToPath(uri) == Err(UnsupportedScheme)
  {
    var rendered := ForwardSlashes(path);
    var full := if [SLASH] <= rendered then rendered else [SLASH] + rendered;
    assert full[0] == SLASH && EncodeByte(SLASH) == [SLASH];
    assert Encode(full)[0] == SLASH;
    hide Encode, ForwardSlashes;
    assert PathToFileUri(path) == SCHEME + Encode(full);
    assert FILE_URI[..7] == SCHEME && FILE_URI == SCHEME + [SLASH];
  }
}
