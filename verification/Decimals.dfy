/** Decimal numbers as text. */
module Decimals {
  import opened Prelude

  function Digit(n: int): char
    requires 0 <= n < 10
  {
    '0' + n as char
  }

  function Decimal(n: nat): string {
    if n < 10 then [Digit(n)] else Decimal(n / 10) + [Digit(n % 10)]
  }

  predicate AllDigits(s: string) {
    forall i :: 0 <= i < |s| ==> '0' <= s[i] <= '9'
  }

  function Number(s: string): nat
    requires AllDigits(s)
  {
    if |s| == 0 then 0 else 10 * Number(s[..|s| - 1]) + (s[|s| - 1] - '0') as int
  }

  lemma {:induction false} NumberOfDecimal(n: nat)
    ensures AllDigits(Decimal(n)) && Decimal(n) != [] && Number(Decimal(n)) == n
  {
    if n >= 10 {
      NumberOfDecimal(n / 10);
      var s := Decimal(n);
      assert s[..|s| - 1] == Decimal(n / 10);
    } else {
      assert Decimal(n)[..0] == [];
    }
  }

  /** `parse::<usize>`: digits behind an optional plus sign, within 64 bits. */
  function ParseUsize(s: string): Option<nat> {
    var digits := if s != [] && s[0] == '+' then s[1..] else s;
    if digits == [] || !AllDigits(digits) || Number(digits) > U64_MAX then None else Some(Number(digits))
  }

  /** A number written in decimal reads back as itself. */
  lemma ParseOfDecimal(n: nat)
    requires n <= U64_MAX
    ensures ParseUsize(Decimal(n)) == Some(n)
  {
    NumberOfDecimal(n);
    assert '0' <= Decimal(n)[0] <= '9';
  }

  function Zeros(k: nat): string {
    seq(k, _ => '0')
  }

  lemma LastDigit(s: string) returns (front: string, d: int)
    requires s != [] && AllDigits(s)
    ensures 0 <= d < 10 && AllDigits(front) && s == front + [Digit(d)] && Number(s) == 10 * Number(front) + d
  {
    front, d := s[..|s| - 1], (s[|s| - 1] - '0') as int;
  }

  lemma DecimalNext(m: nat, d: int)
    requires 0 <= d < 10
    ensures Decimal(10 * m + d) == if m == 0 then [Digit(d)] else Decimal(m) + [Digit(d)]
    ensures Decimal(0) == [Digit(0)]
  {
  }

  lemma ZerosNext(k: nat)
    ensures Zeros(k) + [Digit(0)] == Zeros(k + 1)
  {
  }

  /** Digits are leading zeros and then a number in decimal. */
  lemma {:induction false} DigitsOfNumber(s: string) returns (k: nat)
    requires s != [] && AllDigits(s)
    ensures s == Zeros(k) + Decimal(Number(s))
    decreases |s|
  {
    var front, d := LastDigit(s);
    DecimalNext(Number(front), d);
    if front == [] {
      k := 0;
      assert Number([]) == 0;
      hide AllDigits, Number, Digit;
      assert Zeros(0) + [Digit(d)] == [Digit(d)];
    } else {
      hide AllDigits, Number, Digit, Decimal, Zeros;
      k := DigitsOfNumber(front);
      if Number(front) == 0 {
        ZerosNext(k);
        k := k + 1;
      }
    }
  }

  lemma {:induction false} NumberOfZeros(k: nat, t: string)
    requires AllDigits(t)
    ensures AllDigits(Zeros(k) + t) && Number(Zeros(k) + t) == Number(t)
    decreases |t|
  {
    var s := Zeros(k) + t;
    if t == [] {
      NumberOfOnlyZeros(k);
      assert s == Zeros(k);
    } else {
      NumberOfZeros(k, t[..|t| - 1]);
      assert s[..|s| - 1] == Zeros(k) + t[..|t| - 1];
    }
  }

  lemma {:induction false} NumberOfOnlyZeros(k: nat)
    ensures Number(Zeros(k)) == 0
  {
    if k > 0 {
      NumberOfOnlyZeros(k - 1);
      assert Zeros(k)[..k - 1] == Zeros(k - 1);
    }
  }

  /** `s` writes `n`: in decimal, behind any number of zeros and at most one plus sign. */
  ghost predicate Writes(s: string, n: nat) {
    exists k :: s == Zeros(k) + Decimal(n) || s == "+" + (Zeros(k) + Decimal(n))
  }

  lemma ParsedWrites(s: string)
    requires ParseUsize(s).Some?
    ensures Writes(s, ParseUsize(s).value) && ParseUsize(s).value <= U64_MAX
  {
    var digits := if s != [] && s[0] == '+' then s[1..] else s;
    var k := DigitsOfNumber(digits);
    hide Zeros, Decimal, AllDigits, Number;
    assert s == digits || s == "+" + digits;
  }

  lemma UnsignedParses(t: string)
    requires t != [] && AllDigits(t) && Number(t) <= U64_MAX
    ensures ParseUsize(t) == Some(Number(t)) && ParseUsize("+" + t) == Some(Number(t))
  {
    assert '0' <= t[0] <= '9';
    assert ("+" + t)[1..] == t;
    hide AllDigits, Number;
  }

  lemma WrittenParses(s: string, n: nat)
    requires Writes(s, n) && n <= U64_MAX
    ensures ParseUsize(s) == Some(n)
  {
    var k :| s == Zeros(k) + Decimal(n) || s == "+" + (Zeros(k) + Decimal(n));
    NumberOfDecimal(n);
    NumberOfZeros(k, Decimal(n));
    hide Zeros, Decimal, AllDigits, Number, ParseUsize;
    UnsignedParses(Zeros(k) + Decimal(n));
  }

  /** A text is parsed as a number exactly when it writes that number and the number fits
      into 64 bits. */
  lemma ParseExactly(s: string, n: nat)
    ensures ParseUsize(s) == Some(n) <==> Writes(s, n) && n <= 0xFFFF_FFFF_FFFF_FFFF
  {
    hide Writes, ParseUsize;
    if ParseUsize(s).Some? {
      ParsedWrites(s);
    }
    if Writes(s, n) && n <= U64_MAX {
      WrittenParses(s, n);
    }
  }
}
