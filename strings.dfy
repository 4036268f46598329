/** Character classes and number rendering used throughout the engine:
    ASCII digits, ASCII letters, JavaScript's `Number.prototype.toString`
    for radix 10 and radix 36, and ASCII lower-casing. */
module Strings {

  predicate IsDigit(c: char) {
    '0' <= c <= '9'
  }

  predicate IsAsciiLetter(c: char) {
    ('A' <= c <= 'Z') || ('a' <= c <= 'z')
  }

  predicate AllDigits(s: string) {
    forall i :: 0 <= i < |s| ==> IsDigit(s[i])
  }

  /** Digit character for a value below 36, as `toString(36)` writes it. */
  function DigitChar(d: nat): (c: char)
    requires d < 36
    ensures d < 10 <==> IsDigit(c)
  {
    if d < 10 then '0' + (d as char) else 'a' + ((d - 10) as char)
  }

  /** `n.toString(10)` for a non-negative integer. */
  function Decimal(n: nat): (r: string)
    decreases n
  {
    if n < 10 then [DigitChar(n)] else Decimal(n / 10) + [DigitChar(n % 10)]
  }

  /** `n.toString(36)` for a non-negative integer. */
  function Base36(n: nat): (r: string)
    decreases n
  {
    if n < 36 then [DigitChar(n)] else Base36(n / 36) + [DigitChar(n % 36)]
  }

  /** `String(n)` for an integer. */
  function IntToString(n: int): string {
    if n < 0 then "-" + Decimal(-n) else Decimal(n)
  }

  lemma {:induction false} DecimalIsDigits(n: nat)
    ensures Decimal(n) != [] && AllDigits(Decimal(n))
    decreases n
  {
    if n >= 10 {
      DecimalIsDigits(n / 10);
    }
  }

  lemma {:induction false} DecimalLengthOne(n: nat)
    ensures |Decimal(n)| == 1 <==> n < 10
    decreases n
  {
    if n >= 10 {
      DecimalIsDigits(n / 10);
    }
  }

  /** Distinct positions render to distinct decimal strings. */
  lemma {:induction false} DecimalInjective(a: nat, b: nat)
    requires Decimal(a) == Decimal(b)
    ensures a == b
    decreases a
  {
    DecimalLengthOne(a);
    DecimalLengthOne(b);
    if a >= 10 && b >= 10 {
      var da, db := Decimal(a / 10), Decimal(b / 10);
      assert Decimal(a)[..|da|] == da;
      assert Decimal(b)[..|db|] == db;
      assert Decimal(a)[|da|] == DigitChar(a % 10);
      assert |da| == |db|;
      DigitCharInjective(a % 10, b % 10);
      DecimalInjective(a / 10, b / 10);
    } else if a < 10 && b < 10 {
      DigitCharInjective(a, b);
    }
  }

  lemma {:induction false} Base36LengthOne(n: nat)
    ensures Base36(n) != [] && (|Base36(n)| == 1 <==> n < 36)
    decreases n
  {
    if n >= 36 {
      Base36LengthOne(n / 36);
    }
  }

  /** Distinct indices give distinct unkeyed child names. */
  lemma {:induction false} Base36Injective(a: nat, b: nat)
    requires Base36(a) == Base36(b)
    ensures a == b
    decreases a
  {
    Base36LengthOne(a);
    Base36LengthOne(b);
    if a >= 36 && b >= 36 {
      var da, db := Base36(a / 36), Base36(b / 36);
      assert Base36(a)[..|da|] == da;
      assert Base36(b)[..|db|] == db;
      assert |da| == |db|;
      DigitCharInjective(a % 36, b % 36);
      Base36Injective(a / 36, b / 36);
    } else if a < 36 && b < 36 {
      DigitCharInjective(a, b);
    }
  }

  lemma DigitCharInjective(a: nat, b: nat)
    requires a < 36 && b < 36 && DigitChar(a) == DigitChar(b)
    ensures a == b
  {
  }

  /** Below ten, the radix-36 name of an index is its decimal rendering;
      from ten on it uses letters (index 10 is named "a"). */
  lemma Base36SmallIsDecimal(n: nat)
    requires n < 10
    ensures Base36(n) == Decimal(n)
  {
  }

  lemma Base36Ten()
    ensures Base36(10) == "a" && !AllDigits(Base36(10))
  {
    assert Base36(10)[0] == 'a';
  }

  function LowerChar(c: char): char {
    if 'A' <= c <= 'Z' then c - 'A' + 'a' else c
  }

  /** ASCII part of `toLocaleLowerCase`. */
  function Lower(s: string): (r: string)
    ensures |r| == |s|
    ensures forall i :: 0 <= i < |s| ==> r[i] == LowerChar(s[i])
  {
    if s == [] then [] else [LowerChar(s[0])] + Lower(s[1..])
  }
}
