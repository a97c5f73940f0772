/** Positional numerals and the signed decimal integers of the Rust standard library. */
module Numerals {
  import opened Wrappers
  import opened Octets
  import Hex

  /** Decimal and hexadecimal numerals; the arithmetic is spelled out per base to keep it linear. */
  type Base = b: nat | b == 10 || b == 16 witness 10

  function Quotient(n: nat, base: Base): nat {
    if base == 10 then n / 10 else n / 16
  }

  function Remainder(n: nat, base: Base): (r: nat)
    ensures r < base
  {
    if base == 10 then n % 10 else n % 16
  }

  function Shift(n: nat, base: Base): nat {
    if base == 10 then n * 10 else n * 16
  }

  /** The numeral of `n` without leading zeros, lower-case letters above nine. */
  function Print(n: nat, base: Base): (s: string)
    ensures |s| > 0
  {
    if n < base then [Hex.DigitLower(n)]
    else Print(Quotient(n, base), base) + [Hex.DigitLower(Remainder(n, base))]
  }

  predicate IsDigit(c: char, base: Base) {
    var v := Hex.DigitValue(c);
    v.Some? && v.value < base
  }

  predicate AllDigits(s: string, base: Base) {
    forall c | c in s :: IsDigit(c, base)
  }

  function Value(s: string, base: Base): nat
    requires AllDigits(s, base)
  {
    if |s| == 0 then 0
    else
      assert IsDigit(s[|s| - 1], base);
      Shift(Value(s[..|s| - 1], base), base) + Hex.DigitValue(s[|s| - 1]).value
  }

  /** Numerals with at least one digit; leading zeros are allowed. */
  function Parse(s: string, base: Base): Option<nat> {
    if |s| > 0 && AllDigits(s, base) then Some(Value(s, base)) else None
  }

  lemma Division(n: nat, base: Base)
    ensures Shift(Quotient(n, base), base) + Remainder(n, base) == n
    ensures n < base ==> Remainder(n, base) == n
    ensures n >= base ==> 0 < Quotient(n, base) < n
  {
  }

  lemma ValueStep(s: string, d: nat, base: Base)
    requires AllDigits(s, base) && d < base
    ensures AllDigits(s + [Hex.DigitLower(d)], base)
    ensures Value(s + [Hex.DigitLower(d)], base) == Shift(Value(s, base), base) + d
  {
    Hex.DigitsMatch(Hex.DigitLower(d), d);
    var t := s + [Hex.DigitLower(d)];
    assert t[..|t| - 1] == s;
  }

  lemma {:induction false} PrintedDigits(n: nat, base: Base)
    ensures AllDigits(Print(n, base), base)
    ensures Value(Print(n, base), base) == n
  {
    Division(n, base);
    if n < base {
      ValueStep("", n, base);
      assert "" + [Hex.DigitLower(n)] == [Hex.DigitLower(n)];
    } else {
      PrintedDigits(Quotient(n, base), base);
      ValueStep(Print(Quotient(n, base), base), Remainder(n, base), base);
    }
  }

  lemma RoundTrip(n: nat, base: Base)
    ensures Parse(Print(n, base), base) == Some(n)
  {
    PrintedDigits(n, base);
  }

  /** Only zero itself is printed with a zero in front. */
  lemma {:induction false} NoLeadingZero(n: nat, base: Base)
    ensures n > 0 ==> Print(n, base)[0] != '0'
    ensures n == 0 ==> Print(n, base) == "0"
  {
    hide Hex.Lower;
    if n >= base {
      Division(n, base);
      NoLeadingZero(Quotient(n, base), base);
    }
  }

  /** `to_string` of a signed integer. */
  function PrintInt(v: int): (s: string)
    ensures |s| > 0
  {
    if v < 0 then "-" + Print(-v, 10) else Print(v, 10)
  }

  /** `from_str` of a signed integer type with the range lo..=hi: one optional sign, at least one
      digit, and a value the type can hold. */
  function ParseInt(s: string, lo: int, hi: int): (r: Option<int>)
    ensures r.Some? ==> lo <= r.value <= hi
  {
    if |s| == 0 then None
    else
      var negative := s[0] == '-';
      var digits := if s[0] == '-' || s[0] == '+' then s[1..] else s;
      var magnitude :- Parse(digits, 10);
      var v := if negative then 0 - magnitude else magnitude;
      if lo <= v <= hi then Some(v) else None
  }

  /** Decimal text is read back, and it is read back as nothing else: a type too narrow for the
      value refuses it. */
  lemma IntRoundTrip(v: int, lo: int, hi: int)
    ensures ParseInt(PrintInt(v), lo, hi) == if lo <= v <= hi then Some(v) else None
  {
    var m := if v < 0 then -v else v;
    RoundTrip(m, 10);
    PrintedDigits(m, 10);
    assert IsDigit(Print(m, 10)[0], 10);
    if v < 0 {
      assert PrintInt(v)[1..] == Print(m, 10);
    }
  }

  /** A printed integer begins with a sign or a digit and ends with a digit. */
  lemma PrintedIntEnds(v: int)
    ensures var s := PrintInt(v);
            (s[0] == '-' || IsDigit(s[0], 10)) && IsDigit(s[|s| - 1], 10)
  {
    var m := if v < 0 then -v else v;
    PrintedDigits(m, 10);
    var p := Print(m, 10);
    assert p[0] in p && p[|p| - 1] in p;
    if v < 0 {
      assert PrintInt(v)[|p|] == p[|p| - 1];
    }
  }

  // ---- every spelling of an integer ----

  function Zeros(n: nat): (z: string)
    ensures |z| == n
    ensures forall i | 0 <= i < n :: z[i] == '0'
  {
    seq(n, _ => '0')
  }

  /** Numerals are positional: a digit stands for itself, and one more digit at the end multiplies what is
      before it by the base. */
  lemma Positional(n: nat, d: nat)
    requires d < 16
    ensures d < 10 ==> Print(d, 10) == [Hex.DigitLower(d)]
    ensures Print(d, 16) == [Hex.DigitLower(d)]
    ensures 0 < n && d < 10 ==> Print(n * 10 + d, 10) == Print(n, 10) + [Hex.DigitLower(d)]
    ensures 0 < n ==> Print(n * 16 + d, 16) == Print(n, 16) + [Hex.DigitLower(d)]
  {
    hide Hex.DigitLower;
    assert (n * 16 + d) / 16 == n && (n * 16 + d) % 16 == d;
    if d < 10 {
      assert (n * 10 + d) / 10 == n && (n * 10 + d) % 10 == d;
    }
  }

  lemma ZerosGrow(k: nat)
    ensures Zeros(k) + "0" == Zeros(k + 1)
  {
  }

  lemma LastDigit(s: string) returns (front: string, d: nat)
    requires |s| > 0 && AllDigits(s, 10)
    ensures d < 10 && s == front + [Hex.DigitLower(d)] && AllDigits(front, 10)
    ensures Value(s, 10) == Value(front, 10) * 10 + d
  {
    front := s[..|s| - 1];
    assert IsDigit(s[|s| - 1], 10);
    d := Hex.DigitValue(s[|s| - 1]).value;
  }

  lemma DigitAppended(k: nat, v: nat, d: nat)
    requires d < 10
    ensures Zeros(k) + Print(v, 10) + [Hex.DigitLower(d)] ==
            if v == 0 then Zeros(k + 1) + Print(d, 10) else Zeros(k) + Print(v * 10 + d, 10)
  {
    if v == 0 {
      NoLeadingZero(0, 10);
      ZerosGrow(k);
    } else {
      Positional(v, d);
      hide Print, Hex.DigitLower;
      assert Zeros(k) + Print(v, 10) + [Hex.DigitLower(d)] == Zeros(k) + (Print(v, 10) + [Hex.DigitLower(d)]);
    }
  }

  /** A string of decimal digits is some zeros followed by the numeral of its value. */
  lemma {:induction false} DigitsCanonical(s: string) returns (zeros: nat)
    requires |s| > 0 && AllDigits(s, 10)
    ensures s == Zeros(zeros) + Print(Value(s, 10), 10)
    decreases |s|
  {
    var front, d := LastDigit(s);
    if |front| == 0 {
      zeros := 0;
      assert Value(front, 10) == 0 && Print(d, 10) == [Hex.DigitLower(d)];
      assert s == Zeros(0) + [Hex.DigitLower(d)];
    } else {
      hide Value, AllDigits, Hex.DigitLower, Print, Zeros;
      var k := DigitsCanonical(front);
      DigitAppended(k, Value(front, 10), d);
      zeros := if Value(front, 10) == 0 then k + 1 else k;
    }
  }

  lemma {:induction false} ZerosAdd(zeros: nat, s: string)
    requires AllDigits(s, 10)
    ensures AllDigits(Zeros(zeros) + s, 10) && Value(Zeros(zeros) + s, 10) == Value(s, 10)
    decreases zeros + |s|
  {
    var z := Zeros(zeros) + s;
    if |s| > 0 {
      ZerosAdd(zeros, s[..|s| - 1]);
      assert z[..|z| - 1] == Zeros(zeros) + s[..|s| - 1];
      assert IsDigit(s[|s| - 1], 10);
    } else if zeros > 0 {
      ZerosAdd(zeros - 1, s);
      assert z[..|z| - 1] == Zeros(zeros - 1) + s && s == "";
    }
  }

  datatype Sign = Bare | Plus | Minus

  function SignText(sign: Sign): string {
    match sign
    case Bare => ""
    case Plus => "+"
    case Minus => "-"
  }

  /** A spelling: an optional sign, any number of zeros, and the numeral of the magnitude. */
  function Spelling(sign: Sign, zeros: nat, magnitude: nat): string {
    SignText(sign) + (Zeros(zeros) + Print(magnitude, 10))
  }

  function Denoted(sign: Sign, magnitude: nat): int {
    if sign == Minus then 0 - magnitude else magnitude
  }

  /** What a spelling looks like. */
  lemma SpellingText(zeros: nat, magnitude: nat)
    ensures Spelling(Bare, 0, magnitude) == Print(magnitude, 10)
    ensures Spelling(Bare, zeros + 1, magnitude) == "0" + Spelling(Bare, zeros, magnitude)
    ensures Spelling(Plus, zeros, magnitude) == "+" + Spelling(Bare, zeros, magnitude)
    ensures Spelling(Minus, zeros, magnitude) == "-" + Spelling(Bare, zeros, magnitude)
  {
    assert Zeros(0) == "" && Zeros(zeros + 1) == "0" + Zeros(zeros);
  }

  lemma PaddedDigits(zeros: nat, magnitude: nat)
    ensures var d := Zeros(zeros) + Print(magnitude, 10);
            Parse(d, 10) == Some(magnitude) && d[0] != '+' && d[0] != '-'
  {
    PrintedDigits(magnitude, 10);
    ZerosAdd(zeros, Print(magnitude, 10));
    hide Print, Value;
    var d := Zeros(zeros) + Print(magnitude, 10);
    assert d[0] in d && IsDigit(d[0], 10);
  }

  /** Every spelling is read as the integer it denotes, if the type can hold it. */
  lemma SpellingsAreRead(sign: Sign, zeros: nat, magnitude: nat, lo: int, hi: int)
    ensures var v := Denoted(sign, magnitude);
            ParseInt(Spelling(sign, zeros, magnitude), lo, hi) == if lo <= v <= hi then Some(v) else None
  {
    PaddedDigits(zeros, magnitude);
    var d := Zeros(zeros) + Print(magnitude, 10);
    hide Print, Value, AllDigits;
    if sign == Bare {
      assert Spelling(sign, zeros, magnitude) == d;
    } else {
      assert Spelling(sign, zeros, magnitude)[1..] == d;
    }
  }

  /** And nothing else is read: a text that is read is such a spelling of its value. */
  lemma OnlySpellingsAreRead(s: string, lo: int, hi: int) returns (sign: Sign, zeros: nat, magnitude: nat)
    requires ParseInt(s, lo, hi).Some?
    ensures s == Spelling(sign, zeros, magnitude)
    ensures ParseInt(s, lo, hi) == Some(Denoted(sign, magnitude))
  {
    sign := if s[0] == '-' then Minus else if s[0] == '+' then Plus else Bare;
    var digits := if sign == Bare then s else s[1..];
    magnitude := Value(digits, 10);
    zeros := DigitsCanonical(digits);
    assert s == SignText(sign) + digits;
  }

  ghost predicate Spells(s: string, v: int) {
    exists sign, zeros, magnitude :: s == Spelling(sign, zeros, magnitude) && Denoted(sign, magnitude) == v
  }

  /** In one line: a text is read as `v` if and only if it spells `v` and the type can hold `v`. */
  lemma ParseIntExact(s: string, lo: int, hi: int, v: int)
    ensures ParseInt(s, lo, hi) == Some(v) <==> Spells(s, v) && lo <= v <= hi
  {
    if ParseInt(s, lo, hi) == Some(v) {
      var sign, zeros, magnitude := OnlySpellingsAreRead(s, lo, hi);
    }
    hide ParseInt, Spelling;
    if sign, zeros, magnitude :| s == Spelling(sign, zeros, magnitude) && Denoted(sign, magnitude) == v {
      SpellingsAreRead(sign, zeros, magnitude, lo, hi);
    }
  }
}
