/** Hexadecimal text of byte strings, RFC 4648 section 8, in either letter case. */
module Hex {
  import opened Wrappers
  import opened Octets

  function DigitLower(d: nat): char
    requires d < 16
  {
    if d < 10 then ('0' as int + d) as char else ('a' as int + d - 10) as char
  }

  function DigitUpper(d: nat): char
    requires d < 16
  {
    if d < 10 then ('0' as int + d) as char else ('A' as int + d - 10) as char
  }

  function DigitValue(c: char): (r: Option<nat>)
    ensures r.Some? ==> r.value < 16 && LowerChar(c) == DigitLower(r.value)
  {
    if '0' <= c <= '9' then Some(c as int - '0' as int)
    else if 'a' <= c <= 'f' then Some(c as int - 'a' as int + 10)
    else if 'A' <= c <= 'F' then Some(c as int - 'A' as int + 10)
    else None
  }

  /** `hex::encode` */
  function Lower(b: Bytes): (s: string)
    ensures |s| == 2 * |b|
  {
    if |b| == 0 then "" else [DigitLower(b[0] / 16), DigitLower(b[0] % 16)] + Lower(b[1..])
  }

  /** `hex::encode_upper` */
  function Upper(b: Bytes): (s: string)
    ensures |s| == 2 * |b|
  {
    if |b| == 0 then "" else [DigitUpper(b[0] / 16), DigitUpper(b[0] % 16)] + Upper(b[1..])
  }

  /** `hex::decode` */
  function Decode(s: string): Option<Bytes> {
    if |s| == 0 then Some([])
    else if |s| == 1 then None
    else
      var high :- DigitValue(s[0]);
      var low :- DigitValue(s[1]);
      var rest :- Decode(s[2..]);
      Some([high * 16 + low] + rest)
  }

  function LowerChar(c: char): char {
    if 'A' <= c <= 'Z' then (c as int + 32) as char else c
  }

  /** ASCII lower-casing */
  function LowerCase(s: string): string {
    seq(|s|, i requires 0 <= i < |s| => LowerChar(s[i]))
  }

  lemma DigitsMatch(c: char, d: nat)
    requires d < 16
    ensures DigitValue(c) == Some(d) <==> LowerChar(c) == DigitLower(d)
  {
  }

  lemma LowerCaseStep(s: string)
    requires |s| >= 2
    ensures LowerCase(s) == [LowerChar(s[0]), LowerChar(s[1])] + LowerCase(s[2..])
  {
  }

  lemma HeadAndTail(a: string, b: string, x: string, y: string)
    requires |a| == |b|
    ensures a + x == b + y <==> a == b && x == y
  {
    assert (a + x)[..|a|] == a && (b + y)[..|b|] == b;
    assert (a + x)[|a|..] == x && (b + y)[|b|..] == y;
  }

  lemma BytesSplit(h: nat, l: nat, rest: Bytes, b: Bytes)
    requires h < 16 && l < 16 && |b| >= 1
    ensures [h * 16 + l] + rest == b <==> h == b[0] / 16 && l == b[0] % 16 && rest == b[1..]
  {
    if [h * 16 + l] + rest == b {
      assert b[0] == h * 16 + l;
    }
    assert b == [b[0]] + b[1..];
  }

  lemma DecodeStep(s: string, b: Bytes)
    requires |s| >= 2 && |b| >= 1
    ensures Decode(s) == Some(b) <==>
            DigitValue(s[0]) == Some(b[0] / 16) && DigitValue(s[1]) == Some(b[0] % 16) &&
            Decode(s[2..]) == Some(b[1..])
  {
    hide DigitValue;
    if DigitValue(s[0]).Some? && DigitValue(s[1]).Some? && Decode(s[2..]).Some? {
      BytesSplit(DigitValue(s[0]).value, DigitValue(s[1]).value, Decode(s[2..]).value, b);
    }
  }

  /** The decoder accepts exactly the renderings of `b`, whatever the case of each digit. */
  lemma {:induction false} DecodeExact(s: string, b: Bytes)
    ensures Decode(s) == Some(b) <==> LowerCase(s) == Lower(b)
  {
    if |s| < 2 || |b| == 0 {
      assert |LowerCase(s)| == |s|;
    } else {
      DecodeExact(s[2..], b[1..]);
      DecodeStep(s, b);
      DigitsMatch(s[0], b[0] / 16);
      DigitsMatch(s[1], b[0] % 16);
      LowerCaseStep(s);
      HeadAndTail([LowerChar(s[0]), LowerChar(s[1])],
        [DigitLower(b[0] / 16), DigitLower(b[0] % 16)], LowerCase(s[2..]), Lower(b[1..]));
    }
  }

  lemma {:induction false} LowerCaseOfUpper(b: Bytes)
    ensures LowerCase(Upper(b)) == Lower(b)
  {
    if |b| == 0 {
    } else {
      LowerCaseOfUpper(b[1..]);
      LowerCaseStep(Upper(b));
      assert Upper(b)[2..] == Upper(b[1..]);
    }
  }

  lemma {:induction false} LowerCaseOfLower(b: Bytes)
    ensures LowerCase(Lower(b)) == Lower(b)
  {
    if |b| == 0 {
    } else {
      LowerCaseOfLower(b[1..]);
      LowerCaseStep(Lower(b));
      assert Lower(b)[2..] == Lower(b[1..]);
    }
  }

  /** Both of the printed forms decode to the bytes they were printed from. */
  lemma RoundTrip(b: Bytes)
    ensures Decode(Lower(b)) == Some(b)
    ensures Decode(Upper(b)) == Some(b)
  {
    LowerCaseOfLower(b);
    LowerCaseOfUpper(b);
    DecodeExact(Lower(b), b);
    DecodeExact(Upper(b), b);
  }

  /** Only hexadecimal digits decode. */
  lemma {:induction false} DecodedDigits(s: string, i: nat)
    requires Decode(s).Some? && i < |s|
    ensures DigitValue(s[i]).Some?
  {
    if i >= 2 {
      DecodedDigits(s[2..], i - 2);
    }
  }

  lemma {:induction false} LowerDigits(b: Bytes, i: nat)
    requires i < |Lower(b)|
    ensures DigitValue(Lower(b)[i]).Some?
  {
    if i >= 2 {
      LowerDigits(b[1..], i - 2);
    } else {
      DigitsMatch(Lower(b)[0], b[0] / 16);
      DigitsMatch(Lower(b)[1], b[0] % 16);
    }
  }

  predicate AllHex(s: string) {
    forall i | 0 <= i < |s| :: DigitValue(s[i]).Some?
  }

  lemma AllHexStep(s: string)
    requires |s| >= 2
    ensures AllHex(s) <==> DigitValue(s[0]).Some? && DigitValue(s[1]).Some? && AllHex(s[2..])
  {
    hide DigitValue;
    assert forall i | 2 <= i < |s| :: s[i] == s[2..][i - 2];
  }

  /** What decodes at all: an even number of hexadecimal digits. */
  lemma {:induction false} DecodableExact(s: string)
    ensures Decode(s).Some? <==> |s| % 2 == 0 && AllHex(s)
    decreases |s|
  {
    if |s| >= 2 {
      DecodableExact(s[2..]);
      AllHexStep(s);
      hide DigitValue, AllHex;
    }
  }

  /** The two alphabets, and the high half of a byte comes first. */
  lemma Digits(b: Octet)
    ensures Lower([b]) == ["0123456789abcdef"[b / 16], "0123456789abcdef"[b % 16]]
    ensures Upper([b]) == ["0123456789ABCDEF"[b / 16], "0123456789ABCDEF"[b % 16]]
  {
    Digit(b / 16);
    Digit(b % 16);
    hide DigitLower, DigitUpper;
    assert Lower([b][1..]) == "" && Upper([b][1..]) == "";
  }

  lemma Digit(d: nat)
    requires d < 16
    ensures DigitLower(d) == "0123456789abcdef"[d] && DigitUpper(d) == "0123456789ABCDEF"[d]
  {
  }

  /** A byte string is printed byte after byte. */
  lemma {:induction false} LowerAppended(a: Bytes, b: Bytes)
    ensures Lower(a + b) == Lower(a) + Lower(b)
  {
    if |a| == 0 {
      assert a + b == b;
    } else {
      LowerAppended(a[1..], b);
      assert (a + b)[1..] == a[1..] + b && (a + b)[0] == a[0];
      hide DigitLower;
    }
  }

  lemma {:induction false} UpperAppended(a: Bytes, b: Bytes)
    ensures Upper(a + b) == Upper(a) + Upper(b)
  {
    if |a| == 0 {
      assert a + b == b;
    } else {
      UpperAppended(a[1..], b);
      assert (a + b)[1..] == a[1..] + b && (a + b)[0] == a[0];
      hide DigitUpper;
    }
  }
}
