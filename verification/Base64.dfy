/** Base64 with the standard alphabet, RFC 4648 section 4. */
module Base64 {
  import opened Wrappers
  import opened Octets

  const PAD := '='

  type Sextet = v: int | 0 <= v < 64

  function Symbol(v: Sextet): char {
    if v < 26 then ('A' as int + v) as char
    else if v < 52 then ('a' as int + v - 26) as char
    else if v < 62 then ('0' as int + v - 52) as char
    else if v == 62 then '+'
    else '/'
  }

  function SymbolValue(c: char): (r: Option<Sextet>)
    ensures r.Some? ==> Symbol(r.value) == c && c != PAD
  {
    if 'A' <= c <= 'Z' then Some(c as int - 'A' as int)
    else if 'a' <= c <= 'z' then Some(c as int - 'a' as int + 26)
    else if '0' <= c <= '9' then Some(c as int - '0' as int + 52)
    else if c == '+' then Some(62)
    else if c == '/' then Some(63)
    else None
  }

  lemma SymbolRoundTrip(v: Sextet)
    ensures SymbolValue(Symbol(v)) == Some(v)
    ensures Symbol(v) != PAD
  {
  }

  datatype Quad = Quad(v0: Sextet, v1: Sextet, v2: Sextet, v3: Sextet)

  datatype Triple = Triple(a: Octet, b: Octet, c: Octet)

  /** 24 bits as four sextets. */
  function Split(t: Triple): Quad {
    Quad(t.a / 4, t.a % 4 * 16 + t.b / 16, t.b % 16 * 4 + t.c / 64, t.c % 64)
  }

  /** The same 24 bits as three octets. */
  function Join(q: Quad): Triple {
    Triple(q.v0 * 4 + q.v1 / 16, q.v1 % 16 * 16 + q.v2 / 4, q.v2 % 4 * 64 + q.v3)
  }

  lemma Divide(q: int, r: int, m: int)
    requires m == 4 || m == 16 || m == 64
    requires 0 <= r < m
    ensures (q * m + r) / m == q && (q * m + r) % m == r
  {
  }

  lemma JoinOfSplit(t: Triple)
    ensures Join(Split(t)) == t
  {
    Divide(t.a % 4, t.b / 16, 16);
    Divide(t.b % 16, t.c / 64, 4);
  }

  lemma SplitOfJoin(q: Quad)
    ensures Split(Join(q)) == q
  {
    Divide(q.v0, q.v1 / 16, 4);
    Divide(q.v1 % 16, q.v2 / 4, 16);
    Divide(q.v2 % 4, q.v3, 64);
  }

  function Symbols(q: Quad): (s: string)
    ensures |s| == 4
  {
    [Symbol(q.v0), Symbol(q.v1), Symbol(q.v2), Symbol(q.v3)]
  }

  /** `base64::encode`: padded. */
  function Encode(b: Bytes): string
  {
    if |b| == 0 then ""
    else if |b| == 1 then Symbols(Split(Triple(b[0], 0, 0)))[..2] + [PAD, PAD]
    else if |b| == 2 then Symbols(Split(Triple(b[0], b[1], 0)))[..3] + [PAD]
    else Symbols(Split(Triple(b[0], b[1], b[2]))) + Encode(b[3..])
  }

  lemma LengthStep(b: Bytes)
    ensures |Encode(b)| == if |b| == 0 then 0 else if |b| <= 3 then 4 else 4 + |Encode(b[3..])|
  {
    if |b| == 3 {
      assert Encode(b[3..]) == "";
    }
  }

  /** Four characters for every three bytes begun. */
  lemma {:induction false} EncodedLength(b: Bytes, quads: nat)
    requires 3 * quads <= |b| + 2 < 3 * quads + 3
    ensures |Encode(b)| == 4 * quads
  {
    LengthStep(b);
    if |b| > 3 {
      EncodedLength(b[3..], quads - 1);
    }
  }

  function Decode4(s: string): Option<Quad>
    requires |s| == 4
  {
    var v0 :- SymbolValue(s[0]);
    var v1 :- SymbolValue(s[1]);
    var v2 :- SymbolValue(s[2]);
    var v3 :- SymbolValue(s[3]);
    Some(Quad(v0, v1, v2, v3))
  }

  function Octets3(t: Triple): (b: Bytes)
    ensures |b| == 3
  {
    [t.a, t.b, t.c]
  }

  /** The last one to four characters. Padding may be missing, but the unused bits of the last
      symbol must be zero. */
  function DecodeTail(s: string): Option<Bytes>
    requires 1 <= |s| <= 4
  {
    if |s| == 1 then None
    else
      var v0 :- SymbolValue(s[0]);
      var v1 :- SymbolValue(s[1]);
      if (|s| < 3 || s[2] == PAD) && (|s| < 4 || s[3] == PAD) then
        if v1 % 16 == 0 then Some(Octets3(Join(Quad(v0, v1, 0, 0)))[..1]) else None
      else
        var v2 :- SymbolValue(s[2]);
        if |s| == 3 || s[3] == PAD then
          if v2 % 4 == 0 then Some(Octets3(Join(Quad(v0, v1, v2, 0)))[..2]) else None
        else
          var v3 :- SymbolValue(s[3]);
          Some(Octets3(Join(Quad(v0, v1, v2, v3))))
  }

  /** `base64::decode` */
  function Decode(s: string): Option<Bytes> {
    if |s| == 0 then Some([])
    else if |s| <= 4 then DecodeTail(s)
    else
      var head :- Decode4(s[..4]);
      var rest :- Decode(s[4..]);
      Some(Octets3(Join(head)) + rest)
  }

  lemma SymbolsDecode(q: Quad)
    ensures Decode4(Symbols(q)) == Some(q)
    ensures forall i | 0 <= i < 4 :: Symbols(q)[i] != PAD
  {
    SymbolRoundTrip(q.v0);
    SymbolRoundTrip(q.v1);
    SymbolRoundTrip(q.v2);
    SymbolRoundTrip(q.v3);
  }

  /** The padding of one or two octets leaves zero bits behind. */
  lemma UnusedBits(t: Triple)
    ensures t.c == 0 ==> Split(t).v3 == 0 && Split(t).v2 % 4 == 0
    ensures t.b == 0 && t.c == 0 ==> Split(t).v2 == 0 && Split(t).v1 % 16 == 0
  {
    Divide(t.b % 16, 0, 4);
    Divide(t.a % 4, 0, 16);
    if t.c == 0 {
      assert Split(t).v2 == t.b % 16 * 4;
      if t.b == 0 {
        assert Split(t).v1 == t.a % 4 * 16;
      }
    }
  }

  lemma DecodePadded2(q: Quad)
    requires q.v1 % 16 == 0
    ensures Decode(Symbols(q)[..2] + [PAD, PAD]) == Some(Octets3(Join(q.(v2 := 0, v3 := 0)))[..1])
  {
    SymbolsDecode(q);
    var s := Symbols(q)[..2] + [PAD, PAD];
    assert s[0] == Symbols(q)[0] && s[1] == Symbols(q)[1] && s[2] == PAD && s[3] == PAD;
  }

  lemma DecodePadded1(q: Quad)
    requires q.v2 % 4 == 0
    ensures Decode(Symbols(q)[..3] + [PAD]) == Some(Octets3(Join(q.(v3 := 0)))[..2])
  {
    SymbolsDecode(q);
    var s := Symbols(q)[..3] + [PAD];
    assert s[0] == Symbols(q)[0] && s[1] == Symbols(q)[1] && s[2] == Symbols(q)[2] && s[3] == PAD;
  }

  lemma DecodeFull(q: Quad, rest: string)
    ensures Decode(rest).Some? ==>
              Decode(Symbols(q) + rest) == Some(Octets3(Join(q)) + Decode(rest).value)
  {
    SymbolsDecode(q);
    var s := Symbols(q) + rest;
    assert s[..4] == Symbols(q) && s[4..] == rest;
    if rest == "" {
      assert s == Symbols(q);
      assert Decode(s) == Some(Octets3(Join(q)));
      assert Decode(rest).value == [];
      assert Octets3(Join(q)) + [] == Octets3(Join(q));
    }
  }

  lemma RoundTrip1(a: Octet)
    ensures Decode(Encode([a])) == Some([a])
  {
    hide Split, Join, Decode;
    var t := Triple(a, 0, 0);
    var q := Split(t);
    UnusedBits(t);
    JoinOfSplit(t);
    DecodePadded2(q);
    assert q.(v2 := 0, v3 := 0) == q;
    assert Octets3(t)[..1] == [a];
  }

  lemma RoundTrip2(a: Octet, b: Octet)
    ensures Decode(Encode([a, b])) == Some([a, b])
  {
    hide Split, Join, Decode;
    var t := Triple(a, b, 0);
    var q := Split(t);
    UnusedBits(t);
    JoinOfSplit(t);
    DecodePadded1(q);
    assert q.(v3 := 0) == q;
    assert Octets3(t)[..2] == [a, b];
  }

  lemma {:induction false} RoundTrip(b: Bytes)
    ensures Decode(Encode(b)) == Some(b)
  {
    hide Split, Join;
    if |b| == 0 {
    } else if |b| == 1 {
      RoundTrip1(b[0]);
      assert b == [b[0]];
    } else if |b| == 2 {
      RoundTrip2(b[0], b[1]);
      assert b == [b[0], b[1]];
    } else {
      var t := Triple(b[0], b[1], b[2]);
      JoinOfSplit(t);
      RoundTrip(b[3..]);
      DecodeFull(Split(t), Encode(b[3..]));
      assert Octets3(t) + b[3..] == b;
    }
  }

  lemma TailCanonical(s: string)
    requires |s| == 4 && DecodeTail(s).Some?
    ensures Encode(DecodeTail(s).value) == s
  {
    var v0, v1 := SymbolValue(s[0]).value, SymbolValue(s[1]).value;
    if s[2] == PAD {
      var q := Quad(v0, v1, 0, 0);
      SplitOfJoin(q);
      assert Join(q).b == 0 && Join(q).c == 0;
    } else if s[3] == PAD {
      var q := Quad(v0, v1, SymbolValue(s[2]).value, 0);
      SplitOfJoin(q);
      assert Join(q).c == 0;
    } else {
      var q := Quad(v0, v1, SymbolValue(s[2]).value, SymbolValue(s[3]).value);
      SplitOfJoin(q);
      assert Encode(Octets3(Join(q))[3..]) == "";
    }
  }

  lemma EncodeTriple(t: Triple, r: Bytes)
    ensures Encode(Octets3(t) + r) == Symbols(Split(t)) + Encode(r)
  {
    var d := Octets3(t) + r;
    assert d[3..] == r;
    assert Triple(d[0], d[1], d[2]) == t;
  }

  lemma EncodeStep(q: Quad, r: Bytes)
    ensures Encode(Octets3(Join(q)) + r) == Symbols(q) + Encode(r)
  {
    SplitOfJoin(q);
    EncodeTriple(Join(q), r);
  }

  lemma Decode4Canonical(s: string)
    requires |s| == 4 && Decode4(s).Some?
    ensures Symbols(Decode4(s).value) == s
  {
  }

  lemma DecodeStep(s: string, b: Bytes) returns (q: Quad, r: Bytes)
    requires |s| > 4 && Decode(s) == Some(b)
    ensures Symbols(q) == s[..4] && Decode(s[4..]) == Some(r)
    ensures b == Octets3(Join(q)) + r
  {
    q, r := Decode4(s[..4]).value, Decode(s[4..]).value;
    Decode4Canonical(s[..4]);
  }

  lemma {:induction false} Canonical(s: string, b: Bytes, quads: nat)
    requires |s| == 4 * quads && Decode(s) == Some(b)
    ensures Encode(b) == s
  {
    if quads == 0 {
    } else if quads == 1 {
      TailCanonical(s);
    } else {
      var q, r := DecodeStep(s, b);
      Canonical(s[4..], r, quads - 1);
      EncodeStep(q, r);
      assert s == s[..4] + s[4..];
    }
  }

  /** Among strings of whole quanta, exactly one spelling decodes to `b`: stray trailing bits,
      misplaced padding and foreign characters are all refused. */
  lemma DecodeExact(s: string, b: Bytes)
    requires |s| % 4 == 0
    ensures Decode(s) == Some(b) <==> s == Encode(b)
  {
    RoundTrip(b);
    if Decode(s) == Some(b) {
      Canonical(s, b, |s| / 4);
    }
  }

  lemma {:induction false} EncodedAscii(b: Bytes, i: nat)
    requires i < |Encode(b)|
    ensures Encode(b)[i] < 128 as char && Encode(b)[i] != '\"'
  {
    hide Split;
    LengthStep(b);
    if |b| > 3 && i >= 4 {
      EncodedAscii(b[3..], i - 4);
    }
  }

  lemma TailAscii(s: string, i: nat)
    requires 1 <= |s| <= 4 && DecodeTail(s).Some? && i < |s|
    ensures s[i] < 128 as char
  {
  }

  lemma HeadAscii(s: string, i: nat)
    requires |s| == 4 && Decode4(s).Some? && i < 4
    ensures s[i] < 128 as char
  {
  }

  lemma {:induction false} DecodedAscii(s: string, i: nat)
    requires Decode(s).Some? && i < |s|
    ensures s[i] < 128 as char
  {
    if |s| <= 4 {
      TailAscii(s, i);
    } else if i < 4 {
      HeadAscii(s[..4], i);
    } else {
      DecodedAscii(s[4..], i - 4);
    }
  }

  /** The four sextets are the 24 bits of the three octets in the same order, high bits first
      (RFC 4648 section 4). */
  lemma SameBits(t: Triple)
    ensures var q := Split(t);
            ((q.v0 * 64 + q.v1) * 64 + q.v2) * 64 + q.v3 == (t.a * 256 + t.b) * 256 + t.c
  {
    assert t.a == t.a / 4 * 4 + t.a % 4;
    assert t.b == t.b / 16 * 16 + t.b % 16;
    assert t.c == t.c / 64 * 64 + t.c % 64;
  }

  /** The alphabet of RFC 4648, table 1: four runs of consecutive characters and two single ones. */
  lemma Alphabet(v: Sextet)
    ensures Symbol(0) == 'A' && Symbol(25) == 'Z' && Symbol(26) == 'a' && Symbol(51) == 'z'
    ensures Symbol(52) == '0' && Symbol(61) == '9' && Symbol(62) == '+' && Symbol(63) == '/'
    ensures v < 62 && v != 25 && v != 51 && v != 61 ==> Symbol(v + 1) as int == Symbol(v) as int + 1
  {
  }

  /** The bits, quantum by quantum, most significant first; */
  lemma Quanta(a: Octet, b: Octet, c: Octet, rest: Bytes)
    ensures Encode([a, b, c] + rest) ==
            [Symbol(a / 4), Symbol(a % 4 * 16 + b / 16), Symbol(b % 16 * 4 + c / 64), Symbol(c % 64)] + Encode(rest)
  {
    EncodeTriple(Triple(a, b, c), rest);
    hide Encode, Symbol;
  }

  /** the last quantum is filled up with zero bits and equals signs. */
  lemma LastQuantum(a: Octet, b: Octet)
    ensures Encode([a]) == [Symbol(a / 4), Symbol(a % 4 * 16), '=', '=']
    ensures Encode([a, b]) == [Symbol(a / 4), Symbol(a % 4 * 16 + b / 16), Symbol(b % 16 * 4), '=']
  {
    hide Symbol;
    var one, two := Split(Triple(a, 0, 0)), Split(Triple(a, b, 0));
    assert Encode([a]) == Symbols(one)[..2] + [PAD, PAD];
    assert Encode([a, b]) == Symbols(two)[..3] + [PAD];
    hide Encode;
  }

  // ---- text of any length ----

  /** The padding characters at the end of an encoding. */
  function Pads(b: Bytes): nat {
    if |b| % 3 == 0 then 0 else 3 - |b| % 3
  }

  /** The spellings of `b`: its encoding with any number of its padding characters left off. */
  predicate Spells(s: string, b: Bytes) {
    s <= Encode(b) && |s| + Pads(b) >= |Encode(b)|
  }

  lemma TailPadded(s: string, full: string)
    requires 2 <= |s| <= 3
    requires full == if |s| == 2 then s + [PAD, PAD] else s + [PAD]
    ensures DecodeTail(full) == DecodeTail(s)
  {
    hide Join, SymbolValue;
    assert forall i | 0 <= i < |s| :: full[i] == s[i];
    assert forall i | |s| <= i < 4 :: full[i] == PAD;
  }

  lemma PadEnds(b: Bytes)
    requires |b| <= 2
    ensures |b| == 1 ==> |Encode(b)| == 4 && Encode(b)[2] == PAD && Encode(b)[3] == PAD
    ensures |b| == 2 ==> |Encode(b)| == 4 && Encode(b)[3] == PAD
    ensures |b| == 0 ==> Encode(b) == ""
  {
    hide Split;
  }

  /** A short text lacks nothing but padding. */
  lemma MissingPadding(s: string, b: Bytes)
    requires |b| <= 3 && Spells(s, b) && |s| < |Encode(b)|
    ensures 2 <= |s| <= 3 && Encode(b) == if |s| == 2 then s + [PAD, PAD] else s + [PAD]
  {
    LengthStep(b);
    if |b| < 3 {
      PadEnds(b);
    }
    hide Encode;
    assert s == Encode(b)[..|s|];
  }

  lemma SpellsShort(s: string, b: Bytes)
    requires |b| <= 3 && Spells(s, b)
    ensures Decode(s) == Some(b)
  {
    RoundTrip(b);
    LengthStep(b);
    if |s| == |Encode(b)| {
      assert s == Encode(b);
    } else {
      MissingPadding(s, b);
      hide Encode, DecodeTail, Spells;
      TailPadded(s, Encode(b));
    }
  }

  lemma TailLength(s: string)
    requires 2 <= |s| <= 4 && DecodeTail(s).Some?
    ensures |s| + Pads(DecodeTail(s).value) >= 4
  {
    hide Join;
  }

  lemma TailSpells(s: string)
    requires 1 <= |s| <= 4 && DecodeTail(s).Some?
    ensures Spells(s, DecodeTail(s).value)
  {
    TailLength(s);
    var full := if |s| == 2 then s + [PAD, PAD] else if |s| == 3 then s + [PAD] else s;
    if |s| < 4 {
      TailPadded(s, full);
    }
    TailCanonical(full);
    hide Join, Encode, Pads, DecodeTail;
    assert s <= full;
  }

  lemma PrefixStep(head: string, s: string, e: string)
    ensures head + s <= head + e <==> s <= e
  {
    if head + s <= head + e {
      assert (head + e)[..|head + s|] == head + s;
      assert (head + s)[|head|..] == s && (head + e)[|head|..] == e;
      assert e[..|s|] == s;
    }
    if s <= e {
      assert head + e == head + s + e[|s|..];
    }
  }

  lemma PadsStep(t: Triple, r: Bytes)
    ensures Pads(Octets3(t) + r) == Pads(r)
  {
  }

  /** A spelling begins with a spelling of three bytes and goes on with one of the others. */
  lemma SpellsStep(q: Quad, s: string, r: Bytes)
    ensures Spells(Symbols(q) + s, Octets3(Join(q)) + r) <==> Spells(s, r)
  {
    EncodeStep(q, r);
    PadsStep(Join(q), r);
    hide Encode, Join, Pads;
    PrefixStep(Symbols(q), s, Encode(r));
  }

  /** Only a short text can leave off padding from its first four characters. */
  lemma FirstQuantum(s: string, q: Quad, r: Bytes)
    requires |r| > 0 && Spells(s, Octets3(Join(q)) + r)
    ensures |s| >= 4 && s[..4] == Symbols(q)
  {
    EncodeStep(q, r);
    LengthStep(r);
    var b := Octets3(Join(q)) + r;
    assert Pads(b) <= 2;
    var e := Encode(b);
    hide Encode, Join, Pads;
    assert e == Symbols(q) + Encode(r) && s == e[..|s|];
    assert s[..4] == e[..4];
  }

  lemma {:induction false} SpellingDecodes(s: string, b: Bytes)
    requires Spells(s, b)
    ensures Decode(s) == Some(b)
  {
    if |b| <= 3 {
      SpellsShort(s, b);
    } else {
      var t := Triple(b[0], b[1], b[2]);
      var q := Split(t);
      JoinOfSplit(t);
      assert b == Octets3(t) + b[3..];
      hide Split, Join, Encode, Spells, Pads;
      FirstQuantum(s, q, b[3..]);
      assert s == Symbols(q) + s[4..];
      SpellsStep(q, s[4..], b[3..]);
      SpellingDecodes(s[4..], b[3..]);
      DecodeFull(q, s[4..]);
    }
  }

  lemma {:induction false} DecodedSpells(s: string, b: Bytes)
    requires Decode(s) == Some(b)
    ensures Spells(s, b)
    decreases |s|
  {
    if |s| == 0 {
    } else if |s| <= 4 {
      TailSpells(s);
    } else {
      var q, r := DecodeStep(s, b);
      hide Join, Encode, Spells, Pads, Decode;
      DecodedSpells(s[4..], r);
      SpellsStep(q, s[4..], r);
      assert s == Symbols(q) + s[4..];
    }
  }

  /** Among texts of any length, those that decode to `b` are its encoding and the same with some or all
      of the padding left off. */
  lemma DecodeAnyExact(s: string, b: Bytes)
    ensures Decode(s) == Some(b) <==> Spells(s, b)
  {
    if Decode(s) == Some(b) {
      DecodedSpells(s, b);
    }
    if Spells(s, b) {
      SpellingDecodes(s, b);
    }
  }
}
