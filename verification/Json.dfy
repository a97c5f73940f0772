/** JSON texts, RFC 8259: a reader for the whole grammar. Numbers and strings keep their spelling. */
module Json {
  import opened Wrappers
  import Hex

  datatype Json =
    | Null
    | Bool(value: bool)
    | Number(text: string)
    | Text(raw: string)
    | Array(items: seq<Json>)
    | Object(members: seq<(string, Json)>)

  predicate IsSpace(c: char) {
    c == ' ' || c == '\t' || c == '\n' || c == '\r'
  }

  function SkipSpace(s: string): (r: string)
    ensures |r| <= |s|
  {
    if |s| > 0 && IsSpace(s[0]) then SkipSpace(s[1..]) else s
  }

  predicate IsDigit(c: char) {
    '0' <= c <= '9'
  }

  function CountDigits(s: string): (n: nat)
    ensures n <= |s|
  {
    if |s| > 0 && IsDigit(s[0]) then 1 + CountDigits(s[1..]) else 0
  }

  // ---- strings ----

  predicate IsUnicodeEscape(s: string) {
    |s| >= 6 && s[0] == '\\' && s[1] == 'u' && forall i | 2 <= i < 6 :: Hex.DigitValue(s[i]).Some?
  }

  /** The first character of a string's body with everything that belongs to it; zero if none may
      stand there. */
  function CharLength(s: string): (n: nat)
    ensures n <= |s|
  {
    if |s| == 0 || s[0] < ' ' || s[0] == '\"' then 0
    else if s[0] != '\\' then 1
    else if |s| >= 2 && s[1] in {'\"', '\\', '/', 'b', 'f', 'n', 'r', 't'} then 2
    else if IsUnicodeEscape(s) then 6
    else 0
  }

  /** The body of a string up to its closing quote, and what follows the quote. */
  function ReadChars(s: string): (r: Option<(string, string)>)
    ensures r.Some? ==> |r.value.1| < |s|
  {
    if |s| > 0 && s[0] == '\"' then Some(("", s[1..]))
    else
      var n := CharLength(s);
      if n == 0 then None
      else
        var (body, rest) :- ReadChars(s[n..]);
        Some((s[..n] + body, rest))
  }

  // ---- numbers ----

  /** `.` and digits, or nothing. */
  function FractionLength(s: string): (n: Option<nat>)
    ensures n.Some? ==> n.value <= |s|
  {
    if |s| == 0 || s[0] != '.' then Some(0)
    else if CountDigits(s[1..]) == 0 then None
    else Some(1 + CountDigits(s[1..]))
  }

  /** An exponent, or nothing. */
  function ExponentLength(s: string): (n: Option<nat>)
    ensures n.Some? ==> n.value <= |s|
  {
    if |s| == 0 || (s[0] != 'e' && s[0] != 'E') then Some(0)
    else
      var sign := if |s| > 1 && (s[1] == '+' || s[1] == '-') then 1 else 0;
      var d := CountDigits(s[1 + sign..]);
      if d == 0 then None else Some(1 + sign + d)
  }

  /** Digits without a leading zero. */
  function IntegerLength(s: string): (n: Option<nat>)
    ensures n.Some? ==> 0 < n.value <= |s|
  {
    var d := CountDigits(s);
    if d == 0 || (d > 1 && s[0] == '0') then None else Some(d)
  }

  function UnsignedLength(s: string): (n: Option<nat>)
    ensures n.Some? ==> 0 < n.value <= |s|
  {
    var i :- IntegerLength(s);
    var f :- FractionLength(s[i..]);
    var e :- ExponentLength(s[i + f..]);
    Some(i + f + e)
  }

  function ReadNumber(s: string): (r: Option<(string, string)>)
    ensures r.Some? ==> |r.value.1| < |s|
  {
    var sign := if |s| > 0 && s[0] == '-' then 1 else 0;
    var n :- UnsignedLength(s[sign..]);
    Some((s[..sign + n], s[sign + n..]))
  }

  // ---- values ----

  predicate IsScalar(s: string) {
    |s| > 0 && s[0] != '{' && s[0] != '[' && s[0] != '\"'
  }

  /** The literals and the numbers. */
  function ReadScalar(s: string): (r: Option<(Json, string)>)
    requires IsScalar(s)
    ensures r.Some? ==> |r.value.1| < |s|
  {
    if "null" <= s then Some((Null, s[4..]))
    else if "true" <= s then Some((Bool(true), s[4..]))
    else if "false" <= s then Some((Bool(false), s[5..]))
    else
      var (text, rest) :- ReadNumber(s);
      Some((Number(text), rest))
  }

  function ReadValue(s: string): (r: Option<(Json, string)>)
    ensures r.Some? ==> |r.value.1| < |s|
    decreases |s|, 0
  {
    var t := SkipSpace(s);
    if |t| == 0 then None
    else if t[0] == '{' then
      var u := SkipSpace(t[1..]);
      if |u| > 0 && u[0] == '}' then Some((Object([]), u[1..]))
      else
        var (members, rest) :- ReadMembers(t[1..]);
        Some((Object(members), rest))
    else if t[0] == '[' then
      var u := SkipSpace(t[1..]);
      if |u| > 0 && u[0] == ']' then Some((Array([]), u[1..]))
      else
        var (items, rest) :- ReadItems(t[1..]);
        Some((Array(items), rest))
    else if t[0] == '\"' then
      var (body, rest) :- ReadChars(t[1..]);
      Some((Text(body), rest))
    else ReadScalar(t)
  }

  /** One name and value. */
  function ReadMember(s: string): (r: Option<((string, Json), string)>)
    ensures r.Some? ==> |r.value.1| < |s|
    decreases |s|, 0
  {
    var t := SkipSpace(s);
    if |t| == 0 || t[0] != '\"' then None
    else
      var (name, afterName) :- ReadChars(t[1..]);
      var u := SkipSpace(afterName);
      if |u| == 0 || u[0] != ':' then None
      else
        var (value, rest) :- ReadValue(u[1..]);
        Some(((name, value), rest))
  }

  /** One or more members and the closing brace. */
  function ReadMembers(s: string): (r: Option<(seq<(string, Json)>, string)>)
    ensures r.Some? ==> |r.value.1| < |s|
    decreases |s|, 1
  {
    var (member, rest) :- ReadMember(s);
    var w := SkipSpace(rest);
    if |w| > 0 && w[0] == '}' then Some(([member], w[1..]))
    else if |w| > 0 && w[0] == ',' then
      var (members, last) :- ReadMembers(w[1..]);
      Some(([member] + members, last))
    else None
  }

  /** One or more values and the closing bracket. */
  function ReadItems(s: string): (r: Option<(seq<Json>, string)>)
    ensures r.Some? ==> |r.value.1| < |s|
    decreases |s|, 1
  {
    var (item, rest) :- ReadValue(s);
    var w := SkipSpace(rest);
    if |w| > 0 && w[0] == ']' then Some(([item], w[1..]))
    else if |w| > 0 && w[0] == ',' then
      var (items, last) :- ReadItems(w[1..]);
      Some(([item] + items, last))
    else None
  }

  /** A whole JSON text. */
  function Parse(s: string): Option<Json> {
    var (value, rest) :- ReadValue(s);
    if SkipSpace(rest) == "" then Some(value) else None
  }

  // ---- reading does not depend on what follows ----

  lemma {:induction false} SpaceExtends(s: string, t: string)
    requires SkipSpace(s) != ""
    ensures SkipSpace(s + t) == SkipSpace(s) + t
  {
    if IsSpace(s[0]) {
      SpaceExtends(s[1..], t);
      assert (s + t)[1..] == s[1..] + t;
    }
  }

  lemma {:induction false} DigitsExtend(s: string, t: string)
    requires CountDigits(s) < |s|
    ensures CountDigits(s + t) == CountDigits(s)
  {
    if IsDigit(s[0]) {
      DigitsExtend(s[1..], t);
      assert (s + t)[1..] == s[1..] + t;
    }
  }

  lemma {:induction false} CharsExtend(s: string, t: string)
    requires ReadChars(s).Some?
    ensures ReadChars(s + t) == Some((ReadChars(s).value.0, ReadChars(s).value.1 + t))
    decreases |s|
  {
    if s[0] == '\"' {
      assert (s + t)[1..] == s[1..] + t;
    } else {
      var n := CharLength(s);
      assert CharLength(s + t) == n;
      CharsExtend(s[n..], t);
      assert (s + t)[n..] == s[n..] + t && (s + t)[..n] == s[..n];
    }
  }

  lemma FractionExtends(s: string, t: string)
    requires FractionLength(s).Some? && FractionLength(s).value < |s|
    ensures FractionLength(s + t) == FractionLength(s)
  {
    if s[0] == '.' {
      assert (s + t)[1..] == s[1..] + t;
      DigitsExtend(s[1..], t);
    }
  }

  lemma ExponentExtends(s: string, t: string)
    requires ExponentLength(s).Some? && ExponentLength(s).value < |s|
    ensures ExponentLength(s + t) == ExponentLength(s)
  {
    if s[0] == 'e' || s[0] == 'E' {
      var sign := if |s| > 1 && (s[1] == '+' || s[1] == '-') then 1 else 0;
      assert (s + t)[1 + sign..] == s[1 + sign..] + t;
      DigitsExtend(s[1 + sign..], t);
    }
  }

  lemma IntegerExtends(s: string, t: string)
    requires IntegerLength(s).Some? && IntegerLength(s).value < |s|
    ensures IntegerLength(s + t) == IntegerLength(s)
  {
    DigitsExtend(s, t);
  }

  lemma TailExtends(s: string, t: string, n: nat)
    requires n <= |s|
    ensures (s + t)[n..] == s[n..] + t
    ensures (s + t)[..n] == s[..n]
  {
  }

  lemma UnsignedExtends(s: string, t: string)
    requires UnsignedLength(s).Some? && UnsignedLength(s).value < |s|
    ensures UnsignedLength(s + t) == UnsignedLength(s)
  {
    hide IntegerLength, FractionLength, ExponentLength;
    var i := IntegerLength(s).value;
    var f := FractionLength(s[i..]).value;
    IntegerExtends(s, t);
    TailExtends(s, t, i);
    FractionExtends(s[i..], t);
    TailExtends(s, t, i + f);
    ExponentExtends(s[i + f..], t);
  }

  lemma NumberExtends(s: string, t: string)
    requires ReadNumber(s).Some? && ReadNumber(s).value.1 != ""
    ensures ReadNumber(s + t) == Some((ReadNumber(s).value.0, ReadNumber(s).value.1 + t))
  {
    hide UnsignedLength;
    var sign := if s[0] == '-' then 1 else 0;
    var n := UnsignedLength(s[sign..]).value;
    assert (s + t)[sign..] == s[sign..] + t;
    UnsignedExtends(s[sign..], t);
    assert (s + t)[..sign + n] == s[..sign + n] && (s + t)[sign + n..] == s[sign + n..] + t;
  }

  lemma NumberBegins(s: string)
    requires ReadNumber(s).Some?
    ensures s[0] == '-' || IsDigit(s[0])
  {
    hide FractionLength, ExponentLength;
    assert s[0..] == s;
  }

  lemma LiteralExtends(s: string, t: string)
    requires IsScalar(s) && ("null" <= s || "true" <= s || "false" <= s)
    ensures ReadScalar(s).Some?
    ensures ReadScalar(s + t) == Some((ReadScalar(s).value.0, ReadScalar(s).value.1 + t))
  {
    hide ReadNumber;
    assert (s + t)[0] == s[0];
    if "null" <= s {
      TailExtends(s, t, 4);
    } else if "true" <= s {
      TailExtends(s, t, 4);
    } else {
      TailExtends(s, t, 5);
    }
  }

  lemma NumberIsScalar(s: string)
    requires ReadNumber(s).Some?
    ensures IsScalar(s) && !("null" <= s) && !("true" <= s) && !("false" <= s)
    ensures ReadScalar(s) == Some((Number(ReadNumber(s).value.0), ReadNumber(s).value.1))
  {
    NumberBegins(s);
    hide ReadNumber;
  }

  lemma ScalarExtends(s: string, t: string)
    requires IsScalar(s) && ReadScalar(s).Some?
    requires ReadScalar(s).value.0.Number? ==> ReadScalar(s).value.1 != ""
    ensures ReadScalar(s + t) == Some((ReadScalar(s).value.0, ReadScalar(s).value.1 + t))
  {
    if "null" <= s || "true" <= s || "false" <= s {
      LiteralExtends(s, t);
    } else {
      NumberExtends(s, t);
      hide ReadNumber;
      NumberIsScalar(s);
      NumberIsScalar(s + t);
    }
  }

  /** A value that has been read is read from any longer text as well, with the surplus left over;
      only a number at the very end may go on. */
  lemma {:induction false} ValueExtends(s: string, t: string)
    requires ReadValue(s).Some?
    requires ReadValue(s).value.0.Number? ==> ReadValue(s).value.1 != ""
    ensures ReadValue(s + t) == Some((ReadValue(s).value.0, ReadValue(s).value.1 + t))
    decreases |s|, 0
  {
    hide ReadMembers, ReadItems, ReadChars, ReadScalar;
    var u := SkipSpace(s);
    SpaceExtends(s, t);
    TailExtends(u, t, 1);
    if u[0] == '{' {
      ObjectExtends(u[1..], t);
    } else if u[0] == '[' {
      ArrayExtends(u[1..], t);
    } else if u[0] == '\"' {
      CharsExtend(u[1..], t);
    } else {
      ScalarExtends(u, t);
    }
  }

  lemma {:induction false} ObjectExtends(s: string, t: string)
    requires (|SkipSpace(s)| > 0 && SkipSpace(s)[0] == '}') || ReadMembers(s).Some?
    ensures SkipSpace(s + t) == SkipSpace(s) + t && SkipSpace(s) != ""
    ensures !(SkipSpace(s)[0] == '}') ==>
              ReadMembers(s + t) == Some((ReadMembers(s).value.0, ReadMembers(s).value.1 + t))
    ensures SkipSpace(s)[0] == '}' ==> (SkipSpace(s) + t)[1..] == SkipSpace(s)[1..] + t
    decreases |s|, 2
  {
    SpaceExtends(s, t);
    if SkipSpace(s)[0] != '}' {
      MembersExtend(s, t);
    }
  }

  lemma {:induction false} ArrayExtends(s: string, t: string)
    requires (|SkipSpace(s)| > 0 && SkipSpace(s)[0] == ']') || ReadItems(s).Some?
    ensures SkipSpace(s + t) == SkipSpace(s) + t && SkipSpace(s) != ""
    ensures !(SkipSpace(s)[0] == ']') ==>
              ReadItems(s + t) == Some((ReadItems(s).value.0, ReadItems(s).value.1 + t))
    ensures SkipSpace(s)[0] == ']' ==> (SkipSpace(s) + t)[1..] == SkipSpace(s)[1..] + t
    decreases |s|, 2
  {
    SpaceExtends(s, t);
    if SkipSpace(s)[0] != ']' {
      ItemsExtend(s, t);
    }
  }

  lemma {:induction false} MemberExtends(s: string, t: string)
    requires ReadMember(s).Some? && ReadMember(s).value.1 != ""
    ensures ReadMember(s + t) == Some((ReadMember(s).value.0, ReadMember(s).value.1 + t))
    decreases |s|, 0
  {
    hide ReadValue, ReadChars;
    var u := SkipSpace(s);
    SpaceExtends(s, t);
    assert (u + t)[1..] == u[1..] + t;
    CharsExtend(u[1..], t);
    var afterName := ReadChars(u[1..]).value.1;
    AfterNameExtends(afterName, t);
  }

  lemma {:induction false} AfterNameExtends(s: string, t: string)
    requires var w := SkipSpace(s);
             |w| > 0 && w[0] == ':' && ReadValue(w[1..]).Some? && ReadValue(w[1..]).value.1 != ""
    ensures SkipSpace(s + t) == SkipSpace(s) + t
    ensures var w := SkipSpace(s);
            ReadValue(SkipSpace(s + t)[1..]) ==
            Some((ReadValue(w[1..]).value.0, ReadValue(w[1..]).value.1 + t))
    decreases |s|, 2
  {
    hide ReadValue;
    var w := SkipSpace(s);
    SpaceExtends(s, t);
    assert (w + t)[1..] == w[1..] + t;
    ValueExtends(w[1..], t);
  }

  lemma {:induction false} MembersExtend(s: string, t: string)
    requires ReadMembers(s).Some?
    ensures ReadMembers(s + t) == Some((ReadMembers(s).value.0, ReadMembers(s).value.1 + t))
    decreases |s|, 1
  {
    MemberExtends(s, t);
    var rest := ReadMember(s).value.1;
    var w := SkipSpace(rest);
    SpaceExtends(rest, t);
    assert (w + t)[1..] == w[1..] + t;
    if w[0] == ',' {
      MembersExtend(w[1..], t);
    }
  }

  lemma {:induction false} ItemsExtend(s: string, t: string)
    requires ReadItems(s).Some?
    ensures ReadItems(s + t) == Some((ReadItems(s).value.0, ReadItems(s).value.1 + t))
    decreases |s|, 1
  {
    ValueExtends(s, t);
    var rest := ReadValue(s).value.1;
    var w := SkipSpace(rest);
    SpaceExtends(rest, t);
    assert (w + t)[1..] == w[1..] + t;
    if w[0] == ',' {
      ItemsExtend(w[1..], t);
    }
  }

  // ---- strings that need no escapes ----

  /** Characters that stand for themselves in a JSON string. */
  predicate Plain(x: string) {
    forall i | 0 <= i < |x| :: ' ' <= x[i] && x[i] != '\"' && x[i] != '\\'
  }

  lemma {:induction false} PlainRead(x: string, rest: string)
    requires Plain(x)
    ensures ReadChars(x + "\"" + rest) == Some((x, rest))
  {
    var s := x + "\"" + rest;
    if |x| == 0 {
      assert s[0] == '\"' && s[1..] == rest;
    } else {
      PlainRead(x[1..], rest);
      assert s[1..] == x[1..] + "\"" + rest && s[..1] + x[1..] == x;
      assert CharLength(s) == 1;
    }
  }
}
