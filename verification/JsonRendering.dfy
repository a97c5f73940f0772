/** The reader of JSON texts accounts for every character: what it reads, printed again, is the text
    it read without the insignificant space. */
module JsonRendering {
  import opened Wrappers
  import opened Json

  /** The compact text of a value. */
  function Render(value: Json): string
    decreases value
  {
    match value
    case Null => "null"
    case Bool(b) => if b then "true" else "false"
    case Number(text) => text
    case Text(raw) => "\"" + raw + "\""
    case Array(items) => "[" + (RenderItems(items) + "]")
    case Object(members) => "{" + (RenderMembers(members) + "}")
  }

  function RenderItems(items: seq<Json>): string
    decreases items
  {
    if |items| == 0 then ""
    else if |items| == 1 then Render(items[0])
    else Render(items[0]) + ("," + RenderItems(items[1..]))
  }

  function RenderMember(member: (string, Json)): string
    decreases member
  {
    "\"" + member.0 + "\"" + (":" + Render(member.1))
  }

  function RenderMembers(members: seq<(string, Json)>): string
    decreases members
  {
    if |members| == 0 then ""
    else if |members| == 1 then RenderMember(members[0])
    else RenderMember(members[0]) + ("," + RenderMembers(members[1..]))
  }

  /** A text without the space outside its strings. */
  function Squeeze(s: string): string
    decreases |s|
  {
    if |s| == 0 then ""
    else if IsSpace(s[0]) then Squeeze(s[1..])
    else if s[0] != '\"' then [s[0]] + Squeeze(s[1..])
    else
      var r := ReadChars(s[1..]);
      if r.None? then s else "\"" + r.value.0 + "\"" + Squeeze(r.value.1)
  }

  lemma {:induction false} SqueezeSkips(s: string)
    ensures Squeeze(SkipSpace(s)) == Squeeze(s)
  {
    if |s| > 0 && IsSpace(s[0]) {
      SqueezeSkips(s[1..]);
    }
  }

  predicate Solid(c: char) {
    !IsSpace(c) && c != '\"'
  }

  lemma {:induction false} SqueezeSolid(t: string, r: string)
    requires forall i | 0 <= i < |t| :: Solid(t[i])
    ensures Squeeze(t + r) == t + Squeeze(r)
  {
    if |t| == 0 {
      assert t + r == r && "" + Squeeze(r) == Squeeze(r);
    } else {
      SqueezeSolid(t[1..], r);
      assert (t + r)[1..] == t[1..] + r;
      assert [t[0]] + (t[1..] + Squeeze(r)) == t + Squeeze(r);
    }
  }

  lemma Cut(s: string, n: nat)
    requires n <= |s|
    ensures s == s[..n] + s[n..]
  {
  }

  // ---- numbers are solid ----

  lemma {:induction false} DigitsSolid(s: string, i: nat)
    requires i < CountDigits(s)
    ensures Solid(s[i])
  {
    if i > 0 {
      DigitsSolid(s[1..], i - 1);
    }
  }

  lemma FractionSolid(s: string, i: nat)
    requires FractionLength(s).Some? && i < FractionLength(s).value
    ensures Solid(s[i])
  {
    if i > 0 {
      DigitsSolid(s[1..], i - 1);
    }
  }

  lemma ExponentSolid(s: string, i: nat)
    requires ExponentLength(s).Some? && i < ExponentLength(s).value
    ensures Solid(s[i])
  {
    var sign := if |s| > 1 && (s[1] == '+' || s[1] == '-') then 1 else 0;
    if i >= 1 + sign {
      DigitsSolid(s[1 + sign..], i - 1 - sign);
    }
  }

  lemma UnsignedSolid(s: string, i: nat)
    requires UnsignedLength(s).Some? && i < UnsignedLength(s).value
    ensures Solid(s[i])
  {
    var n := IntegerLength(s).value;
    var f := FractionLength(s[n..]).value;
    if i < n {
      DigitsSolid(s, i);
    } else if i < n + f {
      hide ExponentLength, IntegerLength;
      FractionSolid(s[n..], i - n);
    } else {
      hide FractionLength, IntegerLength;
      ExponentSolid(s[n + f..], i - n - f);
    }
  }

  lemma NumberKept(s: string)
    requires ReadNumber(s).Some?
    ensures Squeeze(s) == ReadNumber(s).value.0 + Squeeze(ReadNumber(s).value.1)
  {
    hide UnsignedLength;
    var sign := if |s| > 0 && s[0] == '-' then 1 else 0;
    var text, rest := ReadNumber(s).value.0, ReadNumber(s).value.1;
    Cut(s, |text|);
    forall i | 0 <= i < |text| ensures Solid(text[i]) {
      if i >= sign {
        UnsignedSolid(s[sign..], i - sign);
      }
    }
    SqueezeSolid(text, rest);
  }

  lemma LiteralKept(s: string, literal: string)
    requires literal <= s && forall i | 0 <= i < |literal| :: Solid(literal[i])
    ensures Squeeze(s) == literal + Squeeze(s[|literal|..])
  {
    Cut(s, |literal|);
    assert s[..|literal|] == literal;
    SqueezeSolid(literal, s[|literal|..]);
  }

  lemma ScalarKept(s: string)
    requires IsScalar(s) && ReadScalar(s).Some?
    ensures Squeeze(s) == Render(ReadScalar(s).value.0) + Squeeze(ReadScalar(s).value.1)
  {
    hide ReadNumber, Squeeze;
    if "null" <= s {
      LiteralKept(s, "null");
    } else if "true" <= s {
      LiteralKept(s, "true");
    } else if "false" <= s {
      LiteralKept(s, "false");
    } else {
      NumberKept(s);
    }
  }

  // ---- values ----

  lemma SolidFirst(s: string)
    requires |s| > 0 && Solid(s[0])
    ensures Squeeze(s) == [s[0]] + Squeeze(s[1..])
  {
  }

  lemma StringKept(s: string)
    requires |s| > 0 && s[0] == '\"' && ReadChars(s[1..]).Some?
    ensures Squeeze(s) == "\"" + ReadChars(s[1..]).value.0 + "\"" + Squeeze(ReadChars(s[1..]).value.1)
  {
  }

  lemma Associate(a: string, b: string, c: string)
    ensures a + (b + c) == (a + b) + c
  {
  }

  /** Everything a value takes from the text is in the value, except space. */
  lemma {:induction false} ValueKept(s: string)
    requires ReadValue(s).Some?
    ensures Squeeze(s) == Render(ReadValue(s).value.0) + Squeeze(ReadValue(s).value.1)
    decreases |s|, 0
  {
    hide Squeeze, ReadChars, ReadScalar, ReadMembers, ReadItems, RenderItems, RenderMembers;
    var t := SkipSpace(s);
    SqueezeSkips(s);
    if t[0] == '{' {
      SolidFirst(t);
      ObjectKept(t[1..]);
      Associate("{", RenderMembers(ReadValue(s).value.0.members) + "}", Squeeze(ReadValue(s).value.1));
    } else if t[0] == '[' {
      SolidFirst(t);
      ArrayKept(t[1..]);
      Associate("[", RenderItems(ReadValue(s).value.0.items) + "]", Squeeze(ReadValue(s).value.1));
    } else if t[0] == '\"' {
      StringKept(t);
    } else {
      ScalarKept(t);
    }
  }

  lemma NoMembers()
    ensures RenderMembers([]) == "" && RenderItems([]) == ""
  {
  }

  lemma {:induction false} ObjectKept(s: string)
    requires var u := SkipSpace(s); (|u| > 0 && u[0] == '}') || ReadMembers(s).Some?
    ensures var u := SkipSpace(s);
            if |u| > 0 && u[0] == '}' then Squeeze(s) == (RenderMembers([]) + "}") + Squeeze(u[1..])
            else Squeeze(s) == (RenderMembers(ReadMembers(s).value.0) + "}") + Squeeze(ReadMembers(s).value.1)
    decreases |s|, 2
  {
    hide ReadMembers, RenderMembers;
    var u := SkipSpace(s);
    if |u| > 0 && u[0] == '}' {
      SqueezeSkips(s);
      SolidFirst(u);
      NoMembers();
    } else {
      MembersKept(s);
    }
  }

  lemma {:induction false} ArrayKept(s: string)
    requires var u := SkipSpace(s); (|u| > 0 && u[0] == ']') || ReadItems(s).Some?
    ensures var u := SkipSpace(s);
            if |u| > 0 && u[0] == ']' then Squeeze(s) == (RenderItems([]) + "]") + Squeeze(u[1..])
            else Squeeze(s) == (RenderItems(ReadItems(s).value.0) + "]") + Squeeze(ReadItems(s).value.1)
    decreases |s|, 2
  {
    hide ReadItems, RenderItems;
    var u := SkipSpace(s);
    if |u| > 0 && u[0] == ']' {
      SqueezeSkips(s);
      SolidFirst(u);
      NoMembers();
    } else {
      ItemsKept(s);
    }
  }

  lemma {:induction false} MemberKept(s: string)
    requires ReadMember(s).Some?
    ensures Squeeze(s) == RenderMember(ReadMember(s).value.0) + Squeeze(ReadMember(s).value.1)
    decreases |s|, 0
  {
    hide Squeeze, ReadChars, ReadValue, Render;
    var t := SkipSpace(s);
    SqueezeSkips(s);
    StringKept(t);
    var name, afterName := ReadChars(t[1..]).value.0, ReadChars(t[1..]).value.1;
    var u := SkipSpace(afterName);
    SqueezeSkips(afterName);
    SolidFirst(u);
    ValueKept(u[1..]);
    var value, rest := ReadValue(u[1..]).value.0, ReadValue(u[1..]).value.1;
    Associate(":", Render(value), Squeeze(rest));
    Associate("\"" + name + "\"", ":" + Render(value), Squeeze(rest));
  }

  lemma {:induction false} MembersKept(s: string)
    requires ReadMembers(s).Some?
    ensures Squeeze(s) == (RenderMembers(ReadMembers(s).value.0) + "}") + Squeeze(ReadMembers(s).value.1)
    decreases |s|, 1
  {
    hide Squeeze, ReadMember, RenderMember;
    MemberKept(s);
    var member, rest := ReadMember(s).value.0, ReadMember(s).value.1;
    var w := SkipSpace(rest);
    SqueezeSkips(rest);
    SolidFirst(w);
    if w[0] == '}' {
      assert RenderMembers([member]) == RenderMember(member);
      Associate(RenderMember(member), "}", Squeeze(w[1..]));
    } else {
      MembersKept(w[1..]);
      var others, last := ReadMembers(w[1..]).value.0, ReadMembers(w[1..]).value.1;
      assert ([member] + others)[1..] == others;
      OneMore(w[1..]);
      Regroup(RenderMember(member), RenderMembers(others), "}", Squeeze(last));
    }
  }

  lemma {:induction false} ItemsKept(s: string)
    requires ReadItems(s).Some?
    ensures Squeeze(s) == (RenderItems(ReadItems(s).value.0) + "]") + Squeeze(ReadItems(s).value.1)
    decreases |s|, 1
  {
    hide Squeeze, ReadValue, Render;
    ValueKept(s);
    var item, rest := ReadValue(s).value.0, ReadValue(s).value.1;
    var w := SkipSpace(rest);
    SqueezeSkips(rest);
    SolidFirst(w);
    if w[0] == ']' {
      assert RenderItems([item]) == Render(item);
      Associate(Render(item), "]", Squeeze(w[1..]));
    } else {
      ItemsKept(w[1..]);
      var others, last := ReadItems(w[1..]).value.0, ReadItems(w[1..]).value.1;
      assert ([item] + others)[1..] == others;
      OneMore(w[1..]);
      Regroup(Render(item), RenderItems(others), "]", Squeeze(last));
    }
  }

  lemma OneMore(s: string)
    ensures ReadMembers(s).Some? ==> |ReadMembers(s).value.0| > 0
    ensures ReadItems(s).Some? ==> |ReadItems(s).value.0| > 0
  {
  }

  lemma Regroup(first: string, others: string, close: string, rest: string)
    ensures first + ("," + ((others + close) + rest)) == ((first + ("," + others)) + close) + rest
  {
  }

  /** The reader is sound: a text it accepts is the rendering of the value it returns, give or take
      space outside strings. No comma, bracket, name or digit is skipped, supplied or reordered. */
  lemma ParsedTextIsRendering(s: string)
    requires Parse(s).Some?
    ensures Squeeze(s) == Render(Parse(s).value)
  {
    hide ReadValue, Render;
    ValueKept(s);
    SqueezeSkips(ReadValue(s).value.1);
  }
}
