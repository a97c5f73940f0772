/** The account description that `getaccount` builds by hand, and a reader that undoes it. */
module AccountText {
  import opened Wrappers
  import opened Octets
  import opened Json
  import Hex
  import Numerals

  datatype Status = Uninit | Frozen | Active | Nonexist

  /** An account without a balance is described with the balance zero. */
  datatype Account = Account(status: Status, balance: Option<U128>, lastPaid: U32, lastTransLt: U64,
                             boc: Bytes)

  datatype ShardAccountState = Missing | Stored(account: Account)

  // ---- the text ----

  function StatusText(s: Status): string {
    match s
    case Uninit => "Uninit"
    case Frozen => "Frozen"
    case Active => "Active"
    case Nonexist => "Nonexist"
  }

  function Quoted(x: string): string {
    "\"" + x + "\""
  }

  /** A field: its name and the text of its value. */
  datatype Field = Field(name: string, value: string)

  function FieldText(f: Field): string {
    "\n" + Quoted(f.name) + ":\t" + f.value
  }

  function FieldsText(fields: seq<Field>): string
    requires |fields| > 0
  {
    if |fields| == 1 then FieldText(fields[0])
    else FieldText(fields[0]) + "," + FieldsText(fields[1..])
  }

  /** `{:#x}` */
  function LtText(lt: U64): string {
    "0x" + Numerals.Print(lt, 16)
  }

  function Fields(state: ShardAccountState): (f: seq<Field>)
    ensures |f| > 0
  {
    match state
    case Missing => [Field("acc_type", Quoted("Nonexist"))]
    case Stored(a) => [
      Field("acc_type", Quoted(StatusText(a.status))),
      Field("balance", Numerals.Print(a.balance.GetOr(0), 10)),
      Field("last_paid", Numerals.Print(a.lastPaid, 10)),
      Field("last_trans_lt", Quoted(LtText(a.lastTransLt))),
      Field("data(boc)", Quoted(Hex.Lower(a.boc)))
    ]
  }

  function Describe(state: ShardAccountState): string {
    "{" + FieldsText(Fields(state)) + "\n}"
  }

  lemma {:induction false} FieldsAppend(fields: seq<Field>, f: Field)
    requires |fields| > 0
    ensures FieldsText(fields + [f]) == FieldsText(fields) + "," + FieldText(f)
  {
    assert (fields + [f])[1..] == fields[1..] + [f];
    if |fields| > 1 {
      FieldsAppend(fields[1..], f);
    }
  }

  lemma Regroup(start: string, x: string, a: string, b: string, v: string, comma: string, head: string)
    requires a + b == comma + head
    ensures start + x + a + b + v == start + (x + comma + (head + v))
  {
    assert start + x + a + b + v == start + x + (a + b) + v;
  }

  lemma FieldPieces(name: string)
    ensures ",\n\"" + (name + "\":\t") == "," + ("\n" + Quoted(name) + ":\t")
  {
  }

  /** Pushing a separator, a name and a value adds one field. */
  lemma Pushed(text: string, fields: seq<Field>, f: Field)
    requires |fields| > 0 && text == "{" + FieldsText(fields)
    ensures text + ",\n\"" + (f.name + "\":\t") + f.value == "{" + FieldsText(fields + [f])
  {
    FieldsAppend(fields, f);
    FieldPieces(f.name);
    hide Quoted, FieldsText;
    Regroup("{", FieldsText(fields), ",\n\"", f.name + "\":\t", f.value,
            ",", "\n" + Quoted(f.name) + ":\t");
  }

  /** A quoted value is pushed with its opening quote at the end of the name's push and its closing
      quote at the beginning of the next one. */
  lemma PushedQuoted(text: string, fields: seq<Field>, name: string, push: string, x: string)
    requires |fields| > 0 && text == "{" + FieldsText(fields) && push == name + "\":\t\""
    ensures text + ",\n\"" + push + x + "\"" == "{" + FieldsText(fields + [Field(name, Quoted(x))])
  {
    Pushed(text, fields, Field(name, Quoted(x)));
    PushSplit(name);
    hide FieldsText;
    MoveQuote(text + ",\n\"", name + "\":\t", "\"", x);
  }

  lemma PushSplit(name: string)
    ensures name + "\":\t\"" == (name + "\":\t") + "\""
  {
  }

  lemma MoveQuote(start: string, head: string, quote: string, x: string)
    ensures start + (head + quote) + x + quote == start + head + (quote + x + quote)
  {
    MoveOne(start, head, quote);
    MoveTwo(start + head, quote, x);
  }

  lemma MoveOne(a: string, b: string, c: string)
    ensures a + (b + c) == a + b + c
  {
  }

  lemma MoveTwo(a: string, quote: string, x: string)
    ensures a + quote + x + quote == a + (quote + x + quote)
  {
  }

  lemma FirstField(x: string)
    ensures "{" + "\n\"" + "acc_type\":\t\"" + x + "\"" == "{" + FieldsText([Field("acc_type", Quoted(x))])
  {
    var f := Field("acc_type", Quoted(x));
    assert FieldsText([f]) == FieldText(f);
    assert "\n\"" + "acc_type\":\t\"" == "\n" + Quoted("acc_type") + ":\t" + "\"";
    assert ("\n" + Quoted("acc_type") + ":\t" + "\"") + x + "\"" == FieldText(f);
    assert "{" + "\n\"" + "acc_type\":\t\"" + x + "\""
        == "{" + (("\n\"" + "acc_type\":\t\"") + x + "\"");
  }

  lemma Requote(text: string)
    ensures text + "\",\n\"" == (text + "\"") + ",\n\""
    ensures text + "\"\n}" == (text + "\"") + "\n}"
  {
  }

  /** `GetAccount::receive`: the text grows by one push after another. */
  method Receive(state: ShardAccountState) returns (info: string)
    ensures info == Describe(state)
  {
    info := "{";
    info := info + "\n\"";
    info := info + "acc_type\":\t\"";
    match state {
      case Missing =>
        FirstField("Nonexist");
        info := info + "Nonexist";
      case Stored(account) =>
        info := PushAccount(info, account);
    }
    assert info + "\"" == "{" + FieldsText(Fields(state));
    hide FieldsText, Fields;
    Requote(info);
    info := info + "\"\n}";
  }

  /** The arm for a stored account. */
  method PushAccount(opening: string, account: Account) returns (info: string)
    requires opening == "{" + "\n\"" + "acc_type\":\t\""
    ensures info + "\"" == "{" + FieldsText(Fields(Stored(account)))
  {
    ghost var fields := Fields(Stored(account));
    hide FieldsText, Quoted, StatusText, LtText;
    info := opening + StatusText(account.status);
    FirstField(StatusText(account.status));
    assert fields[..1] == [fields[0]];
    ghost var before := info + "\"";
    Requote(info);
    info := info + "\",\n\"";
    info := info + "balance\":\t";
    info := info + Numerals.Print(account.balance.GetOr(0), 10);
    Pushed(before, fields[..1], fields[1]);
    assert "balance\":\t" == fields[1].name + "\":\t" && fields[..1] + [fields[1]] == fields[..2];
    before := info;
    info := info + ",\n\"";
    info := info + "last_paid\":\t";
    info := info + Numerals.Print(account.lastPaid, 10);
    Pushed(before, fields[..2], fields[2]);
    assert "last_paid\":\t" == fields[2].name + "\":\t" && fields[..2] + [fields[2]] == fields[..3];
    info := PushTexts(info, fields[..3], account);
    assert fields[..3] + [fields[3], fields[4]] == fields;
  }

  method PushTexts(text: string, ghost fields: seq<Field>, account: Account) returns (info: string)
    requires |fields| > 0 && text == "{" + FieldsText(fields)
    ensures info + "\"" == "{" + FieldsText(fields +
              [Field("last_trans_lt", Quoted(LtText(account.lastTransLt))),
               Field("data(boc)", Quoted(Hex.Lower(account.boc)))])
  {
    hide FieldsText, Quoted, LtText, Hex.Lower;
    ghost var lt := Field("last_trans_lt", Quoted(LtText(account.lastTransLt)));
    ghost var boc := Field("data(boc)", Quoted(Hex.Lower(account.boc)));
    info := text + ",\n\"";
    info := info + "last_trans_lt\":\t\"";
    info := info + LtText(account.lastTransLt);
    PushedQuoted(text, fields, "last_trans_lt", "last_trans_lt\":\t\"", LtText(account.lastTransLt));
    ghost var before := info + "\"";
    Requote(info);
    info := info + "\",\n\"";
    info := info + "data(boc)\":\t\"";
    info := info + Hex.Lower(account.boc);
    PushedQuoted(before, fields + [lt], "data(boc)", "data(boc)\":\t\"", Hex.Lower(account.boc));
    assert fields + [lt] + [boc] == fields + [lt, boc];
  }

  // ---- reading it back ----

  /** What may follow a value in the description. */
  predicate Ends(rest: string) {
    |rest| > 0 && (rest[0] == ',' || rest[0] == '\n')
  }

  /** The text `v` is read as `value` wherever it stands in a description. */
  ghost predicate Reads(v: string, value: Json) {
    forall rest | Ends(rest) :: ReadValue(v + rest) == Some((value, rest))
  }

  lemma QuotedReads(x: string)
    requires Plain(x)
    ensures Reads(Quoted(x), Text(x))
  {
    hide Plain, ReadChars, ReadScalar, ReadMembers, ReadItems;
    forall rest | Ends(rest) ensures ReadValue(Quoted(x) + rest) == Some((Text(x), rest)) {
      var s := Quoted(x) + rest;
      PlainRead(x, rest);
      assert s[0] == '\"' && s[1..] == x + "\"" + rest;
      assert SkipSpace(s) == s;
    }
  }

  lemma {:induction false} DigitsCounted(d: string, rest: string)
    requires forall i | 0 <= i < |d| :: IsDigit(d[i])
    requires |rest| > 0 && !IsDigit(rest[0])
    ensures CountDigits(d + rest) == |d|
  {
    if |d| == 0 {
      assert d + rest == rest;
    } else {
      DigitsCounted(d[1..], rest);
      assert (d + rest)[1..] == d[1..] + rest;
    }
  }

  lemma DecimalDigits(n: nat)
    ensures var d := Numerals.Print(n, 10); forall i | 0 <= i < |d| :: IsDigit(d[i])
  {
    Numerals.PrintedDigits(n, 10);
    var d := Numerals.Print(n, 10);
    forall i | 0 <= i < |d| ensures IsDigit(d[i]) {
      assert d[i] in d && Numerals.IsDigit(d[i], 10);
    }
  }

  lemma UnsignedRead(d: string, rest: string)
    requires |d| > 0 && (forall i | 0 <= i < |d| :: IsDigit(d[i])) && (d[0] == '0' ==> |d| == 1)
    requires Ends(rest)
    ensures UnsignedLength(d + rest) == Some(|d|)
  {
    DigitsCounted(d, rest);
    var s := d + rest;
    assert s[0] == d[0] && s[|d|..] == rest && s[|d| + 0..] == rest;
  }

  lemma DigitsRead(d: string, rest: string)
    requires |d| > 0 && (forall i | 0 <= i < |d| :: IsDigit(d[i])) && (d[0] == '0' ==> |d| == 1)
    requires Ends(rest)
    ensures ReadNumber(d + rest) == Some((d, rest))
  {
    UnsignedRead(d, rest);
    hide UnsignedLength;
    var s := d + rest;
    assert s[0] == d[0] && s[0..] == s && s[|d|..] == rest && s[..|d|] == d;
  }

  lemma DigitBeginsNumber(s: string, text: string, rest: string)
    requires |s| > 0 && IsDigit(s[0]) && ReadNumber(s) == Some((text, rest))
    ensures ReadValue(s) == Some((Number(text), rest))
  {
    hide ReadNumber;
    assert SkipSpace(s) == s;
    assert s[0] != "null"[0] && s[0] != "true"[0] && s[0] != "false"[0];
  }

  lemma NumberReads(n: nat)
    ensures Reads(Numerals.Print(n, 10), Number(Numerals.Print(n, 10)))
  {
    var d := Numerals.Print(n, 10);
    DecimalDigits(n);
    Numerals.NoLeadingZero(n, 10);
    hide Numerals.Print, ReadNumber, ReadValue, IsDigit;
    forall rest | Ends(rest) ensures ReadValue(d + rest) == Some((Number(d), rest)) {
      DigitsRead(d, rest);
      assert (d + rest)[0] == d[0];
      DigitBeginsNumber(d + rest, d, rest);
    }
  }

  lemma TabSkipped(x: string)
    ensures ReadValue("\t" + x) == ReadValue(x)
  {
    assert ("\t" + x)[1..] == x;
  }

  lemma FieldReads(f: Field, value: Json, rest: string)
    requires Plain(f.name) && Reads(f.value, value) && Ends(rest)
    ensures ReadMember(FieldText(f) + rest) == Some(((f.name, value), rest))
  {
    hide ReadValue, ReadChars, Plain;
    var s := FieldText(f) + rest;
    var afterName := ":\t" + (f.value + rest);
    var u := "\"" + (f.name + "\"" + afterName);
    assert s == "\n" + u && s[1..] == u;
    assert SkipSpace(s) == u && u[1..] == f.name + "\"" + afterName;
    PlainRead(f.name, afterName);
    assert SkipSpace(afterName) == afterName && afterName[1..] == "\t" + (f.value + rest);
    TabSkipped(f.value + rest);
  }

  lemma MembersStep(text: string, member: (string, Json), others: seq<(string, Json)>, last: string)
    requires ReadMember(text + ("," + last)) == Some((member, "," + last))
    requires ReadMembers(last) == Some((others, ""))
    ensures ReadMembers(text + ("," + last)) == Some(([member] + others, ""))
  {
    var rest := "," + last;
    assert SkipSpace(rest) == rest && rest[1..] == last;
  }

  lemma MembersEnd(text: string, member: (string, Json))
    requires ReadMember(text + "\n}") == Some((member, "\n}"))
    ensures ReadMembers(text + "\n}") == Some(([member], ""))
  {
    assert "\n}"[1..] == "}" && SkipSpace("\n}") == SkipSpace("}") == "}";
  }

  function Zip(fields: seq<Field>, values: seq<Json>): (m: seq<(string, Json)>)
    requires |fields| == |values|
    ensures |m| == |fields|
    ensures forall i | 0 <= i < |m| :: m[i] == (fields[i].name, values[i])
  {
    if |fields| == 0 then [] else [(fields[0].name, values[0])] + Zip(fields[1..], values[1..])
  }

  lemma {:induction false} FieldsRead(fields: seq<Field>, values: seq<Json>)
    requires 0 < |fields| == |values|
    requires forall i | 0 <= i < |fields| :: Plain(fields[i].name) && Reads(fields[i].value, values[i])
    ensures ReadMembers(FieldsText(fields) + "\n}") == Some((Zip(fields, values), ""))
  {
    hide ReadMembers, ReadMember, Reads, Plain;
    var member := (fields[0].name, values[0]);
    if |fields| == 1 {
      FieldReads(fields[0], values[0], "\n}");
      MembersEnd(FieldText(fields[0]), member);
      assert Zip(fields, values) == [member];
    } else {
      var last := FieldsText(fields[1..]) + "\n}";
      FieldsRead(fields[1..], values[1..]);
      FieldReads(fields[0], values[0], "," + last);
      MembersStep(FieldText(fields[0]), member, Zip(fields[1..], values[1..]), last);
      assert FieldsText(fields) + "\n}" == FieldText(fields[0]) + ("," + last);
    }
  }

  // ---- the values of an account ----

  /** What a description tells about an account. */
  datatype View = NoAccount | AccountView(status: Status, balance: nat, lastPaid: nat,
                                          lastTransLt: nat, boc: Bytes)

  function ViewOf(state: ShardAccountState): View {
    match state
    case Missing => NoAccount
    case Stored(a) => AccountView(a.status, a.balance.GetOr(0), a.lastPaid, a.lastTransLt, a.boc)
  }

  function StatusOf(text: string): Option<Status> {
    if text == "Uninit" then Some(Uninit)
    else if text == "Frozen" then Some(Frozen)
    else if text == "Active" then Some(Active)
    else if text == "Nonexist" then Some(Nonexist)
    else None
  }

  function NumberOf(value: Json): Option<nat> {
    if value.Number? then Numerals.Parse(value.text, 10) else None
  }

  function TextOf(value: Json): Option<string> {
    if value.Text? then Some(value.raw) else None
  }

  function LtOf(text: string): Option<nat> {
    if "0x" <= text then Numerals.Parse(text[2..], 16) else None
  }

  function ViewFrom(values: seq<Json>): Option<View>
    requires |values| == 5
  {
    var kind :- TextOf(values[0]);
    var status :- StatusOf(kind);
    var balance :- NumberOf(values[1]);
    var lastPaid :- NumberOf(values[2]);
    var ltText :- TextOf(values[3]);
    var lt :- LtOf(ltText);
    var bocText :- TextOf(values[4]);
    var boc :- Hex.Decode(bocText);
    Some(AccountView(status, balance, lastPaid, lt, boc))
  }

  const NAMES: seq<string> := ["acc_type", "balance", "last_paid", "last_trans_lt", "data(boc)"]

  /** Reads a description: a JSON object with the expected names. */
  function Read(text: string): Option<View> {
    var json :- Parse(text);
    if !json.Object? then None
    else
      var m := json.members;
      if m == [("acc_type", Text("Nonexist"))] then Some(NoAccount)
      else if |m| == 5 && forall i | 0 <= i < 5 :: m[i].0 == NAMES[i] then
        ViewFrom([m[0].1, m[1].1, m[2].1, m[3].1, m[4].1])
      else None
  }

  function Values(state: ShardAccountState): (v: seq<Json>)
    ensures |v| == |Fields(state)|
  {
    match state
    case Missing => [Text("Nonexist")]
    case Stored(a) => [
      Text(StatusText(a.status)),
      Number(Numerals.Print(a.balance.GetOr(0), 10)),
      Number(Numerals.Print(a.lastPaid, 10)),
      Text(LtText(a.lastTransLt)),
      Text(Hex.Lower(a.boc))
    ]
  }

  lemma LtPlain(lt: U64)
    ensures Plain(LtText(lt))
  {
    Numerals.PrintedDigits(lt, 16);
    var d := Numerals.Print(lt, 16);
    forall i | 0 <= i < |d| ensures ' ' <= d[i] && d[i] != '\"' && d[i] != '\\' {
      assert d[i] in d && Numerals.IsDigit(d[i], 16);
    }
  }

  lemma HexPlain(b: Bytes)
    ensures Plain(Hex.Lower(b))
  {
    forall i | 0 <= i < |Hex.Lower(b)| ensures Hex.DigitValue(Hex.Lower(b)[i]).Some? {
      Hex.LowerDigits(b, i);
    }
  }

  lemma TextsRead(a: Account)
    ensures Reads(Quoted(StatusText(a.status)), Text(StatusText(a.status)))
    ensures Reads(Quoted(LtText(a.lastTransLt)), Text(LtText(a.lastTransLt)))
    ensures Reads(Quoted(Hex.Lower(a.boc)), Text(Hex.Lower(a.boc)))
  {
    hide Reads, LtText, Hex.Lower;
    assert Plain(StatusText(a.status));
    QuotedReads(StatusText(a.status));
    hide Plain, Quoted;
    LtPlain(a.lastTransLt);
    QuotedReads(LtText(a.lastTransLt));
    HexPlain(a.boc);
    QuotedReads(Hex.Lower(a.boc));
  }

  lemma NamesPlain(state: ShardAccountState)
    ensures var f := Fields(state); forall i | 0 <= i < |f| :: Plain(f[i].name)
  {
    hide Numerals.Print, Quoted, LtText, StatusText, Hex.Lower;
  }

  lemma FieldsHaveValues(state: ShardAccountState)
    ensures var f, v := Fields(state), Values(state);
            forall i | 0 <= i < |f| :: Plain(f[i].name) && Reads(f[i].value, v[i])
  {
    hide Reads, Plain, Numerals.Print, Quoted, LtText, StatusText, Hex.Lower;
    NamesPlain(state);
    match state
    case Missing =>
      NonexistReads();
    case Stored(a) =>
      TextsRead(a);
      NumberReads(a.balance.GetOr(0));
      NumberReads(a.lastPaid);
  }

  lemma NonexistReads()
    ensures Reads(Quoted("Nonexist"), Text("Nonexist"))
  {
    QuotedReads("Nonexist");
  }

  function MembersOf(state: ShardAccountState): seq<(string, Json)> {
    Zip(Fields(state), Values(state))
  }

  lemma DescriptionParses(state: ShardAccountState)
    ensures Parse(Describe(state)) == Some(Object(MembersOf(state)))
  {
    hide *;
    FieldsHaveValues(state);
    FieldsRead(Fields(state), Values(state));
    FieldsBegin(Fields(state));
    BracedParse(state, FieldsText(Fields(state)) + "\n}");
  }

  lemma BracedParse(state: ShardAccountState, inner: string)
    requires inner == FieldsText(Fields(state)) + "\n}"
    requires ReadMembers(inner) == Some((Zip(Fields(state), Values(state)), ""))
    requires |SkipSpace(inner)| > 0 && SkipSpace(inner)[0] == '\"'
    ensures Parse(Describe(state)) == Some(Object(MembersOf(state)))
  {
    hide FieldsText, Fields, Values, ReadMembers, Zip, ReadScalar, ReadChars, ReadItems;
    var s := Describe(state);
    assert s == "{" + inner && s[1..] == inner && SkipSpace(s) == s;
    assert SkipSpace("") == "";
  }

  /** Every description is a well-formed JSON text: an object with exactly these members. */
  lemma DescriptionIsJson(state: ShardAccountState)
    ensures Parse(Describe(state)) == Some(Object(
              match state
              case Missing => [("acc_type", Text("Nonexist"))]
              case Stored(a) => [
                ("acc_type", Text(match a.status
                                  case Uninit => "Uninit" case Frozen => "Frozen"
                                  case Active => "Active" case Nonexist => "Nonexist")),
                ("balance", Number(Numerals.Print(if a.balance.Some? then a.balance.value else 0, 10))),
                ("last_paid", Number(Numerals.Print(a.lastPaid, 10))),
                ("last_trans_lt", Text("0x" + Numerals.Print(a.lastTransLt, 16))),
                ("data(boc)", Text(Hex.Lower(a.boc)))
              ]))
  {
    DescriptionParses(state);
    hide Parse, Describe, Numerals.Print, Hex.Lower, Zip, Quoted;
    var m := MembersOf(state);
    match state
    case Missing =>
      assert m == [("acc_type", Text("Nonexist"))];
    case Stored(a) =>
      assert m == [("acc_type", Text(StatusText(a.status))),
                   ("balance", Number(Numerals.Print(a.balance.GetOr(0), 10))),
                   ("last_paid", Number(Numerals.Print(a.lastPaid, 10))),
                   ("last_trans_lt", Text(LtText(a.lastTransLt))), ("data(boc)", Text(Hex.Lower(a.boc)))];
  }

  /** The first thing after the opening brace is a quote. */
  lemma FieldsBegin(fields: seq<Field>)
    requires |fields| > 0
    ensures var u := SkipSpace(FieldsText(fields) + "\n}"); |u| > 0 && u[0] == '\"'
  {
    var s := FieldsText(fields) + "\n}";
    assert s[0] == '\n' && s[1] == '\"';
    assert SkipSpace(s) == SkipSpace(s[1..]) == s[1..];
  }

  lemma ValuesReadBack(a: Account)
    ensures ViewFrom(Values(Stored(a))) == Some(ViewOf(Stored(a)))
  {
    hide Numerals.Parse, Numerals.Print, Hex.Decode, Hex.Lower;
    Numerals.RoundTrip(a.balance.GetOr(0), 10);
    Numerals.RoundTrip(a.lastPaid, 10);
    Numerals.RoundTrip(a.lastTransLt, 16);
    Hex.RoundTrip(a.boc);
    assert LtText(a.lastTransLt)[2..] == Numerals.Print(a.lastTransLt, 16);
  }

  /** The reader recovers everything the description tells, whatever the account. */
  lemma ReadsBack(state: ShardAccountState)
    ensures Read(Describe(state)) == Some(ViewOf(state))
  {
    DescriptionParses(state);
    hide Parse, Describe;
    match state
    case Missing =>
      assert MembersOf(state) == [("acc_type", Text("Nonexist"))];
    case Stored(a) =>
      ValuesReadBack(a);
      var m := MembersOf(state);
      assert [m[0].1, m[1].1, m[2].1, m[3].1, m[4].1] == Values(state);
  }

  /** The balance as it is described. */
  function Described(state: ShardAccountState): ShardAccountState {
    match state
    case Missing => Missing
    case Stored(a) => if a.balance.None? then Stored(a.(balance := Some(0))) else state
  }

  /** Two descriptions are the same text exactly if the accounts are the same once an absent balance is
      taken for zero. In particular a missing account is told apart from a stored one that does not
      exist. */
  lemma DescribesInjectively(a: ShardAccountState, b: ShardAccountState)
    ensures Describe(a) == Describe(b) <==> Described(a) == Described(b)
  {
    ReadsBack(a);
    ReadsBack(b);
    SameView(a);
    SameView(b);
    hide Describe, Read;
  }

  lemma SameView(a: ShardAccountState)
    ensures ViewOf(Described(a)) == ViewOf(a) && Describe(Described(a)) == Describe(a)
  {
    assert Fields(Described(a)) == Fields(a);
  }

  /** The one difference that is lost. */
  lemma AbsentBalanceLooksLikeZero(a: Account)
    ensures Describe(Stored(a.(balance := None))) == Describe(Stored(a.(balance := Some(0))))
  {
    DescribesInjectively(Stored(a.(balance := None)), Stored(a.(balance := Some(0))));
  }
}
