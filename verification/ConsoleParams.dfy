/** The console's parameter parsers: quotes are trimmed, then the text must be a key, a byte
    string or an integer. */
module ConsoleParams {
  import opened Wrappers
  import opened Octets
  import Base64
  import Hex
  import Numerals

  datatype Error =
    | InsufficientParameters
    | WrongHashLength(length: nat)
    | NotBase64
    | NotHex
    | Not32Bytes
    | NotAnInteger
    | NotMasterchainWallet
    | ElectTimeNotPositive
    | ExpireNotAfterElect
    | NoMaxFactor
    | MaxFactorOutOfRange
    | CategoryOutOfRange
    | NoAnswer
    | ServerError
    | WrongReply
    | NoPublicKey
    | BadSignature
    | CannotSerialize
    | CannotWrite

  const QUOTE := '\"'

  function TrimStart(s: string): string {
    if |s| > 0 && s[0] == QUOTE then TrimStart(s[1..]) else s
  }

  function TrimEnd(s: string): string {
    if |s| > 0 && s[|s| - 1] == QUOTE then TrimEnd(s[..|s| - 1]) else s
  }

  /** `trim_matches('"')` */
  function TrimQuotes(s: string): string {
    TrimEnd(TrimStart(s))
  }

  /** The length of a Rust `str` is the length of its UTF-8 form. */
  function Utf8Length(s: string): nat {
    if |s| == 0 then 0
    else
      (if s[0] < 0x80 as char then 1 else if s[0] < 0x800 as char then 2
       else if s[0] as int < 0x1_0000 then 3 else 4) + Utf8Length(s[1..])
  }

  /** The i-th parameter, as the iterator's `next` hands it out. */
  function Param(params: seq<string>, i: nat): Option<string> {
    if i < |params| then Some(params[i]) else None
  }

  function ParseAny<A>(param: Option<string>, parse: string -> Result<A, Error>): Result<A, Error> {
    if param.None? then Failure(InsufficientParameters) else parse(TrimQuotes(param.value))
  }

  function DecodeHex(s: string): Result<Bytes, Error> {
    var b := Hex.Decode(s);
    if b.Some? then Success(b.value) else Failure(NotHex)
  }

  function DecodeBase64(s: string): Result<Bytes, Error> {
    var b := Base64.Decode(s);
    if b.Some? then Success(b.value) else Failure(NotBase64)
  }

  function KeyFromText(s: string): Result<Key, Error> {
    var n := Utf8Length(s);
    var b :- if n == 44 then DecodeBase64(s)
             else if n == 64 then DecodeHex(s)
             else Failure(WrongHashLength(n));
    if |b| == 32 then Success(b) else Failure(Not32Bytes)
  }

  function IntFromText(s: string): Result<I32, Error> {
    var v := Numerals.ParseInt(s, MIN_I32, MAX_I32);
    if v.Some? then Success(v.value) else Failure(NotAnInteger)
  }

  function ParseData(param: Option<string>): Result<Bytes, Error> {
    ParseAny(param, DecodeHex)
  }

  function ParseInt256(param: Option<string>): Result<Key, Error> {
    ParseAny(param, KeyFromText)
  }

  function ParseInt(param: Option<string>): Result<I32, Error> {
    ParseAny(param, IntFromText)
  }

  // ---- what the parsers accept ----

  predicate AllQuotes(s: string) {
    forall i | 0 <= i < |s| :: s[i] == QUOTE
  }

  predicate Unquoted(s: string) {
    |s| > 0 ==> s[0] != QUOTE && s[|s| - 1] != QUOTE
  }

  lemma {:induction false} TrimStartDrops(q: string, s: string)
    requires AllQuotes(q) && (|s| > 0 ==> s[0] != QUOTE)
    ensures TrimStart(q + s) == s
  {
    if |q| == 0 {
      assert q + s == s;
    } else {
      assert (q + s)[1..] == q[1..] + s;
      TrimStartDrops(q[1..], s);
    }
  }

  lemma {:induction false} TrimEndDrops(s: string, q: string)
    requires AllQuotes(q) && (|s| > 0 ==> s[|s| - 1] != QUOTE)
    ensures TrimEnd(s + q) == s
  {
    if |q| == 0 {
      assert s + q == s;
    } else {
      var t := s + q;
      assert t[..|t| - 1] == s + q[..|q| - 1];
      TrimEndDrops(s, q[..|q| - 1]);
    }
  }

  /** Any number of quotes on either side disappears and nothing else does. */
  lemma TrimDropsQuotes(q1: string, s: string, q2: string)
    requires AllQuotes(q1) && AllQuotes(q2) && Unquoted(s)
    ensures TrimQuotes(q1 + s + q2) == s
  {
    if |s| == 0 {
      assert q1 + s + q2 == (q1 + q2) + "";
      TrimStartDrops(q1 + q2, "");
    } else {
      assert q1 + s + q2 == q1 + (s + q2);
      TrimStartDrops(q1, s + q2);
      TrimEndDrops(s, q2);
    }
  }

  lemma TrimKeeps(s: string)
    requires Unquoted(s)
    ensures TrimQuotes(s) == s
  {
    TrimDropsQuotes("", s, "");
    assert "" + s + "" == s;
  }

  lemma {:induction false} AsciiLength(s: string)
    requires forall i | 0 <= i < |s| :: s[i] < 128 as char
    ensures Utf8Length(s) == |s|
  {
    if |s| == 0 {
    } else {
      AsciiLength(s[1..]);
    }
  }

  lemma HexTextLength(s: string)
    requires Hex.Decode(s).Some?
    ensures Utf8Length(s) == |s| == 2 * |Hex.Decode(s).value|
  {
    forall i | 0 <= i < |s| ensures s[i] < 128 as char {
      Hex.DecodedDigits(s, i);
    }
    AsciiLength(s);
    Hex.DecodeExact(s, Hex.Decode(s).value);
    assert |Hex.LowerCase(s)| == |s|;
  }

  lemma Base64TextLength(s: string)
    requires Base64.Decode(s).Some?
    ensures Utf8Length(s) == |s|
  {
    forall i | 0 <= i < |s| ensures s[i] < 128 as char {
      Base64.DecodedAscii(s, i);
    }
    AsciiLength(s);
  }

  /** The spellings of a key: its 64 hexadecimal digits in any mixture of cases, or its one padded
      base64 form; quotes around it do not matter. */
  predicate SpellsKey(text: string, k: Key) {
    var t := TrimQuotes(text);
    Hex.LowerCase(t) == Hex.Lower(k) || t == Base64.Encode(k)
  }

  lemma KeyFromTextExact(t: string, k: Key)
    ensures KeyFromText(t) == Success(k) <==>
            Hex.LowerCase(t) == Hex.Lower(k) || t == Base64.Encode(k)
  {
    Hex.DecodeExact(t, k);
    Base64.RoundTrip(k);
    Base64.EncodedLength(k, 11);
    if Hex.Decode(t).Some? {
      HexTextLength(t);
    }
    if Base64.Decode(t).Some? {
      Base64TextLength(t);
      if |t| == 44 {
        Base64.DecodeExact(t, k);
      }
    }
  }

  /** `parse_int256` accepts the spellings of a key and reads each of them as that key; every
      other text is refused. */
  lemma ParseInt256Exact(text: string, k: Key)
    ensures ParseInt256(Some(text)) == Success(k) <==> SpellsKey(text, k)
  {
    KeyFromTextExact(TrimQuotes(text), k);
  }

  /** The 44/64 dispatch cannot take one key for another, and a missing parameter is refused. */
  lemma SpellingIsUnambiguous(text: string, k1: Key, k2: Key)
    requires SpellsKey(text, k1) && SpellsKey(text, k2)
    ensures k1 == k2
  {
    ParseInt256Exact(text, k1);
    ParseInt256Exact(text, k2);
  }

  lemma HexFormsUnquoted(b: Bytes)
    ensures Unquoted(Hex.Lower(b)) && Unquoted(Hex.Upper(b))
  {
    hide Hex.Lower, Hex.Upper, Hex.Decode;
    if |b| > 0 {
      Hex.LowerDigits(b, 0);
      Hex.LowerDigits(b, 2 * |b| - 1);
      Hex.RoundTrip(b);
      Hex.DecodedDigits(Hex.Upper(b), 0);
      Hex.DecodedDigits(Hex.Upper(b), 2 * |b| - 1);
    }
  }

  lemma PrintedFormsUnquoted(b: Bytes)
    ensures Unquoted(Hex.Lower(b)) && Unquoted(Hex.Upper(b)) && Unquoted(Base64.Encode(b))
  {
    hide Base64.Encode;
    HexFormsUnquoted(b);
    var e := Base64.Encode(b);
    if |e| > 0 {
      Base64.EncodedAscii(b, 0);
      Base64.EncodedAscii(b, |e| - 1);
    }
  }

  /** Whatever the console prints for a key (`newkey`, `exportpub`, the bid's own upper-case
      form) is read back as that key, with or without quotes. */
  lemma PrintedKeysAreRead(k: Key, q1: string, q2: string)
    requires AllQuotes(q1) && AllQuotes(q2)
    ensures ParseInt256(Some(q1 + Hex.Lower(k) + q2)) == Success(k)
    ensures ParseInt256(Some(q1 + Hex.Upper(k) + q2)) == Success(k)
    ensures ParseInt256(Some(q1 + Base64.Encode(k) + q2)) == Success(k)
  {
    PrintedFormsUnquoted(k);
    TrimDropsQuotes(q1, Hex.Lower(k), q2);
    TrimDropsQuotes(q1, Hex.Upper(k), q2);
    TrimDropsQuotes(q1, Base64.Encode(k), q2);
    Hex.LowerCaseOfLower(k);
    Hex.LowerCaseOfUpper(k);
    ParseInt256Exact(q1 + Hex.Lower(k) + q2, k);
    ParseInt256Exact(q1 + Hex.Upper(k) + q2, k);
    ParseInt256Exact(q1 + Base64.Encode(k) + q2, k);
  }

  /** 31 and 33 bytes also fill 44 base64 characters; the length check after decoding refuses them. */
  lemma NearMissesRefused(b: Bytes)
    requires |b| == 31 || |b| == 33
    ensures |Base64.Encode(b)| == 44
    ensures ParseInt256(Some(Base64.Encode(b))) == Failure(Not32Bytes)
  {
    Base64.EncodedLength(b, 11);
    Base64.RoundTrip(b);
    Base64TextLength(Base64.Encode(b));
    PrintedFormsUnquoted(b);
    TrimKeeps(Base64.Encode(b));
  }

  lemma PrintedBytesAreRead(b: Bytes)
    ensures ParseData(Some(Hex.Upper(b))) == Success(b)
    ensures ParseData(Some(Hex.Lower(b))) == Success(b)
  {
    PrintedFormsUnquoted(b);
    TrimKeeps(Hex.Upper(b));
    TrimKeeps(Hex.Lower(b));
    Hex.RoundTrip(b);
  }

  lemma PrintedIntsAreRead(v: I32)
    ensures ParseInt(Some(Numerals.PrintInt(v))) == Success(v)
  {
    Numerals.IntRoundTrip(v, MIN_I32, MAX_I32);
    Numerals.PrintedIntEnds(v);
    TrimKeeps(Numerals.PrintInt(v));
  }

  /** The spellings of an integer: between quotes, an optional sign, any number of zeros and the decimal
      numeral. */
  ghost predicate SpellsInt(text: string, v: int) {
    Numerals.Spells(TrimQuotes(text), v)
  }

  /** `parse_int` accepts the spellings of the integers an i32 can hold and reads each of them as that
      integer; */
  lemma ParseIntExact(text: string, v: I32)
    ensures ParseInt(Some(text)) == Success(v) <==> SpellsInt(text, v)
  {
    Numerals.ParseIntExact(TrimQuotes(text), MIN_I32, MAX_I32, v);
  }

  /** every other text, one that spells an integer out of range included, is refused. */
  lemma ParseIntRefuses(text: string)
    ensures ParseInt(Some(text)) == Failure(NotAnInteger) <==> !exists v: I32 :: SpellsInt(text, v)
  {
    forall v: I32 ensures ParseInt(Some(text)) == Success(v) <==> SpellsInt(text, v) {
      ParseIntExact(text, v);
    }
    hide Numerals.ParseInt, SpellsInt;
  }

  // ---- data is hexadecimal only ----

  /** Data is read if and only if it is hexadecimal, and then as the bytes its digits stand for. */
  lemma ParseDataExact(text: string, b: Bytes)
    ensures ParseData(Some(text)) == Success(b) <==> Hex.LowerCase(TrimQuotes(text)) == Hex.Lower(b)
  {
    Hex.DecodeExact(TrimQuotes(text), b);
  }

  lemma EncodedTrim(b: Bytes)
    ensures ParseData(Some(Base64.Encode(b))) == DecodeHex(Base64.Encode(b))
  {
    PrintedFormsUnquoted(b);
    TrimKeeps(Base64.Encode(b));
  }

  /** The base64 text of `b` is read at all exactly if it happens to consist of hexadecimal digits. */
  lemma Base64DataExact(b: Bytes)
    ensures ParseData(Some(Base64.Encode(b))).Success? <==> Hex.AllHex(Base64.Encode(b))
  {
    EncodedTrim(b);
    Hex.DecodableExact(Base64.Encode(b));
    Base64.EncodedLength(b, (|b| + 2) / 3);
  }

  lemma PaddingIsNotHex(b: Bytes)
    requires |b| == 2 || |b| == 4
    ensures !Hex.AllHex(Base64.Encode(b))
  {
    var e := Base64.Encode(b);
    Base64.EncodedLength(b, if |b| == 2 then 1 else 2);
    assert e[|e| - 1] == Base64.PAD;
  }

  /** And it is never read as `b` itself, unless there is nothing to read: the documented base64 form of
      the data to sign is refused or, worse, taken for other bytes. */
  lemma Base64DataMisread(b: Bytes)
    ensures ParseData(Some(Base64.Encode(b))) == Success(b) <==> b == []
  {
    EncodedTrim(b);
    var e := Base64.Encode(b);
    if Hex.Decode(e) == Some(b) {
      HexTextLength(e);
      Base64.EncodedLength(b, (|b| + 2) / 3);
      assert |b| == 0 || |b| == 2 || |b| == 4;
      Hex.DecodableExact(e);
      if |b| > 0 {
        PaddingIsNotHex(b);
      }
    }
  }

  lemma AbcdIsBase64()
    ensures Base64.Encode([0, 16, 131]) == "ABCD"
  {
    var s := "ABCD";
    assert Base64.SymbolValue(s[0]) == Some(0) && Base64.SymbolValue(s[1]) == Some(1);
    assert Base64.SymbolValue(s[2]) == Some(2) && Base64.SymbolValue(s[3]) == Some(3);
    assert Base64.Join(Base64.Quad(0, 1, 2, 3)) == Base64.Triple(0, 16, 131);
    assert Base64.Decode(s) == Some([0, 16, 131]);
    Base64.DecodeExact(s, [0, 16, 131]);
  }

  /** For example, the base64 text of three bytes is taken for two others. */
  lemma Base64DataExample()
    ensures Base64.Encode([0, 16, 131]) == "ABCD"
    ensures ParseData(Some("ABCD")) == Success([0xab, 0xcd])
  {
    AbcdIsBase64();
    var b: Bytes := [0xab, 0xcd];
    assert Hex.Lower(b[1..]) == "cd" && Hex.Lower(b) == "abcd";
    assert Hex.LowerCase("ABCD") == "abcd";
    TrimKeeps("ABCD");
    ParseDataExact("ABCD", b);
  }
}
