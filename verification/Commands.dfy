/** The control commands of an election bid: text parameters in, typed requests out, and typed
    replies back. */
module Commands {
  import opened Wrappers
  import opened Octets
  import opened ConsoleParams
  import Base64
  import Hex
  import Numerals

  datatype Command = NewKey | ExportPub | AddPermKey | AddTempKey | AddAdnl | AddValidatorAddr | SignData

  datatype Request =
    | GenerateKeyPair
    | ExportPublicKey(keyHash: Key)
    | AddValidatorPermanentKey(keyHash: Key, electionDate: I32, ttl: I32)
    | AddValidatorTempKey(permanentKeyHash: Key, keyHash: Key, ttl: I32)
    | AddValidatorAdnlAddress(permanentKeyHash: Key, keyHash: Key, ttl: I32)
    | AddAdnlId(keyHash: Key, category: I32)
    | Sign(keyHash: Key, data: Bytes)

  /** Everything the wire can bring back: no answer at all, the server's error object, or an object
      of one of the types the client asks for, whether or not it fits the question. */
  datatype Reply =
    | Nothing
    | ControlQueryError
    | Done
    | KeyHash(hash: Key)
    | PublicKey(key: Option<Key>)
    | Signature(signature: Bytes)
    | Unrelated

  /** `send`: the second integer of a command is an absolute time, turned into a time to live by an
      i32 subtraction. `now` is the clock reading. */
  function Send(cmd: Command, params: seq<string>, now: I32): Result<Request, Error> {
    match cmd
    case NewKey => Success(GenerateKeyPair)
    case ExportPub =>
      var keyHash :- ParseInt256(Param(params, 0));
      Success(ExportPublicKey(keyHash))
    case SignData =>
      var keyHash :- ParseInt256(Param(params, 0));
      var data :- ParseData(Param(params, 1));
      Success(Sign(keyHash, data))
    case AddPermKey =>
      var keyHash :- ParseInt256(Param(params, 0));
      var electionDate :- ParseInt(Param(params, 1));
      var expireAt :- ParseInt(Param(params, 2));
      Success(AddValidatorPermanentKey(keyHash, electionDate, WrapI32(expireAt - electionDate)))
    case AddTempKey =>
      var permanentKeyHash :- ParseInt256(Param(params, 0));
      var keyHash :- ParseInt256(Param(params, 1));
      var expireAt :- ParseInt(Param(params, 2));
      Success(AddValidatorTempKey(permanentKeyHash, keyHash, WrapI32(expireAt - now)))
    case AddValidatorAddr =>
      var permanentKeyHash :- ParseInt256(Param(params, 0));
      var keyHash :- ParseInt256(Param(params, 1));
      var expireAt :- ParseInt(Param(params, 2));
      Success(AddValidatorAdnlAddress(permanentKeyHash, keyHash, WrapI32(expireAt - now)))
    case AddAdnl =>
      var keyHash :- ParseInt256(Param(params, 0));
      var category :- ParseInt(Param(params, 1));
      if category < 0 || category > 15 then Failure(CategoryOutOfRange)
      else Success(AddAdnlId(keyHash, category))
  }

  /** `receive`, behind the check for a server error: the bytes the command returns. */
  function Receive(cmd: Command, reply: Reply): Result<Bytes, Error> {
    if reply.Nothing? then Failure(NoAnswer)
    else if reply.ControlQueryError? then Failure(ServerError)
    else
      match cmd
      case NewKey => if reply.KeyHash? then Success(reply.hash) else Failure(WrongReply)
      case ExportPub =>
        if !reply.PublicKey? then Failure(WrongReply)
        else if reply.key.None? then Failure(NoPublicKey)
        else Success(reply.key.value)
      case SignData => if reply.Signature? then Success(reply.signature) else Failure(WrongReply)
      case _ => if reply.Done? then Success([]) else Failure(WrongReply)
  }

  /** The answer a reply is, and to which commands. */
  predicate Answers(reply: Reply, cmd: Command, data: Bytes) {
    match reply
    case Done => cmd in {AddPermKey, AddTempKey, AddAdnl, AddValidatorAddr} && data == []
    case KeyHash(hash) => cmd == NewKey && data == hash
    case PublicKey(key) => cmd == ExportPub && key.Some? && data == key.value
    case Signature(signature) => cmd == SignData && data == signature
    case _ => false
  }

  /** A reply brings a command to success with given bytes exactly if it is that answer to it: silence,
      errors, objects of another type and a public key without its bytes are all failures. */
  lemma ReceiveExact(cmd: Command, reply: Reply, data: Bytes)
    ensures Receive(cmd, reply) == Success(data) <==> Answers(reply, cmd, data)
  {
  }

  /** And which failure it is: silence, an error object and a missing key are told apart from a wrong type. */
  lemma ReceiveFails(cmd: Command, reply: Reply)
    ensures Receive(cmd, reply) == Failure(NoAnswer) <==> reply == Nothing
    ensures Receive(cmd, reply) == Failure(ServerError) <==> reply == ControlQueryError
    ensures Receive(cmd, reply) == Failure(NoPublicKey) <==> cmd == ExportPub && reply == PublicKey(None)
    ensures Receive(cmd, reply) == Failure(WrongReply) <==>
            && reply != Nothing && reply != ControlQueryError && !(cmd == ExportPub && reply == PublicKey(None))
            && forall data: Bytes :: !Answers(reply, cmd, data)
  {
    var r := Receive(cmd, reply);
    if r.Success? {
      ReceiveExact(cmd, reply, r.value);
    }
    forall data: Bytes ensures Answers(reply, cmd, data) <==> r == Success(data) {
      ReceiveExact(cmd, reply, data);
    }
  }

  function Arity(cmd: Command): nat {
    match cmd
    case NewKey => 0
    case ExportPub => 1
    case SignData => 2
    case AddAdnl => 2
    case AddPermKey => 3
    case AddTempKey => 3
    case AddValidatorAddr => 3
  }

  /** A command with too few parameters is not sent. */
  lemma TooFewParameters(cmd: Command, params: seq<string>, now: I32)
    requires |params| < Arity(cmd)
    ensures Send(cmd, params, now).Failure?
  {
    assert ParseInt256(None).Failure? && ParseInt(None).Failure? && ParseData(None).Failure?;
    hide ParseInt256, ParseInt, ParseData;
  }

  // ---- marshalling through text loses nothing ----

  /** The command and the text parameters with which the bid asks for a typed request; an absolute
      time stands where the request has a time to live. */
  function CommandOf(q: Request): Command {
    match q
    case GenerateKeyPair => NewKey
    case ExportPublicKey(_) => ExportPub
    case AddValidatorPermanentKey(_, _, _) => AddPermKey
    case AddValidatorTempKey(_, _, _) => AddTempKey
    case AddValidatorAdnlAddress(_, _, _) => AddValidatorAddr
    case AddAdnlId(_, _) => AddAdnl
    case Sign(_, _) => SignData
  }

  function Texts(q: Request, expireAt: I32): seq<string> {
    match q
    case GenerateKeyPair => []
    case ExportPublicKey(k) => [Hex.Upper(k)]
    case AddValidatorPermanentKey(k, date, _) =>
      [Hex.Upper(k), Numerals.PrintInt(date), Numerals.PrintInt(expireAt)]
    case AddValidatorTempKey(p, k, _) => [Hex.Upper(p), Hex.Upper(k), Numerals.PrintInt(expireAt)]
    case AddValidatorAdnlAddress(p, k, _) => [Hex.Upper(p), Hex.Upper(k), Numerals.PrintInt(expireAt)]
    case AddAdnlId(k, category) => [Hex.Upper(k), Numerals.PrintInt(category)]
    case Sign(k, data) => [Hex.Upper(k), Hex.Upper(data)]
  }

  /** The time to live that a request must carry for its key to expire at `expireAt`. */
  predicate ExpiresAt(q: Request, expireAt: I32, now: I32) {
    match q
    case AddValidatorPermanentKey(_, date, ttl) => ttl == WrapI32(expireAt - date)
    case AddValidatorTempKey(_, _, ttl) => ttl == WrapI32(expireAt - now)
    case AddValidatorAdnlAddress(_, _, ttl) => ttl == WrapI32(expireAt - now)
    case _ => true
  }

  lemma UpperKeyIsRead(k: Key)
    ensures ParseInt256(Some(Hex.Upper(k))) == Success(k)
  {
    PrintedKeysAreRead(k, "", "");
    assert "" + Hex.Upper(k) + "" == Hex.Upper(k);
  }

  lemma KeysMarshalled(q: Request, now: I32)
    requires q.ExportPublicKey? || q.Sign?
    ensures Send(CommandOf(q), Texts(q, 0), now) == Success(q)
  {
    hide ParseInt256, ParseInt, ParseData;
    UpperKeyIsRead(q.keyHash);
    if q.Sign? {
      PrintedBytesAreRead(q.data);
    }
  }

  lemma AdnlMarshalled(k: Key, category: I32, now: I32)
    requires 0 <= category <= 15
    ensures Send(AddAdnl, [Hex.Upper(k), Numerals.PrintInt(category)], now)
         == Success(AddAdnlId(k, category))
  {
    hide ParseInt256, ParseInt, ParseData;
    UpperKeyIsRead(k);
    PrintedIntsAreRead(category);
  }

  /** Categories outside 0..15 are refused before anything is sent. */
  lemma CategoryExact(k: Key, category: I32, now: I32)
    ensures Send(AddAdnl, [Hex.Upper(k), Numerals.PrintInt(category)], now) ==
            if 0 <= category <= 15 then Success(AddAdnlId(k, category)) else Failure(CategoryOutOfRange)
  {
    hide ParseInt256, ParseInt;
    UpperKeyIsRead(k);
    PrintedIntsAreRead(category);
  }

  lemma PermMarshalled(k: Key, date: I32, expireAt: I32, now: I32)
    ensures Send(AddPermKey, [Hex.Upper(k), Numerals.PrintInt(date), Numerals.PrintInt(expireAt)], now)
         == Success(AddValidatorPermanentKey(k, date, WrapI32(expireAt - date)))
  {
    hide ParseInt256, ParseInt, ParseData;
    UpperKeyIsRead(k);
    PrintedIntsAreRead(date);
    PrintedIntsAreRead(expireAt);
  }

  lemma TempMarshalled(p: Key, k: Key, expireAt: I32, now: I32)
    ensures Send(AddTempKey, [Hex.Upper(p), Hex.Upper(k), Numerals.PrintInt(expireAt)], now)
         == Success(AddValidatorTempKey(p, k, WrapI32(expireAt - now)))
  {
    hide ParseInt256, ParseInt, ParseData;
    UpperKeyIsRead(p);
    UpperKeyIsRead(k);
    PrintedIntsAreRead(expireAt);
  }

  lemma AddrMarshalled(p: Key, k: Key, expireAt: I32, now: I32)
    ensures Send(AddValidatorAddr, [Hex.Upper(p), Hex.Upper(k), Numerals.PrintInt(expireAt)], now)
         == Success(AddValidatorAdnlAddress(p, k, WrapI32(expireAt - now)))
  {
    hide ParseInt256, ParseInt, ParseData;
    UpperKeyIsRead(p);
    UpperKeyIsRead(k);
    PrintedIntsAreRead(expireAt);
  }

  /** Every request survives the trip through text: `send` rebuilds exactly the typed request the
      parameters were printed from. */
  lemma Marshalled(q: Request, expireAt: I32, now: I32)
    requires ExpiresAt(q, expireAt, now)
    requires q.AddAdnlId? ==> 0 <= q.category <= 15
    ensures Send(CommandOf(q), Texts(q, expireAt), now) == Success(q)
  {
    hide ParseInt256, ParseInt, ParseData;
    match q
    case GenerateKeyPair =>
    case ExportPublicKey(_) => KeysMarshalled(q, now);
    case AddValidatorPermanentKey(k, date, _) => PermMarshalled(k, date, expireAt, now);
    case AddValidatorTempKey(p, k, _) => TempMarshalled(p, k, expireAt, now);
    case AddValidatorAdnlAddress(p, k, _) => AddrMarshalled(p, k, expireAt, now);
    case AddAdnlId(k, category) => AdnlMarshalled(k, category, now);
    case Sign(_, _) => KeysMarshalled(q, now);
  }

  // ---- what the parameters denote ----

  /** The meaning of a command's parameters, whoever wrote them: keys and integers in any of their
      spellings, data in hexadecimal, and an absolute time where the request has a time to live. */
  ghost predicate Denotes(params: seq<string>, now: I32, q: Request) {
    match q
    case GenerateKeyPair => true
    case ExportPublicKey(k) => |params| > 0 && SpellsKey(params[0], k)
    case Sign(k, data) => |params| > 1 && SpellsKey(params[0], k) && SpellsData(params[1], data)
    case AddValidatorPermanentKey(k, date, ttl) =>
      |params| > 2 && SpellsKey(params[0], k) && SpellsInt(params[1], date) && SpellsTtl(params[2], date, ttl)
    case AddValidatorTempKey(p, k, ttl) =>
      |params| > 2 && SpellsKey(params[0], p) && SpellsKey(params[1], k) && SpellsTtl(params[2], now, ttl)
    case AddValidatorAdnlAddress(p, k, ttl) =>
      |params| > 2 && SpellsKey(params[0], p) && SpellsKey(params[1], k) && SpellsTtl(params[2], now, ttl)
    case AddAdnlId(k, category) =>
      |params| > 1 && SpellsKey(params[0], k) && SpellsInt(params[1], category) && 0 <= category <= 15
  }

  predicate SpellsData(text: string, data: Bytes) {
    Hex.LowerCase(TrimQuotes(text)) == Hex.Lower(data)
  }

  /** The text spells a time that lies `ttl` after `start`, in the arithmetic of an i32. */
  ghost predicate SpellsTtl(text: string, start: I32, ttl: I32) {
    exists expireAt: I32 :: SpellsInt(text, expireAt) && ttl == WrapI32(expireAt - start)
  }

  lemma TtlRead(text: string, start: I32, ttl: I32)
    ensures SpellsTtl(text, start, ttl) <==>
            ParseInt(Some(text)).Success? && ttl == WrapI32(ParseInt(Some(text)).value - start)
  {
    forall v: I32 ensures ParseInt(Some(text)) == Success(v) <==> SpellsInt(text, v) {
      ParseIntExact(text, v);
    }
    hide ParseInt, SpellsInt, WrapI32;
    if ParseInt(Some(text)).Success? {
      assert SpellsInt(text, ParseInt(Some(text)).value);
    }
  }

  /** A user may spell keys as he likes: the export command denotes `k` exactly when its first
      parameter spells `k`. */
  lemma ExportSentExactly(params: seq<string>, k: Key, now: I32)
    ensures Send(ExportPub, params, now) == Success(ExportPublicKey(k)) <==>
            |params| > 0 && SpellsKey(params[0], k)
  {
    if |params| > 0 {
      ParseInt256Exact(params[0], k);
    }
    hide ParseInt256, SpellsKey;
  }

  lemma SignSent(params: seq<string>, now: I32, k: Key, data: Bytes)
    ensures Send(SignData, params, now) == Success(Sign(k, data)) <==> Denotes(params, now, Sign(k, data))
  {
    hide ParseInt256, ParseData, SpellsKey;
    if |params| > 1 {
      ParseInt256Exact(params[0], k);
      ParseDataExact(params[1], data);
    } else {
      TooFewParameters(SignData, params, now);
    }
  }

  lemma AdnlSent(params: seq<string>, now: I32, k: Key, category: I32)
    ensures Send(AddAdnl, params, now) == Success(AddAdnlId(k, category)) <==>
            Denotes(params, now, AddAdnlId(k, category))
  {
    hide ParseInt256, ParseInt, SpellsKey, SpellsInt;
    if |params| > 1 {
      ParseInt256Exact(params[0], k);
      ParseIntExact(params[1], category);
    } else {
      TooFewParameters(AddAdnl, params, now);
    }
  }

  lemma PermSent(params: seq<string>, now: I32, k: Key, date: I32, ttl: I32)
    ensures Send(AddPermKey, params, now) == Success(AddValidatorPermanentKey(k, date, ttl)) <==>
            Denotes(params, now, AddValidatorPermanentKey(k, date, ttl))
  {
    hide ParseInt256, ParseInt, SpellsKey, SpellsInt, SpellsTtl, WrapI32;
    if |params| > 2 {
      ParseInt256Exact(params[0], k);
      ParseIntExact(params[1], date);
      TtlRead(params[2], date, ttl);
    } else {
      TooFewParameters(AddPermKey, params, now);
    }
  }

  lemma TempSent(params: seq<string>, now: I32, p: Key, k: Key, ttl: I32)
    ensures Send(AddTempKey, params, now) == Success(AddValidatorTempKey(p, k, ttl)) <==>
            Denotes(params, now, AddValidatorTempKey(p, k, ttl))
  {
    hide ParseInt256, ParseInt, SpellsKey, SpellsInt, SpellsTtl, WrapI32;
    if |params| > 2 {
      ParseInt256Exact(params[0], p);
      ParseInt256Exact(params[1], k);
      TtlRead(params[2], now, ttl);
    } else {
      TooFewParameters(AddTempKey, params, now);
    }
  }

  lemma AddrSent(params: seq<string>, now: I32, p: Key, k: Key, ttl: I32)
    ensures Send(AddValidatorAddr, params, now) == Success(AddValidatorAdnlAddress(p, k, ttl)) <==>
            Denotes(params, now, AddValidatorAdnlAddress(p, k, ttl))
  {
    hide ParseInt256, ParseInt, SpellsKey, SpellsInt, SpellsTtl, WrapI32;
    if |params| > 2 {
      ParseInt256Exact(params[0], p);
      ParseInt256Exact(params[1], k);
      TtlRead(params[2], now, ttl);
    } else {
      TooFewParameters(AddValidatorAddr, params, now);
    }
  }

  lemma KindSent(cmd: Command, params: seq<string>, now: I32)
    ensures Send(cmd, params, now).Success? ==> CommandOf(Send(cmd, params, now).value) == cmd
  {
    hide ParseInt256, ParseInt, ParseData, WrapI32;
  }

  /** `send`, over all commands and all parameters: a request is sent exactly if it is of the command's
      kind and the parameters denote it. */
  lemma SentExactly(cmd: Command, params: seq<string>, now: I32, q: Request)
    ensures Send(cmd, params, now) == Success(q) <==> CommandOf(q) == cmd && Denotes(params, now, q)
  {
    KindSent(cmd, params, now);
    match q {
      case GenerateKeyPair =>
      case ExportPublicKey(k) => ExportSentExactly(params, k, now);
      case Sign(k, data) => SignSent(params, now, k, data);
      case AddValidatorPermanentKey(k, date, ttl) => PermSent(params, now, k, date, ttl);
      case AddValidatorTempKey(p, k, ttl) => TempSent(params, now, p, k, ttl);
      case AddValidatorAdnlAddress(p, k, ttl) => AddrSent(params, now, p, k, ttl);
      case AddAdnlId(k, category) => AdnlSent(params, now, k, category);
    }
    assert CommandOf(q) == NewKey ==> Send(NewKey, params, now) == Success(q);
    hide Send, Denotes;
  }

  // ---- times to live ----

  /** The clock counts seconds since 1970 and is truncated to an i32 before the subtraction. That makes
      no difference: the time to live is that of the true clock, exact until the clock is 2^31 seconds
      past the expiry, however long after January 2038 that is. */
  lemma TtlOfClock(expireAt: I32, clock: nat)
    requires 0 < expireAt
    ensures WrapI32(expireAt - WrapI32(clock)) == WrapI32(expireAt - clock)
    ensures WrapI32(expireAt - clock) == expireAt - clock <==> clock <= expireAt - MIN_I32
  {
  }
}
