/** The election bid: eight dependent server commands, a signature check and one file. */
module ElectionBid {
  import opened Wrappers
  import opened Octets
  import opened ConsoleParams
  import opened Commands
  import opened Cells
  import Hex
  import Messages
  import Numerals

  datatype Config = Config(walletId: Option<string>, maxFactor: Option<real>)

  /** A bid whose inputs passed every check. */
  datatype Bid = Bid(wallet: Bytes, electTime: I32, expireTime: I32, maxFactor: U32)

  const WALLET_PREFIX := "-1:"
  const DEFAULT_BID_FILE := "validator-query.boc"
  const DEFAULT_RECOVER_FILE := "recover-query.boc"

  const ORDER: seq<Command> :=
    [NewKey, ExportPub, AddPermKey, AddTempKey, NewKey, AddAdnl, AddValidatorAddr, SignData]

  function WalletFromText(s: string): Result<Bytes, Error> {
    if WALLET_PREFIX <= s then DecodeHex(s[|WALLET_PREFIX|..]) else Failure(NotMasterchainWallet)
  }

  /** The stake factor in 16.16 fixed point. */
  function FixedPoint(factor: real): U32
    requires 1.0 <= factor <= 100.0
  {
    (factor * 65536.0).Floor
  }

  /** The checks made before anything is sent, in the order in which they are made. */
  function CheckBid(config: Config, params: seq<string>): Result<Bid, Error> {
    var wallet :- ParseAny(config.walletId, WalletFromText);
    var electTime :- ParseInt(Param(params, 0));
    if electTime <= 0 then Failure(ElectTimeNotPositive)
    else
      var expireTime :- ParseInt(Param(params, 1));
      if expireTime <= electTime then Failure(ExpireNotAfterElect)
      else if config.maxFactor.None? then Failure(NoMaxFactor)
      else
        var factor := config.maxFactor.value;
        if factor < 1.0 || factor > 100.0 then Failure(MaxFactorOutOfRange)
        else Success(Bid(wallet, electTime, expireTime, FixedPoint(factor)))
  }

  /** The path a parameter gives, or the default one. */
  function PathParam(params: seq<string>, i: nat, default: string): (path: string)
    ensures path == if |params| > i then params[i] else default
  {
    Param(params, i).GetOr(default)
  }

  /** `now() as u64`: the clock reading, truncated to an i32 and extended again. It is the reading
      itself until January 2038. */
  function QueryId(clock: nat): (id: U64)
    ensures (id - clock) % 0x1_0000_0000 == 0
    ensures id == clock <==> clock <= MAX_I32 || MAX_U64 - 0x8000_0000 < clock <= MAX_U64
  {
    SignExtend64(WrapI32(clock))
  }

  /** How many of the steps from `step` on are answered as they must be before one is not. The reply
      to step i is the (base + i)-th reply of the server. */
  function Progress(replies: nat -> Reply, base: nat, step: nat): (n: nat)
    requires step <= 8
    ensures step <= n <= 8
    decreases 8 - step
  {
    if step == 8 then 8
    else if Receive(ORDER[step], replies(base + step)).Success? then Progress(replies, base, step + 1)
    else step
  }

  /** The requests that reach the server: those of the answered steps and the one that stops the bid. */
  function SentCount(progress: nat): nat {
    if progress < 8 then progress + 1 else 8
  }

  /** What a bid file must hold: a body that decodes, the signature in its only reference, and a
      signed request that can be rebuilt from the body's own fields and the wallet id and that
      verifies under the body's own key. */
  ghost predicate SignedBid(cell: Cell, wallet: Bytes, signed: Request,
                            verify: (Key, Bytes, Bytes) -> bool) {
    && |cell.refs| == 1 && cell.refs[0].refs == []
    && signed.Sign?
    && var m := Messages.Decode(cell.data);
       && m.Some? && m.value.BidBody?
       && signed.data == Messages.Encode(
            Messages.BidToSign(m.value.electTime, m.value.maxFactor, wallet, m.value.adnl))
       && verify(m.value.pubKey, signed.data, cell.refs[0].data)
  }

  class ControlClient {
    const config: Config
    // The environment: the server's replies in the order of the requests, the clock's readings in
    // seconds since 1970, the signature scheme, the cell serializer and the file system's consent.
    const replies: nat -> Reply
    const clock: nat -> nat
    const verify: (Key, Bytes, Bytes) -> bool
    const writeBoc: Cell -> Option<Bytes>
    const canWrite: string -> bool

    var sent: seq<Request>
    var ticks: nat
    var files: map<string, Bytes>

    constructor (config: Config, replies: nat -> Reply, clock: nat -> nat,
                 verify: (Key, Bytes, Bytes) -> bool, writeBoc: Cell -> Option<Bytes>,
                 canWrite: string -> bool, files: map<string, Bytes>)
      ensures this.config == config && this.replies == replies && this.clock == clock
      ensures this.verify == verify && this.writeBoc == writeBoc && this.canWrite == canWrite
      ensures this.files == files && sent == [] && ticks == 0
    {
      this.config, this.replies, this.clock := config, replies, clock;
      this.verify, this.writeBoc, this.canWrite := verify, writeBoc, canWrite;
      this.files, this.sent, this.ticks := files, [], 0;
    }

    /** The n-th clock reading, truncated to an i32. */
    function Now(n: nat): I32 {
      WrapI32(clock(n))
    }

    // ---- what the replies to a bid bring; the bid's first request is number `base` ----

    function KeyAt(n: nat): Key {
      var r := replies(n);
      if r.KeyHash? then r.hash
      else if r.PublicKey? && r.key.Some? then r.key.value
      else ZERO_KEY
    }

    function SignatureAt(n: nat): Bytes {
      var r := replies(n);
      if r.Signature? then r.signature else []
    }

    function Payload(bid: Bid, base: nat): Bytes {
      Messages.Encode(Messages.BidToSign(bid.electTime, bid.maxFactor, bid.wallet, KeyAt(base + 4)))
    }

    /** The typed requests of a bid whose first clock reading is number `tick`. */
    function Script(bid: Bid, base: nat, tick: nat): (s: seq<Request>)
      ensures |s| == 8
    {
      var perm, adnl := KeyAt(base), KeyAt(base + 4);
      [
        GenerateKeyPair,
        ExportPublicKey(perm),
        AddValidatorPermanentKey(perm, bid.electTime, WrapI32(bid.expireTime - bid.electTime)),
        AddValidatorTempKey(perm, perm, WrapI32(bid.expireTime - Now(tick + 3))),
        GenerateKeyPair,
        AddAdnlId(adnl, 0),
        AddValidatorAdnlAddress(perm, adnl, WrapI32(bid.electTime - Now(tick + 6))),
        Sign(perm, Payload(bid, base))
      ]
    }

    function BodyCell(bid: Bid, base: nat, tick: nat): Cell {
      var body := Messages.BidBody(QueryId(clock(tick + 8)), KeyAt(base + 1), bid.electTime,
                                   bid.maxFactor, KeyAt(base + 4));
      Cell(Messages.Encode(body), [Cell(SignatureAt(base + 7), [])])
    }

    predicate SignatureVerifies(bid: Bid, base: nat) {
      && Progress(replies, base, 0) == 8
      && verify(KeyAt(base + 1), Payload(bid, base), SignatureAt(base + 7))
    }

    /** Everything that must go right for a bid to be written. */
    predicate BidSucceeds(bid: Bid, base: nat, tick: nat, path: string) {
      && SignatureVerifies(bid, base)
      && writeBoc(BodyCell(bid, base, tick)).Some?
      && canWrite(path)
    }

    // ---- the operations ----

    /** `process_command`: nothing reaches the server unless the parameters parse. */
    method ProcessCommand(cmd: Command, params: seq<string>) returns (r: Result<Bytes, Error>)
      modifies this`sent, this`ticks
      ensures ticks == old(ticks) + 1
      ensures var q := Send(cmd, params, Now(old(ticks)));
              if q.Success? then
                sent == old(sent) + [q.value] && r == Receive(cmd, replies(|old(sent)|))
              else
                sent == old(sent) && r == Failure(q.error)
    {
      var now := Now(ticks);
      ticks := ticks + 1;
      var query :- Send(cmd, params, now);
      var answer := replies(|sent|);
      sent := sent + [query];
      r := Receive(cmd, answer);
    }

    method WriteFile(path: string, data: Bytes) returns (r: Result<Bytes, Error>)
      modifies this`files
      ensures r == if canWrite(path) then Success(data) else Failure(CannotWrite)
      ensures files == if canWrite(path) then old(files)[path := data] else old(files)
    {
      if !canWrite(path) {
        return Failure(CannotWrite);
      }
      files := files[path := data];
      r := Success(data);
    }

    /** `process_recover_stake`: a clock reading under a tag of its own. */
    method ProcessRecoverStake(params: seq<string>) returns (r: Result<Bytes, Error>)
      modifies this`ticks, this`files
      ensures ticks == old(ticks) + 1
      ensures var cell := Cell(Messages.Encode(Messages.RecoverStake(QueryId(clock(old(ticks))))), []);
              var path := if |params| > 0 then params[0] else "recover-query.boc";
              && (r.Success? <==> writeBoc(cell).Some? && canWrite(path))
              && (r.Success? ==> writeBoc(cell) == Some(r.value) && files == old(files)[path := r.value])
              && (r.Failure? ==> files == old(files))
    {
      var queryId := SignExtend64(Now(ticks));
      ticks := ticks + 1;
      var data := Messages.Be32(Messages.RECOVER_TAG);
      data := data + Messages.Be64(queryId);
      var boc := writeBoc(Cell(data, []));
      if boc.None? {
        return Failure(CannotSerialize);
      }
      r := WriteFile(PathParam(params, 0, DEFAULT_RECOVER_FILE), boc.value);
    }

    // ---- the commands of a bid, each called with text and answered for in types ----

    method RequestKeypair() returns (r: Result<Bytes, Error>)
      modifies this`sent, this`ticks
      ensures ticks == old(ticks) + 1 && sent == old(sent) + [GenerateKeyPair]
      ensures r == Receive(NewKey, replies(|old(sent)|))
    {
      hide ParseInt256, Receive;
      r := ProcessCommand(NewKey, []);
    }

    method RequestExport(keyText: string, ghost key: Key) returns (r: Result<Bytes, Error>)
      requires keyText == Hex.Upper(key)
      modifies this`sent, this`ticks
      ensures ticks == old(ticks) + 1 && sent == old(sent) + [ExportPublicKey(key)]
      ensures r == Receive(ExportPub, replies(|old(sent)|))
    {
      hide ParseInt256, Receive;
      UpperKeyIsRead(key);
      r := ProcessCommand(ExportPub, [keyText]);
    }

    method RequestPermKey(keyText: string, dateText: string, expireText: string,
                          ghost key: Key, ghost date: I32, ghost expireAt: I32)
      returns (r: Result<Bytes, Error>)
      requires keyText == Hex.Upper(key)
      requires dateText == Numerals.PrintInt(date) && expireText == Numerals.PrintInt(expireAt)
      modifies this`sent, this`ticks
      ensures ticks == old(ticks) + 1
      ensures sent == old(sent) + [AddValidatorPermanentKey(key, date, WrapI32(expireAt - date))]
      ensures r == Receive(AddPermKey, replies(|old(sent)|))
    {
      hide Send, Receive;
      PermMarshalled(key, date, expireAt, Now(ticks));
      r := ProcessCommand(AddPermKey, [keyText, dateText, expireText]);
    }

    method RequestTempKey(permText: string, keyText: string, expireText: string,
                          ghost perm: Key, ghost key: Key, ghost expireAt: I32)
      returns (r: Result<Bytes, Error>)
      requires permText == Hex.Upper(perm) && keyText == Hex.Upper(key)
      requires expireText == Numerals.PrintInt(expireAt)
      modifies this`sent, this`ticks
      ensures ticks == old(ticks) + 1
      ensures sent == old(sent) + [AddValidatorTempKey(perm, key, WrapI32(expireAt - Now(old(ticks))))]
      ensures r == Receive(AddTempKey, replies(|old(sent)|))
    {
      hide Send, Receive;
      TempMarshalled(perm, key, expireAt, Now(ticks));
      r := ProcessCommand(AddTempKey, [permText, keyText, expireText]);
    }

    method RequestAdnl(keyText: string, ghost key: Key) returns (r: Result<Bytes, Error>)
      requires keyText == Hex.Upper(key)
      modifies this`sent, this`ticks
      ensures ticks == old(ticks) + 1 && sent == old(sent) + [AddAdnlId(key, 0)]
      ensures r == Receive(AddAdnl, replies(|old(sent)|))
    {
      hide Send, Receive;
      AdnlMarshalled(key, 0, Now(ticks));
      r := ProcessCommand(AddAdnl, [keyText, "0"]);
    }

    method RequestValidatorAddr(permText: string, keyText: string, expireText: string,
                                ghost perm: Key, ghost key: Key, ghost expireAt: I32)
      returns (r: Result<Bytes, Error>)
      requires permText == Hex.Upper(perm) && keyText == Hex.Upper(key)
      requires expireText == Numerals.PrintInt(expireAt)
      modifies this`sent, this`ticks
      ensures ticks == old(ticks) + 1
      ensures sent == old(sent) + [AddValidatorAdnlAddress(perm, key, WrapI32(expireAt - Now(old(ticks))))]
      ensures r == Receive(AddValidatorAddr, replies(|old(sent)|))
    {
      hide Send, Receive;
      AddrMarshalled(perm, key, expireAt, Now(ticks));
      r := ProcessCommand(AddValidatorAddr, [permText, keyText, expireText]);
    }

    method RequestSignature(keyText: string, dataText: string, ghost key: Key, ghost data: Bytes)
      returns (r: Result<Bytes, Error>)
      requires keyText == Hex.Upper(key) && dataText == Hex.Upper(data)
      modifies this`sent, this`ticks
      ensures ticks == old(ticks) + 1 && sent == old(sent) + [Sign(key, data)]
      ensures r == Receive(SignData, replies(|old(sent)|))
    {
      hide Send, Receive;
      KeysMarshalled(Sign(key, data), Now(ticks));
      r := ProcessCommand(SignData, [keyText, dataText]);
    }

    lemma RepliesRead(base: nat)
      ensures forall n | n == base || n == base + 4 :: Receive(NewKey, replies(n)).Success? ==>
                Receive(NewKey, replies(n)).value == KeyAt(n)
      ensures Receive(ExportPub, replies(base + 1)).Success? ==>
                Receive(ExportPub, replies(base + 1)).value == KeyAt(base + 1)
      ensures Receive(SignData, replies(base + 7)).Success? ==>
                Receive(SignData, replies(base + 7)).value == SignatureAt(base + 7)
    {
    }

    lemma KeyLines(bid: Bid, base: nat, tick: nat)
      ensures var s, perm := Script(bid, base, tick), KeyAt(base);
              && s[0] == GenerateKeyPair && s[1] == ExportPublicKey(perm)
              && s[2] == AddValidatorPermanentKey(perm, bid.electTime, WrapI32(bid.expireTime - bid.electTime))
              && s[3] == AddValidatorTempKey(perm, perm, WrapI32(bid.expireTime - Now(tick + 3)))
    {
      hide WrapI32, KeyAt, Payload, Now;
    }

    lemma AddressLines(bid: Bid, base: nat, tick: nat)
      ensures var s, adnl := Script(bid, base, tick), KeyAt(base + 4);
              && s[4] == GenerateKeyPair && s[5] == AddAdnlId(adnl, 0)
              && s[6] == AddValidatorAdnlAddress(KeyAt(base), adnl, WrapI32(bid.electTime - Now(tick + 6)))
              && s[7] == Sign(KeyAt(base), Payload(bid, base))
    {
      hide WrapI32, KeyAt, Payload, Now;
    }

    /** The progress is decided one step at a time, and each step sends one more line of the script. */
    lemma Answered(before: seq<Request>, script: seq<Request>, step: nat)
      requires step < 8 == |script|
      ensures Progress(replies, |before|, step) ==
              if Receive(ORDER[step], replies(|before| + step)).Success?
              then Progress(replies, |before|, step + 1) else step
      ensures step == 7 ==> Progress(replies, |before|, step + 1) == 8
      ensures before + script[..0] == before
      ensures before + script[..step] + [script[step]] == before + script[..step + 1]
    {
    }

    /** The bytes that are signed, appended field by field. */
    method BuildPayload(bid: Bid, adnl: Key) returns (data: Bytes)
      ensures data == Messages.Encode(
                Messages.BidToSign(bid.electTime, bid.maxFactor, bid.wallet, adnl))
    {
      data := Messages.Be32(Messages.BID_TAG);
      data := data + Messages.BeI32(bid.electTime);
      data := data + Messages.Be32(bid.maxFactor);
      data := data + bid.wallet;
      data := data + adnl;
    }

    /** The body of the signed bid, appended field by field. */
    method BuildBody(queryId: U64, pubKey: Key, bid: Bid, adnl: Key) returns (data: Bytes)
      ensures data == Messages.Encode(
                Messages.BidBody(queryId, pubKey, bid.electTime, bid.maxFactor, adnl))
    {
      data := Messages.Be32(Messages.BODY_TAG);
      data := data + Messages.Be64(queryId);
      data := data + pubKey;
      data := data + Messages.BeI32(bid.electTime);
      data := data + Messages.Be32(bid.maxFactor);
      data := data + adnl;
    }

    /** Steps 0 to 3: the permanent key and its registration as a validator and temporary key. */
    method SetUpKeys(bid: Bid) returns (r: Result<(Key, Key), Error>)
      modifies this`sent, this`ticks
      ensures var base, script := |old(sent)|, Script(bid, |old(sent)|, old(ticks));
              && (r.Success? <==> Progress(replies, base, 0) >= 4)
              && (r.Success? ==>
                  && sent == old(sent) + script[..4] && ticks == old(ticks) + 4
                  && Progress(replies, base, 0) == Progress(replies, base, 4)
                  && r.value == (KeyAt(base), KeyAt(base + 1)))
              && (r.Failure? ==> sent == old(sent) + script[..Progress(replies, base, 0) + 1] &&
                                 ticks == old(ticks) + Progress(replies, base, 0) + 1)
    {
      hide Script, Receive, Progress, WrapI32, KeyAt, SignatureAt, Now, Hex.Upper;
      ghost var before, tick, script := sent, ticks, Script(bid, |sent|, ticks);
      KeyLines(bid, |before|, ticks);
      RepliesRead(|before|);
      Answered(before, script, 0);
      var perm :- RequestKeypair();
      var permText := Hex.Upper(perm);
      Answered(before, script, 1);
      var pubKey :- RequestExport(permText, perm);
      var _ :- RegisterKeys(bid, permText, before, tick);
      r := Success((perm, pubKey));
    }

    /** Steps 2 and 3 of these. */
    method RegisterKeys(bid: Bid, permText: string, ghost before: seq<Request>, ghost tick: nat)
      returns (r: Result<Bytes, Error>)
      requires sent == before + Script(bid, |before|, tick)[..2] && ticks == tick + 2
      requires permText == Hex.Upper(KeyAt(|before|))
      modifies this`sent, this`ticks
      ensures var base, script := |before|, Script(bid, |before|, tick);
              && (r.Success? <==> Progress(replies, base, 2) >= 4)
              && (r.Success? ==>
                  && sent == before + script[..4] && ticks == tick + 4
                  && Progress(replies, base, 2) == Progress(replies, base, 4))
              && (r.Failure? ==> sent == before + script[..Progress(replies, base, 2) + 1] &&
                                 ticks == tick + Progress(replies, base, 2) + 1)
    {
      hide Script, Receive, Progress, WrapI32, KeyAt, SignatureAt, Now, Hex.Upper, Numerals.PrintInt;
      ghost var script, perm := Script(bid, |before|, tick), KeyAt(|before|);
      KeyLines(bid, |before|, tick);
      var electTimeText := Numerals.PrintInt(bid.electTime);
      var expireTimeText := Numerals.PrintInt(bid.expireTime);
      Answered(before, script, 2);
      var _ :- RequestPermKey(permText, electTimeText, expireTimeText, perm, bid.electTime, bid.expireTime);
      Answered(before, script, 3);
      r := RequestTempKey(permText, permText, expireTimeText, perm, perm, bid.expireTime);
    }

    /** Steps 4 to 6: the ADNL key, which is to expire at the election time. */
    method SetUpAddress(bid: Bid, perm: Key, ghost before: seq<Request>, ghost tick: nat)
      returns (r: Result<Key, Error>)
      requires sent == before + Script(bid, |before|, tick)[..4] && ticks == tick + 4
      requires perm == KeyAt(|before|)
      modifies this`sent, this`ticks
      ensures var base, script := |before|, Script(bid, |before|, tick);
              && (r.Success? <==> Progress(replies, base, 4) >= 7)
              && (r.Success? ==>
                  && sent == before + script[..7] && ticks == tick + 7
                  && Progress(replies, base, 4) == Progress(replies, base, 7)
                  && r.value == KeyAt(base + 4))
              && (r.Failure? ==> sent == before + script[..Progress(replies, base, 4) + 1] &&
                                 ticks == tick + Progress(replies, base, 4) + 1)
    {
      hide Script, Receive, Progress, WrapI32, KeyAt, SignatureAt, Payload, Now, Hex.Upper, Numerals.PrintInt;
      ghost var script := Script(bid, |before|, tick);
      AddressLines(bid, |before|, tick);
      RepliesRead(|before|);
      Answered(before, script, 4);
      var adnl :- RequestKeypair();
      var permText, adnlText := Hex.Upper(perm), Hex.Upper(adnl);
      Answered(before, script, 5);
      var _ :- RequestAdnl(adnlText, adnl);
      Answered(before, script, 6);
      var _ :- RequestValidatorAddr(permText, adnlText, Numerals.PrintInt(bid.electTime),
                                    perm, adnl, bid.electTime);
      r := Success(adnl);
    }

    /** The eight commands in turn, each after the success of the one before. */
    method RunCommands(bid: Bid) returns (r: Result<(Key, Key, Bytes, Bytes), Error>)
      modifies this`sent, this`ticks
      ensures var base := |old(sent)|;
              && sent == old(sent) + Script(bid, base, old(ticks))[..SentCount(Progress(replies, base, 0))]
              && (r.Success? <==> Progress(replies, base, 0) == 8)
              && ticks == old(ticks) + SentCount(Progress(replies, base, 0))
              && (r.Success? ==>
                  && r.value == (KeyAt(base + 1), KeyAt(base + 4), Payload(bid, base), SignatureAt(base + 7)))
    {
      hide Script, Receive, Progress, WrapI32, KeyAt, SignatureAt, Now, Messages.Encode, Hex.Upper;
      ghost var before, tick, script := sent, ticks, Script(bid, |sent|, ticks);
      AddressLines(bid, |before|, tick);
      RepliesRead(|before|);
      var keys :- SetUpKeys(bid);
      var (perm, pubKey) := keys;
      var adnl :- SetUpAddress(bid, perm, before, tick);
      Answered(before, script, 7);
      var data := BuildPayload(bid, adnl);
      var permText, dataText := Hex.Upper(perm), Hex.Upper(data);
      var signature :- RequestSignature(permText, dataText, perm, data);
      r := Success((pubKey, adnl, data, signature));
    }

    /** `process_election_bid`: for every configuration, parameter list, clock and sequence of
        replies. */
    method ProcessElectionBid(params: seq<string>) returns (r: Result<Bytes, Error>)
      modifies this`sent, this`ticks, this`files
      // Inputs that fail a check reach nobody.
      ensures CheckBid(config, params).Failure? ==>
                r == Failure(CheckBid(config, params).error) && sent == old(sent) && ticks == old(ticks)
      // Otherwise the server sees the script up to and including the first step that fails.
      ensures CheckBid(config, params).Success? ==>
                var bid := CheckBid(config, params).value;
                var base := |old(sent)|;
                && sent == old(sent) + Script(bid, base, old(ticks))[..SentCount(Progress(replies, base, 0))]
                && (r.Success? <==>
                    BidSucceeds(bid, base, old(ticks),
                                if |params| > 2 then params[2] else "validator-query.boc"))
                && ticks == old(ticks) + SentCount(Progress(replies, base, 0)) +
                            if SignatureVerifies(bid, base) then 1 else 0
      // A file appears exactly on success, and it holds a signed bid.
      ensures r.Failure? ==> files == old(files)
      ensures r.Success? ==>
                var bid := CheckBid(config, params).value;
                var cell := BodyCell(bid, |old(sent)|, old(ticks));
                && files == old(files)[if |params| > 2 then params[2] else "validator-query.boc" := r.value]
                && writeBoc(cell) == Some(r.value)
                && SignedBid(cell, bid.wallet, sent[|sent| - 1], verify)
    {
      hide Progress, KeyAt, SignatureAt, WrapI32, SignExtend64, CheckBid, Messages.Encode, Messages.Decode;
      var bid :- CheckBid(config, params);
      var keys :- RunCommands(bid);
      var (pubKey, adnl, data, signature) := keys;
      if !verify(pubKey, data, signature) {
        return Failure(BadSignature);
      }
      var queryId := SignExtend64(Now(ticks));
      ticks := ticks + 1;
      var body := BuildBody(queryId, pubKey, bid, adnl);
      Messages.BodyDecodes(queryId, pubKey, bid.electTime, bid.maxFactor, adnl);
      var boc := writeBoc(Cell(body, [Cell(signature, [])]));
      if boc.None? {
        return Failure(CannotSerialize);
      }
      r := WriteFile(PathParam(params, 2, DEFAULT_BID_FILE), boc.value);
    }
  }

  // ---- what the inputs mean ----

  /** The inputs of a bid are accepted exactly when the wallet id is a masterchain address in
      hexadecimal, both times parse, the election comes after 1970 and before the expiry, and the
      stake factor lies between 1 and 100. */
  lemma CheckBidExact(config: Config, params: seq<string>, bid: Bid)
    ensures CheckBid(config, params) == Success(bid) <==>
            && config.walletId.Some? && "-1:" <= TrimQuotes(config.walletId.value)
            && Hex.LowerCase(TrimQuotes(config.walletId.value)[3..]) == Hex.Lower(bid.wallet)
            && ParseInt(Param(params, 0)) == Success(bid.electTime)
            && ParseInt(Param(params, 1)) == Success(bid.expireTime)
            && 0 < bid.electTime < bid.expireTime
            && config.maxFactor.Some? && 1.0 <= config.maxFactor.value <= 100.0
            && bid.maxFactor == FixedPoint(config.maxFactor.value)
  {
    if config.walletId.Some? && WALLET_PREFIX <= TrimQuotes(config.walletId.value) {
      Hex.DecodeExact(TrimQuotes(config.walletId.value)[3..], bid.wallet);
    }
    hide Hex.Decode, Hex.Lower, Hex.LowerCase, TrimQuotes, FixedPoint, ParseInt;
  }

  /** A bid is refused by the first check that fails: the wallet, the election time, the expiry time, the
      stake factor. */
  lemma CheckBidRefuses(config: Config, params: seq<string>)
    ensures var r, wallet := CheckBid(config, params), ParseAny(config.walletId, WalletFromText);
            var elect, expire := ParseInt(Param(params, 0)), ParseInt(Param(params, 1));
            var timesRead := wallet.Success? && elect.Success? && 0 < elect.value && expire.Success?;
            && (wallet.Failure? ==> r == Failure(wallet.error))
            && (wallet.Success? && elect.Failure? ==> r == Failure(elect.error))
            && (wallet.Success? && elect.Success? && 0 < elect.value && expire.Failure? ==>
                r == Failure(expire.error))
            && (r == Failure(ElectTimeNotPositive) <==> wallet.Success? && elect.Success? && elect.value <= 0)
            && (r == Failure(ExpireNotAfterElect) <==> timesRead && expire.value <= elect.value)
            && (r == Failure(NoMaxFactor) <==>
                timesRead && elect.value < expire.value && config.maxFactor.None?)
            && (r == Failure(MaxFactorOutOfRange) <==>
                timesRead && elect.value < expire.value && config.maxFactor.Some? &&
                !(1.0 <= config.maxFactor.value <= 100.0))
  {
    WalletErrors(config.walletId);
    IntErrors(Param(params, 0));
    IntErrors(Param(params, 1));
    hide ParseAny, ParseInt, FixedPoint;
  }

  /** What can be wrong with a wallet id: it is missing, not on the masterchain, or not hexadecimal. */
  lemma WalletErrors(walletId: Option<string>)
    ensures var r := ParseAny(walletId, WalletFromText);
            && (r == Failure(InsufficientParameters) <==> walletId == None)
            && (r == Failure(NotMasterchainWallet) <==>
                walletId.Some? && !("-1:" <= TrimQuotes(walletId.value)))
            && (r.Failure? ==> r.error in {InsufficientParameters, NotMasterchainWallet, NotHex})
  {
    hide Hex.Decode, TrimQuotes;
  }

  /** And with an integer: it is missing, or no integer in range is spelled. */
  lemma IntErrors(param: Option<string>)
    ensures var r := ParseInt(param);
            && (r == Failure(InsufficientParameters) <==> param == None)
            && (r == Failure(NotAnInteger) <==> param.Some? && !exists v: I32 :: SpellsInt(param.value, v))
            && (r.Failure? ==> r.error in {InsufficientParameters, NotAnInteger})
  {
    if param.Some? {
      ParseIntRefuses(param.value);
    }
    hide SpellsInt, TrimQuotes, Numerals.ParseInt;
  }

  /** The fixed-point factor stays in 1.0..100.0, never exceeds the real one, misses it by less than
      one part in 65536, keeps order, and survives its four big-endian bytes. */
  lemma FixedPointIsFaithful(f: real, g: real)
    requires 1.0 <= f <= g <= 100.0
    ensures 65536 <= FixedPoint(f) <= FixedPoint(g) <= 6553600
    ensures 0.0 <= f - FixedPoint(f) as real / 65536.0 < 1.0 / 65536.0
    ensures Messages.Get32(Messages.Be32(FixedPoint(f))) == FixedPoint(f)
  {
    assert FixedPoint(f) as real <= f * 65536.0 < FixedPoint(f) as real + 1.0;
    assert f * 65536.0 <= g * 65536.0;
    Messages.Get32Of(FixedPoint(f));
  }

  lemma PermKeyTime(client: ControlClient, bid: Bid, base: nat, tick: nat)
    requires 0 < bid.electTime < bid.expireTime
    ensures var q := client.Script(bid, base, tick)[2];
            q.AddValidatorPermanentKey? && q.electionDate + q.ttl == bid.expireTime && q.ttl > 0
  {
    hide ControlClient.Script, ControlClient.KeyAt;
    client.KeyLines(bid, base, tick);
  }

  lemma TempKeyTime(client: ControlClient, bid: Bid, base: nat, tick: nat)
    requires 0 < bid.electTime < bid.expireTime
    ensures var q, clock := client.Script(bid, base, tick)[3], client.clock(tick + 3);
            && q.AddValidatorTempKey? && q.ttl == WrapI32(bid.expireTime - clock)
            && (q.ttl == bid.expireTime - clock <==> clock <= bid.expireTime - MIN_I32)
  {
    hide ControlClient.Script, ControlClient.KeyAt, WrapI32;
    client.KeyLines(bid, base, tick);
    TtlOfClock(bid.expireTime, client.clock(tick + 3));
  }

  lemma AddressTime(client: ControlClient, bid: Bid, base: nat, tick: nat)
    requires 0 < bid.electTime < bid.expireTime
    ensures var q, clock := client.Script(bid, base, tick)[6], client.clock(tick + 6);
            && q.AddValidatorAdnlAddress? && q.ttl == WrapI32(bid.electTime - clock)
            && (q.ttl == bid.electTime - clock <==> clock <= bid.electTime - MIN_I32)
  {
    hide ControlClient.Script, ControlClient.KeyAt, ControlClient.Payload, WrapI32;
    client.AddressLines(bid, base, tick);
    TtlOfClock(bid.electTime, client.clock(tick + 6));
  }

  /** The times to live of an accepted bid, by the true clock. The permanent key's leads exactly from
      the election to the expiry. The other two are exact until the clock is 2^31 seconds past the time
      they count to; the ADNL address counts to the election, so its time to live is positive, as long
      as it is exact, only before the election begins. */
  lemma BidTimes(client: ControlClient, params: seq<string>, base: nat, tick: nat)
    requires CheckBid(client.config, params).Success?
    ensures var bid := CheckBid(client.config, params).value;
            var s := client.Script(bid, base, tick);
            var temp, addr := client.clock(tick + 3), client.clock(tick + 6);
            && s[2].electionDate + s[2].ttl == bid.expireTime && s[2].ttl > 0
            && s[3].ttl == WrapI32(bid.expireTime - temp)
            && (s[3].ttl == bid.expireTime - temp <==> temp <= bid.expireTime - MIN_I32)
            && s[6].ttl == WrapI32(bid.electTime - addr)
            && (s[6].ttl == bid.electTime - addr <==> addr <= bid.electTime - MIN_I32)
            && (addr <= bid.electTime - MIN_I32 ==> (s[6].ttl > 0 <==> addr < bid.electTime))
  {
    hide *;
    var bid := CheckBid(client.config, params).value;
    AcceptedTimes(client.config, params);
    PermKeyTime(client, bid, base, tick);
    TempKeyTime(client, bid, base, tick);
    AddressTime(client, bid, base, tick);
  }

  lemma AcceptedTimes(config: Config, params: seq<string>)
    requires CheckBid(config, params).Success?
    ensures 0 < CheckBid(config, params).value.electTime < CheckBid(config, params).value.expireTime
  {
    CheckBidExact(config, params, CheckBid(config, params).value);
    hide CheckBid;
  }

  /** One might expect the ADNL address to live as long as the keys. It never does: whatever the clock
      reads, its time to live is not the one that counts to the expiry. */
  lemma AddressExpiresEarly(client: ControlClient, params: seq<string>, base: nat, tick: nat)
    requires CheckBid(client.config, params).Success?
    ensures var bid := CheckBid(client.config, params).value;
            var q := client.Script(bid, base, tick)[6];
            q.AddValidatorAdnlAddress? && q.ttl != WrapI32(bid.expireTime - client.clock(tick + 6))
  {
    var bid := CheckBid(client.config, params).value;
    AcceptedTimes(client.config, params);
    hide CheckBid, WrapI32, ControlClient.Script;
    AddressTime(client, bid, base, tick);
    Apart(bid.electTime, bid.expireTime, client.clock(tick + 6));
  }

  lemma Apart(a: I32, b: I32, c: nat)
    requires 0 < a < b
    ensures WrapI32(a - c) != WrapI32(b - c)
  {
  }

  /** Inputs as the documentation describes them: a masterchain wallet in hexadecimal, two times, and a
      factor of at least 1. They are accepted as meant if and only if the factor is at most 100. */
  lemma DocumentedInputs(wallet: Bytes, electTime: I32, expireTime: I32, factor: real)
    requires 0 < electTime < expireTime && 1.0 <= factor
    ensures CheckBid(Config(Some("-1:" + Hex.Lower(wallet)), Some(factor)),
                     [Numerals.PrintInt(electTime), Numerals.PrintInt(expireTime)]) ==
            if factor <= 100.0 then Success(Bid(wallet, electTime, expireTime, FixedPoint(factor)))
            else Failure(MaxFactorOutOfRange)
  {
    WalletRead(wallet);
    PrintedIntsAreRead(electTime);
    PrintedIntsAreRead(expireTime);
    hide Hex.Lower, ParseAny, ParseInt, Numerals.PrintInt;
  }

  lemma WalletRead(wallet: Bytes)
    ensures ParseAny(Some(WALLET_PREFIX + Hex.Lower(wallet)), WalletFromText) == Success(wallet)
  {
    var text := WALLET_PREFIX + Hex.Lower(wallet);
    HexFormsUnquoted(wallet);
    Hex.RoundTrip(wallet);
    hide Hex.Lower, Hex.Decode, TrimQuotes;
    assert text[0] == '-' && text[|text| - 1] != QUOTE;
    TrimKeeps(text);
    assert text[3..] == Hex.Lower(wallet) && WALLET_PREFIX <= text;
  }

  /** Whatever prefix of the script is sent, the commands keep the fixed order. */
  lemma ScriptKeepsOrder(client: ControlClient, bid: Bid, base: nat, tick: nat, i: nat)
    requires i < 8
    ensures CommandOf(client.Script(bid, base, tick)[i]) == ORDER[i]
  {
    client.KeyLines(bid, base, tick);
    client.AddressLines(bid, base, tick);
  }

  /** The number of requests that reach the server singles out the first step that was not answered
      as it must be. */
  lemma {:induction false} ProgressExact(replies: nat -> Reply, base: nat, step: nat, n: nat)
    requires step <= n <= 8
    ensures Progress(replies, base, step) == n <==>
            (forall i | step <= i < n :: Receive(ORDER[i], replies(base + i)).Success?) &&
            (n < 8 ==> Receive(ORDER[n], replies(base + n)).Failure?)
    decreases 8 - step
  {
    hide Receive;
    if step < n {
      ProgressExact(replies, base, step + 1, n);
    }
  }

  /** Replies in kind to the first four commands: a key hash, a public key with its bytes, done, done. */
  predicate KeysSetUp(r0: Reply, r1: Reply, r2: Reply, r3: Reply) {
    r0.KeyHash? && r1.PublicKey? && r1.key.Some? && r2.Done? && r3.Done?
  }

  /** And to the last four: a key hash, done, done, a signature. */
  predicate AddressSetUpAndSigned(r4: Reply, r5: Reply, r6: Reply, r7: Reply) {
    r4.KeyHash? && r5.Done? && r6.Done? && r7.Signature?
  }

  /** A bid gets through all its commands exactly if the server answers eight times in kind. Silence, an
      error or an answer of another type at any step leaves it short. */
  lemma AllAnsweredExact(replies: nat -> Reply, base: nat)
    ensures Progress(replies, base, 0) == 8 <==>
            KeysSetUp(replies(base), replies(base + 1), replies(base + 2), replies(base + 3)) &&
            AddressSetUpAndSigned(replies(base + 4), replies(base + 5), replies(base + 6), replies(base + 7))
  {
    FirstFour(replies, base);
    LastFour(replies, base);
    hide Progress, KeysSetUp, AddressSetUpAndSigned;
  }

  /** The keys and the signature of an answered bid are those of the first, second, fifth and eighth
      reply. */
  lemma KeysAreReplies(client: ControlClient, base: nat)
    requires Progress(client.replies, base, 0) == 8
    ensures client.replies(base) == KeyHash(client.KeyAt(base))
    ensures client.replies(base + 1) == PublicKey(Some(client.KeyAt(base + 1)))
    ensures client.replies(base + 4) == KeyHash(client.KeyAt(base + 4))
    ensures client.replies(base + 7) == Signature(client.SignatureAt(base + 7))
  {
    AllAnsweredExact(client.replies, base);
    hide Progress;
  }

  lemma FirstFour(replies: nat -> Reply, base: nat)
    ensures Progress(replies, base, 0) == 8 <==>
            KeysSetUp(replies(base), replies(base + 1), replies(base + 2), replies(base + 3)) &&
            Progress(replies, base, 4) == 8
  {
    hide Progress;
    StepDecides(replies, base, 0);
    StepDecides(replies, base, 1);
    StepDecides(replies, base, 2);
    StepDecides(replies, base, 3);
  }

  lemma LastFour(replies: nat -> Reply, base: nat)
    ensures Progress(replies, base, 4) == 8 <==>
            AddressSetUpAndSigned(replies(base + 4), replies(base + 5), replies(base + 6), replies(base + 7))
  {
    hide Progress;
    StepDecides(replies, base, 4);
    StepDecides(replies, base, 5);
    StepDecides(replies, base, 6);
    StepDecides(replies, base, 7);
  }

  predicate AnswersStep(i: nat, reply: Reply) {
    if i == 0 || i == 4 then reply.KeyHash?
    else if i == 1 then reply.PublicKey? && reply.key.Some?
    else if i == 7 then reply.Signature?
    else reply.Done?
  }

  lemma StepAnswered(i: nat, reply: Reply)
    requires i < 8
    ensures Receive(ORDER[i], reply).Success? <==> AnswersStep(i, reply)
  {
    var r := Receive(ORDER[i], reply);
    if r.Success? {
      ReceiveExact(ORDER[i], reply, r.value);
    }
    if AnswersStep(i, reply) {
      var data := if reply.KeyHash? then reply.hash else if reply.PublicKey? then reply.key.value
                  else if reply.Signature? then reply.signature else [];
      ReceiveExact(ORDER[i], reply, data);
    }
  }

  lemma StepDecides(replies: nat -> Reply, base: nat, step: nat)
    requires step < 8
    ensures Progress(replies, base, step) == 8 <==>
            AnswersStep(step, replies(base + step)) &&
            (step < 7 ==> Progress(replies, base, step + 1) == 8)
  {
    StepAnswered(step, replies(base + step));
    hide Receive, AnswersStep;
  }

  /** Whoever reads the file of a successful bid back from its bag of cells finds the reading of the clock
      as query id, the exported key, the election time, the factor and the ADNL address of this bid; and
      the signed payload rebuilt from these and the wallet id is what the server was asked to sign, under a
      key whose signature it verifies. */
  lemma BidFileReadsBack(client: ControlClient, bid: Bid, base: nat, tick: nat, path: string,
                         file: Bytes, read: Bytes -> Option<Cell>)
    requires client.BidSucceeds(bid, base, tick, path)
    requires client.writeBoc(client.BodyCell(bid, base, tick)) == Some(file)
    requires Inverts(read, client.writeBoc)
    ensures read(file).Some?
    ensures var clock, body := client.clock(tick + 8), Messages.Decode(read(file).value.data);
            && body == Some(Messages.BidBody(QueryId(clock), client.KeyAt(base + 1), bid.electTime,
                                             bid.maxFactor, client.KeyAt(base + 4)))
            && (clock <= MAX_I32 ==> body.value.queryId == clock)
    ensures SignedBid(read(file).value, bid.wallet, client.Script(bid, base, tick)[7], client.verify)
  {
    var clock := client.clock(tick + 8);
    var id := QueryId(clock);
    assert clock <= MAX_I32 ==> id == clock;
    hide QueryId;
    Messages.BodyDecodes(id, client.KeyAt(base + 1), bid.electTime, bid.maxFactor, client.KeyAt(base + 4));
    client.AddressLines(bid, base, tick);
    hide Messages.Encode, Messages.Decode, ControlClient.Script, ControlClient.KeyAt, Progress;
    assert read(file) == Some(client.BodyCell(bid, base, tick));
  }

  /** And whoever reads the file of a recovery back finds a recovery query with the reading of the clock. */
  lemma RecoverFileReadsBack(write: Cell -> Option<Bytes>, clock: nat, file: Bytes, read: Bytes -> Option<Cell>)
    requires write(Cell(Messages.Encode(Messages.RecoverStake(QueryId(clock))), [])) == Some(file)
    requires Inverts(read, write)
    ensures read(file).Some? && read(file).value.refs == []
    ensures var query := Messages.Decode(read(file).value.data);
            && query == Some(Messages.RecoverStake(QueryId(clock)))
            && (clock <= MAX_I32 ==> query.value.queryId == clock)
  {
    var id := QueryId(clock);
    assert clock <= MAX_I32 ==> id == clock;
    hide QueryId, Messages.Encode, Messages.Decode;
    Messages.RecoverDecodes(id);
    assert read(file) == Some(Cell(Messages.Encode(Messages.RecoverStake(id)), []));
  }
}
