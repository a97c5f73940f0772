/** The three byte layouts the console builds: the stake recovery query, the bid that is signed, and
    the body of the signed bid. */
module Messages {
  import opened Wrappers
  import opened Octets

  const RECOVER_TAG: U32 := 0x47657424
  const BID_TAG: U32 := 0x654C5074
  const BODY_TAG: U32 := 0x4E73744B

  datatype Message =
    | RecoverStake(queryId: U64)
    | BidToSign(electTime: I32, maxFactor: U32, wallet: Bytes, adnl: Key)
    | BidBody(queryId: U64, pubKey: Key, electTime: I32, maxFactor: U32, adnl: Key)

  function Be32(x: U32): (b: Bytes)
    ensures |b| == 4
  {
    ToBigEndian(x, 4)
  }

  function BeI32(x: I32): (b: Bytes)
    ensures |b| == 4
  {
    Be32(Unsigned32(x))
  }

  function Be64(x: U64): (b: Bytes)
    ensures |b| == 8
  {
    ToBigEndian(x, 8)
  }

  /** The wallet id has whatever length its hexadecimal text had. */
  function Encode(m: Message): Bytes {
    match m
    case RecoverStake(q) => Be32(RECOVER_TAG) + Be64(q)
    case BidToSign(e, f, w, a) => Be32(BID_TAG) + BeI32(e) + Be32(f) + w + a
    case BidBody(q, p, e, f, a) => Be32(BODY_TAG) + Be64(q) + p + BeI32(e) + Be32(f) + a
  }

  function Get32(b: Bytes): U32
    requires |b| == 4
  {
    EncodesBigEndian(b);
    Widths();
    FromBigEndian(b)
  }

  function Get64(b: Bytes): U64
    requires |b| == 8
  {
    EncodesBigEndian(b);
    Widths();
    FromBigEndian(b)
  }

  /** The tags as they stand in the first four bytes. */
  lemma TagBytes(m: Message)
    ensures Encode(m)[..4] ==
            match m
            case RecoverStake(_) => [0x47, 0x65, 0x74, 0x24]
            case BidToSign(_, _, _, _) => [0x65, 0x4C, 0x50, 0x74]
            case BidBody(_, _, _, _, _) => [0x4E, 0x73, 0x74, 0x4B]
  {
    TagSplit(0x47, 0x65, 0x74, 0x24);
    TagSplit(0x65, 0x4C, 0x50, 0x74);
    TagSplit(0x4E, 0x73, 0x74, 0x4B);
    hide ToBigEndian;
  }

  lemma TagSplit(a: Octet, b: Octet, c: Octet, d: Octet)
    ensures ToBigEndian(((a * 256 + b) * 256 + c) * 256 + d, 4) == [a, b, c, d]
  {
    ToAppended(0, a, 0);
    ToAppended(a, b, 1);
    ToAppended(a * 256 + b, c, 2);
    ToAppended((a * 256 + b) * 256 + c, d, 3);
    assert ToBigEndian(0, 0) == [];
    hide ToBigEndian;
  }

  lemma NumberBytes(x: U32, y: U64)
    ensures FromBigEndian(Be32(x)) == x && FromBigEndian(Be64(y)) == y
  {
    Widths();
    DecodesBigEndian(x, 4);
    DecodesBigEndian(y, 8);
  }

  /** Where the fields stand, all numbers big-endian: the recovery query, */
  lemma RecoverLayout(q: U64)
    ensures var b := Encode(RecoverStake(q)); |b| == 12 && FromBigEndian(b[4..]) == q
  {
    NumberBytes(0, q);
    assert Encode(RecoverStake(q))[4..] == Be64(q);
  }

  /** the bid that is signed, */
  lemma BidLayout(e: I32, f: U32, w: Bytes, a: Key)
    ensures var b := Encode(BidToSign(e, f, w, a));
            && |b| == 44 + |w|
            && FromBigEndian(b[4..8]) == Unsigned32(e) && FromBigEndian(b[8..12]) == f
            && b[12..12 + |w|] == w && b[12 + |w|..] == a
  {
    NumberBytes(Unsigned32(e), 0);
    NumberBytes(f, 0);
    hide Be32, FromBigEndian;
    var b := Encode(BidToSign(e, f, w, a));
    assert b[4..8] == BeI32(e) && b[8..12] == Be32(f);
  }

  /** and the body of the signed bid. */
  lemma BodyLayout(q: U64, p: Key, e: I32, f: U32, a: Key)
    ensures var b := Encode(BidBody(q, p, e, f, a));
            && |b| == 84
            && FromBigEndian(b[4..12]) == q && b[12..44] == p
            && FromBigEndian(b[44..48]) == Unsigned32(e) && FromBigEndian(b[48..52]) == f && b[52..] == a
  {
    NumberBytes(Unsigned32(e), q);
    NumberBytes(f, q);
    hide Be32, Be64, FromBigEndian;
    var b := Encode(BidBody(q, p, e, f, a));
    assert b[4..12] == Be64(q) && b[44..48] == BeI32(e) && b[48..52] == Be32(f);
  }

  /** Reads a message back; the wallet id is what lies between the fixed prefix and the last 32
      bytes. */
  function Decode(b: Bytes): Option<Message> {
    if |b| < 4 then None
    else
      var tag := Get32(b[..4]);
      if tag == RECOVER_TAG && |b| == 12 then Some(RecoverStake(Get64(b[4..])))
      else if tag == BID_TAG && |b| >= 44 then
        Some(BidToSign(Signed32(Get32(b[4..8])), Get32(b[8..12]), b[12..|b| - 32], b[|b| - 32..]))
      else if tag == BODY_TAG && |b| == 84 then
        Some(BidBody(Get64(b[4..12]), b[12..44], Signed32(Get32(b[44..48])), Get32(b[48..52]), b[52..]))
      else None
  }

  lemma Get32Of(x: U32)
    ensures Get32(Be32(x)) == x
  {
    Widths();
    DecodesBigEndian(x, 4);
  }

  lemma Get64Of(x: U64)
    ensures Get64(Be64(x)) == x
  {
    Widths();
    DecodesBigEndian(x, 8);
  }

  lemma Be32Of(b: Bytes)
    requires |b| == 4
    ensures Be32(Get32(b)) == b
    ensures BeI32(Signed32(Get32(b))) == b
  {
    EncodesBigEndian(b);
  }

  lemma Be64Of(b: Bytes)
    requires |b| == 8
    ensures Be64(Get64(b)) == b
  {
    EncodesBigEndian(b);
  }

  lemma RecoverDecodes(q: U64)
    ensures Decode(Encode(RecoverStake(q))) == Some(RecoverStake(q))
  {
    var b := Encode(RecoverStake(q));
    Get32Of(RECOVER_TAG);
    Get64Of(q);
    assert b[..4] == Be32(RECOVER_TAG) && b[4..] == Be64(q);
  }

  lemma BidDecodes(e: I32, f: U32, w: Bytes, a: Key)
    ensures Decode(Encode(BidToSign(e, f, w, a))) == Some(BidToSign(e, f, w, a))
  {
    var b := Encode(BidToSign(e, f, w, a));
    Get32Of(BID_TAG);
    Get32Of(Unsigned32(e));
    Get32Of(f);
    assert b[..4] == Be32(BID_TAG) && b[4..8] == BeI32(e) && b[8..12] == Be32(f);
    assert b[12..|b| - 32] == w && b[|b| - 32..] == a;
  }

  lemma BodyDecodes(q: U64, p: Key, e: I32, f: U32, a: Key)
    ensures Decode(Encode(BidBody(q, p, e, f, a))) == Some(BidBody(q, p, e, f, a))
  {
    var b := Encode(BidBody(q, p, e, f, a));
    Get32Of(BODY_TAG);
    Get64Of(q);
    Get32Of(Unsigned32(e));
    Get32Of(f);
    assert b[..4] == Be32(BODY_TAG) && b[4..12] == Be64(q) && b[12..44] == p;
    assert b[44..48] == BeI32(e) && b[48..52] == Be32(f) && b[52..] == a;
  }

  lemma BidEncodes(b: Bytes)
    requires Decode(b).Some? && Decode(b).value.BidToSign?
    ensures Encode(Decode(b).value) == b
  {
    Be32Of(b[..4]);
    Be32Of(b[4..8]);
    Be32Of(b[8..12]);
    assert b == b[..4] + b[4..8] + b[8..12] + b[12..|b| - 32] + b[|b| - 32..];
  }

  lemma BodyEncodes(b: Bytes)
    requires Decode(b).Some? && Decode(b).value.BidBody?
    ensures Encode(Decode(b).value) == b
  {
    Be32Of(b[..4]);
    Be64Of(b[4..12]);
    Be32Of(b[44..48]);
    Be32Of(b[48..52]);
    assert b == b[..4] + b[4..12] + b[12..44] + b[44..48] + b[48..52] + b[52..];
  }

  lemma DecodedEncodes(b: Bytes)
    requires Decode(b).Some?
    ensures Encode(Decode(b).value) == b
  {
    match Decode(b).value
    case RecoverStake(q) =>
      Be32Of(b[..4]);
      Be64Of(b[4..]);
      assert b == b[..4] + b[4..];
    case BidToSign(e, f, w, a) => BidEncodes(b);
    case BidBody(q, p, e, f, a) => BodyEncodes(b);
  }

  /** Encoding and decoding are inverse in both directions, over all three layouts at once. */
  lemma DecodeExact(b: Bytes, m: Message)
    ensures Decode(b) == Some(m) <==> Encode(m) == b
  {
    if Decode(b) == Some(m) {
      DecodedEncodes(b);
    }
    match m
    case RecoverStake(q) => RecoverDecodes(q);
    case BidToSign(e, f, w, a) => BidDecodes(e, f, w, a);
    case BidBody(q, p, e, f, a) => BodyDecodes(q, p, e, f, a);
  }

  /** Joint unique decodability: no two messages, of the same kind or of different kinds and with
      wallet ids of any length, share their bytes. */
  lemma UniquelyDecodable(m1: Message, m2: Message)
    ensures Encode(m1) == Encode(m2) <==> m1 == m2
  {
    DecodeExact(Encode(m1), m1);
    DecodeExact(Encode(m2), m2);
  }
}
