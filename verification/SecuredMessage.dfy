/** The secured message format: `encode_msg` and `decode_msg` of a session. */
module SecuredMessage {
  import opened Bytes
  import opened Aead

  const SENDER_BUFFER_SIZE: nat := 4160
  const RECEIVER_BUFFER_SIZE: nat := 4160

  /** Key, salt and counter of one direction. */
  datatype SecretParam = SecretParam(key: bytes, salt: bytes, seqNum: nat) {
    ghost predicate Valid() {
      |salt| == IV_SIZE && seqNum <= U64_MAX
    }
  }

  /** What frames a session's messages: its id and the number of counter bytes sent. */
  datatype Framing = Framing(sessionId: nat, seqCount: nat) {
    ghost predicate Valid() {
      sessionId < 0x1_0000_0000 && seqCount <= 8
    }

    function AadSize(): nat {
      6 + seqCount
    }
  }

  datatype Encoded = Encoded(query: Query, wire: bytes)

  /** The salt with the counter XORed into its first eight bytes. */
  function Iv(salt: bytes, n: nat): (iv: bytes)
    requires |salt| == IV_SIZE
    ensures |iv| == IV_SIZE
  {
    seq(IV_SIZE, i requires 0 <= i < IV_SIZE => if i < 8 then Xor(salt[i], ByteAt(n, i)) else salt[i])
  }

  function Aad(f: Framing, n: nat, length: nat): (a: bytes)
    ensures |a| == f.AadSize()
  {
    Le(f.sessionId, 4) + Le(n, f.seqCount) + Le(length, 2)
  }

  function Plain(app: bytes): bytes {
    Le(|app|, 2) + app
  }

  /** The encryption that sending `app` at the current counter asks for. */
  function QueryFor(f: Framing, p: SecretParam, app: bytes): Query
    requires p.Valid()
  {
    Query(p.key, Iv(p.salt, p.seqNum), Aad(f, p.seqNum, |app| + 2 + TAG_SIZE), Plain(app))
  }

  /** The encryption `encode_msg` asks for, or the reason it gives up before. */
  function Prepare(f: Framing, p: SecretParam, app: bytes, capacity: nat): (r: Outcome<Query>)
    requires f.Valid() && p.Valid()
  {
    if (|app| + 2) % 0x1_0000 + TAG_SIZE > 0xFFFF then Abort
    else if p.seqNum == U64_MAX then Err(SequenceNumberOverflow)
    else if |app| + 2 > SENDER_BUFFER_SIZE || f.AadSize() + |app| + 2 > capacity then Abort
    else Ok(QueryFor(f, p, app))
  }

  /** `encode_msg` into a buffer of `capacity` bytes. */
  function Encode(f: Framing, c: Cipher, p: SecretParam, app: bytes, capacity: nat): (r: Outcome<Encoded>)
    requires f.Valid() && p.Valid()
  {
    var q :- Prepare(f, p, app, capacity);
    match c.seal(q)
    case None => Err(CryptoError)
    case Some(sealed) =>
      if f.AadSize() + |app| + 2 + TAG_SIZE > capacity then Abort
      else Ok(Encoded(q, q.aad + sealed.cipher + sealed.tag))
  }

  /** The encryption an attempt makes, whether or not a message comes out of it. */
  function Attempted(f: Framing, c: Cipher, p: SecretParam, app: bytes, capacity: nat): Option<Query>
    requires f.Valid() && p.Valid()
  {
    match Prepare(f, p, app, capacity)
    case Ok(q) => if c.seal(q).Some? then Some(q) else None
    case _ => None
  }

  /** Only an attempt that succeeds, or panics for want of room for the tag, encrypts. */
  lemma AttemptedIff(f: Framing, c: Cipher, p: SecretParam, app: bytes, capacity: nat)
    requires f.Valid() && p.Valid() && c.Correct()
    ensures var e, q := Encode(f, c, p, app, capacity), Attempted(f, c, p, app, capacity);
            && (e.Ok? ==> q == Some(e.value.query))
            && (e.Err? ==> q == None)
            && (q.Some? ==> q.value == QueryFor(f, p, app) && p.seqNum < U64_MAX && |app| + 2 <= SENDER_BUFFER_SIZE)
            && (e.Abort? && q.Some? <==>
                  && p.seqNum < 0xFFFF_FFFF_FFFF_FFFF && |app| + 2 <= 4160 && c.seal(QueryFor(f, p, app)).Some?
                  && 6 + f.seqCount + |app| + 2 <= capacity < 6 + f.seqCount + |app| + 2 + 16)
  {
  }

  datatype Parsed = Parsed(aad: bytes, sealed: Sealed)

  /** The clear part of a received message: session id, counter bytes, and a length that must fit. */
  function Parse(f: Framing, n: nat, wire: bytes): (r: Outcome<Parsed>)
    requires f.Valid()
  {
    var a := f.AadSize();
    if |wire| < a || wire[..4] != Le(f.sessionId, 4) || wire[4..a - 2] != Le(n, f.seqCount) then Err(DecodeAeadFail)
    else
      var length := FromLe(wire[a - 2..a]);
      if |wire| < length + a || length < TAG_SIZE then Err(DecodeAeadFail)
      else if length - TAG_SIZE > RECEIVER_BUFFER_SIZE then Abort
      else Ok(Parsed(wire[..a], Sealed(wire[a..a + length - TAG_SIZE], wire[a + length - TAG_SIZE..a + length])))
  }

  /** `decode_msg` into a buffer of `capacity` bytes. */
  function Decode(f: Framing, c: Cipher, log: set<Query>, p: SecretParam, wire: bytes, capacity: nat): (r: Outcome<bytes>)
    requires f.Valid() && p.Valid()
  {
    if p.seqNum == U64_MAX then Err(SequenceNumberOverflow)
    else
      var parsed :- Parse(f, p.seqNum, wire);
      var plain :- c.Decrypt(log, p.key, Iv(p.salt, p.seqNum), parsed.aad, parsed.sealed);
      Payload(plain, capacity)
  }

  /** The message inside a decrypted text: its first two bytes say how long it is. */
  function Payload(plain: bytes, capacity: nat): (r: Outcome<bytes>) {
    if |plain| < 2 || |plain| < FromLe(plain[..2]) + 2 then Err(DecodeAeadFail)
    else if FromLe(plain[..2]) > capacity then Abort
    else Ok(plain[2..2 + FromLe(plain[..2])])
  }

  /** Different counters give different nonces under one salt. */
  lemma IvInjective(salt: bytes, m: nat, n: nat)
    requires |salt| == IV_SIZE && m <= U64_MAX && n <= U64_MAX
    requires Iv(salt, m) == Iv(salt, n)
    ensures m == n
  {
    forall i: nat | i < 8
      ensures Le(m, 8)[i] == Le(n, 8)[i]
    {
      assert Iv(salt, m)[i] == Iv(salt, n)[i];
      XorCancels(salt[i], ByteAt(m, i));
      XorCancels(salt[i], ByteAt(n, i));
    }
    Pow256Values();
    LeInjective(m, n, 8);
  }

  /** The nonce, bit by bit: the counter XORed into the first eight bytes of the salt, least significant byte
      first; the other four bytes are the salt's. */
  lemma NonceMeans(salt: bytes, n: nat, i: nat, j: nat)
    requires |salt| == 12 && i < 12 && j < 8
    ensures |Iv(salt, n)| == 12
    ensures i < 8 ==> Iv(salt, n)[i] / Pow2(j) % 2 == (salt[i] / Pow2(j) + n / Pow256(i) % 256 / Pow2(j)) % 2
    ensures i >= 8 ==> Iv(salt, n)[i] == salt[i]
  {
    if i < 8 {
      ByteAtIs(n, i);
      XorBitwise(salt[i], ByteAt(n, i), j);
    }
  }

  /** A sent message, byte by byte: session id, counter bytes, length, cipher text, tag; under the key of the
      direction, with all that precedes the cipher text as associated data. */
  lemma WireMeans(f: Framing, c: Cipher, p: SecretParam, app: bytes, capacity: nat)
    requires f.Valid() && p.Valid() && c.Correct() && Encode(f, c, p, app, capacity).Ok?
    ensures var e, k := Encode(f, c, p, app, capacity).value, 4 + f.seqCount;
            && |e.wire| == k + 2 + |app| + 2 + 16
            && FromLe(e.wire[..4]) == f.sessionId
            && (forall i :: 0 <= i < f.seqCount ==> e.wire[4 + i] == p.seqNum / Pow256(i) % 256)
            && FromLe(e.wire[k..k + 2]) == |app| + 2 + 16
            && c.seal(e.query) == Some(Sealed(e.wire[k + 2..k + 2 + |app| + 2], e.wire[k + 2 + |app| + 2..]))
            && e.query.key == p.key && e.query.aad == e.wire[..k + 2]
            && |e.query.plain| == 2 + |app| && FromLe(e.query.plain[..2]) == |app| && e.query.plain[2..] == app
  {
    var e, k := Encode(f, c, p, app, capacity).value, 4 + f.seqCount;
    EncodeSucceeds(f, c, p, app, capacity);
    AadReads(f, p.seqNum, |app| + 2 + 16);
    var sealed := c.seal(e.query).value;
    PartsOf(e.query.aad, sealed.cipher, sealed.tag, []);
    assert e.wire == e.query.aad + sealed.cipher + sealed.tag + [];
    assert forall i :: 0 <= i < k + 2 ==> e.wire[i] == e.query.aad[i];
    assert e.wire[..4] == e.query.aad[..4] && e.wire[k..k + 2] == e.query.aad[k..k + 2];
    Pow256Values();
    FromLeOfLe(|app|, 2);
  }

  lemma AadReads(f: Framing, n: nat, length: nat)
    requires f.Valid() && length < 0x1_0000
    ensures var a, k := Aad(f, n, length), 4 + f.seqCount;
            && |a| == k + 2 && FromLe(a[..4]) == f.sessionId && FromLe(a[k..k + 2]) == length
            && (forall i :: 0 <= i < f.seqCount ==> a[4 + i] == n / Pow256(i) % 256)
  {
    var a, k := Aad(f, n, length), 4 + f.seqCount;
    Pow256Values();
    FromLeOfLe(f.sessionId, 4);
    FromLeOfLe(length, 2);
    assert a[..4] == Le(f.sessionId, 4) && a[k..k + 2] == Le(length, 2);
    forall i | 0 <= i < f.seqCount
      ensures a[4 + i] == n / Pow256(i) % 256
    {
      assert a[4 + i] == Le(n, f.seqCount)[i];
      LeAt(n, f.seqCount, i);
    }
  }

  /** What a receiver makes of any bytes before it decrypts. */
  lemma ParseMeans(f: Framing, n: nat, wire: bytes)
    requires f.Valid()
    ensures var k := 4 + f.seqCount;
            var well := |wire| >= k + 2 && wire[..4] == Le(f.sessionId, 4) && wire[4..k] == Le(n, f.seqCount)
                        && 16 <= FromLe(wire[k..k + 2]) <= |wire| - k - 2;
            && (!well ==> Parse(f, n, wire) == Err(DecodeAeadFail))
            && (well ==> var length := FromLe(wire[k..k + 2]);
                         if length > 4160 + 16 then Parse(f, n, wire) == Abort
                         else Parse(f, n, wire) == Ok(Parsed(wire[..k + 2], Sealed(wire[k + 2..k + 2 + length - 16],
                                                                                  wire[k + 2 + length - 16..k + 2 + length]))))
  {
  }

  /** What a receiver makes of what it decrypted: two bytes say how long the message is; more than is there is
      an error, more than the caller has room for a panic. */
  lemma PayloadMeans(plain: bytes, capacity: nat)
    ensures Payload(plain, capacity) ==
            if |plain| < 2 || |plain| - 2 < plain[0] + 256 * (plain[1] as nat) then Err(DecodeAeadFail)
            else if plain[0] + 256 * (plain[1] as nat) > capacity then Abort
            else Ok(plain[2..2 + plain[0] + 256 * (plain[1] as nat)])
  {
    if |plain| >= 2 {
      assert plain[..2][1..] == [plain[1]] && FromLe([plain[1]]) == plain[1] + 256 * FromLe([]);
    }
  }

  /** Decoding: the counter must not be exhausted, the clear part must be well formed, the cipher must open it
      to something it sealed, and the message must fit. */
  lemma DecodeMeans(f: Framing, c: Cipher, log: set<Query>, p: SecretParam, wire: bytes, capacity: nat)
    requires f.Valid() && p.Valid()
    ensures var parsed, d := Parse(f, p.seqNum, wire), Decode(f, c, log, p, wire, capacity);
            if p.seqNum == 0xFFFF_FFFF_FFFF_FFFF then d == Err(SequenceNumberOverflow)
            else if !parsed.Ok? then d == parsed.PropagateFailure()
            else
              var aad, sealed := parsed.value.aad, parsed.value.sealed;
              var plain := c.open(p.key, Iv(p.salt, p.seqNum), aad, sealed);
              if plain.None? || Query(p.key, Iv(p.salt, p.seqNum), aad, plain.value) !in log
                 || c.seal(Query(p.key, Iv(p.salt, p.seqNum), aad, plain.value)) != Some(sealed)
              then d == Err(CryptoError)
              else d == Payload(plain.value, capacity)
  {
  }

  lemma PlainReadsBack(app: bytes, capacity: nat)
    requires |app| < 0x1_0000
    ensures Payload(Plain(app), capacity) == if |app| <= capacity then Ok(app) else Abort
  {
    Pow256Values();
    FromLeOfLe(|app|, 2);
    assert Plain(app)[..2] == Le(|app|, 2) && Plain(app)[2..2 + |app|] == app;
  }

  /** When encoding cannot fail: the message fits, the counter is not exhausted, the cipher works. */
  lemma EncodeSucceeds(f: Framing, c: Cipher, p: SecretParam, app: bytes, capacity: nat)
    requires f.Valid() && p.Valid() && c.Correct()
    ensures Encode(f, c, p, app, capacity).Ok? <==>
            && p.seqNum < 0xFFFF_FFFF_FFFF_FFFF
            && |app| + 2 <= 4160
            && 6 + f.seqCount + |app| + 2 + 16 <= capacity
            && c.seal(QueryFor(f, p, app)).Some?
    ensures Encode(f, c, p, app, capacity).Ok? ==>
            |Encode(f, c, p, app, capacity).value.wire| == 6 + f.seqCount + |app| + 2 + 16
  {
  }

  /** The other outcomes: an exhausted counter and a failing cipher are errors, a message that does not fit
      a panic. */
  lemma EncodeFails(f: Framing, c: Cipher, p: SecretParam, app: bytes, capacity: nat)
    requires f.Valid() && p.Valid() && c.Correct() && |app| + 2 + 16 <= 0xFFFF
    ensures p.seqNum == 0xFFFF_FFFF_FFFF_FFFF <==> Encode(f, c, p, app, capacity) == Err(SequenceNumberOverflow)
    ensures Encode(f, c, p, app, capacity) == Err(CryptoError) <==>
            && p.seqNum < 0xFFFF_FFFF_FFFF_FFFF && |app| + 2 <= 4160 && 6 + f.seqCount + |app| + 2 <= capacity
            && c.seal(QueryFor(f, p, app)).None?
    ensures Encode(f, c, p, app, capacity).Err? ==> Encode(f, c, p, app, capacity).status in {SequenceNumberOverflow, CryptoError}
  {
  }

  /** Parsing undoes assembling, whatever bytes follow. */
  lemma ParseOfWire(f: Framing, n: nat, length: nat, sealed: Sealed, pad: bytes)
    requires f.Valid() && TAG_SIZE <= length <= RECEIVER_BUFFER_SIZE + TAG_SIZE
    requires |sealed.cipher| == length - TAG_SIZE && |sealed.tag| == TAG_SIZE
    ensures Parse(f, n, Aad(f, n, length) + sealed.cipher + sealed.tag + pad) == Ok(Parsed(Aad(f, n, length), sealed))
  {
    var id, counter, len := Le(f.sessionId, 4), Le(n, f.seqCount), Le(length, 2);
    var wire := Aad(f, n, length) + sealed.cipher + sealed.tag + pad;
    PartsOf(Aad(f, n, length), sealed.cipher, sealed.tag, pad);
    PartsOf(id, counter, len, sealed.cipher + sealed.tag + pad);
    assert wire == id + counter + len + (sealed.cipher + sealed.tag + pad);
    Pow256Values();
    FromLeOfLe(length, 2);
  }

  /** Decoding what the peer encoded at the same counter returns the message, whatever bytes follow it. */
  lemma DecodeOfEncode(f: Framing, c: Cipher, log: set<Query>, p: SecretParam, app: bytes, sent: nat, pad: bytes, received: nat)
    requires f.Valid() && p.Valid() && c.Correct()
    requires Encode(f, c, p, app, sent).Ok?
    requires Encode(f, c, p, app, sent).value.query in log
    requires |app| <= received
    ensures Decode(f, c, log, p, Encode(f, c, p, app, sent).value.wire + pad, received) == Ok(app)
  {
    var q := QueryFor(f, p, app);
    ParseOfWire(f, p.seqNum, |app| + 2 + TAG_SIZE, c.seal(q).value, pad);
    DecryptLogged(c, log, q);
    PlainReadsBack(app, received);
  }

  /** More logged encryptions do not take an accepted message back. */
  lemma DecodeMonotone(f: Framing, c: Cipher, log: set<Query>, more: set<Query>, p: SecretParam, wire: bytes, capacity: nat)
    requires f.Valid() && p.Valid() && log <= more && Decode(f, c, log, p, wire, capacity).Ok?
    ensures Decode(f, c, more, p, wire, capacity) == Decode(f, c, log, p, wire, capacity)
  {
  }

  /** Whatever decoding accepts is the payload of a logged encryption under this key and nonce. */
  lemma DecodeAuthentic(f: Framing, c: Cipher, log: set<Query>, p: SecretParam, wire: bytes, capacity: nat)
    returns (q: Query)
    requires f.Valid() && p.Valid()
    requires Decode(f, c, log, p, wire, capacity).Ok?
    ensures q in log && q.key == p.key && q.iv == Iv(p.salt, p.seqNum)
    ensures Payload(q.plain, capacity) == Decode(f, c, log, p, wire, capacity)
    ensures p.seqNum < U64_MAX
  {
    var parsed := Parse(f, p.seqNum, wire).value;
    var plain := c.Decrypt(log, p.key, Iv(p.salt, p.seqNum), parsed.aad, parsed.sealed).value;
    q := Query(p.key, Iv(p.salt, p.seqNum), parsed.aad, plain);
  }
}
