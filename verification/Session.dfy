/** `SpdmSession`: the secrets of the two directions, the two-phase key update, and the secured
    message operations. The value type `Session` is the state; the class updates it in place. */
module Session {
  import opened Bytes
  import opened Codec
  import opened Aead
  import opened SecuredMessage

  datatype SessionState = NotStarted | Handshaking | Established | Unknown(value: byte)

  /** The data secret of one direction with the key, salt and counter derived from it. */
  datatype Lane = Lane(secret: bytes, param: SecretParam)

  datatype Pair<T> = Pair(request: T, response: T) {
    function Get(isRequester: bool): T {
      if isRequester then request else response
    }

    function Set(isRequester: bool, t: T): Pair<T> {
      if isRequester then Pair(t, response) else Pair(request, t)
    }
  }

  const DEFAULT_LANE: Lane := Lane([], SecretParam([], [0, 0, 0, 0, 0, 0, 0, 0, 0, 0, 0, 0], 0))

  /** The two derivations of a key update, for a fixed version, hash and AEAD algorithm. */
  datatype KeySchedule = KeySchedule(update: bytes -> Option<bytes>, keyIv: bytes -> Option<(bytes, bytes)>) {
    ghost predicate Valid() {
      forall s {:trigger keyIv(s)} :: keyIv(s).Some? ==> |keyIv(s).value.1| == IV_SIZE
    }
  }

  datatype Session = Session(framing: Framing, state: SessionState, handshake: Pair<SecretParam>,
                             app: Pair<Lane>, backup: Pair<Lane>)
  {
    ghost predicate Valid() {
      && framing.Valid()
      && handshake.request.Valid() && handshake.response.Valid()
      && app.request.param.Valid() && app.response.param.Valid()
      && backup.request.param.Valid() && backup.response.param.Valid()
    }

    predicate Live() {
      state.Handshaking? || state.Established?
    }

    /** The key material the current state uses for one direction. */
    function Param(isRequester: bool): SecretParam {
      if state.Handshaking? then handshake.Get(isRequester) else app.Get(isRequester).param
    }

    function WithParam(isRequester: bool, p: SecretParam): Session {
      if state.Handshaking? then this.(handshake := handshake.Set(isRequester, p))
      else this.(app := app.Set(isRequester, app.Get(isRequester).(param := p)))
    }

    /** Both `encode` and `decode` count the attempt, successful or not; counting past the last
        value of a `u64` panics. */
    predicate CanTick(isRequester: bool) {
      Param(isRequester).seqNum < U64_MAX
    }

    function Tick(isRequester: bool): Session {
      var p := Param(isRequester);
      WithParam(isRequester, p.(seqNum := p.seqNum + 1))
    }

    /** `encode_spdm_secured_message`: the outcome and the state left behind. */
    function EncodeStep(c: Cipher, app: bytes, capacity: nat, isRequester: bool): (Session, Outcome<Encoded>)
      requires Valid()
    {
      match state
      case NotStarted => (this, Err(InvalidStateLocal))
      case Unknown(_) => (this, Abort)
      case _ =>
        var r := SecuredMessage.Encode(framing, c, Param(isRequester), app, capacity);
        if r.Abort? || !CanTick(isRequester) then (this, Abort) else (Tick(isRequester), r)
    }

    /** The encryption that encoding makes, even one that panics afterwards. */
    function EncodeQuery(c: Cipher, app: bytes, capacity: nat, isRequester: bool): Option<Query>
      requires Valid()
    {
      if Live() then Attempted(framing, c, Param(isRequester), app, capacity) else None
    }

    /** `decode_spdm_secured_message`. */
    function DecodeStep(c: Cipher, log: set<Query>, wire: bytes, capacity: nat, isRequester: bool): (Session, Outcome<bytes>)
      requires Valid()
    {
      if !Live() then (this, Err(InvalidStateLocal))
      else
        var r := SecuredMessage.Decode(framing, c, log, Param(isRequester), wire, capacity);
        if r.Abort? || !CanTick(isRequester) then (this, Abort) else (Tick(isRequester), r)
    }

    /** `create_data_secret_update`: the request direction first; an error leaves the rest undone. */
    function CreateStep(k: KeySchedule, requester: bool, responder: bool): (Session, Outcome<()>) {
      var first := if requester then CreateOne(k, true) else (this, true);
      if !first.1 then (first.0, Err(CryptoError))
      else
        var second := if responder then first.0.CreateOne(k, false) else first;
        (second.0, if second.1 then Ok(()) else Err(CryptoError))
    }

    function CreateOne(k: KeySchedule, isRequester: bool): (Session, bool) {
      var next := NextLane(k, app.Get(isRequester));
      (this.(backup := backup.Set(isRequester, app.Get(isRequester)), app := app.Set(isRequester, next.0)), next.1)
    }

    /** `activate_data_secret_update`: restore the backup, or forget it. */
    function ActivateStep(requester: bool, responder: bool, useNewKey: bool): Session {
      var s := if requester then ActivateOne(true, useNewKey) else this;
      if responder then s.ActivateOne(false, useNewKey) else s
    }

    function ActivateOne(isRequester: bool, useNewKey: bool): Session {
      if useNewKey then this.(backup := backup.Set(isRequester, DEFAULT_LANE))
      else this.(app := app.Set(isRequester, backup.Get(isRequester)))
    }
  }

  function Set<T>(o: Option<T>): set<T> {
    if o.Some? then {o.value} else {}
  }

  /** The lane after one derivation step, and whether both derivations succeeded. */
  function NextLane(k: KeySchedule, lane: Lane): (Lane, bool) {
    match k.update(lane.secret)
    case None => (lane, false)
    case Some(secret) =>
      match k.keyIv(secret)
      case None => (lane.(secret := secret), false)
      case Some((key, iv)) => (Lane(secret, SecretParam(key, iv, 0)), true)
  }

  /** Outside the handshake and the established state nothing is sent, accepted or counted; an unknown state
      panics the sender. */
  lemma IdleSession(s: Session, c: Cipher, log: set<Query>, b: bytes, n: nat, r: bool)
    requires s.Valid() && s.state != Handshaking && s.state != Established
    ensures s.DecodeStep(c, log, b, n, r) == (s, Err(InvalidStateLocal))
    ensures s.EncodeStep(c, b, n, r) == (s, if s.state == NotStarted then Err(InvalidStateLocal) else Abort)
    ensures s.EncodeQuery(c, b, n, r) == None
  {
  }

  /** Which keys an attempt uses, and what it moves: those of the handshake while it lasts, then those of the
      data phase; one counter by one, of the direction asked for, and nothing else. */
  lemma AttemptMoves(s: Session, c: Cipher, log: set<Query>, b: bytes, n: nat, r: bool)
    requires s.Valid() && (s.state == Handshaking || s.state == Established)
    ensures var p := if s.state == Handshaking then (if r then s.handshake.request else s.handshake.response)
                     else (if r then s.app.request.param else s.app.response.param);
            && s.EncodeStep(c, b, n, r).1 == (if p.seqNum == 0xFFFF_FFFF_FFFF_FFFF then Abort else SecuredMessage.Encode(s.framing, c, p, b, n))
            && s.DecodeStep(c, log, b, n, r).1 == (if p.seqNum == 0xFFFF_FFFF_FFFF_FFFF then Abort else SecuredMessage.Decode(s.framing, c, log, p, b, n))
    ensures !s.EncodeStep(c, b, n, r).1.Abort? ==> Counted(s, r, s.EncodeStep(c, b, n, r).0)
    ensures !s.DecodeStep(c, log, b, n, r).1.Abort? ==> Counted(s, r, s.DecodeStep(c, log, b, n, r).0)
    ensures s.EncodeStep(c, b, n, r).1.Abort? ==> s.EncodeStep(c, b, n, r).0 == s
    ensures s.DecodeStep(c, log, b, n, r).1.Abort? ==> s.DecodeStep(c, log, b, n, r).0 == s
  {
  }

  predicate Counted(s: Session, r: bool, t: Session) {
    if s.state == Handshaking then
      t == s.(handshake := if r then Pair(s.handshake.request.(seqNum := s.handshake.request.seqNum + 1), s.handshake.response)
                           else Pair(s.handshake.request, s.handshake.response.(seqNum := s.handshake.response.seqNum + 1)))
    else
      && t.(app := s.app) == s && t.app.request.secret == s.app.request.secret && t.app.response.secret == s.app.response.secret
      && t.app.request.param == (if r then s.app.request.param.(seqNum := s.app.request.param.seqNum + 1) else s.app.request.param)
      && t.app.response.param == (if r then s.app.response.param else s.app.response.param.(seqNum := s.app.response.param.seqNum + 1))
  }

  /** A key update of both directions and what ends it. */
  lemma UpdateMoves(s: Session, k: KeySchedule)
    ensures var t := s.CreateStep(k, true, true);
            && (t.1.Ok? || t.1 == Err(CryptoError))
            && (t.1.Ok? <==> NextLane(k, s.app.request).1 && NextLane(k, s.app.response).1)
            && (t.1.Ok? ==> && t.0.backup == s.app && t.0.ActivateStep(true, true, false).app == s.app
                            && t.0.app.request.param.seqNum == 0 && t.0.app.response.param.seqNum == 0
                            && k.update(s.app.request.secret) == Some(t.0.app.request.secret)
                            && k.update(s.app.response.secret) == Some(t.0.app.response.secret)
                            && k.keyIv(t.0.app.request.secret) == Some((t.0.app.request.param.key, t.0.app.request.param.salt))
                            && k.keyIv(t.0.app.response.secret) == Some((t.0.app.response.param.key, t.0.app.response.param.salt))
                            && t.0.ActivateStep(true, true, true).app == t.0.app)
            && t.0.handshake == s.handshake && t.0.state == s.state && t.0.framing == s.framing
    ensures var cleared := s.ActivateStep(true, true, true).backup;
            && cleared.request == cleared.response && cleared.request.secret == [] && cleared.request.param.key == []
            && cleared.request.param.salt == seq(12, _ => 0) && cleared.request.param.seqNum == 0
  {
  }

  /** Every step keeps the state well formed. */
  lemma StepsKeepValid(s: Session, c: Cipher, log: set<Query>, k: KeySchedule, b: bytes, n: nat, x: bool, y: bool, z: bool)
    requires s.Valid() && k.Valid()
    ensures s.EncodeStep(c, b, n, x).0.Valid()
    ensures s.DecodeStep(c, log, b, n, x).0.Valid()
    ensures s.CreateStep(k, x, y).0.Valid()
    ensures s.ActivateStep(x, y, z).Valid()
  {
    assert s.CreateOne(k, true).0.Valid();
    assert s.CreateOne(k, false).0.Valid();
    assert s.CreateOne(k, true).0.CreateOne(k, false).0.Valid();
  }

  class SpdmSession {
    var framing: Framing
    var state: SessionState
    var handshake: Pair<SecretParam>
    var app: Pair<Lane>
    var backup: Pair<Lane>

    ghost function View(): Session
      reads this
    {
      Session(framing, state, handshake, app, backup)
    }

    ghost predicate Valid()
      reads this
    {
      View().Valid()
    }

    constructor (view: Session)
      ensures View() == view
    {
      framing, state, handshake := view.framing, view.state, view.handshake;
      app, backup := view.app, view.backup;
    }

    method SetSessionState(state: SessionState)
      modifies this`state
      ensures View() == old(View()).(state := state)
    {
      this.state := state;
    }

    /** The nonce, computed in place on a copy of the salt. */
    method Nonce(p: SecretParam) returns (iv: bytes)
      requires p.Valid()
      ensures iv == Iv(p.salt, p.seqNum)
    {
      var salt := new byte[IV_SIZE](i requires 0 <= i < |p.salt| => p.salt[i]);
      for i := 0 to 8
        invariant forall j :: 0 <= j < i ==> salt[j] == Xor(p.salt[j], ByteAt(p.seqNum, j))
        invariant forall j :: i <= j < IV_SIZE ==> salt[j] == p.salt[j]
      {
        salt[i] := Xor(salt[i], ByteAt(p.seqNum, i));
      }
      iv := salt[..];
    }

    /** The configured number of low counter bytes, one at a time. */
    method WriteCounter(writer: Writer, n: nat)
      requires Valid() && writer.Valid() && writer.base + writer.offs + framing.seqCount <= writer.buf.Length
      modifies writer, writer.buf
      ensures writer.Valid() && writer.offs == old(writer.offs) + framing.seqCount
      ensures writer.buf[..] == old(writer.WithWritten(Le(n, framing.seqCount)))
    {
      ghost var before, start, all := writer.buf[..], writer.base + writer.offs, Le(n, framing.seqCount);
      for i := 0 to framing.seqCount
        invariant writer.Valid() && writer.base + writer.offs == start + i
        invariant writer.buf[..] == Spliced(before, start, all[..i])
      {
        var _ := writer.Push(ByteAt(n, i));
        SpliceNext(before, start, all, i);
      }
      assert all[..framing.seqCount] == all;
    }

    /** The additional data: session id, the configured number of counter bytes, length. */
    method WriteAad(n: nat, length: nat) returns (aad: bytes)
      requires Valid() && length < 0x1_0000
      ensures aad == Aad(framing, n, length)
    {
      var buffer := new byte[14](_ => 0);
      var writer := new Writer(buffer, 0);
      var _ := writer.EncodePushed(framing.sessionId, 4);
      assert buffer[..4] == Le(framing.sessionId, 4);
      WriteCounter(writer, n);
      assert buffer[..4 + framing.seqCount] == Le(framing.sessionId, 4) + Le(n, framing.seqCount);
      var _ := writer.EncodeWhole(length, 2);
      aad := buffer[..writer.offs];
    }

    /** The plain text: the length of the message, then the message, in a fixed buffer. */
    method WritePlain(app: bytes) returns (r: Option<bytes>)
      ensures r == if |app| + 2 <= SENDER_BUFFER_SIZE then Some(Plain(app)) else None
    {
      var buffer := new byte[SENDER_BUFFER_SIZE](_ => 0);
      var writer := new Writer(buffer, 0);
      var ok := writer.EncodeWhole(|app|, 2);
      assert buffer[..2] == Le(|app|, 2);
      if 2 + |app| > buffer.Length {
        return None;
      }
      CopyInto(buffer, 2, app);
      r := Some(buffer[..2 + |app|]);
    }

    /** Cipher text, then additional data, then tag are copied to their places. */
    method Assemble(secured: array<byte>, aad: bytes, sealed: Sealed)
      requires |aad| + |sealed.cipher| + |sealed.tag| <= secured.Length
      modifies secured
      ensures secured[..] == Spliced(old(secured[..]), 0, aad + sealed.cipher + sealed.tag)
    {
      ghost var before := secured[..];
      CopyInto(secured, |aad|, sealed.cipher);
      CopyInto(secured, 0, aad);
      CopyInto(secured, |aad| + |sealed.cipher|, sealed.tag);
      SpliceThree(before, aad, sealed.cipher, sealed.tag);
    }

    lemma SplicedParts(before: bytes, s: bytes, after: bytes)
      requires |s| <= |before| && after == Spliced(before, 0, s)
      ensures after[..|s|] == s && after[|s|..] == before[|s|..]
    {
    }

    /** Everything before the encryption: the checks, the additional data, the plain text, the nonce. */
    method PrepareMsg(app: bytes, capacity: nat, p: SecretParam) returns (r: Outcome<Query>)
      requires Valid() && p.Valid()
      ensures r == Prepare(framing, p, app, capacity)
    {
      var cipherTextSize := |app| + 2;
      if cipherTextSize % 0x1_0000 + TAG_SIZE > 0xFFFF {
        return Abort;
      }
      if p.seqNum == U64_MAX {
        return Err(SequenceNumberOverflow);
      }
      var aad := WriteAad(p.seqNum, cipherTextSize % 0x1_0000 + TAG_SIZE);
      var plain := WritePlain(app);
      if plain.None? || |aad| + cipherTextSize > capacity {
        return Abort;
      }
      var iv := Nonce(p);
      r := Ok(Query(p.key, iv, aad, plain.value));
    }

    method EncodeMsg(backend: Backend, app: bytes, secured: array<byte>, p: SecretParam) returns (r: Outcome<nat>)
      requires Valid() && p.Valid() && backend.cipher.Correct()
      modifies backend, secured
      ensures var e := SecuredMessage.Encode(framing, backend.cipher, p, app, secured.Length);
              if e.Ok? then
                && r == Ok(|e.value.wire|) && |e.value.wire| <= secured.Length && secured[..|e.value.wire|] == e.value.wire
                && secured[|e.value.wire|..] == old(secured[|e.value.wire|..])
              else r == e.PropagateFailure()
      ensures backend.log == old(backend.log) + Set(Attempted(framing, backend.cipher, p, app, secured.Length))
    {
      var q := PrepareMsg(app, secured.Length, p);
      if q.IsFailure() {
        return q.PropagateFailure();
      }
      var sealed := backend.Encrypt(q.value);
      if sealed.IsFailure() {
        return sealed.PropagateFailure();
      }
      if |q.value.aad| + |app| + 2 + TAG_SIZE > secured.Length {
        return Abort;
      }
      Assemble(secured, q.value.aad, sealed.value);
      SplicedParts(old(secured[..]), q.value.aad + sealed.value.cipher + sealed.value.tag, secured[..]);
      r := Ok(|q.value.aad| + |app| + 2 + TAG_SIZE);
    }

    /** Compares the received counter bytes with the expected counter. */
    method ReadCounter(reader: Reader, n: nat) returns (ok: bool)
      requires Valid() && reader.Valid() && reader.offs == 4
      modifies reader
      ensures reader.Valid()
      ensures ok <==> 4 + framing.seqCount <= |reader.buf| && reader.buf[4..4 + framing.seqCount] == Le(n, framing.seqCount)
      ensures ok ==> reader.offs == 4 + framing.seqCount
    {
      for i := 0 to framing.seqCount
        invariant reader.Valid() && reader.offs == 4 + i
        invariant reader.buf[4..4 + i] == Le(n, framing.seqCount)[..i]
      {
        var s := reader.ReadU8();
        if s.None? {
          return false;
        }
        assert s.value == reader.buf[4 + i];
        if s.value != ByteAt(n, i) {
          assert 4 + framing.seqCount <= |reader.buf| ==> reader.buf[4..4 + framing.seqCount][i] == s.value;
          return false;
        }
        assert reader.buf[4..5 + i] == reader.buf[4..4 + i] + [s.value];
      }
      ok := true;
    }

    /** The checks on the clear part of a received message. */
    method ReadMessage(wire: bytes, n: nat) returns (r: Outcome<Parsed>)
      requires Valid()
      ensures r == Parse(framing, n, wire)
    {
      Pow256Values();
      var reader := new Reader(wire);
      var id := reader.ReadLe(4);
      if id.None? {
        return Err(DecodeAeadFail);
      }
      FromLeOfLe(framing.sessionId, 4);
      LeOfFromLe(wire[..4]);
      if id.value != framing.sessionId {
        return Err(DecodeAeadFail);
      }
      var ok := ReadCounter(reader, n);
      if !ok {
        return Err(DecodeAeadFail);
      }
      var length := reader.ReadLe(2);
      if length.None? {
        return Err(DecodeAeadFail);
      }
      var aadSize := reader.offs;
      if |wire| < length.value + aadSize || length.value < TAG_SIZE {
        return Err(DecodeAeadFail);
      }
      var cipherEnd := aadSize + length.value - TAG_SIZE;
      if cipherEnd - aadSize > RECEIVER_BUFFER_SIZE {
        return Abort;
      }
      r := Ok(Parsed(wire[..aadSize], Sealed(wire[aadSize..cipherEnd], wire[cipherEnd..aadSize + length.value])));
    }

    /** Strips the length field and whatever follows the message in the decrypted text. */
    method TakePayload(plain: bytes, app: array<byte>) returns (r: Outcome<nat>)
      requires |plain| <= RECEIVER_BUFFER_SIZE
      modifies app
      ensures var d := Payload(plain, app.Length);
              && (d.Abort? ==> r == Abort)
              && (d.Err? ==> r == Err(d.status))
              && (d.Ok? ==> r == Ok(|d.value|) && |d.value| <= app.Length && app[..|d.value|] == d.value
                            && app[|d.value|..] == old(app[|d.value|..]))
              && (!d.Ok? ==> unchanged(app))
    {
      var buffer := new byte[RECEIVER_BUFFER_SIZE](_ => 0);
      CopyInto(buffer, 0, plain);
      assert buffer[..|plain|] == plain;
      var reader := new Reader(buffer[..]);
      var appLength := reader.ReadLe(2);
      assert |plain| >= 2 ==> buffer[..][0..2] == plain[..2];
      if |plain| < appLength.value + 2 {
        return Err(DecodeAeadFail);
      }
      if appLength.value > app.Length {
        return Abort;
      }
      assert buffer[2..appLength.value + 2] == plain[2..appLength.value + 2];
      CopyInto(app, 0, buffer[2..appLength.value + 2]);
      r := Ok(appLength.value);
    }

    method DecodeMsg(backend: Backend, wire: bytes, app: array<byte>, p: SecretParam) returns (r: Outcome<nat>)
      requires Valid() && p.Valid() && backend.cipher.Correct()
      modifies app
      ensures var d := SecuredMessage.Decode(framing, backend.cipher, backend.log, p, wire, app.Length);
              && (d.Abort? ==> r == Abort)
              && (d.Err? ==> r == Err(d.status))
              && (d.Ok? ==> r == Ok(|d.value|) && |d.value| <= app.Length && app[..|d.value|] == d.value
                            && app[|d.value|..] == old(app[|d.value|..]))
              && (!d.Ok? ==> unchanged(app))
    {
      if p.seqNum == U64_MAX {
        return Err(SequenceNumberOverflow);
      }
      var parsed := ReadMessage(wire, p.seqNum);
      if parsed.IsFailure() {
        return parsed.PropagateFailure();
      }
      var iv := Nonce(p);
      var plain := backend.Decrypt(p.key, iv, parsed.value.aad, parsed.value.sealed);
      if plain.IsFailure() {
        return plain.PropagateFailure();
      }
      r := TakePayload(plain.value, app);
    }

    method EncodeSpdmSecuredMessage(backend: Backend, app: bytes, secured: array<byte>, isRequester: bool) returns (r: Outcome<nat>)
      requires Valid() && backend.cipher.Correct()
      modifies this`handshake, this`app, backend, secured
      ensures Valid()
      ensures View() == old(View()).EncodeStep(backend.cipher, app, secured.Length, isRequester).0
      ensures var e := old(View()).EncodeStep(backend.cipher, app, secured.Length, isRequester).1;
              if e.Ok? then
                && r == Ok(|e.value.wire|) && |e.value.wire| <= secured.Length && secured[..|e.value.wire|] == e.value.wire
                && secured[|e.value.wire|..] == old(secured[|e.value.wire|..])
              else r == e.PropagateFailure()
      ensures backend.log == old(backend.log) + Set(old(View()).EncodeQuery(backend.cipher, app, secured.Length, isRequester))
    {
      match state
      case NotStarted =>
        r := Err(InvalidStateLocal);
      case Handshaking =>
        r := EncodeMsg(backend, app, secured, handshake.Get(isRequester));
        if r.Abort? || handshake.Get(isRequester).seqNum == U64_MAX {
          return Abort;
        }
        CountHandshake(isRequester);
      case Established =>
        r := EncodeMsg(backend, app, secured, this.app.Get(isRequester).param);
        if r.Abort? || this.app.Get(isRequester).param.seqNum == U64_MAX {
          return Abort;
        }
        CountApplication(isRequester);
      case Unknown(_) =>
        r := Abort;
    }

    method DecodeSpdmSecuredMessage(backend: Backend, wire: bytes, app: array<byte>, isRequester: bool) returns (r: Outcome<nat>)
      requires Valid() && backend.cipher.Correct()
      modifies this`handshake, this`app, app
      ensures Valid()
      ensures View() == old(View()).DecodeStep(backend.cipher, backend.log, wire, app.Length, isRequester).0
      ensures var d := old(View()).DecodeStep(backend.cipher, backend.log, wire, app.Length, isRequester).1;
              && (d.Abort? ==> r == Abort)
              && (d.Err? ==> r == Err(d.status))
              && (d.Ok? ==> r == Ok(|d.value|) && |d.value| <= app.Length && app[..|d.value|] == d.value
                            && app[|d.value|..] == old(app[|d.value|..]))
              && (!d.Ok? ==> unchanged(app))
    {
      match state
      case Handshaking =>
        r := DecodeMsg(backend, wire, app, handshake.Get(isRequester));
        if r.Abort? || handshake.Get(isRequester).seqNum == U64_MAX {
          return Abort;
        }
        CountHandshake(isRequester);
      case Established =>
        r := DecodeMsg(backend, wire, app, this.app.Get(isRequester).param);
        if r.Abort? || this.app.Get(isRequester).param.seqNum == U64_MAX {
          return Abort;
        }
        CountApplication(isRequester);
      case NotStarted =>
        r := Err(InvalidStateLocal);
      case Unknown(_) =>
        r := Err(InvalidStateLocal);
    }

    method CountHandshake(isRequester: bool)
      requires state.Handshaking? && View().CanTick(isRequester)
      modifies this`handshake
      ensures View() == old(View()).Tick(isRequester)
    {
      var p := handshake.Get(isRequester);
      handshake := handshake.Set(isRequester, p.(seqNum := p.seqNum + 1));
    }

    method CountApplication(isRequester: bool)
      requires state.Established? && View().CanTick(isRequester)
      modifies this`app
      ensures View() == old(View()).Tick(isRequester)
    {
      var lane := app.Get(isRequester);
      app := app.Set(isRequester, lane.(param := lane.param.(seqNum := lane.param.seqNum + 1)));
    }

    method CreateDataSecretUpdate(k: KeySchedule, requester: bool, responder: bool) returns (r: Outcome<()>)
      requires Valid() && k.Valid()
      modifies this`app, this`backup
      ensures Valid()
      ensures (View(), r) == old(View()).CreateStep(k, requester, responder)
    {
      if requester {
        var ok := CreateDirection(k, true);
        if !ok {
          return Err(CryptoError);
        }
      }
      if responder {
        var ok := CreateDirection(k, false);
        if !ok {
          return Err(CryptoError);
        }
      }
      r := Ok(());
    }

    method CreateDirection(k: KeySchedule, isRequester: bool) returns (ok: bool)
      requires Valid() && k.Valid()
      modifies this`app, this`backup
      ensures Valid()
      ensures (View(), ok) == old(View()).CreateOne(k, isRequester)
    {
      backup := backup.Set(isRequester, app.Get(isRequester));
      match k.update(app.Get(isRequester).secret)
      case None =>
        ok := false;
      case Some(secret) =>
        app := app.Set(isRequester, app.Get(isRequester).(secret := secret));
        match k.keyIv(secret) {
          case None =>
            ok := false;
          case Some((key, iv)) =>
            app := app.Set(isRequester, app.Get(isRequester).(param := SecretParam(key, iv, 0)));
            ok := true;
        }
    }

    method ActivateDataSecretUpdate(requester: bool, responder: bool, useNewKey: bool)
      requires Valid()
      modifies this`app, this`backup
      ensures Valid()
      ensures View() == old(View()).ActivateStep(requester, responder, useNewKey)
    {
      if !useNewKey {
        if requester {
          app := app.Set(true, backup.Get(true));
        }
        if responder {
          app := app.Set(false, backup.Get(false));
        }
      } else {
        if requester {
          backup := backup.Set(true, DEFAULT_LANE);
        }
        if responder {
          backup := backup.Set(false, DEFAULT_LANE);
        }
      }
    }
  }
}
