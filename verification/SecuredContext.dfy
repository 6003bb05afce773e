/** `encode_secured_message` and `decode_secured_message`: the session layer over a transport. */
module SecuredContext {
  import opened Bytes
  import opened Aead
  import opened SecuredMessage
  import opened Session
  import opened Transport

  /** The application header, then the session. */
  function EncodeSecured(b: Binding, c: Cipher, s: Session, send: bytes, isRequester: bool, isApp: bool): (Session, Outcome<Encoded>)
    requires s.Valid()
  {
    match EncapApp(b, send, isApp, SENDER_BUFFER_SIZE)
    case Ok(app) => s.EncodeStep(c, app, SENDER_BUFFER_SIZE, isRequester)
    case Err(status) => (s, Err(status))
    case Abort => (s, Abort)
  }

  /** The encryption that sending makes, even one whose message is lost to a panic. */
  function SecuredQuery(b: Binding, c: Cipher, s: Session, send: bytes, isRequester: bool, isApp: bool): Option<Query>
    requires s.Valid()
  {
    match EncapApp(b, send, isApp, SENDER_BUFFER_SIZE)
    case Ok(app) => s.EncodeQuery(c, app, SENDER_BUFFER_SIZE, isRequester)
    case _ => None
  }

  /** The secured payload of a transport message. */
  function SecuredPayload(b: Binding, wire: bytes): Outcome<bytes> {
    var d :- Decap(b, wire, RECEIVER_BUFFER_SIZE);
    if d.secured then Ok(d.payload) else Err(DecapFail)
  }

  /** Only messages marked as secured reach the session, and no other byte of the header does. */
  lemma SecuredPayloadMeans(wire: bytes)
    ensures SecuredPayload(Mctp, wire) == if |wire| >= 1 && wire[0] == 6 && |wire| - 1 <= 4160 then Ok(wire[1..]) else Err(DecapFail)
    ensures var size := if |wire| < 8 then 0 else ObjectSize(FromLe(wire[4..8]));
            SecuredPayload(PciDoe, wire) ==
            if |wire| >= 8 && FromLe(wire[..2]) == 1 && wire[2] == 2 && 8 <= size <= |wire| && size - 8 <= 4160 then Ok(wire[8..size])
            else Err(DecapFail)
  {
    DecapMeans(wire, RECEIVER_BUFFER_SIZE);
  }

  /** The receiving side always decodes the response direction. */
  function DecodeSecured(b: Binding, c: Cipher, log: set<Query>, s: Session, payload: bytes, capacity: nat): (Session, Outcome<bytes>)
    requires s.Valid()
  {
    var r := s.DecodeStep(c, log, payload, RECEIVER_BUFFER_SIZE, false);
    match r.1
    case Ok(app) => (r.0, DecapApp(b, app, capacity))
    case _ => r
  }

  /** Exactly when a message gets through the sender. */
  lemma EncodeSecuredSucceedsIff(b: Binding, c: Cipher, s: Session, send: bytes, isRequester: bool, isApp: bool)
    requires c.Correct() && c.Total() && s.Valid()
    ensures EncodeSecured(b, c, s, send, isRequester, isApp).1.Ok? <==>
            && (s.state == Handshaking || s.state == Established) && Counter(s, isRequester) < 0xFFFF_FFFF_FFFF_FFFF
            && SecuredSize(b, s, |send|) <= 4160
    ensures EncodeSecured(b, c, s, send, isRequester, isApp).1.Ok? ==>
              |EncodeSecured(b, c, s, send, isRequester, isApp).1.value.wire| == SecuredSize(b, s, |send|)
  {
    if EncapApp(b, send, isApp, SENDER_BUFFER_SIZE).Ok? {
      EncodeSucceeds(s.framing, c, s.Param(isRequester), EncapApp(b, send, isApp, SENDER_BUFFER_SIZE).value, SENDER_BUFFER_SIZE);
    }
  }

  /** The counter of a direction in the current state. */
  function Counter(s: Session, isRequester: bool): nat {
    if s.state == Handshaking then (if isRequester then s.handshake.request else s.handshake.response).seqNum
    else (if isRequester then s.app.request else s.app.response).param.seqNum
  }

  /** A message of `n` bytes with its application header, length fields, associated data and tag. */
  function SecuredSize(b: Binding, s: Session, n: nat): nat {
    6 + s.framing.seqCount + (if b == Mctp then 1 else 0) + n + 2 + 16
  }

  /** What a caller can check before sending `n` bytes into a transport buffer of `capacity`. */
  predicate Sendable(b: Binding, s: Session, n: nat, isRequester: bool, capacity: nat) {
    && (s.state == Handshaking || s.state == Established) && Counter(s, isRequester) < 0xFFFF_FFFF_FFFF_FFFF
    && SecuredSize(b, s, n) <= 4160
    && (if b == Mctp then 1 + SecuredSize(b, s, n) else 8 + (SecuredSize(b, s, n) + 3) / 4 * 4) <= capacity
  }

  /** A message reaches the transport exactly when it is sendable. */
  lemma SendsIff(b: Binding, c: Cipher, s: Session, send: bytes, isRequester: bool, isApp: bool, capacity: nat)
    requires c.Correct() && c.Total() && s.Valid()
    ensures var e := EncodeSecured(b, c, s, send, isRequester, isApp).1;
            Sendable(b, s, |send|, isRequester, capacity) <==> e.Ok? && EncapSize(b, |e.value.wire|, capacity).Ok?
  {
    EncodeSecuredSucceedsIff(b, c, s, send, isRequester, isApp);
    EncapFitsIff(SecuredSize(b, s, |send|), capacity);
  }

  /** End-to-end round trip: a peer in the same session state decodes exactly what was sent and ends
      in the sender's state, over either transport, whatever pads or follows the message. */
  lemma EndToEnd(b: Binding, c: Cipher, log: set<Query>, s: Session, send: bytes, isApp: bool, wire: bytes, after: bytes, capacity: nat)
    requires c.Correct() && s.Valid()
    requires EncodeSecured(b, c, s, send, false, isApp).1.Ok?
    requires var e := EncodeSecured(b, c, s, send, false, isApp).1.value;
             && e.query in log && Encapsulates(b, e.wire, true, wire)
             && (b.Mctp? ==> |e.wire| + |after| <= RECEIVER_BUFFER_SIZE)
    requires |send| <= capacity
    ensures SecuredPayload(b, wire + after).Ok?
    ensures DecodeSecured(b, c, log, s, SecuredPayload(b, wire + after).value, capacity)
         == (EncodeSecured(b, c, s, send, false, isApp).0, Ok(send))
  {
    var app := EncapApp(b, send, isApp, SENDER_BUFFER_SIZE).value;
    var e := EncodeSecured(b, c, s, send, false, isApp).1.value;
    EncodeSucceeds(s.framing, c, s.Param(false), app, SENDER_BUFFER_SIZE);
    assert Aligned(|e.wire|) <= RECEIVER_BUFFER_SIZE;
    DecapOfEncap(b, e.wire, true, wire, after, RECEIVER_BUFFER_SIZE);
    var payload := SecuredPayload(b, wire + after).value;
    assert payload == e.wire + payload[|e.wire|..];
    DecodeOfEncode(s.framing, c, log, s.Param(false), app, SENDER_BUFFER_SIZE, payload[|e.wire|..], RECEIVER_BUFFER_SIZE);
    DecapAppOfEncapApp(b, send, isApp, SENDER_BUFFER_SIZE, capacity);
  }

  class SpdmContext {
    const binding: Binding
    const backend: Backend
    const sessions: seq<SpdmSession>

    ghost predicate Valid()
      reads this, sessions
    {
      && backend.cipher.Correct()
      && (forall i :: 0 <= i < |sessions| ==> sessions[i].Valid())
      && forall i, j :: 0 <= i < j < |sessions| ==> sessions[i] != sessions[j]
    }

    constructor (binding: Binding, backend: Backend, sessions: seq<SpdmSession>)
      ensures this.binding == binding && this.backend == backend && this.sessions == sessions
    {
      this.binding, this.backend, this.sessions := binding, backend, sessions;
    }

    ghost predicate IsSession(i: nat, sessionId: nat)
      reads this, sessions
    {
      && i < |sessions| && sessions[i].framing.sessionId == sessionId
      && forall j :: 0 <= j < i ==> sessions[j].framing.sessionId != sessionId
    }

    /** The first session with this id. */
    method GetSessionViaId(sessionId: nat) returns (r: Option<nat>)
      ensures r.Some? ==> IsSession(r.value, sessionId)
      ensures r.None? ==> forall j :: 0 <= j < |sessions| ==> sessions[j].framing.sessionId != sessionId
    {
      for i := 0 to |sessions|
        invariant forall j :: 0 <= j < i ==> sessions[j].framing.sessionId != sessionId
      {
        if sessions[i].framing.sessionId == sessionId {
          return Some(i);
        }
      }
      r := None;
    }

    method EncapAppInto(send: bytes, isApp: bool) returns (r: Outcome<bytes>)
      ensures r == EncapApp(binding, send, isApp, SENDER_BUFFER_SIZE)
    {
      var buffer := new byte[SENDER_BUFFER_SIZE](_ => 0);
      match binding
      case Mctp =>
        var used := MctpEncapApp(send, buffer, isApp);
        if used.IsFailure() {
          return used.PropagateFailure();
        }
        r := Ok(buffer[..used.value]);
      case PciDoe =>
        if |send| > buffer.Length {
          return Abort;
        }
        CopyInto(buffer, 0, send);
        r := Ok(buffer[..|send|]);
    }

    method Encap(payload: bytes, transport: array<byte>) returns (r: Outcome<nat>)
      modifies transport
      ensures r == EncapSize(binding, |payload|, transport.Length)
      ensures r.Ok? && |payload| <= SENDER_BUFFER_SIZE ==> Encapsulates(binding, payload, true, transport[..r.value])
    {
      match binding
      case Mctp => r := MctpEncap(payload, transport, true);
      case PciDoe => r := DoeEncap(payload, transport, true);
    }

    method EncodeWith(session: SpdmSession, app: bytes, transport: array<byte>, isRequester: bool) returns (r: Outcome<nat>)
      requires session.Valid() && backend.cipher.Correct()
      modifies session, backend, transport
      ensures session.Valid()
      ensures session.View() == old(session.View()).EncodeStep(backend.cipher, app, SENDER_BUFFER_SIZE, isRequester).0
      ensures Emitted(old(session.View()).EncodeStep(backend.cipher, app, SENDER_BUFFER_SIZE, isRequester).1, transport, r)
      ensures backend.log == old(backend.log) + Set(old(session.View()).EncodeQuery(backend.cipher, app, SENDER_BUFFER_SIZE, isRequester))
    {
      var secured := new byte[SENDER_BUFFER_SIZE](_ => 0);
      var size := session.EncodeSpdmSecuredMessage(backend, app, secured, isRequester);
      if size.IsFailure() {
        return size.PropagateFailure();
      }
      r := Encap(secured[..size.value], transport);
    }

    /** The outcome `e` of the session layer, carried to the transport buffer. */
    ghost predicate Emitted(e: Outcome<Encoded>, transport: array<byte>, r: Outcome<nat>)
      reads transport
    {
      if e.Ok? then
        && r == EncapSize(binding, |e.value.wire|, transport.Length)
        && (r.Ok? ==> r.value <= transport.Length && Encapsulates(binding, e.value.wire, true, transport[..r.value]))
      else r == e.PropagateFailure()
    }

    /** Only the addressed session changes; an unknown id is an error once the application header fits. */
    method EncodeSecuredMessage(sessionId: nat, send: bytes, transport: array<byte>, isRequester: bool, isApp: bool) returns (r: Outcome<nat>)
      requires Valid()
      modifies sessions, backend, transport
      ensures Valid()
      ensures !EncapApp(binding, send, isApp, SENDER_BUFFER_SIZE).Ok? ==>
                r == EncapApp(binding, send, isApp, SENDER_BUFFER_SIZE).PropagateFailure() && backend.log == old(backend.log)
      ensures EncapApp(binding, send, isApp, SENDER_BUFFER_SIZE).Ok? && (forall i: nat :: !old(IsSession(i, sessionId))) ==>
                r == Err(InvalidParameter) && backend.log == old(backend.log)
      ensures forall i: nat :: old(IsSession(i, sessionId)) ==>
                && sessions[i].View() == EncodeSecured(binding, backend.cipher, old(sessions[i].View()), send, isRequester, isApp).0
                && Emitted(EncodeSecured(binding, backend.cipher, old(sessions[i].View()), send, isRequester, isApp).1, transport, r)
                && backend.log == old(backend.log) + Set(SecuredQuery(binding, backend.cipher, old(sessions[i].View()), send, isRequester, isApp))
      ensures forall j: nat :: j < |sessions| && !old(IsSession(j, sessionId)) ==> sessions[j].View() == old(sessions[j].View())
      ensures forall i: nat :: old(IsSession(i, sessionId)) && backend.cipher.Total() ==>
                (r.Ok? <==> Sendable(binding, old(sessions[i].View()), |send|, isRequester, transport.Length))
    {
      var app := EncapAppInto(send, isApp);
      if app.IsFailure() {
        return app.PropagateFailure();
      }
      var found := GetSessionViaId(sessionId);
      if found.None? {
        return Err(InvalidParameter);
      }
      assert forall i: nat :: old(IsSession(i, sessionId)) ==> i == found.value;
      ghost var s := sessions[found.value].View();
      r := EncodeAt(found.value, app.value, transport, isRequester);
      EmittedIff(s, send, isRequester, isApp, transport, r);
    }

    lemma EmittedIff(s: Session, send: bytes, isRequester: bool, isApp: bool, transport: array<byte>, r: Outcome<nat>)
      requires backend.cipher.Correct() && s.Valid()
      requires Emitted(EncodeSecured(binding, backend.cipher, s, send, isRequester, isApp).1, transport, r)
      ensures backend.cipher.Total() ==> (r.Ok? <==> Sendable(binding, s, |send|, isRequester, transport.Length))
    {
      if backend.cipher.Total() {
        SendsIff(binding, backend.cipher, s, send, isRequester, isApp, transport.Length);
      }
    }

    method EncodeAt(i: nat, app: bytes, transport: array<byte>, isRequester: bool) returns (r: Outcome<nat>)
      requires Valid() && i < |sessions|
      modifies sessions, backend, transport
      ensures Valid()
      ensures sessions[i].View() == old(sessions[i].View()).EncodeStep(backend.cipher, app, SENDER_BUFFER_SIZE, isRequester).0
      ensures Emitted(old(sessions[i].View()).EncodeStep(backend.cipher, app, SENDER_BUFFER_SIZE, isRequester).1, transport, r)
      ensures backend.log == old(backend.log) + Set(old(sessions[i].View()).EncodeQuery(backend.cipher, app, SENDER_BUFFER_SIZE, isRequester))
      ensures forall j: nat :: j < |sessions| && j != i ==> sessions[j].View() == old(sessions[j].View())
    {
      r := EncodeWith(sessions[i], app, transport, isRequester);
    }

    method DecapInto(wire: bytes) returns (r: Outcome<bytes>)
      ensures r == SecuredPayload(binding, wire)
    {
      var buffer := new byte[RECEIVER_BUFFER_SIZE](_ => 0);
      var d: Outcome<(nat, bool)>;
      match binding {
        case Mctp => d := MctpDecap(wire, buffer);
        case PciDoe => d := DoeDecap(wire, buffer);
      }
      if d.IsFailure() {
        return d.PropagateFailure();
      }
      if !d.value.1 {
        return Err(DecapFail);
      }
      r := Ok(buffer[..d.value.0]);
    }

    method DecapAppInto(app: bytes, receive: array<byte>) returns (r: Outcome<nat>)
      modifies receive
      ensures var d := DecapApp(binding, app, receive.Length);
              if d.Ok? then r == Ok(|d.value|) && |d.value| <= receive.Length && receive[..|d.value|] == d.value
              else r == d.PropagateFailure()
    {
      match binding
      case Mctp =>
        var used := MctpDecapApp(app, receive);
        if used.IsFailure() {
          return used.PropagateFailure();
        }
        r := Ok(used.value.0);
      case PciDoe =>
        if |app| > receive.Length {
          return Abort;
        }
        CopyInto(receive, 0, app);
        r := Ok(|app|);
    }

    method DecodeWith(session: SpdmSession, payload: bytes, receive: array<byte>) returns (r: Outcome<nat>)
      requires session.Valid() && backend.cipher.Correct()
      modifies session, receive
      ensures session.Valid()
      ensures session.View() == DecodeSecured(binding, backend.cipher, backend.log, old(session.View()), payload, receive.Length).0
      ensures Obtained(DecodeSecured(binding, backend.cipher, backend.log, old(session.View()), payload, receive.Length).1, receive, r)
    {
      var app := new byte[RECEIVER_BUFFER_SIZE](_ => 0);
      var size := session.DecodeSpdmSecuredMessage(backend, payload, app, false);
      if size.IsFailure() {
        return size.PropagateFailure();
      }
      r := DecapAppInto(app[..size.value], receive);
    }

    ghost predicate Obtained(d: Outcome<bytes>, receive: array<byte>, r: Outcome<nat>)
      reads receive
    {
      if d.Ok? then r == Ok(|d.value|) && |d.value| <= receive.Length && receive[..|d.value|] == d.value
      else r == d.PropagateFailure()
    }

    method DecodeSecuredMessage(sessionId: nat, wire: bytes, receive: array<byte>) returns (r: Outcome<nat>)
      requires Valid()
      modifies sessions, receive
      ensures Valid()
      ensures !SecuredPayload(binding, wire).Ok? ==> r == SecuredPayload(binding, wire).PropagateFailure()
      ensures SecuredPayload(binding, wire).Ok? && (forall i: nat :: !old(IsSession(i, sessionId))) ==> r == Err(InvalidParameter)
      ensures SecuredPayload(binding, wire).Ok? ==> forall i: nat :: old(IsSession(i, sessionId)) ==>
                var d := DecodeSecured(binding, backend.cipher, backend.log, old(sessions[i].View()), SecuredPayload(binding, wire).value, receive.Length);
                sessions[i].View() == d.0 && Obtained(d.1, receive, r)
      ensures forall j: nat :: j < |sessions| && !old(IsSession(j, sessionId)) ==> sessions[j].View() == old(sessions[j].View())
    {
      var payload := DecapInto(wire);
      if payload.IsFailure() {
        return payload.PropagateFailure();
      }
      var found := GetSessionViaId(sessionId);
      if found.None? {
        return Err(InvalidParameter);
      }
      assert forall i: nat :: old(IsSession(i, sessionId)) ==> i == found.value;
      r := DecodeAt(found.value, payload.value, receive);
    }

    method DecodeAt(i: nat, payload: bytes, receive: array<byte>) returns (r: Outcome<nat>)
      requires Valid() && i < |sessions|
      modifies sessions, receive
      ensures Valid()
      ensures sessions[i].View() == DecodeSecured(binding, backend.cipher, backend.log, old(sessions[i].View()), payload, receive.Length).0
      ensures Obtained(DecodeSecured(binding, backend.cipher, backend.log, old(sessions[i].View()), payload, receive.Length).1, receive, r)
      ensures forall j: nat :: j < |sessions| && j != i ==> sessions[j].View() == old(sessions[j].View())
    {
      r := DecodeWith(sessions[i], payload, receive);
    }
  }

  /** From one context through the transport buffer to another: whatever is sendable arrives, and leaves the
      two sessions in the same state. */
  method Relay(sender: SpdmContext, receiver: SpdmContext, ghost i: nat, ghost j: nat, sessionId: nat, send: bytes, isApp: bool,
               transport: array<byte>, receive: array<byte>)
    returns (r: Outcome<nat>)
    requires sender.Valid() && receiver.Valid() && (forall a, b :: 0 <= a < |sender.sessions| && 0 <= b < |receiver.sessions| ==> sender.sessions[a] != receiver.sessions[b])
    requires transport != receive
    requires sender.binding == receiver.binding && sender.backend == receiver.backend && sender.backend.cipher.Total()
    requires sender.IsSession(i, sessionId) && receiver.IsSession(j, sessionId)
    requires sender.sessions[i].View() == receiver.sessions[j].View()
    requires Sendable(sender.binding, sender.sessions[i].View(), |send|, false, transport.Length) && |send| <= receive.Length
    modifies sender.sessions, receiver.sessions, sender.backend, transport, receive
    ensures r == Ok(|send|) && receive[..|send|] == send
    ensures sender.sessions[i].View() == receiver.sessions[j].View()
  {
    ghost var s := sender.sessions[i].View();
    var size := sender.EncodeSecuredMessage(sessionId, send, transport, false, isApp);
    ghost var b, c, wire := sender.binding, sender.backend.cipher, transport[..size.value];
    SendsIff(b, c, s, send, false, isApp, transport.Length);
    EncodeSecuredSucceedsIff(b, c, s, send, false, isApp);
    QueryIs(b, c, s, send, isApp);
    EndToEnd(b, c, sender.backend.log, s, send, isApp, wire, [], receive.Length);
    assert wire + [] == wire;
    r := receiver.DecodeSecuredMessage(sessionId, transport[..size.value], receive);
  }

  lemma QueryIs(b: Binding, c: Cipher, s: Session, send: bytes, isApp: bool)
    requires c.Correct() && s.Valid() && EncodeSecured(b, c, s, send, false, isApp).1.Ok?
    ensures SecuredQuery(b, c, s, send, false, isApp) == Some(EncodeSecured(b, c, s, send, false, isApp).1.value.query)
  {
    AttemptedIff(s.framing, c, s.Param(false), EncapApp(b, send, isApp, SENDER_BUFFER_SIZE).value, SENDER_BUFFER_SIZE);
  }
}
